# lldupdir and llreplace core, modelled in Dafny

The repository holds two command-line tools: **lldupdir**, which finds duplicate files,
and **llreplace**, a regex grep and replace tool. This project models the logic
behind them and proves properties of that model:

- **The duplicate session (`DupFiles` over `Command`).**
  - `add` passes each file through the include/exclude gate. It interns the file's directory prefix into `pathList` and records the index under the file's base name in `fileList`.
  - `end` reports the table in one of four modes: by name, by name with the extension ignored, by name plus content hash, or globally by size and then hash.
  - The `show*` calls keep the same/diff/miss counters and apply the delete policy.
- **The two-root level walk (`DupScan`).**
  - Each level lists the frontier of relative directories under both roots and settles every accepted file it finds.
  - A file is settled as a duplicate, a difference or a missing file, by length and then by hash.
  - The frontier is then replaced by the accepted subdirectories.
- **The driver (`InspectFiles` and the end of `main`).**
  - `InspectFiles` walks a tree and feeds every file to `add`.
  - `main` chooses between standard input, the flat walk and the two-root walk.
- **The parse utilities.**
  - Abbreviated option matching and glob patterns.
  - C escape decoding in place (`convertSpecialChar`).
  - The `getParts` name template and the `Split` tokenizer.
  - The llreplace copies of these helpers, and the file gate of `ReplaceFile`.
- **The best-fit buffer pool of the threaded hasher** (`getBuffer` and `releaseBuffer`).

The outside world is abstracted:

- The file system is a value `Fs`: a map from path to content, and a map from directory to its listing.
- Regular-expression compilation and full matching are the two functions of an `Engine`.
- The content digest, the string hash, `removeExtn` and the directory entry size are the functions of an `Env`.
- Deletions are recorded in `Command.deleteLog` instead of being performed.
- The interrupt flag is an `aborted` parameter.
- Standard input is the sequence of lines it would give.

State that the source updates in place lives in classes: `Command`, `DupFiles`, `DupScan`, the two `Parser`s, llreplace's `Globals` and the buffer `Pool`. Each loop is a method proved against a specification function. `std::map` and `std::set` iteration is modelled as ascending key order (`Ordering.SortedStrings`, `Ordering.SortedNats`).

Where the help text and the code disagree, the model follows the code:

- The help text says a pattern's '.' is rewritten to "[.]". `validPattern` rewrites only '*' and '?'.
- The same directory prefix can be given several `pathList` indices. `add` compares only with the last prefix and searches backwards from `lastPathIdx`.
- llreplace.cpp's `ConvertSpecialChar` resizes the string and writes no NUL. The stand-alone `convertSpecialChar` does write the NUL.
- `Split` with `maxSplit` below 1 still emits the text before the first delimiter. An empty first piece is emitted too (`SplitSpec("=a", "=", 0) == [""]`).

Where the code is evidently wrong (see "## Findings"), the model keeps both versions. The as-written definition comes with a lemma that exhibits the fault. The rest of the model runs on the corrected definition:

- The duplicate session and the two-root walk show, delete and hash through the corrected `absOrRel` (`Paths.AbsOrRel`), not the as-written cut (`Paths.AbsOrRelAsWritten`).
- `add` interns through the corrected `Intern`, not the as-written `lastPath != path` test (`DupTable.InternAsWritten`).
- `releaseBuffer` is modelled both ways. Only the corrected `Pool.ReleaseBuffer` keeps the pool's accounting invariant (`Accounted`: the total equals the bytes the blocks hold).

"## Left out" names the members that make the substitution. Every member built on them inherits it: the end-of-session reports (`DupFilesSession.DupFiles.End`, `ReportJustName`, `ReportSameName`, `ReportGlobal` and their passes), the report lemmas over shown paths such as `DupReport.JustNameDeletionsIff`, the two-root comparisons (`Scanner.DupScan.CompareFile`, `CompareFiles`, `FindDuplicates`, `Driver.WalkLevels`), and the flat walks that feed `add` (`Driver.InspectFiles`, `InspectAll`, `Run`).

## Model

| member | source | states |
|---|---|---|
| Strings.NCaseEqShorter | llreplace/parseutil.cpp:118-133 | comparing the first min(len) characters case-insensitively holds exactly when one option text is a case-insensitive prefix of the other |
| Strings.NCaseEqWhole | llreplace/command.cpp:576-595 | strncasecmp over the value's own length holds exactly when the value is a case-insensitive prefix of the keyword |
| Strings.Lower | llreplace/parseutil.cpp:118-133 | tolower moves exactly 'A'..'Z' up by 32 and leaves every other character alone |
| Paths.LastSlash | llreplace/llreplace.cpp:188-196 | the position of the last SLASH_CHAR, or -1 when there is none; no slash follows it |
| Paths.NameIsSlashFreeSuffix | llreplace/llreplace.cpp:188-196 | getName has no slash, and the directory prefix (which is empty or ends in a slash) followed by the name is the path; a path without a slash is its own name |
| Paths.TrailingSlashGivesEmptyName | llreplace/llreplace.cpp:190-194 | a path that ends in a slash has the empty name |
| Paths.GetNameOfJoined | llreplace/command.cpp:339-373 | splitting dir + name, where dir ends in a slash, gives back that dir and that name |
| Paths.JoinGrows | llreplace/lldupdir.cpp:77-84 | joining a non-empty entry name yields a path longer than its directory |
| Paths.JoinUnderRootIsLonger | llreplace/dupscan.cpp:88-110 | a relative path joined under a root is no shorter than the relative path |
| Paths.RejoinAppend | llreplace/command.cpp:307-318 | resolving a relative path against the working directory commutes with appending a name |
| Paths.AbsOrRel | llreplace/command.cpp:307-318 | with showAbsPath the path is shown unchanged; otherwise the shown path is either the path itself or a relative path that resolves back to it under the working directory |
| Paths.AbsOrRelAsWritten | llreplace/command.cpp:307-318 | absOrRel as written: the shown text is never longer than the path |
| Paths.AbsOrRelAgreesOnBoundary | llreplace/command.cpp:307-318 | when the working directory is followed by a slash in the path, the as-written and corrected absOrRel agree |
| Paths.AbsOrRelAsWrittenCutsRoot | llreplace/command.cpp:307-318 | as written, "/a/x" under the working directory "/" is shown as "/x", another file; the corrected version shows "a/x", which resolves back |
| Paths.AbsOrRelAsWrittenCutsSibling | llreplace/command.cpp:307-318 | as written, "/home/uabc/x" under "/home/u" is shown as "bc/x", which does not resolve back; the corrected version keeps the path |
| Globs.ReplaceChar | llreplace/parseutil.cpp:136-145 | replacing every c by a text that has no c leaves no c |
| Globs.ReplaceCharAppend | llreplace/parseutil.cpp:136-145 | ReplaceAll distributes over concatenation |
| Globs.GlobIsPerCharacter | llreplace/parseutil.cpp:136-145 | the two passes ('*' to ".*", then '?' to ".") equal one character-wise rewrite |
| Globs.GlobFacts | llreplace/parseutil.cpp:136-145 | the rewritten pattern contains no '?', and a pattern with no '*' or '?' is unchanged |
| Globs.NoWildcardsUnchanged | parseutil.cpp:83-92 | the character-wise rewrite is the identity on wildcard-free text |
| Globs.GlobExample | llreplace/parseutil.cpp:136-145 | "*.c?p" becomes ".*.c.p"; '.' is left as it is |
| Patterns.FirstMatchFrom | llreplace/llreplace.cpp:200-210 | the search in list order returns the first pattern that fully matches, or None when no pattern from there matches |
| Patterns.FileMatchesMeaning | llreplace/parseutil.cpp:171-180 | FileMatches yields emptyResult for an empty list or an empty name, and otherwise holds exactly when some pattern fully matches |
| Patterns.AcceptsIff | llreplace/command.cpp:280-289 | validFile accepts exactly when the name is non-empty, matches no exclude pattern and matches some include pattern (or that list is empty), and a non-empty full path matches no exclude-path pattern and some include-path pattern (or that list is empty) |
| Patterns.ExcludeNameWins | llreplace/command.cpp:281-284 | a name matched by an exclude pattern is rejected whatever the include lists say |
| FileSystem.FileLength | llreplace/dupscan.cpp:53-56 | fileLength is -1 exactly when stat fails, and the content length for a regular file |
| FileSystem.ChildIsLonger | llreplace/lldupdir.cpp:77-84 | an entry joined to its directory names a longer path, and a listed directory exists |
| Escapes.SimpleEscape | llreplace/parseutil.cpp:192-230 | the single-character escapes (\n \t \v \b \r \f \a \\ \? \' \") exclude 'x', the octal digits and NUL |
| Escapes.Digit | llreplace/parseutil.cpp:201-221 | a digit's value is below its base |
| Escapes.DigitRun | llreplace/parseutil.cpp:201-221 | the digit run is at most cap long, is made of digits, and stops at a non-digit unless the cap or the end of the text stops it |
| Escapes.Step | llreplace/parseutil.cpp:184-240 | one decoding step consumes at least one character, two for an escape, and copies a plain character unchanged |
| Escapes.SpaceRun | llreplace/parseutil.cpp:215-221 | the white space skipped before the %x field ends at the end of the text or at a non-space |
| Escapes.HexEscape | llreplace/parseutil.cpp:215-221 | the "\x" escape skips white space, then reads its field, and consumes more than the backslash and the 'x' when it succeeds |
| Escapes.HexField | llreplace/parseutil.cpp:215-221 | the %2x field (an optional sign and digits, two characters in all) is consumed, or the escape is unrecognised when it holds no digit |
| Escapes.HexSpaceExample | llreplace/parseutil.cpp:215-221 | white space before the digits is skipped and counted: "\x 41" is "A" |
| Escapes.HexMinusExample | llreplace/parseutil.cpp:215-221 | a '-' negates the field and the char cast keeps the low byte: "\x-1" is byte 255 |
| Escapes.HexPlusExample | llreplace/parseutil.cpp:215-221 | the sign uses one of the two characters of the field: "\x+41" is byte 4 followed by "1" |
| Escapes.HexSpaceNoDigitExample | llreplace/parseutil.cpp:215-224 | white space followed by a non-digit is the unrecognised-escape error |
| Escapes.DecodeFromLength | llreplace/parseutil.cpp:184-240 | the decoded text is never longer than the input, and plain text keeps its length |
| Escapes.DecodeLength | llreplace/parseutil.cpp:184-240 | a successful decode is no longer than the input, and is exactly as long iff the input has no backslash |
| Escapes.PlainTextUnchanged | llreplace/parseutil.cpp:184-240 | text without a backslash decodes to itself |
| Escapes.EscapeExamples | llreplace/parseutil.cpp:222-224 | "a\tb" decodes to a TAB; a trailing lone backslash and "\q" are errors at the backslash, with the text before it decoded |
| Escapes.OctalExample | llreplace/parseutil.cpp:201-214 | "\101" is 'A' |
| Escapes.OctalCapExample | llreplace/parseutil.cpp:201-214 | at most three octal digits are taken: "\0412" is "!2" |
| Escapes.OctalWrapExample | llreplace/parseutil.cpp:201-214 | the octal value is stored in a char: "\777" is byte 255 |
| Escapes.HexExamples | llreplace/parseutil.cpp:215-221 | "\x41g" is "Ag": at most two hex digits are read |
| Escapes.HexNoDigitExample | llreplace/parseutil.cpp:215-224 | "\x" without a hex digit is the unrecognised-escape error |
| Escapes.ScanDigits | llreplace/parseutil.cpp:201-221 | the digit loop consumes exactly the digit run and computes its value in the base |
| Escapes.ValueSnoc | llreplace/parseutil.cpp:201-221 | one more digit multiplies the value by the base and adds the digit |
| Escapes.DigitRunShift | llreplace/parseutil.cpp:201-221 | a digit run read from j equals the k digits already read plus the run after them |
| Escapes.SkipSpaces | llreplace/parseutil.cpp:215 | sscanf's loop over leading white space stops exactly where SpaceRun does |
| Escapes.ScanField | llreplace/parseutil.cpp:215-221 | reading an optional sign and then the digits the remaining width allows gives exactly HexField |
| Escapes.ScanHex | llreplace/parseutil.cpp:215-221 | the %2x%n read after the 'x' gives exactly HexEscape |
| Escapes.ReadUnit | llreplace/parseutil.cpp:184-240 | one advance of the input position over the buffer yields exactly the decoding step of the text |
| Escapes.WriteUnit | llreplace/parseutil.cpp:184-240 | one write at the output position keeps the invariant that the decoded prefix plus the rest of the decoding is the full decoding |
| Escapes.ConvertInPlace | parseutil.cpp:116-171 | the in-place rewrite succeeds iff the text decodes; it then writes the decoded text and a NUL after it and leaves the rest untouched; on a bad escape it has written the part decoded so far |
| Escapes.CStr | parseutil.cpp:116-171 | a C string is the prefix of the buffer up to the first NUL |
| Escapes.CStrIdempotent | llreplace/parseutil.cpp:184-240 | cutting at the first NUL twice is cutting once |
| Escapes.ConvertString | llreplace/llreplace.cpp:119-178 | the string is resized to its decoded text when it decodes, and a bad escape is reported with the part decoded so far |
| Template.NextChar | llreplace/parseutil.cpp:272-275 | the closing quote is searched from j: the result is at the quote or at the end |
| Template.NextCharIsFirst | llreplace/parseutil.cpp:272-275 | no earlier position holds the closing quote |
| Template.WellQuotedSkip | llreplace/parseutil.cpp:272-275 | skipping text without quotes keeps the selector well quoted |
| Template.HashRun | llreplace/parseutil.cpp:284-292 | the '#' run ends at the text's end or at a non-'#' |
| Template.HashRunIsHashes | llreplace/parseutil.cpp:284-292 | the run is made of '#' |
| Template.Digits | llreplace/parseutil.cpp:284-292 | the decimal digits of the number, at least one |
| Template.Zeros | llreplace/parseutil.cpp:284-292 | k zero characters |
| Template.NumField | llreplace/parseutil.cpp:289-291 | the zero-padded number keeps at most nine characters, as char numStr[10] does |
| Template.NumFieldRoundTrip | llreplace/parseutil.cpp:284-292 | a number that fits reads back as itself, padded to at least the width with zeros |
| Template.ParseDigits | llreplace/parseutil.cpp:284-292 | the decimal digits read back as the number |
| Template.ParseLeadingZeros | llreplace/parseutil.cpp:284-292 | leading zeros do not change the value read |
| Template.Item | llreplace/parseutil.cpp:270-298 | each selector item advances the read position and keeps the selector well quoted |
| Template.CopyQuoted | llreplace/parseutil.cpp:272-275 | the quoted text is copied without its quotes, and reading resumes after the closing quote |
| Template.CountHashes | llreplace/parseutil.cpp:284-288 | a run of k '#' gives width k + 1 and reading resumes after the run |
| Template.GetPart | llreplace/parseutil.cpp:271-297 | one pass of the loop body produces exactly one selector item |
| Template.GetParts | parseutil.cpp:257-307 | getParts appends the template expansion to outPart and keeps what outPart held |
| Template.ExpandItems | llreplace/parseutil.cpp:259-301 | 'E' expands to the extension, 'N' to the name, a quoted text to itself unquoted, k '#' to the number padded to k + 1, and any other character to itself |
| Template.PlainSelector | llreplace/parseutil.cpp:259-301 | a selector with no quote, 'E', 'N' or '#' expands to itself |
| Template.ExpandConcat | llreplace/parseutil.cpp:259-301 | the expansion of two selectors is the expansion of the first followed by that of the second, when no '#' run crosses the seam |
| Template.ExpandConcatFrom | llreplace/parseutil.cpp:259-301 | the same from any position of the first selector |
| Template.HashMarks | llreplace/parseutil.cpp:284-292 | k '#' characters |
| Splitting.FirstOf | llreplace/parseutil.hpp:102-114 | find_first_of returns a delimiter position at or after from, or the end for npos |
| Splitting.FirstOfIsFirst | llreplace/parseutil.hpp:102-114 | no delimiter lies before the position found |
| Splitting.Split | llreplace/parseutil.hpp:102-114 | the constructor's loop produces exactly the pieces of SplitSpec |
| Splitting.ChunksNext | llreplace/parseutil.hpp:106-108 | one loop pass emits the run before the next delimiter when it is non-empty, and spends one unit of the limit |
| Splitting.ChunksLast | llreplace/parseutil.hpp:112-113 | with no delimiter left or the limit spent, the remainder is the last piece if it is non-empty |
| Splitting.ChunksShape | llreplace/parseutil.hpp:106-113 | no piece is empty, and there are at most limit + 1 pieces from a position |
| Splitting.ChunksDelimFree | llreplace/parseutil.hpp:106-113 | every piece except the remainder after the limit is free of delimiters |
| Splitting.ChunksAreRuns | llreplace/parseutil.hpp:102-114 | when the limit is not reached, the pieces are exactly the maximal delimiter-free runs in order |
| Splitting.ChunksRemainder | llreplace/parseutil.hpp:106-113 | when the limit is reached, the last piece is the whole remainder, delimiters included |
| Splitting.Runs | llreplace/parseutil.hpp:102-114 | the maximal delimiter-free runs start with the text's first character when it is not a delimiter |
| Splitting.RunsOfRun | llreplace/parseutil.hpp:102-114 | a delimiter-free run followed by a delimiter is the first run |
| Splitting.Skip | llreplace/parseutil.hpp:106-113 | skipping b delimiters leaves b fewer ahead |
| Splitting.RunBeforeDelim | llreplace/parseutil.hpp:102-114 | no delimiter lies between a position and the next delimiter found |
| Splitting.SplitProperties | llreplace/parseutil.hpp:102-114 | with maxSplit = n >= 1: at most n pieces, none empty, all but an overflowing last one delimiter-free, and exactly the runs when the input has fewer than n delimiters |
| Splitting.NoDelimOnePiece | llreplace/parseutil.hpp:104-113 | an input without delimiters is one piece, and the empty input none |
| Splitting.SplitExamples | llreplace/parseutil.hpp:112 | "-a=" split on '=' with limit 2 has one piece; "a=b=c" with limit 2 gives "a" and "b=c"; "a==b" with limit INT_MAX gives "a" and "b" (empty runs are skipped); "=a" with limit 0 gives the one empty piece |
| ParseUtil.Parser.constructor | llreplace/parseutil.hpp:46-48 | both error counters start at zero and the set of accepted options is empty |
| ParseUtil.Parser.ShowUnknown | llreplace/parseutil.cpp:95-98 | optionErrCnt rises by exactly one and nothing else changes |
| ParseUtil.Parser.GetRegEx | llreplace/parseutil.cpp:102-114 | a bad escape throws with the counters unchanged; a decodable value compiles to the decoded pattern, or to the empty pattern with patternErrCnt raised by one |
| ParseUtil.Parser.ValidOption | llreplace/parseutil.cpp:118-133 | true iff the case-insensitive prefix rule holds; success adds validCmd to parseArgSet, and failure with reportErr raises optionErrCnt by one |
| ParseUtil.Parser.ValidPattern | llreplace/parseutil.cpp:102-145 | on an option match: validCmd joins parseArgSet, and the value is glob-rewritten. The call throws iff the rewritten value has a bad escape, with the list and patternErrCnt unchanged. Otherwise it returns true after appending the decoded pattern when it compiles, or the empty pattern with patternErrCnt + 1. On a mismatch: false, with the list, the value, parseArgSet and patternErrCnt unchanged and optionErrCnt + 1 iff reportErr |
| CParseUtil.Parser.constructor | llreplace/parseutil.hpp:46-47 | both error counters start at zero |
| CParseUtil.Parser.ShowUnknown | parseutil.cpp:45-48 | optionErrCnt rises by exactly one |
| CParseUtil.Parser.GetRegEx | parseutil.cpp:52-63 | the value is compiled without escape decoding; a compile error gives the empty pattern and raises patternErrCnt by one |
| CParseUtil.Parser.ValidOption | parseutil.cpp:67-80 | true iff the prefix rule holds; optionErrCnt rises by one only on failure with reportErr |
| CParseUtil.Parser.ValidPattern | parseutil.cpp:52-92 | true iff the option matches; then the value is glob-rewritten and getRegEx's pattern is appended: the compiled value, or the empty pattern with patternErrCnt + 1; otherwise the list, the value and patternErrCnt are unchanged and optionErrCnt rises by one iff reportErr |
| LlReplace.Globals.constructor | llreplace/llreplace.cpp:73 | the global optionErrCnt starts at zero |
| LlReplace.Globals.ValidOption | llreplace/llreplace.cpp:527-542 | true iff the prefix rule holds; optionErrCnt rises by one only on failure with reportErr |
| LlReplace.ReplaceFileCount | llreplace/llreplace.cpp:436-466 | ReplaceFile counts at most one, and counts one exactly when the name passes the gate and the replace or grep succeeds |
| LlReplace.GateIsValidFileWithoutPaths | llreplace/llreplace.cpp:442-444 | the gate is validFile with empty path lists: a non-empty name, not excluded, and included (an empty include list includes all) |
| BufferPool.SumUpdate | llreplace/threader.cpp:185-188 | changing one block's capacity changes the total by the difference |
| BufferPool.SumZeros | llreplace/threader.cpp:139-150 | empty blocks hold nothing |
| BufferPool.SumSingle | llreplace/threader.cpp:207-214 | when only one block holds bytes, the total is that block's capacity |
| BufferPool.Pool.constructor | llreplace/threader.cpp:139-150 | MAX_THREADS empty free blocks, a zero total and no max block |
| BufferPool.Pool.Select | llreplace/threader.cpp:165-182 | the scan finds the free block with the least excess over the request (lowest index on ties, an exact fit not counting) and the free block with the least shortfall, or NO_IDX when there is none |
| BufferPool.Pool.GetBuffer | llreplace/threader.cpp:153-205 | the index returned was free and is now used, and no other block changes; a roomy block is taken as it is; otherwise the best short block grows to the request, the total rises by the shortfall, and the block becomes the max block when there was none or the request exceeds the max block's capacity; an accounted total stays accounted |
| BufferPool.Pool.ReleaseBuffer | llreplace/threader.cpp:207-215 | the block is freed and no other changes; the max block is emptied and the total falls by exactly its capacity only when it is over MAX_TOTAL_SIZE; the total keeps equalling the sum of capacities |
| BufferPool.Pool.ReleaseBufferAsWritten | llreplace/threader.cpp:207-215 | as written: the block is freed and the total falls by its capacity, wrapping in size_t, while the capacity itself is kept |
| BufferPool.DriftAsWritten | llreplace/threader.cpp:185-214 | after two rounds of growing and releasing the max block, the total has wrapped below zero while the blocks still hold 4194304002 bytes |
| BufferPool.DriftCorrected | llreplace/threader.cpp:185-214 | with the block's storage released, the same rounds leave the total equal to the bytes held |
| Commands.DupDeletions | llreplace/command.cpp:597-632 | a duplicate deletes only inside showSame, never with hardlink, and per deleteFiles: the first path for First or Both, the second for Second or Both, each at most once and with the dryRun flag |
| Commands.GetFileTypesKeywords | llreplace/command.cpp:576-595 | a non-empty abbreviation of a keyword selects that keyword, a selection implies the abbreviation, and a value abbreviating none is rejected |
| Commands.DeleteNoneDeletesFirst | llreplace/command.cpp:580-581 | as written "none" selects First, so "-delete=none" deletes the first file of every duplicate pair; corrected it selects None and deletes nothing |
| Commands.Deletions | llreplace/command.cpp:394-396 | at most one deletion per listed path |
| Commands.DeletionsIff | llreplace/command.cpp:394-396 | a path is deleted exactly when it is listed and matches a delDupPath pattern, with the dryRun flag |
| Commands.DeletionsAppend | llreplace/command.cpp:394-396 | the deletions of two lists are those of each in order |
| Commands.Command.constructor | llreplace/command.hpp:66-109 | a fresh command has the declared defaults (showSame, sameName, showFiles Both, deleteFiles None, everything else off), zero counters, no deletions, and captures the working directory |
| Commands.Command.Begin | llreplace/command.hpp:118-120 | the base begin holds iff there is a root |
| Commands.Command.Shown | llreplace/command.cpp:307-318 | the corrected absOrRel (Paths.AbsOrRel) against the captured working directory: unchanged with showAbsPath, else a path that resolves back; the as-written cut is Paths.AbsOrRelAsWritten |
| Commands.Command.ValidFile | llreplace/command.cpp:280-305 | the gate's verdict, exactly AcceptsIff's; skipCnt rises by one on rejection and not at all when the file is accepted; nothing else changes |
| Commands.Command.Share | llreplace/command.hpp:130-143 | exactly the file lists, showFile, verbose, invert, sameName, justName, ignoreExtn and the dividers are copied; every other option, the counters and the log are kept, and the command itself is returned |
| Commands.Command.DeleteFile | llreplace/command.cpp:394-396 | one deletion with the dryRun flag is recorded |
| Commands.Command.ShowDuplicate | llreplace/command.cpp:597-632 | sameCnt rises by one, the other counters are kept, and the policy's deletions are recorded |
| Commands.Command.ShowDifferent | llreplace/command.cpp:634-647 | diffCnt rises by one; nothing is deleted |
| Commands.Command.ShowMissing | llreplace/command.cpp:649-659 | missCnt rises by one; nothing is deleted |
| DupTable.Dec | llreplace/command.cpp:352-356 | the unsigned decrement: one less above zero, wrapping to UINT_MAX at zero |
| DupTable.SearchDown | llreplace/command.cpp:352-356 | the backward search finds the highest index at or below the start holding the prefix, or -1 when none does |
| DupTable.Lookup | llreplace/command.cpp:345-362 | the prefix ends up at the returned index, and pathList is either kept or grown by exactly that prefix at the old size |
| DupTable.Intern | llreplace/command.cpp:345-362 | the same, and lastPath / lastPathIdx are left pointing at the prefix |
| DupTable.InternAsWrittenEmptyPrefix | llreplace/command.cpp:346-369 | as written, a first file with no directory prefix records index 0 in an empty pathList; the corrected Intern appends the empty prefix |
| DupTable.InternAgreesWhenInterned | llreplace/command.cpp:345-362 | once pathList is non-empty, the as-written and corrected interning agree |
| DupTable.FullPaths | llreplace/command.cpp:369-370 | one full path per recorded index |
| DupTable.FullPathsIndex | llreplace/command.cpp:364-367 | each full path is the interned prefix followed by the name, the identity add asserts |
| DupTable.FullPathsGrow | llreplace/command.cpp:358-362 | appending to pathList does not change the full paths of indices already recorded |
| DupTable.WithNameSnoc | llreplace/command.cpp:339-373 | the files added under a name grow by the new file exactly when it has that name |
| DupTable.AddStep | llreplace/command.cpp:339-373 | one add keeps the table valid |
| DupTable.AddStepAccepted | llreplace/command.cpp:339-373 | an accepted add interns the prefix and appends its index to the name's list |
| DupTable.AddStepShape | llreplace/command.cpp:345-370 | pathList grows by at most one at its end; the name's list gains exactly the new index; other lists are kept |
| DupTable.AddStepRepresents | llreplace/command.cpp:339-373 | an add keeps the table representing exactly the files added so far |
| DupTable.AddStepEntries | llreplace/command.cpp:339-373 | after an add, every name's recorded paths are the added files of that name, in order |
| DupTable.AddStepNames | llreplace/command.cpp:339-373 | after an add, every added file's name is a key |
| DupTable.AddStepEntry | llreplace/command.cpp:339-373 | the same for one name |
| DupTable.WithNameHasName | llreplace/command.cpp:339-373 | a name with recorded files was the name of some added file |
| DupTable.Accepted | llreplace/command.cpp:339-373 | the accepted paths are a sub-list of the offered ones |
| DupTable.AcceptedAppend | llreplace/command.cpp:339-373 | the accepted files of a + b are those of a followed by those of b |
| DupTable.AcceptedCons | llreplace/command.cpp:339-373 | the accepted files of a list are those of its head followed by those of its tail |
| DupTable.AddAll | llreplace/command.cpp:339-373 | a sequence of adds keeps the table valid and grows pathList by at most one per file |
| DupTable.AddStepGrows | llreplace/command.cpp:358-362 | pathList is append-only, by at most one per add |
| DupTable.AddAllAppend | llreplace/command.cpp:339-373 | adding a + b is adding a then b |
| DupTable.AddAllRepresents | llreplace/command.cpp:339-373 | after any sequence of adds the table represents exactly the accepted files, each recorded under its name with a prefix that rebuilds it |
| DupReport.Plus | llreplace/command.cpp:400-574 | reports add up field by field |
| DupReport.RepresentsIndexed | llreplace/command.cpp:339-373 | a represented table has every index in range and no empty list |
| DupReport.ShownPaths | llreplace/command.cpp:384-398 | one shown path per recorded index |
| DupReport.ShownPathsNameFiles | llreplace/command.cpp:384-398 | each shown path is prefix + name, made relative unless showAbsPath |
| DupReport.JustNameDeletionsIff | llreplace/command.cpp:435-444 | in justName mode a path is deleted exactly when it is a shown instance of a name recorded more than once that matches delDupPath |
| DupReport.JustNameCounts | llreplace/command.cpp:435-444 | over the names in map order, the k - 1 excess per name sums to the files added minus the distinct names |
| DupReport.StemPairs | llreplace/command.cpp:409-433 | each name is paired with its extension-less stem |
| DupReport.NoExtnMembers | llreplace/command.cpp:409-433 | a name is grouped under a stem exactly when it is recorded and its stem is that one; no group is empty |
| DupReport.NoExtnNamesOf | llreplace/command.cpp:409-433 | the stem groups list recorded names |
| DupReport.StemCounts | llreplace/command.cpp:409-433 | over the stems in map order, the g - 1 excess per group sums to the distinct names minus the distinct stems |
| DupReport.Hashes | llreplace/command.cpp:451-459 | one hash per instance, that instance's hash |
| DupReport.TallyAll | llreplace/command.cpp:451-459 | hashDups counts each hash's instances |
| DupReport.DupFlags | llreplace/command.cpp:461-479 | one flag per instance |
| DupReport.DupFlagsShared | llreplace/command.cpp:461-479 | an instance is flagged exactly when another instance shares its hash |
| DupReport.FlaggedPairs | llreplace/command.cpp:461-479 | the bucketed instances are a sub-list of the recorded ones |
| DupReport.HashBuckets | llreplace/command.cpp:461-479 | every bucket holds recorded indices |
| DupReport.TwinedBucket | llreplace/command.cpp:481-497 | without invert, a reported hash bucket has at least two members |
| DupReport.LonelyBucket | llreplace/command.cpp:499-502 | with invert, a bucket has at most one member |
| DupReport.TwinsCount | llreplace/command.cpp:461-497 | without invert, the bucket sizes sum to the number of flagged instances |
| DupReport.NameReportCountsTwins | llreplace/command.cpp:445-502 | in sameName mode without invert, sameCnt rises by the number of instances whose hash another instance shares; without verbose diffCnt is unchanged, with verbose same + diff is the number of instances |
| DupReport.NameReportInvertIsQuiet | llreplace/command.cpp:499-502 | with invert and without verbose a name contributes nothing |
| DupReport.CrowdDeletionsLonely | llreplace/command.cpp:481-497 | no bucket of one member deletes anything |
| DupReport.SizeKey | llreplace/command.cpp:511-523 | the size key is the length, or the path's string hash when the length is zero |
| DupReport.EntryParts | llreplace/command.cpp:511-523 | one sized entry per recorded instance |
| DupReport.SizePairs | llreplace/command.cpp:511-523 | every sized entry names a recorded prefix |
| DupReport.HashParts | llreplace/command.cpp:526-539 | one hashed entry per sized entry |
| DupReport.HashPairs | llreplace/command.cpp:526-539 | every hashed entry names a recorded prefix |
| DupReport.SizeBuckets | llreplace/command.cpp:511-523 | the size buckets are non-empty and name recorded prefixes |
| DupReport.GlobalHashBuckets | llreplace/command.cpp:526-539 | the hash buckets are non-empty and name recorded prefixes |
| DupReport.EntryPartsCount | llreplace/command.cpp:511-523 | bucketing distinct names gives one entry per recorded instance of them |
| DupReport.SizeBucketsHoldAll | llreplace/command.cpp:511-523 | the size buckets hold exactly as many entries as files were added |
| DupReport.GlobalCounts | llreplace/command.cpp:541-570 | in global mode without invert each reported bucket of n members adds n - 1 to sameCnt, so sameCnt rises by the members minus the buckets, and diffCnt is unchanged |
| DupFilesSession.DupFiles.constructor | llreplace/command.hpp:158-160 | a fresh session: a 'f' command with the defaults and an empty table |
| DupFilesSession.DupFiles.Begin | llreplace/command.cpp:329-334 | begin empties fileList and pathList, sets lastPathIdx to 0, keeps lastPath, and returns true |
| DupFilesSession.DupFiles.Add | llreplace/command.cpp:339-373 | add returns 1 and records the file exactly when validFile accepts it, else returns 0 and counts a skip with the table unchanged; the table still represents the files added |
| DupFilesSession.DupFiles.Record | llreplace/command.cpp:345-370 | the table becomes the accepted add step and the file joins the added files |
| DupFilesSession.DupFiles.Locate | llreplace/command.cpp:345-362 | the prefix is interned as Intern specifies, the name lists are kept |
| DupFilesSession.DupFiles.PrintPaths | llreplace/command.cpp:384-398 | printPaths records the deletions of the shown instances that match delDupPath, and changes no counter |
| DupFilesSession.DupFiles.PrintPath | llreplace/command.cpp:384-398 | one pass of that loop |
| DupFilesSession.DupFiles.JustNameEntry | llreplace/command.cpp:435-444 | one name adds its k - 1 excess to sameCnt |
| DupFilesSession.DupFiles.VisitName | llreplace/command.cpp:435-444 | one pass of the justName loop, in map order |
| DupFilesSession.DupFiles.ReportJustName | llreplace/command.cpp:435-444 | sameCnt rises by the excess over all names in map order |
| DupFilesSession.DupFiles.PrintNames | llreplace/command.cpp:409-433 | a stem group's names are printed with their paths and those deletions recorded |
| DupFilesSession.DupFiles.PrintName | llreplace/command.cpp:409-433 | one pass of that loop |
| DupFilesSession.DupFiles.ReportStems | llreplace/command.cpp:409-433 | with ignoreExtn sameCnt rises by the excess over all stem groups in map order |
| DupFilesSession.DupFiles.StemEntry | llreplace/command.cpp:409-433 | one stem group of g names adds g - 1 |
| DupFilesSession.DupFiles.VisitStem | llreplace/command.cpp:409-433 | one pass of the stem loop, in map order |
| DupFilesSession.DupFiles.ReportStemGroups | llreplace/command.cpp:409-433 | the stem loop adds the excess of every group |
| DupFilesSession.GroupByStem | llreplace/command.cpp:409-420 | the loop builds exactly the stem grouping |
| DupFilesSession.DupFiles.HashInstances | llreplace/command.cpp:451-459 | the hash loop builds hashDups as the tally of the instances' hashes and caches each instance's hash |
| DupFilesSession.DupFiles.ClassifyInstances | llreplace/command.cpp:461-479 | the classification loop builds the hash buckets and keeps the counters of the NameReport so far |
| DupFilesSession.DupFiles.ShowInstances | llreplace/command.cpp:461-479 | with verbose, each instance adds one to sameCnt when another instance shares its hash, and is then passed to the deletion test, and one to diffCnt otherwise |
| DupFilesSession.DupFiles.ShowInstance | llreplace/command.cpp:461-479 | one pass of that loop |
| DupFilesSession.GroupInstances | llreplace/command.cpp:461-479 | the loop builds exactly HashBuckets, flipped by invert |
| DupFilesSession.DupFiles.ReportBucket | llreplace/command.cpp:481-497 | a bucket adds its size to sameCnt and records the deletions of its members |
| DupFilesSession.DupFiles.ReportMember | llreplace/command.cpp:481-497 | one pass of that loop |
| DupFilesSession.DupFiles.VisitHash | llreplace/command.cpp:481-497 | one crowded bucket, in hash order |
| DupFilesSession.DupFiles.ReportHashBuckets | llreplace/command.cpp:481-497 | sameCnt rises by the sizes of the crowded buckets |
| DupFilesSession.DupFiles.SameNameEntry | llreplace/command.cpp:447-502 | one name with several instances changes the counters and the log by its NameReport |
| DupFilesSession.DupFiles.CompareInstances | llreplace/command.cpp:451-479 | the hash and classification loops build the buckets and add the verbose counts |
| DupFilesSession.DupFiles.VisitSameName | llreplace/command.cpp:445-502 | one pass of the sameName loop, in map order |
| DupFilesSession.DupFiles.ReportSameName | llreplace/command.cpp:445-502 | the sameName mode changes the counters and the log by SameNameReport over all names in map order |
| DupFilesSession.SizeGroup | llreplace/command.cpp:511-523 | the loop builds exactly the size buckets |
| DupFilesSession.AddEntryParts | llreplace/command.cpp:511-523 | one name's instances join their size buckets |
| DupFilesSession.HashGroup | llreplace/command.cpp:526-539 | the loop builds exactly the hash buckets of the crowded size buckets, flipped by invert |
| DupFilesSession.HashSizeBucket | llreplace/command.cpp:526-539 | one size bucket's members join their hash buckets |
| DupFilesSession.AddHashParts | llreplace/command.cpp:526-539 | the same, entry by entry |
| DupFilesSession.DupFiles.ReportGlobalBuckets | llreplace/command.cpp:541-570 | the report loop changes sameCnt and the log as GlobalReport does |
| DupFilesSession.DupFiles.VisitGlobalHash | llreplace/command.cpp:541-570 | one hash bucket in hash order: n - 1 to sameCnt unless invert, and its deletions |
| DupFilesSession.DupFiles.ReportGlobalBucket | llreplace/command.cpp:547-569 | each member of a bucket matching delDupPath is deleted with dryRun |
| DupFilesSession.DupFiles.ReportGlobal | llreplace/command.cpp:503-572 | the global mode changes the counters and the log by GlobalReport |
| DupFilesSession.DupFiles.End | llreplace/command.cpp:400-574 | end returns true and changes the counters and the log by EndReport of the mode the options select |
| DupScanning.EntriesFoundIff | llreplace/dupscan.cpp:88-110 | a path is found in one listing exactly when some entry of the wanted kind, accepted by validFile, joins to it |
| DupScanning.RootsFoundIff | llreplace/dupscan.cpp:88-110 | a path is found under the roots exactly when some root's listing finds it |
| DupScanning.LevelFoundIff | llreplace/dupscan.cpp:88-132 | a path is found at a level exactly when some frontier directory under some root finds it |
| DupScanning.FoundIff | llreplace/dupscan.cpp:88-132 | the same over the frontier set, whatever its order |
| DupScanning.LevelSnoc | llreplace/dupscan.cpp:88-132 | the found set and the skips of a level are unions and sums over its directories |
| DupComparing.EffectOfAppend | llreplace/dupscan.cpp:135-204 | the effect of two event sequences is the effect of each in turn |
| DupComparing.EffectCount | llreplace/dupscan.cpp:135-204 | every event adds one to exactly one of same, diff, miss or the hand-offs |
| DupComparing.EffectNoHandOff | llreplace/dupscan.cpp:171-172 | without a hand-off event nothing is handed to the hasher |
| DupComparing.NameEvent | llreplace/dupscan.cpp:153-159 | in justName mode equal lengths are a duplicate, two present unequal lengths a difference, and otherwise the file is missing on the side whose length is -1 |
| DupComparing.LensMatchIff | llreplace/dupscan.cpp:161-163 | lengths match exactly when every other root's instance has the first one's length |
| DupComparing.NameEventsSettled | llreplace/dupscan.cpp:153-159 | the justName comparisons settle each pair with one show call |
| DupComparing.HashEventsSettled | llreplace/dupscan.cpp:174-195 | the hash comparisons settle each pair with one show call |
| DupComparing.LevelEventsSettled | llreplace/dupscan.cpp:135-204 | without threads (or in justName mode) every file is settled and nothing is handed off |
| DupVerdicts.Compare | llreplace/dupscan.cpp:135-204 | for two roots: justName decides by lengths alone; otherwise equal lengths compare hashes (equal gives Duplicate, else Different), with threads they are handed off instead, and unequal lengths give Different when both exist and Missing otherwise, with no hash computed |
| DupVerdicts.TwoRoots | llreplace/dupscan.cpp:135-204 | with two roots and no signal, each file produces exactly the one event Compare gives |
| DupVerdicts.AbortedSettlesNothing | llreplace/dupscan.cpp:135-204 | under the signal a file settles nothing (it is only handed off when threads would take it) |
| DupVerdicts.TwoRootLevelEvents | llreplace/dupscan.cpp:135-204 | with two roots a level produces exactly one event per file, the one Compare gives |
| DupVerdicts.TwoRootLevelTotals | llreplace/dupscan.cpp:135-204 | with two roots the level's same + diff + miss + hand-offs equal its file count, and without threads nothing is handed off |
| DupVerdicts.DigestFree | llreplace/dupscan.cpp:153-201 | when names alone decide, when threads take the file, or when lengths differ, the verdict does not depend on the content digest |
| Scanner.AbortedLevelIsQuiet | llreplace/dupscan.cpp:104-107 | under the signal a level compares nothing and finds no directory |
| Scanner.DupScan.constructor | llreplace/dupscan.cpp:59-60 | the scanner shares the command and has handed nothing off |
| Scanner.DupScan.ScanDirectory | llreplace/dupscan.cpp:95-103 | the entry loop adds exactly the accepted entries of the wanted kind and counts the rejected ones as skips |
| Scanner.DupScan.GatherRoots | llreplace/dupscan.cpp:92-103 | the root loop gathers the finds of every root |
| Scanner.DupScan.Gather | llreplace/dupscan.cpp:88-132 | the gathered set is the level's finds, or empty under the signal |
| Scanner.DupScan.GetFiles | llreplace/dupscan.cpp:88-110 | getFiles yields the accepted files under every root at the frontier, and the empty set under the signal; skipCnt rises by the rejections |
| Scanner.DupScan.GetDirs | llreplace/dupscan.cpp:113-132 | getDirs yields the accepted subdirectories likewise |
| Scanner.DupScan.CompareFile | llreplace/dupscan.cpp:147-203 | one file changes the counters, the log and the hand-offs by its events |
| Scanner.DupScan.SettleFile | llreplace/dupscan.cpp:165-203 | after the length loop, the file is handed off, hashed or settled by lengths |
| Scanner.DupScan.HashFile | llreplace/dupscan.cpp:174-195 | the hash loop settles the file by the hash comparisons |
| Scanner.DupScan.ReportLengths | llreplace/dupscan.cpp:197-202 | unequal lengths: Different when both exist, else Missing |
| Scanner.DupScan.CompareLengths | llreplace/dupscan.cpp:153-163 | the length loop: in justName mode it settles by names, otherwise it decides whether all lengths match |
| Scanner.DupScan.CompareLength | llreplace/dupscan.cpp:153-163 | one pass of that loop |
| Scanner.DupScan.CompareByName | llreplace/dupscan.cpp:153-159 | one justName comparison |
| Scanner.DupScan.CompareHashes | llreplace/dupscan.cpp:174-195 | every other root's hash is compared with the first one's, under the shown path |
| Scanner.DupScan.CompareHash | llreplace/dupscan.cpp:174-195 | one pass of that loop |
| Scanner.DupScan.CompareFiles | llreplace/dupscan.cpp:135-204 | compareFiles changes the counters by the level's events, file by file in set order |
| Scanner.DupScan.CompareNext | llreplace/dupscan.cpp:135-204 | one pass of that loop |
| Scanner.DupScan.ScanFiles | llreplace/dupscan.cpp:81-85 | scanFiles compares exactly the files getFiles finds |
| Scanner.DupScan.FindDuplicates | llreplace/dupscan.cpp:63-71 | the frontier is replaced by the accepted subdirectories found under every root, true is returned iff that set is non-empty, and the level's files are compared |
| Scanner.DupScan.Done | llreplace/dupscan.cpp:74-78 | done waits for exactly the files handed off, none without threads |
| Driver.HeightShrinks | llreplace/lldupdir.cpp:77-84 | a longer path below a directory is nearer the bottom of the tree, so the recursion ends |
| Driver.VisitBelow | llreplace/lldupdir.cpp:61-87 | a regular file visits just itself; a directory visits only longer paths, and none under the signal |
| Driver.VisitUpToBelow | llreplace/lldupdir.cpp:77-84 | every path visited from a listing lies below its directory |
| Driver.VisitUpToGrows | llreplace/lldupdir.cpp:77-84 | visiting more entries never visits fewer files |
| Driver.AddOne | llreplace/lldupdir.cpp:69-71 | one add counts the file iff it is accepted |
| Driver.WalkedGrows | llreplace/lldupdir.cpp:77-84 | consecutive walks compose |
| Driver.WalkedValid | llreplace/lldupdir.cpp:61-87 | a walk from a represented table leaves a valid session |
| Driver.InspectFiles | llreplace/lldupdir.cpp:61-87 | a regular file is added and its result returned; a directory adds every non-directory entry below it in listing order and stops under the signal (the source's non-empty-name test always holds, since a listed entry joins to a non-empty path); the count returned is the files accepted |
| Driver.InspectListing | llreplace/lldupdir.cpp:77-84 | the entry loop over a directory |
| Driver.InspectNext | llreplace/lldupdir.cpp:77-84 | one pass of that loop |
| Driver.InspectEntry | llreplace/lldupdir.cpp:78-83 | one entry: recursion into a directory, add for a named file |
| Driver.Checked | llreplace/lldupdir.cpp:371-384 | one "Files Checked" count per path |
| Driver.VisitAllGrows | llreplace/lldupdir.cpp:371-384 | more paths visit no fewer files |
| Driver.InspectAll | llreplace/lldupdir.cpp:371-384 | the flat loops inspect every path in order and return each one's count |
| Driver.InspectArg | llreplace/lldupdir.cpp:371-384 | one pass of those loops |
| Driver.LevelsFoundIff | llreplace/lldupdir.cpp:385-393 | the first n levels found something exactly when each frontier from 1 to n is non-empty |
| Driver.FrontierParent | llreplace/dupscan.cpp:113-132 | every directory of a frontier comes from a directory of the one before |
| Driver.KeptIsLonger | llreplace/dupscan.cpp:113-132 | a kept subdirectory is longer than its parent |
| Driver.FrontierDepth | llreplace/dupscan.cpp:113-132 | a directory at level n is at least n characters long |
| Driver.FrontierEnds | llreplace/lldupdir.cpp:385-393 | a frontier can only be non-empty down to the depth of the tree, so the level loop ends |
| Driver.WalkLevels | llreplace/lldupdir.cpp:385-393 | starting from {""}, levels run until one finds no directory, each earlier level having found one, or not at all under the signal; the counters and skips are those of the levels run |
| Driver.WalkFrom | llreplace/lldupdir.cpp:385-393 | the rest of the while loop |
| Driver.WalkStep | llreplace/lldupdir.cpp:385-393 | one level: level rises by one for a level that found something |
| Driver.NextLevel | llreplace/lldupdir.cpp:385-393 | one findDuplicates call extends the counters and skips by one level |
| Driver.ChooseBranch | llreplace/lldupdir.cpp:370-394 | no scan unless both error counters are zero and a root is given; a single "-" reads standard input; two roots with sameName and not ignoreExtn walk the two roots; everything else is the flat walk |
| Driver.FlatPaths | llreplace/lldupdir.cpp:371-384 | the flat loops take the input lines for "-", the arguments for the flat walk, and nothing otherwise |
| Driver.Begun | llreplace/command.cpp:329-334 | the table after begin is empty and keeps lastPath |
| Driver.WalkTwoRoots | llreplace/lldupdir.cpp:384-394 | the two-root branch changes the counters and skips by the levels it walks and then waits in done |
| Driver.ScanBranch | llreplace/lldupdir.cpp:370-394 | the flat branches add every accepted file and keep the counters; the two-root branch keeps the table |
| Driver.Run | llreplace/lldupdir.cpp:361-407 | begin, the branch ChooseBranch selects, and end: the table holds exactly the accepted files of the flat branch, and the counters and log rise by the walk and by EndReport |

## Left out

- The hasher: `Hasher::compute`, `findDupsAsync` and `waitForAsync` come from a header that is not part of this model. A file's hash is `Env.digest` of its content. The threaded path is modelled as a hand-off list, and `DupScan.Done` returns that list.
- md5.cpp and md5.hpp: their callers in command.cpp are commented out.
- The file system primitives (`Directory_files`, `DirUtil::join`, `removeExtn`, `fileLength`, `deleteFile`) are not part of this model. They are replaced by `Fs`, `Env` and the deletion log. `WellFormed` (no cycles, children longer than their parents) stands for the absence of symbolic-link loops.
- Regular expressions: `std::regex` compilation and full matching are the `Engine` functions. `Colors::colorize` and `replaceRE` are left out.
- All console output is left out, including the messages of the show* calls, the printed paths and the final summary line of lldupdir.cpp:400-406 (Files = same + diff + miss + skip).
- The interrupt signal is one `aborted` value per call. The model does not capture a signal arriving half way through a loop.
- The hardlink option is explicitly unimplemented in the source. It only stops deletion.
- Option parsing of lldupdir and llreplace, `showHelp`, the timing code, the locale code, `RunCommand`, `RunExtension`, `print`, `FindGrep`, `ReplaceFile(filepath, filename)` and `printParts` are process, text and console plumbing.
- The `Split` constructor over `find_of`: its `Find` returns an offset relative to the start and never npos, so its behaviour is ill-defined.
- The thread pool (`ThreadJob`, `Threader::init`, `runIt`, `waitForAll`, `clearDoneJobs`), the lock and the semaphore are concurrency and are left out.
- `getBuffer`'s blocking wait-and-retry is replaced by the precondition that some block is free. `findBuffer` only takes the lock and calls `getBuffer`, so `Pool.GetBuffer` stands for both.
- BufferPool.Pool.GetBuffer: `reserve` may allocate more than requested; the model sets the capacity to exactly the request.
- DupFilesSession.DupFiles.Add: requires pathList to stay below UINT_MAX entries, so the 32-bit wrap of the unsigned index is not modelled. InspectFiles, InspectAll and Run carry the same bound on the number of files visited.
- Commands.Command.ShowDuplicate: the counters are unbounded; the source's unsigned wrap-around after 2^32 files is not modelled. The same holds for every counter update.
- Scanner.DupScan.FindDuplicates: requires at least one root, as main always passes two.
- Template.GetParts: requires a well-quoted selector (every quote closed) and a number below 2^32. The source reads past the end on an unclosed quote.
- The `\x` escape with no hex digit after it: sscanf then stores nothing in `n`, so the source reads a stale or unset value; the model treats it as the unrecognised-escape error.
- Escapes.HexField: a "0x" prefix inside the two-character field is read as the digit 0 followed by a plain 'x'. The C library's %x may consume the 'x' as a prefix as well.
- Paths.AbsOrRelAsWritten: a path equal to the working directory is excluded by its requires. The source then returns a pointer one past the terminating NUL. This happens in printPaths when the working directory is "/" and a file lies directly under it.
- Commands.Command.Shown: computes the corrected absOrRel, not the as-written cut of command.cpp:307-318. Under the working directory "/home/u" the source shows a file of "/home/uabc/" without its first characters. Under "/" it shows "/a/x" as "/x".
- DupReport.ShownPaths: built on the corrected absOrRel, so printPaths' sibling cut and root cut are not reproduced.
- ShownPathsNameFiles: that each shown path resolves back to the file holds of the corrected absOrRel only, not of printPaths as written.
- PrintPaths: DupFilesSession.DupFiles.PrintPaths, and its pass PrintPath, show and test for deletion the corrected absOrRel of each path, where the source uses the as-written cut.
- HashFile: Scanner.DupScan.HashFile hashes the joined path. The source hashes absOrRel(join), which names the same file only under the corrected absOrRel. As written it may name another file or none.
- DupVerdicts.Compare: shows the corrected paths and hashes the joined path (the same substitution as HashFile).
- Scanner.DupScan.CompareHashes: the same substitution, as is its pass Scanner.DupScan.CompareHash, and DupComparing's hash events.
- DupFilesSession.DupFiles.Record: interns with the corrected `Intern`. Its `pathList == []` test is not in command.cpp:346, which tests only `lastPath != path`. As written, add("x") then add("d/x") right after begin gives "x" the index 0 of "d/", so justName reports "d/x" twice.
- DupTable.AddStep: the same corrected interning. The table properties built on it (DupTable.AddAllRepresents, DupFilesSession.DupFiles.Add, Driver.Run's "the table holds exactly the accepted files") are properties of the corrected add.
- Splitting.Split: requires maxSplit to be an int of the source's 32-bit range.
- The std::map/std::set order is modelled as ascending code-unit order of `seq<char>` and ascending `nat` order. This matches a byte-wise `std::string` comparison for characters below 128.

## Findings

| source | as written | input that shows it | evidently intended | confidence | as-written member | corrected member |
|---|---|---|---|---|---|---|
| llreplace/command.cpp:580-581 | the "none" keyword sets `First` | `-delete=none` deletes the first file of every duplicate pair | "none" sets `None` and deletes nothing | not executed | Commands.DeleteNoneDeletesFirst | Commands.GetFileTypesKeywords |
| llreplace/command.cpp:307-318 | the working directory is cut from any path it is a text prefix of, so a sibling directory loses part of its name | cwd "/home/u", path "/home/uabc/x" shows "bc/x" | cut only at a directory boundary | not executed | Paths.AbsOrRelAsWrittenCutsSibling | Paths.AbsOrRel |
| llreplace/command.cpp:307-318 | one character past the working directory is always skipped, which under "/" is the first character of the relative path | cwd "/", path "/a/x" shows "/x" | skip a separator only when the working directory does not end in one | not executed | Paths.AbsOrRelAsWrittenCutsRoot | Paths.AbsOrRel |
| llreplace/command.cpp:346-369 | a first file with no directory prefix matches the empty `lastPath` and records index 0 into the empty `pathList` | `add("x")` right after `begin` | the empty prefix is interned at index 0 | not executed | DupTable.InternAsWrittenEmptyPrefix | DupTable.Intern |
| llreplace/threader.cpp:207-214 | `clear()` keeps the vector's capacity, yet `bufferTotalSize` falls by it | growing block 0 to 2097152001 bytes and releasing it, twice | the total equals the bytes the blocks hold | not executed | BufferPool.DriftAsWritten | BufferPool.DriftCorrected |
