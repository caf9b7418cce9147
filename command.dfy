/**
 * Command (command.hpp, command.cpp): the options of a duplicate scan, its
 * four counters and the decisions shared by both scanners: the file gate,
 * the file-type keywords and what happens when a pair of files is found
 * to be the same, different or missing. Console output is not modelled;
 * every DirUtil::deleteFile call is recorded in `deleteLog`.
 */
module Commands {
  import opened Patterns
  import opened Paths
  import opened Strings
  import Wrappers

  datatype FileTypes = None | First | Second | Both

  /** One DirUtil::deleteFile(dryRun, path) call. */
  datatype Deletion = Deletion(dryRun: bool, path: string)

  /** The runtime options of Command, in declaration order. */
  datatype Options = Options(
    includeFile: seq<Regex>,
    excludeFile: seq<Regex>,
    includePath: seq<Regex>,
    excludePath: seq<Regex>,
    delDupPath: seq<Regex>,
    showFile: bool,
    verbose: bool,
    invert: bool,
    sameName: bool,
    justName: bool,
    ignoreExtn: bool,
    useThreads: bool,
    dryRun: bool,
    showAbsPath: bool,
    showSame: bool,
    showDiff: bool,
    showMiss: bool,
    quiet: nat,
    showFiles: FileTypes,
    deleteFiles: FileTypes,
    separator: string,
    preDivider: string,
    postDivider: string,
    preDup: string,
    preMissing: string,
    preDiff: string,
    ignoreHardLinks: bool,
    ignoreSoftLinks: bool,
    hardlink: bool)
  {
    /** The four lists validFile consults. */
    function Gate(): Filters
    {
      Filters(includeFile, excludeFile, includePath, excludePath)
    }
  }

  /** The member initialisers of command.hpp. */
  const DEFAULTS: Options := Options(
    [], [], [], [], [],
    false, false, false, true, false, false, false, false, false,
    true, false, false,
    0, Both, None,
    ", ", "", "\n", "== ", "-- ", "!= ",
    false, false, false)

  /** What showDuplicate deletes: only when duplicates are shown and hardlinking is off. */
  function DupDeletions(o: Options, filePath1: string, filePath2: string): (r: seq<Deletion>)
    ensures r != [] ==> o.showSame && !o.hardlink && o.deleteFiles != None
    ensures forall d :: d in r ==> d.dryRun == o.dryRun
    ensures (Deletion(o.dryRun, filePath1) in r) <==>
      (o.showSame && !o.hardlink && (o.deleteFiles == First || o.deleteFiles == Both
                                     || (o.deleteFiles == Second && filePath2 == filePath1)))
    ensures (Deletion(o.dryRun, filePath2) in r) <==>
      (o.showSame && !o.hardlink && (o.deleteFiles == Second || o.deleteFiles == Both
                                     || (o.deleteFiles == First && filePath1 == filePath2)))
    ensures |r| <= 2
  {
    if !o.showSame || o.hardlink then []
    else match o.deleteFiles
      case None => []
      case First => [Deletion(o.dryRun, filePath1)]
      case Second => [Deletion(o.dryRun, filePath2)]
      case Both => [Deletion(o.dryRun, filePath1), Deletion(o.dryRun, filePath2)]
  }

  /**
   * getFileTypes as written: the value selects the first keyword it is a
   * case-insensitive prefix of, in the order none, first, second, both;
   * "none" selects First.
   */
  function GetFileTypesAsWritten(str: string): (r: Wrappers.Option<FileTypes>)
  {
    if PrefixCI(str, "none") then Wrappers.Some(First)
    else if PrefixCI(str, "first") then Wrappers.Some(First)
    else if PrefixCI(str, "second") then Wrappers.Some(Second)
    else if PrefixCI(str, "both") then Wrappers.Some(Both)
    else Wrappers.None
  }

  /** getFileTypes as evidently intended: "none" selects None. */
  function GetFileTypes(str: string): (r: Wrappers.Option<FileTypes>)
  {
    if PrefixCI(str, "none") then Wrappers.Some(None)
    else if PrefixCI(str, "first") then Wrappers.Some(First)
    else if PrefixCI(str, "second") then Wrappers.Some(Second)
    else if PrefixCI(str, "both") then Wrappers.Some(Both)
    else Wrappers.None
  }

  /** The keyword names, in the order getFileTypes tries them. */
  function KeywordOf(t: FileTypes): string
  {
    match t
      case None => "none"
      case First => "first"
      case Second => "second"
      case Both => "both"
  }

  /**
   * Every abbreviation of a keyword names that keyword (the four keywords
   * differ in their first letter, so a non-empty abbreviation is never
   * shared), and a value that abbreviates no keyword is rejected.
   */
  lemma GetFileTypesKeywords(str: string, t: FileTypes)
    ensures str != [] && PrefixCI(str, KeywordOf(t)) ==> GetFileTypes(str) == Wrappers.Some(t)
    ensures GetFileTypes(str) == Wrappers.Some(t) ==> PrefixCI(str, KeywordOf(t))
    ensures GetFileTypes(str).None? <==>
      !PrefixCI(str, "none") && !PrefixCI(str, "first") && !PrefixCI(str, "second") && !PrefixCI(str, "both")
  {
    if str != [] && PrefixCI(str, KeywordOf(t)) {
      assert Lower(str[0]) == Lower(KeywordOf(t)[0]);
    }
  }

  /**
   * As written, "-delete=none" asks for the first file of each duplicate
   * pair to be deleted; as intended it asks for no deletion.
   */
  lemma DeleteNoneDeletesFirst()
    ensures GetFileTypesAsWritten("none") == Wrappers.Some(First)
    ensures GetFileTypes("none") == Wrappers.Some(None)
    ensures DupDeletions(DEFAULTS.(deleteFiles := First), "a", "b") == [Deletion(false, "a")]
    ensures DupDeletions(DEFAULTS.(deleteFiles := None), "a", "b") == []
  {
  }

  /**
   * The deleteFile calls for a list of shown paths: each path that matches
   * a delDupPath pattern, in list order, with the dry-run flag.
   */
  function Deletions(o: Options, e: Engine, paths: seq<string>): (r: seq<Deletion>)
    ensures |r| <= |paths|
    decreases |paths|
  {
    if paths == [] then []
    else
      var p := paths[|paths| - 1];
      Deletions(o, e, paths[..|paths| - 1])
      + (if FileMatches(e, p, o.delDupPath, false) then [Deletion(o.dryRun, p)] else [])
  }

  /** A deletion is requested exactly for the listed paths that match a delDupPath pattern. */
  lemma {:induction false} DeletionsIff(o: Options, e: Engine, paths: seq<string>, d: Deletion)
    ensures d in Deletions(o, e, paths) <==>
      d.dryRun == o.dryRun && d.path in paths && FileMatches(e, d.path, o.delDupPath, false)
    decreases |paths|
  {
    if paths != [] {
      var init := paths[..|paths| - 1];
      DeletionsIff(o, e, init, d);
      assert paths == init + [paths[|paths| - 1]];
    }
  }

  lemma {:induction false} DeletionsAppend(o: Options, e: Engine, a: seq<string>, b: seq<string>)
    ensures Deletions(o, e, a + b) == Deletions(o, e, a) + Deletions(o, e, b)
    decreases |b|
  {
    if b == [] {
      assert a + b == a;
    } else {
      var init := b[..|b| - 1];
      assert (a + b)[..|a + b| - 1] == a + init;
      DeletionsAppend(o, e, a, init);
    }
  }

  /** The log after one more listed path: the deletion of that path when it matches. */
  lemma DeletionsSnoc(log: seq<Deletion>, o: Options, e: Engine, paths: seq<string>, p: string)
    ensures log + Deletions(o, e, paths + [p])
      == (log + Deletions(o, e, paths)) + (if FileMatches(e, p, o.delDupPath, false) then [Deletion(o.dryRun, p)] else [])
  {
    assert (paths + [p])[..|paths|] == paths;
  }

  class Command {
    var opts: Options
    var sameCnt: nat
    var diffCnt: nat
    var missCnt: nat
    var skipCnt: nat
    /** The working directory captured by the constructor (getcwd). */
    const cwd: string
    const code: char
    var deleteLog: seq<Deletion>

    /** A fresh command: the declared defaults, zero counters, nothing deleted. */
    constructor(c: char, workDir: string)
      ensures opts == DEFAULTS && code == c && cwd == workDir
      ensures sameCnt == 0 && diffCnt == 0 && missCnt == 0 && skipCnt == 0 && deleteLog == []
    {
      opts := DEFAULTS;
      sameCnt, diffCnt, missCnt, skipCnt := 0, 0, 0, 0;
      cwd := workDir;
      code := c;
      deleteLog := [];
    }

    /** The base begin: there is something to scan. */
    function Begin(fileDirList: seq<string>): (r: bool)
      ensures r <==> fileDirList != []
    {
      |fileDirList| > 0
    }

    /** absOrRel against the captured working directory. */
    function Shown(fullPath: string): (r: string)
      reads this
      ensures opts.showAbsPath ==> r == fullPath
      ensures r == fullPath || Rejoin(cwd, r) == fullPath
    {
      AbsOrRel(cwd, opts.showAbsPath, fullPath)
    }

    /** validFile: the gate of the four lists; a rejection counts one skip. */
    method ValidFile(e: Engine, name: string, fullname: string) returns (isValid: bool)
      modifies this`skipCnt
      ensures isValid == Accepts(e, opts.Gate(), name, fullname)
      ensures skipCnt == old(skipCnt) + (if isValid then 0 else 1)
      ensures opts == old(opts) && deleteLog == old(deleteLog)
      ensures sameCnt == old(sameCnt) && diffCnt == old(diffCnt) && missCnt == old(missCnt)
    {
      isValid :=
        name != []
        && !FileMatches(e, name, opts.excludeFile, false)
        && FileMatches(e, name, opts.includeFile, true)
        && !FileMatches(e, fullname, opts.excludePath, false)
        && FileMatches(e, fullname, opts.includePath, true);
      if !isValid {
        skipCnt := skipCnt + 1;
      }
    }

    /**
     * share: copy the file lists, the output flags and the dividers of
     * `other`; every other option, the counters and the log are kept.
     */
    method Share(other: Command) returns (r: Command)
      modifies this
      ensures r == this
      ensures opts == old(opts).(
        includeFile := old(other.opts.includeFile),
        excludeFile := old(other.opts.excludeFile),
        showFile := old(other.opts.showFile),
        verbose := old(other.opts.verbose),
        invert := old(other.opts.invert),
        sameName := old(other.opts.sameName),
        justName := old(other.opts.justName),
        ignoreExtn := old(other.opts.ignoreExtn),
        separator := old(other.opts.separator),
        preDivider := old(other.opts.preDivider),
        postDivider := old(other.opts.postDivider))
      ensures sameCnt == old(sameCnt) && diffCnt == old(diffCnt) && missCnt == old(missCnt)
      ensures skipCnt == old(skipCnt) && deleteLog == old(deleteLog)
    {
      var o := other.opts;
      opts := opts.(
        includeFile := o.includeFile,
        excludeFile := o.excludeFile,
        showFile := o.showFile,
        verbose := o.verbose,
        invert := o.invert,
        sameName := o.sameName,
        justName := o.justName,
        ignoreExtn := o.ignoreExtn,
        separator := o.separator,
        preDivider := o.preDivider,
        postDivider := o.postDivider);
      r := this;
    }

    /** DirUtil::deleteFile(dryRun, path): the call is recorded. */
    method DeleteFile(path: string)
      modifies this
      ensures deleteLog == old(deleteLog) + [Deletion(opts.dryRun, path)]
      ensures opts == old(opts)
      ensures sameCnt == old(sameCnt) && diffCnt == old(diffCnt) && missCnt == old(missCnt) && skipCnt == old(skipCnt)
    {
      deleteLog := deleteLog + [Deletion(opts.dryRun, path)];
    }

    /** showDuplicate: one more duplicate, and the deletions the policy asks for. */
    method ShowDuplicate(filePath1: string, filePath2: string)
      modifies this
      ensures sameCnt == old(sameCnt) + 1
      ensures diffCnt == old(diffCnt) && missCnt == old(missCnt) && skipCnt == old(skipCnt)
      ensures opts == old(opts)
      ensures deleteLog == old(deleteLog) + DupDeletions(opts, filePath1, filePath2)
    {
      sameCnt := sameCnt + 1;
      if opts.showSame {
        if opts.hardlink {
          // not implemented by the source: nothing is deleted or linked
        } else if opts.deleteFiles != None {
          match opts.deleteFiles {
            case None =>
            case First =>
              deleteLog := deleteLog + [Deletion(opts.dryRun, filePath1)];
            case Second =>
              deleteLog := deleteLog + [Deletion(opts.dryRun, filePath2)];
            case Both =>
              deleteLog := deleteLog + [Deletion(opts.dryRun, filePath1)];
              deleteLog := deleteLog + [Deletion(opts.dryRun, filePath2)];
          }
        }
      }
    }

    /** showDifferent: one more difference; nothing is deleted. */
    method ShowDifferent(filePath1: string, filePath2: string)
      modifies this
      ensures diffCnt == old(diffCnt) + 1
      ensures sameCnt == old(sameCnt) && missCnt == old(missCnt) && skipCnt == old(skipCnt)
      ensures opts == old(opts) && deleteLog == old(deleteLog)
    {
      diffCnt := diffCnt + 1;
    }

    /** showMissing: one more missing file; nothing is deleted. */
    method ShowMissing(have1: bool, filePath1: string, have2: bool, filePath2: string)
      modifies this
      ensures missCnt == old(missCnt) + 1
      ensures sameCnt == old(sameCnt) && diffCnt == old(diffCnt) && skipCnt == old(skipCnt)
      ensures opts == old(opts) && deleteLog == old(deleteLog)
    {
      missCnt := missCnt + 1;
    }
  }
}
