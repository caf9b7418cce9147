/**
 * The stand-alone ParseUtil: the same option and pattern parsing, but
 * getRegEx compiles the text as given (no escape decoding) and validOption
 * keeps no set of accepted options. Its convertSpecialChar is
 * Escapes.ConvertInPlace and its getParts is Template.GetParts.
 */
module CParseUtil {
  import opened Wrappers
  import opened Strings
  import opened Patterns
  import opened Globs

  class Parser {
    var optionErrCnt: nat
    var patternErrCnt: nat

    constructor()
      ensures optionErrCnt == 0 && patternErrCnt == 0
    {
      optionErrCnt, patternErrCnt := 0, 0;
    }

    /** showUnknown: one more option error. */
    method ShowUnknown(arg: string)
      modifies this
      ensures optionErrCnt == old(optionErrCnt) + 1 && patternErrCnt == old(patternErrCnt)
    {
      optionErrCnt := optionErrCnt + 1;
    }

    /** getRegEx: a pattern that does not compile counts one pattern error and yields the empty pattern. */
    method GetRegEx(e: Engine, value: string) returns (r: Regex)
      modifies this
      ensures optionErrCnt == old(optionErrCnt)
      ensures e.compiles(value) ==> r == Regex(value) && patternErrCnt == old(patternErrCnt)
      ensures !e.compiles(value) ==> r == Regex([]) && patternErrCnt == old(patternErrCnt) + 1
    {
      if e.compiles(value) {
        return Regex(value);
      }
      patternErrCnt := patternErrCnt + 1;
      r := Regex([]);
    }

    /** validOption: the same prefix rule; only a reported mismatch counts an error. */
    method ValidOption(validCmd: string, possibleCmd: string, reportErr: bool) returns (ok: bool)
      modifies this
      ensures ok <==> OptionMatches(validCmd, possibleCmd)
      ensures patternErrCnt == old(patternErrCnt)
      ensures optionErrCnt == old(optionErrCnt) + (if !ok && reportErr then 1 else 0)
    {
      if NCaseEq(validCmd, possibleCmd, Min(|validCmd|, |possibleCmd|)) {
        return true;
      }
      if reportErr {
        optionErrCnt := optionErrCnt + 1;
      }
      ok := false;
    }

    /**
     * validPattern: iff the option matches, the value is rewritten from DOS
     * wildcards and getRegEx's pattern for it is appended: the compiled
     * value, or the empty pattern with one more pattern error.
     */
    method ValidPattern(e: Engine, outList: seq<Regex>, value: string, validCmd: string, possibleCmd: string, reportErr: bool)
      returns (ok: bool, newList: seq<Regex>, newValue: string)
      modifies this
      ensures ok <==> OptionMatches(validCmd, possibleCmd)
      ensures !ok ==> newList == outList && newValue == value
      ensures ok ==> newValue == GlobToRegex(value)
      ensures ok ==> newList == outList + [if e.compiles(newValue) then Regex(newValue) else Regex([])]
      ensures patternErrCnt == old(patternErrCnt) + (if ok && !e.compiles(newValue) then 1 else 0)
      ensures optionErrCnt == old(optionErrCnt) + (if !ok && reportErr then 1 else 0)
    {
      ok := ValidOption(validCmd, possibleCmd, reportErr);
      newList, newValue := outList, value;
      if ok {
        newValue := ReplaceChar(newValue, '*', ".*");
        newValue := ReplaceChar(newValue, '?', ".");
        var re := GetRegEx(e, newValue);
        newList := newList + [re];
      }
    }
  }
}
