/**
 * ParseUtil of lldupdir: option and pattern parsing with error counters.
 * Console messages are not modelled.
 */
module ParseUtil {
  import opened Wrappers
  import opened Strings
  import opened Patterns
  import opened Globs
  import Escapes

  class Parser {
    var optionErrCnt: nat
    var patternErrCnt: nat
    /** Every option name validOption has accepted. */
    var parseArgSet: set<string>

    constructor()
      ensures optionErrCnt == 0 && patternErrCnt == 0 && parseArgSet == {}
    {
      optionErrCnt, patternErrCnt, parseArgSet := 0, 0, {};
    }

    /** showUnknown: one more option error. */
    method ShowUnknown(arg: string)
      modifies this
      ensures optionErrCnt == old(optionErrCnt) + 1
      ensures patternErrCnt == old(patternErrCnt) && parseArgSet == old(parseArgSet)
    {
      optionErrCnt := optionErrCnt + 1;
    }

    /**
     * getRegEx: decode escapes, then compile. A bad escape throws out of the
     * call (only regex errors are caught); a pattern that does not compile
     * counts one pattern error and yields the empty pattern.
     */
    method GetRegEx(e: Engine, value: string) returns (r: Outcome<Regex>)
      modifies this
      ensures optionErrCnt == old(optionErrCnt) && parseArgSet == old(parseArgSet)
      ensures Escapes.Decode(Escapes.CStr(value)).BadEscape? ==>
        r == Threw && patternErrCnt == old(patternErrCnt)
      ensures Escapes.Decode(Escapes.CStr(value)).Done? ==>
        var text := Escapes.Decode(Escapes.CStr(value)).out;
        (e.compiles(text) ==> r == Returned(Regex(text)) && patternErrCnt == old(patternErrCnt))
        && (!e.compiles(text) ==> r == Returned(Regex([])) && patternErrCnt == old(patternErrCnt) + 1)
    {
      var decoded := Escapes.ConvertString(Escapes.CStr(value));
      Escapes.CStrIdempotent(value);
      if decoded.Err? {
        return Threw;
      }
      if e.compiles(decoded.value) {
        return Returned(Regex(decoded.value));
      }
      patternErrCnt := patternErrCnt + 1;
      r := Returned(Regex([]));
    }

    /**
     * validOption: the option matches when the shorter of the two names is
     * a case-insensitive prefix of the other; a match is remembered in
     * parseArgSet, a reported mismatch counts one option error.
     */
    method ValidOption(validCmd: string, possibleCmd: string, reportErr: bool) returns (ok: bool)
      modifies this
      ensures ok <==> OptionMatches(validCmd, possibleCmd)
      ensures patternErrCnt == old(patternErrCnt)
      ensures ok ==> parseArgSet == old(parseArgSet) + {validCmd} && optionErrCnt == old(optionErrCnt)
      ensures !ok ==>
        parseArgSet == old(parseArgSet) && optionErrCnt == old(optionErrCnt) + (if reportErr then 1 else 0)
    {
      if NCaseEq(validCmd, possibleCmd, Min(|validCmd|, |possibleCmd|)) {
        parseArgSet := parseArgSet + {validCmd};
        return true;
      }
      if reportErr {
        optionErrCnt := optionErrCnt + 1;
      }
      ok := false;
    }

    /**
     * validPattern: on an option match the value is rewritten in place from
     * DOS wildcards to a regular expression and getRegEx's pattern for it is
     * appended; an escape error in getRegEx propagates, after the rewrite and
     * before the push. On a mismatch neither the list nor the value changes.
     */
    method ValidPattern(e: Engine, outList: seq<Regex>, value: string, validCmd: string, possibleCmd: string, reportErr: bool)
      returns (r: Outcome<bool>, newList: seq<Regex>, newValue: string)
      modifies this
      ensures !OptionMatches(validCmd, possibleCmd) ==>
        r == Returned(false) && newList == outList && newValue == value
        && parseArgSet == old(parseArgSet) && patternErrCnt == old(patternErrCnt)
        && optionErrCnt == old(optionErrCnt) + (if reportErr then 1 else 0)
      ensures OptionMatches(validCmd, possibleCmd) ==>
        newValue == GlobToRegex(value) && parseArgSet == old(parseArgSet) + {validCmd}
        && optionErrCnt == old(optionErrCnt)
        && (r.Threw? <==> Escapes.Decode(Escapes.CStr(newValue)).BadEscape?)
      ensures r.Threw? ==> newList == outList && patternErrCnt == old(patternErrCnt)
      ensures OptionMatches(validCmd, possibleCmd) && r.Returned? ==>
        var text := Escapes.Decode(Escapes.CStr(newValue)).out;
        r.value && newList == outList + [if e.compiles(text) then Regex(text) else Regex([])]
        && patternErrCnt == old(patternErrCnt) + (if e.compiles(text) then 0 else 1)
    {
      var ok := ValidOption(validCmd, possibleCmd, reportErr);
      newList, newValue := outList, value;
      if !ok {
        return Returned(false), newList, newValue;
      }
      newValue := ReplaceChar(newValue, '*', ".*");
      newValue := ReplaceChar(newValue, '?', ".");
      var re := GetRegEx(e, newValue);
      if re.Threw? {
        return Threw, newList, newValue;
      }
      newList := newList + [re.value];
      r := Returned(true);
    }
  }
}
