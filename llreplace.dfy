/**
 * The helpers of llreplace: its global option counter and the gate of
 * ReplaceFile(fullname). Its getName is Paths.GetName, its FileMatches is
 * Patterns.FileMatches and its ConvertSpecialChar is Escapes.ConvertString.
 */
module LlReplace {
  import opened Strings
  import opened Patterns
  import opened Paths

  class Globals {
    var optionErrCnt: nat

    constructor()
      ensures optionErrCnt == 0
    {
      optionErrCnt := 0;
    }

    /** ValidOption: the abbreviated-option test; only a reported mismatch counts an error. */
    method ValidOption(validCmd: string, possibleCmd: string, reportErr: bool) returns (ok: bool)
      modifies this
      ensures ok <==> OptionMatches(validCmd, possibleCmd)
      ensures optionErrCnt == old(optionErrCnt) + (if !ok && reportErr then 1 else 0)
    {
      if NCaseEq(validCmd, possibleCmd, Min(|validCmd|, |possibleCmd|)) {
        return true;
      }
      if reportErr {
        optionErrCnt := optionErrCnt + 1;
      }
      ok := false;
    }
  }

  /** The file-name test of ReplaceFile(fullname): non-empty, not excluded, included. */
  predicate ReplaceGate(e: Engine, name: string, excludeFile: seq<Regex>, includeFile: seq<Regex>)
  {
    name != []
    && !FileMatches(e, name, excludeFile, false)
    && FileMatches(e, name, includeFile, true)
  }

  /**
   * ReplaceFile(fullname): the number of files processed, given what the
   * replace (`replaced`) or the grep (`matchCnt`) of that file reports.
   */
  function ReplaceFileCount(e: Engine, fullname: string, excludeFile: seq<Regex>, includeFile: seq<Regex>,
                            doReplace: bool, replaced: bool, matchCnt: nat): (r: nat)
    ensures r <= 1
    ensures r == 1 <==>
      ReplaceGate(e, GetName(fullname), excludeFile, includeFile) && (if doReplace then replaced else matchCnt != 0)
  {
    var name := GetName(fullname);
    if ReplaceGate(e, name, excludeFile, includeFile) && (if doReplace then replaced else matchCnt != 0) then 1 else 0
  }

  /** llreplace's gate is lldupdir's validFile gate with both path lists empty. */
  lemma GateIsValidFileWithoutPaths(e: Engine, fullname: string, excludeFile: seq<Regex>, includeFile: seq<Regex>)
    ensures ReplaceGate(e, GetName(fullname), excludeFile, includeFile) <==>
      Accepts(e, Filters(includeFile, excludeFile, [], []), GetName(fullname), fullname)
    ensures ReplaceGate(e, GetName(fullname), excludeFile, includeFile) <==>
      (GetName(fullname) != [] && !AnyMatch(e, GetName(fullname), excludeFile)
       && (includeFile == [] || AnyMatch(e, GetName(fullname), includeFile)))
  {
    AcceptsIff(e, Filters(includeFile, excludeFile, [], []), GetName(fullname), fullname);
  }
}
