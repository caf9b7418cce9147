/**
 * Include/exclude pattern lists. std::regex is not modelled: an `Engine`
 * says which pattern texts compile and which texts a pattern fully matches.
 * A compiled pattern is represented by its text.
 */
module Patterns {
  import opened Wrappers

  datatype Regex = Regex(source: string)

  datatype Engine = Engine(compiles: string -> bool, fullMatch: (string, string) -> bool)

  /** Some pattern of the list fully matches the text. */
  predicate AnyMatch(e: Engine, text: string, pats: seq<Regex>)
  {
    exists i :: 0 <= i < |pats| && e.fullMatch(pats[i].source, text)
  }

  /** The first pattern, at or after `from`, that fully matches the text, in list order. */
  function FirstMatchFrom(e: Engine, text: string, pats: seq<Regex>, from: nat): (r: Option<nat>)
    requires from <= |pats|
    ensures r.Some? ==> from <= r.value < |pats| && e.fullMatch(pats[r.value].source, text)
    ensures r.Some? ==> forall j :: from <= j < r.value ==> !e.fullMatch(pats[j].source, text)
    ensures r.None? ==> forall j :: from <= j < |pats| ==> !e.fullMatch(pats[j].source, text)
    decreases |pats| - from
  {
    if from == |pats| then None
    else if e.fullMatch(pats[from].source, text) then Some(from)
    else FirstMatchFrom(e, text, pats, from + 1)
  }

  /**
   * ParseUtil::FileMatches: `emptyResult` for an empty list or an empty
   * text, otherwise whether some pattern matches, searched in list order.
   */
  function FileMatches(e: Engine, text: string, pats: seq<Regex>, emptyResult: bool): bool
  {
    if pats == [] || text == [] then emptyResult
    else FirstMatchFrom(e, text, pats, 0).Some?
  }

  lemma FileMatchesMeaning(e: Engine, text: string, pats: seq<Regex>, emptyResult: bool)
    ensures pats == [] || text == [] ==> FileMatches(e, text, pats, emptyResult) == emptyResult
    ensures pats != [] && text != [] ==> (FileMatches(e, text, pats, emptyResult) <==> AnyMatch(e, text, pats))
  {
    if pats != [] && text != [] {
      var r := FirstMatchFrom(e, text, pats, 0);
      if r.Some? {
        assert e.fullMatch(pats[r.value].source, text);
      }
    }
  }

  /** The four lists that Command::validFile consults. */
  datatype Filters = Filters(
    includeFile: seq<Regex>,
    excludeFile: seq<Regex>,
    includePath: seq<Regex>,
    excludePath: seq<Regex>)

  /** The gate of Command::validFile (without its counter). */
  predicate Accepts(e: Engine, f: Filters, name: string, fullname: string)
  {
    name != []
    && !FileMatches(e, name, f.excludeFile, false)
    && FileMatches(e, name, f.includeFile, true)
    && !FileMatches(e, fullname, f.excludePath, false)
    && FileMatches(e, fullname, f.includePath, true)
  }

  /** The gate accepts exactly when all five conditions hold. */
  lemma AcceptsIff(e: Engine, f: Filters, name: string, fullname: string)
    ensures Accepts(e, f, name, fullname) <==>
      (name != []
       && !AnyMatch(e, name, f.excludeFile)
       && (f.includeFile == [] || AnyMatch(e, name, f.includeFile))
       && (fullname == [] || !AnyMatch(e, fullname, f.excludePath))
       && (f.includePath == [] || fullname == [] || AnyMatch(e, fullname, f.includePath)))
  {
    FileMatchesMeaning(e, name, f.excludeFile, false);
    FileMatchesMeaning(e, name, f.includeFile, true);
    FileMatchesMeaning(e, fullname, f.excludePath, false);
    FileMatchesMeaning(e, fullname, f.includePath, true);
  }

  /** An exclude-by-name match rejects, whatever the other lists say. */
  lemma ExcludeNameWins(e: Engine, f: Filters, name: string, fullname: string, i: nat)
    requires i < |f.excludeFile| && e.fullMatch(f.excludeFile[i].source, name)
    ensures !Accepts(e, f, name, fullname)
  {
    FileMatchesMeaning(e, name, f.excludeFile, false);
  }
}
