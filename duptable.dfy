/**
 * The table DupFiles::add fills (command.cpp): `pathList` interns directory
 * prefixes, `fileList` maps each base name to the pathList indices it was
 * seen under, and `lastPath`/`lastPathIdx` remember the prefix of the
 * previous file. These functions state what one add, and a run of adds,
 * does to the table; DupFiles.Add is proved against them.
 */
module DupTable {
  import opened Seqs
  import opened Paths
  import opened Patterns
  import opened Folds
  import opened Buckets

  /** unsigned int's largest value: lastPathIdx-- from 0 and the -1 sentinel. */
  const UINT_MAX: nat := 0xFFFF_FFFF

  /** lastPathIdx-- on an unsigned int. */
  function Dec(i: nat): (r: nat)
    requires i <= UINT_MAX
    ensures r <= UINT_MAX
    ensures i > 0 ==> r + 1 == i
  {
    if i == 0 then UINT_MAX else i - 1
  }

  /** The largest index at or below `i` holding `path`, or -1. */
  function SearchDown(pl: seq<string>, path: string, i: int): (r: int)
    requires -1 <= i < |pl|
    ensures -1 <= r <= i
    ensures r >= 0 ==> pl[r] == path
    ensures forall j :: r < j <= i ==> pl[j] != path
    decreases i + 1
  {
    if i < 0 then -1
    else if pl[i] == path then i
    else SearchDown(pl, path, i - 1)
  }

  /** lastPath is the prefix at lastPathIdx, once there is one. */
  predicate Linked(pl: seq<string>, lastPath: string, lastPathIdx: nat)
  {
    (pl == [] ==> lastPathIdx == 0)
    && (pl != [] ==> lastPathIdx < |pl| && pl[lastPathIdx] == lastPath)
  }

  /** The path list after an add, and the index the add records. */
  datatype Interned = Interned(pathList: seq<string>, idx: nat)

  /**
   * The search of add once it has decided to look: when the prefix starts
   * lastPath, search the entries below lastPathIdx from the top; when none
   * holds it (or it does not start lastPath), append it.
   */
  function Lookup(pl: seq<string>, lastPath: string, lastPathIdx: nat, path: string): (r: Interned)
    requires Linked(pl, lastPath, lastPathIdx)
    ensures r.idx < |r.pathList| && r.pathList[r.idx] == path
    ensures r.pathList == pl || (r.pathList == pl + [path] && r.idx == |pl|)
  {
    var found := if path <= lastPath then SearchDown(pl, path, lastPathIdx as int - 1) else -1;
    if found >= 0 then Interned(pl, found) else Interned(pl + [path], |pl|)
  }

  /**
   * add as written: a prefix equal to lastPath reuses lastPathIdx, even
   * before any prefix has been interned.
   */
  function InternAsWritten(pl: seq<string>, lastPath: string, lastPathIdx: nat, path: string): (r: Interned)
    requires Linked(pl, lastPath, lastPathIdx)
  {
    if lastPath == path then Interned(pl, lastPathIdx) else Lookup(pl, lastPath, lastPathIdx, path)
  }

  /**
   * add as evidently intended: lastPathIdx is reused only when it names an
   * interned prefix. The recorded index then always holds the prefix, and
   * the list only ever grows by that prefix at its end.
   */
  function Intern(pl: seq<string>, lastPath: string, lastPathIdx: nat, path: string): (r: Interned)
    requires Linked(pl, lastPath, lastPathIdx)
    ensures r.idx < |r.pathList| && r.pathList[r.idx] == path
    ensures r.pathList == pl || (r.pathList == pl + [path] && r.idx == |pl|)
    ensures Linked(r.pathList, path, r.idx)
  {
    if pl != [] && lastPath == path then Interned(pl, lastPathIdx) else Lookup(pl, lastPath, lastPathIdx, path)
  }

  /**
   * The first file of a run that has no directory part (a bare name such as
   * "x", given as a root) meets the initial empty lastPath: as written it
   * records index 0 while pathList is still empty, so the table names no
   * directory for it; as intended "" is interned at index 0.
   */
  lemma InternAsWrittenEmptyPrefix()
    ensures DirPrefix("x") == []
    ensures InternAsWritten([], [], 0, DirPrefix("x")) == Interned([], 0)
    ensures Intern([], [], 0, DirPrefix("x")) == Interned([[]], 0)
  {
    assert LastSlash("x") == -1;
  }

  /** Both agree once a prefix has been interned. */
  lemma InternAgreesWhenInterned(pl: seq<string>, lastPath: string, lastPathIdx: nat, path: string)
    requires Linked(pl, lastPath, lastPathIdx) && pl != []
    ensures InternAsWritten(pl, lastPath, lastPathIdx, path) == Intern(pl, lastPath, lastPathIdx, path)
  {
  }

  /** Every index of `idxs` names an entry of `pl`. */
  predicate InRange(pl: seq<string>, idxs: seq<nat>)
  {
    forall j :: 0 <= j < |idxs| ==> idxs[j] < |pl|
  }

  /** The full paths `pl[idx] + name` of a fileList entry, in order. */
  function FullPaths(pl: seq<string>, name: string, idxs: seq<nat>): (r: seq<string>)
    requires InRange(pl, idxs)
    ensures |r| == |idxs|
    decreases |idxs|
  {
    if idxs == [] then []
    else FullPaths(pl, name, idxs[..|idxs| - 1]) + [pl[idxs[|idxs| - 1]] + name]
  }

  lemma {:induction false} FullPathsIndex(pl: seq<string>, name: string, idxs: seq<nat>, j: nat)
    requires InRange(pl, idxs) && j < |idxs|
    ensures FullPaths(pl, name, idxs)[j] == pl[idxs[j]] + name
    decreases |idxs|
  {
    if j < |idxs| - 1 {
      FullPathsIndex(pl, name, idxs[..|idxs| - 1], j);
    }
  }

  /** Appending to the path list does not change what existing indices name. */
  lemma {:induction false} FullPathsGrow(pl: seq<string>, pl': seq<string>, name: string, idxs: seq<nat>)
    requires InRange(pl, idxs) && pl <= pl'
    ensures InRange(pl', idxs)
    ensures FullPaths(pl', name, idxs) == FullPaths(pl, name, idxs)
    decreases |idxs|
  {
    if idxs != [] {
      FullPathsGrow(pl, pl', name, idxs[..|idxs| - 1]);
      assert pl'[idxs[|idxs| - 1]] == pl[idxs[|idxs| - 1]];
    }
  }

  /** The accepted files whose base name is `n`, in the order they were added. */
  ghost function WithName(added: seq<string>, n: string): seq<string>
    decreases |added|
  {
    if added == [] then []
    else
      var f := added[|added| - 1];
      WithName(added[..|added| - 1], n) + (if GetName(f) == n then [f] else [])
  }

  lemma WithNameSnoc(added: seq<string>, f: string, n: string)
    ensures WithName(added + [f], n) == WithName(added, n) + (if GetName(f) == n then [f] else [])
  {
    assert (added + [f])[..|added|] == added;
  }

  /** The entry of name `n` spells out, in order, the files added under that name. */
  ghost predicate EntryHolds(fl: map<string, seq<nat>>, pl: seq<string>, added: seq<string>, n: string)
    requires n in fl
  {
    InRange(pl, fl[n]) && fl[n] != [] && FullPaths(pl, n, fl[n]) == WithName(added, n)
  }

  /**
   * The table holds exactly the accepted files: each entry spells out the
   * files added under its name; every added file's name is a key; the table
   * holds one index per added file.
   */
  ghost predicate Represents(fl: map<string, seq<nat>>, pl: seq<string>, added: seq<string>)
  {
    (forall n :: n in fl ==> EntryHolds(fl, pl, added, n))
    && (forall j :: 0 <= j < |added| ==> GetName(added[j]) in fl)
    && SumLens(fl) == |added|
  }

  /** The table of DupFiles: the four file-scope globals of command.cpp. */
  datatype Table = Table(fileList: map<string, seq<nat>>, pathList: seq<string>, lastPath: string, lastPathIdx: nat)
  {
    ghost predicate Valid()
    {
      Linked(pathList, lastPath, lastPathIdx)
    }
  }

  /** One DupFiles::add, given whether validFile accepts the file. */
  function AddStep(t: Table, accepted: bool, fullname: string): (r: Table)
    requires t.Valid()
    ensures r.Valid()
  {
    if !accepted then t
    else
      var name := GetName(fullname);
      var path := DirPrefix(fullname);
      var i := Intern(t.pathList, t.lastPath, t.lastPathIdx, path);
      Table(t.fileList[name := Get(t.fileList, name) + [i.idx]], i.pathList, path, i.idx)
  }

  /** An accepted add, field by field. */
  lemma AddStepAccepted(t: Table, fullname: string)
    requires t.Valid()
    ensures var i := Intern(t.pathList, t.lastPath, t.lastPathIdx, DirPrefix(fullname));
      AddStep(t, true, fullname)
      == Table(t.fileList[GetName(fullname) := Get(t.fileList, GetName(fullname)) + [i.idx]], i.pathList, DirPrefix(fullname), i.idx)
  {
  }

  /**
   * An accepted add records one more index under the file's name, at an
   * entry of pathList that, followed by the name, is the file again; the
   * path list only grows, by at most that one prefix.
   */
  lemma AddStepShape(t: Table, fullname: string)
    requires t.Valid()
    ensures var r := AddStep(t, true, fullname);
      r.pathList[r.lastPathIdx] + GetName(fullname) == fullname
      && t.pathList <= r.pathList && |r.pathList| <= |t.pathList| + 1
      && r.fileList.Keys == t.fileList.Keys + {GetName(fullname)}
      && r.fileList[GetName(fullname)] == Get(t.fileList, GetName(fullname)) + [r.lastPathIdx]
      && (forall n :: n in t.fileList && n != GetName(fullname) ==> r.fileList[n] == t.fileList[n])
  {
    NameIsSlashFreeSuffix(fullname);
    var name, path := GetName(fullname), DirPrefix(fullname);
    var i := Intern(t.pathList, t.lastPath, t.lastPathIdx, path);
    var fl := t.fileList[name := Get(t.fileList, name) + [i.idx]];
    AddStepAccepted(t, fullname);
    assert AddStep(t, true, fullname) == Table(fl, i.pathList, path, i.idx);
    assert i.pathList[i.idx] == path;
    assert fl.Keys == t.fileList.Keys + {name};
  }

  /** An accepted add keeps the table holding exactly the accepted files. */
  lemma AddStepRepresents(t: Table, added: seq<string>, fullname: string)
    requires t.Valid() && Represents(t.fileList, t.pathList, added)
    ensures var r := AddStep(t, true, fullname);
      Represents(r.fileList, r.pathList, added + [fullname])
  {
    var r := AddStep(t, true, fullname);
    AddStepEntries(t, added, fullname, r);
    AddStepNames(t, added, fullname, r);
    AddStepShape(t, fullname);
    SumLensAppend(t.fileList, GetName(fullname), r.lastPathIdx);
  }

  lemma AddStepEntries(t: Table, added: seq<string>, fullname: string, r: Table)
    requires t.Valid() && Represents(t.fileList, t.pathList, added)
    requires r == AddStep(t, true, fullname)
    ensures forall n :: n in r.fileList ==> EntryHolds(r.fileList, r.pathList, added + [fullname], n)
  {
    forall n | n in r.fileList
      ensures EntryHolds(r.fileList, r.pathList, added + [fullname], n)
    {
      AddStepEntry(t, added, fullname, n);
    }
  }

  lemma AddStepNames(t: Table, added: seq<string>, fullname: string, r: Table)
    requires t.Valid() && Represents(t.fileList, t.pathList, added)
    requires r == AddStep(t, true, fullname)
    ensures forall j :: 0 <= j < |added| + 1 ==> GetName((added + [fullname])[j]) in r.fileList
  {
    AddStepShape(t, fullname);
    var added' := added + [fullname];
    forall j | 0 <= j < |added'| ensures GetName(added'[j]) in r.fileList {
      if j < |added| { assert added'[j] == added[j]; }
    }
  }

  lemma AddStepEntry(t: Table, added: seq<string>, fullname: string, n: string)
    requires t.Valid() && Represents(t.fileList, t.pathList, added)
    requires n in AddStep(t, true, fullname).fileList
    ensures EntryHolds(AddStep(t, true, fullname).fileList, AddStep(t, true, fullname).pathList, added + [fullname], n)
  {
    var r := AddStep(t, true, fullname);
    var name := GetName(fullname);
    AddStepShape(t, fullname);
    WithNameSnoc(added, fullname, n);
    if n == name {
      var old_ := Get(t.fileList, name);
      if name in t.fileList {
        assert EntryHolds(t.fileList, t.pathList, added, n);
      } else {
        assert WithName(added, n) == [] by {
          if WithName(added, n) != [] {
            WithNameHasName(added, n);
          }
        }
      }
      FullPathsGrow(t.pathList, r.pathList, n, old_);
      assert r.fileList[n][..|old_|] == old_;
    } else {
      assert EntryHolds(t.fileList, t.pathList, added, n);
      FullPathsGrow(t.pathList, r.pathList, n, t.fileList[n]);
    }
  }

  /** A name with accepted files is a name of some accepted file. */
  lemma {:induction false} WithNameHasName(added: seq<string>, n: string)
    requires WithName(added, n) != []
    ensures exists j :: 0 <= j < |added| && GetName(added[j]) == n
    decreases |added|
  {
    var init := added[..|added| - 1];
    if GetName(added[|added| - 1]) != n {
      WithNameHasName(init, n);
      var j :| 0 <= j < |init| && GetName(init[j]) == n;
      assert added[j] == init[j];
    }
  }

  /** The files of `paths` that validFile accepts, in order. */
  function Accepted(e: Engine, f: Filters, paths: seq<string>): (r: seq<string>)
    ensures |r| <= |paths|
    decreases |paths|
  {
    if paths == [] then []
    else (if Accepts(e, f, GetName(paths[0]), paths[0]) then [paths[0]] else []) + Accepted(e, f, paths[1..])
  }

  lemma {:induction false} AcceptedAppend(e: Engine, f: Filters, a: seq<string>, b: seq<string>)
    ensures Accepted(e, f, a + b) == Accepted(e, f, a) + Accepted(e, f, b)
    decreases |a|
  {
    if a == [] {
      assert a + b == b;
    } else {
      var head := if Accepts(e, f, GetName(a[0]), a[0]) then [a[0]] else [];
      var tail := a[1..];
      assert (a + b)[0] == a[0];
      assert (a + b)[1..] == tail + b;
      assert Accepted(e, f, a + b) == head + Accepted(e, f, tail + b);
      assert Accepted(e, f, a) == head + Accepted(e, f, tail);
      AcceptedAppend(e, f, tail, b);
      ConcatAssoc(head, Accepted(e, f, tail), Accepted(e, f, b));
    }
  }

  lemma AcceptedCons(e: Engine, f: Filters, paths: seq<string>, added: seq<string>)
    requires paths != []
    ensures added + Accepted(e, f, paths) ==
      (if Accepts(e, f, GetName(paths[0]), paths[0]) then added + [paths[0]] else added) + Accepted(e, f, paths[1..])
  {
    var rest := Accepted(e, f, paths[1..]);
    if Accepts(e, f, GetName(paths[0]), paths[0]) {
      ConcatAssoc(added, [paths[0]], rest);
    } else {
      assert [] + rest == rest;
    }
  }

  /** A run of adds, first to last. */
  function AddAll(t: Table, e: Engine, f: Filters, paths: seq<string>): (r: Table)
    requires t.Valid()
    ensures r.Valid()
    ensures t.pathList <= r.pathList && |r.pathList| <= |t.pathList| + |paths|
    decreases |paths|
  {
    if paths == [] then t
    else
      var t' := AddStep(t, Accepts(e, f, GetName(paths[0]), paths[0]), paths[0]);
      AddStepGrows(t, Accepts(e, f, GetName(paths[0]), paths[0]), paths[0]);
      AddAll(t', e, f, paths[1..])
  }

  lemma AddStepGrows(t: Table, accepted: bool, fullname: string)
    requires t.Valid()
    ensures t.pathList <= AddStep(t, accepted, fullname).pathList
    ensures |AddStep(t, accepted, fullname).pathList| <= |t.pathList| + 1
  {
  }

  lemma {:induction false} AddAllAppend(t: Table, e: Engine, f: Filters, a: seq<string>, b: seq<string>)
    requires t.Valid()
    ensures AddAll(t, e, f, a + b) == AddAll(AddAll(t, e, f, a), e, f, b)
    decreases |a|
  {
    if a == [] {
      assert a + b == b;
    } else {
      assert (a + b)[1..] == a[1..] + b;
      var t' := AddStep(t, Accepts(e, f, GetName(a[0]), a[0]), a[0]);
      AddAllAppend(t', e, f, a[1..], b);
    }
  }

  /** A run of adds keeps the table holding exactly the accepted files. */
  lemma {:induction false} AddAllRepresents(t: Table, added: seq<string>, e: Engine, f: Filters, paths: seq<string>)
    requires t.Valid() && Represents(t.fileList, t.pathList, added)
    ensures var r := AddAll(t, e, f, paths);
      Represents(r.fileList, r.pathList, added + Accepted(e, f, paths))
    decreases |paths|
  {
    if paths == [] {
      assert added + [] == added;
    } else {
      var p := paths[0];
      var ok := Accepts(e, f, GetName(p), p);
      var t' := AddStep(t, ok, p);
      var added' := if ok then added + [p] else added;
      if ok { AddStepRepresents(t, added, p); }
      AddAllRepresents(t', added', e, f, paths[1..]);
      AcceptedCons(e, f, paths, added);
    }
  }
}
