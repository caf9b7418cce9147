/**
 * What DupFiles::end (command.cpp) reports for a captured table, one
 * function per mode: the amounts it adds to sameCnt and diffCnt and the
 * DirUtil::deleteFile calls it makes, in order. std::map and std::set are
 * iterated in key order (Ordering.SortedStrings, Ordering.SortedNats);
 * the counters are stated through order-free folds. DupFiles.End is
 * proved against `EndReport`.
 */
module DupReport {
  import opened Seqs
  import opened Paths
  import opened Patterns
  import opened Folds
  import opened Buckets
  import opened Ordering
  import opened FileSystem
  import opened DupTable
  import opened Commands

  /** What end adds to sameCnt and diffCnt, and the deletions it requests. */
  datatype Report = Report(same: nat, diff: nat, dels: seq<Deletion>)

  function Plus(a: Report, b: Report): (r: Report)
    ensures r.same == a.same + b.same && r.diff == a.diff + b.diff && r.dels == a.dels + b.dels
  {
    Report(a.same + b.same, a.diff + b.diff, a.dels + b.dels)
  }

  const NOTHING: Report := Report(0, 0, [])

  /** Every recorded index names an entry of the path list. */
  predicate Indexed(fl: map<string, seq<nat>>, pl: seq<string>)
  {
    forall n :: n in fl ==> InRange(pl, fl[n])
  }

  lemma RepresentsIndexed(fl: map<string, seq<nat>>, pl: seq<string>, added: seq<string>)
    requires Represents(fl, pl, added)
    ensures Indexed(fl, pl)
    ensures forall n :: n in fl ==> |fl[n]| > 0
  {
    forall n | n in fl ensures InRange(pl, fl[n]) && |fl[n]| > 0 {
      assert EntryHolds(fl, pl, added, n);
    }
  }

  /* ---------------------------------------------------------------- */
  /* printPaths                                                        */

  /** The paths printPaths shows for one entry: absOrRel of the directory, then the name. */
  function ShownPaths(cwd: string, showAbsPath: bool, pl: seq<string>, idxs: seq<nat>, name: string): (r: seq<string>)
    requires InRange(pl, idxs)
    ensures |r| == |idxs|
    decreases |idxs|
  {
    if idxs == [] then []
    else
      ShownPaths(cwd, showAbsPath, pl, idxs[..|idxs| - 1], name)
      + [AbsOrRel(cwd, showAbsPath, pl[idxs[|idxs| - 1]]) + name]
  }

  /**
   * Each shown path is the file's full path, or a path relative to the
   * working directory that names the same file; with showAbsPath it is the
   * full path.
   */
  lemma {:induction false} ShownPathsNameFiles(cwd: string, showAbsPath: bool, pl: seq<string>, idxs: seq<nat>, name: string, j: nat)
    requires InRange(pl, idxs) && j < |idxs|
    ensures var r := ShownPaths(cwd, showAbsPath, pl, idxs, name);
      (r[j] == pl[idxs[j]] + name || Rejoin(cwd, r[j]) == pl[idxs[j]] + name)
      && (showAbsPath ==> r[j] == pl[idxs[j]] + name)
    decreases |idxs|
  {
    if j < |idxs| - 1 {
      ShownPathsNameFiles(cwd, showAbsPath, pl, idxs[..|idxs| - 1], name, j);
    } else {
      RejoinAppend(cwd, AbsOrRel(cwd, showAbsPath, pl[idxs[j]]), name);
    }
  }

  /** The deleteFile calls of one printPaths. */
  function PrintDeletions(o: Options, e: Engine, cwd: string, pl: seq<string>, idxs: seq<nat>, name: string): seq<Deletion>
    requires InRange(pl, idxs)
  {
    Deletions(o, e, ShownPaths(cwd, o.showAbsPath, pl, idxs, name))
  }

  /* ---------------------------------------------------------------- */
  /* justName                                                          */

  /** The printPaths of every name seen under more than one directory, in key order. */
  function JustNameDeletions(o: Options, e: Engine, cwd: string, fl: map<string, seq<nat>>, pl: seq<string>, ks: seq<string>): (r: seq<Deletion>)
    requires Indexed(fl, pl)
    decreases |ks|
  {
    if ks == [] then []
    else
      var k := ks[|ks| - 1];
      JustNameDeletions(o, e, cwd, fl, pl, ks[..|ks| - 1])
      + (if k in fl && |fl[k]| > 1 then PrintDeletions(o, e, cwd, pl, fl[k], k) else [])
  }

  /** The log after one more name: what was logged before, then that name's printPaths. */
  lemma JustNameDeletionsSnoc(log: seq<Deletion>, o: Options, e: Engine, cwd: string, fl: map<string, seq<nat>>, pl: seq<string>, ks: seq<string>, k: string)
    requires Indexed(fl, pl)
    ensures log + JustNameDeletions(o, e, cwd, fl, pl, ks + [k]) == (log + JustNameDeletions(o, e, cwd, fl, pl, ks))
      + (if k in fl && |fl[k]| > 1 then PrintDeletions(o, e, cwd, pl, fl[k], k) else [])
  {
    assert (ks + [k])[..|ks|] == ks;
    ConcatAssoc(log, JustNameDeletions(o, e, cwd, fl, pl, ks),
      if k in fl && |fl[k]| > 1 then PrintDeletions(o, e, cwd, pl, fl[k], k) else []);
  }

  /** A deletion is requested exactly by the printPaths of a repeated name. */
  lemma {:induction false} JustNameDeletionsIff(o: Options, e: Engine, cwd: string, fl: map<string, seq<nat>>, pl: seq<string>, ks: seq<string>, d: Deletion)
    requires Indexed(fl, pl)
    ensures d in JustNameDeletions(o, e, cwd, fl, pl, ks) <==>
      exists k :: k in ks && k in fl && |fl[k]| > 1 && d in PrintDeletions(o, e, cwd, pl, fl[k], k)
    decreases |ks|
  {
    if ks != [] {
      var init := ks[..|ks| - 1];
      JustNameDeletionsIff(o, e, cwd, fl, pl, init, d);
      assert ks == init + [ks[|ks| - 1]];
    }
  }

  /**
   * In name-only mode every name recorded under k directories reports k - 1
   * duplicates: in all, the accepted files minus the distinct names.
   */
  lemma JustNameCounts(fl: map<string, seq<nat>>, pl: seq<string>, added: seq<string>)
    requires Represents(fl, pl, added)
    ensures ExcessAlong(fl, SortedStrings(fl.Keys)) == SumExcess(fl)
    ensures SumExcess(fl) + |fl| == |added|
  {
    RepresentsIndexed(fl, pl, added);
    ExcessIsMembersMinusGroups(fl);
    ExcessInOrder(fl);
  }

  /** The loop over a std::map<std::string, ...> counts each entry once, whatever the order. */
  lemma ExcessInOrder<V>(m: map<string, seq<V>>)
    ensures ExcessAlong(m, SortedStrings(m.Keys)) == SumExcess(m)
  {
    SortedStringsDistinct(m.Keys);
    AlongAll(m, SortedStrings(m.Keys));
  }

  /** The loop over a std::map<HashValue, ...> counts each entry once, whatever the order. */
  lemma NatsInOrder<V>(m: map<nat, seq<V>>)
    ensures ExcessAlong(m, SortedNats(m.Keys)) == SumExcess(m)
    ensures CrowdedAlong(m, SortedNats(m.Keys)) == SumCrowded(m)
  {
    SortedNatsDistinct(m.Keys);
    AlongAll(m, SortedNats(m.Keys));
  }

  /* ---------------------------------------------------------------- */
  /* justName with ignoreExtn                                          */

  /** The pushes into noExtnList: each name under its extension-less stem. */
  function StemPairs(env: Env, ks: seq<string>): (r: seq<(string, string)>)
    ensures |r| == |ks|
    ensures forall j :: 0 <= j < |ks| ==> r[j] == (env.stem(GetName(ks[j])), ks[j])
    decreases |ks|
  {
    if ks == [] then []
    else
      var k := ks[0];
      [(env.stem(GetName(k)), k)] + StemPairs(env, ks[1..])
  }

  /** One more name adds its pair at the end. */
  lemma StemPairsSnoc(env: Env, ks: seq<string>, k: string)
    ensures StemPairs(env, ks + [k]) == StemPairs(env, ks) + [(env.stem(GetName(k)), k)]
  {
    var ks' := ks + [k];
    assert forall j :: 0 <= j < |ks| ==> ks'[j] == ks[j];
    SnocEq(StemPairs(env, ks'), StemPairs(env, ks), (env.stem(GetName(k)), k));
  }

  /** noExtnList: the names of the table grouped by stem, each group in key order. */
  ghost function NoExtn(env: Env, fl: map<string, seq<nat>>): map<string, seq<string>>
  {
    Group(StemPairs(env, SortedStrings(fl.Keys)))
  }

  /** The printPaths of each name of a stem group, in group order. */
  function NamesDeletions(o: Options, e: Engine, cwd: string, fl: map<string, seq<nat>>, pl: seq<string>, names: seq<string>): (r: seq<Deletion>)
    requires Indexed(fl, pl)
    decreases |names|
  {
    if names == [] then []
    else
      var n := names[|names| - 1];
      NamesDeletions(o, e, cwd, fl, pl, names[..|names| - 1]) + PrintDeletions(o, e, cwd, pl, Get(fl, n), n)
  }

  lemma NamesDeletionsSnoc(log: seq<Deletion>, o: Options, e: Engine, cwd: string, fl: map<string, seq<nat>>, pl: seq<string>, names: seq<string>, n: string)
    requires Indexed(fl, pl)
    ensures log + NamesDeletions(o, e, cwd, fl, pl, names + [n])
      == (log + NamesDeletions(o, e, cwd, fl, pl, names)) + PrintDeletions(o, e, cwd, pl, Get(fl, n), n)
  {
    assert (names + [n])[..|names|] == names;
    ConcatAssoc(log, NamesDeletions(o, e, cwd, fl, pl, names), PrintDeletions(o, e, cwd, pl, Get(fl, n), n));
  }

  /** The printPaths of every stem group of more than one name, in stem order. */
  function StemDeletions(o: Options, e: Engine, cwd: string, fl: map<string, seq<nat>>, pl: seq<string>, nx: map<string, seq<string>>, ss: seq<string>): (r: seq<Deletion>)
    requires Indexed(fl, pl)
    decreases |ss|
  {
    if ss == [] then []
    else
      var s := ss[|ss| - 1];
      StemDeletions(o, e, cwd, fl, pl, nx, ss[..|ss| - 1])
      + (if s in nx && |nx[s]| > 1 then NamesDeletions(o, e, cwd, fl, pl, nx[s]) else [])
  }

  lemma StemDeletionsSnoc(log: seq<Deletion>, o: Options, e: Engine, cwd: string, fl: map<string, seq<nat>>, pl: seq<string>, nx: map<string, seq<string>>, ss: seq<string>, s: string)
    requires Indexed(fl, pl)
    ensures log + StemDeletions(o, e, cwd, fl, pl, nx, ss + [s]) == (log + StemDeletions(o, e, cwd, fl, pl, nx, ss))
      + (if s in nx && |nx[s]| > 1 then NamesDeletions(o, e, cwd, fl, pl, nx[s]) else [])
  {
    assert (ss + [s])[..|ss|] == ss;
    ConcatAssoc(log, StemDeletions(o, e, cwd, fl, pl, nx, ss),
      if s in nx && |nx[s]| > 1 then NamesDeletions(o, e, cwd, fl, pl, nx[s]) else []);
  }

  /** A name is in the group of a stem exactly when it is a name of the table with that stem. */
  lemma NoExtnMembers(env: Env, fl: map<string, seq<nat>>, s: string, n: string)
    ensures n in Get(NoExtn(env, fl), s) <==> n in fl && env.stem(GetName(n)) == s
    ensures s in NoExtn(env, fl) ==> |NoExtn(env, fl)[s]| > 0
  {
    var ks := SortedStrings(fl.Keys);
    var pairs := StemPairs(env, ks);
    GroupMembers(pairs, s, n);
    if n in fl && env.stem(GetName(n)) == s {
      var j :| 0 <= j < |ks| && ks[j] == n;
      assert pairs[j] == (s, n);
    }
  }

  /** Every group of `nx` lists names of the table. */
  predicate NamesOf(nx: map<string, seq<string>>, fl: map<string, seq<nat>>)
  {
    forall s :: s in nx ==> forall j :: 0 <= j < |nx[s]| ==> nx[s][j] in fl
  }

  lemma NoExtnNamesOf(env: Env, fl: map<string, seq<nat>>)
    ensures NamesOf(NoExtn(env, fl), fl)
  {
    var nx := NoExtn(env, fl);
    forall s, j | s in nx && 0 <= j < |nx[s]| ensures nx[s][j] in fl {
      NoExtnMembers(env, fl, s, nx[s][j]);
    }
  }

  /**
   * With extensions ignored, each stem shared by g names reports g - 1
   * duplicates: in all, the distinct names minus the distinct stems.
   */
  lemma StemCounts(env: Env, fl: map<string, seq<nat>>)
    ensures ExcessAlong(NoExtn(env, fl), SortedStrings(NoExtn(env, fl).Keys)) == SumExcess(NoExtn(env, fl))
    ensures SumExcess(NoExtn(env, fl)) + |NoExtn(env, fl)| == |fl|
  {
    var nx := NoExtn(env, fl);
    ExcessInOrder(nx);
    GroupCount(StemPairs(env, SortedStrings(fl.Keys)));
    forall s | s in nx ensures |nx[s]| > 0 {
      NoExtnMembers(env, fl, s, []);
    }
    ExcessIsMembersMinusGroups(nx);
  }

  /* ---------------------------------------------------------------- */
  /* sameName                                                          */

  /** Hasher::compute of each path. */
  function Hashes(fs: Fs, env: Env, paths: seq<string>): (r: seq<nat>)
    ensures |r| == |paths|
    ensures forall j :: 0 <= j < |paths| ==> r[j] == Hash(fs, env, paths[j])
    decreases |paths|
  {
    if paths == [] then []
    else Hashes(fs, env, paths[..|paths| - 1]) + [Hash(fs, env, paths[|paths| - 1])]
  }

  lemma TallyAll(hs: seq<nat>)
    ensures forall h :: h in hs ==> h in Tally(hs) && Tally(hs)[h] == multiset(hs)[h]
  {
    forall h | h in hs ensures h in Tally(hs) && Tally(hs)[h] == multiset(hs)[h] {
      TallyCounts(hs, h);
    }
  }

  /**
   * isDup of each instance: its hash is tallied more than once, that is,
   * another instance of the name has the same hash.
   */
  function DupFlags(hs: seq<nat>): (r: seq<bool>)
    ensures |r| == |hs|
  {
    var t := Tally(hs);
    seq(|hs|, j requires 0 <= j < |hs| => (if hs[j] in t then t[hs[j]] else 0) != 1)
  }

  /** An instance is flagged exactly when its hash occurs more than once among the instances. */
  lemma DupFlagsShared(hs: seq<nat>)
    ensures forall j :: 0 <= j < |hs| ==> (DupFlags(hs)[j] <==> multiset(hs)[hs[j]] > 1)
  {
    TallyAll(hs);
  }

  /** The elements of `xs` whose flag is set, in order. */
  function Kept<T>(xs: seq<T>, keep: seq<bool>): (r: seq<T>)
    requires |xs| == |keep|
    ensures |r| <= |xs|
    decreases |xs|
  {
    if xs == [] then []
    else
      var n := |xs| - 1;
      Kept(xs[..n], keep[..n]) + (if keep[n] then [xs[n]] else [])
  }

  /** The pushes into hashFileList: each instance whose isDup differs from invert, under its hash. */
  function FlaggedPairs(hs: seq<nat>, idxs: seq<nat>, flags: seq<bool>, invert: bool): (r: seq<(nat, nat)>)
    requires |hs| == |idxs| == |flags|
    ensures |r| <= |hs|
    ensures forall j :: 0 <= j < |r| ==> r[j].1 in idxs
    decreases |hs|
  {
    if hs == [] then []
    else
      var n := |hs| - 1;
      FlaggedPairs(hs[..n], idxs[..n], flags[..n], invert)
      + (if flags[n] != invert then [(hs[n], idxs[n])] else [])
  }

  /** Each bucket of a grouping of indices of `pl` holds indices of `pl`. */
  lemma GroupInRange(pl: seq<string>, idxs: seq<nat>, pairs: seq<(nat, nat)>)
    requires InRange(pl, idxs)
    requires forall j :: 0 <= j < |pairs| ==> pairs[j].1 in idxs
    ensures forall h :: h in Group(pairs) ==> InRange(pl, Group(pairs)[h])
  {
    var g := Group(pairs);
    forall h | h in g ensures InRange(pl, g[h]) {
      forall j | 0 <= j < |g[h]| ensures g[h][j] < |pl| {
        var v := g[h][j];
        GroupMembers(pairs, h, v);
        var i :| 0 <= i < |pairs| && pairs[i] == (h, v);
        var k :| 0 <= k < |idxs| && idxs[k] == v;
      }
    }
  }

  /** The full paths of each hash bucket of more than one instance, in hash order. */
  function CrowdDeletions(o: Options, e: Engine, pl: seq<string>, name: string, hb: map<nat, seq<nat>>, hk: seq<nat>): (r: seq<Deletion>)
    requires forall h :: h in hb ==> InRange(pl, hb[h])
    decreases |hk|
  {
    if hk == [] then []
    else
      var h := hk[|hk| - 1];
      CrowdDeletions(o, e, pl, name, hb, hk[..|hk| - 1])
      + (if h in hb && |hb[h]| > 1 then Deletions(o, e, FullPaths(pl, name, hb[h])) else [])
  }

  /** hashFileList of one name. */
  function HashBuckets(fs: Fs, env: Env, pl: seq<string>, name: string, idxs: seq<nat>, invert: bool): (r: map<nat, seq<nat>>)
    requires InRange(pl, idxs)
    ensures forall h :: h in r ==> InRange(pl, r[h])
  {
    var hs := Hashes(fs, env, FullPaths(pl, name, idxs));
    var pairs := FlaggedPairs(hs, idxs, DupFlags(hs), invert);
    GroupInRange(pl, idxs, pairs);
    Group(pairs)
  }

  /**
   * One name recorded under several directories. Verbose: every instance
   * is a duplicate (its hash is shared) or a difference, and duplicates
   * matching delDupPath are deleted. Otherwise: each hash bucket of more
   * than one instance counts all its instances and deletes those matching.
   */
  ghost function NameReport(o: Options, e: Engine, fs: Fs, env: Env, pl: seq<string>, name: string, idxs: seq<nat>): Report
    requires InRange(pl, idxs)
  {
    var paths := FullPaths(pl, name, idxs);
    var hs := Hashes(fs, env, paths);
    if o.verbose then
      var dups := Kept(paths, DupFlags(hs));
      Report(|dups|, |idxs| - |dups|, Deletions(o, e, dups))
    else
      var hb := HashBuckets(fs, env, pl, name, idxs, o.invert);
      Report(CrowdedAlong(hb, SortedNats(hb.Keys)), 0, CrowdDeletions(o, e, pl, name, hb, SortedNats(hb.Keys)))
  }

  /** The same-name pass over the names `ks`, in order. */
  ghost function SameNameReport(o: Options, e: Engine, fs: Fs, env: Env, fl: map<string, seq<nat>>, pl: seq<string>, ks: seq<string>): Report
    requires Indexed(fl, pl)
    decreases |ks|
  {
    if ks == [] then NOTHING
    else
      var k := ks[|ks| - 1];
      Plus(SameNameReport(o, e, fs, env, fl, pl, ks[..|ks| - 1]),
           if k in fl && |fl[k]| > 1 then NameReport(o, e, fs, env, pl, k, fl[k]) else NOTHING)
  }

  /** The instances of a flagged sequence that carry the flag, counted. */
  function CountSet(flags: seq<bool>): (r: nat)
    ensures r <= |flags|
    decreases |flags|
  {
    if flags == [] then 0
    else CountSet(flags[..|flags| - 1]) + (if flags[|flags| - 1] then 1 else 0)
  }

  lemma {:induction false} KeptCount<T>(xs: seq<T>, keep: seq<bool>)
    requires |xs| == |keep|
    ensures |Kept(xs, keep)| == CountSet(keep)
    decreases |xs|
  {
    if xs != [] {
      KeptCount(xs[..|xs| - 1], keep[..|xs| - 1]);
    }
  }

  /** The pushes under hash `h` are the instances with hash `h` whose flag differs from invert. */
  lemma {:induction false} FlaggedKeyCount(hs: seq<nat>, idxs: seq<nat>, flags: seq<bool>, invert: bool, h: nat)
    requires |hs| == |idxs| == |flags|
    requires forall j :: 0 <= j < |hs| && hs[j] == h ==> flags[j] != invert
    ensures KeyCount(FlaggedPairs(hs, idxs, flags, invert), h) == multiset(hs)[h]
    decreases |hs|
  {
    if hs != [] {
      var n := |hs| - 1;
      FlaggedKeyCount(hs[..n], idxs[..n], flags[..n], invert, h);
      assert hs == hs[..n] + [hs[n]];
      var init := FlaggedPairs(hs[..n], idxs[..n], flags[..n], invert);
      if flags[n] != invert {
        assert FlaggedPairs(hs, idxs, flags, invert) == init + [(hs[n], idxs[n])];
        KeyCountSnoc(init, (hs[n], idxs[n]), h);
      } else {
        assert FlaggedPairs(hs, idxs, flags, invert) == init + [];
        assert init + [] == init;
      }
    }
  }

  /** No push is made under a hash whose instances all carry invert as their flag. */
  lemma {:induction false} FlaggedKeyAbsent(hs: seq<nat>, idxs: seq<nat>, flags: seq<bool>, invert: bool, h: nat)
    requires |hs| == |idxs| == |flags|
    requires forall j :: 0 <= j < |hs| && hs[j] == h ==> flags[j] == invert
    ensures KeyCount(FlaggedPairs(hs, idxs, flags, invert), h) == 0
    decreases |hs|
  {
    if hs != [] {
      var n := |hs| - 1;
      FlaggedKeyAbsent(hs[..n], idxs[..n], flags[..n], invert, h);
      var init := FlaggedPairs(hs[..n], idxs[..n], flags[..n], invert);
      if flags[n] != invert {
        assert FlaggedPairs(hs, idxs, flags, invert) == init + [(hs[n], idxs[n])];
        KeyCountSnoc(init, (hs[n], idxs[n]), h);
      } else {
        assert FlaggedPairs(hs, idxs, flags, invert) == init + [];
        assert init + [] == init;
      }
    }
  }

  /** The pushes of FlaggedPairs are the instances whose flag differs from invert. */
  lemma {:induction false} FlaggedPairsCount(hs: seq<nat>, idxs: seq<nat>, flags: seq<bool>)
    requires |hs| == |idxs| == |flags|
    ensures |FlaggedPairs(hs, idxs, flags, false)| == CountSet(flags)
    decreases |hs|
  {
    if hs != [] {
      var n := |hs| - 1;
      FlaggedPairsCount(hs[..n], idxs[..n], flags[..n]);
    }
  }

  /** A hash pushed under with flags from DupFlags is shared by at least two instances, all pushed. */
  lemma TwinedBucket(hs: seq<nat>, idxs: seq<nat>, h: nat)
    requires |hs| == |idxs|
    requires KeyCount(FlaggedPairs(hs, idxs, DupFlags(hs), false), h) > 0
    ensures KeyCount(FlaggedPairs(hs, idxs, DupFlags(hs), false), h) > 1
  {
    var flags := DupFlags(hs);
    DupFlagsShared(hs);
    if forall j :: 0 <= j < |hs| && hs[j] == h ==> !flags[j] {
      FlaggedKeyAbsent(hs, idxs, flags, false, h);
    } else {
      var j :| 0 <= j < |hs| && hs[j] == h && flags[j];
      FlaggedKeyCount(hs, idxs, flags, false, h);
    }
  }

  /** A hash pushed under with invert set is held by that one instance alone. */
  lemma LonelyBucket(hs: seq<nat>, idxs: seq<nat>, h: nat)
    requires |hs| == |idxs|
    ensures KeyCount(FlaggedPairs(hs, idxs, DupFlags(hs), true), h) <= 1
  {
    var flags := DupFlags(hs);
    DupFlagsShared(hs);
    if forall j :: 0 <= j < |hs| && hs[j] == h ==> flags[j] {
      FlaggedKeyAbsent(hs, idxs, flags, true, h);
    } else {
      var j :| 0 <= j < |hs| && hs[j] == h && !flags[j];
      FlaggedKeyCount(hs, idxs, flags, true, h);
    }
  }

  /** Without invert, every hash bucket holds at least two instances, and all twinned instances. */
  lemma TwinsCount<T>(hs: seq<nat>, idxs: seq<nat>, xs: seq<T>)
    requires |hs| == |idxs| == |xs|
    ensures SumCrowded(Group(FlaggedPairs(hs, idxs, DupFlags(hs), false))) == |Kept(xs, DupFlags(hs))|
  {
    var flags := DupFlags(hs);
    var pairs := FlaggedPairs(hs, idxs, flags, false);
    var hb := Group(pairs);
    forall h | h in hb ensures |hb[h]| > 1 {
      GroupBucketLen(pairs, h);
      GroupMembers(pairs, h, 0);
      TwinedBucket(hs, idxs, h);
    }
    SumCrowdedAll(hb);
    GroupCount(pairs);
    FlaggedPairsCount(hs, idxs, flags);
    KeptCount(xs, flags);
  }

  /** With invert, every hash bucket holds one instance. */
  lemma LonelyCount(hs: seq<nat>, idxs: seq<nat>)
    requires |hs| == |idxs|
    ensures forall h :: h in Group(FlaggedPairs(hs, idxs, DupFlags(hs), true)) ==>
      |Group(FlaggedPairs(hs, idxs, DupFlags(hs), true))[h]| <= 1
  {
    var pairs := FlaggedPairs(hs, idxs, DupFlags(hs), true);
    forall h | h in Group(pairs) ensures |Group(pairs)[h]| <= 1 {
      GroupBucketLen(pairs, h);
      LonelyBucket(hs, idxs, h);
    }
  }

  /**
   * Without verbose or invert, the buckets of a name count exactly the
   * instances whose hash another instance shares, the number the verbose
   * listing reports as duplicates; verbose splits the instances into
   * duplicates and differences.
   */
  lemma NameReportCountsTwins(o: Options, e: Engine, fs: Fs, env: Env, pl: seq<string>, name: string, idxs: seq<nat>)
    requires InRange(pl, idxs) && !o.invert
    ensures var paths := FullPaths(pl, name, idxs);
      var r := NameReport(o, e, fs, env, pl, name, idxs);
      r.same == |Kept(paths, DupFlags(Hashes(fs, env, paths)))|
      && (o.verbose ==> r.same + r.diff == |idxs|)
      && (!o.verbose ==> r.diff == 0)
  {
    var paths := FullPaths(pl, name, idxs);
    TwinsCount(Hashes(fs, env, paths), idxs, paths);
    NatsInOrder(HashBuckets(fs, env, pl, name, idxs, o.invert));
  }

  /**
   * With invert (and no verbose), the buckets hold the instances whose hash
   * no other instance shares, one per bucket: nothing is counted or deleted.
   */
  lemma NameReportInvertIsQuiet(o: Options, e: Engine, fs: Fs, env: Env, pl: seq<string>, name: string, idxs: seq<nat>)
    requires InRange(pl, idxs) && !o.verbose && o.invert
    ensures NameReport(o, e, fs, env, pl, name, idxs) == NOTHING
  {
    var hs := Hashes(fs, env, FullPaths(pl, name, idxs));
    var hb := HashBuckets(fs, env, pl, name, idxs, true);
    LonelyCount(hs, idxs);
    SumCrowdedLonely(hb);
    NatsInOrder(hb);
    CrowdDeletionsLonely(o, e, pl, name, hb, SortedNats(hb.Keys));
  }

  lemma {:induction false} CrowdDeletionsLonely(o: Options, e: Engine, pl: seq<string>, name: string, hb: map<nat, seq<nat>>, hk: seq<nat>)
    requires forall h :: h in hb ==> InRange(pl, hb[h])
    requires forall h :: h in hb ==> |hb[h]| <= 1
    ensures CrowdDeletions(o, e, pl, name, hb, hk) == []
    decreases |hk|
  {
    if hk != [] {
      CrowdDeletionsLonely(o, e, pl, name, hb, hk[..|hk| - 1]);
    }
  }

  /** The kept elements of one more position. */
  lemma KeptPrefix<T>(xs: seq<T>, keep: seq<bool>, i: nat)
    requires |xs| == |keep| && i < |xs|
    ensures Kept(xs[..i + 1], keep[..i + 1]) == Kept(xs[..i], keep[..i]) + (if keep[i] then [xs[i]] else [])
  {
    assert xs[..i + 1][..i] == xs[..i];
    assert keep[..i + 1][..i] == keep[..i];
  }

  /** The buckets after one more instance: it is pushed under its hash exactly when its flag differs from invert. */
  lemma GroupFlaggedPrefix(hs: seq<nat>, idxs: seq<nat>, flags: seq<bool>, invert: bool, i: nat)
    requires |hs| == |idxs| == |flags| && i < |hs|
    ensures var g := Group(FlaggedPairs(hs[..i], idxs[..i], flags[..i], invert));
      Group(FlaggedPairs(hs[..i + 1], idxs[..i + 1], flags[..i + 1], invert))
      == if flags[i] != invert then g[hs[i] := Get(g, hs[i]) + [idxs[i]]] else g
  {
    var before := FlaggedPairs(hs[..i], idxs[..i], flags[..i], invert);
    FlaggedPairsPrefix(hs, idxs, flags, invert, i);
    if flags[i] != invert {
      GroupSnoc(before, hs[i], idxs[i]);
    } else {
      assert before + [] == before;
    }
  }

  /** The buckets of a name are those pushed by the whole instance list. */
  lemma HashBucketsAll(fs: Fs, env: Env, pl: seq<string>, name: string, idxs: seq<nat>, invert: bool)
    requires InRange(pl, idxs)
    ensures var hs := Hashes(fs, env, FullPaths(pl, name, idxs));
      var n := |idxs|;
      HashBuckets(fs, env, pl, name, idxs, invert) == Group(FlaggedPairs(hs[..n], idxs[..n], DupFlags(hs)[..n], invert))
  {
    var hs := Hashes(fs, env, FullPaths(pl, name, idxs));
    var flags := DupFlags(hs);
    assert hs[..|idxs|] == hs && idxs[..|idxs|] == idxs && flags[..|idxs|] == flags;
  }

  lemma KeptAll<T>(xs: seq<T>, keep: seq<bool>)
    requires |xs| == |keep|
    ensures Kept(xs[..|xs|], keep[..|xs|]) == Kept(xs, keep)
  {
    assert xs[..|xs|] == xs && keep[..|xs|] == keep;
  }

  /** The pushes of one more instance. */
  lemma FlaggedPairsPrefix(hs: seq<nat>, idxs: seq<nat>, flags: seq<bool>, invert: bool, i: nat)
    requires |hs| == |idxs| == |flags| && i < |hs|
    ensures FlaggedPairs(hs[..i + 1], idxs[..i + 1], flags[..i + 1], invert)
      == FlaggedPairs(hs[..i], idxs[..i], flags[..i], invert) + (if flags[i] != invert then [(hs[i], idxs[i])] else [])
  {
    assert hs[..i + 1][..i] == hs[..i];
    assert idxs[..i + 1][..i] == idxs[..i];
    assert flags[..i + 1][..i] == flags[..i];
  }

  /** isDup as the loop computes it from the tally: the count of its hash is not one. */
  lemma DupFlagOf(hs: seq<nat>, i: nat)
    requires i < |hs|
    ensures hs[i] in Tally(hs) && (Tally(hs)[hs[i]] != 1 <==> DupFlags(hs)[i])
  {
    TallyCounts(hs, hs[i]);
    assert hs[i] in multiset(hs);
  }

  lemma CrowdDeletionsSnoc(log: seq<Deletion>, o: Options, e: Engine, pl: seq<string>, name: string, hb: map<nat, seq<nat>>, hk: seq<nat>, h: nat)
    requires forall h :: h in hb ==> InRange(pl, hb[h])
    ensures log + CrowdDeletions(o, e, pl, name, hb, hk + [h]) == (log + CrowdDeletions(o, e, pl, name, hb, hk))
      + (if h in hb && |hb[h]| > 1 then Deletions(o, e, FullPaths(pl, name, hb[h])) else [])
  {
    assert (hk + [h])[..|hk|] == hk;
    ConcatAssoc(log, CrowdDeletions(o, e, pl, name, hb, hk),
      if h in hb && |hb[h]| > 1 then Deletions(o, e, FullPaths(pl, name, hb[h])) else []);
  }

  /** The same-name pass after one more name: the pass so far, plus that name's report. */
  lemma SameNameReportSnoc(o: Options, e: Engine, fs: Fs, env: Env, fl: map<string, seq<nat>>, pl: seq<string>,
                           ks: seq<string>, k: string)
    requires Indexed(fl, pl)
    ensures SameNameReport(o, e, fs, env, fl, pl, ks + [k])
      == Plus(SameNameReport(o, e, fs, env, fl, pl, ks),
              if k in fl && |fl[k]| > 1 then NameReport(o, e, fs, env, pl, k, fl[k]) else NOTHING)
  {
    assert (ks + [k])[..|ks|] == ks;
  }

  /* ---------------------------------------------------------------- */
  /* global: size, then hash                                           */

  /** A PathParts of sizeFileList: an index of pathList and a name. */
  datatype PathParts = PathParts(pathIdx: nat, name: string)

  /** The key of sizeFileList: the length, or the string hash of the path for an empty file. */
  function SizeKey(fs: Fs, env: Env, path: string): (r: nat)
    ensures DirFileLength(fs, path) != 0 ==> r == DirFileLength(fs, path)
    ensures DirFileLength(fs, path) == 0 ==> r == env.strHash(path)
  {
    var len := DirFileLength(fs, path);
    if len != 0 then len else env.strHash(path)
  }

  /** All parts name entries of `pl`. */
  predicate PairsIn(pl: seq<string>, s: seq<(nat, PathParts)>)
  {
    forall j :: 0 <= j < |s| ==> s[j].1.pathIdx < |pl|
  }

  predicate PartsIn(pl: seq<string>, parts: seq<PathParts>)
  {
    forall j :: 0 <= j < |parts| ==> parts[j].pathIdx < |pl|
  }

  function PartPath(pl: seq<string>, p: PathParts): string
    requires p.pathIdx < |pl|
  {
    pl[p.pathIdx] + p.name
  }

  /** The pushes into sizeFileList for one name, in index order. */
  function EntryParts(fs: Fs, env: Env, pl: seq<string>, name: string, idxs: seq<nat>): (r: seq<(nat, PathParts)>)
    requires InRange(pl, idxs)
    ensures |r| == |idxs| && PairsIn(pl, r)
    decreases |idxs|
  {
    if idxs == [] then []
    else
      var idx := idxs[|idxs| - 1];
      EntryParts(fs, env, pl, name, idxs[..|idxs| - 1]) + [(SizeKey(fs, env, pl[idx] + name), PathParts(idx, name))]
  }

  /** The pushes into sizeFileList for the names `ks`, in order. */
  function SizePairs(fs: Fs, env: Env, fl: map<string, seq<nat>>, pl: seq<string>, ks: seq<string>): (r: seq<(nat, PathParts)>)
    requires Indexed(fl, pl)
    ensures PairsIn(pl, r)
    decreases |ks|
  {
    if ks == [] then []
    else
      var k := ks[|ks| - 1];
      SizePairs(fs, env, fl, pl, ks[..|ks| - 1]) + (if k in fl then EntryParts(fs, env, pl, k, fl[k]) else [])
  }

  /** The pushes into hashFileList for one size bucket, in bucket order. */
  function HashParts(fs: Fs, env: Env, pl: seq<string>, parts: seq<PathParts>): (r: seq<(nat, PathParts)>)
    requires PartsIn(pl, parts)
    ensures |r| == |parts| && PairsIn(pl, r)
    decreases |parts|
  {
    if parts == [] then []
    else
      var p := parts[|parts| - 1];
      HashParts(fs, env, pl, parts[..|parts| - 1]) + [(Hash(fs, env, PartPath(pl, p)), p)]
  }

  /** The pushes into hashFileList: the members of each size bucket whose crowding differs from invert. */
  function HashPairs(fs: Fs, env: Env, pl: seq<string>, sb: map<nat, seq<PathParts>>, invert: bool, sk: seq<nat>): (r: seq<(nat, PathParts)>)
    requires forall s :: s in sb ==> PartsIn(pl, sb[s])
    ensures PairsIn(pl, r)
    decreases |sk|
  {
    if sk == [] then []
    else
      var s := sk[|sk| - 1];
      HashPairs(fs, env, pl, sb, invert, sk[..|sk| - 1])
      + (if s in sb && (|sb[s]| > 1) != invert then HashParts(fs, env, pl, sb[s]) else [])
  }

  /** Each bucket of a grouping of parts of `pl` holds parts of `pl`. */
  lemma GroupPartsIn(pl: seq<string>, s: seq<(nat, PathParts)>)
    requires PairsIn(pl, s)
    ensures forall k :: k in Group(s) ==> PartsIn(pl, Group(s)[k]) && |Group(s)[k]| > 0
  {
    var g := Group(s);
    forall k | k in g ensures PartsIn(pl, g[k]) && |g[k]| > 0 {
      GroupMembers(s, k, PathParts(0, []));
      forall j | 0 <= j < |g[k]| ensures g[k][j].pathIdx < |pl| {
        var v := g[k][j];
        GroupMembers(s, k, v);
        var i :| 0 <= i < |s| && s[i] == (k, v);
      }
    }
  }

  /** The full paths of some parts, in order. */
  function PartPaths(pl: seq<string>, parts: seq<PathParts>): (r: seq<string>)
    requires PartsIn(pl, parts)
    ensures |r| == |parts|
    decreases |parts|
  {
    if parts == [] then []
    else PartPaths(pl, parts[..|parts| - 1]) + [PartPath(pl, parts[|parts| - 1])]
  }

  /** The members of each reported hash bucket checked for deletion, in hash order. */
  function GlobalDeletions(o: Options, e: Engine, pl: seq<string>, hb: map<nat, seq<PathParts>>, invert: bool, hk: seq<nat>): (r: seq<Deletion>)
    requires forall h :: h in hb ==> PartsIn(pl, hb[h])
    decreases |hk|
  {
    if hk == [] then []
    else
      var h := hk[|hk| - 1];
      GlobalDeletions(o, e, pl, hb, invert, hk[..|hk| - 1])
      + (if h in hb && (|hb[h]| > 1) != invert then Deletions(o, e, PartPaths(pl, hb[h])) else [])
  }

  /** sizeFileList: every instance of the table under its size key. */
  ghost function SizeBuckets(fs: Fs, env: Env, fl: map<string, seq<nat>>, pl: seq<string>): (r: map<nat, seq<PathParts>>)
    requires Indexed(fl, pl)
    ensures forall s :: s in r ==> PartsIn(pl, r[s]) && |r[s]| > 0
  {
    var pairs := SizePairs(fs, env, fl, pl, SortedStrings(fl.Keys));
    GroupPartsIn(pl, pairs);
    Group(pairs)
  }

  /** hashFileList: the members of the selected size buckets under their hash. */
  ghost function GlobalHashBuckets(fs: Fs, env: Env, pl: seq<string>, sb: map<nat, seq<PathParts>>, invert: bool): (r: map<nat, seq<PathParts>>)
    requires forall s :: s in sb ==> PartsIn(pl, sb[s])
    ensures forall h :: h in r ==> PartsIn(pl, r[h]) && |r[h]| > 0
  {
    var pairs := HashPairs(fs, env, pl, sb, invert, SortedNats(sb.Keys));
    GroupPartsIn(pl, pairs);
    Group(pairs)
  }

  /**
   * Global mode: each reported hash bucket of n members adds n - 1 (nothing
   * with invert, whose reported buckets have one member), and its members
   * matching delDupPath are deleted.
   */
  ghost function GlobalReport(o: Options, e: Engine, fs: Fs, env: Env, fl: map<string, seq<nat>>, pl: seq<string>): Report
    requires Indexed(fl, pl)
  {
    var sb := SizeBuckets(fs, env, fl, pl);
    var hb := GlobalHashBuckets(fs, env, pl, sb, o.invert);
    Report(if o.invert then 0 else ExcessAlong(hb, SortedNats(hb.Keys)), 0, GlobalDeletions(o, e, pl, hb, o.invert, SortedNats(hb.Keys)))
  }

  /** One more name of the size pass. */
  lemma SizePairsSnoc(fs: Fs, env: Env, fl: map<string, seq<nat>>, pl: seq<string>, ks: seq<string>, k: string)
    requires Indexed(fl, pl)
    ensures SizePairs(fs, env, fl, pl, ks + [k])
      == SizePairs(fs, env, fl, pl, ks) + (if k in fl then EntryParts(fs, env, pl, k, fl[k]) else [])
  {
    assert (ks + [k])[..|ks|] == ks;
  }

  /** One more instance of a name pushed into sizeFileList, after the pushes `base`. */
  lemma EntryPartsStep(fs: Fs, env: Env, pl: seq<string>, name: string, idxs: seq<nat>, base: seq<(nat, PathParts)>, i: nat)
    requires InRange(pl, idxs) && i < |idxs|
    ensures var g := Group(base + EntryParts(fs, env, pl, name, idxs[..i]));
      var key := SizeKey(fs, env, pl[idxs[i]] + name);
      Group(base + EntryParts(fs, env, pl, name, idxs[..i + 1])) == g[key := Get(g, key) + [PathParts(idxs[i], name)]]
  {
    var key := SizeKey(fs, env, pl[idxs[i]] + name);
    var prev := EntryParts(fs, env, pl, name, idxs[..i]);
    assert idxs[..i + 1][..i] == idxs[..i];
    assert EntryParts(fs, env, pl, name, idxs[..i + 1]) == prev + [(key, PathParts(idxs[i], name))];
    ConcatAssoc(base, prev, [(key, PathParts(idxs[i], name))]);
    GroupSnoc(base + prev, key, PathParts(idxs[i], name));
  }

  lemma EntryPartsAll(fs: Fs, env: Env, pl: seq<string>, name: string, idxs: seq<nat>)
    requires InRange(pl, idxs)
    ensures EntryParts(fs, env, pl, name, idxs[..|idxs|]) == EntryParts(fs, env, pl, name, idxs)
  {
    assert idxs[..|idxs|] == idxs;
  }

  /** One more size bucket of the hash pass. */
  lemma HashPairsSnoc(fs: Fs, env: Env, pl: seq<string>, sb: map<nat, seq<PathParts>>, invert: bool, sk: seq<nat>, s: nat)
    requires forall s :: s in sb ==> PartsIn(pl, sb[s])
    ensures HashPairs(fs, env, pl, sb, invert, sk + [s])
      == HashPairs(fs, env, pl, sb, invert, sk) + (if s in sb && (|sb[s]| > 1) != invert then HashParts(fs, env, pl, sb[s]) else [])
  {
    assert (sk + [s])[..|sk|] == sk;
  }

  /** One more member of a size bucket pushed into hashFileList, after the pushes `base`. */
  lemma HashPartsStep(fs: Fs, env: Env, pl: seq<string>, parts: seq<PathParts>, base: seq<(nat, PathParts)>, i: nat)
    requires PartsIn(pl, parts) && i < |parts|
    ensures PartsIn(pl, parts[..i]) && PartsIn(pl, parts[..i + 1])
    ensures var g := Group(base + HashParts(fs, env, pl, parts[..i]));
      var key := Hash(fs, env, PartPath(pl, parts[i]));
      Group(base + HashParts(fs, env, pl, parts[..i + 1])) == g[key := Get(g, key) + [parts[i]]]
  {
    var key := Hash(fs, env, PartPath(pl, parts[i]));
    var prev := HashParts(fs, env, pl, parts[..i]);
    assert parts[..i + 1][..i] == parts[..i];
    assert HashParts(fs, env, pl, parts[..i + 1]) == prev + [(key, parts[i])];
    ConcatAssoc(base, prev, [(key, parts[i])]);
    GroupSnoc(base + prev, key, parts[i]);
  }

  lemma HashPartsAll(fs: Fs, env: Env, pl: seq<string>, parts: seq<PathParts>)
    requires PartsIn(pl, parts)
    ensures PartsIn(pl, parts[..|parts|])
    ensures HashParts(fs, env, pl, parts[..|parts|]) == HashParts(fs, env, pl, parts)
  {
    assert parts[..|parts|] == parts;
  }

  /** One more hash bucket of the report pass, after the log `log`. */
  lemma GlobalDeletionsSnoc(log: seq<Deletion>, o: Options, e: Engine, pl: seq<string>, hb: map<nat, seq<PathParts>>, invert: bool,
                            hk: seq<nat>, h: nat)
    requires forall h :: h in hb ==> PartsIn(pl, hb[h])
    ensures log + GlobalDeletions(o, e, pl, hb, invert, hk + [h]) == (log + GlobalDeletions(o, e, pl, hb, invert, hk))
      + (if h in hb && (|hb[h]| > 1) != invert then Deletions(o, e, PartPaths(pl, hb[h])) else [])
  {
    assert (hk + [h])[..|hk|] == hk;
    ConcatAssoc(log, GlobalDeletions(o, e, pl, hb, invert, hk),
      if h in hb && (|hb[h]| > 1) != invert then Deletions(o, e, PartPaths(pl, hb[h])) else []);
  }

  /** The full paths of one more part. */
  lemma PartPathsPrefix(pl: seq<string>, parts: seq<PathParts>, i: nat)
    requires PartsIn(pl, parts) && i < |parts|
    ensures PartsIn(pl, parts[..i]) && PartsIn(pl, parts[..i + 1])
    ensures PartPaths(pl, parts[..i + 1]) == PartPaths(pl, parts[..i]) + [PartPath(pl, parts[i])]
  {
    assert parts[..i + 1][..i] == parts[..i];
  }

  lemma PartPathsAll(pl: seq<string>, parts: seq<PathParts>)
    requires PartsIn(pl, parts)
    ensures PartsIn(pl, parts[..|parts|])
    ensures PartPaths(pl, parts[..|parts|]) == PartPaths(pl, parts)
  {
    assert parts[..|parts|] == parts;
  }

  lemma {:induction false} EntryPartsCount(fs: Fs, env: Env, fl: map<string, seq<nat>>, pl: seq<string>, ks: seq<string>)
    requires Indexed(fl, pl)
    requires forall i, j :: 0 <= i < j < |ks| ==> ks[i] != ks[j]
    ensures |SizePairs(fs, env, fl, pl, ks)| == SumLens(fl - (fl.Keys - set k | k in ks))
    decreases |ks|
  {
    if ks == [] {
      assert fl - (fl.Keys - set k | k in ks) == map[];
    } else {
      var init := ks[..|ks| - 1];
      var k := ks[|ks| - 1];
      EntryPartsCount(fs, env, fl, pl, init);
      var seen := set x | x in init;
      var rest := fl.Keys - seen;
      assert (set x | x in ks) == seen + {k};
      assert k !in seen;
      if k in fl {
        SumLensStep(fl, rest, k);
        assert fl.Keys - (set x | x in ks) == rest - {k};
      } else {
        assert fl.Keys - (set x | x in ks) == rest;
      }
    }
  }

  /** Every instance of the table is put in exactly one size bucket. */
  lemma SizeBucketsHoldAll(fs: Fs, env: Env, fl: map<string, seq<nat>>, pl: seq<string>, added: seq<string>)
    requires Represents(fl, pl, added)
    ensures Indexed(fl, pl)
    ensures SumLens(SizeBuckets(fs, env, fl, pl)) == |added|
  {
    RepresentsIndexed(fl, pl, added);
    var ks := SortedStrings(fl.Keys);
    SortedStringsDistinct(fl.Keys);
    EntryPartsCount(fs, env, fl, pl, ks);
    SortedCovers(fl);
    GroupCount(SizePairs(fs, env, fl, pl, ks));
  }

  lemma SortedCovers<V>(m: map<string, V>)
    ensures m - (m.Keys - set k | k in SortedStrings(m.Keys)) == m
  {
    assert m.Keys - (set k | k in SortedStrings(m.Keys)) == {};
  }

  /** Without invert, the duplicates reported are the hashed members minus the distinct hashes. */
  lemma GlobalCounts(o: Options, e: Engine, fs: Fs, env: Env, fl: map<string, seq<nat>>, pl: seq<string>)
    requires Indexed(fl, pl) && !o.invert
    ensures var hb := GlobalHashBuckets(fs, env, pl, SizeBuckets(fs, env, fl, pl), false);
      GlobalReport(o, e, fs, env, fl, pl).same + |hb| == SumLens(hb)
      && GlobalReport(o, e, fs, env, fl, pl).diff == 0
  {
    var hb := GlobalHashBuckets(fs, env, pl, SizeBuckets(fs, env, fl, pl), false);
    ExcessIsMembersMinusGroups(hb);
    NatsInOrder(hb);
  }

  /* ---------------------------------------------------------------- */
  /* end                                                               */

  /** DupFiles::end: the mode is chosen by justName, ignoreExtn and sameName, in that order. */
  ghost function EndReport(o: Options, e: Engine, cwd: string, fs: Fs, env: Env, fl: map<string, seq<nat>>, pl: seq<string>): Report
    requires Indexed(fl, pl)
  {
    if o.justName && o.ignoreExtn then
      var nx := NoExtn(env, fl);
      Report(ExcessAlong(nx, SortedStrings(nx.Keys)), 0, StemDeletions(o, e, cwd, fl, pl, nx, SortedStrings(nx.Keys)))
    else if o.justName then
      Report(ExcessAlong(fl, SortedStrings(fl.Keys)), 0, JustNameDeletions(o, e, cwd, fl, pl, SortedStrings(fl.Keys)))
    else if o.sameName then
      SameNameReport(o, e, fs, env, fl, pl, SortedStrings(fl.Keys))
    else
      GlobalReport(o, e, fs, env, fl, pl)
  }
}
