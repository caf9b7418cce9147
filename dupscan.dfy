/**
 * DupScan (dupscan.hpp, dupscan.cpp): the level-synchronised walk of two
 * roots. Each level lists the frontier of relative directories under every
 * root, settles every accepted file found there by comparing its instance
 * under the first root with its instance under the second, and replaces the
 * frontier by the accepted subdirectories found.
 */
module DupScanning {
  import opened Paths
  import opened Patterns
  import opened Ordering
  import opened FileSystem
  import opened Commands

  /* ---------------------------------------------------------------- */
  /* getFiles / getDirs                                                */

  /**
   * The entries of one listing of `dir` that getFiles (wantDir false) or
   * getDirs (wantDir true) keeps, as paths below the roots: entries of the
   * wanted kind that validFile accepts, joined to the frontier entry `rel`.
   */
  function EntriesFound(e: Engine, g: Filters, dir: string, rel: string, es: seq<Entry>, wantDir: bool): set<string>
    decreases |es|
  {
    if es == [] then {}
    else
      var n := |es| - 1;
      EntriesFound(e, g, dir, rel, es[..n], wantDir)
      + (if es[n].isDir == wantDir && Accepts(e, g, es[n].name, Join(dir, es[n].name)) then {Join(rel, es[n].name)} else {})
  }

  /** The entries of the wanted kind that validFile rejects, each one skip. */
  function EntriesRejected(e: Engine, g: Filters, dir: string, es: seq<Entry>, wantDir: bool): nat
    decreases |es|
  {
    if es == [] then 0
    else
      var n := |es| - 1;
      EntriesRejected(e, g, dir, es[..n], wantDir)
      + (if es[n].isDir == wantDir && !Accepts(e, g, es[n].name, Join(dir, es[n].name)) then 1 else 0)
  }

  /** The frontier entry `rel` listed under each root, in root order. */
  function RootsFound(e: Engine, g: Filters, fs: Fs, roots: seq<string>, rel: string, wantDir: bool): set<string>
    decreases |roots|
  {
    if roots == [] then {}
    else
      var n := |roots| - 1;
      var dir := Join(roots[n], rel);
      RootsFound(e, g, fs, roots[..n], rel, wantDir) + EntriesFound(e, g, dir, rel, Listing(fs, dir), wantDir)
  }

  function RootsRejected(e: Engine, g: Filters, fs: Fs, roots: seq<string>, rel: string, wantDir: bool): nat
    decreases |roots|
  {
    if roots == [] then 0
    else
      var n := |roots| - 1;
      var dir := Join(roots[n], rel);
      RootsRejected(e, g, fs, roots[..n], rel, wantDir) + EntriesRejected(e, g, dir, Listing(fs, dir), wantDir)
  }

  /** The frontier entries `ks` listed in order. */
  function LevelFound(e: Engine, g: Filters, fs: Fs, roots: seq<string>, ks: seq<string>, wantDir: bool): set<string>
    decreases |ks|
  {
    if ks == [] then {}
    else
      var n := |ks| - 1;
      LevelFound(e, g, fs, roots, ks[..n], wantDir) + RootsFound(e, g, fs, roots, ks[n], wantDir)
  }

  function LevelRejected(e: Engine, g: Filters, fs: Fs, roots: seq<string>, ks: seq<string>, wantDir: bool): nat
    decreases |ks|
  {
    if ks == [] then 0
    else
      var n := |ks| - 1;
      LevelRejected(e, g, fs, roots, ks[..n], wantDir) + RootsRejected(e, g, fs, roots, ks[n], wantDir)
  }

  /** One more entry of a listing looked at. */
  lemma EntriesPrefix(e: Engine, g: Filters, dir: string, rel: string, es: seq<Entry>, wantDir: bool, i: nat)
    requires i < |es|
    ensures var keep := es[i].isDir == wantDir && Accepts(e, g, es[i].name, Join(dir, es[i].name));
      && EntriesFound(e, g, dir, rel, es[..i + 1], wantDir)
         == EntriesFound(e, g, dir, rel, es[..i], wantDir) + (if keep then {Join(rel, es[i].name)} else {})
      && EntriesRejected(e, g, dir, es[..i + 1], wantDir)
         == EntriesRejected(e, g, dir, es[..i], wantDir) + (if es[i].isDir == wantDir && !keep then 1 else 0)
  {
    assert es[..i + 1][..i] == es[..i];
  }

  /** One more root listed for a frontier entry. */
  lemma RootsPrefix(e: Engine, g: Filters, fs: Fs, roots: seq<string>, rel: string, wantDir: bool, r: nat)
    requires r < |roots|
    ensures var dir := Join(roots[r], rel);
      && RootsFound(e, g, fs, roots[..r + 1], rel, wantDir)
         == RootsFound(e, g, fs, roots[..r], rel, wantDir) + EntriesFound(e, g, dir, rel, Listing(fs, dir), wantDir)
      && RootsRejected(e, g, fs, roots[..r + 1], rel, wantDir)
         == RootsRejected(e, g, fs, roots[..r], rel, wantDir) + EntriesRejected(e, g, dir, Listing(fs, dir), wantDir)
  {
    assert roots[..r + 1][..r] == roots[..r];
  }

  /** One more frontier entry done. */
  lemma LevelSnoc(e: Engine, g: Filters, fs: Fs, roots: seq<string>, ks: seq<string>, k: string, wantDir: bool)
    ensures LevelFound(e, g, fs, roots, ks + [k], wantDir) == LevelFound(e, g, fs, roots, ks, wantDir) + RootsFound(e, g, fs, roots, k, wantDir)
    ensures LevelRejected(e, g, fs, roots, ks + [k], wantDir) == LevelRejected(e, g, fs, roots, ks, wantDir) + RootsRejected(e, g, fs, roots, k, wantDir)
  {
    assert (ks + [k])[..|ks|] == ks;
  }

  /** Entry `i` of `es` is of the wanted kind, accepted, and joins to `p`. */
  predicate KeptAt(e: Engine, g: Filters, dir: string, rel: string, es: seq<Entry>, wantDir: bool, i: int, p: string)
  {
    0 <= i < |es| && es[i].isDir == wantDir && Accepts(e, g, es[i].name, Join(dir, es[i].name))
    && p == Join(rel, es[i].name)
  }

  /** An entry of a listing is kept exactly when it is of the wanted kind and accepted. */
  lemma {:induction false} EntriesFoundIff(e: Engine, g: Filters, dir: string, rel: string, es: seq<Entry>, wantDir: bool, p: string)
    ensures p in EntriesFound(e, g, dir, rel, es, wantDir) <==> exists i :: KeptAt(e, g, dir, rel, es, wantDir, i, p)
    decreases |es|
  {
    if es != [] {
      var n := |es| - 1;
      var init := es[..n];
      EntriesFoundIff(e, g, dir, rel, init, wantDir, p);
      if p in EntriesFound(e, g, dir, rel, init, wantDir) {
        var i :| KeptAt(e, g, dir, rel, init, wantDir, i, p);
        assert es[i] == init[i];
        assert KeptAt(e, g, dir, rel, es, wantDir, i, p);
      } else if KeptAt(e, g, dir, rel, es, wantDir, n, p) {
      } else {
        forall i | KeptAt(e, g, dir, rel, es, wantDir, i, p)
          ensures false
        {
          assert init[i] == es[i];
          assert KeptAt(e, g, dir, rel, init, wantDir, i, p);
        }
      }
    }
  }

  /** The listing of `rel` under `root` keeps `p`. */
  predicate FoundUnder(e: Engine, g: Filters, fs: Fs, root: string, rel: string, wantDir: bool, p: string)
  {
    p in EntriesFound(e, g, Join(root, rel), rel, Listing(fs, Join(root, rel)), wantDir)
  }

  /** A path is found for `rel` exactly when some root's listing of `rel` keeps it. */
  lemma {:induction false} RootsFoundIff(e: Engine, g: Filters, fs: Fs, roots: seq<string>, rel: string, wantDir: bool, p: string)
    ensures p in RootsFound(e, g, fs, roots, rel, wantDir) <==>
      exists r :: 0 <= r < |roots| && FoundUnder(e, g, fs, roots[r], rel, wantDir, p)
    decreases |roots|
  {
    if roots != [] {
      var n := |roots| - 1;
      var init := roots[..n];
      RootsFoundIff(e, g, fs, init, rel, wantDir, p);
      assert RootsFound(e, g, fs, roots, rel, wantDir)
        == RootsFound(e, g, fs, init, rel, wantDir) + EntriesFound(e, g, Join(roots[n], rel), rel, Listing(fs, Join(roots[n], rel)), wantDir);
      if p in RootsFound(e, g, fs, init, rel, wantDir) {
        var r :| 0 <= r < n && FoundUnder(e, g, fs, init[r], rel, wantDir, p);
        assert roots[r] == init[r];
        assert FoundUnder(e, g, fs, roots[r], rel, wantDir, p);
      } else if FoundUnder(e, g, fs, roots[n], rel, wantDir, p) {
      } else {
        forall r | 0 <= r < |roots|
          ensures !FoundUnder(e, g, fs, roots[r], rel, wantDir, p)
        {
          if r < n {
            assert init[r] == roots[r];
          }
        }
      }
    }
  }

  /** A path is found at a level exactly when it is found for one of its frontier entries. */
  lemma {:induction false} LevelFoundIff(e: Engine, g: Filters, fs: Fs, roots: seq<string>, ks: seq<string>, wantDir: bool, p: string)
    ensures p in LevelFound(e, g, fs, roots, ks, wantDir) <==>
      exists j :: 0 <= j < |ks| && p in RootsFound(e, g, fs, roots, ks[j], wantDir)
    decreases |ks|
  {
    if ks != [] {
      var n := |ks| - 1;
      LevelFoundIff(e, g, fs, roots, ks[..n], wantDir, p);
      if p in LevelFound(e, g, fs, roots, ks[..n], wantDir) {
        var j :| 0 <= j < n && p in RootsFound(e, g, fs, roots, ks[..n][j], wantDir);
        assert ks[j] == ks[..n][j];
      }
      if exists j :: 0 <= j < |ks| && p in RootsFound(e, g, fs, roots, ks[j], wantDir) {
        var j :| 0 <= j < |ks| && p in RootsFound(e, g, fs, roots, ks[j], wantDir);
        if j < n {
          assert ks[..n][j] == ks[j];
        }
      }
    }
  }

  /** Entry `i` of the listing of `k` under `root` is of the wanted kind, accepted, and joins to `p`. */
  predicate Keeps(e: Engine, g: Filters, fs: Fs, root: string, k: string, i: int, wantDir: bool, p: string)
  {
    KeptAt(e, g, Join(root, k), k, Listing(fs, Join(root, k)), wantDir, i, p)
  }

  /**
   * What getFiles and getDirs collect, unaborted, is the union over the
   * frontier and the roots: a path is kept exactly when some root's
   * listing of some frontier entry holds an accepted entry of the wanted
   * kind that joins to it.
   */
  lemma FoundIff(e: Engine, g: Filters, fs: Fs, roots: seq<string>, next: set<string>, wantDir: bool, p: string)
    ensures p in LevelFound(e, g, fs, roots, SortedStrings(next), wantDir) <==>
      exists k, r, i :: k in next && 0 <= r < |roots| && Keeps(e, g, fs, roots[r], k, i, wantDir, p)
  {
    var ks := SortedStrings(next);
    LevelFoundIff(e, g, fs, roots, ks, wantDir, p);
    if p in LevelFound(e, g, fs, roots, ks, wantDir) {
      var j :| 0 <= j < |ks| && p in RootsFound(e, g, fs, roots, ks[j], wantDir);
      var k := ks[j];
      assert k in next;
      RootsFoundIff(e, g, fs, roots, k, wantDir, p);
      var r :| 0 <= r < |roots| && FoundUnder(e, g, fs, roots[r], k, wantDir, p);
      var dir := Join(roots[r], k);
      EntriesFoundIff(e, g, dir, k, Listing(fs, dir), wantDir, p);
      var i :| KeptAt(e, g, dir, k, Listing(fs, dir), wantDir, i, p);
      assert Keeps(e, g, fs, roots[r], k, i, wantDir, p);
    } else {
      forall k, r, i | k in next && 0 <= r < |roots| && Keeps(e, g, fs, roots[r], k, i, wantDir, p)
        ensures false
      {
        var dir := Join(roots[r], k);
        EntriesFoundIff(e, g, dir, k, Listing(fs, dir), wantDir, p);
        assert FoundUnder(e, g, fs, roots[r], k, wantDir, p);
        RootsFoundIff(e, g, fs, roots, k, wantDir, p);
      }
    }
  }
}

/**
 * compareFiles: how one file found at a level is settled against its
 * instances under the roots, as the sequence of Command calls it makes.
 */
module DupComparing {
  import opened Paths
  import opened FileSystem
  import opened Commands

  /** One call compareFiles makes for a file: showDuplicate, showDifferent, showMissing or Hasher::findDupsAsync. */
  datatype Event =
    | Same(path1: string, path2: string)
    | Differ(path1: string, path2: string)
    | Absent(have1: bool, path1: string, have2: bool, path2: string)
    | Handed(file: string)

  /** What a run of events does to a Command and to the asynchronous hand-off list. */
  datatype Effect = Effect(same: nat, diff: nat, miss: nat, dels: seq<Deletion>, handed: seq<string>)
  {
    function Plus(b: Effect): Effect
    {
      Effect(same + b.same, diff + b.diff, miss + b.miss, dels + b.dels, handed + b.handed)
    }
  }

  const NONE: Effect := Effect(0, 0, 0, [], [])

  /** The effect of one call, as Command's show methods and the hand-off define it. */
  function EventEffect(o: Options, ev: Event): Effect
  {
    match ev
    case Same(p1, p2) => Effect(1, 0, 0, DupDeletions(o, p1, p2), [])
    case Differ(_, _) => Effect(0, 1, 0, [], [])
    case Absent(_, _, _, _) => Effect(0, 0, 1, [], [])
    case Handed(f) => Effect(0, 0, 0, [], [f])
  }

  function EffectOf(o: Options, evs: seq<Event>): Effect
    decreases |evs|
  {
    if evs == [] then NONE
    else EffectOf(o, evs[..|evs| - 1]).Plus(EventEffect(o, evs[|evs| - 1]))
  }

  lemma EffectOfSnoc(base: Effect, o: Options, evs: seq<Event>, ev: Event)
    ensures base.Plus(EffectOf(o, evs + [ev])) == base.Plus(EffectOf(o, evs)).Plus(EventEffect(o, ev))
  {
    assert (evs + [ev])[..|evs|] == evs;
    var a := EffectOf(o, evs);
    var b := EventEffect(o, ev);
    assert base.dels + (a.dels + b.dels) == (base.dels + a.dels) + b.dels;
    assert base.handed + (a.handed + b.handed) == (base.handed + a.handed) + b.handed;
  }

  lemma PlusNone(o: Options, b: Effect)
    ensures b.Plus(EffectOf(o, [])) == b
  {
    assert b.dels + [] == b.dels;
    assert b.handed + [] == b.handed;
  }

  /** A single event adds its own effect. */
  lemma EffectOne(base: Effect, o: Options, ev: Event)
    ensures base.Plus(EffectOf(o, [ev])) == base.Plus(EventEffect(o, ev))
  {
    PlusNone(o, base);
    EffectStep(base, o, [], ev, base, base.Plus(EventEffect(o, ev)));
    assert [] + [ev] == [ev];
  }

  /** A Command that was at `before` and then took one more event. */
  lemma EffectStep(base: Effect, o: Options, evs: seq<Event>, ev: Event, before: Effect, now: Effect)
    requires before == base.Plus(EffectOf(o, evs)) && now == before.Plus(EventEffect(o, ev))
    ensures now == base.Plus(EffectOf(o, evs + [ev]))
  {
    EffectOfSnoc(base, o, evs, ev);
  }

  lemma {:induction false} EffectOfAppend(base: Effect, o: Options, a: seq<Event>, b: seq<Event>)
    ensures base.Plus(EffectOf(o, a + b)) == base.Plus(EffectOf(o, a)).Plus(EffectOf(o, b))
    decreases |b|
  {
    if b == [] {
      assert a + b == a;
      assert base.Plus(EffectOf(o, a)).Plus(NONE) == base.Plus(EffectOf(o, a));
    } else {
      var init := b[..|b| - 1];
      var ev := b[|b| - 1];
      assert a + b == (a + init) + [ev];
      assert b == init + [ev];
      EffectOfAppend(base, o, a, init);
      EffectOfSnoc(base, o, a + init, ev);
      EffectOfSnoc(base.Plus(EffectOf(o, a)), o, init, ev);
    }
  }

  /** Every event is one count or one hand-off: the totals add up to the number of events. */
  lemma {:induction false} EffectCount(o: Options, evs: seq<Event>)
    ensures var t := EffectOf(o, evs); t.same + t.diff + t.miss + |t.handed| == |evs|
    decreases |evs|
  {
    if evs != [] {
      EffectCount(o, evs[..|evs| - 1]);
    }
  }

  /** No hand-off event, no hand-off. */
  lemma {:induction false} EffectNoHandOff(o: Options, evs: seq<Event>)
    requires forall i :: 0 <= i < |evs| ==> !evs[i].Handed?
    ensures EffectOf(o, evs).handed == []
    decreases |evs|
  {
    if evs != [] {
      EffectNoHandOff(o, evs[..|evs| - 1]);
    }
  }

  /* ---------------------------------------------------------------- */
  /* One file                                                          */

  /** The name-only verdict: equal lengths (both missing included) are duplicates. */
  function NameEvent(j1: string, len1: int, j2: string, len2: int): (r: Event)
    ensures r.Same? <==> len1 == len2
    ensures r.Differ? <==> len1 != len2 && len1 != -1 && len2 != -1
    ensures r.Absent? ==> r.have1 == (len1 != -1) && r.have2 == (len2 != -1) && r.have1 != r.have2
    ensures !r.Handed?
  {
    if len1 == len2 then Same(j1, j2)
    else if len1 != -1 && len2 != -1 then Differ(j1, j2)
    else Absent(len1 != -1, j1, len2 != -1, j2)
  }

  /** The name-only events against roots 1 .. d-1, in root order. */
  function NameEvents(fs: Fs, env: Env, j1: string, len1: int, roots: seq<string>, file: string, d: nat): seq<Event>
    requires d <= |roots|
    decreases d
  {
    if d <= 1 then []
    else
      var j2 := Join(roots[d - 1], file);
      NameEvents(fs, env, j1, len1, roots, file, d - 1) + [NameEvent(j1, len1, j2, FileLength(fs, env, j2))]
  }

  /** The instances under roots 1 .. d-1 all have the first instance's length. */
  predicate LensMatch(fs: Fs, env: Env, len1: int, roots: seq<string>, file: string, d: nat)
    requires d <= |roots|
    decreases d
  {
    d <= 1 || (LensMatch(fs, env, len1, roots, file, d - 1) && FileLength(fs, env, Join(roots[d - 1], file)) == len1)
  }

  lemma {:induction false} LensMatchIff(fs: Fs, env: Env, len1: int, roots: seq<string>, file: string, d: nat)
    requires d <= |roots|
    ensures LensMatch(fs, env, len1, roots, file, d) <==>
      forall j :: 1 <= j < d ==> FileLength(fs, env, Join(roots[j], file)) == len1
    decreases d
  {
    if d > 1 {
      LensMatchIff(fs, env, len1, roots, file, d - 1);
    }
  }

  /** The content verdicts against roots 1 .. d-1: the shown paths are duplicates when the hashes agree. */
  function HashEvents(o: Options, cwd: string, fs: Fs, env: Env, p1: string, h1: nat, roots: seq<string>, file: string, d: nat)
    : seq<Event>
    requires d <= |roots|
    decreases d
  {
    if d <= 1 then []
    else
      var j2 := Join(roots[d - 1], file);
      var p2 := AbsOrRel(cwd, o.showAbsPath, j2);
      HashEvents(o, cwd, fs, env, p1, h1, roots, file, d - 1)
      + [if h1 == Hash(fs, env, j2) then Same(p1, p2) else Differ(p1, p2)]
  }

  /**
   * The calls compareFiles makes for `file`. `aborted` is the signal,
   * read as one value for the whole call: once set, no instance after the
   * first is looked at.
   */
  function FileEvents(o: Options, cwd: string, fs: Fs, env: Env, aborted: bool, roots: seq<string>, file: string)
    : seq<Event>
    requires |roots| >= 1
  {
    var j1 := Join(roots[0], file);
    var len1 := FileLength(fs, env, j1);
    var d := if aborted then 1 else |roots|;
    if o.justName then NameEvents(fs, env, j1, len1, roots, file, d)
    else if LensMatch(fs, env, len1, roots, file, d) then
      if o.useThreads then [Handed(file)]
      else HashEvents(o, cwd, fs, env, AbsOrRel(cwd, o.showAbsPath, j1), Hash(fs, env, j1), roots, file, d)
    else
      var jl := Join(roots[|roots| - 1], file);
      var lenl := FileLength(fs, env, jl);
      if len1 != -1 && lenl != -1 then [Differ(j1, jl)] else [Absent(len1 != -1, j1, lenl != -1, jl)]
  }

  /** The calls compareFiles makes for the files, taken in order. */
  function LevelEvents(o: Options, cwd: string, fs: Fs, env: Env, aborted: bool, roots: seq<string>, files: seq<string>)
    : seq<Event>
    requires |roots| >= 1
    decreases |files|
  {
    if files == [] then []
    else
      LevelEvents(o, cwd, fs, env, aborted, roots, files[..|files| - 1])
      + FileEvents(o, cwd, fs, env, aborted, roots, files[|files| - 1])
  }

  lemma LevelEventsSnoc(o: Options, cwd: string, fs: Fs, env: Env, aborted: bool, roots: seq<string>, files: seq<string>,
                        file: string)
    requires |roots| >= 1
    ensures LevelEvents(o, cwd, fs, env, aborted, roots, files + [file])
         == LevelEvents(o, cwd, fs, env, aborted, roots, files) + FileEvents(o, cwd, fs, env, aborted, roots, file)
  {
    assert (files + [file])[..|files|] == files;
  }

  /** No call of `evs` hands a file to the hasher. */
  predicate Settled(evs: seq<Event>)
  {
    forall i :: 0 <= i < |evs| ==> !evs[i].Handed?
  }

  lemma {:induction false} NameEventsSettled(fs: Fs, env: Env, j1: string, len1: int, roots: seq<string>, file: string, d: nat)
    requires d <= |roots|
    ensures Settled(NameEvents(fs, env, j1, len1, roots, file, d))
    decreases d
  {
    if d > 1 {
      NameEventsSettled(fs, env, j1, len1, roots, file, d - 1);
    }
  }

  lemma {:induction false} HashEventsSettled(o: Options, cwd: string, fs: Fs, env: Env, p1: string, h1: nat, roots: seq<string>,
                                             file: string, d: nat)
    requires d <= |roots|
    ensures Settled(HashEvents(o, cwd, fs, env, p1, h1, roots, file, d))
    decreases d
  {
    if d > 1 {
      HashEventsSettled(o, cwd, fs, env, p1, h1, roots, file, d - 1);
    }
  }

  /** Without the hasher's threads, or by name alone, compareFiles settles every file itself. */
  lemma {:induction false} LevelEventsSettled(o: Options, cwd: string, fs: Fs, env: Env, aborted: bool, roots: seq<string>,
                                              files: seq<string>)
    requires |roots| >= 1 && (!o.useThreads || o.justName)
    ensures Settled(LevelEvents(o, cwd, fs, env, aborted, roots, files))
    ensures EffectOf(o, LevelEvents(o, cwd, fs, env, aborted, roots, files)).handed == []
    decreases |files|
  {
    var evs := LevelEvents(o, cwd, fs, env, aborted, roots, files);
    if files != [] {
      var file := files[|files| - 1];
      LevelEventsSettled(o, cwd, fs, env, aborted, roots, files[..|files| - 1]);
      var j1 := Join(roots[0], file);
      var len1 := FileLength(fs, env, j1);
      var d := if aborted then 1 else |roots|;
      if o.justName {
        NameEventsSettled(fs, env, j1, len1, roots, file, d);
      } else if LensMatch(fs, env, len1, roots, file, d) {
        HashEventsSettled(o, cwd, fs, env, AbsOrRel(cwd, o.showAbsPath, j1), Hash(fs, env, j1), roots, file, d);
      }
    }
    EffectNoHandOff(o, evs);
  }
}

/**
 * What compareFiles decides for the two roots lldupdir passes it, stated
 * without its loops, and what follows from it.
 */
module DupVerdicts {
  import opened Paths
  import opened FileSystem
  import opened Commands
  import opened DupComparing

  /**
   * The verdict on `file` under roots r1 and r2: by name, equal lengths
   * are duplicates; otherwise equal lengths are handed to the hasher
   * (threads) or settled by comparing hashes, unequal lengths are
   * different when both exist and missing when one does not.
   */
  function Compare(o: Options, cwd: string, fs: Fs, env: Env, r1: string, r2: string, file: string): (r: Event)
    ensures var len1 := FileLength(fs, env, Join(r1, file));
      var len2 := FileLength(fs, env, Join(r2, file));
      var sameHash := Hash(fs, env, Join(r1, file)) == Hash(fs, env, Join(r2, file));
      && (r.Same? <==> len1 == len2 && (o.justName || (!o.useThreads && sameHash)))
      && (r.Handed? <==> !o.justName && o.useThreads && len1 == len2)
      && (r.Absent? <==> len1 != len2 && (len1 == -1 || len2 == -1))
      && (r.Differ? <==>
            (len1 != len2 && len1 != -1 && len2 != -1) || (!o.justName && !o.useThreads && len1 == len2 && !sameHash))
      && (r.Absent? ==> r.have1 == (len1 != -1) && r.have2 == (len2 != -1))
      && (r.Handed? ==> r.file == file)
      && ((r.Same? || r.Differ?) && !o.justName && len1 == len2 ==>
            r.path1 == AbsOrRel(cwd, o.showAbsPath, Join(r1, file)) && r.path2 == AbsOrRel(cwd, o.showAbsPath, Join(r2, file)))
      && ((r.Same? || r.Differ? || r.Absent?) && (o.justName || len1 != len2) ==>
            r.path1 == Join(r1, file) && r.path2 == Join(r2, file))
  {
    var j1 := Join(r1, file);
    var j2 := Join(r2, file);
    var len1 := FileLength(fs, env, j1);
    var len2 := FileLength(fs, env, j2);
    if o.justName then NameEvent(j1, len1, j2, len2)
    else if len1 == len2 then
      if o.useThreads then Handed(file)
      else
        var p1 := AbsOrRel(cwd, o.showAbsPath, j1);
        var p2 := AbsOrRel(cwd, o.showAbsPath, j2);
        if Hash(fs, env, j1) == Hash(fs, env, j2) then Same(p1, p2) else Differ(p1, p2)
    else if len1 != -1 && len2 != -1 then Differ(j1, j2)
    else Absent(len1 != -1, j1, len2 != -1, j2)
  }

  /** With two roots and no abort, compareFiles makes exactly the one call Compare names. */
  lemma TwoRoots(o: Options, cwd: string, fs: Fs, env: Env, r1: string, r2: string, file: string)
    ensures FileEvents(o, cwd, fs, env, false, [r1, r2], file) == [Compare(o, cwd, fs, env, r1, r2, file)]
  {
    var roots := [r1, r2];
    var len1 := FileLength(fs, env, Join(r1, file));
    assert NameEvents(fs, env, Join(r1, file), len1, roots, file, 1) == [];
    assert LensMatch(fs, env, len1, roots, file, 1);
    assert HashEvents(o, cwd, fs, env, AbsOrRel(cwd, o.showAbsPath, Join(r1, file)), Hash(fs, env, Join(r1, file)), roots, file, 1) == [];
  }

  /** Once aborted, no instance after the first is looked at: at most a hand-off remains. */
  lemma AbortedSettlesNothing(o: Options, cwd: string, fs: Fs, env: Env, roots: seq<string>, file: string)
    requires |roots| >= 1
    ensures FileEvents(o, cwd, fs, env, true, roots, file) == (if !o.justName && o.useThreads then [Handed(file)] else [])
  {
    var len1 := FileLength(fs, env, Join(roots[0], file));
    assert LensMatch(fs, env, len1, roots, file, 1);
  }

  /** A level over two roots settles each file exactly once: one call per file. */
  lemma {:induction false} TwoRootLevelEvents(o: Options, cwd: string, fs: Fs, env: Env, r1: string, r2: string, files: seq<string>)
    ensures |LevelEvents(o, cwd, fs, env, false, [r1, r2], files)| == |files|
    ensures forall i :: 0 <= i < |files| ==>
      LevelEvents(o, cwd, fs, env, false, [r1, r2], files)[i] == Compare(o, cwd, fs, env, r1, r2, files[i])
    decreases |files|
  {
    if files != [] {
      var init := files[..|files| - 1];
      var last := files[|files| - 1];
      var evs := LevelEvents(o, cwd, fs, env, false, [r1, r2], init);
      var c := Compare(o, cwd, fs, env, r1, r2, last);
      TwoRootLevelEvents(o, cwd, fs, env, r1, r2, init);
      TwoRoots(o, cwd, fs, env, r1, r2, last);
      assert LevelEvents(o, cwd, fs, env, false, [r1, r2], files) == evs + [c];
      forall i | 0 <= i < |files|
        ensures (evs + [c])[i] == Compare(o, cwd, fs, env, r1, r2, files[i])
      {
        if i < |init| {
          assert files[i] == init[i];
          assert (evs + [c])[i] == evs[i];
        } else {
          assert i == |files| - 1 == |init| == |evs|;
          assert (evs + [c])[i] == c;
        }
      }
    }
  }

  /** The counters over a level of two roots add up to its files; without threads nothing is handed off. */
  lemma TwoRootLevelTotals(o: Options, cwd: string, fs: Fs, env: Env, r1: string, r2: string, files: seq<string>)
    ensures var t := EffectOf(o, LevelEvents(o, cwd, fs, env, false, [r1, r2], files));
      t.same + t.diff + t.miss + |t.handed| == |files|
      && (!o.useThreads || o.justName ==> t.handed == [])
  {
    var evs := LevelEvents(o, cwd, fs, env, false, [r1, r2], files);
    TwoRootLevelEvents(o, cwd, fs, env, r1, r2, files);
    EffectCount(o, evs);
    if !o.useThreads || o.justName {
      forall i | 0 <= i < |evs|
        ensures !evs[i].Handed?
      {
        assert evs[i] == Compare(o, cwd, fs, env, r1, r2, files[i]);
      }
      EffectNoHandOff(o, evs);
    }
  }

  /** The name-only events never read file contents. */
  lemma {:induction false} NameEventsDigestFree(fs: Fs, env: Env, digest: seq<bv8> -> nat, j1: string, len1: int,
                                                roots: seq<string>, file: string, d: nat)
    requires d <= |roots|
    ensures NameEvents(fs, env, j1, len1, roots, file, d) == NameEvents(fs, env.(digest := digest), j1, len1, roots, file, d)
    decreases d
  {
    if d > 1 {
      NameEventsDigestFree(fs, env, digest, j1, len1, roots, file, d - 1);
    }
  }

  lemma {:induction false} LensMatchDigestFree(fs: Fs, env: Env, digest: seq<bv8> -> nat, len1: int,
                                               roots: seq<string>, file: string, d: nat)
    requires d <= |roots|
    ensures LensMatch(fs, env, len1, roots, file, d) == LensMatch(fs, env.(digest := digest), len1, roots, file, d)
    decreases d
  {
    if d > 1 {
      LensMatchDigestFree(fs, env, digest, len1, roots, file, d - 1);
    }
  }

  /**
   * Contents are read only when every instance has the first one's length
   * and names alone do not decide: otherwise no digest changes a verdict.
   */
  lemma DigestFree(o: Options, cwd: string, fs: Fs, env: Env, digest: seq<bv8> -> nat, aborted: bool,
                   roots: seq<string>, file: string)
    requires |roots| >= 1
    requires var len1 := FileLength(fs, env, Join(roots[0], file));
      o.justName || o.useThreads || !LensMatch(fs, env, len1, roots, file, if aborted then 1 else |roots|)
    ensures FileEvents(o, cwd, fs, env, aborted, roots, file) == FileEvents(o, cwd, fs, env.(digest := digest), aborted, roots, file)
  {
    var len1 := FileLength(fs, env, Join(roots[0], file));
    var d := if aborted then 1 else |roots|;
    assert FileLength(fs, env.(digest := digest), Join(roots[0], file)) == len1;
    NameEventsDigestFree(fs, env, digest, Join(roots[0], file), len1, roots, file, d);
    LensMatchDigestFree(fs, env, digest, len1, roots, file, d);
  }
}

/** The DupScan object: one level of the walk per findDuplicates call. */
module Scanner {
  import opened Paths
  import opened Patterns
  import opened Ordering
  import opened FileSystem
  import opened Commands
  import opened DupScanning
  import opened DupComparing

  /** The files one level compares: those getFiles finds at the frontier, none under the signal. */
  ghost function LevelFiles(e: Engine, g: Filters, fs: Fs, aborted: bool, roots: seq<string>, next: set<string>): set<string>
  {
    if aborted then {} else LevelFound(e, g, fs, roots, SortedStrings(next), false)
  }

  /** The frontier of the next level: the subdirectories getDirs finds, none under the signal. */
  ghost function LevelDirs(e: Engine, g: Filters, fs: Fs, aborted: bool, roots: seq<string>, next: set<string>): set<string>
  {
    if aborted then {} else LevelFound(e, g, fs, roots, SortedStrings(next), true)
  }

  /** The calls scanFiles makes: compareFiles over the level's files in set order. */
  ghost function ScanEvents(o: Options, cwd: string, e: Engine, fs: Fs, env: Env, aborted: bool, roots: seq<string>,
                            next: set<string>): seq<Event>
    requires |roots| >= 1
  {
    LevelEvents(o, cwd, fs, env, aborted, roots, SortedStrings(LevelFiles(e, o.Gate(), fs, aborted, roots, next)))
  }

  /** A level under the signal compares nothing, finds nothing and skips nothing. */
  lemma AbortedLevelIsQuiet(o: Options, cwd: string, e: Engine, fs: Fs, env: Env, roots: seq<string>, next: set<string>)
    requires |roots| >= 1
    ensures ScanEvents(o, cwd, e, fs, env, true, roots, next) == []
    ensures LevelDirs(e, o.Gate(), fs, true, roots, next) == {}
  {
    assert SortedStrings({}) == [];
  }

  class DupScan {
    const cmd: Command
    /** The files given to Hasher::findDupsAsync, in order. */
    var handed: seq<string>

    constructor(command: Command)
      ensures cmd == command && handed == []
    {
      cmd := command;
      handed := [];
    }

    /** What compareFiles changes: three counters, the deletions and the hand-offs. */
    function Counters(): Effect
      reads this, cmd
    {
      Effect(cmd.sameCnt, cmd.diffCnt, cmd.missCnt, cmd.deleteLog, handed)
    }

    /** The entry loop of getFiles and getDirs over one listing of `dir`. */
    method ScanDirectory(e: Engine, ghost g: Filters, dir: string, rel: string, es: seq<Entry>, wantDir: bool,
                         found: set<string>)
      returns (out: set<string>)
      requires cmd.opts.Gate() == g
      modifies cmd`skipCnt
      ensures out == found + EntriesFound(e, g, dir, rel, es, wantDir)
      ensures cmd.skipCnt == old(cmd.skipCnt) + EntriesRejected(e, g, dir, es, wantDir)
    {
      out := found;
      var i := 0;
      while i < |es|
        invariant 0 <= i <= |es|
        invariant out == found + EntriesFound(e, g, dir, rel, es[..i], wantDir)
        invariant cmd.skipCnt == old(cmd.skipCnt) + EntriesRejected(e, g, dir, es[..i], wantDir)
      {
        var entry := es[i];
        var fullname := Join(dir, entry.name);
        EntriesPrefix(e, g, dir, rel, es, wantDir, i);
        if entry.isDir == wantDir {
          var isValid := cmd.ValidFile(e, entry.name, fullname);
          if isValid {
            out := out + {Join(rel, entry.name)};
          }
        }
        i := i + 1;
      }
      assert es[..i] == es;
    }

    /**
     * getFiles (wantDir false) and getDirs (wantDir true): every frontier
     * entry, in set order, listed under every root, in root order; the
     * signal empties the result.
     */
    method Gather(e: Engine, fs: Fs, aborted: bool, roots: seq<string>, next: set<string>, wantDir: bool)
      returns (out: set<string>)
      modifies cmd`skipCnt
      ensures out == (if aborted then {} else LevelFound(e, cmd.opts.Gate(), fs, roots, SortedStrings(next), wantDir))
      ensures cmd.skipCnt == old(cmd.skipCnt) + (if aborted then 0 else LevelRejected(e, cmd.opts.Gate(), fs, roots, SortedStrings(next), wantDir))
    {
      ghost var g := cmd.opts.Gate();
      out := {};
      // Under the signal the first listing reads no entry and the result is
      // cleared: nothing is found and nothing is skipped.
      if aborted {
        return;
      }
      var rest := next;
      ghost var done: seq<string> := [];
      while rest != {}
        invariant rest <= next
        invariant SortedStrings(next) == done + SortedStrings(rest)
        invariant out == LevelFound(e, g, fs, roots, done, wantDir)
        invariant cmd.skipCnt == old(cmd.skipCnt) + LevelRejected(e, g, fs, roots, done, wantDir)
        decreases |rest|
      {
        var k := NextString(next, done, rest);
        LevelSnoc(e, g, fs, roots, done, k, wantDir);
        out := GatherRoots(e, g, fs, roots, k, wantDir, out);
        done := done + [k];
        rest := rest - {k};
      }
      StringsDone(next, done);
    }

    /** The root loop of getFiles and getDirs for one frontier entry. */
    method GatherRoots(e: Engine, ghost g: Filters, fs: Fs, roots: seq<string>, k: string, wantDir: bool, found: set<string>)
      returns (out: set<string>)
      requires cmd.opts.Gate() == g
      modifies cmd`skipCnt
      ensures out == found + RootsFound(e, g, fs, roots, k, wantDir)
      ensures cmd.skipCnt == old(cmd.skipCnt) + RootsRejected(e, g, fs, roots, k, wantDir)
    {
      out := found;
      var r := 0;
      while r < |roots|
        invariant r <= |roots|
        invariant out == found + RootsFound(e, g, fs, roots[..r], k, wantDir)
        invariant cmd.skipCnt == old(cmd.skipCnt) + RootsRejected(e, g, fs, roots[..r], k, wantDir)
      {
        var dir := Join(roots[r], k);
        RootsPrefix(e, g, fs, roots, k, wantDir, r);
        out := ScanDirectory(e, g, dir, k, Listing(fs, dir), wantDir, out);
        r := r + 1;
      }
      assert roots[..r] == roots;
    }

    method GetFiles(e: Engine, fs: Fs, aborted: bool, roots: seq<string>, next: set<string>) returns (files: set<string>)
      modifies cmd`skipCnt
      ensures files == (if aborted then {} else LevelFound(e, cmd.opts.Gate(), fs, roots, SortedStrings(next), false))
      ensures cmd.skipCnt == old(cmd.skipCnt) + (if aborted then 0 else LevelRejected(e, cmd.opts.Gate(), fs, roots, SortedStrings(next), false))
    {
      files := Gather(e, fs, aborted, roots, next, false);
    }

    method GetDirs(e: Engine, fs: Fs, aborted: bool, roots: seq<string>, next: set<string>) returns (dirs: set<string>)
      modifies cmd`skipCnt
      ensures dirs == (if aborted then {} else LevelFound(e, cmd.opts.Gate(), fs, roots, SortedStrings(next), true))
      ensures cmd.skipCnt == old(cmd.skipCnt) + (if aborted then 0 else LevelRejected(e, cmd.opts.Gate(), fs, roots, SortedStrings(next), true))
    {
      dirs := Gather(e, fs, aborted, roots, next, true);
    }

    /**
     * The loop body of compareFiles for one file: the lengths of its
     * instances after the first decide; by name alone each instance is
     * settled at once, otherwise equal lengths go to the hasher.
     */
    method CompareFile(fs: Fs, env: Env, aborted: bool, roots: seq<string>, file: string)
      requires |roots| >= 1
      modifies this, cmd
      ensures Counters() == old(Counters()).Plus(EffectOf(cmd.opts, FileEvents(cmd.opts, cmd.cwd, fs, env, aborted, roots, file)))
      ensures cmd.opts == old(cmd.opts) && cmd.skipCnt == old(cmd.skipCnt)
    {
      var j1 := Join(roots[0], file);
      var fileLen1 := FileLength(fs, env, j1);
      var matchingLen := CompareLengths(fs, env, aborted, roots, file, j1, fileLen1);
      if cmd.opts.justName {
        return;
      }
      SettleFile(fs, env, aborted, roots, file, j1, fileLen1, matchingLen);
    }

    /** The tail of compareFiles for one file when lengths are compared: hand off, hash, or report the lengths. */
    method SettleFile(fs: Fs, env: Env, aborted: bool, roots: seq<string>, file: string, j1: string, fileLen1: int,
                      matchingLen: bool)
      requires |roots| >= 1 && !cmd.opts.justName
      requires j1 == Join(roots[0], file) && fileLen1 == FileLength(fs, env, j1)
      requires matchingLen == LensMatch(fs, env, fileLen1, roots, file, if aborted then 1 else |roots|)
      modifies this, cmd
      ensures Counters() == old(Counters()).Plus(EffectOf(cmd.opts, FileEvents(cmd.opts, cmd.cwd, fs, env, aborted, roots, file)))
      ensures cmd.opts == old(cmd.opts) && cmd.skipCnt == old(cmd.skipCnt)
    {
      if matchingLen {
        if cmd.opts.useThreads {
          ghost var base := Counters();
          handed := handed + [file];
          assert FileEvents(cmd.opts, cmd.cwd, fs, env, aborted, roots, file) == [Handed(file)];
          EffectOne(base, cmd.opts, Handed(file));
        } else {
          HashFile(fs, env, aborted, roots, file, j1, fileLen1);
        }
      } else {
        ReportLengths(fs, env, aborted, roots, file, j1, fileLen1);
      }
    }

    /** Equal lengths without the hasher: the hash loop decides. */
    method HashFile(fs: Fs, env: Env, aborted: bool, roots: seq<string>, file: string, j1: string, fileLen1: int)
      requires |roots| >= 1 && !cmd.opts.justName && !cmd.opts.useThreads
      requires j1 == Join(roots[0], file) && fileLen1 == FileLength(fs, env, j1)
      requires LensMatch(fs, env, fileLen1, roots, file, if aborted then 1 else |roots|)
      modifies cmd
      ensures Counters() == old(Counters()).Plus(EffectOf(cmd.opts, FileEvents(cmd.opts, cmd.cwd, fs, env, aborted, roots, file)))
      ensures cmd.opts == old(cmd.opts) && cmd.skipCnt == old(cmd.skipCnt)
    {
      ghost var o := cmd.opts;
      ghost var base := Counters();
      ghost var h := HashEvents(o, cmd.cwd, fs, env, AbsOrRel(cmd.cwd, o.showAbsPath, j1), Hash(fs, env, j1), roots, file,
                                if aborted then 1 else |roots|);
      assert FileEvents(o, cmd.cwd, fs, env, aborted, roots, file) == h;
      CompareHashes(fs, env, aborted, roots, file);
      if aborted {
        assert h == [];
        PlusNone(o, base);
      }
    }

    /** Lengths that differ: the last instance read is reported different, or missing. */
    method ReportLengths(fs: Fs, env: Env, aborted: bool, roots: seq<string>, file: string, j1: string, fileLen1: int)
      requires |roots| >= 1 && !cmd.opts.justName
      requires j1 == Join(roots[0], file) && fileLen1 == FileLength(fs, env, j1)
      requires !LensMatch(fs, env, fileLen1, roots, file, if aborted then 1 else |roots|)
      modifies cmd
      ensures Counters() == old(Counters()).Plus(EffectOf(cmd.opts, FileEvents(cmd.opts, cmd.cwd, fs, env, aborted, roots, file)))
      ensures cmd.opts == old(cmd.opts) && cmd.skipCnt == old(cmd.skipCnt)
    {
      ghost var o := cmd.opts;
      ghost var base := Counters();
      ghost var evs := FileEvents(o, cmd.cwd, fs, env, aborted, roots, file);
      // The lengths that broke the match include the last one read, that of the last root.
      var j2 := Join(roots[|roots| - 1], file);
      var fileLen2 := FileLength(fs, env, j2);
      if fileLen1 != -1 && fileLen2 != -1 {
        cmd.ShowDifferent(j1, j2);
        assert evs == [Differ(j1, j2)];
        assert Counters() == base.Plus(EventEffect(o, Differ(j1, j2))) by {
          assert base.dels + [] == base.dels && base.handed + [] == base.handed;
        }
        EffectOne(base, o, Differ(j1, j2));
      } else {
        cmd.ShowMissing(fileLen1 != -1, j1, fileLen2 != -1, j2);
        assert evs == [Absent(fileLen1 != -1, j1, fileLen2 != -1, j2)];
        assert Counters() == base.Plus(EventEffect(o, Absent(fileLen1 != -1, j1, fileLen2 != -1, j2))) by {
          assert base.dels + [] == base.dels && base.handed + [] == base.handed;
        }
        EffectOne(base, o, Absent(fileLen1 != -1, j1, fileLen2 != -1, j2));
      }
    }

    /**
     * The length loop of compareFiles: by name alone each later instance is
     * settled against the first; otherwise it records whether all lengths agree.
     */
    method CompareLengths(fs: Fs, env: Env, aborted: bool, roots: seq<string>, file: string, j1: string, fileLen1: int)
      returns (matchingLen: bool)
      requires |roots| >= 1
      modifies cmd
      ensures cmd.opts.justName ==>
        Counters() == old(Counters()).Plus(EffectOf(cmd.opts, NameEvents(fs, env, j1, fileLen1, roots, file, if aborted then 1 else |roots|)))
      ensures !cmd.opts.justName ==> Counters() == old(Counters())
      ensures !cmd.opts.justName ==> matchingLen == LensMatch(fs, env, fileLen1, roots, file, if aborted then 1 else |roots|)
      ensures cmd.opts == old(cmd.opts) && cmd.skipCnt == old(cmd.skipCnt)
    {
      ghost var o := cmd.opts;
      ghost var base := Counters();
      matchingLen := true;
      var d := 1;
      assert NameEvents(fs, env, j1, fileLen1, roots, file, d) == [];
      PlusNone(o, base);
      // The signal is one value for the whole call: testing it before the loop is testing it at every step.
      if !aborted {
        while d < |roots|
          invariant 1 <= d <= |roots|
          invariant cmd.opts == o && cmd.skipCnt == old(cmd.skipCnt)
          invariant o.justName ==> Counters() == base.Plus(EffectOf(o, NameEvents(fs, env, j1, fileLen1, roots, file, d)))
          invariant !o.justName ==> Counters() == base && matchingLen == LensMatch(fs, env, fileLen1, roots, file, d)
          decreases |roots| - d
        {
          var next := d + 1;
          matchingLen := CompareLength(fs, env, roots, file, j1, fileLen1, d, next, matchingLen, base);
          d := next;
        }
      }
      assert d == (if aborted then 1 else |roots|);
      assert base == old(Counters());
    }

    /** One step of the length loop of compareFiles: the instance under root `d` against the first. */
    method CompareLength(fs: Fs, env: Env, roots: seq<string>, file: string, j1: string, len1: int, d: nat,
                         ghost next: nat, matching: bool, ghost base: Effect)
      returns (matchingLen: bool)
      requires 1 <= d < |roots| && next == d + 1
      requires cmd.opts.justName ==> Counters() == base.Plus(EffectOf(cmd.opts, NameEvents(fs, env, j1, len1, roots, file, d)))
      requires !cmd.opts.justName ==> Counters() == base && matching == LensMatch(fs, env, len1, roots, file, d)
      modifies cmd
      ensures cmd.opts.justName ==> Counters() == base.Plus(EffectOf(cmd.opts, NameEvents(fs, env, j1, len1, roots, file, next)))
      ensures !cmd.opts.justName ==> Counters() == base && matchingLen == LensMatch(fs, env, len1, roots, file, next)
      ensures cmd.opts == old(cmd.opts) && cmd.skipCnt == old(cmd.skipCnt)
    {
      var j2 := Join(roots[d], file);
      var len2 := FileLength(fs, env, j2);
      matchingLen := matching;
      if cmd.opts.justName {
        CompareByName(fs, env, roots, file, j1, len1, d, j2, len2, base);
      } else if len1 != len2 {
        matchingLen := false;
      }
    }

    /** The name-only step of compareFiles: equal lengths are duplicates, else different or missing. */
    method CompareByName(fs: Fs, env: Env, roots: seq<string>, file: string, j1: string, len1: int, d: nat,
                         j2: string, len2: int, ghost base: Effect)
      requires 1 <= d < |roots| && j2 == Join(roots[d], file) && len2 == FileLength(fs, env, j2)
      requires Counters() == base.Plus(EffectOf(cmd.opts, NameEvents(fs, env, j1, len1, roots, file, d)))
      modifies cmd
      ensures Counters() == base.Plus(EffectOf(cmd.opts, NameEvents(fs, env, j1, len1, roots, file, d + 1)))
      ensures cmd.opts == old(cmd.opts) && cmd.skipCnt == old(cmd.skipCnt)
    {
      ghost var o := cmd.opts;
      ghost var ev := NameEvent(j1, len1, j2, len2);
      ghost var evs := NameEvents(fs, env, j1, len1, roots, file, d);
      assert NameEvents(fs, env, j1, len1, roots, file, d + 1) == evs + [ev];
      ghost var before := Counters();
      if len1 == len2 {
        cmd.ShowDuplicate(j1, j2);
      } else if len1 != -1 && len2 != -1 {
        cmd.ShowDifferent(j1, j2);
      } else {
        cmd.ShowMissing(len1 != -1, j1, len2 != -1, j2);
      }
      EffectStep(base, o, evs, ev, before, Counters());
    }

    /** The hashing loop of compareFiles: the shown first instance against each later one. */
    method CompareHashes(fs: Fs, env: Env, aborted: bool, roots: seq<string>, file: string)
      requires |roots| >= 1
      modifies cmd
      ensures aborted ==> Counters() == old(Counters())
      ensures var j1 := Join(roots[0], file);
        !aborted ==> Counters() == old(Counters()).Plus(EffectOf(cmd.opts,
          HashEvents(cmd.opts, cmd.cwd, fs, env, AbsOrRel(cmd.cwd, cmd.opts.showAbsPath, j1), Hash(fs, env, j1), roots, file, |roots|)))
      ensures cmd.opts == old(cmd.opts) && cmd.skipCnt == old(cmd.skipCnt)
    {
      ghost var o := cmd.opts;
      ghost var base := Counters();
      var j1 := cmd.Shown(Join(roots[0], file));
      assert j1 == AbsOrRel(cmd.cwd, o.showAbsPath, Join(roots[0], file));
      // The shown path names the same file, so its hash is that of the joined path.
      var hash1 := Hash(fs, env, Join(roots[0], file));
      var d := 1;
      assert HashEvents(o, cmd.cwd, fs, env, j1, hash1, roots, file, d) == [];
      PlusNone(o, base);
      // The signal is one value for the whole call: testing it before the loop is testing it at every step.
      if !aborted {
        while d < |roots|
          invariant 1 <= d <= |roots|
          invariant cmd.opts == o && cmd.skipCnt == old(cmd.skipCnt)
          invariant Counters() == base.Plus(EffectOf(o, HashEvents(o, cmd.cwd, fs, env, j1, hash1, roots, file, d)))
          decreases |roots| - d
        {
          CompareHash(fs, env, roots, file, j1, hash1, d, base);
          d := d + 1;
        }
        assert Counters() == base.Plus(EffectOf(o, HashEvents(o, cmd.cwd, fs, env, j1, hash1, roots, file, |roots|)));
      }
      assert j1 == AbsOrRel(cmd.cwd, cmd.opts.showAbsPath, Join(roots[0], file));
      assert base == old(Counters());
    }

    /** One later instance against the shown first one: duplicate when the hashes agree. */
    method CompareHash(fs: Fs, env: Env, roots: seq<string>, file: string, j1: string, hash1: nat, d: nat, ghost base: Effect)
      requires 1 <= d < |roots|
      requires Counters() == base.Plus(EffectOf(cmd.opts, HashEvents(cmd.opts, cmd.cwd, fs, env, j1, hash1, roots, file, d)))
      modifies cmd
      ensures Counters() == base.Plus(EffectOf(cmd.opts, HashEvents(cmd.opts, cmd.cwd, fs, env, j1, hash1, roots, file, d + 1)))
      ensures cmd.opts == old(cmd.opts) && cmd.skipCnt == old(cmd.skipCnt)
    {
      ghost var o := cmd.opts;
      var path2 := Join(roots[d], file);
      var j2 := cmd.Shown(path2);
      var hash2 := Hash(fs, env, path2);
      ghost var ev := if hash1 == hash2 then Same(j1, j2) else Differ(j1, j2);
      ghost var evs := HashEvents(o, cmd.cwd, fs, env, j1, hash1, roots, file, d);
      assert HashEvents(o, cmd.cwd, fs, env, j1, hash1, roots, file, d + 1) == evs + [ev];
      ghost var before := Counters();
      if hash1 == hash2 {
        cmd.ShowDuplicate(j1, j2);
      } else {
        cmd.ShowDifferent(j1, j2);
      }
      EffectStep(base, o, evs, ev, before, Counters());
    }

    /** Only the hasher's threads are handed files. */
    predicate HandOffsThreaded()
      reads this, cmd
    {
      !cmd.opts.useThreads ==> handed == []
    }

    /**
     * findDuplicates: scan the files of the frontier, then replace the
     * frontier by the subdirectories found under every root; there is a next
     * level exactly when that frontier is non-empty.
     */
    method FindDuplicates(e: Engine, fs: Fs, env: Env, aborted: bool, roots: seq<string>, subDirList: set<string>)
      returns (more: bool, outDirList: set<string>)
      requires |roots| >= 1 && HandOffsThreaded()
      modifies this, cmd
      ensures HandOffsThreaded() && cmd.opts == old(cmd.opts)
      ensures outDirList == LevelDirs(e, cmd.opts.Gate(), fs, aborted, roots, subDirList)
      ensures more <==> outDirList != {}
      ensures aborted ==> cmd.skipCnt == old(cmd.skipCnt)
      ensures var ks := SortedStrings(subDirList);
        !aborted ==> cmd.skipCnt == old(cmd.skipCnt) + LevelRejected(e, cmd.opts.Gate(), fs, roots, ks, false)
                                                      + LevelRejected(e, cmd.opts.Gate(), fs, roots, ks, true)
      ensures Counters() == old(Counters()).Plus(EffectOf(cmd.opts, ScanEvents(cmd.opts, cmd.cwd, e, fs, env, aborted, roots, subDirList)))
    {
      ScanFiles(e, fs, env, aborted, roots, subDirList);
      outDirList := GetDirs(e, fs, aborted, roots, subDirList);
      more := |outDirList| > 0;
    }

    /** scanFiles: the files of the frontier, then their comparison. */
    method ScanFiles(e: Engine, fs: Fs, env: Env, aborted: bool, roots: seq<string>, next: set<string>)
      requires |roots| >= 1 && HandOffsThreaded()
      modifies this, cmd
      ensures HandOffsThreaded() && cmd.opts == old(cmd.opts)
      ensures cmd.skipCnt == old(cmd.skipCnt)
        + (if aborted then 0 else LevelRejected(e, cmd.opts.Gate(), fs, roots, SortedStrings(next), false))
      ensures Counters() == old(Counters()).Plus(EffectOf(cmd.opts, ScanEvents(cmd.opts, cmd.cwd, e, fs, env, aborted, roots, next)))
    {
      ghost var o := cmd.opts;
      var files := GetFiles(e, fs, aborted, roots, next);
      assert files == LevelFiles(e, o.Gate(), fs, aborted, roots, next);
      CompareFiles(fs, env, aborted, roots, files);
      if !o.useThreads {
        LevelEventsSettled(o, cmd.cwd, fs, env, aborted, roots, SortedStrings(files));
      }
    }

    /** done: with the hasher's threads, wait for every file handed to them; nothing is waited for otherwise. */
    method Done() returns (waited: seq<string>)
      requires HandOffsThreaded()
      ensures waited == handed
      ensures !cmd.opts.useThreads ==> waited == []
    {
      if cmd.opts.useThreads {
        waited := handed;
      } else {
        waited := [];
      }
    }

    /** compareFiles: every file found, in set order. */
    method CompareFiles(fs: Fs, env: Env, aborted: bool, roots: seq<string>, files: set<string>)
      requires |roots| >= 1
      modifies this, cmd
      ensures Counters() == old(Counters()).Plus(EffectOf(cmd.opts,
        LevelEvents(cmd.opts, cmd.cwd, fs, env, aborted, roots, SortedStrings(files))))
      ensures cmd.opts == old(cmd.opts) && cmd.skipCnt == old(cmd.skipCnt)
    {
      ghost var o := cmd.opts;
      ghost var base := Counters();
      var rest := files;
      ghost var done: seq<string> := [];
      PlusNone(o, base);
      while rest != {}
        invariant rest <= files
        invariant SortedStrings(files) == done + SortedStrings(rest)
        invariant cmd.opts == o && cmd.skipCnt == old(cmd.skipCnt)
        invariant Counters() == base.Plus(EffectOf(o, LevelEvents(o, cmd.cwd, fs, env, aborted, roots, done)))
        decreases |rest|
      {
        var k := NextString(files, done, rest);
        CompareNext(fs, env, aborted, roots, done, k, base);
        done := done + [k];
        rest := rest - {k};
      }
      StringsDone(files, done);
    }

    /** One file of compareFiles after those already done. */
    method CompareNext(fs: Fs, env: Env, aborted: bool, roots: seq<string>, ghost done: seq<string>, file: string,
                       ghost base: Effect)
      requires |roots| >= 1
      requires Counters() == base.Plus(EffectOf(cmd.opts, LevelEvents(cmd.opts, cmd.cwd, fs, env, aborted, roots, done)))
      modifies this, cmd
      ensures Counters() == base.Plus(EffectOf(cmd.opts, LevelEvents(cmd.opts, cmd.cwd, fs, env, aborted, roots, done + [file])))
      ensures cmd.opts == old(cmd.opts) && cmd.skipCnt == old(cmd.skipCnt)
    {
      ghost var o := cmd.opts;
      ghost var before := LevelEvents(o, cmd.cwd, fs, env, aborted, roots, done);
      ghost var step := FileEvents(o, cmd.cwd, fs, env, aborted, roots, file);
      LevelEventsSnoc(o, cmd.cwd, fs, env, aborted, roots, done, file);
      EffectOfAppend(base, o, before, step);
      CompareFile(fs, env, aborted, roots, file);
    }
  }
}
