/**
 * The lldupdir driver: InspectFiles, which walks one argument and hands
 * every file it meets to DupFiles::add, and the main routine's choice
 * between the stdin list, the flat walk and the two-root level walk.
 */
module Driver {
  import opened Seqs
  import opened Paths
  import opened Patterns
  import opened Ordering
  import opened FileSystem
  import opened Commands
  import opened DupTable
  import opened DupReport
  import opened DupFilesSession
  import opened DupScanning
  import opened DupComparing
  import opened Scanner

  /* ---------------------------------------------------------------- */
  /* InspectFiles                                                      */

  /** The length of the longest path of `s`. */
  ghost function Longest(s: set<string>): nat
    decreases s
  {
    if s == {} then 0
    else
      var p :| p in s;
      var m := Longest(s - {p});
      if |p| > m then |p| else m
  }

  lemma {:induction false} LongestBounds(s: set<string>, q: string)
    requires q in s
    ensures |q| <= Longest(s)
    decreases s
  {
    var p :| p in s && Longest(s) == (if |p| > Longest(s - {p}) then |p| else Longest(s - {p}));
    if q != p {
      LongestBounds(s - {p}, q);
    }
  }

  /** The length of the longest directory of `fs`. */
  ghost function Deepest(fs: Fs): nat
  {
    Longest(fs.dirs.Keys)
  }

  /** How far a walk from `dir` can still descend: listed directories only get longer. */
  ghost function Height(fs: Fs, dir: string): nat
  {
    if dir in fs.dirs && |dir| <= Deepest(fs) then Deepest(fs) + 1 - |dir| else 0
  }

  /** Entering a child of a listed directory leaves less height to descend. */
  lemma HeightShrinks(fs: Fs, dir: string, child: string)
    requires dir in fs.dirs && |child| > |dir|
    ensures Height(fs, child) < Height(fs, dir)
  {
    LongestBounds(fs.dirs.Keys, dir);
  }

  /**
   * The paths InspectFiles hands to add, in order: the argument itself
   * when it is a regular file, otherwise, unless the signal is up, the
   * walk of its listing.
   */
  function Visit(fs: Fs, aborted: bool, dir: string): seq<string>
    requires WellFormed(fs)
    decreases Height(fs, dir), 2, 0
  {
    if IsRegular(fs, dir) then [dir]
    else if aborted then []
    else VisitUpTo(fs, aborted, dir, |Listing(fs, dir)|)
  }

  /** The walk of the first `i` entries of the listing of `dir`. */
  function VisitUpTo(fs: Fs, aborted: bool, dir: string, i: nat): seq<string>
    requires WellFormed(fs) && i <= |Listing(fs, dir)|
    decreases Height(fs, dir), 1, i
  {
    if i == 0 then []
    else VisitUpTo(fs, aborted, dir, i - 1) + VisitEntry(fs, aborted, dir, i - 1)
  }

  /** Entry `i`: a directory is walked, any other non-empty path is added. */
  function VisitEntry(fs: Fs, aborted: bool, dir: string, i: nat): seq<string>
    requires WellFormed(fs) && i < |Listing(fs, dir)|
    decreases Height(fs, dir), 0, 0
  {
    var en := Listing(fs, dir)[i];
    var full := Join(dir, en.name);
    ChildIsLonger(fs, dir, i);
    HeightShrinks(fs, dir, full);
    if en.isDir then Visit(fs, aborted, full)
    else if |full| > 0 then [full]
    else []
  }

  /** A longer prefix of the listing hands at least as many paths to add. */
  lemma {:induction false} VisitUpToGrows(fs: Fs, aborted: bool, dir: string, i: nat, j: nat)
    requires WellFormed(fs) && i <= j <= |Listing(fs, dir)|
    ensures |VisitUpTo(fs, aborted, dir, i)| <= |VisitUpTo(fs, aborted, dir, j)|
    decreases j
  {
    if i < j {
      VisitUpToGrows(fs, aborted, dir, i, j - 1);
    }
  }

  /**
   * Everything a walk from a directory hands to add lies strictly below
   * it: it is a longer path, and a regular argument is handed alone.
   */
  lemma {:induction false} VisitBelow(fs: Fs, aborted: bool, dir: string, p: string)
    requires WellFormed(fs) && p in Visit(fs, aborted, dir)
    ensures IsRegular(fs, dir) ==> Visit(fs, aborted, dir) == [dir]
    ensures !IsRegular(fs, dir) ==> |p| > |dir| && !aborted
    decreases Height(fs, dir), 2, 0
  {
    if !IsRegular(fs, dir) {
      VisitUpToBelow(fs, aborted, dir, |Listing(fs, dir)|, p);
    }
  }

  lemma {:induction false} VisitUpToBelow(fs: Fs, aborted: bool, dir: string, i: nat, p: string)
    requires WellFormed(fs) && i <= |Listing(fs, dir)| && p in VisitUpTo(fs, aborted, dir, i)
    ensures |p| > |dir|
    decreases Height(fs, dir), 1, i
  {
    if p in VisitEntry(fs, aborted, dir, i - 1) {
      var en := Listing(fs, dir)[i - 1];
      var full := Join(dir, en.name);
      ChildIsLonger(fs, dir, i - 1);
      HeightShrinks(fs, dir, full);
      if en.isDir {
        VisitBelow(fs, aborted, full, p);
      }
    } else {
      VisitUpToBelow(fs, aborted, dir, i - 1, p);
    }
  }

  /**
   * A walk `vs` handed to add from table `t`, accepted list `added` and
   * skip count `skip` ends at table `now`, list `added'` and skip count
   * `skip'`, with `n` files accepted.
   */
  ghost predicate Walked(e: Engine, g: Filters, t: Table, added: seq<string>, skip: nat, vs: seq<string>,
                         now: Table, added': seq<string>, skip': nat, n: nat)
  {
    t.Valid()
    && now == AddAll(t, e, g, vs)
    && added' == added + Accepted(e, g, vs)
    && n == |Accepted(e, g, vs)|
    && skip' + n == skip + |vs|
  }

  /** A walk from a table that held exactly `added` leaves DupFiles valid. */
  lemma WalkedValid(d: DupFiles, e: Engine, g: Filters, t: Table, added: seq<string>, skip: nat, vs: seq<string>, n: nat)
    requires Represents(t.fileList, t.pathList, added) && |t.pathList| + |vs| < UINT_MAX
    requires Walked(e, g, t, added, skip, vs, d.State(), d.added, d.cmd.skipCnt, n)
    ensures d.Valid()
  {
    AddAllRepresents(t, added, e, g, vs);
  }

  /** The counters and the log a walk leaves alone. */
  twostate predicate OthersKept(d: DupFiles)
    reads d, d.cmd
  {
    d.cmd.opts == old(d.cmd.opts) && d.cmd.deleteLog == old(d.cmd.deleteLog)
    && d.cmd.sameCnt == old(d.cmd.sameCnt) && d.cmd.diffCnt == old(d.cmd.diffCnt)
    && d.cmd.missCnt == old(d.cmd.missCnt)
  }

  /** One path handed to add is the walk of that single path. */
  lemma AddOne(e: Engine, g: Filters, t: Table, added: seq<string>, skip: nat, p: string,
               now: Table, added': seq<string>, skip': nat, n: nat)
    requires t.Valid()
    requires var ok := Accepts(e, g, GetName(p), p);
      n == (if ok then 1 else 0) && skip' == skip + (if ok then 0 else 1)
      && (ok ==> now == AddStep(t, true, p) && added' == added + [p])
      && (!ok ==> now == t && added' == added)
    ensures Walked(e, g, t, added, skip, [p], now, added', skip', n)
  {
    assert [p][1..] == [];
    assert added + [] == added;
  }

  /**
   * InspectFiles: a regular file is added; anything else is listed, and,
   * while the signal is down, each subdirectory is walked and each other
   * non-empty path is added. The result counts the files add accepted.
   */
  method InspectFiles(d: DupFiles, e: Engine, fs: Fs, aborted: bool, dirname: string) returns (fileCount: nat)
    requires WellFormed(fs) && d.Valid() && |d.pathList| + |Visit(fs, aborted, dirname)| < UINT_MAX
    modifies d, d.cmd
    ensures d.Valid() && OthersKept(d)
    ensures Walked(e, d.cmd.opts.Gate(), old(d.State()), old(d.added), old(d.cmd.skipCnt), Visit(fs, aborted, dirname),
      d.State(), d.added, d.cmd.skipCnt, fileCount)
    decreases Height(fs, dirname), 2, 0
  {
    if IsRegular(fs, dirname) {
      ghost var t := d.State();
      fileCount := d.Add(e, dirname);
      AddOne(e, d.cmd.opts.Gate(), t, old(d.added), old(d.cmd.skipCnt), dirname, d.State(), d.added, d.cmd.skipCnt, fileCount);
      return;
    }
    fileCount := 0;
    if aborted {
      return;
    }
    fileCount := InspectListing(d, e, fs, dirname);
  }

  /** The entry loop of InspectFiles over the listing of `dirname`, the signal down. */
  method InspectListing(d: DupFiles, e: Engine, fs: Fs, dirname: string) returns (fileCount: nat)
    requires WellFormed(fs) && d.Valid() && |d.pathList| + |VisitUpTo(fs, false, dirname, |Listing(fs, dirname)|)| < UINT_MAX
    modifies d, d.cmd
    ensures d.Valid() && OthersKept(d)
    ensures Walked(e, d.cmd.opts.Gate(), old(d.State()), old(d.added), old(d.cmd.skipCnt), VisitUpTo(fs, false, dirname, |Listing(fs, dirname)|),
      d.State(), d.added, d.cmd.skipCnt, fileCount)
    decreases Height(fs, dirname), 1, 1
  {
    ghost var t, added, skip := d.State(), d.added, d.cmd.skipCnt;
    ghost var g := d.cmd.opts.Gate();
    fileCount := 0;
    var es := Listing(fs, dirname);
    var i := 0;
    while i < |es|
      invariant 0 <= i <= |es| && OthersKept(d)
      invariant Walked(e, g, t, added, skip, VisitUpTo(fs, false, dirname, i), d.State(), d.added, d.cmd.skipCnt, fileCount)
    {
      var j := i + 1;
      VisitUpToGrows(fs, false, dirname, j, |es|);
      fileCount := InspectNext(d, e, fs, dirname, i, j, t, added, skip, fileCount);
      i := j;
    }
    WalkedValid(d, e, g, t, added, skip, VisitUpTo(fs, false, dirname, i), fileCount);
  }

  /** The body of the entry loop: entry `i` walked after the entries before it. */
  method InspectNext(d: DupFiles, e: Engine, fs: Fs, dirname: string, i: nat, ghost j: nat, ghost t: Table,
                     ghost added: seq<string>, ghost skip: nat, fileCount: nat)
    returns (fileCount': nat)
    requires WellFormed(fs) && i < |Listing(fs, dirname)| && j == i + 1
    requires Represents(t.fileList, t.pathList, added) && |t.pathList| + |VisitUpTo(fs, false, dirname, j)| < UINT_MAX
    requires Walked(e, d.cmd.opts.Gate(), t, added, skip, VisitUpTo(fs, false, dirname, i),
                    d.State(), d.added, d.cmd.skipCnt, fileCount)
    modifies d, d.cmd
    ensures OthersKept(d)
    ensures Walked(e, d.cmd.opts.Gate(), t, added, skip, VisitUpTo(fs, false, dirname, j),
                   d.State(), d.added, d.cmd.skipCnt, fileCount')
    decreases Height(fs, dirname), 1, 0
  {
    ghost var g := d.cmd.opts.Gate();
    VisitUpToGrows(fs, false, dirname, i, j);
    WalkedValid(d, e, g, t, added, skip, VisitUpTo(fs, false, dirname, i), fileCount);
    ghost var s, ad, sk := d.State(), d.added, d.cmd.skipCnt;
    var n := InspectEntry(d, e, fs, dirname, i);
    WalkedGrows(e, g, t, added, skip, VisitUpTo(fs, false, dirname, i), s, ad, sk, fileCount,
                VisitEntry(fs, false, dirname, i), d.State(), d.added, d.cmd.skipCnt, n);
    fileCount' := fileCount + n;
  }

  /** A walk `done` followed by a walk `step` is the walk of `done + step`. */
  lemma WalkedGrows(e: Engine, g: Filters, t: Table, added: seq<string>, skip: nat, done: seq<string>,
                    s: Table, ad: seq<string>, sk: nat, fc: nat,
                    step: seq<string>, now: Table, ad': seq<string>, sk': nat, n: nat)
    requires Walked(e, g, t, added, skip, done, s, ad, sk, fc)
    requires Walked(e, g, s, ad, sk, step, now, ad', sk', n)
    ensures Walked(e, g, t, added, skip, done + step, now, ad', sk', fc + n)
  {
    AddAllAppend(t, e, g, done, step);
    AcceptedAppend(e, g, done, step);
    ConcatAssoc(added, Accepted(e, g, done), Accepted(e, g, step));
  }

  /** One entry of the listing: a directory is walked, any other non-empty path is added. */
  method InspectEntry(d: DupFiles, e: Engine, fs: Fs, dirname: string, i: nat) returns (n: nat)
    requires WellFormed(fs) && i < |Listing(fs, dirname)|
    requires d.Valid() && |d.pathList| + |VisitEntry(fs, false, dirname, i)| < UINT_MAX
    modifies d, d.cmd
    ensures d.Valid() && OthersKept(d)
    ensures Walked(e, d.cmd.opts.Gate(), old(d.State()), old(d.added), old(d.cmd.skipCnt), VisitEntry(fs, false, dirname, i),
      d.State(), d.added, d.cmd.skipCnt, n)
    decreases Height(fs, dirname), 0, 0
  {
    ghost var t := d.State();
    var en := Listing(fs, dirname)[i];
    var fullname := Join(dirname, en.name);
    ChildIsLonger(fs, dirname, i);
    HeightShrinks(fs, dirname, fullname);
    if en.isDir {
      n := InspectFiles(d, e, fs, false, fullname);
    } else if |fullname| > 0 {
      n := d.Add(e, fullname);
      AddOne(e, d.cmd.opts.Gate(), t, old(d.added), old(d.cmd.skipCnt), fullname, d.State(), d.added, d.cmd.skipCnt, n);
    } else {
      // A listed name is never empty, so neither is its joined path.
      assert false;
    }
  }

  /* ---------------------------------------------------------------- */
  /* The argument loops                                                */

  /** The walks of `paths`, one after another. */
  function VisitAll(fs: Fs, aborted: bool, paths: seq<string>): seq<string>
    requires WellFormed(fs)
    decreases |paths|
  {
    if paths == [] then []
    else VisitAll(fs, aborted, paths[..|paths| - 1]) + Visit(fs, aborted, paths[|paths| - 1])
  }

  /** The "Files Checked" counts, one per path: the files add accepted from its walk. */
  function Checked(e: Engine, g: Filters, fs: Fs, aborted: bool, paths: seq<string>): (r: seq<nat>)
    requires WellFormed(fs)
    ensures |r| == |paths|
    decreases |paths|
  {
    if paths == [] then []
    else Checked(e, g, fs, aborted, paths[..|paths| - 1]) + [|Accepted(e, g, Visit(fs, aborted, paths[|paths| - 1]))|]
  }

  /** A longer list of paths hands at least as many paths to add. */
  lemma {:induction false} VisitAllGrows(fs: Fs, aborted: bool, paths: seq<string>, i: nat)
    requires WellFormed(fs) && i <= |paths|
    ensures |VisitAll(fs, aborted, paths[..i])| <= |VisitAll(fs, aborted, paths)|
    decreases |paths|
  {
    if i < |paths| {
      var init := paths[..|paths| - 1];
      assert paths[..i] == init[..i];
      VisitAllGrows(fs, aborted, init, i);
    } else {
      assert paths[..i] == paths;
    }
  }

  /**
   * The flat loops of the main routine: InspectFiles on each path in
   * turn (the arguments, or the lines read from standard input), each
   * count printed as "Files Checked".
   */
  method InspectAll(d: DupFiles, e: Engine, fs: Fs, aborted: bool, paths: seq<string>) returns (counts: seq<nat>)
    requires WellFormed(fs) && d.Valid() && |d.pathList| + |VisitAll(fs, aborted, paths)| < UINT_MAX
    modifies d, d.cmd
    ensures d.Valid() && OthersKept(d)
    ensures counts == Checked(e, d.cmd.opts.Gate(), fs, aborted, paths)
    ensures Walked(e, d.cmd.opts.Gate(), old(d.State()), old(d.added), old(d.cmd.skipCnt), VisitAll(fs, aborted, paths),
                   d.State(), d.added, d.cmd.skipCnt, |Accepted(e, d.cmd.opts.Gate(), VisitAll(fs, aborted, paths))|)
  {
    ghost var t, added, skip := d.State(), d.added, d.cmd.skipCnt;
    ghost var g := d.cmd.opts.Gate();
    counts := [];
    var i := 0;
    while i < |paths|
      invariant 0 <= i <= |paths| && OthersKept(d)
      invariant counts == Checked(e, g, fs, aborted, paths[..i])
      invariant Walked(e, g, t, added, skip, VisitAll(fs, aborted, paths[..i]),
                       d.State(), d.added, d.cmd.skipCnt, |Accepted(e, g, VisitAll(fs, aborted, paths[..i]))|)
    {
      var j := i + 1;
      VisitAllGrows(fs, aborted, paths, j);
      counts := InspectArg(d, e, fs, aborted, paths, i, j, t, added, skip, counts);
      i := j;
    }
    assert paths[..i] == paths;
    WalkedValid(d, e, g, t, added, skip, VisitAll(fs, aborted, paths), |Accepted(e, g, VisitAll(fs, aborted, paths))|);
  }

  /** The body of the argument loop: InspectFiles on `paths[i]` after the paths before it. */
  method InspectArg(d: DupFiles, e: Engine, fs: Fs, aborted: bool, paths: seq<string>, i: nat, ghost j: nat,
                    ghost t: Table, ghost added: seq<string>, ghost skip: nat, counts: seq<nat>)
    returns (counts': seq<nat>)
    requires WellFormed(fs) && i < |paths| && j == i + 1
    requires Represents(t.fileList, t.pathList, added)
    requires counts == Checked(e, d.cmd.opts.Gate(), fs, aborted, paths[..i])
    requires Walked(e, d.cmd.opts.Gate(), t, added, skip, VisitAll(fs, aborted, paths[..i]), d.State(), d.added, d.cmd.skipCnt,
                    |Accepted(e, d.cmd.opts.Gate(), VisitAll(fs, aborted, paths[..i]))|)
    requires |t.pathList| + |VisitAll(fs, aborted, paths[..j])| < UINT_MAX
    modifies d, d.cmd
    ensures OthersKept(d)
    ensures counts' == Checked(e, d.cmd.opts.Gate(), fs, aborted, paths[..j])
    ensures Walked(e, d.cmd.opts.Gate(), t, added, skip, VisitAll(fs, aborted, paths[..j]), d.State(), d.added, d.cmd.skipCnt,
                   |Accepted(e, d.cmd.opts.Gate(), VisitAll(fs, aborted, paths[..j]))|)
  {
    ghost var g := d.cmd.opts.Gate();
    ghost var before := VisitAll(fs, aborted, paths[..i]);
    assert paths[..j][..i] == paths[..i];
    assert VisitAll(fs, aborted, paths[..j]) == before + Visit(fs, aborted, paths[i]);
    WalkedValid(d, e, g, t, added, skip, before, |Accepted(e, g, before)|);
    ghost var s, ad, sk := d.State(), d.added, d.cmd.skipCnt;
    var fileCnt := InspectFiles(d, e, fs, aborted, paths[i]);
    WalkedGrows(e, g, t, added, skip, before, s, ad, sk, |Accepted(e, g, before)|,
                Visit(fs, aborted, paths[i]), d.State(), d.added, d.cmd.skipCnt, fileCnt);
    counts' := counts + [fileCnt];
  }

  /* ---------------------------------------------------------------- */
  /* The two-root level walk                                           */

  /** The frontier of level `n`: {""}, then the subdirectories found at the level before. */
  ghost function Frontier(e: Engine, g: Filters, fs: Fs, roots: seq<string>, n: nat): set<string>
    decreases n
  {
    if n == 0 then {""} else LevelDirs(e, g, fs, false, roots, Frontier(e, g, fs, roots, n - 1))
  }

  /** The frontiers, level by level. */
  ghost function Frontiers(e: Engine, g: Filters, fs: Fs, roots: seq<string>): nat -> set<string>
  {
    (m: nat) => Frontier(e, g, fs, roots, m)
  }

  /** Each of the sets `f(1)` to `f(n)` is non-empty. */
  ghost predicate AllFound(f: nat -> set<string>, n: nat)
    decreases n
  {
    n == 0 || (f(n) != {} && AllFound(f, n - 1))
  }

  /** Each of the levels 1 to `n` has a non-empty frontier. */
  ghost predicate LevelsFound(e: Engine, g: Filters, fs: Fs, roots: seq<string>, n: nat)
  {
    AllFound(Frontiers(e, g, fs, roots), n)
  }

  /** A set below a found one was found too. */
  lemma {:induction false} AllFoundAt(f: nat -> set<string>, n: nat, m: nat)
    requires AllFound(f, n) && 1 <= m <= n
    ensures f(m) != {}
    decreases n
  {
    if m < n {
      var k: nat := n - 1;
      AllFoundAt(f, k, m);
    }
  }

  /** Sets found one by one make `AllFound`. */
  lemma {:induction false} AllFoundFrom(f: nat -> set<string>, n: nat)
    requires forall m :: 1 <= m <= n ==> f(m) != {}
    ensures AllFound(f, n)
    decreases n
  {
    if n > 0 {
      var k: nat := n - 1;
      AllFoundFrom(f, k);
    }
  }

  lemma LevelsFoundIff(e: Engine, g: Filters, fs: Fs, roots: seq<string>, n: nat)
    ensures LevelsFound(e, g, fs, roots, n) <==> forall m :: 1 <= m <= n ==> Frontiers(e, g, fs, roots)(m) != {}
  {
    var f := Frontiers(e, g, fs, roots);
    if AllFound(f, n) {
      forall m | 1 <= m <= n
        ensures f(m) != {}
      {
        AllFoundAt(f, n, m);
      }
    } else if forall m :: 1 <= m <= n ==> f(m) != {} {
      AllFoundFrom(f, n);
    }
  }

  /** The calls the first `n` levels make. */
  ghost function WalkEvents(o: Options, cwd: string, e: Engine, fs: Fs, env: Env, roots: seq<string>, n: nat): seq<Event>
    requires |roots| >= 1
    decreases n
  {
    if n == 0 then []
    else WalkEvents(o, cwd, e, fs, env, roots, n - 1)
         + ScanEvents(o, cwd, e, fs, env, false, roots, Frontier(e, o.Gate(), fs, roots, n - 1))
  }

  /** The entries the filters reject in the first `n` levels, files and directories. */
  ghost function WalkSkips(e: Engine, g: Filters, fs: Fs, roots: seq<string>, n: nat): nat
    decreases n
  {
    if n == 0 then 0
    else
      var ks := SortedStrings(Frontier(e, g, fs, roots, n - 1));
      WalkSkips(e, g, fs, roots, n - 1) + LevelRejected(e, g, fs, roots, ks, false) + LevelRejected(e, g, fs, roots, ks, true)
  }

  /** An entry of the frontier of level `n + 1` was found in a listing of an entry of level `n`. */
  lemma FrontierParent(e: Engine, g: Filters, fs: Fs, roots: seq<string>, n: nat, p: string)
    returns (k: string, r: nat, i: int)
    requires p in Frontier(e, g, fs, roots, n + 1)
    ensures k in Frontier(e, g, fs, roots, n) && r < |roots| && Keeps(e, g, fs, roots[r], k, i, true, p)
  {
    FoundIff(e, g, fs, roots, Frontier(e, g, fs, roots, n), true, p);
    k, r, i :| k in Frontier(e, g, fs, roots, n) && 0 <= r < |roots| && Keeps(e, g, fs, roots[r], k, i, true, p);
  }

  /** A kept subdirectory is longer than the entry it was listed under, which names a listed directory. */
  lemma KeptIsLonger(e: Engine, g: Filters, fs: Fs, root: string, k: string, i: int, p: string)
    requires WellFormed(fs) && Keeps(e, g, fs, root, k, i, true, p)
    ensures |p| > |k| && Join(root, k) in fs.dirs && |k| <= |Join(root, k)|
  {
    ChildIsLonger(fs, Join(root, k), i);
    JoinGrows(k, Listing(fs, Join(root, k))[i].name);
  }

  /** An entry of the frontier of level `n` is at least `n` characters long. */
  lemma {:induction false} FrontierDepth(e: Engine, g: Filters, fs: Fs, roots: seq<string>, n: nat, p: string)
    requires WellFormed(fs) && p in Frontier(e, g, fs, roots, n)
    ensures |p| >= n
    decreases n
  {
    if n > 0 {
      var m: nat := n - 1;
      var k, r, i := FrontierParent(e, g, fs, roots, m, p);
      FrontierDepth(e, g, fs, roots, m, k);
      KeptIsLonger(e, g, fs, roots[r], k, i, p);
    }
  }

  /**
   * The walk ends: a frontier past the longest directory of the file
   * system is empty, because each frontier entry names a directory
   * listed under some root and is longer than the level before.
   */
  lemma FrontierEnds(e: Engine, g: Filters, fs: Fs, roots: seq<string>, n: nat)
    requires WellFormed(fs) && Frontier(e, g, fs, roots, n + 1) != {}
    ensures n <= Deepest(fs)
  {
    var p :| p in Frontier(e, g, fs, roots, n + 1);
    var k, r, i := FrontierParent(e, g, fs, roots, n, p);
    FrontierDepth(e, g, fs, roots, n, k);
    KeptIsLonger(e, g, fs, roots[r], k, i, p);
    LongestBounds(fs.dirs.Keys, Join(roots[r], k));
  }

  /**
   * `while (!aborted && dupScan.findDuplicates(...)) level++`: the levels
   * are scanned from the frontier {""} until a level finds no
   * subdirectory; the result counts the levels that found one.
   */
  method WalkLevels(scan: DupScan, e: Engine, fs: Fs, env: Env, aborted: bool, roots: seq<string>) returns (level: nat, ghost depth: nat)
    requires WellFormed(fs) && |roots| >= 1 && scan.HandOffsThreaded()
    modifies scan, scan.cmd
    ensures depth == level + 1
    ensures scan.HandOffsThreaded() && scan.cmd.opts == old(scan.cmd.opts)
    ensures aborted ==> level == 0 && scan.Counters() == old(scan.Counters()) && scan.cmd.skipCnt == old(scan.cmd.skipCnt)
    ensures var g := scan.cmd.opts.Gate();
      !aborted ==> Frontier(e, g, fs, roots, depth) == {} && LevelsFound(e, g, fs, roots, level)
    ensures !aborted ==> scan.cmd.skipCnt == old(scan.cmd.skipCnt) + WalkSkips(e, scan.cmd.opts.Gate(), fs, roots, depth)
    ensures !aborted ==>
      scan.Counters() == old(scan.Counters()).Plus(EffectOf(scan.cmd.opts, WalkEvents(scan.cmd.opts, scan.cmd.cwd, e, fs, env, roots, depth)))
  {
    level, depth := 0, 1;
    if aborted {
      return;
    }
    ghost var base, skip := scan.Counters(), scan.cmd.skipCnt;
    PlusNone(scan.cmd.opts, base);
    var more, nextDirList := NextLevel(scan, e, fs, env, roots, 0, {""}, base, skip, 1);
    level, depth := WalkFrom(scan, e, fs, env, roots, more, nextDirList, base, skip);
  }

  /**
   * After `depth` findDuplicates calls from `base` and `skip`: `dirs` is the
   * next frontier, `skipCnt` and `counters` hold what those levels did, and
   * every level before the last found something.
   */
  ghost predicate WalkedTo(o: Options, cwd: string, e: Engine, fs: Fs, env: Env, roots: seq<string>,
                           base: Effect, skip: nat, level: nat, depth: nat, dirs: set<string>, skipCnt: nat,
                           counters: Effect)
    requires |roots| >= 1
  {
    depth == level + 1
    && dirs == Frontier(e, o.Gate(), fs, roots, depth)
    && LevelsFound(e, o.Gate(), fs, roots, level)
    && skipCnt == skip + WalkSkips(e, o.Gate(), fs, roots, depth)
    && counters == base.Plus(EffectOf(o, WalkEvents(o, cwd, e, fs, env, roots, depth)))
  }

  /**
   * The loop of WalkLevels, the signal down, after the first call found
   * `nextDirList`, from the Command at `base` and `skip`.
   */
  method WalkFrom(scan: DupScan, e: Engine, fs: Fs, env: Env, roots: seq<string>, more: bool, nextDirList: set<string>,
                  ghost base: Effect, ghost skip: nat)
    returns (level: nat, ghost depth: nat)
    requires WellFormed(fs) && |roots| >= 1 && scan.HandOffsThreaded()
    requires WalkedTo(scan.cmd.opts, scan.cmd.cwd, e, fs, env, roots, base, skip, 0, 1, nextDirList,
                      scan.cmd.skipCnt, scan.Counters())
    requires (more <==> nextDirList != {}) && (more ==> 0 <= Deepest(fs))
    modifies scan, scan.cmd
    ensures scan.HandOffsThreaded() && scan.cmd.opts == old(scan.cmd.opts)
    ensures WalkedTo(scan.cmd.opts, scan.cmd.cwd, e, fs, env, roots, base, skip, level, depth, {},
                     scan.cmd.skipCnt, scan.Counters())
  {
    ghost var o := scan.cmd.opts;
    level := 0;
    depth := 1;
    var found, dirs := more, nextDirList;
    while found
      invariant scan.HandOffsThreaded() && scan.cmd.opts == o
      invariant WalkedTo(o, scan.cmd.cwd, e, fs, env, roots, base, skip, level, depth, dirs, scan.cmd.skipCnt, scan.Counters())
      invariant found <==> dirs != {}
      invariant found ==> level <= Deepest(fs)
      decreases Deepest(fs) - level
    {
      found, dirs, level, depth := WalkStep(scan, e, fs, env, roots, level, dirs, base, skip, depth);
    }
  }

  /** One turn of WalkFrom's loop: level `level` found `dirs`, so level `level + 1` is walked. */
  method WalkStep(scan: DupScan, e: Engine, fs: Fs, env: Env, roots: seq<string>, level: nat, dirs: set<string>,
                  ghost base: Effect, ghost skip: nat, ghost depth: nat)
    returns (found: bool, dirs': set<string>, level': nat, ghost depth': nat)
    requires WellFormed(fs) && |roots| >= 1 && scan.HandOffsThreaded() && dirs != {}
    requires WalkedTo(scan.cmd.opts, scan.cmd.cwd, e, fs, env, roots, base, skip, level, depth, dirs,
                      scan.cmd.skipCnt, scan.Counters())
    modifies scan, scan.cmd
    ensures scan.HandOffsThreaded() && scan.cmd.opts == old(scan.cmd.opts)
    ensures level' == level + 1
    ensures WalkedTo(scan.cmd.opts, scan.cmd.cwd, e, fs, env, roots, base, skip, level', depth', dirs',
                     scan.cmd.skipCnt, scan.Counters())
    ensures (found <==> dirs' != {}) && (found ==> level' <= Deepest(fs))
  {
    ghost var f := Frontiers(e, scan.cmd.opts.Gate(), fs, roots);
    assert f(depth) != {};
    level' := level + 1;
    depth' := level' + 1;
    found, dirs' := NextLevel(scan, e, fs, env, roots, level', dirs, base, skip, depth');
    assert LevelsFound(e, scan.cmd.opts.Gate(), fs, roots, level');
  }

  /** One findDuplicates call, at level `level`: the walk so far grows by that level. */
  method NextLevel(scan: DupScan, e: Engine, fs: Fs, env: Env, roots: seq<string>, level: nat, nextDirList: set<string>,
                   ghost base: Effect, ghost skip: nat, ghost after: nat)
    returns (more: bool, outDirList: set<string>)
    requires WellFormed(fs) && |roots| >= 1 && scan.HandOffsThreaded() && after == level + 1
    requires var o := scan.cmd.opts;
      nextDirList == Frontier(e, o.Gate(), fs, roots, level)
      && scan.cmd.skipCnt == skip + WalkSkips(e, o.Gate(), fs, roots, level)
      && scan.Counters() == base.Plus(EffectOf(o, WalkEvents(o, scan.cmd.cwd, e, fs, env, roots, level)))
    modifies scan, scan.cmd
    ensures scan.HandOffsThreaded() && scan.cmd.opts == old(scan.cmd.opts)
    ensures var o := scan.cmd.opts;
      outDirList == Frontier(e, o.Gate(), fs, roots, after) && (more <==> outDirList != {})
      && (more ==> level <= Deepest(fs))
      && scan.cmd.skipCnt == skip + WalkSkips(e, o.Gate(), fs, roots, after)
      && scan.Counters() == base.Plus(EffectOf(o, WalkEvents(o, scan.cmd.cwd, e, fs, env, roots, after)))
  {
    ghost var o := scan.cmd.opts;
    ghost var before := WalkEvents(o, scan.cmd.cwd, e, fs, env, roots, level);
    ghost var step := ScanEvents(o, scan.cmd.cwd, e, fs, env, false, roots, nextDirList);
    more, outDirList := scan.FindDuplicates(e, fs, env, false, roots, nextDirList);
    EffectOfAppend(base, o, before, step);
    if more {
      FrontierEnds(e, o.Gate(), fs, roots, level);
    }
  }

  /* ---------------------------------------------------------------- */
  /* The main routine's choice of work                                 */

  /** What the main routine does with its extra arguments once begin succeeded. */
  datatype Branch = NoScan | FromInput | FlatWalk | TwoRootWalk

  /**
   * Nothing is scanned after a pattern or option error or without
   * arguments; a lone "-" reads the paths from standard input; two roots
   * compared by name (extensions kept) take the level walk; anything else
   * is walked path by path.
   */
  function ChooseBranch(patternErrCnt: nat, optionErrCnt: nat, o: Options, args: seq<string>): (b: Branch)
    ensures b == NoScan <==> patternErrCnt != 0 || optionErrCnt != 0 || args == []
    ensures b == FromInput <==> b != NoScan && args == ["-"]
    ensures b == TwoRootWalk <==> b != NoScan && |args| == 2 && o.sameName && !o.ignoreExtn
    ensures b == FlatWalk <==> b != NoScan && args != ["-"] && !(|args| == 2 && o.sameName && !o.ignoreExtn)
  {
    if patternErrCnt != 0 || optionErrCnt != 0 || args == [] then NoScan
    else if |args| == 1 && args[0] == "-" then FromInput
    else if o.ignoreExtn || !o.sameName || |args| != 2 then FlatWalk
    else TwoRootWalk
  }

  /** The paths the flat loops walk: the lines of standard input, the arguments, or none. */
  function FlatPaths(b: Branch, args: seq<string>, input: seq<string>): (ps: seq<string>)
    ensures b == FromInput ==> ps == input
    ensures b == FlatWalk ==> ps == args
    ensures b == NoScan || b == TwoRootWalk ==> ps == []
  {
    match b
    case FromInput => input
    case FlatWalk => args
    case _ => []
  }

  /** The table begin leaves: empty, with lastPath kept. */
  function Begun(lastPath: string): (t: Table)
    ensures t.Valid() && t.fileList == map[] && t.pathList == [] && t.lastPath == lastPath
  {
    Table(map[], [], lastPath, 0)
  }

  /**
   * How the two-root branch ends after `depth` findDuplicates calls: at
   * once when the signal is down, otherwise once a level finds no
   * directory, every level before it having found one; `skip` is `skip0`
   * plus what the levels skipped.
   */
  ghost predicate TwoRootsEnded(e: Engine, g: Filters, fs: Fs, aborted: bool, roots: seq<string>, level: nat, depth: nat,
                                skip0: nat, skip: nat)
  {
    depth == level + 1
    && (aborted ==> level == 0 && skip == skip0)
    && (!aborted ==> Frontier(e, g, fs, roots, depth) == {} && LevelsFound(e, g, fs, roots, level)
                     && skip == skip0 + WalkSkips(e, g, fs, roots, depth))
  }

  /** What the two-root branch adds to the counters and the deletion log. */
  ghost function TwoRootsEffect(o: Options, cwd: string, e: Engine, fs: Fs, env: Env, aborted: bool, roots: seq<string>,
                                depth: nat): Effect
    requires |roots| >= 1
  {
    if aborted then NONE else EffectOf(o, WalkEvents(o, cwd, e, fs, env, roots, depth))
  }

  /**
   * The two-root branch: a DupScan over the Command, findDuplicates level
   * after level until a level finds no directory or the signal is down,
   * then done.
   */
  method WalkTwoRoots(d: DupFiles, e: Engine, fs: Fs, env: Env, aborted: bool, roots: seq<string>) returns (level: nat, ghost depth: nat)
    requires WellFormed(fs) && |roots| == 2
    modifies d.cmd
    ensures d.cmd.opts == old(d.cmd.opts)
    ensures TwoRootsEnded(e, d.cmd.opts.Gate(), fs, aborted, roots, level, depth, old(d.cmd.skipCnt), d.cmd.skipCnt)
    ensures var eff := TwoRootsEffect(d.cmd.opts, d.cmd.cwd, e, fs, env, aborted, roots, depth);
      d.cmd.sameCnt == old(d.cmd.sameCnt) + eff.same && d.cmd.diffCnt == old(d.cmd.diffCnt) + eff.diff
      && d.cmd.missCnt == old(d.cmd.missCnt) + eff.miss && d.cmd.deleteLog == old(d.cmd.deleteLog) + eff.dels
  {
    var scan := new DupScan(d.cmd);
    level, depth := WalkLevels(scan, e, fs, env, aborted, roots);
    var waited := scan.Done();
  }

  /**
   * The chosen branch, after begin emptied the table: the flat loops over
   * the input lines or the arguments, or the two-root walk.
   */
  method ScanBranch(d: DupFiles, e: Engine, fs: Fs, env: Env, aborted: bool, b: Branch, args: seq<string>,
                    input: seq<string>)
    returns (level: nat, ghost depth: nat, counts: seq<nat>)
    requires WellFormed(fs) && d.Valid() && d.pathList == []
    requires b == TwoRootWalk ==> |args| == 2
    requires |VisitAll(fs, aborted, FlatPaths(b, args, input))| < UINT_MAX
    modifies d, d.cmd
    ensures depth == level + 1
    ensures d.Valid() && d.cmd.opts == old(d.cmd.opts)
    ensures var g := d.cmd.opts.Gate();
      var vs := VisitAll(fs, aborted, FlatPaths(b, args, input));
      counts == Checked(e, g, fs, aborted, FlatPaths(b, args, input))
      && (b != TwoRootWalk ==>
            level == 0 && OthersKept(d)
            && Walked(e, g, old(d.State()), old(d.added), old(d.cmd.skipCnt), vs,
                      d.State(), d.added, d.cmd.skipCnt, |Accepted(e, g, vs)|))
    ensures b == TwoRootWalk ==>
      d.State() == old(d.State()) && d.added == old(d.added)
      && TwoRootsEnded(e, d.cmd.opts.Gate(), fs, aborted, args, level, depth, old(d.cmd.skipCnt), d.cmd.skipCnt)
    ensures b == TwoRootWalk ==>
      var eff := TwoRootsEffect(d.cmd.opts, d.cmd.cwd, e, fs, env, aborted, args, depth);
      d.cmd.sameCnt == old(d.cmd.sameCnt) + eff.same && d.cmd.diffCnt == old(d.cmd.diffCnt) + eff.diff
      && d.cmd.missCnt == old(d.cmd.missCnt) + eff.miss && d.cmd.deleteLog == old(d.cmd.deleteLog) + eff.dels
  {
    level, depth := 0, 1;
    counts := [];
    if b == FromInput || b == FlatWalk {
      counts := InspectAll(d, e, fs, aborted, FlatPaths(b, args, input));
    } else if b == TwoRootWalk {
      level, depth := WalkTwoRoots(d, e, fs, env, aborted, args);
    }
  }

  /**
   * The main routine after its options are parsed: begin, the chosen
   * branch, end. `input` holds the lines standard input would give.
   */
  method Run(d: DupFiles, e: Engine, fs: Fs, env: Env, aborted: bool, patternErrCnt: nat, optionErrCnt: nat,
             args: seq<string>, input: seq<string>)
    returns (b: Branch, level: nat, ghost depth: nat, counts: seq<nat>)
    requires WellFormed(fs) && d.Valid()
    requires var b := ChooseBranch(patternErrCnt, optionErrCnt, d.cmd.opts, args);
      |VisitAll(fs, aborted, FlatPaths(b, args, input))| < UINT_MAX
    modifies d, d.cmd
    ensures depth == level + 1
    ensures b == ChooseBranch(patternErrCnt, optionErrCnt, d.cmd.opts, args)
    ensures d.Valid() && d.cmd.opts == old(d.cmd.opts)
    ensures var g := d.cmd.opts.Gate();
      var vs := VisitAll(fs, aborted, FlatPaths(b, args, input));
      counts == Checked(e, g, fs, aborted, FlatPaths(b, args, input))
      && (b != TwoRootWalk ==>
            level == 0
            && Walked(e, g, Begun(old(d.lastPath)), [], old(d.cmd.skipCnt), vs,
                      d.State(), d.added, d.cmd.skipCnt, |Accepted(e, g, vs)|))
    ensures b != TwoRootWalk ==>
      var rep := EndReport(d.cmd.opts, e, d.cmd.cwd, fs, env, d.fileList, d.pathList);
      d.cmd.sameCnt == old(d.cmd.sameCnt) + rep.same && d.cmd.diffCnt == old(d.cmd.diffCnt) + rep.diff
      && d.cmd.missCnt == old(d.cmd.missCnt) && d.cmd.deleteLog == old(d.cmd.deleteLog) + rep.dels
    ensures b == TwoRootWalk ==>
      d.State() == Begun(old(d.lastPath)) && d.added == []
      && TwoRootsEnded(e, d.cmd.opts.Gate(), fs, aborted, args, level, depth, old(d.cmd.skipCnt), d.cmd.skipCnt)
    ensures b == TwoRootWalk ==>
      var rep := EndReport(d.cmd.opts, e, d.cmd.cwd, fs, env, d.fileList, d.pathList);
      var eff := TwoRootsEffect(d.cmd.opts, d.cmd.cwd, e, fs, env, aborted, args, depth);
      d.cmd.sameCnt == old(d.cmd.sameCnt) + eff.same + rep.same
      && d.cmd.diffCnt == old(d.cmd.diffCnt) + eff.diff + rep.diff
      && d.cmd.missCnt == old(d.cmd.missCnt) + eff.miss
      && d.cmd.deleteLog == old(d.cmd.deleteLog) + eff.dels + rep.dels
  {
    var begun := d.Begin(args);
    b := ChooseBranch(patternErrCnt, optionErrCnt, d.cmd.opts, args);
    level, depth, counts := ScanBranch(d, e, fs, env, aborted, b, args, input);
    var ended := d.End(e, fs, env);
  }
}
