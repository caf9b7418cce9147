/**
 * DupFiles (command.hpp, command.cpp): the flat duplicate scan. `add`
 * records every accepted file in the table of DupTable; `end` reports the
 * duplicates of the table in one of four modes (DupReport). The four
 * file-scope globals of command.cpp are fields here; the Command part is
 * the `cmd` object, which holds the options, counters and deletion log.
 */
module DupFilesSession {
  import opened Seqs
  import opened Paths
  import opened Patterns
  import opened Folds
  import opened Buckets
  import opened Ordering
  import opened FileSystem
  import opened DupTable
  import opened DupReport
  import opened Commands

  class DupFiles {
    const cmd: Command
    var fileList: map<string, seq<nat>>
    var pathList: seq<string>
    var lastPath: string
    var lastPathIdx: nat
    /** The files accepted since the last begin, in order. */
    ghost var added: seq<string>

    /**
     * lastPath is the entry at lastPathIdx once there is one, the table
     * holds exactly the accepted files, and indices fit an unsigned int.
     */
    ghost predicate Valid()
      reads this
    {
      Linked(pathList, lastPath, lastPathIdx)
      && Represents(fileList, pathList, added)
      && |pathList| < UINT_MAX
    }

    function State(): Table
      reads this
    {
      Table(fileList, pathList, lastPath, lastPathIdx)
    }

    /** DupFiles(): a Command with code 'f' and the globals as initialised. */
    constructor(workDir: string)
      ensures Valid() && fresh(cmd)
      ensures cmd.opts == DEFAULTS && cmd.code == 'f' && cmd.cwd == workDir
      ensures cmd.sameCnt == 0 && cmd.diffCnt == 0 && cmd.missCnt == 0 && cmd.skipCnt == 0 && cmd.deleteLog == []
      ensures fileList == map[] && pathList == [] && lastPath == [] && lastPathIdx == 0 && added == []
    {
      cmd := new Command('f', workDir);
      fileList := map[];
      pathList := [];
      lastPath := [];
      lastPathIdx := 0;
      added := [];
    }

    /** begin: empty the table; lastPath is kept. There is always something to do. */
    method Begin(fileDirList: seq<string>) returns (r: bool)
      modifies this
      ensures r && Valid()
      ensures fileList == map[] && pathList == [] && lastPathIdx == 0 && added == []
      ensures lastPath == old(lastPath)
    {
      fileList := map[];
      pathList := [];
      lastPathIdx := 0;
      added := [];
      r := true;
    }

    /**
     * add: when validFile accepts the file, intern its directory prefix and
     * record the prefix's index under the file's name.
     */
    method Add(e: Engine, fullname: string) returns (fileCount: nat)
      requires Valid() && |pathList| + 1 < UINT_MAX
      modifies this, cmd
      ensures Valid()
      ensures var ok := Accepts(e, old(cmd.opts).Gate(), GetName(fullname), fullname);
        fileCount == (if ok then 1 else 0) && cmd.skipCnt == old(cmd.skipCnt) + (if ok then 0 else 1)
      ensures var ok := Accepts(e, old(cmd.opts).Gate(), GetName(fullname), fullname);
        ok ==> State() == AddStep(old(State()), true, fullname) && added == old(added) + [fullname]
      ensures var ok := Accepts(e, old(cmd.opts).Gate(), GetName(fullname), fullname);
        !ok ==> State() == old(State()) && added == old(added)
      ensures cmd.opts == old(cmd.opts) && cmd.deleteLog == old(cmd.deleteLog)
      ensures cmd.sameCnt == old(cmd.sameCnt) && cmd.diffCnt == old(cmd.diffCnt) && cmd.missCnt == old(cmd.missCnt)
    {
      fileCount := 0;
      ghost var t0 := State();
      var name := GetName(fullname);
      var isValid := cmd.ValidFile(e, name, fullname);
      assert State() == t0;
      if isValid {
        Record(fullname, name);
        fileCount := 1;
      }
    }

    /** The accepted half of add: the prefix is interned and the name records its index. */
    method Record(fullname: string, name: string)
      requires Valid() && |pathList| + 1 < UINT_MAX && name == GetName(fullname)
      modifies this
      ensures Valid()
      ensures State() == AddStep(old(State()), true, fullname) && added == old(added) + [fullname]
    {
      var path := fullname[..|fullname| - |name|];
      ghost var before := State();
      ghost var i := Intern(pathList, lastPath, lastPathIdx, path);
      AddStepAccepted(before, fullname);
      if pathList == [] || lastPath != path {
        Locate(path);
      }
      assert pathList == i.pathList && lastPathIdx == i.idx && lastPath == path;
      assert fileList == before.fileList;
      fileList := fileList[name := Get(fileList, name) + [lastPathIdx]];
      assert path == DirPrefix(fullname);
      assert State() == Table(before.fileList[name := Get(before.fileList, name) + [i.idx]], i.pathList, path, i.idx);
      AddStepRepresents(before, added, fullname);
      AddStepGrows(before, true, fullname);
      added := added + [fullname];
    }

    /**
     * The search of add for a prefix other than lastPath: while the prefix
     * starts lastPath, look for it below lastPathIdx from the top; when it is
     * not found (or does not start lastPath), append it to pathList.
     */
    method Locate(path: string)
      requires Linked(pathList, lastPath, lastPathIdx) && |pathList| + 1 < UINT_MAX
      requires pathList == [] || lastPath != path
      modifies this
      ensures var i := Intern(old(pathList), old(lastPath), old(lastPathIdx), path);
        pathList == i.pathList && lastPathIdx == i.idx && lastPath == path
      ensures fileList == old(fileList) && added == old(added)
    {
      if path <= lastPath {
        ghost var start := lastPathIdx as int - 1;
        lastPathIdx := Dec(lastPathIdx);
        while lastPathIdx < |pathList|
          invariant pathList == old(pathList) && fileList == old(fileList) && added == old(added)
          invariant -1 <= start < |pathList|
          invariant lastPathIdx <= UINT_MAX
          invariant lastPathIdx < |pathList| ==> SearchDown(pathList, path, start) == SearchDown(pathList, path, lastPathIdx)
          invariant lastPathIdx >= |pathList| ==> SearchDown(pathList, path, start) == -1
          decreases if lastPathIdx < |pathList| then lastPathIdx + 1 else 0
        {
          lastPath := pathList[lastPathIdx];
          if lastPath == path {
            break;
          }
          lastPathIdx := Dec(lastPathIdx);
        }
      } else {
        lastPathIdx := UINT_MAX;
      }
      if lastPathIdx >= |pathList| {
        lastPathIdx := |pathList|;
        lastPath := path;
        pathList := pathList + [lastPath];
      }
    }

    /** printPaths: each shown path of the entry that matches delDupPath is deleted. */
    method PrintPaths(e: Engine, idxs: seq<nat>, name: string)
      requires InRange(pathList, idxs)
      modifies cmd
      ensures cmd.deleteLog == old(cmd.deleteLog) + PrintDeletions(cmd.opts, e, cmd.cwd, pathList, idxs, name)
      ensures cmd.opts == old(cmd.opts)
      ensures cmd.sameCnt == old(cmd.sameCnt) && cmd.diffCnt == old(cmd.diffCnt)
      ensures cmd.missCnt == old(cmd.missCnt) && cmd.skipCnt == old(cmd.skipCnt)
    {
      var plIdx := 0;
      while plIdx < |idxs|
        invariant 0 <= plIdx <= |idxs|
        invariant cmd.deleteLog == old(cmd.deleteLog) + PrintDeletions(cmd.opts, e, cmd.cwd, pathList, idxs[..plIdx], name)
        invariant cmd.opts == old(cmd.opts)
        invariant cmd.sameCnt == old(cmd.sameCnt) && cmd.diffCnt == old(cmd.diffCnt)
        invariant cmd.missCnt == old(cmd.missCnt) && cmd.skipCnt == old(cmd.skipCnt)
      {
        var next := plIdx + 1;
        PrintPath(e, idxs, name, plIdx, next, old(cmd.deleteLog));
        plIdx := next;
      }
      assert idxs[..plIdx] == idxs;
    }

    /** One turn of the printPaths loop: the path of `idxs[plIdx]` shown, and deleted when it matches. */
    method PrintPath(e: Engine, idxs: seq<nat>, name: string, plIdx: nat, ghost next: nat, ghost log0: seq<Deletion>)
      requires InRange(pathList, idxs) && plIdx < |idxs| && next == plIdx + 1
      requires cmd.deleteLog == log0 + PrintDeletions(cmd.opts, e, cmd.cwd, pathList, idxs[..plIdx], name)
      modifies cmd
      ensures cmd.deleteLog == log0 + PrintDeletions(cmd.opts, e, cmd.cwd, pathList, idxs[..next], name)
      ensures cmd.opts == old(cmd.opts)
      ensures cmd.sameCnt == old(cmd.sameCnt) && cmd.diffCnt == old(cmd.diffCnt)
      ensures cmd.missCnt == old(cmd.missCnt) && cmd.skipCnt == old(cmd.skipCnt)
    {
      var filePath := cmd.Shown(pathList[idxs[plIdx]]) + name;
      ghost var shown := ShownPaths(cmd.cwd, cmd.opts.showAbsPath, pathList, idxs[..plIdx], name);
      assert idxs[..next][..plIdx] == idxs[..plIdx];
      assert ShownPaths(cmd.cwd, cmd.opts.showAbsPath, pathList, idxs[..next], name) == shown + [filePath];
      DeletionsAppend(cmd.opts, e, shown, [filePath]);
      assert [filePath][..0] == [];
      if FileMatches(e, filePath, cmd.opts.delDupPath, false) {
        cmd.DeleteFile(filePath);
      }
    }
  
    /** The body of the name-only loop for one name: counted and printed when under several directories. */
    method JustNameEntry(e: Engine, k: string)
      requires Indexed(fileList, pathList) && k in fileList
      modifies cmd
      ensures cmd.sameCnt == old(cmd.sameCnt) + Excess(|fileList[k]|)
      ensures cmd.deleteLog == old(cmd.deleteLog)
        + (if |fileList[k]| > 1 then PrintDeletions(cmd.opts, e, cmd.cwd, pathList, fileList[k], k) else [])
      ensures cmd.opts == old(cmd.opts)
      ensures cmd.diffCnt == old(cmd.diffCnt) && cmd.missCnt == old(cmd.missCnt) && cmd.skipCnt == old(cmd.skipCnt)
    {
      var idxs := fileList[k];
      if |idxs| > 1 {
        cmd.sameCnt := cmd.sameCnt + (|idxs| - 1);
        PrintPaths(e, idxs, k);
      }
    }

    /**
     * One step of the name-only loop: the next name in key order goes
     * through the body. `same0` and `log0` are the counter and the log
     * before the loop.
     */
    method VisitName(e: Engine, ghost done: seq<string>, rest: set<string>, ghost same0: int, ghost log0: seq<Deletion>)
      returns (k: string)
      requires Indexed(fileList, pathList) && rest != {} && rest <= fileList.Keys
      requires SortedStrings(fileList.Keys) == done + SortedStrings(rest)
      requires cmd.sameCnt == same0 + ExcessAlong(fileList, done)
      requires cmd.deleteLog == log0 + JustNameDeletions(cmd.opts, e, cmd.cwd, fileList, pathList, done)
      modifies cmd
      ensures k in rest && SortedStrings(fileList.Keys) == (done + [k]) + SortedStrings(rest - {k})
      ensures cmd.sameCnt == same0 + ExcessAlong(fileList, done + [k])
      ensures cmd.deleteLog == log0 + JustNameDeletions(cmd.opts, e, cmd.cwd, fileList, pathList, done + [k])
      ensures cmd.opts == old(cmd.opts)
      ensures cmd.diffCnt == old(cmd.diffCnt) && cmd.missCnt == old(cmd.missCnt) && cmd.skipCnt == old(cmd.skipCnt)
    {
      k := NextString(fileList.Keys, done, rest);
      ExcessAlongSnoc(fileList, done, k);
      JustNameDeletionsSnoc(log0, cmd.opts, e, cmd.cwd, fileList, pathList, done, k);
      JustNameEntry(e, k);
    }

    /** The name-only mode: each name under more than one directory, in name order. */
    method ReportJustName(e: Engine)
      requires Indexed(fileList, pathList)
      modifies cmd
      ensures cmd.sameCnt == old(cmd.sameCnt) + ExcessAlong(fileList, SortedStrings(fileList.Keys))
      ensures cmd.deleteLog == old(cmd.deleteLog)
        + JustNameDeletions(cmd.opts, e, cmd.cwd, fileList, pathList, SortedStrings(fileList.Keys))
      ensures cmd.opts == old(cmd.opts)
      ensures cmd.diffCnt == old(cmd.diffCnt) && cmd.missCnt == old(cmd.missCnt) && cmd.skipCnt == old(cmd.skipCnt)
    {
      var rest := fileList.Keys;
      ghost var done: seq<string> := [];
      while rest != {}
        invariant rest <= fileList.Keys
        invariant SortedStrings(fileList.Keys) == done + SortedStrings(rest)
        invariant cmd.sameCnt == old(cmd.sameCnt) + ExcessAlong(fileList, done)
        invariant cmd.deleteLog == old(cmd.deleteLog) + JustNameDeletions(cmd.opts, e, cmd.cwd, fileList, pathList, done)
        invariant cmd.opts == old(cmd.opts)
        invariant cmd.diffCnt == old(cmd.diffCnt) && cmd.missCnt == old(cmd.missCnt) && cmd.skipCnt == old(cmd.skipCnt)
        decreases |rest|
      {
        var k := VisitName(e, done, rest, old(cmd.sameCnt), old(cmd.deleteLog));
        done := done + [k];
        rest := rest - {k};
      }
      StringsDone(fileList.Keys, done);
    }

    /** The printPaths of each name of a stem group. */
    method PrintNames(e: Engine, names: seq<string>)
      requires Indexed(fileList, pathList)
      requires forall j :: 0 <= j < |names| ==> names[j] in fileList
      modifies cmd
      ensures cmd.deleteLog == old(cmd.deleteLog) + NamesDeletions(cmd.opts, e, cmd.cwd, fileList, pathList, names)
      ensures cmd.opts == old(cmd.opts)
      ensures cmd.sameCnt == old(cmd.sameCnt) && cmd.diffCnt == old(cmd.diffCnt)
      ensures cmd.missCnt == old(cmd.missCnt) && cmd.skipCnt == old(cmd.skipCnt)
    {
      var i := 0;
      while i < |names|
        invariant 0 <= i <= |names|
        invariant cmd.deleteLog == old(cmd.deleteLog) + NamesDeletions(cmd.opts, e, cmd.cwd, fileList, pathList, names[..i])
        invariant cmd.opts == old(cmd.opts)
        invariant cmd.sameCnt == old(cmd.sameCnt) && cmd.diffCnt == old(cmd.diffCnt)
        invariant cmd.missCnt == old(cmd.missCnt) && cmd.skipCnt == old(cmd.skipCnt)
      {
        var next := i + 1;
        PrintName(e, names, i, next, old(cmd.deleteLog));
        i := next;
      }
      assert names[..i] == names;
    }

    /** One turn of the names loop: printPaths on the entry of `names[i]`. */
    method PrintName(e: Engine, names: seq<string>, i: nat, ghost next: nat, ghost log0: seq<Deletion>)
      requires Indexed(fileList, pathList) && i < |names| && next == i + 1 && names[i] in fileList
      requires cmd.deleteLog == log0 + NamesDeletions(cmd.opts, e, cmd.cwd, fileList, pathList, names[..i])
      modifies cmd
      ensures cmd.deleteLog == log0 + NamesDeletions(cmd.opts, e, cmd.cwd, fileList, pathList, names[..next])
      ensures cmd.opts == old(cmd.opts)
      ensures cmd.sameCnt == old(cmd.sameCnt) && cmd.diffCnt == old(cmd.diffCnt)
      ensures cmd.missCnt == old(cmd.missCnt) && cmd.skipCnt == old(cmd.skipCnt)
    {
      var name := names[i];
      assert names[..next] == names[..i] + [name];
      NamesDeletionsSnoc(log0, cmd.opts, e, cmd.cwd, fileList, pathList, names[..i], name);
      PrintPaths(e, fileList[name], name);
    }

    /** The name-only mode with extensions ignored: names grouped by stem. */
    method ReportStems(e: Engine, env: Env)
      requires Indexed(fileList, pathList)
      modifies cmd
      ensures cmd.sameCnt == old(cmd.sameCnt) + ExcessAlong(NoExtn(env, fileList), SortedStrings(NoExtn(env, fileList).Keys))
      ensures cmd.deleteLog == old(cmd.deleteLog)
        + StemDeletions(cmd.opts, e, cmd.cwd, fileList, pathList, NoExtn(env, fileList), SortedStrings(NoExtn(env, fileList).Keys))
      ensures cmd.opts == old(cmd.opts)
      ensures cmd.diffCnt == old(cmd.diffCnt) && cmd.missCnt == old(cmd.missCnt) && cmd.skipCnt == old(cmd.skipCnt)
    {
      var noExtnList := GroupByStem(env, fileList);
      NoExtnNamesOf(env, fileList);
      ReportStemGroups(e, noExtnList);
    }

    /** One stem of the stem mode: counted and printed when several names share it. */
    method StemEntry(e: Engine, names: seq<string>)
      requires Indexed(fileList, pathList)
      requires forall j :: 0 <= j < |names| ==> names[j] in fileList
      modifies cmd
      ensures cmd.sameCnt == old(cmd.sameCnt) + Excess(|names|)
      ensures cmd.deleteLog == old(cmd.deleteLog)
        + (if |names| > 1 then NamesDeletions(cmd.opts, e, cmd.cwd, fileList, pathList, names) else [])
      ensures cmd.opts == old(cmd.opts)
      ensures cmd.diffCnt == old(cmd.diffCnt) && cmd.missCnt == old(cmd.missCnt) && cmd.skipCnt == old(cmd.skipCnt)
    {
      if |names| > 1 {
        cmd.sameCnt := cmd.sameCnt + (|names| - 1);
        PrintNames(e, names);
      }
    }

    /** One step of the second stem loop: the next stem in key order goes through StemEntry. */
    method VisitStem(e: Engine, noExtnList: map<string, seq<string>>, ghost done: seq<string>, rest: set<string>,
                     ghost same0: int, ghost log0: seq<Deletion>)
      returns (s: string)
      requires Indexed(fileList, pathList) && NamesOf(noExtnList, fileList)
      requires rest != {} && rest <= noExtnList.Keys
      requires SortedStrings(noExtnList.Keys) == done + SortedStrings(rest)
      requires cmd.sameCnt == same0 + ExcessAlong(noExtnList, done)
      requires cmd.deleteLog == log0 + StemDeletions(cmd.opts, e, cmd.cwd, fileList, pathList, noExtnList, done)
      modifies cmd
      ensures s in rest && SortedStrings(noExtnList.Keys) == (done + [s]) + SortedStrings(rest - {s})
      ensures cmd.sameCnt == same0 + ExcessAlong(noExtnList, done + [s])
      ensures cmd.deleteLog == log0 + StemDeletions(cmd.opts, e, cmd.cwd, fileList, pathList, noExtnList, done + [s])
      ensures cmd.opts == old(cmd.opts)
      ensures cmd.diffCnt == old(cmd.diffCnt) && cmd.missCnt == old(cmd.missCnt) && cmd.skipCnt == old(cmd.skipCnt)
    {
      s := NextString(noExtnList.Keys, done, rest);
      ExcessAlongSnoc(noExtnList, done, s);
      StemDeletionsSnoc(log0, cmd.opts, e, cmd.cwd, fileList, pathList, noExtnList, done, s);
      StemEntry(e, noExtnList[s]);
    }

    /** The second loop of the stem mode: each stem shared by more than one name, in stem order. */
    method ReportStemGroups(e: Engine, noExtnList: map<string, seq<string>>)
      requires Indexed(fileList, pathList) && NamesOf(noExtnList, fileList)
      modifies cmd
      ensures cmd.sameCnt == old(cmd.sameCnt) + ExcessAlong(noExtnList, SortedStrings(noExtnList.Keys))
      ensures cmd.deleteLog == old(cmd.deleteLog)
        + StemDeletions(cmd.opts, e, cmd.cwd, fileList, pathList, noExtnList, SortedStrings(noExtnList.Keys))
      ensures cmd.opts == old(cmd.opts)
      ensures cmd.diffCnt == old(cmd.diffCnt) && cmd.missCnt == old(cmd.missCnt) && cmd.skipCnt == old(cmd.skipCnt)
    {
      var rest := noExtnList.Keys;
      ghost var done: seq<string> := [];
      while rest != {}
        invariant rest <= noExtnList.Keys
        invariant SortedStrings(noExtnList.Keys) == done + SortedStrings(rest)
        invariant cmd.sameCnt == old(cmd.sameCnt) + ExcessAlong(noExtnList, done)
        invariant cmd.deleteLog == old(cmd.deleteLog)
          + StemDeletions(cmd.opts, e, cmd.cwd, fileList, pathList, noExtnList, done)
        invariant cmd.opts == old(cmd.opts)
        invariant cmd.diffCnt == old(cmd.diffCnt) && cmd.missCnt == old(cmd.missCnt) && cmd.skipCnt == old(cmd.skipCnt)
        decreases |rest|
      {
        var s := VisitStem(e, noExtnList, done, rest, old(cmd.sameCnt), old(cmd.deleteLog));
        done := done + [s];
        rest := rest - {s};
      }
      StringsDone(noExtnList.Keys, done);
    }

    /**
     * The first loop of the same-name mode for one name: hashDups tallies
     * the hash of each instance, and fileHash maps each full path to its hash.
     */
    method HashInstances(fs: Fs, env: Env, name: string, idxs: seq<nat>)
      returns (hashDups: map<nat, nat>, fileHash: map<string, nat>)
      requires InRange(pathList, idxs)
      ensures hashDups == Tally(Hashes(fs, env, FullPaths(pathList, name, idxs)))
      ensures forall p :: p in fileHash ==> fileHash[p] == Hash(fs, env, p)
      ensures forall j :: 0 <= j < |idxs| ==> pathList[idxs[j]] + name in fileHash
    {
      ghost var hs := Hashes(fs, env, FullPaths(pathList, name, idxs));
      hashDups, fileHash := map[], map[];
      var plIdx := 0;
      while plIdx < |idxs|
        invariant plIdx <= |idxs|
        invariant hashDups == Tally(hs[..plIdx])
        invariant forall p :: p in fileHash ==> fileHash[p] == Hash(fs, env, p)
        invariant forall j :: 0 <= j < plIdx ==> pathList[idxs[j]] + name in fileHash
      {
        var fullPath := pathList[idxs[plIdx]] + name;
        var hashValue := Hash(fs, env, fullPath);
        FullPathsIndex(pathList, name, idxs, plIdx);
        TallyPrefix(hs, plIdx);
        hashDups := hashDups[hashValue := (if hashValue in hashDups then hashDups[hashValue] else 0) + 1];
        fileHash := fileHash[fullPath := hashValue];
        plIdx := plIdx + 1;
      }
      assert hs[..|idxs|] == hs;
    }

    /**
     * The second loop of the same-name mode for one name. Verbose: each
     * instance is a duplicate (counted, and deleted when it matches
     * delDupPath) or a difference. Otherwise the instances whose isDup
     * differs from invert are pushed into hashFileList under their hash.
     */
    method ClassifyInstances(e: Engine, fs: Fs, env: Env, name: string, idxs: seq<nat>,
                             hashDups: map<nat, nat>, fileHash: map<string, nat>)
      returns (hashFileList: map<nat, seq<nat>>)
      requires InRange(pathList, idxs)
      requires hashDups == Tally(Hashes(fs, env, FullPaths(pathList, name, idxs)))
      requires forall p :: p in fileHash ==> fileHash[p] == Hash(fs, env, p)
      requires forall j :: 0 <= j < |idxs| ==> pathList[idxs[j]] + name in fileHash
      modifies cmd
      ensures var paths := FullPaths(pathList, name, idxs);
        var dups := Kept(paths, DupFlags(Hashes(fs, env, paths)));
        if cmd.opts.verbose then
          cmd.sameCnt == old(cmd.sameCnt) + |dups| && cmd.diffCnt == old(cmd.diffCnt) + (|idxs| - |dups|)
          && cmd.deleteLog == old(cmd.deleteLog) + Deletions(cmd.opts, e, dups)
        else
          cmd.sameCnt == old(cmd.sameCnt) && cmd.diffCnt == old(cmd.diffCnt) && cmd.deleteLog == old(cmd.deleteLog)
          && hashFileList == HashBuckets(fs, env, pathList, name, idxs, cmd.opts.invert)
      ensures cmd.opts == old(cmd.opts) && cmd.missCnt == old(cmd.missCnt) && cmd.skipCnt == old(cmd.skipCnt)
    {
      if cmd.opts.verbose {
        hashFileList := map[];
        ShowInstances(e, fs, env, name, idxs, hashDups, fileHash);
      } else {
        hashFileList := GroupInstances(fs, env, pathList, name, idxs, hashDups, fileHash, cmd.opts.invert);
      }
    }

    /** The verbose branch of the second loop. */
    method ShowInstances(e: Engine, fs: Fs, env: Env, name: string, idxs: seq<nat>,
                         hashDups: map<nat, nat>, fileHash: map<string, nat>)
      requires InRange(pathList, idxs)
      requires hashDups == Tally(Hashes(fs, env, FullPaths(pathList, name, idxs)))
      requires forall p :: p in fileHash ==> fileHash[p] == Hash(fs, env, p)
      requires forall j :: 0 <= j < |idxs| ==> pathList[idxs[j]] + name in fileHash
      modifies cmd
      ensures var paths := FullPaths(pathList, name, idxs);
        var dups := Kept(paths, DupFlags(Hashes(fs, env, paths)));
        cmd.sameCnt == old(cmd.sameCnt) + |dups| && cmd.diffCnt == old(cmd.diffCnt) + (|idxs| - |dups|)
        && cmd.deleteLog == old(cmd.deleteLog) + Deletions(cmd.opts, e, dups)
      ensures cmd.opts == old(cmd.opts) && cmd.missCnt == old(cmd.missCnt) && cmd.skipCnt == old(cmd.skipCnt)
    {
      ghost var paths := FullPaths(pathList, name, idxs);
      ghost var hs := Hashes(fs, env, paths);
      ghost var flags := DupFlags(hs);
      var plIdx := 0;
      while plIdx < |idxs|
        invariant plIdx <= |idxs|
        invariant cmd.opts == old(cmd.opts) && cmd.missCnt == old(cmd.missCnt) && cmd.skipCnt == old(cmd.skipCnt)
        invariant var dups := Kept(paths[..plIdx], flags[..plIdx]);
          cmd.sameCnt == old(cmd.sameCnt) + |dups| && cmd.diffCnt == old(cmd.diffCnt) + (plIdx - |dups|)
          && cmd.deleteLog == old(cmd.deleteLog) + Deletions(cmd.opts, e, dups)
      {
        var fullPath := pathList[idxs[plIdx]] + name;
        var hashValue := fileHash[fullPath];
        FullPathsIndex(pathList, name, idxs, plIdx);
        DupFlagOf(hs, plIdx);
        var isDup := hashDups[hashValue] != 1;
        KeptPrefix(paths, flags, plIdx);
        ShowInstance(e, fullPath, isDup, plIdx, Kept(paths[..plIdx], flags[..plIdx]),
                     old(cmd.sameCnt), old(cmd.diffCnt), old(cmd.deleteLog));
        plIdx := plIdx + 1;
      }
      KeptAll(paths, flags);
    }

    /**
     * One instance of the verbose branch, `dups` being the duplicates
     * among the `seen` instances before it: a duplicate is counted and
     * deleted when it matches delDupPath, any other instance is a difference.
     */
    method ShowInstance(e: Engine, fullPath: string, isDup: bool, ghost seen: nat, ghost dups: seq<string>,
                        ghost same0: int, ghost diff0: int, ghost log0: seq<Deletion>)
      requires cmd.sameCnt == same0 + |dups| && cmd.diffCnt == diff0 + (seen - |dups|)
      requires cmd.deleteLog == log0 + Deletions(cmd.opts, e, dups)
      modifies cmd
      ensures var dups' := dups + (if isDup then [fullPath] else []);
        cmd.sameCnt == same0 + |dups'| && cmd.diffCnt == diff0 + (seen + 1 - |dups'|)
        && cmd.deleteLog == log0 + Deletions(cmd.opts, e, dups')
      ensures cmd.opts == old(cmd.opts) && cmd.missCnt == old(cmd.missCnt) && cmd.skipCnt == old(cmd.skipCnt)
    {
      DeletionsSnoc(log0, cmd.opts, e, dups, fullPath);
      if isDup {
        cmd.sameCnt := cmd.sameCnt + 1;
        if FileMatches(e, fullPath, cmd.opts.delDupPath, false) {
          cmd.DeleteFile(fullPath);
        }
      } else {
        assert dups + [] == dups;
        cmd.diffCnt := cmd.diffCnt + 1;
      }
    }

    /** The members of one hash bucket of more than one instance: each is counted, and deleted when it matches. */
    method ReportBucket(e: Engine, name: string, matchList: seq<nat>)
      requires InRange(pathList, matchList)
      modifies cmd
      ensures cmd.sameCnt == old(cmd.sameCnt) + |matchList|
      ensures cmd.deleteLog == old(cmd.deleteLog) + Deletions(cmd.opts, e, FullPaths(pathList, name, matchList))
      ensures cmd.opts == old(cmd.opts)
      ensures cmd.diffCnt == old(cmd.diffCnt) && cmd.missCnt == old(cmd.missCnt) && cmd.skipCnt == old(cmd.skipCnt)
    {
      var mIdx := 0;
      while mIdx < |matchList|
        invariant mIdx <= |matchList|
        invariant cmd.sameCnt == old(cmd.sameCnt) + mIdx
        invariant cmd.deleteLog == old(cmd.deleteLog) + Deletions(cmd.opts, e, FullPaths(pathList, name, matchList[..mIdx]))
        invariant cmd.opts == old(cmd.opts)
        invariant cmd.diffCnt == old(cmd.diffCnt) && cmd.missCnt == old(cmd.missCnt) && cmd.skipCnt == old(cmd.skipCnt)
      {
        ReportMember(e, name, matchList, mIdx, old(cmd.deleteLog));
        mIdx := mIdx + 1;
      }
      assert matchList[..|matchList|] == matchList;
    }

    /** One member of a reported hash bucket. */
    method ReportMember(e: Engine, name: string, matchList: seq<nat>, mIdx: nat, ghost log0: seq<Deletion>)
      requires InRange(pathList, matchList) && mIdx < |matchList|
      requires cmd.deleteLog == log0 + Deletions(cmd.opts, e, FullPaths(pathList, name, matchList[..mIdx]))
      modifies cmd
      ensures cmd.sameCnt == old(cmd.sameCnt) + 1
      ensures cmd.deleteLog == log0 + Deletions(cmd.opts, e, FullPaths(pathList, name, matchList[..mIdx + 1]))
      ensures cmd.opts == old(cmd.opts)
      ensures cmd.diffCnt == old(cmd.diffCnt) && cmd.missCnt == old(cmd.missCnt) && cmd.skipCnt == old(cmd.skipCnt)
    {
      var fullPath := pathList[matchList[mIdx]] + name;
      assert matchList[..mIdx + 1][..mIdx] == matchList[..mIdx];
      DeletionsSnoc(log0, cmd.opts, e, FullPaths(pathList, name, matchList[..mIdx]), fullPath);
      cmd.sameCnt := cmd.sameCnt + 1;
      if FileMatches(e, fullPath, cmd.opts.delDupPath, false) {
        cmd.DeleteFile(fullPath);
      }
    }

    /** One step of the third loop: the next hash in key order, reported when its bucket holds several instances. */
    method VisitHash(e: Engine, name: string, hashFileList: map<nat, seq<nat>>, ghost done: seq<nat>, rest: set<nat>,
                     ghost same0: int, ghost log0: seq<Deletion>)
      returns (h: nat)
      requires forall h :: h in hashFileList ==> InRange(pathList, hashFileList[h])
      requires rest != {} && rest <= hashFileList.Keys
      requires SortedNats(hashFileList.Keys) == done + SortedNats(rest)
      requires cmd.sameCnt == same0 + CrowdedAlong(hashFileList, done)
      requires cmd.deleteLog == log0 + CrowdDeletions(cmd.opts, e, pathList, name, hashFileList, done)
      modifies cmd
      ensures h in rest && SortedNats(hashFileList.Keys) == (done + [h]) + SortedNats(rest - {h})
      ensures cmd.sameCnt == same0 + CrowdedAlong(hashFileList, done + [h])
      ensures cmd.deleteLog == log0 + CrowdDeletions(cmd.opts, e, pathList, name, hashFileList, done + [h])
      ensures cmd.opts == old(cmd.opts)
      ensures cmd.diffCnt == old(cmd.diffCnt) && cmd.missCnt == old(cmd.missCnt) && cmd.skipCnt == old(cmd.skipCnt)
    {
      h := NextNat(hashFileList.Keys, done, rest);
      CrowdedAlongSnoc(hashFileList, done, h);
      CrowdDeletionsSnoc(log0, cmd.opts, e, pathList, name, hashFileList, done, h);
      if |hashFileList[h]| > 1 {
        ReportBucket(e, name, hashFileList[h]);
      }
    }

    /** The third loop of the same-name mode: each hash bucket of more than one instance, in hash order. */
    method ReportHashBuckets(e: Engine, name: string, hashFileList: map<nat, seq<nat>>)
      requires forall h :: h in hashFileList ==> InRange(pathList, hashFileList[h])
      modifies cmd
      ensures cmd.sameCnt == old(cmd.sameCnt) + CrowdedAlong(hashFileList, SortedNats(hashFileList.Keys))
      ensures cmd.deleteLog == old(cmd.deleteLog)
        + CrowdDeletions(cmd.opts, e, pathList, name, hashFileList, SortedNats(hashFileList.Keys))
      ensures cmd.opts == old(cmd.opts)
      ensures cmd.diffCnt == old(cmd.diffCnt) && cmd.missCnt == old(cmd.missCnt) && cmd.skipCnt == old(cmd.skipCnt)
    {
      var rest := hashFileList.Keys;
      ghost var done: seq<nat> := [];
      while rest != {}
        invariant rest <= hashFileList.Keys
        invariant SortedNats(hashFileList.Keys) == done + SortedNats(rest)
        invariant cmd.sameCnt == old(cmd.sameCnt) + CrowdedAlong(hashFileList, done)
        invariant cmd.deleteLog == old(cmd.deleteLog) + CrowdDeletions(cmd.opts, e, pathList, name, hashFileList, done)
        invariant cmd.opts == old(cmd.opts)
        invariant cmd.diffCnt == old(cmd.diffCnt) && cmd.missCnt == old(cmd.missCnt) && cmd.skipCnt == old(cmd.skipCnt)
        decreases |rest|
      {
        var h := VisitHash(e, name, hashFileList, done, rest, old(cmd.sameCnt), old(cmd.deleteLog));
        done := done + [h];
        rest := rest - {h};
      }
      NatsDone(hashFileList.Keys, done);
    }

    /** The same-name mode for one name recorded under several directories. */
    method SameNameEntry(e: Engine, fs: Fs, env: Env, name: string, idxs: seq<nat>)
      requires InRange(pathList, idxs)
      modifies cmd
      ensures var r := NameReport(cmd.opts, e, fs, env, pathList, name, idxs);
        cmd.sameCnt == old(cmd.sameCnt) + r.same && cmd.diffCnt == old(cmd.diffCnt) + r.diff
        && cmd.deleteLog == old(cmd.deleteLog) + r.dels
      ensures cmd.opts == old(cmd.opts) && cmd.missCnt == old(cmd.missCnt) && cmd.skipCnt == old(cmd.skipCnt)
    {
      var hashFileList := CompareInstances(e, fs, env, name, idxs);
      if !cmd.opts.verbose {
        ReportHashBuckets(e, name, hashFileList);
      }
    }

    /**
     * The first two loops of the same-name mode for one name: the verbose
     * report, or the buckets the third loop reports.
     */
    method CompareInstances(e: Engine, fs: Fs, env: Env, name: string, idxs: seq<nat>) returns (hashFileList: map<nat, seq<nat>>)
      requires InRange(pathList, idxs)
      modifies cmd
      ensures var r := NameReport(cmd.opts, e, fs, env, pathList, name, idxs);
        cmd.opts.verbose ==>
        cmd.sameCnt == old(cmd.sameCnt) + r.same && cmd.diffCnt == old(cmd.diffCnt) + r.diff
        && cmd.deleteLog == old(cmd.deleteLog) + r.dels
      ensures var hb := HashBuckets(fs, env, pathList, name, idxs, cmd.opts.invert);
        !cmd.opts.verbose ==>
        hashFileList == hb && cmd.sameCnt == old(cmd.sameCnt) && cmd.diffCnt == old(cmd.diffCnt)
        && cmd.deleteLog == old(cmd.deleteLog)
        && NameReport(cmd.opts, e, fs, env, pathList, name, idxs)
          == Report(CrowdedAlong(hb, SortedNats(hb.Keys)), 0, CrowdDeletions(cmd.opts, e, pathList, name, hb, SortedNats(hb.Keys)))
      ensures cmd.opts == old(cmd.opts) && cmd.missCnt == old(cmd.missCnt) && cmd.skipCnt == old(cmd.skipCnt)
    {
      var hashDups, fileHash := HashInstances(fs, env, name, idxs);
      hashFileList := ClassifyInstances(e, fs, env, name, idxs, hashDups, fileHash);
    }

    /** One step of the same-name mode: the next name in key order, compared when it is under several directories. */
    method VisitSameName(e: Engine, fs: Fs, env: Env, ghost done: seq<string>, rest: set<string>,
                         ghost same0: int, ghost diff0: int, ghost log0: seq<Deletion>)
      returns (k: string)
      requires Indexed(fileList, pathList) && rest != {} && rest <= fileList.Keys
      requires SortedStrings(fileList.Keys) == done + SortedStrings(rest)
      requires var r := SameNameReport(cmd.opts, e, fs, env, fileList, pathList, done);
        cmd.sameCnt == same0 + r.same && cmd.diffCnt == diff0 + r.diff && cmd.deleteLog == log0 + r.dels
      modifies cmd
      ensures k in rest && SortedStrings(fileList.Keys) == (done + [k]) + SortedStrings(rest - {k})
      ensures var r := SameNameReport(cmd.opts, e, fs, env, fileList, pathList, done + [k]);
        cmd.sameCnt == same0 + r.same && cmd.diffCnt == diff0 + r.diff && cmd.deleteLog == log0 + r.dels
      ensures cmd.opts == old(cmd.opts) && cmd.missCnt == old(cmd.missCnt) && cmd.skipCnt == old(cmd.skipCnt)
    {
      k := NextString(fileList.Keys, done, rest);
      ghost var r := SameNameReport(cmd.opts, e, fs, env, fileList, pathList, done);
      ghost var n := if |fileList[k]| > 1 then NameReport(cmd.opts, e, fs, env, pathList, k, fileList[k]) else NOTHING;
      SameNameReportSnoc(cmd.opts, e, fs, env, fileList, pathList, done, k);
      ConcatAssoc(log0, r.dels, n.dels);
      ghost var same1, diff1, log1 := cmd.sameCnt, cmd.diffCnt, cmd.deleteLog;
      if |fileList[k]| > 1 {
        SameNameEntry(e, fs, env, k, fileList[k]);
      } else {
        assert log1 + [] == log1;
      }
      assert cmd.sameCnt == same1 + n.same && cmd.diffCnt == diff1 + n.diff && cmd.deleteLog == log1 + n.dels;
    }

    /** The same-name mode: the instances of each name under several directories compared by content hash, in name order. */
    method ReportSameName(e: Engine, fs: Fs, env: Env)
      requires Indexed(fileList, pathList)
      modifies cmd
      ensures var r := SameNameReport(cmd.opts, e, fs, env, fileList, pathList, SortedStrings(fileList.Keys));
        cmd.sameCnt == old(cmd.sameCnt) + r.same && cmd.diffCnt == old(cmd.diffCnt) + r.diff
        && cmd.deleteLog == old(cmd.deleteLog) + r.dels
      ensures cmd.opts == old(cmd.opts) && cmd.missCnt == old(cmd.missCnt) && cmd.skipCnt == old(cmd.skipCnt)
    {
      var rest := fileList.Keys;
      ghost var done: seq<string> := [];
      while rest != {}
        invariant rest <= fileList.Keys
        invariant SortedStrings(fileList.Keys) == done + SortedStrings(rest)
        invariant var r := SameNameReport(cmd.opts, e, fs, env, fileList, pathList, done);
          cmd.sameCnt == old(cmd.sameCnt) + r.same && cmd.diffCnt == old(cmd.diffCnt) + r.diff
          && cmd.deleteLog == old(cmd.deleteLog) + r.dels
        invariant cmd.opts == old(cmd.opts) && cmd.missCnt == old(cmd.missCnt) && cmd.skipCnt == old(cmd.skipCnt)
        decreases |rest|
      {
        var k := VisitSameName(e, fs, env, done, rest, old(cmd.sameCnt), old(cmd.diffCnt), old(cmd.deleteLog));
        done := done + [k];
        rest := rest - {k};
      }
      StringsDone(fileList.Keys, done);
    }

    /** The third loop of the global mode: each hash bucket whose crowding differs from invert, in hash order. */
    method ReportGlobalBuckets(e: Engine, hashFileList: map<nat, seq<PathParts>>)
      requires forall h :: h in hashFileList ==> PartsIn(pathList, hashFileList[h]) && |hashFileList[h]| > 0
      modifies cmd
      ensures cmd.sameCnt == old(cmd.sameCnt)
        + (if cmd.opts.invert then 0 else ExcessAlong(hashFileList, SortedNats(hashFileList.Keys)))
      ensures cmd.deleteLog == old(cmd.deleteLog)
        + GlobalDeletions(cmd.opts, e, pathList, hashFileList, cmd.opts.invert, SortedNats(hashFileList.Keys))
      ensures cmd.opts == old(cmd.opts)
      ensures cmd.diffCnt == old(cmd.diffCnt) && cmd.missCnt == old(cmd.missCnt) && cmd.skipCnt == old(cmd.skipCnt)
    {
      var rest := hashFileList.Keys;
      ghost var done: seq<nat> := [];
      ghost var o, same0, log0 := cmd.opts, cmd.sameCnt, cmd.deleteLog;
      while rest != {}
        invariant rest <= hashFileList.Keys
        invariant SortedNats(hashFileList.Keys) == done + SortedNats(rest)
        invariant cmd.opts == o
        invariant cmd.sameCnt == same0 + (if o.invert then 0 else ExcessAlong(hashFileList, done))
        invariant cmd.deleteLog == log0 + GlobalDeletions(o, e, pathList, hashFileList, o.invert, done)
        invariant cmd.diffCnt == old(cmd.diffCnt) && cmd.missCnt == old(cmd.missCnt) && cmd.skipCnt == old(cmd.skipCnt)
        decreases |rest|
      {
        var h := VisitGlobalHash(e, hashFileList, done, rest, same0, log0);
        done := done + [h];
        rest := rest - {h};
      }
      NatsDone(hashFileList.Keys, done);
    }

    /** One step of the third global loop: a bucket of n members reported adds n - 1 and checks each member for deletion. */
    method VisitGlobalHash(e: Engine, hashFileList: map<nat, seq<PathParts>>, ghost done: seq<nat>, rest: set<nat>,
                           ghost same0: int, ghost log0: seq<Deletion>)
      returns (h: nat)
      requires forall h :: h in hashFileList ==> PartsIn(pathList, hashFileList[h]) && |hashFileList[h]| > 0
      requires rest != {} && rest <= hashFileList.Keys
      requires SortedNats(hashFileList.Keys) == done + SortedNats(rest)
      requires cmd.sameCnt == same0 + (if cmd.opts.invert then 0 else ExcessAlong(hashFileList, done))
      requires cmd.deleteLog == log0 + GlobalDeletions(cmd.opts, e, pathList, hashFileList, cmd.opts.invert, done)
      modifies cmd
      ensures h in rest && SortedNats(hashFileList.Keys) == (done + [h]) + SortedNats(rest - {h})
      ensures cmd.sameCnt == same0 + (if cmd.opts.invert then 0 else ExcessAlong(hashFileList, done + [h]))
      ensures cmd.deleteLog == log0 + GlobalDeletions(cmd.opts, e, pathList, hashFileList, cmd.opts.invert, done + [h])
      ensures cmd.opts == old(cmd.opts)
      ensures cmd.diffCnt == old(cmd.diffCnt) && cmd.missCnt == old(cmd.missCnt) && cmd.skipCnt == old(cmd.skipCnt)
    {
      h := NextNat(hashFileList.Keys, done, rest);
      ExcessAlongSnoc(hashFileList, done, h);
      GlobalDeletionsSnoc(log0, cmd.opts, e, pathList, hashFileList, cmd.opts.invert, done, h);
      var matchList := hashFileList[h];
      if (|matchList| > 1) != cmd.opts.invert {
        cmd.sameCnt := cmd.sameCnt + (|matchList| - 1);
        ReportGlobalBucket(e, matchList);
      }
    }

    /** The members of one reported hash bucket, each checked for deletion. */
    method ReportGlobalBucket(e: Engine, matchList: seq<PathParts>)
      requires PartsIn(pathList, matchList)
      modifies cmd
      ensures cmd.deleteLog == old(cmd.deleteLog) + Deletions(cmd.opts, e, PartPaths(pathList, matchList))
      ensures cmd.opts == old(cmd.opts) && cmd.sameCnt == old(cmd.sameCnt)
      ensures cmd.diffCnt == old(cmd.diffCnt) && cmd.missCnt == old(cmd.missCnt) && cmd.skipCnt == old(cmd.skipCnt)
    {
      var mIdx := 0;
      while mIdx < |matchList|
        invariant mIdx <= |matchList|
        invariant PartsIn(pathList, matchList[..mIdx])
        invariant cmd.deleteLog == old(cmd.deleteLog) + Deletions(cmd.opts, e, PartPaths(pathList, matchList[..mIdx]))
        invariant cmd.opts == old(cmd.opts) && cmd.sameCnt == old(cmd.sameCnt)
        invariant cmd.diffCnt == old(cmd.diffCnt) && cmd.missCnt == old(cmd.missCnt) && cmd.skipCnt == old(cmd.skipCnt)
      {
        PartPathsPrefix(pathList, matchList, mIdx);
        var pathParts := matchList[mIdx];
        var fullPath := pathList[pathParts.pathIdx];
        fullPath := fullPath + pathParts.name;
        DeletionsSnoc(old(cmd.deleteLog), cmd.opts, e, PartPaths(pathList, matchList[..mIdx]), fullPath);
        if FileMatches(e, fullPath, cmd.opts.delDupPath, false) {
          cmd.DeleteFile(fullPath);
        }
        mIdx := mIdx + 1;
      }
      PartPathsAll(pathList, matchList);
    }

    /**
     * end: the duplicates of the table reported in the mode chosen by
     * justName, ignoreExtn and sameName; the table itself is kept. Always true.
     */
    method End(e: Engine, fs: Fs, env: Env) returns (r: bool)
      requires Valid()
      modifies cmd
      ensures r && Indexed(fileList, pathList)
      ensures var rep := EndReport(cmd.opts, e, cmd.cwd, fs, env, fileList, pathList);
        cmd.sameCnt == old(cmd.sameCnt) + rep.same && cmd.diffCnt == old(cmd.diffCnt) + rep.diff
        && cmd.deleteLog == old(cmd.deleteLog) + rep.dels
      ensures cmd.opts == old(cmd.opts) && cmd.missCnt == old(cmd.missCnt) && cmd.skipCnt == old(cmd.skipCnt)
    {
      RepresentsIndexed(fileList, pathList, added);
      if cmd.opts.justName && cmd.opts.ignoreExtn {
        ReportStems(e, env);
      } else if cmd.opts.justName {
        ReportJustName(e);
      } else if cmd.opts.sameName {
        ReportSameName(e, fs, env);
      } else {
        ReportGlobal(e, fs, env);
      }
      r := true;
    }

    /** The global mode: instances grouped by size, the selected ones by hash, and the selected hash buckets reported. */
    method ReportGlobal(e: Engine, fs: Fs, env: Env)
      requires Indexed(fileList, pathList)
      modifies cmd
      ensures var r := GlobalReport(cmd.opts, e, fs, env, fileList, pathList);
        cmd.sameCnt == old(cmd.sameCnt) + r.same && cmd.diffCnt == old(cmd.diffCnt) + r.diff
        && cmd.deleteLog == old(cmd.deleteLog) + r.dels
      ensures cmd.opts == old(cmd.opts) && cmd.missCnt == old(cmd.missCnt) && cmd.skipCnt == old(cmd.skipCnt)
    {
      var sizeFileList := SizeGroup(fs, env, fileList, pathList);
      var hashFileList := HashGroup(fs, env, pathList, sizeFileList, cmd.opts.invert);
      ReportGlobalBuckets(e, hashFileList);
    }
  }

  /** The non-verbose branch of the second same-name loop: instances whose isDup differs from invert, grouped by hash. */
  method GroupInstances(fs: Fs, env: Env, pathList: seq<string>, name: string, idxs: seq<nat>,
                        hashDups: map<nat, nat>, fileHash: map<string, nat>, invert: bool)
    returns (hashFileList: map<nat, seq<nat>>)
    requires InRange(pathList, idxs)
    requires hashDups == Tally(Hashes(fs, env, FullPaths(pathList, name, idxs)))
    requires forall p :: p in fileHash ==> fileHash[p] == Hash(fs, env, p)
    requires forall j :: 0 <= j < |idxs| ==> pathList[idxs[j]] + name in fileHash
    ensures hashFileList == HashBuckets(fs, env, pathList, name, idxs, invert)
  {
    ghost var paths := FullPaths(pathList, name, idxs);
    ghost var hs := Hashes(fs, env, paths);
    ghost var flags := DupFlags(hs);
    hashFileList := map[];
    var plIdx := 0;
    while plIdx < |idxs|
      invariant plIdx <= |idxs|
      invariant hashFileList == Group(FlaggedPairs(hs[..plIdx], idxs[..plIdx], flags[..plIdx], invert))
    {
      var plPos := idxs[plIdx];
      var hashValue := fileHash[pathList[plPos] + name];
      FullPathsIndex(pathList, name, idxs, plIdx);
      assert hashValue == hs[plIdx];
      DupFlagOf(hs, plIdx);
      var isDup := hashDups[hashValue] != 1;
      assert isDup == flags[plIdx];
      GroupFlaggedPrefix(hs, idxs, flags, invert, plIdx);
      if isDup != invert {
        hashFileList := hashFileList[hashValue := Get(hashFileList, hashValue) + [plPos]];
      }
      plIdx := plIdx + 1;
    }
    HashBucketsAll(fs, env, pathList, name, idxs, invert);
  }

  /** The first loop of the stem mode: the names of the table grouped by stem, in name order. */
  method GroupByStem(env: Env, fileList: map<string, seq<nat>>) returns (noExtnList: map<string, seq<string>>)
    ensures noExtnList == NoExtn(env, fileList)
  {
    noExtnList := map[];
    var rest := fileList.Keys;
    ghost var done: seq<string> := [];
    while rest != {}
      invariant rest <= fileList.Keys
      invariant SortedStrings(fileList.Keys) == done + SortedStrings(rest)
      invariant noExtnList == Group(StemPairs(env, done))
      decreases |rest|
    {
      var k := NextString(fileList.Keys, done, rest);
      var noExtn := env.stem(GetName(k));
      GroupSnoc(StemPairs(env, done), noExtn, k);
      StemPairsSnoc(env, done, k);
      noExtnList := noExtnList[noExtn := Get(noExtnList, noExtn) + [k]];
      done := done + [k];
      rest := rest - {k};
    }
    StringsDone(fileList.Keys, done);
  }

  /** The first loop of the global mode: every instance under its size key, names in key order. */
  method SizeGroup(fs: Fs, env: Env, fileList: map<string, seq<nat>>, pathList: seq<string>)
    returns (sizeFileList: map<nat, seq<PathParts>>)
    requires Indexed(fileList, pathList)
    ensures sizeFileList == SizeBuckets(fs, env, fileList, pathList)
  {
    sizeFileList := map[];
    var rest := fileList.Keys;
    ghost var done: seq<string> := [];
    while rest != {}
      invariant rest <= fileList.Keys
      invariant SortedStrings(fileList.Keys) == done + SortedStrings(rest)
      invariant sizeFileList == Group(SizePairs(fs, env, fileList, pathList, done))
      decreases |rest|
    {
      var k := NextString(fileList.Keys, done, rest);
      SizePairsSnoc(fs, env, fileList, pathList, done, k);
      sizeFileList := AddEntryParts(fs, env, pathList, k, fileList[k], SizePairs(fs, env, fileList, pathList, done), sizeFileList);
      done := done + [k];
      rest := rest - {k};
    }
    StringsDone(fileList.Keys, done);
  }

  /** The instances of one name pushed into sizeFileList under their size keys, after the pushes `base`. */
  method AddEntryParts(fs: Fs, env: Env, pathList: seq<string>, name: string, idxs: seq<nat>,
                       ghost base: seq<(nat, PathParts)>, sizeFileList: map<nat, seq<PathParts>>)
    returns (sizeFileList': map<nat, seq<PathParts>>)
    requires InRange(pathList, idxs)
    requires sizeFileList == Group(base)
    ensures sizeFileList' == Group(base + EntryParts(fs, env, pathList, name, idxs))
  {
    sizeFileList' := sizeFileList;
    assert base + [] == base;
    var plIdx := 0;
    while plIdx < |idxs|
      invariant plIdx <= |idxs|
      invariant sizeFileList' == Group(base + EntryParts(fs, env, pathList, name, idxs[..plIdx]))
    {
      var plPos := idxs[plIdx];
      var fullPath := pathList[plPos] + name;
      var fileLen := DirFileLength(fs, fullPath);
      fileLen := if fileLen != 0 then fileLen else env.strHash(fullPath);
      assert fileLen == SizeKey(fs, env, pathList[idxs[plIdx]] + name);
      EntryPartsStep(fs, env, pathList, name, idxs, base, plIdx);
      sizeFileList' := sizeFileList'[fileLen := Get(sizeFileList', fileLen) + [PathParts(plPos, name)]];
      plIdx := plIdx + 1;
    }
    EntryPartsAll(fs, env, pathList, name, idxs);
  }

  /** The second loop of the global mode: the members of each size bucket whose crowding differs from invert, under their hash. */
  method HashGroup(fs: Fs, env: Env, pathList: seq<string>, sizeFileList: map<nat, seq<PathParts>>, invert: bool)
    returns (hashFileList: map<nat, seq<PathParts>>)
    requires forall s :: s in sizeFileList ==> PartsIn(pathList, sizeFileList[s])
    ensures hashFileList == GlobalHashBuckets(fs, env, pathList, sizeFileList, invert)
  {
    hashFileList := map[];
    var rest := sizeFileList.Keys;
    ghost var done: seq<nat> := [];
    while rest != {}
      invariant rest <= sizeFileList.Keys
      invariant SortedNats(sizeFileList.Keys) == done + SortedNats(rest)
      invariant hashFileList == Group(HashPairs(fs, env, pathList, sizeFileList, invert, done))
      decreases |rest|
    {
      var s := NextNat(sizeFileList.Keys, done, rest);
      hashFileList := HashSizeBucket(fs, env, pathList, sizeFileList, invert, done, s, hashFileList);
      done := done + [s];
      rest := rest - {s};
    }
    NatsDone(sizeFileList.Keys, done);
  }

  /** One step of the second global loop: a selected size bucket has its members pushed under their hash. */
  method HashSizeBucket(fs: Fs, env: Env, pathList: seq<string>, sizeFileList: map<nat, seq<PathParts>>, invert: bool,
                        ghost done: seq<nat>, s: nat, hashFileList: map<nat, seq<PathParts>>)
    returns (hashFileList': map<nat, seq<PathParts>>)
    requires forall s :: s in sizeFileList ==> PartsIn(pathList, sizeFileList[s])
    requires s in sizeFileList
    requires hashFileList == Group(HashPairs(fs, env, pathList, sizeFileList, invert, done))
    ensures hashFileList' == Group(HashPairs(fs, env, pathList, sizeFileList, invert, done + [s]))
  {
    ghost var before := HashPairs(fs, env, pathList, sizeFileList, invert, done);
    HashPairsSnoc(fs, env, pathList, sizeFileList, invert, done, s);
    if (|sizeFileList[s]| > 1) != invert {
      hashFileList' := AddHashParts(fs, env, pathList, sizeFileList[s], before, hashFileList);
    } else {
      hashFileList' := hashFileList;
      assert before + [] == before;
    }
  }

  /** The members of one size bucket pushed into hashFileList under their hash, after the pushes `base`. */
  method AddHashParts(fs: Fs, env: Env, pathList: seq<string>, sizeList: seq<PathParts>,
                      ghost base: seq<(nat, PathParts)>, hashFileList: map<nat, seq<PathParts>>)
    returns (hashFileList': map<nat, seq<PathParts>>)
    requires PartsIn(pathList, sizeList)
    requires hashFileList == Group(base)
    ensures hashFileList' == Group(base + HashParts(fs, env, pathList, sizeList))
  {
    hashFileList' := hashFileList;
    assert base + [] == base;
    var sIdx := 0;
    while sIdx < |sizeList|
      invariant sIdx <= |sizeList|
      invariant PartsIn(pathList, sizeList[..sIdx])
      invariant hashFileList' == Group(base + HashParts(fs, env, pathList, sizeList[..sIdx]))
    {
      var pathParts := sizeList[sIdx];
      var fullPath := pathList[pathParts.pathIdx];
      fullPath := fullPath + pathParts.name;
      var hashValue := Hash(fs, env, fullPath);
      HashPartsStep(fs, env, pathList, sizeList, base, sIdx);
      hashFileList' := hashFileList'[hashValue := Get(hashFileList', hashValue) + [pathParts]];
      sIdx := sIdx + 1;
    }
    HashPartsAll(fs, env, pathList, sizeList);
  }
}
