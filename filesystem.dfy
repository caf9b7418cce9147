/**
 * The filesystem as lldupdir sees it: regular files with their bytes and
 * directories with their entries in enumeration order (Directory_files).
 * The helpers that read it (stat, DirUtil, the hasher) are not part of this
 * model; `Env` stands in for what they compute.
 */
module FileSystem {
  import opened Paths

  /** One directory entry: its name and whether it is a directory. */
  datatype Entry = Entry(name: string, isDir: bool)

  datatype Fs = Fs(files: map<string, seq<bv8>>, dirs: map<string, seq<Entry>>)

  /**
   * digest: Hasher::compute of a file's bytes; strHash: std::hash<std::string>;
   * stem: DirUtil::removeExtn; dirSize: st_size of a directory.
   */
  datatype Env = Env(digest: seq<bv8> -> nat, strHash: string -> nat, stem: string -> string, dirSize: string -> nat)

  /** Entries have names, so a child's path is longer than its directory's. */
  predicate WellFormed(fs: Fs)
  {
    forall d, i :: d in fs.dirs && 0 <= i < |fs.dirs[d]| ==> fs.dirs[d][i].name != []
  }

  /** What Directory_files enumerates: nothing for a path that is not a directory. */
  function Listing(fs: Fs, dir: string): seq<Entry>
  {
    if dir in fs.dirs then fs.dirs[dir] else []
  }

  /** stat succeeds and S_ISREG holds. */
  predicate IsRegular(fs: Fs, path: string)
  {
    path in fs.files
  }

  /** The bytes the hasher reads; a path that is not a file reads as empty. */
  function Content(fs: Fs, path: string): seq<bv8>
  {
    if path in fs.files then fs.files[path] else []
  }

  function Hash(fs: Fs, env: Env, path: string): nat
  {
    env.digest(Content(fs, path))
  }

  /** The static fileLength of dupscan.cpp: st_size, or -1 when stat fails. */
  function FileLength(fs: Fs, env: Env, path: string): (r: int)
    ensures r == -1 <==> path !in fs.files && path !in fs.dirs
    ensures path in fs.files ==> r == |fs.files[path]|
  {
    if path in fs.files then |fs.files[path]|
    else if path in fs.dirs then env.dirSize(path)
    else -1
  }

  /** DirUtil::fileLength, as the length of the bytes a path reads as. */
  function DirFileLength(fs: Fs, path: string): nat
  {
    |Content(fs, path)|
  }

  /** The entries of a listed directory are longer than it, when their names are non-empty. */
  lemma ChildIsLonger(fs: Fs, dir: string, i: nat)
    requires WellFormed(fs) && i < |Listing(fs, dir)|
    ensures |Join(dir, Listing(fs, dir)[i].name)| > |dir|
    ensures dir in fs.dirs
  {
    JoinGrows(dir, Listing(fs, dir)[i].name);
  }
}
