/**
 * Path helpers: the base name of a path (getName in llreplace.cpp), the
 * directory prefix that DupFiles::add derives from it, joining a directory
 * and a name, and Command::absOrRel, which shows a path relative to the
 * working directory.
 */
module Paths {

  const SLASH: char := '/'

  /** Index of the last slash of `s`, or -1 when there is none (rfind). */
  function LastSlash(s: string): (r: int)
    ensures -1 <= r < |s|
    ensures r >= 0 ==> s[r] == SLASH
    ensures forall i :: r < i < |s| ==> s[i] != SLASH
  {
    if s == [] then -1
    else if s[|s| - 1] == SLASH then |s| - 1
    else LastSlash(s[..|s| - 1])
  }

  /** The text after the last slash, or the whole path when it has none. */
  function GetName(path: string): (name: string)
  {
    path[LastSlash(path) + 1..]
  }

  /** The directory part of `path`, including its final slash. */
  function DirPrefix(path: string): string
  {
    path[..|path| - |GetName(path)|]
  }

  predicate HasSlash(s: string)
  {
    exists i :: 0 <= i < |s| && s[i] == SLASH
  }

  /**
   * The name is a slash-free suffix of the path; the path is its directory
   * prefix followed by it; the prefix is empty or ends in a slash.
   */
  lemma NameIsSlashFreeSuffix(path: string)
    ensures |GetName(path)| <= |path|
    ensures !HasSlash(GetName(path))
    ensures DirPrefix(path) + GetName(path) == path
    ensures DirPrefix(path) == [] || DirPrefix(path)[|DirPrefix(path)| - 1] == SLASH
    ensures !HasSlash(path) ==> GetName(path) == path && DirPrefix(path) == []
  {
    var r := LastSlash(path);
    if r >= 0 {
      assert HasSlash(path) by { assert path[r] == SLASH; }
    }
  }

  /** A path that ends in a slash has an empty name. */
  lemma TrailingSlashGivesEmptyName(path: string)
    requires |path| > 0 && path[|path| - 1] == SLASH
    ensures GetName(path) == []
  {
  }

  /** A slash-free name put after a prefix ending in a slash is recovered intact. */
  lemma GetNameOfJoined(dir: string, name: string)
    requires |dir| > 0 && dir[|dir| - 1] == SLASH
    requires !HasSlash(name)
    ensures GetName(dir + name) == name
    ensures DirPrefix(dir + name) == dir
  {
    var s := dir + name;
    var r := LastSlash(s);
    assert s[|dir| - 1] == SLASH;
    assert r >= |dir| - 1;
    assert forall i :: |dir| <= i < |s| ==> s[i] == name[i - |dir|];
  }

  /**
   * DirUtil::join: a directory and a name separated by one slash. The
   * original helper is not part of this model; an empty side is dropped.
   */
  function Join(dir: string, name: string): string
  {
    if dir == [] then name
    else if name == [] then dir
    else if dir[|dir| - 1] == SLASH then dir + name
    else dir + [SLASH] + name
  }

  /** Joining a non-empty name makes the directory strictly longer. */
  lemma JoinGrows(dir: string, name: string)
    requires name != []
    ensures |Join(dir, name)| > |dir|
    ensures |Join(dir, name)| >= |name|
  {
  }

  /** The relative part of a joined path is never longer than the joined path below another root. */
  lemma JoinUnderRootIsLonger(root: string, dir: string, name: string)
    ensures |Join(dir, name)| <= |Join(Join(root, dir), name)|
  {
  }

  /** A path relative to `cwd` put back under it. */
  function Rejoin(cwd: string, rel: string): string
  {
    if |cwd| > 0 && cwd[|cwd| - 1] == SLASH then cwd + rel else cwd + [SLASH] + rel
  }

  /** A name after a relative directory rejoins to the name after the full directory. */
  lemma RejoinAppend(cwd: string, rel: string, name: string)
    ensures Rejoin(cwd, rel + name) == Rejoin(cwd, rel) + name
  {
    if |cwd| > 0 && cwd[|cwd| - 1] == SLASH {
      assert cwd + (rel + name) == (cwd + rel) + name;
    } else {
      assert cwd + [SLASH] + (rel + name) == (cwd + [SLASH] + rel) + name;
    }
  }

  /**
   * Command::absOrRel as written: when the first |cwd| characters of the
   * path equal the working directory, skip them and one more character.
   * A path equal to the working directory would be read past its end.
   */
  function AbsOrRelAsWritten(cwd: string, showAbsPath: bool, fullPath: string): (r: string)
    requires showAbsPath || !(cwd <= fullPath) || |fullPath| > |cwd|
    ensures |r| <= |fullPath|
  {
    if !showAbsPath && cwd <= fullPath then fullPath[|cwd| + 1..] else fullPath
  }

  /**
   * Command::absOrRel as evidently intended: strip the working directory
   * only when the path lies below it, so that the result names the same file.
   */
  function AbsOrRel(cwd: string, showAbsPath: bool, fullPath: string): (r: string)
    ensures showAbsPath ==> r == fullPath
    ensures r == fullPath || Rejoin(cwd, r) == fullPath
  {
    if showAbsPath || cwd == [] then fullPath
    else if cwd[|cwd| - 1] == SLASH then (if cwd <= fullPath then fullPath[|cwd|..] else fullPath)
    else if cwd + [SLASH] <= fullPath then fullPath[|cwd| + 1..]
    else fullPath
  }

  /** Both agree whenever the working directory is matched at a component boundary. */
  lemma AbsOrRelAgreesOnBoundary(cwd: string, fullPath: string)
    requires cwd != [] && cwd[|cwd| - 1] != SLASH
    requires cwd + [SLASH] <= fullPath
    ensures AbsOrRelAsWritten(cwd, false, fullPath) == AbsOrRel(cwd, false, fullPath)
  {
  }

  /**
   * As written, a sibling directory whose name starts with the working
   * directory's name loses part of its name: the result no longer names the file.
   */
  lemma AbsOrRelAsWrittenCutsSibling()
    ensures AbsOrRelAsWritten("/home/u", false, "/home/uabc/x") == "bc/x"
    ensures Rejoin("/home/u", "bc/x") != "/home/uabc/x"
    ensures AbsOrRel("/home/u", false, "/home/uabc/x") == "/home/uabc/x"
  {
    assert "/home/u" <= "/home/uabc/x";
    assert "/home/uabc/x"[8..] == "bc/x";
    assert !("/home/u/" <= "/home/uabc/x") by { assert "/home/uabc/x"[7] != '/'; }
    assert Rejoin("/home/u", "bc/x") == "/home/u/bc/x";
    assert ("/home/u/bc/x")[7] != ("/home/uabc/x")[7];
  }

  /**
   * As written, with the root as working directory the cut goes one
   * character too far: "/a/x" is shown as "/x", an absolute path that names
   * another file. The corrected version shows "a/x", which resolves back.
   */
  lemma AbsOrRelAsWrittenCutsRoot()
    ensures AbsOrRelAsWritten("/", false, "/a/x") == "/x"
    ensures AbsOrRel("/", false, "/a/x") == "a/x" && Rejoin("/", "a/x") == "/a/x"
  {
    assert "/" <= "/a/x";
    assert "/a/x"[2..] == "/x";
    assert "/a/x"[1..] == "a/x";
  }
}
