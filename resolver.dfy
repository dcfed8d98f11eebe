/** `find_executable`: the search for a command's executable, first under $HOME,
    then under /bin.

    The environment variable HOME is a parameter (None when unset) and the
    `access(path, X_OK)` check is the oracle canExec. C strings are their
    contents here, without the terminator. */
module Resolver {
  import opened Optional
  import opened Paths

  const BinDir: string := "/bin"

  /** HOME takes part in the search only when it is set and not empty. */
  predicate HomeUsable(home: Option<string>)
  {
    home.Some? && home.value != []
  }

  /** The path a candidate directory yields, when it fits the buffer and passes the check. */
  predicate Usable(dir: string, cmd: string, outSz: int, canExec: string -> bool)
  {
    Fits(dir, cmd, outSz) && canExec(JoinPath(dir, cmd))
  }

  /** `find_executable`: the path name of the executable for cmd, or None. */
  function FindExecutable(cmd: string, home: Option<string>, outSz: int, canExec: string -> bool): (r: Option<string>)
  {
    if HomeUsable(home) && Usable(home.value, cmd, outSz, canExec) then Some(JoinPath(home.value, cmd))
    else if Usable(BinDir, cmd, outSz, canExec) then Some(JoinPath(BinDir, cmd))
    else None
  }

  /** The directories searched, in order. */
  function SearchDirs(home: Option<string>): (dirs: seq<string>)
    ensures |dirs| >= 1 && dirs[|dirs| - 1] == BinDir
    ensures HomeUsable(home) <==> |dirs| == 2
    ensures HomeUsable(home) ==> dirs[0] == home.value
  {
    (if HomeUsable(home) then [home.value] else []) + [BinDir]
  }

  /** A reference search: the first directory of dirs that is usable. */
  function FirstUsable(dirs: seq<string>, cmd: string, outSz: int, canExec: string -> bool): (r: Option<string>)
  {
    if dirs == [] then None
    else if Usable(dirs[0], cmd, outSz, canExec) then Some(JoinPath(dirs[0], cmd))
    else FirstUsable(dirs[1..], cmd, outSz, canExec)
  }

  /** The reference search finds the first usable directory, and nothing when none is usable. */
  lemma {:induction false} FirstUsableSpec(dirs: seq<string>, cmd: string, outSz: int, canExec: string -> bool)
    ensures FirstUsable(dirs, cmd, outSz, canExec).None? <==>
              forall i :: 0 <= i < |dirs| ==> !Usable(dirs[i], cmd, outSz, canExec)
    ensures FirstUsable(dirs, cmd, outSz, canExec).Some? ==>
              exists i :: 0 <= i < |dirs| && Usable(dirs[i], cmd, outSz, canExec) &&
                FirstUsable(dirs, cmd, outSz, canExec).value == JoinPath(dirs[i], cmd) &&
                forall j :: 0 <= j < i ==> !Usable(dirs[j], cmd, outSz, canExec)
  {
    if dirs != [] {
      var rest := dirs[1..];
      FirstUsableSpec(rest, cmd, outSz, canExec);
      if !Usable(dirs[0], cmd, outSz, canExec) {
        forall i | 0 < i < |dirs| ensures dirs[i] == rest[i - 1] { }
        if FirstUsable(rest, cmd, outSz, canExec).Some? {
          var i :| 0 <= i < |rest| && Usable(rest[i], cmd, outSz, canExec) &&
                   FirstUsable(rest, cmd, outSz, canExec).value == JoinPath(rest[i], cmd) &&
                   forall j :: 0 <= j < i ==> !Usable(rest[j], cmd, outSz, canExec);
          assert dirs[i + 1] == rest[i];
          forall j | 0 <= j < i + 1 ensures !Usable(dirs[j], cmd, outSz, canExec) {
            if j > 0 { assert dirs[j] == rest[j - 1]; }
          }
        }
      } else {
        assert Usable(dirs[0], cmd, outSz, canExec);
      }
    }
  }

  /** find_executable is the first-usable search over $HOME, then /bin. */
  lemma FindIsFirstUsable(cmd: string, home: Option<string>, outSz: int, canExec: string -> bool)
    ensures FindExecutable(cmd, home, outSz, canExec) == FirstUsable(SearchDirs(home), cmd, outSz, canExec)
  {
    var dirs := SearchDirs(home);
    if HomeUsable(home) {
      assert dirs == [home.value, BinDir];
      assert dirs[1..] == [BinDir];
      assert dirs[1..][1..] == [];
      assert FirstUsable(dirs[1..], cmd, outSz, canExec) ==
        if Usable(BinDir, cmd, outSz, canExec) then Some(JoinPath(BinDir, cmd)) else None;
    } else {
      assert dirs == [BinDir];
      assert dirs[1..] == [];
    }
  }

  /** A usable $HOME/cmd is chosen in preference to /bin/cmd. */
  lemma PrefersHome(cmd: string, h: string, outSz: int, canExec: string -> bool)
    requires h != [] && Fits(h, cmd, outSz) && canExec(JoinPath(h, cmd))
    ensures FindExecutable(cmd, Some(h), outSz, canExec) == Some(JoinPath(h, cmd))
  {
  }

  /** With HOME unset or empty only /bin/cmd is consulted: the result does not
      depend on what the check says of any other path. */
  lemma OnlyBinWithoutHome(cmd: string, home: Option<string>, outSz: int, canExec1: string -> bool, canExec2: string -> bool)
    requires !HomeUsable(home)
    requires canExec1(JoinPath(BinDir, cmd)) == canExec2(JoinPath(BinDir, cmd))
    ensures FindExecutable(cmd, home, outSz, canExec1) == FindExecutable(cmd, home, outSz, canExec2)
    ensures FindExecutable(cmd, home, outSz, canExec1) ==
      if Usable(BinDir, cmd, outSz, canExec1) then Some(JoinPath(BinDir, cmd)) else None
  {
  }

  /** The search fails exactly when no searched directory both fits and passes
      the check; a result is the path in a searched directory that passed the
      check, fits the buffer with its terminator, and no earlier directory was usable. */
  lemma FindNoneIff(cmd: string, home: Option<string>, outSz: int, canExec: string -> bool)
    ensures var dirs := SearchDirs(home);
      FindExecutable(cmd, home, outSz, canExec).None? <==>
        forall i :: 0 <= i < |dirs| ==> !Usable(dirs[i], cmd, outSz, canExec)
    ensures var dirs := SearchDirs(home);
      FindExecutable(cmd, home, outSz, canExec).Some? ==>
        var path := FindExecutable(cmd, home, outSz, canExec).value;
        canExec(path) && |path| + 1 <= outSz &&
        exists i :: 0 <= i < |dirs| && path == JoinPath(dirs[i], cmd) &&
          forall j :: 0 <= j < i ==> !Usable(dirs[j], cmd, outSz, canExec)
  {
    FindIsFirstUsable(cmd, home, outSz, canExec);
    FirstUsableSpec(SearchDirs(home), cmd, outSz, canExec);
    if FindExecutable(cmd, home, outSz, canExec).Some? {
      var path := FindExecutable(cmd, home, outSz, canExec).value;
      var dirs := SearchDirs(home);
      var i :| 0 <= i < |dirs| && Usable(dirs[i], cmd, outSz, canExec) && path == JoinPath(dirs[i], cmd) &&
        forall j :: 0 <= j < i ==> !Usable(dirs[j], cmd, outSz, canExec);
      JoinPathSplits(dirs[i], cmd);
    }
  }
}
