/** `build_path`: the bounds-checked concatenation prefix + "/" + cmd + '\0' into a
    caller-supplied buffer of out_sz characters. */
module Paths {
  import opened CStrings

  /** The path name built from a directory and a command name. */
  function JoinPath(dir: seq<char>, name: seq<char>): seq<char>
  {
    dir + ['/'] + name
  }

  /** The joined path and its terminator fit in a buffer of outSz characters. */
  predicate Fits(dir: seq<char>, name: seq<char>, outSz: int)
  {
    |dir| + 1 + |name| + 1 <= outSz
  }

  /** A joined path falls apart again at the separator after the directory:
      for a fixed directory, the command name is recovered from the path. */
  lemma JoinPathSplits(dir: seq<char>, name: seq<char>)
    ensures |JoinPath(dir, name)| == |dir| + 1 + |name|
    ensures JoinPath(dir, name)[..|dir|] == dir
    ensures JoinPath(dir, name)[|dir|] == '/'
    ensures JoinPath(dir, name)[|dir| + 1..] == name
  {
    var p := JoinPath(dir, name);
    assert p == dir + (['/'] + name);
    assert p[|dir|..] == ['/'] + name;
    assert p[|dir| + 1..] == (['/'] + name)[1..];
  }

  /** The same directory joined with two names gives the same path only for the same name. */
  lemma JoinPathInjective(dir: seq<char>, name1: seq<char>, name2: seq<char>)
    requires JoinPath(dir, name1) == JoinPath(dir, name2)
    ensures name1 == name2
  {
    JoinPathSplits(dir, name1);
    JoinPathSplits(dir, name2);
  }

  /** A buffer holding the joined path followed by '\0', for a NUL-free directory
      and name, reads back as exactly that path when taken as a C string. */
  lemma StoredPathIsCStr(dir: seq<char>, name: seq<char>, rest: seq<char>)
    requires '\0' !in dir && '\0' !in name
    ensures '\0' in JoinPath(dir, name) + ['\0'] + rest
    ensures CStr(JoinPath(dir, name) + ['\0'] + rest) == JoinPath(dir, name)
  {
    var p := JoinPath(dir, name);
    var a := p + ['\0'] + rest;
    assert a[|p|] == '\0';
    assert '\0' !in p;
    assert a[..|p|] == p;
    HoldsCStrIsCStr(a, 0, p);
    assert a[0..] == a;
  }

  /** `build_path`: when prefix + "/" + cmd and its terminator fit in outSz
      characters, writes them at the start of out and reports success; otherwise
      reports failure and leaves out untouched. */
  method BuildPath(out: array<char>, outSz: int, prefix: seq<char>, cmd: seq<char>) returns (ok: bool)
    requires '\0' in prefix && '\0' in cmd
    requires outSz <= out.Length
    modifies out
    ensures ok <==> Fits(CStr(prefix), CStr(cmd), outSz)
    ensures ok ==> out[..] == JoinPath(CStr(prefix), CStr(cmd)) + ['\0']
                              + old(out[..])[|CStr(prefix)| + |CStr(cmd)| + 2..]
    ensures !ok ==> out[..] == old(out[..])
  {
    ghost var o := out[..];
    ghost var dir := CStr(prefix);
    ghost var name := CStr(cmd);
    var p := StrLen(prefix);
    var c := StrLen(cmd);
    if p + 1 + c + 1 > outSz {
      return false;
    }
    for i := 0 to p
      invariant forall k :: 0 <= k < i ==> out[k] == dir[k]
      invariant forall k :: i <= k < out.Length ==> out[k] == o[k]
    {
      out[i] := prefix[i];
    }
    out[p] := '/';
    for i := 0 to c
      invariant forall k :: 0 <= k < p ==> out[k] == dir[k]
      invariant out[p] == '/'
      invariant forall k :: 0 <= k < i ==> out[p + 1 + k] == name[k]
      invariant forall k :: p + 1 + i <= k < out.Length ==> out[k] == o[k]
    {
      out[p + 1 + i] := cmd[i];
    }
    out[p + 1 + c] := '\0';
    ghost var r := JoinPath(dir, name) + ['\0'] + o[p + c + 2..];
    assert |out[..]| == |r|;
    forall k | 0 <= k < out.Length
      ensures out[k] == r[k]
    {
      if k < p {
        assert r[k] == dir[k];
      } else if k == p {
        assert r[k] == '/';
      } else if k < p + 1 + c {
        assert r[k] == name[k - p - 1];
      } else if k == p + 1 + c {
        assert r[k] == '\0';
      } else {
        assert r[k] == o[k];
      }
    }
    assert out[..] == r;
    return true;
  }
}
