/** The path handling of kernel/fs/vfs.c on NUL-terminated character buffers. */
module Paths {

  const VFS_PATH_MAX: nat := 4096
  const VFS_NAME_MAX: nat := 255

  // ---- C strings ----

  predicate NoNul(s: string) {
    forall i :: 0 <= i < |s| ==> s[i] != '\0'
  }

  /** The text of a buffer from its first character up to the first NUL. */
  function CStr(b: seq<char>): (s: string)
    ensures NoNul(s) && s <= b
    ensures |s| < |b| ==> b[|s|] == '\0'
  {
    if b == [] || b[0] == '\0' then [] else [b[0]] + CStr(b[1..])
  }

  lemma {:induction false} CStrIs(b: seq<char>, s: string)
    requires NoNul(s) && s <= b && (|s| < |b| ==> b[|s|] == '\0')
    ensures CStr(b) == s
  {
    if s != [] {
      assert s[1..] <= b[1..];
      CStrIs(b[1..], s[1..]);
      assert s == [s[0]] + s[1..];
    }
  }

  /** `strncpy(buf, s, n)` for a string shorter than `n`: the text, then NULs up to `n`. */
  method StrNCpy(buf: array<char>, s: string, n: nat)
    requires NoNul(s) && |s| < n <= buf.Length
    modifies buf
    ensures buf[..|s|] == s
    ensures forall i :: |s| <= i < n ==> buf[i] == '\0'
    ensures CStr(buf[..]) == s
  {
    for i := 0 to |s|
      invariant buf[..i] == s[..i]
    {
      buf[i] := s[i];
    }
    for i := |s| to n
      invariant buf[..|s|] == s
      invariant forall j :: |s| <= j < i ==> buf[j] == '\0'
    {
      buf[i] := '\0';
    }
    CStrIs(buf[..], s);
  }

  /** The first position of `c` in `s`. */
  function Find(s: string, c: char): (k: nat)
    ensures k <= |s| && (k < |s| ==> s[k] == c)
    ensures forall i :: 0 <= i < k ==> s[i] != c
  {
    if s == [] || s[0] == c then 0 else 1 + Find(s[1..], c)
  }

  /** The last position of `c` in `s`, or the length of `s` when there is none. */
  function FindLast(s: string, c: char): (k: nat)
    ensures k <= |s| && (k < |s| ==> s[k] == c)
    ensures forall i :: k < i < |s| ==> s[i] != c
    ensures k == |s| ==> c !in s
  {
    if s == [] then 0
    else if s[|s| - 1] == c then |s| - 1
    else
      var k := FindLast(s[..|s| - 1], c);
      assert s == s[..|s| - 1] + [s[|s| - 1]];
      if k == |s| - 1 then |s| else k
  }

  // ---- components ----

  /** The components that the loop of `vfs_resolve_path` cuts off one by one; a trailing
      slash adds none. */
  function Tokens(s: string): (ts: seq<string>)
    decreases |s|
  {
    if s == [] then []
    else
      var k := Find(s, '/');
      if k == |s| then [s] else [s[..k]] + Tokens(s[k + 1..])
  }

  function SkipSlash(path: string): string {
    if path != [] && path[0] == '/' then path[1..] else path
  }

  /** `vfs_path_dirname` */
  function DirName(path: string): string {
    var k := FindLast(path, '/');
    if k == |path| then "." else if k == 0 then "/" else path[..k]
  }

  /** `vfs_path_basename` */
  function BaseName(path: string): string {
    var k := FindLast(path, '/');
    if k == |path| then path else path[k + 1..]
  }

  /** An absolute path that ends in a proper component: it starts with a slash, its last
      component is not empty and is set off by a single slash. */
  predicate Proper(path: string) {
    && path != [] && path[0] == '/'
    && BaseName(path) != []
    && var k := FindLast(path, '/'); k == 0 || path[k - 1] != '/'
  }

  /** One leading slash is skipped; then every slash ends a component, so that a doubled slash makes
      an empty one and a trailing slash none. */
  lemma TokensByPieces(piece: string, rest: string)
    requires '/' !in piece
    ensures SkipSlash("/" + rest) == rest && SkipSlash(piece) == piece
    ensures Tokens([]) == [] && (piece != [] ==> Tokens(piece) == [piece])
    ensures Tokens(piece + "/" + rest) == [piece] + Tokens(rest)
  {
    var s := piece + "/" + rest;
    assert s[|piece|] == '/' && forall i :: 0 <= i < |piece| ==> s[i] == piece[i];
    assert Find(s, '/') == |piece| && s[..|piece|] == piece && s[|piece| + 1..] == rest;
  }

  /** Directory part and last component, cut at the last slash. */
  lemma PartsOfPath(path: string)
    ensures '/' !in BaseName(path)
    ensures '/' !in path ==> DirName(path) == "." && BaseName(path) == path
    ensures '/' in path ==>
              var k := |path| - |BaseName(path)| - 1;
              && k >= 0 && path == path[..k] + "/" + BaseName(path)
              && DirName(path) == if k == 0 then "/" else path[..k]
  {
    var k := FindLast(path, '/');
    if k < |path| {
      assert path == path[..k] + [path[k]] + path[k + 1..];
    }
  }

  /** A text, a slash and a component are taken apart again. */
  lemma PartsOfJoin(s: string, name: string)
    requires '/' !in name
    ensures DirName(s + "/" + name) == (if s == [] then "/" else s) && BaseName(s + "/" + name) == name
  {
    var path := s + "/" + name;
    assert path[|s|] == '/';
    assert forall i :: |s| < i < |path| ==> path[i] == name[i - |s| - 1];
    assert FindLast(path, '/') == |s|;
    assert path[|s| + 1..] == name && path[..|s|] == s;
  }

  lemma {:induction false} FindInPrefix(s: string, t: string, c: char)
    requires c in s
    ensures Find(s + t, c) == Find(s, c) < |s|
  {
    if s[0] != c {
      assert s == [s[0]] + s[1..];
      assert (s + t)[1..] == s[1..] + t;
      FindInPrefix(s[1..], t, c);
    }
  }

  lemma {:induction false} FindPast(s: string, t: string, c: char)
    requires c !in s
    ensures Find(s + t, c) == |s| + Find(t, c)
  {
    if s == [] {
      assert s + t == t;
    } else {
      assert (s + t)[1..] == s[1..] + t;
      FindPast(s[1..], t, c);
    }
  }

  /** Appending a slash and one more component to a text that does not end in a slash appends
      one token. */
  lemma {:induction false} TokensOfJoin(s: string, base: string)
    requires s != [] && s[|s| - 1] != '/' && base != [] && '/' !in base
    ensures Tokens(s + "/" + base) == Tokens(s) + [base]
    decreases |s|
  {
    var whole := s + "/" + base;
    var k := Find(s, '/');
    if k == |s| {
      assert '/' !in s;
      FindPast(s, "/" + base, '/');
      assert whole == s + ("/" + base);
      assert whole[k + 1..] == base;
      assert whole[..k] == s;
      OneToken(base);
    } else {
      assert '/' in s;
      FindInPrefix(s, "/" + base, '/');
      assert whole == s + ("/" + base);
      assert whole[k + 1..] == s[k + 1..] + "/" + base;
      assert whole[..k] == s[..k];
      TokensOfJoin(s[k + 1..], base);
    }
  }

  lemma OneToken(base: string)
    requires base != [] && '/' !in base
    ensures Tokens(base) == [base]
  {
    assert Find(base, '/') == |base|;
  }

  /** Cutting a proper path at its last slash splits off exactly its last component. */
  lemma TokensOfPath(path: string)
    requires Proper(path)
    ensures Tokens(SkipSlash(path)) == Tokens(SkipSlash(DirName(path))) + [BaseName(path)]
  {
    var k, base := FindLast(path, '/'), BaseName(path);
    assert '/' !in base;
    if k == 0 {
      assert SkipSlash(path) == base;
      assert SkipSlash("/") == [];
      OneToken(base);
    } else {
      var dir := path[..k];
      assert path == dir + "/" + base;
      var s := dir[1..];
      assert k > 1 by {
        assert path[k - 1] != '/';
      }
      assert s[|s| - 1] == path[k - 1];
      assert SkipSlash(path) == s + "/" + base;
      TokensOfJoin(s, base);
    }
  }

  // ---- the buffer code ----

  /** `strchr(buf + from, c)` on a buffer whose text ends at `end`. */
  method StrChr(buf: array<char>, from: nat, c: char, ghost end: nat) returns (k: nat, found: bool)
    requires from <= end < buf.Length && buf[end] == '\0' && c != '\0'
    requires forall i :: from <= i < end ==> buf[i] != '\0'
    ensures found ==> from <= k < end && k == from + Find(buf[from..end], c)
    ensures !found ==> Find(buf[from..end], c) == end - from
  {
    k := from;
    while buf[k] != '\0'
      invariant from <= k <= end
      invariant forall i :: from <= i < k ==> buf[i] != c
      decreases end - k
    {
      if buf[k] == c {
        FirstIsFind(buf[from..end], k - from, c);
        return k, true;
      }
      k := k + 1;
    }
    found := false;
    NoneIsEnd(buf[from..end], c);
  }

  lemma FirstIsFind(s: string, k: nat, c: char)
    requires k < |s| && s[k] == c && forall i :: 0 <= i < k ==> s[i] != c
    ensures Find(s, c) == k
  {
  }

  lemma NoneIsEnd(s: string, c: char)
    requires forall i :: 0 <= i < |s| ==> s[i] != c
    ensures Find(s, c) == |s|
  {
  }

  /** `vfs_path_dirname(path, buf, VFS_PATH_MAX)` */
  method PathDirName(path: string, buf: array<char>)
    requires NoNul(path) && |path| <= VFS_PATH_MAX - 2 && buf.Length == VFS_PATH_MAX
    modifies buf
    ensures CStr(buf[..]) == DirName(path)
  {
    hide CStr, FindLast;
    StrNCpy(buf, path, VFS_PATH_MAX - 1);
    var k := |path|;
    while k > 0 && buf[k - 1] != '/'
      invariant 0 <= k <= |path|
      invariant forall i :: k <= i < |path| ==> path[i] != '/'
    {
      assert buf[..|path|][k - 1] == path[k - 1];
      k := k - 1;
    }
    assert k > 0 ==> path[k - 1] == '/' by {
      assert k > 0 ==> buf[..|path|][k - 1] == path[k - 1];
    }
    LastIsFindLast(path, k);
    if k == 0 {
      buf[0] := '.';
      buf[1] := '\0';
      CStrIs(buf[..], ".");
      return;
    }
    var slash := k - 1;
    assert buf[..slash] == path[..slash];
    if slash == 0 {
      assert buf[0] == '/';
      buf[1] := '\0';
      CStrIs(buf[..], "/");
      return;
    }
    buf[slash] := '\0';
    CStrIs(buf[..], path[..slash]);
  }

  lemma LastIsFindLast(s: string, k: nat)
    requires k <= |s| && (k > 0 ==> s[k - 1] == '/') && forall i :: k <= i < |s| ==> s[i] != '/'
    ensures FindLast(s, '/') == if k > 0 then k - 1 else |s|
  {
  }

  /** `vfs_path_basename(path, buf, VFS_PATH_MAX)` */
  method PathBaseName(path: string, buf: array<char>)
    requires NoNul(path) && |path| <= VFS_PATH_MAX - 2 && buf.Length == VFS_PATH_MAX
    modifies buf
    ensures CStr(buf[..]) == BaseName(path)
  {
    var k := |path|;
    while k > 0 && path[k - 1] != '/'
      invariant 0 <= k <= |path|
      invariant forall i :: k <= i < |path| ==> path[i] != '/'
    {
      k := k - 1;
    }
    LastIsFindLast(path, k);
    StrNCpy(buf, path[k..], VFS_PATH_MAX - 1);
    buf[VFS_PATH_MAX - 1] := '\0';
    CStrIs(buf[..], path[k..]);
    assert BaseName(path) == path[k..];
  }
}
