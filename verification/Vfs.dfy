/** The path calls of kernel/fs/vfs.c over a tmpfs mounted at the root. */
module Vfs {
  import opened Wrappers
  import opened Paths
  import FileTree
  import Tmpfs

  /** The text at position `tok` of the buffer is `rest`. */
  predicate TextAt(buf: seq<char>, tok: nat, rest: string) {
    && NoNul(rest) && tok + |rest| < |buf|
    && buf[tok..tok + |rest|] == rest && buf[tok + |rest|] == '\0'
  }

  lemma TextStarts(buf: seq<char>, tok: nat, rest: string)
    requires TextAt(buf, tok, rest)
    ensures tok < |buf|
    ensures rest == [] <==> buf[tok] == '\0'
    ensures rest != [] ==> rest[0] == buf[tok]
  {
    if rest != [] {
      assert buf[tok..tok + |rest|][0] == buf[tok];
    }
  }

  /** `node` is node `d` of the tree, from where the names of `rest` lead to `goal`; without a
      node, `goal` is none. */
  ghost predicate Stands(fs: Tmpfs.FileSystem, node: Tmpfs.Inode?, d: nat, rest: string, goal: Option<nat>)
    reads fs
  {
    if node == null then goal == None
    else
      && d < |fs.tree| == |fs.nodes| && node == fs.nodes[d]
      && goal == FileTree.Walk(fs.tree, d, Tokens(rest))
  }

  lemma Departs(fs: Tmpfs.FileSystem, path: string)
    requires fs.Valid()
    ensures FileTree.ROOT < |fs.tree| == |fs.nodes|
    ensures Stands(fs, fs.root, FileTree.ROOT, SkipSlash(path), FileTree.Resolve(fs.tree, path))
  {
    hide FileTree.Walk, Tokens, SkipSlash;
  }

  lemma Arrives(fs: Tmpfs.FileSystem, node: Tmpfs.Inode?, d: nat, rest: string, goal: Option<nat>)
    requires Stands(fs, node, d, rest, goal) && (node == null || rest == [])
    ensures goal.None? <==> node == null
    ensures node != null ==> d < |fs.nodes| && Some(d) == goal && node == fs.nodes[d]
  {
    assert Tokens([]) == [];
  }

  /** `vfs_resolve_path`: cut the text at its slashes in place and follow the pieces. */
  method ResolvePath(fs: Tmpfs.FileSystem, path: string) returns (node: Tmpfs.Inode?, ghost d: nat)
    requires fs.Valid() && NoNul(path) && |path| <= VFS_PATH_MAX - 2
    ensures FileTree.Resolve(fs.tree, path).None? <==> node == null
    ensures node != null ==> Some(d) == FileTree.Resolve(fs.tree, path) && node == fs.nodes[d]
  {
    hide FileTree.Resolve, FileTree.Walk, FileTree.FindDir, SkipSlash, Tokens, Tmpfs.FileSystem.Valid, NoNul, TextAt,
         Stands, Behind, FileTree.TreeOk;
    Departs(fs, path);
    ghost var goal, rest := FileTree.Resolve(fs.tree, path), SkipSlash(path);
    node, d := fs.root, FileTree.ROOT;
    if path == "/" {
      RootIsEmpty();
      Arrives(fs, node, d, rest, goal);
      return;
    }
    var buf: array<char>, tok: nat := FirstText(path);
    var more := true;
    TextStarts(buf[..], tok, rest);
    while more && buf[tok] != '\0'
      invariant if more then tok < buf.Length && TextAt(buf[..], tok, rest) else rest == []
      invariant node != null && Stands(fs, node, d, rest, goal)
      decreases more, |rest|
      modifies buf
    {
      TextStarts(buf[..], tok, rest);
      var slash: nat, found;
      node, d, slash, found := FollowPiece(fs, node, d, buf, tok, rest, goal);
      rest := Behind(rest);
      if node == null {
        Arrives(fs, node, d, rest, goal);
        return;
      }
      if found {
        tok := slash + 1;
      } else {
        more := false;
      }
    }
    if more {
      TextStarts(buf[..], tok, rest);
    }
    Arrives(fs, node, d, rest, goal);
  }

  /** What is left of a text behind its first slash. */
  function Behind(rest: string): (r: string)
    ensures rest != [] ==> |r| < |rest|
  {
    var k := Find(rest, '/');
    if k < |rest| then rest[k + 1..] else []
  }

  /** One round of the loop of `vfs_resolve_path`: look the piece at `tok` up in `node`. */
  method FollowPiece(fs: Tmpfs.FileSystem, node: Tmpfs.Inode, ghost d: nat, buf: array<char>, tok: nat,
                     ghost rest: string, ghost goal: Option<nat>)
    returns (next: Tmpfs.Inode?, ghost e: nat, slash: nat, found: bool)
    requires fs.Valid() && Stands(fs, node, d, rest, goal)
    requires TextAt(buf[..], tok, rest) && rest != []
    modifies buf
    ensures Stands(fs, next, e, Behind(rest), goal)
    ensures !found ==> Behind(rest) == []
    ensures found ==> slash + 1 < buf.Length && TextAt(buf[..], slash + 1, Behind(rest))
  {
    hide Tmpfs.FileSystem.Valid, FileTree.Walk, FileTree.FindDir, Tokens, Find, NoNul, TextAt, Behind;
    var piece;
    piece, slash, found := CutPiece(buf, tok, rest);
    StepDown(fs.tree, d, rest);
    next := fs.FindDir(node, piece, d);
    e := if next == null then 0 else FileTree.FindDir(fs.tree, d, piece).value;
  }

  /** The start of `vfs_resolve_path`: copy the path and skip a leading slash. */
  method FirstText(path: string) returns (buf: array<char>, tok: nat)
    requires NoNul(path) && |path| <= VFS_PATH_MAX - 2
    ensures fresh(buf) && TextAt(buf[..], tok, SkipSlash(path))
  {
    buf := new char[VFS_PATH_MAX](_ => '\0');
    StrNCpy(buf, path, VFS_PATH_MAX - 1);
    assert path != [] ==> buf[..|path|][0] == path[0];
    tok := if buf[0] == '/' then 1 else 0;
  }

  /** One round of the loop of `vfs_resolve_path`: end the piece at `tok` with a NUL. */
  method CutPiece(buf: array<char>, tok: nat, ghost rest: string) returns (piece: string, slash: nat, found: bool)
    requires TextAt(buf[..], tok, rest) && rest != []
    modifies buf
    ensures piece == rest[..Find(rest, '/')]
    ensures !found ==> Behind(rest) == []
    ensures found ==> slash + 1 < buf.Length && TextAt(buf[..], slash + 1, Behind(rest))
  {
    TextLasts(buf[..], tok, rest);
    hide Find, TextAt, CStr, NoNul;
    assert buf[tok..tok + |rest|] == buf[..][tok..tok + |rest|];
    slash, found := StrChr(buf, tok, '/', tok + |rest|);
    if found {
      CutAt(buf, tok, rest, slash);
    } else {
      TextReads(buf[..], tok, rest);
    }
    assert buf[tok..] == buf[..][tok..];
    piece := CStr(buf[tok..]);
  }

  /** The NUL that replaces the slash. */
  method CutAt(buf: array<char>, tok: nat, ghost rest: string, slash: nat)
    requires TextAt(buf[..], tok, rest) && tok <= slash < tok + |rest|
    modifies buf
    ensures slash + 1 < buf.Length && CStr(buf[..][tok..]) == rest[..slash - tok]
    ensures TextAt(buf[..], slash + 1, rest[slash - tok + 1..])
  {
    ghost var was := buf[..];
    CutText(was, tok, rest, slash - tok);
    hide CStr, NoNul;
    buf[slash] := '\0';
    assert buf[..] == was[slash := '\0'];
  }

  lemma TextLasts(buf: seq<char>, tok: nat, rest: string)
    requires TextAt(buf, tok, rest)
    ensures tok + |rest| < |buf| && buf[tok..tok + |rest|] == rest && buf[tok + |rest|] == '\0'
    ensures forall i :: tok <= i < tok + |rest| ==> buf[i] != '\0'
  {
    forall i | tok <= i < tok + |rest|
      ensures buf[i] != '\0'
    {
      assert buf[i] == rest[i - tok];
    }
  }

  lemma TextReads(buf: seq<char>, tok: nat, rest: string)
    requires TextAt(buf, tok, rest)
    ensures tok < |buf| && CStr(buf[tok..]) == rest == rest[..|rest|]
  {
    assert buf[tok..][..|rest|] == buf[tok..tok + |rest|];
    CStrIs(buf[tok..], rest);
  }

  /** A NUL stored inside a text splits it into two texts. */
  lemma CutText(buf: seq<char>, tok: nat, rest: string, k: nat)
    requires TextAt(buf, tok, rest) && k < |rest|
    ensures var cut := buf[tok + k := '\0'];
            && CStr(cut[tok..]) == rest[..k]
            && TextAt(cut, tok + k + 1, rest[k + 1..])
  {
    var cut := buf[tok + k := '\0'];
    var end := tok + |rest|;
    assert buf[tok..end] == rest;
    assert cut[tok..tok + k] == buf[tok..end][..k] == rest[..k];
    assert cut[tok + k + 1..end] == buf[tok..end][k + 1..] == rest[k + 1..];
    TextReads(cut, tok, rest[..k]);
  }

  lemma StepDown(t: FileTree.Tree, d: nat, rest: string)
    requires d < |t| && rest != []
    ensures FileTree.Walk(t, d, Tokens(rest)) ==
            match FileTree.FindDir(t, d, rest[..Find(rest, '/')])
            case None => None
            case Some(c) => FileTree.Walk(t, c, Tokens(Behind(rest)))
  {
    hide FileTree.FindDir, Find;
    var k := Find(rest, '/');
    var names := Tokens(rest);
    if k < |rest| {
      assert names == [rest[..k]] + Tokens(rest[k + 1..]);
      assert names[1..] == Tokens(rest[k + 1..]);
    } else {
      assert names == [rest] && names[1..] == [] && rest[..k] == rest;
    }
  }

  lemma RootIsEmpty()
    ensures SkipSlash("/") == []
  {
  }

  lemma PartsAreShort(path: string)
    requires NoNul(path) && |path| <= VFS_PATH_MAX - 2
    ensures NoNul(DirName(path)) && |DirName(path)| <= VFS_PATH_MAX - 2
  {
  }

  /** The two local buffers of `vfs_mkdir` and `vfs_unlink`. */
  method SplitPath(path: string) returns (dir: string, base: string)
    requires NoNul(path) && |path| <= VFS_PATH_MAX - 2
    ensures dir == DirName(path) && base == BaseName(path)
  {
    var dirBuf := new char[VFS_PATH_MAX](_ => '\0');
    var baseBuf := new char[VFS_PATH_MAX](_ => '\0');
    PathDirName(path, dirBuf);
    PathBaseName(path, baseBuf);
    dir, base := CStr(dirBuf[..]), CStr(baseBuf[..]);
  }

  /** `vfs_mkdir` */
  method MkDir(fs: Tmpfs.FileSystem, path: string, granted: bool) returns (code: int)
    requires fs.Valid() && NoNul(path) && |path| <= VFS_PATH_MAX - 2
    modifies fs, fs.nodes, set i | 0 <= i < |fs.nodes| :: fs.nodes[i].children
    ensures fs.Valid() && old(fs.nodes) <= fs.nodes
    ensures FileTree.Outcome(fs.tree, code) == FileTree.MakeAt(old(fs.tree), path, granted)
  {
    assert |fs.tree| == |fs.nodes|;
    hide Tmpfs.FileSystem.Valid, NoNul, DirName, BaseName, FileTree.Resolve, FileTree.MkDir;
    PartsAreShort(path);
    var dir, base := SplitPath(path);
    var parent, d := ResolvePath(fs, dir);
    if parent == null {
      return -FileTree.ENOENT;
    }
    code := fs.MkDir(parent, base, granted, d);
  }

  /** `vfs_unlink` */
  method Unlink(fs: Tmpfs.FileSystem, path: string) returns (code: int)
    requires fs.Valid() && NoNul(path) && |path| <= VFS_PATH_MAX - 2
    modifies fs, fs.nodes, set i | 0 <= i < |fs.nodes| :: fs.nodes[i].children
    ensures fs.Valid() && fs.nodes == old(fs.nodes)
    ensures FileTree.Outcome(fs.tree, code) == FileTree.RemoveAt(old(fs.tree), path)
  {
    assert |fs.tree| == |fs.nodes|;
    hide Tmpfs.FileSystem.Valid, NoNul, DirName, BaseName, FileTree.Resolve, FileTree.Unlink, FileTree.FindDir;
    PartsAreShort(path);
    var dir, base := SplitPath(path);
    var parent, d := ResolvePath(fs, dir);
    if parent == null {
      return -FileTree.ENOENT;
    }
    code := fs.Unlink(parent, base, d);
  }
}
