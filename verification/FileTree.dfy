/** The directory tree of fs/tmpfs/tmpfs.c as a table of nodes, and path walks over it. */
module FileTree {
  import opened Wrappers
  import opened Paths

  const TMPFS_MAX_CHILDREN: nat := 64
  const ROOT: nat := 0

  /** A node's name and its children, in creation order; node ids are table positions. */
  datatype Node = Node(name: string, kids: seq<nat>)

  type Tree = seq<Node>

  /** Node `d` lists node `c` at position `k`. */
  predicate Lists(t: Tree, d: nat, k: nat, c: nat) {
    d < |t| && k < |t[d].kids| && t[d].kids[k] == c
  }

  /** Children come after their parent in the table (so there is no cycle), no node is listed
      twice, and the fixed-size fields are respected. */
  ghost predicate TreeOk(t: Tree) {
    && ROOT < |t|
    && (forall d: nat, k: nat, c: nat :: Lists(t, d, k, c) ==> d < c < |t|)
    && (forall d: nat, k: nat, e: nat, l: nat, c: nat :: Lists(t, d, k, c) && Lists(t, e, l, c) ==> d == e && k == l)
    && (forall d :: 0 <= d < |t| ==> |t[d].kids| <= TMPFS_MAX_CHILDREN && |t[d].name| <= VFS_NAME_MAX)
  }

  // ---- looking up ----

  /** The first of the children `kids` that is called `name`. */
  function FindIn(t: Tree, kids: seq<nat>, name: string): (r: Option<nat>)
    ensures r.Some? ==> r.value in kids && r.value < |t| && t[r.value].name == name
    ensures r.None? ==> forall k :: 0 <= k < |kids| && kids[k] < |t| ==> t[kids[k]].name != name
    decreases |kids|
  {
    if kids == [] then None
    else if kids[0] < |t| && t[kids[0]].name == name then Some(kids[0])
    else FindIn(t, kids[1..], name)
  }

  /** `tmpfs_finddir` */
  function FindDir(t: Tree, d: nat, name: string): (r: Option<nat>)
    requires d < |t|
    ensures r.Some? ==> r.value < |t|
  {
    FindIn(t, t[d].kids, name)
  }

  /** The loop of `vfs_resolve_path`: follow the names from node `d`. */
  function Walk(t: Tree, d: nat, names: seq<string>): (r: Option<nat>)
    requires d < |t|
    ensures r.Some? ==> r.value < |t|
    decreases |names|
  {
    if names == [] then Some(d)
    else
      match FindDir(t, d, names[0])
      case None => None
      case Some(c) => Walk(t, c, names[1..])
  }

  /** `vfs_resolve_path` */
  function Resolve(t: Tree, path: string): (r: Option<nat>)
    requires t != []
    ensures r.Some? ==> r.value < |t|
  {
    Walk(t, ROOT, Tokens(SkipSlash(path)))
  }

  lemma {:induction false} WalkSplits(t: Tree, d: nat, front: seq<string>, last: string)
    requires d < |t|
    ensures Walk(t, d, front + [last]) ==
            match Walk(t, d, front) case None => None case Some(e) => FindDir(t, e, last)
    decreases |front|
  {
    if front == [] {
      assert front + [last] == [last];
      assert [last][1..] == [];
      match FindDir(t, d, last)
      case None =>
      case Some(c) => assert Walk(t, c, []) == Some(c);
    } else {
      assert (front + [last])[0] == front[0];
      assert (front + [last])[1..] == front[1..] + [last];
      match FindDir(t, d, front[0])
      case None =>
      case Some(c) => WalkSplits(t, c, front[1..], last);
    }
  }

  /** Resolving a proper path is resolving its directory part and looking its last component
      up there. */
  lemma ResolveSplits(t: Tree, path: string)
    requires t != [] && Proper(path)
    ensures Resolve(t, path) ==
            match Resolve(t, DirName(path)) case None => None case Some(d) => FindDir(t, d, BaseName(path))
  {
    TokensOfPath(path);
    WalkSplits(t, ROOT, Tokens(SkipSlash(DirName(path))), BaseName(path));
  }

  // ---- mkdir ----

  /** `strncpy(child->vnode.name, name, VFS_NAME_MAX)` */
  function Truncated(name: string): string {
    if |name| <= VFS_NAME_MAX then name else name[..VFS_NAME_MAX]
  }

  /** `tmpfs_mkdir` in a directory with room: an empty new last child. */
  function MkDir(t: Tree, d: nat, name: string): Tree
    requires d < |t|
  {
    t[d := t[d].(kids := t[d].kids + [|t|])] + [Node(Truncated(name), [])]
  }

  lemma ListsAfterMkDir(t: Tree, d: nat, name: string, e: nat, k: nat, c: nat)
    requires d < |t|
    ensures Lists(MkDir(t, d, name), e, k, c) <==>
            Lists(t, e, k, c) || (e == d && k == |t[d].kids| && c == |t|)
  {
  }

  /** Making a directory keeps the tree a tree. */
  lemma MkDirKeepsTree(t: Tree, d: nat, name: string)
    requires TreeOk(t) && d < |t| && |t[d].kids| < TMPFS_MAX_CHILDREN
    ensures TreeOk(MkDir(t, d, name))
  {
    var u := MkDir(t, d, name);
    forall e: nat, k: nat, c: nat
      ensures Lists(u, e, k, c) <==> Lists(t, e, k, c) || (e == d && k == |t[d].kids| && c == |t|)
    {
      ListsAfterMkDir(t, d, name, e, k, c);
    }
  }

  lemma {:induction false} FindInGrown(t: Tree, u: Tree, kids: seq<nat>, name: string)
    requires |t| <= |u| && (forall i :: 0 <= i < |t| ==> u[i].name == t[i].name)
    requires forall k :: 0 <= k < |kids| ==> kids[k] < |t|
    ensures FindIn(u, kids, name) == FindIn(t, kids, name)
    decreases |kids|
  {
    if kids != [] {
      FindInGrown(t, u, kids[1..], name);
    }
  }

  lemma {:induction false} FindInAppended(t: Tree, kids: seq<nat>, c: nat, name: string)
    requires c < |t|
    ensures FindIn(t, kids + [c], name) ==
            if FindIn(t, kids, name).Some? then FindIn(t, kids, name)
            else if t[c].name == name then Some(c) else None
    decreases |kids|
  {
    if kids == [] {
      assert kids + [c] == [c];
      assert [c][1..] == [];
    } else {
      assert (kids + [c])[0] == kids[0];
      assert (kids + [c])[1..] == kids[1..] + [c];
      FindInAppended(t, kids[1..], c, name);
    }
  }

  /** What looking up finds after a directory was made: old children first, then the new one. */
  lemma FindAfterMkDir(t: Tree, d: nat, base: string, e: nat, name: string)
    requires TreeOk(t) && d < |t| && e < |t|
    ensures FindDir(MkDir(t, d, base), e, name) ==
            if FindDir(t, e, name).Some? then FindDir(t, e, name)
            else if e == d && Truncated(base) == name then Some(|t|) else None
  {
    var u := MkDir(t, d, base);
    forall k | 0 <= k < |t[e].kids|
      ensures t[e].kids[k] < |t|
    {
      assert Lists(t, e, k, t[e].kids[k]);
    }
    FindInGrown(t, u, t[e].kids, name);
    if e == d {
      FindInAppended(u, t[d].kids, |t|, name);
    }
  }

  /** Every walk that succeeded before leads to the same node afterwards. */
  lemma {:induction false} MkDirKeepsWalks(t: Tree, d: nat, base: string, e: nat, names: seq<string>)
    requires TreeOk(t) && d < |t| && e < |t| && Walk(t, e, names).Some?
    ensures Walk(MkDir(t, d, base), e, names) == Walk(t, e, names)
    decreases |names|
  {
    if names != [] {
      FindAfterMkDir(t, d, base, e, names[0]);
      MkDirKeepsWalks(t, d, base, FindDir(t, e, names[0]).value, names[1..]);
    }
  }

  /** After `mkdir` of a proper path every old path still resolves to its node, and the new
      path resolves to the new directory exactly when it did not resolve before and its last
      component is at most 255 characters long.  A repeated `mkdir` adds a second child of
      the same name that no path reaches; a longer name is cut and never found. */
  lemma MkDirThenResolve(t: Tree, path: string, d: nat)
    requires TreeOk(t) && Proper(path) && Resolve(t, DirName(path)) == Some(d)
    ensures var u := MkDir(t, d, BaseName(path));
            && (forall p: string :: Resolve(t, p).Some? ==> Resolve(u, p) == Resolve(t, p))
            && Resolve(u, path) ==
               (if Resolve(t, path).Some? then Resolve(t, path)
                else if |BaseName(path)| <= VFS_NAME_MAX then Some(|t|) else None)
            && (Resolve(u, path) == Some(|t|) <==>
                  Resolve(t, path).None? && |BaseName(path)| <= VFS_NAME_MAX)
  {
    var base := BaseName(path);
    var u := MkDir(t, d, base);
    forall p: string | Resolve(t, p).Some?
      ensures Resolve(u, p) == Resolve(t, p)
    {
      MkDirKeepsWalks(t, d, base, ROOT, Tokens(SkipSlash(p)));
    }
    ResolveSplits(t, path);
    ResolveSplits(u, path);
    FindAfterMkDir(t, d, base, d, base);
  }

  // ---- unlink ----

  /** The position of the first child called `name`, or the number of children. */
  function IndexOf(t: Tree, kids: seq<nat>, name: string): (k: nat)
    ensures k <= |kids|
    ensures k < |kids| ==> kids[k] < |t| && t[kids[k]].name == name
    decreases |kids|
  {
    if kids == [] then 0
    else if kids[0] < |t| && t[kids[0]].name == name then 0
    else 1 + IndexOf(t, kids[1..], name)
  }

  function Dropped(kids: seq<nat>, k: nat): seq<nat>
    requires k < |kids|
  {
    kids[..k] + kids[k + 1..]
  }

  /** `tmpfs_unlink` of a name that is there: the first child of that name goes. */
  function Unlink(t: Tree, d: nat, name: string): Tree
    requires d < |t| && FindDir(t, d, name).Some?
  {
    FindIsIndex(t, t[d].kids, name);
    t[d := t[d].(kids := Dropped(t[d].kids, IndexOf(t, t[d].kids, name)))]
  }

  lemma {:induction false} FindIsIndex(t: Tree, kids: seq<nat>, name: string)
    ensures var k := IndexOf(t, kids, name);
            FindIn(t, kids, name) == if k < |kids| then Some(kids[k]) else None
    decreases |kids|
  {
    if kids != [] {
      FindIsIndex(t, kids[1..], name);
    }
  }

  lemma ListsAfterUnlink(t: Tree, d: nat, name: string, e: nat, k: nat, c: nat)
    requires d < |t| && FindDir(t, d, name).Some?
    ensures var i := IndexOf(t, t[d].kids, name);
            Lists(Unlink(t, d, name), e, k, c) <==>
            if e == d then Lists(t, e, if k < i then k else k + 1, c) else Lists(t, e, k, c)
  {
    FindIsIndex(t, t[d].kids, name);
  }

  /** Unlinking keeps the tree a tree. */
  lemma UnlinkKeepsTree(t: Tree, d: nat, name: string)
    requires TreeOk(t) && d < |t| && FindDir(t, d, name).Some?
    ensures TreeOk(Unlink(t, d, name))
  {
    var u := Unlink(t, d, name);
    var i := IndexOf(t, t[d].kids, name);
    FindIsIndex(t, t[d].kids, name);
    forall e: nat, k: nat, c: nat | Lists(u, e, k, c)
      ensures e < c < |u|
    {
      ListsAfterUnlink(t, d, name, e, k, c);
      assert Lists(t, e, if e == d && k >= i then k + 1 else k, c);
    }
    forall e: nat, k: nat, f: nat, l: nat, c: nat | Lists(u, e, k, c) && Lists(u, f, l, c)
      ensures e == f && k == l
    {
      ListsAfterUnlink(t, d, name, e, k, c);
      ListsAfterUnlink(t, d, name, f, l, c);
      assert Lists(t, e, if e == d && k >= i then k + 1 else k, c);
      assert Lists(t, f, if f == d && l >= i then l + 1 else l, c);
    }
    forall e | 0 <= e < |u|
      ensures |u[e].kids| <= TMPFS_MAX_CHILDREN && |u[e].name| <= VFS_NAME_MAX
    {
      assert |t[e].kids| <= TMPFS_MAX_CHILDREN && |t[e].name| <= VFS_NAME_MAX;
    }
  }

  lemma {:induction false} FindInDropped(t: Tree, kids: seq<nat>, name: string, other: string)
    requires IndexOf(t, kids, name) < |kids|
    ensures other != name ==>
              FindIn(t, Dropped(kids, IndexOf(t, kids, name)), other) == FindIn(t, kids, other)
    ensures FindIn(t, Dropped(kids, IndexOf(t, kids, name)), name) ==
            FindIn(t, kids[IndexOf(t, kids, name) + 1..], name)
    decreases |kids|
  {
    var k := IndexOf(t, kids, name);
    if k == 0 {
      assert Dropped(kids, 0) == kids[1..];
    } else {
      FindInDropped(t, kids[1..], name, other);
      var rest := Dropped(kids, k);
      assert rest[0] == kids[0];
      assert rest[1..] == Dropped(kids[1..], k - 1);
      assert kids[k + 1..] == kids[1..][k..];
    }
  }

  lemma {:induction false} FindInSameNames(t: Tree, u: Tree, kids: seq<nat>, name: string)
    requires |t| == |u| && forall i :: 0 <= i < |t| ==> u[i].name == t[i].name
    ensures FindIn(u, kids, name) == FindIn(t, kids, name)
    decreases |kids|
  {
    if kids != [] {
      FindInSameNames(t, u, kids[1..], name);
    }
  }

  /** The next child of the same name behind the first one. */
  function Twin(t: Tree, d: nat, name: string): Option<nat>
    requires d < |t| && FindDir(t, d, name).Some?
  {
    FindIsIndex(t, t[d].kids, name);
    FindIn(t, t[d].kids[IndexOf(t, t[d].kids, name) + 1..], name)
  }

  /** Looking up after an unlink: only the unlinked name in that directory changes, to the
      next child of the same name if there is one. */
  lemma FindAfterUnlink(t: Tree, d: nat, name: string, e: nat, other: string)
    requires d < |t| && e < |t| && FindDir(t, d, name).Some?
    ensures FindDir(Unlink(t, d, name), e, other) ==
            if e == d && other == name then Twin(t, d, name) else FindDir(t, e, other)
  {
    var u := Unlink(t, d, name);
    FindIsIndex(t, t[d].kids, name);
    FindInSameNames(t, u, u[e].kids, other);
    if e == d {
      FindInDropped(t, t[d].kids, name, other);
    }
  }

  /** The walk looks `name` up in node `d` at some point. */
  ghost predicate PassesThrough(t: Tree, e: nat, names: seq<string>, d: nat, name: string)
    requires e < |t|
    decreases |names|
  {
    names != [] &&
    (|| (e == d && names[0] == name)
     || (FindDir(t, e, names[0]).Some? && PassesThrough(t, FindDir(t, e, names[0]).value, names[1..], d, name)))
  }

  /** Walks that do not use the unlinked entry are not affected. */
  lemma {:induction false} UnlinkKeepsWalks(t: Tree, d: nat, name: string, e: nat, names: seq<string>)
    requires d < |t| && e < |t| && FindDir(t, d, name).Some? && !PassesThrough(t, e, names, d, name)
    ensures Walk(Unlink(t, d, name), e, names) == Walk(t, e, names)
    decreases |names|
  {
    if names != [] {
      FindAfterUnlink(t, d, name, e, names[0]);
      if FindDir(t, e, names[0]).Some? {
        UnlinkKeepsWalks(t, d, name, FindDir(t, e, names[0]).value, names[1..]);
      }
    }
  }

  /** Walking down never meets a smaller node. */
  lemma {:induction false} WalkGoesUp(t: Tree, e: nat, names: seq<string>)
    requires TreeOk(t) && e < |t|
    ensures Walk(t, e, names).Some? ==> e <= Walk(t, e, names).value
    ensures Walk(t, e, names).Some? && names != [] ==> e < Walk(t, e, names).value
    decreases |names|
  {
    if names != [] && FindDir(t, e, names[0]).Some? {
      ChildIsLater(t, e, names[0]);
      WalkGoesUp(t, FindDir(t, e, names[0]).value, names[1..]);
    }
  }

  lemma ChildIsLater(t: Tree, e: nat, name: string)
    requires TreeOk(t) && e < |t| && FindDir(t, e, name).Some?
    ensures e < FindDir(t, e, name).value
  {
    var c := FindDir(t, e, name).value;
    var k :| 0 <= k < |t[e].kids| && t[e].kids[k] == c;
    assert Lists(t, e, k, c);
  }

  /** The walk to a directory does not use the entries of that directory. */
  lemma {:induction false} WalkToAvoids(t: Tree, e: nat, names: seq<string>, d: nat, name: string)
    requires TreeOk(t) && e < |t| && Walk(t, e, names) == Some(d)
    ensures !PassesThrough(t, e, names, d, name)
    decreases |names|
  {
    if names != [] {
      WalkGoesUp(t, e, names);
      WalkToAvoids(t, FindDir(t, e, names[0]).value, names[1..], d, name);
    }
  }

  /** After `unlink` of a proper path that resolved, the path resolves to its twin, so it is
      gone exactly when `mkdir` had not been called twice for it. */
  lemma UnlinkThenResolve(t: Tree, path: string, d: nat)
    requires TreeOk(t) && Proper(path) && Resolve(t, DirName(path)) == Some(d)
    requires FindDir(t, d, BaseName(path)).Some?
    ensures var u := Unlink(t, d, BaseName(path));
            && Resolve(u, DirName(path)) == Some(d)
            && Resolve(u, path) == Twin(t, d, BaseName(path))
            && (forall p: string :: !PassesThrough(t, ROOT, Tokens(SkipSlash(p)), d, BaseName(path)) ==>
                  Resolve(u, p) == Resolve(t, p))
  {
    var base := BaseName(path);
    var u := Unlink(t, d, base);
    forall p: string | !PassesThrough(t, ROOT, Tokens(SkipSlash(p)), d, base)
      ensures Resolve(u, p) == Resolve(t, p)
    {
      UnlinkKeepsWalks(t, d, base, ROOT, Tokens(SkipSlash(p)));
    }
    WalkToAvoids(t, ROOT, Tokens(SkipSlash(DirName(path))), d, base);
    ResolveSplits(u, path);
    FindAfterUnlink(t, d, base, d, base);
  }

  /** Unlinking right after a successful first `mkdir` makes the path unresolvable again. */
  lemma MkDirThenUnlink(t: Tree, path: string, d: nat)
    requires TreeOk(t) && Proper(path) && Resolve(t, DirName(path)) == Some(d)
    requires Resolve(t, path).None? && |BaseName(path)| <= VFS_NAME_MAX && |t[d].kids| < TMPFS_MAX_CHILDREN
    ensures var u := MkDir(t, d, BaseName(path));
            && FindDir(u, d, BaseName(path)) == Some(|t|)
            && Unlink(u, d, BaseName(path))[..|t|] == t
            && Resolve(Unlink(u, d, BaseName(path)), path).None?
  {
    hide TreeOk, Walk, Proper, BaseName, DirName;
    var base := BaseName(path);
    var u := MkDir(t, d, base);
    ResolveSplits(t, path);
    UnlinkTakesBack(t, d, base);
    MkDirKeepsTree(t, d, base);
    MkDirThenResolve(t, path, d);
    UnlinkThenResolve(u, path, d);
  }

  lemma UnlinkTakesBack(t: Tree, d: nat, base: string)
    requires TreeOk(t) && d < |t| && FindDir(t, d, base).None? && |base| <= VFS_NAME_MAX
    ensures var u := MkDir(t, d, base);
            && FindDir(u, d, base) == Some(|t|)
            && Unlink(u, d, base)[..|t|] == t
            && Twin(u, d, base) == None
  {
    var u := MkDir(t, d, base);
    FindAfterMkDir(t, d, base, d, base);
    IndexOfLast(t, d, base);
    hide TreeOk, FindIn;
    assert u[d].kids == t[d].kids + [|t|];
    assert u[d].kids[|t[d].kids| + 1..] == [];
    assert FindIn(u, [], base) == None;
    assert Dropped(u[d].kids, |t[d].kids|) == t[d].kids;
    var w := Unlink(u, d, base);
    assert w == u[d := u[d].(kids := t[d].kids)];
    assert w[..|t|] == t;
  }

  lemma IndexOfLast(t: Tree, d: nat, base: string)
    requires TreeOk(t) && d < |t| && FindDir(t, d, base).None? && |base| <= VFS_NAME_MAX
    ensures IndexOf(MkDir(t, d, base), t[d].kids + [|t|], base) == |t[d].kids|
  {
    var u := MkDir(t, d, base);
    forall k | 0 <= k < |t[d].kids|
      ensures t[d].kids[k] < |t| && u[t[d].kids[k]].name != base
    {
      assert Lists(t, d, k, t[d].kids[k]);
    }
    IndexOfAppended(u, t[d].kids, |t|, base);
  }

  lemma {:induction false} IndexOfAppended(t: Tree, kids: seq<nat>, c: nat, name: string)
    requires c < |t| && t[c].name == name
    requires forall k :: 0 <= k < |kids| ==> kids[k] < |t| && t[kids[k]].name != name
    ensures IndexOf(t, kids + [c], name) == |kids|
    decreases |kids|
  {
    if kids == [] {
      assert kids + [c] == [c];
    } else {
      assert (kids + [c])[1..] == kids[1..] + [c];
      IndexOfAppended(t, kids[1..], c, name);
    }
  }

  // ---- the calls by path, and runs of them ----

  const ENOENT: int := 2
  const ENOMEM: int := 12
  const ENOSPC: int := 28

  datatype Outcome = Outcome(tree: Tree, code: int)

  /** `vfs_mkdir`; `granted` says whether the heap has room for the new node. */
  function MakeAt(t: Tree, path: string, granted: bool): (r: Outcome)
    requires t != []
    ensures |t| <= |r.tree|
  {
    match Resolve(t, DirName(path))
    case None => Outcome(t, -ENOENT)
    case Some(d) =>
      if |t[d].kids| >= TMPFS_MAX_CHILDREN then Outcome(t, -ENOSPC)
      else if !granted then Outcome(t, -ENOMEM)
      else Outcome(MkDir(t, d, BaseName(path)), 0)
  }

  /** `vfs_unlink` */
  function RemoveAt(t: Tree, path: string): (r: Outcome)
    requires t != []
    ensures |t| <= |r.tree|
  {
    match Resolve(t, DirName(path))
    case None => Outcome(t, -ENOENT)
    case Some(d) =>
      if FindDir(t, d, BaseName(path)).None? then Outcome(t, -ENOENT)
      else Outcome(Unlink(t, d, BaseName(path)), 0)
  }

  datatype Call = Make(path: string, granted: bool) | Remove(path: string)

  function After(t: Tree, c: Call): (u: Tree)
    requires t != []
    ensures |t| <= |u|
  {
    match c
    case Make(path, granted) => MakeAt(t, path, granted).tree
    case Remove(path) => RemoveAt(t, path).tree
  }

  function Run(t: Tree, calls: seq<Call>): (u: Tree)
    requires t != []
    ensures |t| <= |u|
    decreases |calls|
  {
    if calls == [] then t else Run(After(t, calls[0]), calls[1..])
  }

  lemma AfterKeepsTree(t: Tree, c: Call)
    requires TreeOk(t)
    ensures TreeOk(After(t, c))
  {
    assert t != [];
    hide TreeOk;
    match Resolve(t, DirName(c.path))
    case None =>
    case Some(d) =>
      if c.Make? {
        if |t[d].kids| < TMPFS_MAX_CHILDREN {
          MkDirKeepsTree(t, d, BaseName(c.path));
        }
      } else if FindDir(t, d, BaseName(c.path)).Some? {
        UnlinkKeepsTree(t, d, BaseName(c.path));
      }
  }

  /** In every state reached by any calls on any paths no node has two parents or is its own
      ancestor, and following a nonempty path never comes back to where it started. */
  lemma {:induction false} EveryRunKeepsTree(t: Tree, calls: seq<Call>, e: nat, names: seq<string>)
    requires TreeOk(t) && e < |Run(t, calls)| && names != []
    ensures TreeOk(Run(t, calls))
    ensures Walk(Run(t, calls), e, names) != Some(e)
    decreases |calls|
  {
    if calls == [] {
      WalkGoesUp(t, e, names);
    } else {
      AfterKeepsTree(t, calls[0]);
      hide TreeOk;
      EveryRunKeepsTree(After(t, calls[0]), calls[1..], e, names);
    }
  }

  /** As long as nothing is unlinked, whatever resolved keeps resolving to the same node. */
  lemma {:induction false} MakingKeepsPaths(t: Tree, calls: seq<Call>, p: string)
    requires TreeOk(t) && (forall i :: 0 <= i < |calls| ==> calls[i].Make?)
    requires Resolve(t, p).Some?
    ensures Resolve(Run(t, calls), p) == Resolve(t, p)
    decreases |calls|
  {
    assert ROOT < |t|;
    hide TreeOk, Walk, Tokens, SkipSlash, DirName, BaseName;
    if calls != [] {
      var c := calls[0];
      AfterKeepsTree(t, c);
      match Resolve(t, DirName(c.path)) {
        case None =>
        case Some(d) =>
          MkDirKeepsWalks(t, d, BaseName(c.path), ROOT, Tokens(SkipSlash(p)));
      }
      MakingKeepsPaths(After(t, c), calls[1..], p);
    }
  }
}
