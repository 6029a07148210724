/** What `vfs_mkdir` and `vfs_unlink` mean for the caller of a path, on any tree and any path. */
module PathCalls {
  import opened Wrappers
  import opened Paths
  import opened FileTree

  /** The lookup finds the first child of the name. */
  lemma {:induction false} FindIsFirst(t: Tree, kids: seq<nat>, name: string, k: nat)
    requires k < |kids| && (forall j :: 0 <= j < |kids| ==> kids[j] < |t|)
    requires t[kids[k]].name == name && forall j :: 0 <= j < k ==> t[kids[j]].name != name
    ensures FindIn(t, kids, name) == Some(kids[k])
    decreases |kids|
  {
    if k > 0 {
      assert t[kids[0]].name != name;
      FindIsFirst(t, kids[1..], name, k - 1);
    }
  }

  /** Children of a tree are nodes of the table. */
  lemma KidsAreNodes(t: Tree, d: nat)
    requires TreeOk(t) && d < |t|
    ensures forall j :: 0 <= j < |t[d].kids| ==> d < t[d].kids[j] < |t|
  {
    forall j | 0 <= j < |t[d].kids|
      ensures d < t[d].kids[j] < |t|
    {
      assert Lists(t, d, j, t[d].kids[j]);
    }
  }

  /** `vfs_mkdir`: success needs the directory, room in it for one of 64 children and a node;
      refusals change nothing and name the first of these that is missing.  On success one empty
      node appears as the last child of that directory, called by the last component, of which 255
      characters are kept; every old path still resolves to its node, and the new one to the new
      node unless it was taken or its last component is too long. */
  lemma MakeThenResolve(t: Tree, path: string, granted: bool)
    requires TreeOk(t)
    ensures var u, dir := MakeAt(t, path, granted), Resolve(t, DirName(path));
            && (u.code == 0 <==> dir.Some? && |t[dir.value].kids| < 64 && granted)
            && (u.code != 0 ==> u.tree == t)
            && (dir.None? ==> u.code == -2)
            && (dir.Some? && |t[dir.value].kids| >= 64 ==> u.code == -28)
            && (dir.Some? && |t[dir.value].kids| < 64 && !granted ==> u.code == -12)
            && OldPathsKept(t, u.tree)
            && (u.code == 0 ==> GainsChild(t, u.tree, dir.value, BaseName(path)))
            && (u.code == 0 && Proper(path) ==>
                  Resolve(u.tree, path) ==
                  if Resolve(t, path).Some? then Resolve(t, path)
                  else if |BaseName(path)| <= 255 then Some(|t|) else None)
  {
    RootIsNode(t);
    hide TreeOk, Proper, BaseName, DirName, Walk, Tokens, SkipSlash, Resolve, MkDir, GainsChild, OldPathsKept;
    var dir := Resolve(t, DirName(path));
    if dir.Some? && |t[dir.value].kids| < 64 && granted {
      if Proper(path) {
        MkDirThenResolve(t, path, dir.value);
      }
      OldOnesResolve(t, dir.value, BaseName(path));
      MkDirGains(t, dir.value, BaseName(path));
    } else {
      NothingLost(t);
    }
  }

  lemma MkDirGains(t: Tree, d: nat, name: string)
    requires d < |t|
    ensures GainsChild(t, MkDir(t, d, name), d, name)
  {
  }

  lemma NothingLost(t: Tree)
    requires t != []
    ensures OldPathsKept(t, t)
  {
  }

  lemma OldOnesResolve(t: Tree, d: nat, name: string)
    requires TreeOk(t) && d < |t|
    ensures OldPathsKept(t, MkDir(t, d, name))
  {
    RootIsNode(t);
    hide TreeOk, MkDir;
    forall p: string | Resolve(t, p).Some?
      ensures Resolve(MkDir(t, d, name), p) == Resolve(t, p)
    {
      MkDirKeepsWalks(t, d, name, ROOT, Tokens(SkipSlash(p)));
    }
  }

  /** Every path that resolved still resolves to its node. */
  ghost predicate OldPathsKept(t: Tree, u: Tree)
    requires t != [] ==> u != []
  {
    t != [] && forall p: string :: Resolve(t, p).Some? ==> Resolve(u, p) == Resolve(t, p)
  }

  /** "/" is the root, and a path below a directory is looked up in that directory. */
  lemma ResolveJoin(t: Tree, s: string, name: string)
    requires t != [] && name != [] && '/' !in name
    requires s == [] || (s[0] == '/' && s[|s| - 1] != '/')
    ensures Resolve(t, "/") == Some(ROOT)
    ensures Resolve(t, s + "/" + name) ==
            match (if s == [] then Some(ROOT) else Resolve(t, s)) case None => None case Some(d) => FindDir(t, d, name)
  {
    var path := s + "/" + name;
    PartsOfJoin(s, name);
    assert SkipSlash("/") == [] && Tokens([]) == [];
    assert path[|s|] == '/' && forall i :: |s| < i < |path| ==> path[i] == name[i - |s| - 1];
    assert FindLast(path, '/') == |s|;
    hide Walk;
    assert Walk(t, ROOT, []) == Some(ROOT) by { WalkNowhere(t); }
    ResolveSplits(t, path);
  }

  lemma WalkNowhere(t: Tree)
    requires t != []
    ensures Walk(t, ROOT, []) == Some(ROOT)
  {
  }

  lemma RootIsNode(t: Tree)
    requires TreeOk(t)
    ensures ROOT < |t|
  {
  }

  /** Node `d` has one more child, a new empty node called `name` as far as it fits; no other node
      is changed. */
  ghost predicate GainsChild(t: Tree, u: Tree, d: nat, name: string)
    requires d < |t|
  {
    && |u| == |t| + 1
    && (forall e :: 0 <= e < |t| && e != d ==> u[e] == t[e])
    && u[d].name == t[d].name && u[d].kids == t[d].kids + [|t|]
    && u[|t|].kids == [] && u[|t|].name <= name
    && |u[|t|].name| == if |name| <= 255 then |name| else 255
  }

  /** `vfs_unlink` succeeds exactly when the directory part resolves and has a child called by the
      last component, which for a proper path means exactly when the path resolves; otherwise it
      returns ENOENT and changes nothing. */
  lemma RemoveSucceeds(t: Tree, path: string)
    requires TreeOk(t)
    ensures var u, dir := RemoveAt(t, path), Resolve(t, DirName(path));
            && (u.code == 0 <==> dir.Some? && !NoneNamed(t, t[dir.value].kids, 0, BaseName(path)))
            && (u.code != 0 ==> u.tree == t && u.code == -2)
            && (Proper(path) ==> (u.code == 0 <==> Resolve(t, path).Some?))
  {
    RootIsNode(t);
    hide TreeOk, Proper, BaseName, DirName, Resolve;
    if Proper(path) {
      ResolveSplits(t, path);
    }
  }

  /** A successful `vfs_unlink` takes the first child of that name and changes no other node.  The
      path then resolves to the next child of the name or, if there is none, not at all; every path
      that does not use the entry resolves as before. */
  lemma RemoveThenResolve(t: Tree, path: string, d: nat, k: nat)
    requires TreeOk(t) && Resolve(t, DirName(path)) == Some(d)
    requires IsFirstNamed(t, t[d].kids, 0, BaseName(path), k)
    ensures var u, base := RemoveAt(t, path), BaseName(path);
            && u.code == 0 && LosesChild(t, u.tree, d, k)
            && OtherPathsKept(t, u.tree, d, base)
            && (Proper(path) ==> IsNextNamed(t, t[d].kids, k + 1, base, Resolve(u.tree, path)))
  {
    RootIsNode(t);
    KidsAreNodes(t, d);
    var base, kids := BaseName(path), t[d].kids;
    UnlinkTakesFirst(t, d, base, k);
    hide TreeOk, BaseName, DirName, Tokens, SkipSlash, Walk, Unlink, IsFirstNamed, FindIn, Twin, Resolve, LosesChild,
         OtherPathsKept, IsNextNamed, Proper, PassesThrough;
    OthersResolve(t, d, base);
    if Proper(path) {
      UnlinkThenResolve(t, path, d);
      NextOfName(t, kids, base, k);
    }
  }

  lemma UnlinkTakesFirst(t: Tree, d: nat, name: string, k: nat)
    requires d < |t| && (forall j :: 0 <= j < |t[d].kids| ==> t[d].kids[j] < |t|)
    requires IsFirstNamed(t, t[d].kids, 0, name, k)
    ensures FindDir(t, d, name).Some? && k < |t[d].kids| && LosesChild(t, Unlink(t, d, name), d, k)
    ensures Twin(t, d, name) == FindIn(t, t[d].kids[k + 1..], name)
  {
    FindIsFirst(t, t[d].kids, name, k);
    IndexIsFirst(t, t[d].kids, name, k);
    assert k < |t[d].kids|;
    hide FindIn, IndexOf, IsFirstNamed, Twin;
    GapInNode(t, d, name, k);
    TwinIs(t, d, name, k);
  }

  lemma GapInNode(t: Tree, d: nat, name: string, k: nat)
    requires d < |t| && FindDir(t, d, name).Some? && k == IndexOf(t, t[d].kids, name) < |t[d].kids|
    ensures LosesChild(t, Unlink(t, d, name), d, k)
  {
    hide FindIn, IndexOf;
  }

  lemma TwinIs(t: Tree, d: nat, name: string, k: nat)
    requires d < |t| && FindDir(t, d, name).Some? && k == IndexOf(t, t[d].kids, name) < |t[d].kids|
    ensures Twin(t, d, name) == FindIn(t, t[d].kids[k + 1..], name)
  {
    hide FindIn, IndexOf;
  }

  lemma OthersResolve(t: Tree, d: nat, name: string)
    requires t != [] && d < |t| && FindDir(t, d, name).Some?
    ensures OtherPathsKept(t, Unlink(t, d, name), d, name)
  {
    forall p: string | !PassesThrough(t, ROOT, Tokens(SkipSlash(p)), d, name)
      ensures Resolve(Unlink(t, d, name), p) == Resolve(t, p)
    {
      UnlinkKeepsWalks(t, d, name, ROOT, Tokens(SkipSlash(p)));
    }
  }

  lemma {:induction false} IndexIsFirst(t: Tree, kids: seq<nat>, name: string, k: nat)
    requires IsFirstNamed(t, kids, 0, name, k) && forall j :: 0 <= j < |kids| ==> kids[j] < |t|
    ensures IndexOf(t, kids, name) == k
    decreases |kids|
  {
    if k > 0 {
      assert t[kids[0]].name != name;
      IndexIsFirst(t, kids[1..], name, k - 1);
    }
  }

  lemma NextOfName(t: Tree, kids: seq<nat>, name: string, k: nat)
    requires k < |kids| && forall j :: 0 <= j < |kids| ==> kids[j] < |t|
    ensures IsNextNamed(t, kids, k + 1, name, FindIn(t, kids[k + 1..], name))
  {
    var rest := kids[k + 1..];
    assert forall j :: 0 <= j < |rest| ==> rest[j] == kids[k + 1 + j];
    forall l: nat | IsFirstNamed(t, kids, k + 1, name, l)
      ensures FindIn(t, rest, name) == Some(kids[l])
    {
      FindIsFirst(t, rest, name, l - k - 1);
    }
  }

  /** Position `k` is the first from `from` on whose child is called `name`. */
  ghost predicate IsFirstNamed(t: Tree, kids: seq<nat>, from: nat, name: string, k: nat) {
    && from <= k < |kids| && kids[k] < |t| && t[kids[k]].name == name
    && forall j :: from <= j < k && kids[j] < |t| ==> t[kids[j]].name != name
  }

  ghost predicate NoneNamed(t: Tree, kids: seq<nat>, from: nat, name: string) {
    forall j :: from <= j < |kids| && kids[j] < |t| ==> t[kids[j]].name != name
  }

  /** `r` is the first child called `name` from position `from` on, or none when there is none. */
  ghost predicate IsNextNamed(t: Tree, kids: seq<nat>, from: nat, name: string, r: Option<nat>) {
    && (NoneNamed(t, kids, from, name) ==> r == None)
    && forall l: nat :: IsFirstNamed(t, kids, from, name, l) ==> r == Some(kids[l])
  }

  /** Every path that does not use the entry `name` of node `d` resolves as before. */
  ghost predicate OtherPathsKept(t: Tree, u: Tree, d: nat, name: string)
    requires t != [] && u != []
  {
    forall p: string :: !PassesThrough(t, ROOT, Tokens(SkipSlash(p)), d, name) ==> Resolve(u, p) == Resolve(t, p)
  }

  /** Node `d` has lost its child at position `k`; no other node is changed. */
  ghost predicate LosesChild(t: Tree, u: Tree, d: nat, k: nat)
    requires d < |t| && k < |t[d].kids|
  {
    && |u| == |t|
    && (forall e :: 0 <= e < |t| && e != d ==> u[e] == t[e])
    && u[d].name == t[d].name && u[d].kids == t[d].kids[..k] + t[d].kids[k + 1..]
  }
}
