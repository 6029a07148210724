/** The directories of fs/tmpfs/tmpfs.c: linked inodes with a fixed table of children. */
module Tmpfs {
  import opened Wrappers
  import opened Paths
  import opened FileTree

  /** `tmpfs_inode_t`, as far as directories use it. */
  class Inode {
    const name: string
    const children: array<Inode?>
    var childCount: nat

    /** `kcalloc` and `strncpy` of the name. */
    constructor (name: string)
      ensures this.name == Truncated(name) && childCount == 0
      ensures fresh(children) && children.Length == TMPFS_MAX_CHILDREN
    {
      this.name := if |name| <= VFS_NAME_MAX then name else name[..VFS_NAME_MAX];
      children := new Inode?[TMPFS_MAX_CHILDREN](_ => null);
      childCount := 0;
    }
  }

  /** The table of children holds the inodes of the children `kids`, in order. */
  ghost predicate TableShows(table: seq<Inode?>, all: seq<Inode>, kids: seq<nat>) {
    |table| == |kids| && forall k :: 0 <= k < |kids| ==> kids[k] < |all| && table[k] == all[kids[k]]
  }

  lemma TableGrows(table: seq<Inode?>, all: seq<Inode>, kids: seq<nat>, child: Inode)
    requires TableShows(table, all, kids)
    ensures TableShows(table, all + [child], kids)
    ensures TableShows(table + [child], all + [child], kids + [|all|])
  {
  }

  lemma EmptyTable(table: seq<Inode?>, all: seq<Inode>)
    requires table == []
    ensures TableShows(table, all, [])
  {
  }

  /** A table without its `i`th entry shows the list of children without the `i`th. */
  lemma GapCloses(table: seq<Inode?>, all: seq<Inode>, kids: seq<nat>, i: nat)
    requires TableShows(table, all, kids) && i < |kids|
    ensures TableShows(table[..i] + table[i + 1..], all, Dropped(kids, i))
  {
  }

  /** One mounted tmpfs.  The ghost fields name every inode made so far and the tree that the
      inodes represent. */
  class FileSystem {
    var root: Inode
    ghost var nodes: seq<Inode>
    ghost var tree: Tree

    /** Inode `n` is the node `d` of the tree. */
    ghost predicate Shows(n: Inode, d: nat)
      requires d < |tree|
      reads this, n, n.children
    {
      && n.name == tree[d].name
      && n.children.Length == TMPFS_MAX_CHILDREN
      && n.childCount <= TMPFS_MAX_CHILDREN
      && TableShows(n.children[..n.childCount], nodes, tree[d].kids)
    }

    /** Different nodes share nothing. */
    ghost predicate Apart(i: nat, j: nat)
      requires i < |nodes| && j < |nodes|
      reads this, nodes
    {
      i != j ==> nodes[i] != nodes[j] && nodes[i].children != nodes[j].children
    }

    ghost predicate Valid()
      reads this, nodes, set i | 0 <= i < |nodes| :: nodes[i].children
    {
      && |tree| == |nodes|
      && TreeOk(tree)
      && root == nodes[ROOT]
      && (forall i, j :: 0 <= i < |nodes| && 0 <= j < |nodes| ==> Apart(i, j))
      && (forall d :: 0 <= d < |nodes| ==> Shows(nodes[d], d))
    }

    /** `tmpfs_create_root` */
    constructor ()
      ensures Valid() && fresh(nodes[ROOT]) && fresh(nodes[ROOT].children)
      ensures tree == [Node("tmpfs", [])]
    {
      root := new Inode("tmpfs");
      nodes := [root];
      tree := [Node("tmpfs", [])];
    }

    /** `tmpfs_finddir` */
    method FindDir(node: Inode, name: string, ghost d: nat) returns (found: Inode?)
      requires Valid() && d < |nodes| && node == nodes[d]
      ensures match FileTree.FindDir(tree, d, name)
              case None => found == null
              case Some(c) => found == nodes[c]
    {
      ghost var kids := tree[d].kids;
      assert Shows(node, d);
      assert kids[0..] == kids;
      for i := 0 to node.childCount
        invariant FindIn(tree, kids[i..], name) == FindIn(tree, kids, name)
      {
        assert kids[i..][0] == kids[i] && kids[i..][1..] == kids[i + 1..];
        assert node.children[..node.childCount][i] == nodes[kids[i]];
        assert node.children[i] == nodes[kids[i]] && Shows(nodes[kids[i]], kids[i]);
        if node.children[i].name == name {
          return node.children[i];
        }
      }
      found := null;
    }

    /** `tmpfs_mkdir` */
    method MkDir(parent: Inode, name: string, granted: bool, ghost d: nat) returns (code: int)
      requires Valid() && d < |nodes| && parent == nodes[d]
      modifies this, parent, parent.children
      ensures Valid() && root == old(root)
      ensures old(nodes) <= nodes && (forall i :: |old(nodes)| <= i < |nodes| ==> fresh(nodes[i]) && fresh(nodes[i].children))
      ensures Outcome(tree, code) ==
              if |old(tree)[d].kids| >= TMPFS_MAX_CHILDREN then Outcome(old(tree), -ENOSPC)
              else if !granted then Outcome(old(tree), -ENOMEM)
              else Outcome(FileTree.MkDir(old(tree), d, name), 0)
    {
      assert Shows(parent, d);
      if parent.childCount >= TMPFS_MAX_CHILDREN {
        return -ENOSPC;
      }
      if !granted {
        return -ENOMEM;
      }
      ghost var table, all, kids := parent.children[..parent.childCount], nodes, tree[d].kids;
      forall e | 0 <= e < |nodes| && e != d
        ensures nodes[e] != parent && nodes[e].children != parent.children
      {
        assert Apart(d, e);
      }
      MkDirKeepsTree(tree, d, name);
      hide TreeOk, TableShows;
      var child := new Inode(name);
      parent.children[parent.childCount] := child;
      parent.childCount := parent.childCount + 1;
      assert parent.children[..parent.childCount] == table + [child];
      nodes := nodes + [child];
      tree := FileTree.MkDir(tree, d, name);
      code := 0;
      forall i, j | 0 <= i < |nodes| && 0 <= j < |nodes|
        ensures Apart(i, j)
      {
        if i < |all| && j < |all| {
          assert old(Apart(i, j));
        }
      }
      forall e | 0 <= e < |nodes|
        ensures Shows(nodes[e], e)
      {
        if e < |all| {
          assert old(Shows(nodes[e], e));
          TableGrows(old(nodes[e].children[..nodes[e].childCount]), all, old(tree)[e].kids, child);
          assert e != d ==> nodes[e].children[..nodes[e].childCount] == old(nodes[e].children[..nodes[e].childCount]);
        } else {
          EmptyTable(child.children[..child.childCount], nodes);
        }
      }
    }

    /** `tmpfs_unlink` */
    method Unlink(parent: Inode, name: string, ghost d: nat) returns (code: int)
      requires Valid() && d < |nodes| && parent == nodes[d]
      modifies this, parent, parent.children
      ensures Valid() && root == old(root) && nodes == old(nodes)
      ensures Outcome(tree, code) ==
              if FileTree.FindDir(old(tree), d, name).None? then Outcome(old(tree), -ENOENT)
              else Outcome(FileTree.Unlink(old(tree), d, name), 0)
    {
      hide TreeOk, FindIn, Dropped;
      ghost var kids := tree[d].kids;
      assert Shows(parent, d);
      FindIsIndex(tree, kids, name);
      assert kids[0..] == kids;
      for i := 0 to parent.childCount
        invariant IndexOf(tree, kids, name) == i + IndexOf(tree, kids[i..], name)
      {
        assert kids[i..][0] == kids[i] && kids[i..][1..] == kids[i + 1..];
        assert parent.children[..parent.childCount][i] == nodes[kids[i]];
        assert parent.children[i] == nodes[kids[i]] && Shows(nodes[kids[i]], kids[i]);
        if parent.children[i].name == name {
          Detach(parent, i, name, d);
          return 0;
        }
      }
      code := -ENOENT;
    }

    /** Takes the child at position `i` out of the directory. */
    method Detach(parent: Inode, i: nat, ghost name: string, ghost d: nat)
      requires Valid() && d < |nodes| && parent == nodes[d]
      requires i == IndexOf(tree, tree[d].kids, name) < |tree[d].kids|
      requires FileTree.FindDir(tree, d, name).Some?
      modifies this, parent, parent.children
      ensures Valid() && root == old(root) && nodes == old(nodes)
      ensures tree == FileTree.Unlink(old(tree), d, name)
    {
      hide TreeOk, FindIn, IndexOf, FileTree.FindDir, FileTree.Unlink, Dropped, Valid, TableShows, Apart;
      DetachKeeps(d, name, i);
      ghost var after := FileTree.Unlink(tree, d, name);
      Shift(parent, i);
      tree := after;
      OthersStand(d);
    }

    /** The directory's table without entry `i` shows the node that the unlink leaves, and no
        other inode shares the directory's table. */
    lemma DetachKeeps(d: nat, name: string, i: nat)
      requires Valid() && d < |nodes|
      requires i == IndexOf(tree, tree[d].kids, name) < |tree[d].kids|
      requires FileTree.FindDir(tree, d, name).Some?
      ensures |tree| == |nodes| && Shows(nodes[d], d)
      ensures i < nodes[d].childCount <= nodes[d].children.Length
      ensures forall e :: 0 <= e < |nodes| && e != d ==>
                nodes[e] != nodes[d] && nodes[e].children != nodes[d].children
      ensures var kids := Dropped(tree[d].kids, i);
              && FileTree.Unlink(tree, d, name) == tree[d := Node(tree[d].name, kids)]
              && TreeOk(FileTree.Unlink(tree, d, name))
              && TableShows(nodes[d].children[..i] + nodes[d].children[i + 1..nodes[d].childCount], nodes, kids)
    {
      assert Shows(nodes[d], d);
      UnlinkKeepsTree(tree, d, name);
      forall e | 0 <= e < |nodes| && e != d
        ensures nodes[e] != nodes[d] && nodes[e].children != nodes[d].children
      {
        assert Apart(d, e);
      }
      var table := nodes[d].children[..nodes[d].childCount];
      GapCloses(table, nodes, tree[d].kids, i);
      assert table[..i] == nodes[d].children[..i];
      assert table[i + 1..] == nodes[d].children[i + 1..nodes[d].childCount];
    }

    /** Only node `d` and its entry in the tree changed, and they still agree. */
    twostate lemma OthersStand(d: nat)
      requires old(Valid()) && nodes == old(nodes) && root == old(root)
      requires d < |nodes| == |tree| && tree == old(tree)[d := tree[d]] && TreeOk(tree)
      requires forall e :: 0 <= e < |nodes| && e != d ==> unchanged(nodes[e], nodes[e].children)
      requires Shows(nodes[d], d)
      ensures Valid()
    {
      hide TreeOk;
      forall i, j | 0 <= i < |nodes| && 0 <= j < |nodes|
        ensures Apart(i, j)
      {
        assert old(Apart(i, j));
      }
      forall e | 0 <= e < |nodes|
        ensures Shows(nodes[e], e)
      {
        if e != d {
          assert old(Shows(nodes[e], e));
        }
      }
    }

    /** The end of `tmpfs_unlink`: close the gap at position `i`. */
    static method Shift(parent: Inode, i: nat)
      requires i < parent.childCount <= parent.children.Length
      modifies parent, parent.children
      ensures parent.childCount == old(parent.childCount) - 1
      ensures parent.children[..parent.childCount] ==
              old(parent.children[..i] + parent.children[i + 1..parent.childCount])
    {
      for j := i to parent.childCount - 1
        invariant parent.childCount == old(parent.childCount)
        invariant forall k :: 0 <= k < i || j <= k < parent.children.Length ==>
                    parent.children[k] == old(parent.children[k])
        invariant forall k :: i <= k < j ==> parent.children[k] == old(parent.children[k + 1])
      {
        parent.children[j] := parent.children[j + 1];
      }
      parent.childCount := parent.childCount - 1;
    }
  }
}
