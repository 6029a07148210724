/** The meaning of the four-level walk: a partial map from virtual pages to frames, and the
    ownership tree of table frames that makes single-entry updates local. */
module PageTables {
  import opened Wrappers
  import opened Words
  import opened Paging
  import opened Pmm

  /** Physical memory as frames of 512 words. */
  type Memory = seq<seq<nat>>

  predicate WellSized(mem: Memory) {
    |mem| == MAX_PAGES && forall f :: 0 <= f < MAX_PAGES ==> |mem[f]| == PT_ENTRIES
  }

  /** Where a table frame hangs: its level and the slot of the parent that points to it. */
  datatype Table = Table(level: nat, parent: nat, slot: nat)

  type Tables = map<nat, Table>

  // ---- the walk ----

  function Entry(mem: Memory, f: nat, i: nat): nat {
    if f < |mem| && i < |mem[f]| then mem[f][i] else 0
  }

  function ChildOf(pte: nat): nat {
    PteAddr(pte) / PAGE_SIZE
  }

  /** An entry of a level-`level` table that points to a further table; a huge entry of a
      page directory is a leaf. */
  predicate Links(pte: nat, level: nat) {
    Present(pte) && !(level == 2 && Huge(pte))
  }

  /** The level-`level` table on the path to `page`. */
  function TableAt(mem: Memory, root: nat, page: nat, level: nat): Option<nat>
    requires 1 <= level <= 4
    decreases 4 - level
  {
    if level == 4 then Some(root) else
    match TableAt(mem, root, page, level + 1)
    case None => None
    case Some(f) =>
      var e := Entry(mem, f, Index(page, level + 1));
      if Links(e, level + 1) then Some(ChildOf(e)) else None
  }

  /** The 2 MiB entry on the path to `page`, if there is one. */
  function HugeEntry(mem: Memory, root: nat, page: nat): Option<nat> {
    match TableAt(mem, root, page, 2)
    case None => None
    case Some(pd) =>
      var e := Entry(mem, pd, Index(page, 2));
      if Present(e) && Huge(e) then Some(e) else None
  }

  /** The 4 KiB entry on the path to `page`; 0 when there is no page table. */
  function LeafEntry(mem: Memory, root: nat, page: nat): nat {
    match TableAt(mem, root, page, 1)
    case None => 0
    case Some(pt) => Entry(mem, pt, Index(page, 1))
  }

  /** The physical address of virtual page `page`. */
  function Mapping(mem: Memory, root: nat, page: nat): Option<nat> {
    match HugeEntry(mem, root, page)
    case Some(e) => Some(PteAddr(e) + page % 512 * PAGE_SIZE)
    case None =>
      var e := LeafEntry(mem, root, page);
      if Present(e) then Some(PteAddr(e)) else None
  }

  /** The physical address of any virtual address. */
  function Translate(mem: Memory, root: nat, va: nat): Option<nat> {
    match Mapping(mem, root, PageOf(va))
    case None => None
    case Some(phys) => Some(phys + PageOffset(va))
  }

  /** How many of the three lower tables on the path are missing. */
  function MissingTables(mem: Memory, root: nat, page: nat): nat {
    if TableAt(mem, root, page, 3).None? then 3
    else if TableAt(mem, root, page, 2).None? then 2
    else if TableAt(mem, root, page, 1).None? then 1
    else 0
  }

  // ---- the ownership tree ----

  ghost predicate Levels(tables: Tables, root: nat) {
    && root in tables
    && forall f :: f in tables ==>
         f < MAX_PAGES && 1 <= tables[f].level <= 4 && (tables[f].level == 4 <==> f == root)
  }

  /** Every table but the root hangs from the slot recorded for it. */
  ghost predicate Hangs(mem: Memory, tables: Tables, root: nat) {
    forall f {:trigger tables[f].parent} :: f in tables && f != root ==>
      var t := tables[f];
      && t.parent in tables && tables[t.parent].level == t.level + 1
      && t.slot < PT_ENTRIES
      && Links(Entry(mem, t.parent, t.slot), t.level + 1)
      && ChildOf(Entry(mem, t.parent, t.slot)) == f
  }

  /** Every linking entry of a table leads to a table recorded as hanging there, so no table
      is reached through two slots or at two levels. */
  ghost predicate Owns(mem: Memory, tables: Tables) {
    forall f, i {:trigger Entry(mem, f, i)} ::
      f in tables && 0 <= i < PT_ENTRIES && tables[f].level > 1 &&
      Links(Entry(mem, f, i), tables[f].level) ==>
        var c := ChildOf(Entry(mem, f, i));
        c in tables && tables[c] == Table(tables[f].level - 1, f, i)
  }

  ghost predicate Tree(mem: Memory, root: nat, tables: Tables) {
    WellSized(mem) && Levels(tables, root) && Hangs(mem, tables, root) && Owns(mem, tables)
  }

  /** The tree that consists of a root table alone. */
  function EmptyRoot(root: nat): Tables {
    map[root := Table(4, root, 0)]
  }

  /** A zeroed root frame is a tree by itself and translates nothing, whatever the rest of
      memory holds. */
  lemma EmptyRootIsTree(mem: Memory, root: nat)
    requires WellSized(mem) && root < MAX_PAGES && mem[root] == EmptyFrame()
    ensures Tree(mem, root, EmptyRoot(root))
    ensures forall page :: Mapping(mem, root, page).None? && HugeEntry(mem, root, page).None?
  {
    forall i: nat
      ensures !Present(Entry(mem, root, i))
    {
      assert Entry(mem, root, i) == 0;
    }
    forall page
      ensures Mapping(mem, root, page).None? && HugeEntry(mem, root, page).None?
    {
      assert TableAt(mem, root, page, 3).None?;
      assert TableAt(mem, root, page, 2).None?;
    }
  }

  // ---- paths ----

  /** Walks stay inside the tree, one level at a time, and each step follows the slot that
      the tree records. */
  lemma {:induction false} PathInTree(mem: Memory, root: nat, tables: Tables, page: nat, level: nat)
    requires Tree(mem, root, tables) && 1 <= level <= 4
    requires TableAt(mem, root, page, level).Some?
    ensures var c := TableAt(mem, root, page, level).value;
            && c in tables && tables[c].level == level
            && (level < 4 ==>
                  && TableAt(mem, root, page, level + 1).Some?
                  && tables[c] == Table(level, TableAt(mem, root, page, level + 1).value, Index(page, level + 1)))
    decreases 4 - level
  {
    hide Hangs, Index, Present, Huge, PteAddr;
    if level < 4 {
      PathInTree(mem, root, tables, page, level + 1);
      var f := TableAt(mem, root, page, level + 1).value;
      assert Links(Entry(mem, f, Index(page, level + 1)), level + 1);
    }
  }

  /** Every table on the path to `page` has the level of its place on the path. */
  ghost predicate OnLevels(mem: Memory, root: nat, tables: Tables, page: nat) {
    forall level :: 1 <= level <= 4 && TableAt(mem, root, page, level).Some? ==>
      var c := TableAt(mem, root, page, level).value;
      c in tables && tables[c].level == level
  }

  lemma PathOnLevels(mem: Memory, root: nat, tables: Tables, page: nat)
    requires Tree(mem, root, tables)
    ensures OnLevels(mem, root, tables, page)
  {
    forall level | 1 <= level <= 4 && TableAt(mem, root, page, level).Some?
      ensures var c := TableAt(mem, root, page, level).value;
              c in tables && tables[c].level == level
    {
      PathInTree(mem, root, tables, page, level);
    }
  }

  /** The path to a table depends only on the page bits above the table. */
  lemma {:induction false} PathByPrefix(mem: Memory, root: nat, p: nat, q: nat, level: nat)
    requires 1 <= level <= 4 && Upper(p, level) == Upper(q, level)
    ensures TableAt(mem, root, p, level) == TableAt(mem, root, q, level)
    decreases 4 - level
  {
    hide Present, Huge, PteAddr;
    if level < 4 {
      UpperStep(p, level + 1);
      UpperStep(q, level + 1);
      PathByPrefix(mem, root, p, q, level + 1);
    }
  }

  /** Two pages that reach the same table agree on all bits above it. */
  lemma {:induction false} PathIsInjective(mem: Memory, root: nat, tables: Tables, p: nat, q: nat, level: nat)
    requires Tree(mem, root, tables) && 1 <= level <= 4
    requires p < VIRTUAL_PAGES && q < VIRTUAL_PAGES
    requires TableAt(mem, root, p, level).Some?
    requires TableAt(mem, root, p, level) == TableAt(mem, root, q, level)
    ensures Upper(p, level) == Upper(q, level)
    decreases 4 - level
  {
    hide Owns, Hangs, Upper, Index;
    if level == 4 {
      UpperTop(p);
      UpperTop(q);
    } else {
      PathInTree(mem, root, tables, p, level);
      PathInTree(mem, root, tables, q, level);
      PathIsInjective(mem, root, tables, p, q, level + 1);
      UpperStep(p, level + 1);
      UpperStep(q, level + 1);
    }
  }

  /** Away from 2 MiB entries, the next table is there exactly when the entry is present. */
  lemma NextTable(mem: Memory, root: nat, page: nat, level: nat, f: nat)
    requires 2 <= level <= 4 && TableAt(mem, root, page, level) == Some(f)
    requires HugeEntry(mem, root, page).None?
    ensures var e := Entry(mem, f, Index(page, level));
            TableAt(mem, root, page, level - 1) == if Present(e) then Some(ChildOf(e)) else None
  {
    hide Index, Present, Huge, PteAddr;
  }

  lemma PathFromRoot(mem: Memory, root: nat, page: nat)
    ensures TableAt(mem, root, page, 4) == Some(root)
  {
  }

  lemma PathIsWhole(mem: Memory, root: nat, page: nat)
    requires TableAt(mem, root, page, 1).Some?
    ensures MissingTables(mem, root, page) == 0
  {
  }

  /** A missing table on the path means no translation. */
  lemma NoTableNoMapping(mem: Memory, root: nat, page: nat, level: nat)
    requires 1 <= level <= 3 && TableAt(mem, root, page, level).None?
    requires HugeEntry(mem, root, page).None?
    ensures Mapping(mem, root, page).None? && LeafEntry(mem, root, page) == 0
  {
    assert level >= 2 ==> TableAt(mem, root, page, 1).None?;
  }

  // ---- one store ----

  function Store(mem: Memory, f: nat, i: nat, e: nat): Memory
    requires f < |mem| && i < |mem[f]|
  {
    var frame: seq<nat> := mem[f][i := e];
    mem[f := frame]
  }

  /** Frame `x` zeroed and entry `e`, which points to it, stored in slot `i` of frame `f`. */
  function WithTable(mem: Memory, f: nat, i: nat, x: nat, e: nat): Memory
    requires WellSized(mem) && f < MAX_PAGES && i < PT_ENTRIES && x < MAX_PAGES && x != f
  {
    Store(mem[x := EmptyFrame()], f, i, e)
  }

  function EmptyFrame(): seq<nat> {
    seq<nat>(PT_ENTRIES, _ => 0)
  }

  /** `get_or_create_table` may hang the fresh frame `x` into slot `i` of table `f`. */
  ghost predicate CanAttach(mem: Memory, tables: Tables, f: nat, i: nat, x: nat, e: nat) {
    && WellSized(mem)
    && f in tables && f < MAX_PAGES && 1 < tables[f].level <= 4 && i < PT_ENTRIES
    && !Present(Entry(mem, f, i))
    && x < MAX_PAGES && x !in tables
    && Links(e, tables[f].level) && ChildOf(e) == x
  }

  lemma ZeroIsAbsent()
    ensures !Present(0)
  {
  }

  lemma EntryAfterAttach(mem: Memory, f: nat, i: nat, x: nat, e: nat, g: nat, j: nat)
    requires WellSized(mem) && f < MAX_PAGES && i < PT_ENTRIES && x < MAX_PAGES && x != f
    ensures Entry(WithTable(mem, f, i, x, e), g, j) ==
            if g == f && j == i then e else if g == x then 0 else Entry(mem, g, j)
  {
  }

  function Grown(tables: Tables, f: nat, i: nat, x: nat): Tables
    requires f in tables && tables[f].level > 1
  {
    tables[x := Table(tables[f].level - 1, f, i)]
  }

  lemma AttachKeepsOwns(mem: Memory, tables: Tables, f: nat, i: nat, x: nat, e: nat)
    requires CanAttach(mem, tables, f, i, x, e) && Owns(mem, tables)
    ensures Owns(WithTable(mem, f, i, x, e), Grown(tables, f, i, x))
  {
    var after, grown := WithTable(mem, f, i, x, e), Grown(tables, f, i, x);
    forall g, j | g in grown && 0 <= j < PT_ENTRIES && grown[g].level > 1 &&
                  Links(Entry(after, g, j), grown[g].level)
      ensures var c := ChildOf(Entry(after, g, j));
              c in grown && grown[c] == Table(grown[g].level - 1, g, j)
    {
      EntryAfterAttach(mem, f, i, x, e, g, j);
      if !(g == f && j == i) {
        assert Links(Entry(mem, g, j), tables[g].level);
      }
    }
  }

  lemma AttachKeepsHangs(mem: Memory, root: nat, tables: Tables, f: nat, i: nat, x: nat, e: nat)
    requires CanAttach(mem, tables, f, i, x, e) && Hangs(mem, tables, root)
    ensures Hangs(WithTable(mem, f, i, x, e), Grown(tables, f, i, x), root)
  {
    var after, grown := WithTable(mem, f, i, x, e), Grown(tables, f, i, x);
    forall g | g in grown && g != root
      ensures var t := grown[g];
              && t.parent in grown && grown[t.parent].level == t.level + 1
              && t.slot < PT_ENTRIES
              && Links(Entry(after, t.parent, t.slot), t.level + 1)
              && ChildOf(Entry(after, t.parent, t.slot)) == g
    {
      EntryAfterAttach(mem, f, i, x, e, grown[g].parent, grown[g].slot);
    }
  }

  /** Attaching a fresh frame keeps the ownership tree, with the frame added to it. */
  lemma AttachKeepsTree(mem: Memory, root: nat, tables: Tables, f: nat, i: nat, x: nat, e: nat)
    requires Tree(mem, root, tables) && CanAttach(mem, tables, f, i, x, e)
    ensures Tree(WithTable(mem, f, i, x, e), root, Grown(tables, f, i, x))
  {
    AttachKeepsOwns(mem, tables, f, i, x, e);
    AttachKeepsHangs(mem, root, tables, f, i, x, e);
  }

  /** Attaching a table changes one path step only: where there was no table, the new one
      may appear. */
  lemma {:induction false} AttachAndPaths(
      mem: Memory, root: nat, tables: Tables, f: nat, i: nat, x: nat, e: nat, page: nat, level: nat)
    requires CanAttach(mem, tables, f, i, x, e) && OnLevels(mem, root, tables, page) && 1 <= level <= 4
    ensures var now := TableAt(WithTable(mem, f, i, x, e), root, page, level);
            var was := TableAt(mem, root, page, level);
            now == was || (was.None? && now == Some(x) && level == tables[f].level - 1)
    decreases 4 - level
  {
    hide Index, Present, Huge, PteAddr, WithTable;
    if level < 4 {
      ZeroIsAbsent();
      var after := WithTable(mem, f, i, x, e);
      AttachAndPaths(mem, root, tables, f, i, x, e, page, level + 1);
      var above := TableAt(after, root, page, level + 1);
      if above.Some? {
        EntryAfterAttach(mem, f, i, x, e, above.value, Index(page, level + 1));
      }
    }
  }

  /** The page whose path lacked the table now reaches it. */
  lemma AttachExtendsPath(
      mem: Memory, root: nat, tables: Tables, f: nat, i: nat, x: nat, e: nat, page: nat)
    requires CanAttach(mem, tables, f, i, x, e) && OnLevels(mem, root, tables, page)
    requires TableAt(mem, root, page, tables[f].level) == Some(f) && Index(page, tables[f].level) == i
    ensures TableAt(WithTable(mem, f, i, x, e), root, page, tables[f].level) == Some(f)
    ensures TableAt(WithTable(mem, f, i, x, e), root, page, tables[f].level - 1) == Some(x)
  {
    AttachAndPaths(mem, root, tables, f, i, x, e, page, tables[f].level);
    EntryAfterAttach(mem, f, i, x, e, f, i);
  }

  /** Attaching a table to the path of `page` leaves one table less to create. */
  lemma AttachFillsGap(
      mem: Memory, root: nat, tables: Tables, f: nat, i: nat, x: nat, e: nat, page: nat)
    requires CanAttach(mem, tables, f, i, x, e) && OnLevels(mem, root, tables, page)
    requires TableAt(mem, root, page, tables[f].level) == Some(f) && Index(page, tables[f].level) == i
    ensures MissingTables(WithTable(mem, f, i, x, e), root, page) == MissingTables(mem, root, page) - 1
    ensures TableAt(mem, root, page, tables[f].level - 1).None?
  {
    var level := tables[f].level;
    AttachExtendsPath(mem, root, tables, f, i, x, e, page);
    assert TableAt(mem, root, page, level - 1).None?;
    if level > 2 {
      EntryAfterAttach(mem, f, i, x, e, x, Index(page, level - 1));
      assert TableAt(WithTable(mem, f, i, x, e), root, page, level - 2).None?;
    }
    if level < 4 {
      AttachAndPaths(mem, root, tables, f, i, x, e, page, 3);
      assert TableAt(mem, root, page, 3).Some?;
    }
  }

  /** Attaching an empty table changes no translation. */
  lemma AttachKeepsMappings(mem: Memory, root: nat, tables: Tables, f: nat, i: nat, x: nat, e: nat)
    requires Tree(mem, root, tables) && CanAttach(mem, tables, f, i, x, e)
    ensures forall page ::
              Mapping(WithTable(mem, f, i, x, e), root, page) == Mapping(mem, root, page)
    ensures forall page ::
              HugeEntry(WithTable(mem, f, i, x, e), root, page) == HugeEntry(mem, root, page)
    ensures SameLeaves(mem, WithTable(mem, f, i, x, e), root)
  {
    hide Mapping, HugeEntry, LeafEntry, OnLevels, Tree, WithTable;
    forall page
      ensures Mapping(WithTable(mem, f, i, x, e), root, page) == Mapping(mem, root, page)
      ensures HugeEntry(WithTable(mem, f, i, x, e), root, page) == HugeEntry(mem, root, page)
      ensures LeafEntry(WithTable(mem, f, i, x, e), root, page) == LeafEntry(mem, root, page)
    {
      PathOnLevels(mem, root, tables, page);
      AttachKeepsMapping(mem, root, tables, f, i, x, e, page);
      AttachKeepsLeaf(mem, root, tables, f, i, x, e, page);
    }
  }

  /** The 4 KiB entries are the old ones, except that `page` has entry `e`. */
  ghost predicate LeafSet(m0: Memory, m1: Memory, root: nat, page: nat, e: nat) {
    forall q: nat :: q < VIRTUAL_PAGES ==> LeafEntry(m1, root, q) == if q == page then e else LeafEntry(m0, root, q)
  }

  ghost predicate SameLeaves(m0: Memory, m1: Memory, root: nat) {
    forall q: nat :: q < VIRTUAL_PAGES ==> LeafEntry(m1, root, q) == LeafEntry(m0, root, q)
  }

  /** In tables above the lowest level every entry is the old one (0 in new tables), or it is
      the address of a new table with exactly the flags `flags`. */
  ghost predicate OnlyNewLinks(m0: Memory, t0: Tables, m1: Memory, t1: Tables, flags: nat) {
    && (forall f :: f in t0 ==> f in t1 && t1[f] == t0[f])
    && (forall f: nat, i: nat {:trigger Entry(m1, f, i)} :: f in t1 && t1[f].level > 1 ==>
          || Entry(m1, f, i) == (if f in t0 then Entry(m0, f, i) else 0)
          || IsNewLink(Entry(m1, f, i), t0, t1, flags))
  }

  ghost predicate IsNewLink(e: nat, t0: Tables, t1: Tables, flags: nat) {
    ChildOf(e) in t1 && ChildOf(e) !in t0 && e == BitOr(ChildOf(e) * PAGE_SIZE, flags)
  }

  lemma AttachAddsOneLink(mem: Memory, tables: Tables, f: nat, i: nat, x: nat, e: nat, flags: nat)
    requires CanAttach(mem, tables, f, i, x, e) && e == BitOr(x * PAGE_SIZE, flags)
    ensures OnlyNewLinks(mem, tables, WithTable(mem, f, i, x, e), Grown(tables, f, i, x), flags)
  {
    hide WithTable, Entry, BitOr;
    var after, grown := WithTable(mem, f, i, x, e), Grown(tables, f, i, x);
    forall g: nat, j: nat {:trigger Entry(after, g, j)} | g in grown && grown[g].level > 1
      ensures || Entry(after, g, j) == (if g in tables then Entry(mem, g, j) else 0)
              || IsNewLink(Entry(after, g, j), tables, grown, flags)
    {
      EntryAfterAttach(mem, f, i, x, e, g, j);
    }
  }

  lemma NewLinksTwice(m0: Memory, t0: Tables, m1: Memory, t1: Tables, m2: Memory, t2: Tables, flags: nat)
    requires OnlyNewLinks(m0, t0, m1, t1, flags) && OnlyNewLinks(m1, t1, m2, t2, flags)
    ensures OnlyNewLinks(m0, t0, m2, t2, flags)
  {
    hide Entry, BitOr, ChildOf;
    forall f: nat, i: nat {:trigger Entry(m2, f, i)} | f in t2 && t2[f].level > 1
      ensures || Entry(m2, f, i) == (if f in t0 then Entry(m0, f, i) else 0)
              || IsNewLink(Entry(m2, f, i), t0, t2, flags)
    {
      var e := Entry(m1, f, i);
    }
  }

  /** A store into a page table adds no link. */
  lemma LeafStoreAddsNoLink(mem: Memory, tables: Tables, t: nat, i: nat, e: nat, flags: nat)
    requires WellSized(mem) && t in tables && t < MAX_PAGES && tables[t].level == 1 && i < PT_ENTRIES
    ensures OnlyNewLinks(mem, tables, Store(mem, t, i, e), tables, flags)
  {
    EntryAfterStore(mem, t, i, e);
    hide Entry, Store;
  }

  lemma AttachKeepsMapping(
      mem: Memory, root: nat, tables: Tables, f: nat, i: nat, x: nat, e: nat, page: nat)
    requires CanAttach(mem, tables, f, i, x, e) && OnLevels(mem, root, tables, page)
    ensures Mapping(WithTable(mem, f, i, x, e), root, page) == Mapping(mem, root, page)
    ensures HugeEntry(WithTable(mem, f, i, x, e), root, page) == HugeEntry(mem, root, page)
  {
    AttachKeepsHuge(mem, root, tables, f, i, x, e, page);
    AttachKeepsLeaf(mem, root, tables, f, i, x, e, page);
  }

  lemma AttachKeepsHuge(
      mem: Memory, root: nat, tables: Tables, f: nat, i: nat, x: nat, e: nat, page: nat)
    requires CanAttach(mem, tables, f, i, x, e) && OnLevels(mem, root, tables, page)
    ensures HugeEntry(WithTable(mem, f, i, x, e), root, page) == HugeEntry(mem, root, page)
  {
    var pd := TableAt(WithTable(mem, f, i, x, e), root, page, 2);
    AttachAndPaths(mem, root, tables, f, i, x, e, page, 2);
    if pd.Some? {
      EntryAfterAttach(mem, f, i, x, e, pd.value, Index(page, 2));
    }
  }

  lemma AttachKeepsLeaf(
      mem: Memory, root: nat, tables: Tables, f: nat, i: nat, x: nat, e: nat, page: nat)
    requires CanAttach(mem, tables, f, i, x, e) && OnLevels(mem, root, tables, page)
    ensures LeafEntry(WithTable(mem, f, i, x, e), root, page) == LeafEntry(mem, root, page)
  {
    var pt := TableAt(WithTable(mem, f, i, x, e), root, page, 1);
    AttachAndPaths(mem, root, tables, f, i, x, e, page, 1);
    if pt.Some? {
      EntryAfterAttach(mem, f, i, x, e, pt.value, Index(page, 1));
    }
  }

  // ---- which tables exist ----

  /** A table of level `level` on the path of `page`, and no other, may have come into being. */
  ghost predicate TableGrown(m0: Memory, m1: Memory, root: nat, page: nat, level: nat) {
    forall q: nat, l: nat {:trigger TableAt(m1, root, q, l)} :: q < VIRTUAL_PAGES && 1 <= l <= 3 ==>
      (TableAt(m1, root, q, l).Some? <==>
         TableAt(m0, root, q, l).Some? || (l == level && Upper(q, l) == Upper(page, l)))
  }

  /** All tables on the path of `page` exist, and besides those only the tables there were. */
  ghost predicate PathGrown(m0: Memory, m1: Memory, root: nat, page: nat) {
    forall q: nat, l: nat {:trigger TableAt(m1, root, q, l)} :: q < VIRTUAL_PAGES && 1 <= l <= 3 ==>
      (TableAt(m1, root, q, l).Some? <==> TableAt(m0, root, q, l).Some? || Upper(q, l) == Upper(page, l))
  }

  ghost predicate SamePaths(m0: Memory, m1: Memory, root: nat) {
    forall q: nat, l: nat {:trigger TableAt(m1, root, q, l)} :: q < VIRTUAL_PAGES && 1 <= l <= 3 ==>
      TableAt(m1, root, q, l) == TableAt(m0, root, q, l)
  }

  lemma PathsSame(mem: Memory, root: nat)
    ensures SamePaths(mem, mem, root)
  {
  }

  lemma PathsSameTwice(m0: Memory, m1: Memory, m2: Memory, root: nat)
    requires SamePaths(m0, m1, root) && SamePaths(m1, m2, root)
    ensures SamePaths(m0, m2, root)
  {
    hide TableAt;
    forall q: nat, l: nat {:trigger TableAt(m2, root, q, l)} | q < VIRTUAL_PAGES && 1 <= l <= 3
      ensures TableAt(m2, root, q, l) == TableAt(m0, root, q, l)
    {
      assert TableAt(m1, root, q, l) == TableAt(m0, root, q, l);
    }
  }

  lemma LeafStoreKeepsAllPaths(mem: Memory, root: nat, tables: Tables, t: nat, i: nat, e: nat)
    requires Tree(mem, root, tables) && t in tables && t < MAX_PAGES && tables[t].level == 1 && i < PT_ENTRIES
    ensures SamePaths(mem, Store(mem, t, i, e), root)
  {
    hide TableAt, Store, OnLevels, Owns, Hangs;
    forall q: nat, l: nat {:trigger TableAt(Store(mem, t, i, e), root, q, l)} | q < VIRTUAL_PAGES && 1 <= l <= 3
      ensures TableAt(Store(mem, t, i, e), root, q, l) == TableAt(mem, root, q, l)
    {
      PathOnLevels(mem, root, tables, q);
      LeafStoreKeepsPaths(mem, root, tables, t, i, e, q, l);
    }
  }

  lemma AttachGrowsTable(mem: Memory, root: nat, tables: Tables, f: nat, i: nat, x: nat, e: nat, page: nat)
    requires Tree(mem, root, tables) && CanAttach(mem, tables, f, i, x, e) && page < VIRTUAL_PAGES
    requires TableAt(mem, root, page, tables[f].level) == Some(f) && Index(page, tables[f].level) == i
    ensures TableGrown(mem, WithTable(mem, f, i, x, e), root, page, tables[f].level - 1)
  {
    var after, level := WithTable(mem, f, i, x, e), tables[f].level - 1;
    hide TableAt, WithTable, Links, Upper, Index, Tree;
    forall q: nat, l: nat {:trigger TableAt(after, root, q, l)} | q < VIRTUAL_PAGES && 1 <= l <= 3
      ensures TableAt(after, root, q, l).Some? <==>
              TableAt(mem, root, q, l).Some? || (l == level && Upper(q, l) == Upper(page, l))
    {
      AttachGrowsAt(mem, root, tables, f, i, x, e, page, q, l);
    }
  }

  lemma AttachGrowsAt(
      mem: Memory, root: nat, tables: Tables, f: nat, i: nat, x: nat, e: nat, page: nat, q: nat, l: nat)
    requires Tree(mem, root, tables) && CanAttach(mem, tables, f, i, x, e)
    requires page < VIRTUAL_PAGES && q < VIRTUAL_PAGES && 1 <= l <= 3
    requires TableAt(mem, root, page, tables[f].level) == Some(f) && Index(page, tables[f].level) == i
    ensures TableAt(WithTable(mem, f, i, x, e), root, q, l).Some? <==>
            TableAt(mem, root, q, l).Some? || (l == tables[f].level - 1 && Upper(q, l) == Upper(page, l))
  {
    var after := WithTable(mem, f, i, x, e);
    hide TableAt, WithTable, Links, Upper, Index, Levels, Owns, Hangs, OnLevels;
    PathOnLevels(mem, root, tables, q);
    AttachAndPaths(mem, root, tables, f, i, x, e, q, l);
    if l == tables[f].level - 1 {
      PathOnLevels(mem, root, tables, page);
      AttachExtendsPath(mem, root, tables, f, i, x, e, page);
      AttachKeepsTree(mem, root, tables, f, i, x, e);
      hide Tree, CanAttach;
      if Upper(q, l) == Upper(page, l) {
        PathByPrefix(after, root, q, page, l);
      } else if TableAt(after, root, q, l) == Some(x) {
        PathIsInjective(after, root, Grown(tables, f, i, x), q, page, l);
      }
    }
  }

  lemma TableWasThere(mem: Memory, root: nat, page: nat, level: nat)
    requires 1 <= level <= 3 && TableAt(mem, root, page, level).Some?
    ensures TableGrown(mem, mem, root, page, level)
  {
    hide TableAt, Upper;
    forall q: nat | q < VIRTUAL_PAGES && Upper(q, level) == Upper(page, level)
      ensures TableAt(mem, root, q, level).Some?
    {
      PathByPrefix(mem, root, q, page, level);
    }
  }

  lemma ThreeTablesGrown(m0: Memory, m1: Memory, m2: Memory, m3: Memory, m4: Memory, root: nat, page: nat)
    requires TableGrown(m0, m1, root, page, 3) && TableGrown(m1, m2, root, page, 2)
    requires TableGrown(m2, m3, root, page, 1) && SamePaths(m3, m4, root)
    ensures PathGrown(m0, m4, root, page)
  {
    hide TableAt, Upper;
    forall q: nat, l: nat {:trigger TableAt(m4, root, q, l)} | q < VIRTUAL_PAGES && 1 <= l <= 3
      ensures TableAt(m4, root, q, l).Some? <==> TableAt(m0, root, q, l).Some? || Upper(q, l) == Upper(page, l)
    {
      assert TableAt(m3, root, q, l).Some? <==> TableAt(m2, root, q, l).Some? || (l == 1 && Upper(q, l) == Upper(page, l));
      assert TableAt(m2, root, q, l).Some? <==> TableAt(m1, root, q, l).Some? || (l == 2 && Upper(q, l) == Upper(page, l));
    }
  }

  /** The missing tables on a path, one by one. */
  lemma MissingOneByOne(mem: Memory, root: nat, page: nat)
    ensures MissingTables(mem, root, page) ==
            (if TableAt(mem, root, page, 3).None? then 1 else 0)
            + (if TableAt(mem, root, page, 2).None? then 1 else 0)
            + (if TableAt(mem, root, page, 1).None? then 1 else 0)
  {
  }

  // ---- other trees ----

  /** Frames that were in use and are no tables of the tree are untouched. */
  ghost predicate OthersKept(m0: Memory, u0: seq<bool>, t0: Tables, m1: Memory) {
    |m1| == |m0| && forall f :: 0 <= f < |m0| && f < |u0| && u0[f] && f !in t0 ==> m1[f] == m0[f]
  }

  /** A tree whose frames are untouched stands as it was and translates as it did. */
  lemma UntouchedTreeStands(m0: Memory, m1: Memory, root: nat, tables: Tables)
    requires Tree(m0, root, tables) && WellSized(m1)
    requires forall f :: f in tables ==> m1[f] == m0[f]
    ensures Tree(m1, root, tables)
    ensures forall page :: Mapping(m1, root, page) == Mapping(m0, root, page)
  {
    SameEntriesOwn(m0, m1, tables);
    SameEntriesHang(m0, m1, root, tables);
    hide Mapping, Owns, Hangs;
    forall page
      ensures Mapping(m1, root, page) == Mapping(m0, root, page)
    {
      UntouchedMapping(m0, m1, root, tables, page);
    }
  }

  lemma SameEntriesOwn(m0: Memory, m1: Memory, tables: Tables)
    requires Owns(m0, tables) && forall f, i: nat :: f in tables ==> Entry(m1, f, i) == Entry(m0, f, i)
    ensures Owns(m1, tables)
  {
  }

  lemma SameEntriesHang(m0: Memory, m1: Memory, root: nat, tables: Tables)
    requires Hangs(m0, tables, root) && forall f, i: nat :: f in tables ==> Entry(m1, f, i) == Entry(m0, f, i)
    ensures Hangs(m1, tables, root)
  {
  }

  lemma {:induction false} UntouchedPath(m0: Memory, m1: Memory, root: nat, tables: Tables, page: nat, level: nat)
    requires Tree(m0, root, tables) && 1 <= level <= 4
    requires forall f, i: nat :: f in tables ==> Entry(m1, f, i) == Entry(m0, f, i)
    ensures TableAt(m1, root, page, level) == TableAt(m0, root, page, level)
    decreases 4 - level
  {
    hide Owns, Hangs, Index;
    if level < 4 {
      UntouchedPath(m0, m1, root, tables, page, level + 1);
      if TableAt(m0, root, page, level + 1).Some? {
        PathInTree(m0, root, tables, page, level + 1);
      }
    }
  }

  lemma UntouchedMapping(m0: Memory, m1: Memory, root: nat, tables: Tables, page: nat)
    requires Tree(m0, root, tables)
    requires forall f, i: nat :: f in tables ==> Entry(m1, f, i) == Entry(m0, f, i)
    ensures Mapping(m1, root, page) == Mapping(m0, root, page)
  {
    UntouchedPath(m0, m1, root, tables, page, 2);
    UntouchedPath(m0, m1, root, tables, page, 1);
    if TableAt(m0, root, page, 2).Some? {
      PathInTree(m0, root, tables, page, 2);
    }
    if TableAt(m0, root, page, 1).Some? {
      PathInTree(m0, root, tables, page, 1);
    }
    hide TableAt, Owns, Hangs;
  }

  // ---- writing a leaf ----

  /** A store into a page table keeps the tree. */
  lemma LeafStoreKeepsTree(mem: Memory, root: nat, tables: Tables, t: nat, i: nat, e: nat)
    requires Tree(mem, root, tables) && t in tables && tables[t].level == 1 && i < PT_ENTRIES
    ensures Tree(Store(mem, t, i, e), root, tables)
  {
    EntryAfterStore(mem, t, i, e);
    LeafStoreKeepsOwns(mem, tables, t, i, e);
    LeafStoreKeepsHangs(mem, root, tables, t, i, e);
  }

  lemma LeafStoreKeepsOwns(mem: Memory, tables: Tables, t: nat, i: nat, e: nat)
    requires WellSized(mem) && t < MAX_PAGES && Owns(mem, tables)
    requires t in tables && tables[t].level == 1 && i < PT_ENTRIES
    ensures Owns(Store(mem, t, i, e), tables)
  {
    EntryAfterStore(mem, t, i, e);
  }

  lemma LeafStoreKeepsHangs(mem: Memory, root: nat, tables: Tables, t: nat, i: nat, e: nat)
    requires WellSized(mem) && t < MAX_PAGES && Hangs(mem, tables, root)
    requires t in tables && tables[t].level == 1 && i < PT_ENTRIES
    requires forall f :: f in tables ==> 1 <= tables[f].level
    ensures Hangs(Store(mem, t, i, e), tables, root)
  {
    EntryAfterStore(mem, t, i, e);
  }

  lemma {:induction false} LeafStoreKeepsPaths(
      mem: Memory, root: nat, tables: Tables, t: nat, i: nat, e: nat, page: nat, level: nat)
    requires WellSized(mem) && t < MAX_PAGES && OnLevels(mem, root, tables, page)
    requires t in tables && tables[t].level == 1 && i < PT_ENTRIES
    requires 1 <= level <= 4
    ensures TableAt(Store(mem, t, i, e), root, page, level) == TableAt(mem, root, page, level)
    decreases 4 - level
  {
    hide Index, Present, Huge, PteAddr;
    if level < 4 {
      LeafStoreKeepsPaths(mem, root, tables, t, i, e, page, level + 1);
    }
  }

  /** A store into the page table of `page` changes the leaf entry of that page only. */
  lemma LeafStoreIsLocal(
      mem: Memory, root: nat, tables: Tables, t: nat, e: nat, page: nat, other: nat)
    requires Tree(mem, root, tables) && TableAt(mem, root, page, 1) == Some(t)
    requires page < VIRTUAL_PAGES && other < VIRTUAL_PAGES
    ensures t < MAX_PAGES && t in tables && tables[t].level == 1
    ensures var after := Store(mem, t, Index(page, 1), e);
            && HugeEntry(after, root, other) == HugeEntry(mem, root, other)
            && LeafEntry(after, root, other) == if other == page then e else LeafEntry(mem, root, other)
  {
    hide Owns, Hangs;
    PathInTree(mem, root, tables, page, 1);
    PathOnLevels(mem, root, tables, other);
    LeafStoreKeepsHuge(mem, root, tables, t, Index(page, 1), e, other);
    LeafStoreKeepsPaths(mem, root, tables, t, Index(page, 1), e, other, 1);
    SameSlotSamePage(mem, root, tables, t, page, other);
    EntryAfterStore(mem, t, Index(page, 1), e);
  }

  lemma EntryAfterStore(mem: Memory, t: nat, i: nat, e: nat)
    requires WellSized(mem) && t < MAX_PAGES && i < PT_ENTRIES
    ensures forall g: nat, j: nat {:trigger Entry(Store(mem, t, i, e), g, j)} ::
              Entry(Store(mem, t, i, e), g, j) == if g == t && j == i then e else Entry(mem, g, j)
  {
    hide Owns, Hangs;
  }

  lemma SameSlotSamePage(mem: Memory, root: nat, tables: Tables, t: nat, page: nat, other: nat)
    requires Tree(mem, root, tables) && TableAt(mem, root, page, 1) == Some(t)
    requires page < VIRTUAL_PAGES && other < VIRTUAL_PAGES
    ensures TableAt(mem, root, other, 1) == Some(t) && Index(other, 1) == Index(page, 1) ==> other == page
  {
    if TableAt(mem, root, other, 1) == Some(t) {
      PathIsInjective(mem, root, tables, page, other, 1);
      UpperStep(page, 1);
      UpperStep(other, 1);
    }
  }

  lemma LeafStoreKeepsHuge(
      mem: Memory, root: nat, tables: Tables, t: nat, i: nat, e: nat, page: nat)
    requires WellSized(mem) && t < MAX_PAGES && OnLevels(mem, root, tables, page)
    requires t in tables && tables[t].level == 1 && i < PT_ENTRIES
    ensures HugeEntry(Store(mem, t, i, e), root, page) == HugeEntry(mem, root, page)
  {
    LeafStoreKeepsPaths(mem, root, tables, t, i, e, page, 2);
    EntryAfterStore(mem, t, i, e);
  }

  // ---- overwriting a frame that is not a table ----

  /** Clearing a frame outside the tree keeps the tree and every translation. */
  lemma ForeignFrameKeepsTree(mem: Memory, root: nat, tables: Tables, x: nat)
    requires Tree(mem, root, tables) && x < MAX_PAGES && x !in tables
    ensures Tree(mem[x := EmptyFrame()], root, tables)
    ensures forall page ::
              Mapping(mem[x := EmptyFrame()], root, page) == Mapping(mem, root, page)
    ensures forall page ::
              HugeEntry(mem[x := EmptyFrame()], root, page) == HugeEntry(mem, root, page)
  {
    hide Owns, Hangs;
    var after := mem[x := EmptyFrame()];
    ForeignKeepsOwns(mem, tables, x);
    ForeignKeepsHangs(mem, root, tables, x);
    forall page
      ensures Mapping(after, root, page) == Mapping(mem, root, page)
      ensures HugeEntry(after, root, page) == HugeEntry(mem, root, page)
    {
      PathOnLevels(mem, root, tables, page);
      ForeignKeepsMapping(mem, root, tables, x, page);
    }
  }

  lemma ForeignKeepsOwns(mem: Memory, tables: Tables, x: nat)
    requires WellSized(mem) && Owns(mem, tables) && x < MAX_PAGES && x !in tables
    ensures Owns(mem[x := EmptyFrame()], tables)
  {
    assert forall g, i {:trigger Entry(mem[x := EmptyFrame()], g, i)} ::
        g in tables ==> Entry(mem[x := EmptyFrame()], g, i) == Entry(mem, g, i);
  }

  lemma ForeignKeepsHangs(mem: Memory, root: nat, tables: Tables, x: nat)
    requires WellSized(mem) && Hangs(mem, tables, root) && x < MAX_PAGES && x !in tables
    ensures Hangs(mem[x := EmptyFrame()], tables, root)
  {
    assert forall g, i {:trigger Entry(mem[x := EmptyFrame()], g, i)} ::
        g in tables ==> Entry(mem[x := EmptyFrame()], g, i) == Entry(mem, g, i);
  }

  lemma {:induction false} ForeignKeepsPaths(mem: Memory, root: nat, tables: Tables, x: nat, page: nat, level: nat)
    requires WellSized(mem) && x < MAX_PAGES && x !in tables && OnLevels(mem, root, tables, page)
    requires 1 <= level <= 4
    ensures TableAt(mem[x := EmptyFrame()], root, page, level) == TableAt(mem, root, page, level)
    decreases 4 - level
  {
    hide Index, Present, Huge, PteAddr;
    if level < 4 {
      ForeignKeepsPaths(mem, root, tables, x, page, level + 1);
    }
  }

  lemma ForeignKeepsMapping(mem: Memory, root: nat, tables: Tables, x: nat, page: nat)
    requires WellSized(mem) && x < MAX_PAGES && x !in tables && OnLevels(mem, root, tables, page)
    ensures Mapping(mem[x := EmptyFrame()], root, page) == Mapping(mem, root, page)
    ensures HugeEntry(mem[x := EmptyFrame()], root, page) == HugeEntry(mem, root, page)
  {
    hide Index, Present, Huge, PteAddr;
    ForeignKeepsPaths(mem, root, tables, x, page, 2);
    ForeignKeepsPaths(mem, root, tables, x, page, 1);
  }
}
