/** The Sv39 page tables of vm.c: three levels of 512-entry table pages.  Every table page has a
    place in one tree, and a tree stands for a flat map from page number to leaf entry. */
module PageTable {
  import opened Machine
  import opened OptionType

  const ENTRIES: nat := 512

  datatype Entry = Entry(v: bool, ppn: nat, r: bool, w: bool, x: bool, u: bool, cow: bool) {
    predicate Rwx() { r || w || x }

    /** PTE_FLAGS(pte) == PTE_V */
    predicate OnlyValid() { v && !Rwx() && !u && !cow }
  }

  const ZERO := Entry(false, 0, false, false, false, false, false)

  /** A valid entry without permissions points to the next table. */
  function Pointer(p: nat): Entry {
    Entry(true, p, false, false, false, false, false)
  }

  type Tables = map<nat, seq<Entry>>

  /** The place of a table page: a root, or the table that entry i of another table names. */
  datatype Node = Top(root: nat) | Child(parent: Node, i: nat) {
    function Level(): int {
      if Top? then 2 else parent.Level() - 1
    }

    function Root(): nat {
      if Top? then root else parent.Root()
    }
  }

  type Places = map<Node, nat>

  /** PX(level, va) of page number v, and the place on the way to v at a level. */
  function Px(v: nat, level: nat): (i: nat)
    requires level <= 2
    ensures i < ENTRIES
  {
    (if level == 2 then v / 0x40000 else if level == 1 then v / ENTRIES else v) % ENTRIES
  }

  function OnPath(root: nat, v: nat, level: nat): (n: Node)
    requires level <= 2
    ensures n.Level() == level && n.Root() == root
    decreases 2 - level
  {
    if level == 2 then Top(root) else Child(OnPath(root, v, level + 1), Px(v, level + 1))
  }

  /** The three indices determine the page number. */
  lemma PxInjective(v: nat, u: nat)
    requires v < 0x8000000 && u < 0x8000000
    requires Px(v, 2) == Px(u, 2) && Px(v, 1) == Px(u, 1) && Px(v, 0) == Px(u, 0)
    ensures v == u
  {
    PxSum(v);
    PxSum(u);
  }

  lemma PxSum(v: nat)
    requires v < 0x8000000
    ensures v == Px(v, 2) * 0x40000 + Px(v, 1) * 0x200 + Px(v, 0)
  {
    assert v / 0x40000 == v / 0x200 / 0x200;
  }

  // ----- the invariant, on values --------------------------------------------------------

  /** Places and table pages correspond one to one, and a root is its own page. */
  ghost predicate Placed(at: Places, node: map<nat, Node>, tables: Tables) {
    && (forall n {:trigger at[n]} :: n in at ==> at[n] in node && node[at[n]] == n && at[n] in tables)
    && (forall p {:trigger tables[p]} :: p in tables ==>
          p in node && node[p] in at && at[node[p]] == p && |tables[p]| == ENTRIES)
    && (forall n {:trigger at[n]} :: n in at ==> n.Level() >= 0 && (n.Top? ==> at[n] == n.root))
  }

  /** Every table below a root is named by its parent. */
  ghost predicate Linked(at: Places, tables: Tables) {
    forall n {:trigger Hangs(at, tables, n)} :: n in at && n.Child? ==> Hangs(at, tables, n)
  }

  ghost predicate Hangs(at: Places, tables: Tables, n: Node)
    requires n in at && n.Child?
  {
    n.parent in at && n.i < ENTRIES && EntryAt(at, tables, n.parent, n.i) == Pointer(at[n])
  }

  /** Valid entries of inner tables name tables, but for the one of place x. */
  ghost predicate Closed(at: Places, tables: Tables, x: Option<Node>) {
    forall n, i {:trigger EntryAt(at, tables, n, i)} ::
      n in at && n.Level() > 0 && EntryAt(at, tables, n, i).v ==> Child(n, i) in at || x == Some(Child(n, i))
  }

  /** Valid entries of bottom tables carry a permission, so they are leaves. */
  ghost predicate Leafy(at: Places, tables: Tables) {
    forall n, i {:trigger EntryAt(at, tables, n, i)} ::
      n in at && n.Level() == 0 && EntryAt(at, tables, n, i).v ==> EntryAt(at, tables, n, i).Rwx()
  }

  ghost predicate Good(at: Places, node: map<nat, Node>, tables: Tables, x: Option<Node>) {
    Placed(at, node, tables) && Linked(at, tables) && Closed(at, tables, x) && Leafy(at, tables)
  }

  ghost function EntryAt(at: Places, tables: Tables, n: Node, i: nat): Entry {
    if n in at && at[n] in tables && i < |tables[at[n]]| then tables[at[n]][i] else ZERO
  }

  /** The flat map: the leaf entry of a page number, or an invalid one. */
  ghost function Look(at: Places, tables: Tables, root: nat, v: nat): Entry {
    if v < 0x8000000 then EntryAt(at, tables, OnPath(root, v, 0), Px(v, 0)) else ZERO
  }

  type Flat = map<Key, Entry>

  /** The trees hold exactly the leaf entries of a flat map. */
  ghost predicate Refines(at: Places, tables: Tables, flat: Flat) {
    forall r: nat, v: nat {:trigger Look(at, tables, r, v)} ::
      Look(at, tables, r, v) == Get(flat, r, v) && ((r, v) in flat ==> flat[(r, v)].v)
  }

  ghost function Get(flat: Flat, r: nat, v: nat): Entry {
    if (r, v) in flat then flat[(r, v)] else ZERO
  }

  /** The flat map is what a walk of three levels finds that starts at the root page and follows valid entries. */
  lemma HardwareWalk(at: Places, node: map<nat, Node>, tables: Tables, flat: Flat, root: nat, v: nat)
    requires Good(at, node, tables, None) && Refines(at, tables, flat) && Top(root) in at && v < 0x8000000
    ensures root in tables && |tables[root]| == 512
    ensures var e2 := tables[root][v / 0x40000 % 512];
            if !e2.v then !Get(flat, root, v).v
            else
              && e2.ppn in tables && |tables[e2.ppn]| == 512
              && var e1 := tables[e2.ppn][v / 512 % 512];
              if !e1.v then !Get(flat, root, v).v
              else e1.ppn in tables && |tables[e1.ppn]| == 512 && Get(flat, root, v) == tables[e1.ppn][v % 512]
  {
    var n2, n1, n0 := OnPath(root, v, 2), OnPath(root, v, 1), OnPath(root, v, 0);
    assert at[n2] == root;
    assert Look(at, tables, root, v) == Get(flat, root, v);
    NothingBelow(at, tables, root, v, 2);
    NothingBelow(at, tables, root, v, 1);
    WalkDown(at, node, tables, n2, Px(v, 2));
    if tables[root][Px(v, 2)].v {
      WalkDown(at, node, tables, n1, Px(v, 1));
    }
  }

  /** A valid entry of an inner table names the table below it. */
  lemma WalkDown(at: Places, node: map<nat, Node>, tables: Tables, n: Node, i: nat)
    requires Good(at, node, tables, None) && n in at && n.Level() > 0 && i < ENTRIES
    ensures at[n] in tables && |tables[at[n]]| == ENTRIES && EntryAt(at, tables, n, i) == tables[at[n]][i]
    ensures tables[at[n]][i].v ==> Child(n, i) in at && tables[at[n]][i].ppn == at[Child(n, i)] && at[Child(n, i)] in tables && |tables[at[Child(n, i)]]| == ENTRIES
  {
    assert EntryAt(at, tables, n, i) == tables[at[n]][i];
    if tables[at[n]][i].v {
      assert Hangs(at, tables, Child(n, i));
    }
  }

  /** Different page numbers, or different trees, have their leaf entries in different slots. */
  lemma DistinctSlots(at: Places, node: map<nat, Node>, tables: Tables, r1: nat, v1: nat, r2: nat, v2: nat)
    requires Placed(at, node, tables) && (r1 != r2 || v1 != v2) && v1 < MAXPAGE && v2 < MAXPAGE
    requires OnPath(r1, v1, 0) in at && OnPath(r2, v2, 0) in at
    ensures (at[OnPath(r1, v1, 0)], Px(v1, 0)) != (at[OnPath(r2, v2, 0)], Px(v2, 0))
  {
    if OnPath(r1, v1, 0) == OnPath(r2, v2, 0) && Px(v1, 0) == Px(v2, 0) {
      assert OnPath(r1, v1, 1) == OnPath(r2, v2, 1);
      PxInjective(v1, v2);
    }
  }

  /** A tree in which one entry of table n was replaced; new tables are empty. */
  ghost predicate Replaced(at: Places, tables: Tables, at': Places, tables': Tables, n: Node, i: nat, e: Entry) {
    forall m, j {:trigger EntryAt(at', tables', m, j)} :: EntryAt(at', tables', m, j)
      == if m == n && j == i then e else EntryAt(at, tables, m, j)
  }

  /** walk hangs a zeroed page p on an invalid entry of an inner table. */
  function Attached(at: Places, tables: Tables, n: Node, i: nat, p: nat): Tables
    requires n in at && at[n] in tables && i < |tables[at[n]]|
  {
    tables[p := seq(ENTRIES, _ => ZERO)][at[n] := tables[at[n]][i := Pointer(p)]]
  }

  lemma AttachEntries(at: Places, node: map<nat, Node>, tables: Tables, n: Node, i: nat, p: nat)
    requires Placed(at, node, tables) && n in at && i < ENTRIES && p !in tables && Child(n, i) !in at && n.Level() > 0
    ensures Replaced(at, tables, at[Child(n, i) := p], Attached(at, tables, n, i, p), n, i, Pointer(p))
    ensures Placed(at[Child(n, i) := p], node[p := Child(n, i)], Attached(at, tables, n, i, p))
  {}

  lemma AttachKeeps(at: Places, node: map<nat, Node>, tables: Tables, n: Node, i: nat, p: nat)
    requires Good(at, node, tables, None) && n in at && n.Level() > 0 && i < ENTRIES && p !in tables
    requires !EntryAt(at, tables, n, i).v
    ensures Child(n, i) !in at
    ensures Good(at[Child(n, i) := p], node[p := Child(n, i)], Attached(at, tables, n, i, p), None)
    ensures Replaced(at, tables, at[Child(n, i) := p], Attached(at, tables, n, i, p), n, i, Pointer(p))
  {
    assert Child(n, i) in at ==> Hangs(at, tables, Child(n, i));
    AttachEntries(at, node, tables, n, i, p);
    AttachLinks(at, tables, at[Child(n, i) := p], Attached(at, tables, n, i, p), n, i, p);
  }

  lemma AttachLinks(at: Places, tables: Tables, at': Places, tables': Tables, n: Node, i: nat, p: nat)
    requires Linked(at, tables) && Closed(at, tables, None) && Leafy(at, tables)
    requires n in at && n.Level() > 0 && i < ENTRIES && Child(n, i) !in at && at' == at[Child(n, i) := p]
    requires Replaced(at, tables, at', tables', n, i, Pointer(p))
    ensures Linked(at', tables') && Closed(at', tables', None) && Leafy(at', tables')
  {
    forall m | m in at' && m.Child? ensures Hangs(at', tables', m) {
      assert m in at ==> Hangs(at, tables, m);
    }
  }

  /** Replacing an entry of an inner table leaves the flat map as it is. */
  lemma SameLook(at: Places, tables: Tables, at': Places, tables': Tables, n: Node, i: nat, e: Entry)
    requires Replaced(at, tables, at', tables', n, i, e) && n.Level() > 0
    ensures forall flat :: Refines(at, tables, flat) ==> Refines(at', tables', flat)
  {
    assert forall r, v :: Look(at', tables', r, v) == Look(at, tables, r, v);
  }

  /** mappages and uvmunmap replace an entry of a bottom table. */
  lemma LeafKeeps(at: Places, node: map<nat, Node>, tables: Tables, n: Node, i: nat, e: Entry)
    requires Good(at, node, tables, None) && n in at && n.Level() == 0 && i < ENTRIES && (e.v ==> e.Rwx())
    ensures var tables' := tables[at[n] := tables[at[n]][i := e]];
            Good(at, node, tables', None) && Replaced(at, tables, at, tables', n, i, e)
  {
    var tables' := tables[at[n] := tables[at[n]][i := e]];
    assert Replaced(at, tables, at, tables', n, i, e);
    forall m | m in at && m.Child? ensures Hangs(at, tables', m) {
      assert Hangs(at, tables, m);
    }
  }

  lemma LookReplaced(at: Places, tables: Tables, tables': Tables, root: nat, v: nat, e: Entry, flat: Flat)
    requires Replaced(at, tables, at, tables', OnPath(root, v, 0), Px(v, 0), e) && v < MAXPAGE && (e.v || e == ZERO)
    requires Refines(at, tables, flat)
    ensures Refines(at, tables', if e.v then flat[(root, v) := e] else flat - {(root, v)})
  {
    forall r, u ensures Look(at, tables', r, u) == if r == root && u == v then e else Look(at, tables, r, u) {
      if u < 0x8000000 && OnPath(r, u, 0) == OnPath(root, v, 0) && Px(u, 0) == Px(v, 0) {
        assert OnPath(r, u, 1) == OnPath(root, v, 1);
        PxInjective(u, v);
      }
    }
  }

  /** A table that is missing on the way to a page number has nothing below it. */
  lemma NothingBelow(at: Places, tables: Tables, root: nat, v: nat, level: nat)
    requires Linked(at, tables) && 0 < level <= 2
    ensures !EntryAt(at, tables, OnPath(root, v, level), Px(v, level)).v ==> OnPath(root, v, 0) !in at
  {
    if OnPath(root, v, 0) in at {
      assert Hangs(at, tables, OnPath(root, v, 0));
      assert Hangs(at, tables, OnPath(root, v, 1));
    }
  }

  /** The places of the tables on the way to a page, below the root. */
  function Path(root: nat, v: nat): set<Node> {
    {OnPath(root, v, 1), OnPath(root, v, 0)}
  }

  /** The same for the pages lo..hi-1. */
  function Paths(root: nat, lo: nat, hi: nat): set<Node>
    decreases hi
  {
    if hi <= lo then {} else Paths(root, lo, hi - 1) + Path(root, hi - 1)
  }

  /** How many tables the way to the pages lo..hi-1 lacks. */
  function Lacking(places: set<Node>, root: nat, lo: nat, hi: nat): nat {
    |Paths(root, lo, hi) - places|
  }

  lemma {:induction false} PathsGrow(root: nat, lo: nat, mid: nat, hi: nat)
    requires mid <= hi
    ensures Paths(root, lo, mid) <= Paths(root, lo, hi)
    decreases hi
  {
    if mid < hi {
      PathsGrow(root, lo, mid, hi - 1);
    }
  }

  lemma {:induction false} FewerOf(a: set<Node>, b: set<Node>)
    requires a <= b
    ensures |a| <= |b| && (|a| == |b| ==> a == b)
  {
    assert b == a + (b - a);
  }

  lemma LackingGrows(places: set<Node>, root: nat, lo: nat, mid: nat, hi: nat)
    requires mid <= hi
    ensures Lacking(places, root, lo, mid) <= Lacking(places, root, lo, hi)
  {
    PathsGrow(root, lo, mid, hi);
    FewerOf(Paths(root, lo, mid) - places, Paths(root, lo, hi) - places);
  }

  /** What taking table pages from a free list comes to: all that are lacking were taken, or they were too few. */
  lemma Taken(was: set<Node>, now: set<Node>, free0: nat, free: nat, want: set<Node>)
    requires was <= now <= was + want && |now| + free == |was| + free0
    ensures now == was + want ==> free == free0 - |want - was|
    ensures now != was + want && free == 0 ==> free0 < |want - was|
  {
    assert was + want == was + (want - was) && |was + want| == |was| + |want - was|;
    FewerOf(now, was + want);
  }

  /** The flat map after mappages of `done` pages from lo on. */
  ghost function Mapped(flat: Flat, root: nat, lo: nat, done: nat, ppn: nat, perm: Entry): Flat {
    if done == 0 then flat
    else Mapped(flat, root, lo, done - 1, ppn, perm)[(root, lo + done - 1) := perm.(v := true, ppn := ppn + done - 1)]
  }

  /** mappages fills its range and leaves everything else alone. */
  lemma {:induction false} MappedAt(flat: Flat, root: nat, lo: nat, done: nat, ppn: nat, perm: Entry)
    ensures forall r: nat, v: nat {:trigger Get(Mapped(flat, root, lo, done, ppn, perm), r, v)} ::
              Get(Mapped(flat, root, lo, done, ppn, perm), r, v)
              == if r == root && lo <= v < lo + done then perm.(v := true, ppn := ppn + (v - lo)) else Get(flat, r, v)
  {
    if done > 0 {
      MappedAt(flat, root, lo, done - 1, ppn, perm);
      var m := Mapped(flat, root, lo, done - 1, ppn, perm);
      forall r: nat, v: nat ensures Get(Mapped(flat, root, lo, done, ppn, perm), r, v)
                                    == if r == root && lo <= v < lo + done then perm.(v := true, ppn := ppn + (v - lo)) else Get(flat, r, v) {
        assert Get(m, r, v) == Get(Mapped(flat, root, lo, done - 1, ppn, perm), r, v);
      }
    }
  }

  lemma MappedNext(flat: Flat, root: nat, lo: nat, done: nat, ppn: nat, perm: Entry)
    ensures Blocked(Mapped(flat, root, lo, done, ppn, perm), root, lo + done) == Blocked(flat, root, lo + done)
  {
    MappedAt(flat, root, lo, done, ppn, perm);
  }

  /** The flat map after uvmunmap of `done` pages from lo on. */
  ghost function Unmapped(flat: Flat, root: nat, lo: nat, done: nat): Flat {
    if done == 0 then flat else Unmapped(flat, root, lo, done - 1) - {(root, lo + done - 1)}
  }

  /** uvmunmap empties its range and leaves everything else alone. */
  lemma {:induction false} UnmappedAt(flat: Flat, root: nat, lo: nat, done: nat, r: nat, v: nat)
    ensures Get(Unmapped(flat, root, lo, done), r, v) == if r == root && lo <= v < lo + done then ZERO else Get(flat, r, v)
  {
    if done > 0 {
      UnmappedAt(flat, root, lo, done - 1, r, v);
    }
  }

  ghost predicate Unmappable(flat: Flat, root: nat, v: nat) {
    v < MAXPAGE && Get(flat, root, v).v
  }

  lemma UnmappedNext(flat: Flat, root: nat, lo: nat, done: nat)
    ensures Get(Unmapped(flat, root, lo, done), root, lo + done) == Get(flat, root, lo + done)
  {
    UnmappedAt(flat, root, lo, done, root, lo + done);
  }

  /** mappages panics on a page number that is mapped or out of range. */
  ghost predicate Blocked(flat: Flat, root: nat, v: nat) {
    v >= MAXPAGE || Get(flat, root, v).v
  }

  // ----- freewalk ---------------------------------------------------------------------------

  /** m is n or below it. */
  ghost predicate Under(m: Node, n: Node) {
    m == n || (m.Child? && Under(m.parent, n))
  }

  /** The entry of n through which m is reached, or -1. */
  ghost function Via(m: Node, n: Node): int {
    if m.Top? then -1 else if m.parent == n then m.i else Via(m.parent, n)
  }

  ghost predicate NoLeaf(at: Places, tables: Tables, n: Node) {
    forall m, j: nat {:trigger EntryAt(at, tables, m, j)} ::
      m in at && Under(m, n) && m.Level() == 0 ==> !EntryAt(at, tables, m, j).v
  }

  ghost predicate Gone(at0: Places, at: Places, n: Node) {
    && (forall m :: m in at <==> m in at0 && !Under(m, n))
    && (forall m {:trigger at[m]} :: m in at ==> at[m] == at0[m])
  }

  /** The tables under n are gone and nothing else has changed. */
  ghost predicate Freed(at0: Places, tables0: Tables, at: Places, tables: Tables, n: Node) {
    && Gone(at0, at, n)
    && (forall m, j: nat {:trigger EntryAt(at, tables, m, j)} :: m in at ==> EntryAt(at, tables, m, j) == EntryAt(at0, tables0, m, j))
  }

  /** freewalk of n has gone through the entries below i, and found no leaf. */
  ghost predicate Progress(at0: Places, tables0: Tables, at: Places, tables: Tables, n: Node, i: nat) {
    && n in at && (forall m :: m in at <==> m in at0 && !(0 <= Via(m, n) < i))
    && (forall m {:trigger at[m]} :: m in at ==> at[m] == at0[m])
    && (forall m, j: nat {:trigger EntryAt(at, tables, m, j)} :: m in at && (m != n || j >= i) ==>
          EntryAt(at, tables, m, j) == EntryAt(at0, tables0, m, j))
    && (forall j: nat {:trigger EntryAt(at, tables, n, j)} :: j < i ==> !EntryAt(at, tables, n, j).v)
    && (forall m, j: nat {:trigger EntryAt(at0, tables0, m, j)} ::
          m in at0 && m.Level() == 0 && (0 <= Via(m, n) < i || (m == n && j < i)) ==> !EntryAt(at0, tables0, m, j).v)
    && Linked(at0, tables0)
  }

  lemma {:induction false} UnderVia(m: Node, n: Node, j: nat)
    ensures Under(m, n) <==> m == n || Via(m, n) >= 0
    ensures Under(m, Child(n, j)) <==> Via(m, n) == j
    ensures Under(m, n) ==> m.Level() <= n.Level()
  {
    if m.Child? {
      UnderVia(m.parent, n, j);
      UnderVia(m.parent, Child(n, j), 0);
    }
  }

  lemma {:induction false} ViaAncestor(at: Places, tables: Tables, m: Node, n: Node)
    requires Linked(at, tables) && m in at && Via(m, n) >= 0
    ensures Via(m, n) < ENTRIES && Child(n, Via(m, n)) in at
  {
    assert Hangs(at, tables, m);
    if m.parent != n {
      ViaAncestor(at, tables, m.parent, n);
    }
  }

  lemma ProgressStart(at: Places, tables: Tables, n: Node)
    requires Linked(at, tables) && n in at
    ensures Progress(at, tables, at, tables, n, 0)
  {}

  /** freewalk passes over an invalid entry, and panics at a leaf. */
  lemma ProgressSkip(at0: Places, tables0: Tables, at: Places, node: map<nat, Node>, tables: Tables, n: Node, i: nat)
    requires Progress(at0, tables0, at, tables, n, i) && n in at && i < ENTRIES && Good(at, node, tables, None)
    ensures !EntryAt(at, tables, n, i).v ==> Progress(at0, tables0, at, tables, n, i + 1)
    ensures EntryAt(at, tables, n, i).v && EntryAt(at, tables, n, i).Rwx() ==> !NoLeaf(at0, tables0, n)
  {
    var c := Child(n, i);
    assert EntryAt(at0, tables0, n, i) == EntryAt(at, tables, n, i);
    if !EntryAt(at, tables, n, i).v {
      assert c in at0 ==> Hangs(at0, tables0, c);
      forall m | m in at0 ensures Via(m, n) != i {
        if Via(m, n) == i {
          ViaAncestor(at0, tables0, m, n);
        }
      }
    } else if EntryAt(at, tables, n, i).Rwx() {
      assert c in at ==> Hangs(at, tables, c);
    }
  }

  lemma ProgressEnd(at0: Places, tables0: Tables, at: Places, node: map<nat, Node>, tables: Tables, n: Node)
    requires Progress(at0, tables0, at, tables, n, ENTRIES) && n in at && Good(at, node, tables, None)
    ensures NoLeaf(at0, tables0, n) && forall j :: !EntryAt(at, tables, n, j).v
    ensures Freed(at0, tables0, at - {n}, tables - {at[n]}, n)
  {
    forall m | m in at0 ensures Under(m, n) <==> m == n || 0 <= Via(m, n) < ENTRIES {
      UnderVia(m, n, 0);
      if Via(m, n) >= 0 {
        ViaAncestor(at0, tables0, m, n);
      }
    }
    assert forall m, j: nat :: m in at && m != n ==> EntryAt(at - {n}, tables - {at[n]}, m, j) == EntryAt(at, tables, m, j);
    assert forall j :: j >= ENTRIES ==> EntryAt(at0, tables0, n, j) == EntryAt(at, tables, n, j);
  }

  /** freewalk of a child and the clearing of its entry. */
  lemma ProgressStep(at0: Places, tables0: Tables, at1: Places, tables1: Tables, at: Places, tables2: Tables, tables: Tables,
                     n: Node, i: nat)
    requires Progress(at0, tables0, at1, tables1, n, i) && n in at1 && i < ENTRIES && n.Level() > 0
    requires Freed(at1, tables1, at, tables2, Child(n, i)) && NoLeaf(at1, tables1, Child(n, i))
    requires Replaced(at, tables2, at, tables, n, i, ZERO)
    ensures Progress(at0, tables0, at, tables, n, i + 1) && n in at
  {
    forall m ensures Under(m, Child(n, i)) <==> Via(m, n) == i {
      UnderVia(m, n, i);
    }
    UnderVia(n, Child(n, i), 0);
    forall m, j: nat | m in at && (m != n || j >= i + 1) ensures EntryAt(at, tables, m, j) == EntryAt(at0, tables0, m, j) {
      assert EntryAt(at, tables2, m, j) == EntryAt(at1, tables1, m, j);
    }
    forall j: nat | j < i ensures !EntryAt(at, tables, n, j).v {
      assert EntryAt(at, tables2, n, j) == EntryAt(at1, tables1, n, j);
    }
    forall m, j: nat | m in at0 && m.Level() == 0 && Via(m, n) == i ensures !EntryAt(at0, tables0, m, j).v {
      assert EntryAt(at1, tables1, m, j) == EntryAt(at0, tables0, m, j);
    }
  }

  lemma LeafBelow(at0: Places, tables0: Tables, at1: Places, tables1: Tables, n: Node, i: nat)
    requires Progress(at0, tables0, at1, tables1, n, i) && !NoLeaf(at1, tables1, Child(n, i))
    ensures !NoLeaf(at0, tables0, n)
  {
    var m, j :| m in at1 && Under(m, Child(n, i)) && m.Level() == 0 && EntryAt(at1, tables1, m, j).v;
    UnderVia(m, n, i);
    UnderVia(n, Child(n, i), 0);
    assert EntryAt(at1, tables1, m, j) == EntryAt(at0, tables0, m, j);
  }

  /** Clearing the entry that named a freed table. */
  lemma ClearKeeps(at: Places, node: map<nat, Node>, tables: Tables, n: Node, i: nat)
    requires Good(at, node, tables, Some(Child(n, i))) && n in at && n.Level() > 0 && i < ENTRIES && Child(n, i) !in at
    ensures var tables' := tables[at[n] := tables[at[n]][i := ZERO]];
            Good(at, node, tables', None) && Replaced(at, tables, at, tables', n, i, ZERO)
  {
    var tables' := tables[at[n] := tables[at[n]][i := ZERO]];
    assert Replaced(at, tables, at, tables', n, i, ZERO);
    forall m | m in at && m.Child? ensures Hangs(at, tables', m) {
      assert Hangs(at, tables, m);
    }
  }

  /** Freeing an empty table leaves only its parent's entry wrong. */
  lemma DropKeeps(at: Places, node: map<nat, Node>, tables: Tables, flat: Flat, n: Node)
    requires Good(at, node, tables, None) && Refines(at, tables, flat) && n in at
    requires forall j :: !EntryAt(at, tables, n, j).v
    ensures Good(at - {n}, node - {at[n]}, tables - {at[n]}, Some(n)) && Refines(at - {n}, tables - {at[n]}, flat)
  {
    var at', tables' := at - {n}, tables - {at[n]};
    forall m, j: nat ensures EntryAt(at', tables', m, j) == if m == n then ZERO else EntryAt(at, tables, m, j) {
      assert m in at ==> node[at[m]] == m;
    }
    DropLinks(at, tables, at', tables', n);
    forall r, v ensures Look(at', tables', r, v) == Look(at, tables, r, v) {
      assert Look(at, tables, r, v) == Get(flat, r, v);
    }
  }

  lemma DropLinks(at: Places, tables: Tables, at': Places, tables': Tables, n: Node)
    requires Linked(at, tables) && Closed(at, tables, None) && Leafy(at, tables) && n in at && at' == at - {n}
    requires forall j: nat :: !EntryAt(at, tables, n, j).v
    requires forall m, j: nat {:trigger EntryAt(at', tables', m, j)} ::
               EntryAt(at', tables', m, j) == if m == n then ZERO else EntryAt(at, tables, m, j)
    ensures Linked(at', tables') && Closed(at', tables', Some(n)) && Leafy(at', tables')
  {
    forall m | m in at' && m.Child? ensures Hangs(at', tables', m) {
      assert Hangs(at, tables, m);
      assert EntryAt(at', tables', m.parent, m.i) == if m.parent == n then ZERO else EntryAt(at, tables, m.parent, m.i);
    }
    forall m, i: nat | m in at' && m.Level() > 0 && EntryAt(at', tables', m, i).v ensures Child(m, i) in at' || Child(m, i) == n {
      assert EntryAt(at, tables, m, i).v;
    }
  }

  /** Every slot of a bottom table is the slot of a page number. */
  lemma SlotPage(root: nat, a: nat, b: nat, j: nat) returns (v: nat)
    requires a < ENTRIES && b < ENTRIES && j < ENTRIES
    ensures v < 0x8000000 && OnPath(root, v, 0) == Child(Child(Top(root), a), b) && Px(v, 0) == j
  {
    v := a * 0x40000 + b * 0x200 + j;
    assert v / 0x200 == a * 0x200 + b && v / 0x40000 == a;
    assert OnPath(root, v, 1) == Child(Top(root), a);
  }

  lemma {:induction false} LevelTop(n: Node)
    ensures n.Level() <= 2 && (n.Level() == 2 <==> n.Top?)
  {
    if n.Child? {
      LevelTop(n.parent);
    }
  }

  /** A tree whose flat map is empty holds no leaf. */
  lemma EmptyTree(at: Places, node: map<nat, Node>, tables: Tables, flat: Flat, root: nat)
    requires Good(at, node, tables, None) && Refines(at, tables, flat) && forall v: nat :: !Get(flat, root, v).v
    ensures NoLeaf(at, tables, Top(root))
  {
    forall m, j: nat | m in at && Under(m, Top(root)) && m.Level() == 0 ensures !EntryAt(at, tables, m, j).v {
      assert m.Child? && Hangs(at, tables, m);
      assert m.parent.Child? && Hangs(at, tables, m.parent);
      LevelTop(m.parent.parent);
      assert Under(m.parent, Top(root)) && Under(m.parent.parent, Top(root));
      if j < ENTRIES {
        var v := SlotPage(root, m.parent.i, m.i, j);
        assert Look(at, tables, root, v) == Get(flat, root, v);
      }
    }
  }

  /** uvmcreate: a zeroed root of its own. */
  lemma RootKeeps(at: Places, node: map<nat, Node>, tables: Tables, flat: Flat, p: nat)
    requires Good(at, node, tables, None) && Refines(at, tables, flat) && p !in tables
    ensures var tables' := tables[p := seq(ENTRIES, _ => ZERO)];
            && Top(p) !in at && Good(at[Top(p) := p], node[p := Top(p)], tables', None)
            && Refines(at[Top(p) := p], tables', flat)
  {
    var at', tables' := at[Top(p) := p], tables[p := seq(ENTRIES, _ => ZERO)];
    assert forall n :: n in at && n.Top? ==> at[n] == n.root && n.root in tables;
    assert forall m, j: nat :: EntryAt(at', tables', m, j) == EntryAt(at, tables, m, j);
    forall m | m in at' && m.Child? ensures Hangs(at', tables', m) {
      assert Hangs(at, tables, m);
    }
    assert forall r: nat, v: nat :: Look(at', tables', r, v) == Look(at, tables, r, v);
  }


  /** What walk gives: the slot of a leaf entry, nothing, or a panic above MAXVA. */
  datatype Walked = Slot(page: nat, i: nat) | Missing | TooHigh

  class PageTables {
    var tables: Tables
    var free: seq<nat>

    ghost var at: Places
    ghost var node: map<nat, Node>
    ghost var flat: Flat
    ghost const pool: set<nat>

    ghost predicate Sound(x: Option<Node>)
      reads this
    {
      Good(at, node, tables, x) && Spare(free, tables, pool) && Refines(at, tables, flat)
    }

    ghost predicate Valid()
      reads this
    {
      Sound(None)
    }

    /** Every page of the pool is free, and then listed once, or holds a table. */
    static ghost predicate Spare(free: seq<nat>, tables: Tables, pool: set<nat>) {
      && (forall i, j :: 0 <= i < j < |free| ==> free[i] != free[j])
      && (forall p :: p in pool <==> p in free || p in tables)
      && (forall p :: p in free ==> p !in tables)
    }

    static lemma SpareTake(free: seq<nat>, tables: Tables, tables': Tables, pool: set<nat>)
      requires Spare(free, tables, pool) && free != [] && tables'.Keys == tables.Keys + {free[0]}
      ensures Spare(free[1..], tables', pool) && free[0] !in tables
    {
      assert forall p :: p in free <==> p == free[0] || p in free[1..];
    }

    /** kalloc and memset of a table page, and the entry that names it. */
    method NewTable(page: nat, i: nat, ghost n: Node) returns (ok: bool, p: nat)
      requires Valid() && n in at && at[n] == page && n.Level() > 0 && i < ENTRIES && !tables[page][i].v
      modifies this`tables, this`free, this`at, this`node
      ensures Valid() && (ok <==> old(free) != [])
      ensures ok ==> Child(n, i) !in old(at) && at == old(at)[Child(n, i) := p]
      ensures !ok ==> at == old(at) && tables == old(tables) && free == old(free)
      ensures ok ==> free == old(free)[1..]
    {
      ok, p := free != [], 0;
      if ok {
        p := free[0];
        SpareTake(free, tables, Attached(at, tables, n, i, p), pool);
        AttachKeeps(at, node, tables, n, i, p);
        SameLook(at, tables, at[Child(n, i) := p], Attached(at, tables, n, i, p), n, i, Pointer(p));
        free := free[1..];
        tables := tables[p := seq(ENTRIES, _ => ZERO)];
        tables := tables[page := tables[page][i := Pointer(p)]];
        at := at[Child(n, i) := p];
        node := node[p := Child(n, i)];
      }
    }

    /** The tables that are new are among some places, and each took a page of the free list. */
    ghost predicate Paid(at0: Places, free0: seq<nat>, places: set<Node>)
      reads this`at, this`free
    {
      at0.Keys <= at.Keys <= at0.Keys + places && |at.Keys| + |free| == |at0.Keys| + |free0|
    }

    /** One level of walk. */
    method Descend(page: nat, i: nat, alloc: bool, ghost n: Node) returns (ok: bool, next: nat)
      requires Valid() && n in at && at[n] == page && n.Level() > 0 && i < ENTRIES
      modifies this`tables, this`free, this`at, this`node
      ensures Valid()
      ensures forall n :: n in old(at) ==> n in at && at[n] == old(at[n])
      ensures ok ==> Child(n, i) in at && next == at[Child(n, i)]
      ensures !ok ==> !EntryAt(at, tables, n, i).v && (alloc ==> free == [])
      ensures !alloc ==> tables == old(tables) && free == old(free) && at == old(at)
      ensures Paid(old(at), old(free), {Child(n, i)}) && (ok ==> at.Keys == old(at).Keys + {Child(n, i)})
    {
      assert EntryAt(at, tables, n, i) == tables[page][i];
      assert Child(n, i) in at ==> Hangs(at, tables, Child(n, i));
      ok, next := true, tables[page][i].ppn;
      if !tables[page][i].v {
        ok := false;
        if alloc {
          ok, next := NewTable(page, i, n);
        }
      }
    }

    lemma RootIs(root: nat)
      requires Valid() && Top(root) in at
      ensures at[Top(root)] == root
    {}

    lemma NothingHere(root: nat, v: nat, level: nat)
      requires Valid() && 0 < level <= 2
      ensures !EntryAt(at, tables, OnPath(root, v, level), Px(v, level)).v ==> OnPath(root, v, 0) !in at
    {
      NothingBelow(at, tables, root, v, level);
    }

    method Walk(root: nat, v: nat, alloc: bool) returns (w: Walked)
      requires Valid() && Top(root) in at
      modifies this`tables, this`free, this`at, this`node
      ensures Valid() && (w.TooHigh? <==> v >= MAXPAGE)
      ensures forall n :: n in old(at) ==> n in at && at[n] == old(at[n])
      ensures w.Slot? ==> OnPath(root, v, 0) in at && w == Slot(at[OnPath(root, v, 0)], Px(v, 0))
      ensures w.Missing? ==> OnPath(root, v, 0) !in at && (alloc ==> free == [])
      ensures !alloc ==> tables == old(tables) && free == old(free) && at == old(at)
      ensures Paid(old(at), old(free), Path(root, v)) && (w.Slot? ==> at.Keys == old(at).Keys + Path(root, v))
      ensures alloc && v < MAXPAGE ==> (w.Slot? <==> |Path(root, v) - old(at).Keys| <= |old(free)|)
    {
      hide Sound, EntryAt, Px;
      if v >= MAXPAGE {
        return TooHigh;
      }
      RootIs(root);
      var page, level, ok := root, 2, true;
      ghost var n := Top(root);
      while level > 0 && ok
        invariant 0 <= level <= 2 && n == OnPath(root, v, level) && (ok ==> n in at && page == at[n])
        invariant Valid()
        invariant forall n :: n in old(at) ==> n in at && at[n] == old(at[n])
        invariant !alloc ==> tables == old(tables) && free == old(free) && at == old(at)
        invariant !ok ==> OnPath(root, v, 0) !in at && (alloc ==> free == [])
        invariant Paid(old(at), old(free), Path(root, v))
        invariant ok && level <= 1 ==> OnPath(root, v, 1) in at
      {
        ok, page := Descend(page, Px(v, level), alloc, n);
        NothingHere(root, v, level);
        n := Child(n, Px(v, level));
        level := level - 1;
      }
      Taken(old(at).Keys, at.Keys, |old(free)|, |free|, Path(root, v));
      w := if ok then Slot(page, Px(v, 0)) else Missing;
    }

    /** Write the leaf entry of a page number. */
    method SetLeaf(root: nat, v: nat, page: nat, i: nat, e: Entry)
      requires Valid() && v < MAXPAGE && OnPath(root, v, 0) in at && (if e.v then e.Rwx() else e == ZERO)
      requires page == at[OnPath(root, v, 0)] && i == Px(v, 0)
      modifies this`tables, this`flat
      ensures Valid() && tables.Keys == old(tables.Keys)
      ensures flat == if e.v then old(flat)[(root, v) := e] else old(flat) - {(root, v)}
    {
      LeafKeeps(at, node, tables, OnPath(root, v, 0), i, e);
      LookReplaced(at, tables, tables[page := tables[page][i := e]], root, v, e, flat);
      tables := tables[page := tables[page][i := e]];
      flat := if e.v then flat[(root, v) := e] else flat - {(root, v)};
    }

    /** One iteration of mappages. */
    method MapOne(root: nat, v: nat, e: Entry) returns (r: Outcome)
      requires Valid() && Top(root) in at && e.v && e.Rwx()
      modifies this
      ensures Valid() && Top(root) in at
      ensures r == Refused ==> free == []
      ensures r == Panic <==> Blocked(old(flat), root, v)
      ensures flat == if r == Done then old(flat)[(root, v) := e] else old(flat)
      ensures Paid(old(at), old(free), Path(root, v)) && (r == Done ==> at.Keys == old(at).Keys + Path(root, v))
      ensures r == Refused ==> OnPath(root, v, 0) !in at
    {
      var w := Walk(root, v, true);
      if w.TooHigh? {
        r := Panic;
      } else if w.Missing? {
        assert !Look(at, tables, root, v).v;
        r := Refused;
      } else if tables[w.page][w.i].v {
        assert Look(at, tables, root, v).v;
        r := Panic;
      } else {
        assert !Look(at, tables, root, v).v;
        SetLeaf(root, v, w.page, w.i, e);
        r := Done;
      }
    }

    /** mappages of the pages first..last is done if and only if none of them is blocked and the free list has as many
        pages as there are tables lacking; then it has taken those, and it is refused only when there are too few. */
    ghost predicate MapEnds(r: Outcome, flat0: Flat, at0: Places, free0: seq<nat>, root: nat, first: nat, last: nat)
      reads this`free
    {
      var lacking := Lacking(at0.Keys, root, first, last + 1);
      && (r == Done <==> lacking <= |free0| && forall v {:trigger Blocked(flat0, root, v)} :: first <= v <= last ==> !Blocked(flat0, root, v))
      && (r == Done ==> |free| == |free0| - lacking)
      && (r == Refused ==> lacking > |free0|)
    }

    /** mappages: the pages that va..va+size-1 touches, in order, until one fails. */
    method MapPages(root: nat, va: nat, size: nat, ppn: nat, perm: Entry) returns (r: Outcome, ghost done: nat)
      requires Valid() && Top(root) in at && perm.Rwx()
      modifies this
      ensures Valid() && Top(root) in at
      ensures forall t: nat, v: nat {:trigger Get(flat, t, v)} :: Get(flat, t, v)
                == if t == root && va / PGSIZE <= v < va / PGSIZE + done then perm.(v := true, ppn := ppn + (v - va / PGSIZE)) else Get(old(flat), t, v)
      ensures r == Done <==> size > 0 && va / PGSIZE + done == (va + size - 1) / PGSIZE + 1
      ensures r == Refused ==> free == []
      ensures r == Panic <==> size == 0 || (r != Done && (va / PGSIZE + done >= MAXPAGE || Get(old(flat), root, va / PGSIZE + done).v))
      ensures size > 0 ==> MapEnds(r, old(flat), old(at), old(free), root, va / PGSIZE, (va + size - 1) / PGSIZE)
    {
      if size == 0 {
        return Panic, 0;
      }
      r, done := MapRange(root, va / PGSIZE, (va + size - 1) / PGSIZE, ppn, perm);
      MappedAt(old(flat), root, va / PGSIZE, done, ppn, perm);
    }

    method MapRange(root: nat, first: nat, last: nat, ppn: nat, perm: Entry) returns (r: Outcome, ghost done: nat)
      requires Valid() && Top(root) in at && perm.Rwx() && first <= last
      modifies this
      ensures Valid() && Top(root) in at
      ensures flat == Mapped(old(flat), root, first, done, ppn, perm)
      ensures r == Done <==> first + done == last + 1
      ensures r == Refused ==> free == []
      ensures r == Panic <==> r != Done && Blocked(old(flat), root, first + done)
      ensures MapEnds(r, old(flat), old(at), old(free), root, first, last)
    {
      hide Sound, Mapped, Blocked, Paths;
      ghost var flat0, at0, free0 := flat, at, free;
      MappedNone(flat0, root, first, ppn, perm);
      PathsNone(root, first);
      done, r := 0, Done;
      var v, pa := first, ppn;
      while v <= last && r == Done
        invariant v == first + done <= last + 1 && pa == ppn + done && (r != Done ==> v <= last)
        invariant Valid() && Top(root) in at
        invariant flat == Mapped(flat0, root, first, done, ppn, perm)
        invariant r == Refused ==> free == []
        invariant r == Panic <==> r != Done && Blocked(flat0, root, first + done)
        invariant forall u {:trigger Blocked(flat0, root, u)} :: first <= u < v ==> !Blocked(flat0, root, u)
        invariant Paid(at0, free0, Paths(root, first, if r == Done then v else v + 1))
        invariant r == Done ==> at.Keys == at0.Keys + Paths(root, first, v)
        invariant r == Refused ==> at.Keys != at0.Keys + Paths(root, first, v + 1)
        decreases last - v, r == Done
      {
        PathsNext(root, first, v);
        r := MapNext(root, v, pa, perm, first, done, ppn, flat0);
        if r == Done {
          v, pa, done := v + 1, pa + 1, done + 1;
        }
      }
      Taken(at0.Keys, at.Keys, |free0|, |free|, Paths(root, first, if r == Done then v else v + 1));
      LackingGrows(at0.Keys, root, first, if r == Done then v else v + 1, last + 1);
    }

    static lemma PathsNone(root: nat, lo: nat)
      ensures Paths(root, lo, lo) == {}
    {}

    static lemma PathsNext(root: nat, lo: nat, v: nat)
      requires lo <= v
      ensures Paths(root, lo, v + 1) == Paths(root, lo, v) + Path(root, v)
    {}

    static lemma MappedNone(flat: Flat, root: nat, lo: nat, ppn: nat, perm: Entry)
      ensures Mapped(flat, root, lo, 0, ppn, perm) == flat
    {}

    /** One iteration of mappages, after `done` pages. */
    method MapNext(root: nat, v: nat, pa: nat, perm: Entry, ghost first: nat, ghost done: nat, ghost ppn: nat, ghost flat0: Flat)
      returns (r: Outcome)
      requires Valid() && Top(root) in at && perm.Rwx() && v == first + done && pa == ppn + done
      requires flat == Mapped(flat0, root, first, done, ppn, perm)
      modifies this
      ensures Valid() && Top(root) in at
      ensures flat == Mapped(flat0, root, first, if r == Done then done + 1 else done, ppn, perm)
      ensures r == Refused ==> free == []
      ensures r == Panic <==> Blocked(flat0, root, first + done)
      ensures Paid(old(at), old(free), Path(root, v)) && (r == Done ==> at.Keys == old(at).Keys + Path(root, v))
      ensures r == Refused ==> OnPath(root, v, 0) !in at
    {
      hide Sound, Path, OnPath;
      MappedNext(flat0, root, first, done, ppn, perm);
      r := MapOne(root, v, perm.(v := true, ppn := pa));
    }

    /** One iteration of uvmunmap; `freed` is the physical page it hands to kfree. */
    method UnmapOne(root: nat, v: nat, doFree: bool) returns (ok: bool, freed: seq<nat>)
      requires Valid() && Top(root) in at
      modifies this`tables, this`free, this`at, this`node, this`flat
      ensures Valid() && at == old(at) && free == old(free)
      ensures ok <==> Unmappable(old(flat), root, v)
      ensures flat == if ok then old(flat) - {(root, v)} else old(flat)
      ensures freed == if ok && doFree then [Get(old(flat), root, v).ppn] else []
    {
      freed := [];
      var w := Walk(root, v, false);
      assert w.Slot? ==> Look(at, tables, root, v) == tables[w.page][w.i];
      assert w.Missing? ==> Look(at, tables, root, v) == ZERO;
      var e := if w.Slot? then tables[w.page][w.i] else ZERO;
      ok := e.v && !e.OnlyValid();
      if ok {
        freed := if doFree then [e.ppn] else [];
        SetLeaf(root, v, w.page, w.i, ZERO);
      }
    }

    /** uvmunmap: clears its range and frees the pages in order, or panics at the first one unmapped. */
    method UvmUnmap(root: nat, va: nat, n: nat, doFree: bool) returns (r: Outcome, freed: seq<nat>, ghost done: nat)
      requires Valid() && Top(root) in at
      modifies this`tables, this`free, this`at, this`node, this`flat
      ensures Valid() && at == old(at) && free == old(free) && done <= n
      ensures flat == Unmapped(old(flat), root, va / PGSIZE, done)
      ensures forall t: nat, v: nat {:trigger Get(flat, t, v)} :: Get(flat, t, v)
                == if t == root && va / PGSIZE <= v < va / PGSIZE + done then ZERO else Get(old(flat), t, v)
      ensures |freed| == if doFree then done else 0
      ensures forall k :: 0 <= k < |freed| ==> freed[k] == Get(old(flat), root, va / PGSIZE + k).ppn
      ensures if r == Done then va % PGSIZE == 0 && done == n else r == Panic
      ensures r == Panic && va % PGSIZE == 0 ==> done < n && (va / PGSIZE + done >= MAXPAGE || !Get(old(flat), root, va / PGSIZE + done).v)
      ensures forall v: nat {:trigger Get(old(flat), root, v)} :: va / PGSIZE <= v < va / PGSIZE + done ==> Get(old(flat), root, v).v
      ensures done > 0 ==> va / PGSIZE + done <= MAXPAGE
    {
      ghost var flat0 := flat;
      freed, r, done := [], Panic, 0;
      if va % PGSIZE == 0 {
        r, freed, done := UnmapRange(root, va / PGSIZE, n, doFree);
      }
      forall t: nat, v: nat ensures Get(flat, t, v) == if t == root && va / PGSIZE <= v < va / PGSIZE + done then ZERO else Get(old(flat), t, v) {
        UnmappedAt(old(flat), root, va / PGSIZE, done, t, v);
      }
    }

    method UnmapRange(root: nat, lo: nat, n: nat, doFree: bool) returns (r: Outcome, freed: seq<nat>, ghost done: nat)
      requires Valid() && Top(root) in at
      modifies this`tables, this`free, this`at, this`node, this`flat
      ensures Valid() && at == old(at) && free == old(free) && done <= n
      ensures flat == Unmapped(old(flat), root, lo, done)
      ensures |freed| == if doFree then done else 0
      ensures forall k :: 0 <= k < |freed| ==> freed[k] == Get(old(flat), root, lo + k).ppn
      ensures if r == Done then done == n else r == Panic
      ensures r == Panic ==> done < n && !Unmappable(old(flat), root, lo + done)
      ensures forall v: nat {:trigger Get(old(flat), root, v)} :: lo <= v < lo + done ==> Get(old(flat), root, v).v
      ensures done > 0 ==> lo + done <= MAXPAGE
    {
      ghost var flat0 := flat;
      freed, r, done := [], Done, 0;
      var v := lo;
      while v < lo + n && r == Done
        invariant v == lo + done <= lo + n && (r == Panic ==> v < lo + n) && r != Refused
        invariant Valid() && at == old(at) && free == old(free)
        invariant flat == Unmapped(flat0, root, lo, done)
        invariant |freed| == if doFree then done else 0
        invariant forall k :: 0 <= k < |freed| ==> freed[k] == Get(flat0, root, lo + k).ppn
        invariant r == Panic ==> !Unmappable(flat0, root, lo + done)
        invariant forall v: nat {:trigger Get(flat0, root, v)} :: lo <= v < lo + done ==> Get(flat0, root, v).v
        invariant done > 0 ==> lo + done <= MAXPAGE
        decreases lo + n - v, r == Done
      {
        UnmappedNext(flat0, root, lo, done);
        var ok, page := UnmapOne(root, v, doFree);
        freed := freed + page;
        if ok {
          v, done := v + 1, done + 1;
        } else {
          r := Panic;
        }
      }
    }

    /** freewalk: recursively free the table pages under one, which must hold no leaf. */
    method FreeWalk(page: nat, ghost n: Node) returns (ok: bool)
      requires Valid() && n in at && at[n] == page
      modifies this`tables, this`free, this`at, this`node
      ensures ok <==> NoLeaf(old(at), old(tables), n)
      ensures ok ==> Sound(Some(n)) && Freed(old(at), old(tables), at, tables, n)
      decreases n.Level(), 2
    {
      ghost var at0, tables0 := at, tables;
      ProgressStart(at, tables, n);
      var i := 0;
      ok := true;
      while i < ENTRIES && ok
        invariant i <= ENTRIES && (ok ==> Valid() && Progress(at0, tables0, at, tables, n, i))
        invariant !ok ==> !NoLeaf(at0, tables0, n)
      {
        ok := FreeEntry(page, i, n, at0, tables0);
        i := i + 1;
      }
      if ok {
        ProgressEnd(at0, tables0, at, node, tables, n);
        FreeTable(page, n);
      }
    }

    /** kfree of a table page that names no table and no leaf. */
    method FreeTable(page: nat, ghost n: Node)
      requires Valid() && n in at && at[n] == page && forall j :: !EntryAt(at, tables, n, j).v
      modifies this`tables, this`free, this`at, this`node
      ensures Sound(Some(n)) && at == old(at) - {n} && tables == old(tables) - {page} && free == [page] + old(free)
    {
      DropKeeps(at, node, tables, flat, n);
      tables := tables - {page};
      at := at - {n};
      node := node - {page};
      free := [page] + free;
    }

    /** One iteration of freewalk's loop. */
    method FreeEntry(page: nat, i: nat, ghost n: Node, ghost at0: Places, ghost tables0: Tables) returns (ok: bool)
      requires Valid() && n in at && at[n] == page && i < ENTRIES && Progress(at0, tables0, at, tables, n, i)
      modifies this`tables, this`free, this`at, this`node
      ensures ok ==> Valid() && Progress(at0, tables0, at, tables, n, i + 1)
      ensures !ok ==> !NoLeaf(at0, tables0, n)
      decreases n.Level(), 1
    {
      var e := tables[page][i];
      assert EntryAt(at, tables, n, i) == e;
      if e.v && !e.Rwx() {
        ok := FreeChild(e.ppn, page, i, n, at0, tables0);
      } else {
        ok := !e.v;
        ProgressSkip(at0, tables0, at, node, tables, n, i);
      }
    }

    /** freewalk of the table that an entry names; then the entry is cleared. */
    method FreeChild(child: nat, page: nat, i: nat, ghost n: Node, ghost at0: Places, ghost tables0: Tables) returns (ok: bool)
      requires Valid() && n in at && at[n] == page && i < ENTRIES && Progress(at0, tables0, at, tables, n, i)
      requires tables[page][i].v && !tables[page][i].Rwx() && tables[page][i].ppn == child
      modifies this`tables, this`free, this`at, this`node
      ensures ok ==> Valid() && Progress(at0, tables0, at, tables, n, i + 1)
      ensures !ok ==> !NoLeaf(at0, tables0, n)
      decreases n.Level(), 0
    {
      ghost var c, at1, tables1 := Child(n, i), at, tables;
      assert EntryAt(at, tables, n, i) == tables[page][i];
      assert Hangs(at, tables, c);
      ok := FreeWalk(child, c);
      if ok {
        Clear(page, i, n, at0, tables0, at1, tables1);
      } else {
        LeafBelow(at0, tables0, at1, tables1, n, i);
      }
    }

    method Clear(page: nat, i: nat, ghost n: Node, ghost at0: Places, ghost tables0: Tables, ghost at1: Places, ghost tables1: Tables)
      requires Sound(Some(Child(n, i))) && n in at1 && at1[n] == page && i < ENTRIES && n.Level() > 0
      requires Progress(at0, tables0, at1, tables1, n, i)
      requires Freed(at1, tables1, at, tables, Child(n, i)) && NoLeaf(at1, tables1, Child(n, i))
      modifies this`tables
      ensures Valid() && Progress(at0, tables0, at, tables, n, i + 1)
    {
      UnderVia(n, Child(n, i), 0);
      UnderVia(Child(n, i), n, i);
      ClearKeeps(at, node, tables, n, i);
      SameLook(at, tables, at, tables[page := tables[page][i := ZERO]], n, i, ZERO);
      ProgressStep(at0, tables0, at1, tables1, at, tables, tables[page := tables[page][i := ZERO]], n, i);
      tables := tables[page := tables[page][i := ZERO]];
    }

    constructor (pages: seq<nat>)
      requires forall i, j :: 0 <= i < j < |pages| ==> pages[i] != pages[j]
      ensures Valid() && free == pages && at == map[] && flat == map[]
    {
      tables, free, at, node, flat, pool := map[], pages, map[], map[], map[], set p | p in pages;
    }

    method UvmCreate() returns (ok: bool, root: nat)
      requires Valid()
      modifies this`tables, this`free, this`at, this`node
      ensures Valid() && (ok <==> old(free) != [])
      ensures ok ==> Top(root) !in old(at) && at == old(at)[Top(root) := root]
    {
      ok, root := free != [], 0;
      if ok {
        root := free[0];
        SpareTake(free, tables, tables[root := seq(ENTRIES, _ => ZERO)], pool);
        RootKeeps(at, node, tables, flat, root);
        free := free[1..];
        tables := tables[root := seq(ENTRIES, _ => ZERO)];
        at := at[Top(root) := root];
        node := node[root := Top(root)];
      }
    }

    /** freewalk of an empty tree. */
    method FreeRoot(root: nat) returns (ok: bool)
      requires Valid() && Top(root) in at && forall v: nat :: !Get(flat, root, v).v
      modifies this`tables, this`free, this`at, this`node
      ensures ok && Valid() && Gone(old(at), at, Top(root))
    {
      EmptyTree(at, node, tables, flat, root);
      assert at[Top(root)] == root;
      ok := FreeWalk(root, Top(root));
    }

    /** uvmfree: a tree whose leaves are the pages of its size gives back every table page, once. */
    method UvmFree(root: nat, sz: nat) returns (ok: bool, freed: seq<nat>)
      requires Valid() && Top(root) in at
      requires forall v: nat {:trigger Get(flat, root, v)} :: Get(flat, root, v).v <==> v < PagesIn(sz)
      requires PagesIn(sz) <= MAXPAGE
      modifies this`tables, this`free, this`at, this`node, this`flat
      ensures ok && Valid() && Gone(old(at), at, Top(root))
      ensures flat == Unmapped(old(flat), root, 0, PagesIn(sz))
      ensures |freed| == PagesIn(sz) && forall k :: 0 <= k < |freed| ==> freed[k] == Get(old(flat), root, k).ppn
      ensures (forall u: nat, v: nat :: u < v < PagesIn(sz) ==> Get(old(flat), root, u).ppn != Get(old(flat), root, v).ppn)
              ==> forall i, j :: 0 <= i < j < |freed| ==> freed[i] != freed[j]
    {
      ghost var flat0 := flat;
      freed := [];
      if sz > 0 {
        var r;
        ghost var done;
        r, freed, done := UvmUnmap(root, 0, PagesIn(sz), true);
        assert r == Panic ==> !Unmappable(flat0, root, done);
      }
      forall v: nat ensures !Get(flat, root, v).v {
        UnmappedAt(flat0, root, 0, PagesIn(sz), root, v);
      }
      ok := FreeRoot(root);
    }
  }
}
