/** kalloc.c and the copy-on-write part of vm.c over flat page tables.  `View` is the memory every
    page table sees and `RightsIn` what it may do with it; the methods say what they do to the two, as
    if fork copied every page. */
module Cow {
  import opened Machine
  import opened PageCounts

  type Page = seq<int>
  type Views = map<Key, Page>

  /** What a process may do with a page.  A COW page counts as writable. */
  datatype Rights = Rights(r: bool, w: bool, x: bool, u: bool)

  function RightsOf(pte: Pte): Rights {
    Rights(pte.r, pte.w || pte.cow, pte.x, pte.u)
  }

  function RightsIn(leaf: Leaves): (m: map<Key, Rights>)
    ensures m.Keys == leaf.Keys
  {
    map k | k in leaf :: RightsOf(leaf[k])
  }

  /** What the page tables see of physical memory. */
  function ViewOf(leaf: Leaves, mem: seq<Page>): (v: Views)
    requires forall k :: k in leaf ==> leaf[k].pa < |mem|
    ensures v.Keys == leaf.Keys
  {
    map k | k in leaf :: mem[leaf[k].pa]
  }

  /** A table without the pages lo..hi-1 of one page table. */
  function Cut<V>(m: map<Key, V>, t: nat, lo: nat, hi: nat): map<Key, V> {
    map k | k in m && !(k.0 == t && lo <= k.1 < hi) :: m[k]
  }

  /** The pages lo..hi-1 of one page table. */
  function Span(t: nat, lo: nat, hi: nat): set<Key> {
    set v | lo <= v < hi :: (t, v)
  }

  /** Growing a table: a fresh entry for each of the pages lo..hi-1. */
  function Extended<V>(m: map<Key, V>, t: nat, lo: nat, hi: nat, entry: V): map<Key, V> {
    map k | k in m.Keys + Span(t, lo, hi) :: if k in m then m[k] else entry
  }

  /** Fork that copies at once: pages 0..n-1 of the child are those of the parent. */
  function EagerCopy<V>(m: map<Key, V>, parent: nat, child: nat, n: nat): map<Key, V>
    requires forall v :: 0 <= v < n ==> (parent, v) in m
  {
    map k | k in m.Keys + Span(child, 0, n) :: if k in Span(child, 0, n) then m[(parent, k.1)] else m[k]
  }

  lemma ExtendedNone<V>(m: map<Key, V>, t: nat, lo: nat, entry: V)
    ensures Extended(m, t, lo, lo, entry) == m
  {}

  lemma ExtendedStep<V>(m: map<Key, V>, t: nat, lo: nat, v: nat, entry: V)
    requires lo <= v && (t, v) !in m
    ensures Extended(m, t, lo, v, entry)[(t, v) := entry] == Extended(m, t, lo, v + 1, entry)
    ensures (t, v) !in Extended(m, t, lo, v, entry)
  {}

  lemma ExtendedUndone<V>(m: map<Key, V>, t: nat, lo: nat, v: nat, entry: V)
    requires forall u :: lo <= u < v ==> (t, u) !in m
    ensures Cut(Extended(m, t, lo, v, entry), t, lo, v) == m
    ensures forall u :: lo <= u < v ==> (t, u) in Extended(m, t, lo, v, entry)
  {}

  lemma CopyNone<V>(m: map<Key, V>, parent: nat, child: nat)
    ensures EagerCopy(m, parent, child, 0) == m
  {}

  lemma CopyStep<V>(m: map<Key, V>, parent: nat, child: nat, v: nat)
    requires parent != child && forall u :: 0 <= u <= v ==> (parent, u) in m && (child, u) !in m
    ensures (parent, v) in EagerCopy(m, parent, child, v) && (child, v) !in EagerCopy(m, parent, child, v)
    ensures EagerCopy(m, parent, child, v)[(child, v) := EagerCopy(m, parent, child, v)[(parent, v)]]
         == EagerCopy(m, parent, child, v + 1)
  {}

  lemma CopyUndone<V>(m: map<Key, V>, parent: nat, child: nat, v: nat)
    requires parent != child && forall u :: 0 <= u < v ==> (parent, u) in m && (child, u) !in m
    ensures Cut(EagerCopy(m, parent, child, v), child, 0, v) == m
    ensures forall u :: 0 <= u < v ==> (child, u) in EagerCopy(m, parent, child, v)
  {}

  lemma CutStep<V>(m: map<Key, V>, t: nat, lo: nat, v: nat)
    requires lo <= v
    ensures Cut(m, t, lo, v) - {(t, v)} == Cut(m, t, lo, v + 1) && Cut(m, t, lo, lo) == m
  {}

  lemma CutFresh<V>(m: map<Key, V>, t: nat, lo: nat, v: nat, x: V)
    requires lo <= v && (t, v) !in m
    ensures Cut(m[(t, v) := x], t, lo, v + 1) == Cut(m, t, lo, v)
  {}

  lemma ViewUnmap(leaf: Leaves, mem: seq<Page>, k: Key)
    requires forall k :: k in leaf ==> leaf[k].pa < |mem|
    ensures ViewOf(leaf - {k}, mem) == ViewOf(leaf, mem) - {k}
  {}

  lemma ViewMap(leaf: Leaves, mem: seq<Page>, k: Key, pte: Pte)
    requires (forall k :: k in leaf ==> leaf[k].pa < |mem|) && pte.pa < |mem|
    ensures ViewOf(leaf[k := pte], mem) == ViewOf(leaf, mem)[k := mem[pte.pa]]
  {}

  /** Writing a page that no leaf reaches changes no view. */
  lemma ViewIgnores(leaf: Leaves, mem: seq<Page>, p: nat, pg: Page)
    requires p < |mem| && forall k :: k in leaf ==> leaf[k].pa < |mem| && leaf[k].pa != p
    ensures ViewOf(leaf, mem[p := pg]) == ViewOf(leaf, mem)
  {}

  /** A page with some bytes replaced. */
  function Splice(pg: Page, off: nat, bytes: seq<int>): (r: Page)
    requires off + |bytes| <= |pg|
    ensures |r| == |pg|
    ensures forall i :: 0 <= i < |pg| ==> r[i] == if off <= i < off + |bytes| then bytes[i - off] else pg[i]
  {
    pg[..off] + bytes + pg[off + |bytes|..]
  }

  /** Writing the page of a leaf changes that leaf's view only, exactly if no other leaf reaches the page
      or nothing is changed.  A read-only page that fork left shared is reached by others. */
  lemma ViewWrite(leaf: Leaves, mem: seq<Page>, k: Key, pg: Page)
    requires k in leaf && forall l :: l in leaf ==> leaf[l].pa < |mem|
    ensures ViewOf(leaf, mem[leaf[k].pa := pg]) == ViewOf(leaf, mem)[k := pg]
            <==> pg == mem[leaf[k].pa] || forall l :: l in leaf && leaf[l].pa == leaf[k].pa ==> l == k
  {
    var was, now := ViewOf(leaf, mem), ViewOf(leaf, mem[leaf[k].pa := pg]);
    forall l | l in leaf && leaf[l].pa == leaf[k].pa && l != k && pg != mem[leaf[k].pa] ensures now != was[k := pg] {
      assert now[l] == pg && was[l] == mem[leaf[k].pa];
    }
  }

  /** Giving a leaf another page with the same contents changes no view. */
  lemma ViewMoved(leaf: Leaves, mem: seq<Page>, k: Key, pte: Pte)
    requires (forall k :: k in leaf ==> leaf[k].pa < |mem|) && k in leaf && pte.pa < |mem|
    requires mem[pte.pa] == mem[leaf[k].pa]
    ensures ViewOf(leaf[k := pte], mem) == ViewOf(leaf, mem)
  {}

  lemma SpliceOne(pg: Page, off: nat, b: int)
    requires off < |pg|
    ensures Splice(pg, off, [b]) == pg[off := b]
  {}

  /** A leaf that gives up its write bit but keeps its page keeps all the books. */
  lemma MarkKeeps(count: seq<int>, leaf: Leaves, kern: seq<nat>, mem: seq<Page>, k: Key, pte: Pte)
    requires Counted(count, leaf, kern) && Exclusive(count, leaf, kern) && Lined(leaf) && |mem| == |count| && k in leaf
    requires pte.pa == leaf[k].pa && !pte.w
    ensures Counted(count, leaf[k := pte], kern) && Exclusive(count, leaf[k := pte], kern) && Lined(leaf[k := pte])
    ensures ViewOf(leaf[k := pte], mem) == ViewOf(leaf, mem)
  {
    CountedFlags(count, leaf, kern, k, pte);
    LinedFlags(leaf, k, pte);
    ViewMoved(leaf, mem, k, pte);
  }

  /** The place of an address in its page. */
  function Offset(a: nat): (o: nat)
    ensures o < PGSIZE
  {
    a % PGSIZE
  }

  lemma SamePage(t: nat, a: nat, i: nat)
    requires Offset(a) + i < PGSIZE
    ensures At(t, a + i) == At(t, a) && Offset(a + i) == Offset(a) + i
  {
    assert a + i == a / PGSIZE * PGSIZE + (a % PGSIZE + i);
  }

  /** The leaf that maps an address. */
  function At(t: nat, va: nat): Key {
    (t, va / PGSIZE)
  }

  /** A user page: walkaddr finds it. */
  predicate Mapped(m: map<Key, Rights>, k: Key) {
    k.1 < MAXPAGE && k in m && m[k].u
  }

  /** A user page that the process may write. */
  predicate Storable(m: map<Key, Rights>, k: Key) {
    Mapped(m, k) && m[k].w
  }

  /** The user pages of table t with an address in lo..hi-1 may all be written. */
  predicate Private(m: map<Key, Rights>, t: nat, lo: nat, hi: nat) {
    forall a {:trigger At(t, a)} :: lo <= a < hi && Mapped(m, At(t, a)) ==> Storable(m, At(t, a))
  }

  /** The addresses lo..hi-1 of table t are in user pages. */
  ghost predicate AllMapped(m: map<Key, Rights>, t: nat, lo: nat, hi: nat) {
    forall a {:trigger At(t, a)} :: lo <= a < hi ==> Mapped(m, At(t, a))
  }

  /** What holds of an address holds of its page. */
  lemma MappedMore(m: map<Key, Rights>, t: nat, lo: nat, a: nat, n: nat)
    requires AllMapped(m, t, lo, a) && lo <= a && Mapped(m, At(t, a)) && Offset(a) + n <= PGSIZE
    ensures AllMapped(m, t, lo, a + n)
  {
    forall b | a <= b < a + n ensures At(t, b) == At(t, a) {
      SamePage(t, a, b - a);
    }
  }

  /** One byte stored at an address of table t. */
  function WriteByte(view: Views, t: nat, a: nat, b: int): Views {
    var k, off := At(t, a), Offset(a);
    if k in view && off < |view[k]| then view[k := view[k][off := b]] else view
  }

  /** Bytes lo..hi-1 of src stored one after the other, byte i at address a + i of table t. */
  function Written(view: Views, t: nat, a: nat, src: seq<int>, lo: nat, hi: nat): Views
    requires lo <= hi <= |src|
    decreases hi
  {
    if lo == hi then view else WriteByte(Written(view, t, a, src, lo, hi - 1), t, a + hi - 1, src[hi - 1])
  }

  /** Only the bytes that are stored matter. */
  lemma {:induction false} WrittenPrefix(view: Views, t: nat, a: nat, src: seq<int>, n: nat, hi: nat)
    requires hi <= n <= |src|
    ensures Written(view, t, a, src[..n], 0, hi) == Written(view, t, a, src, 0, hi)
    decreases hi
  {
    if hi > 0 {
      WrittenPrefix(view, t, a, src, n, hi - 1);
    }
  }

  lemma SpliceMore(pg: Page, off: nat, src: seq<int>, lo: nat, hi: nat)
    requires lo <= hi < |src| && off + hi - lo < |pg|
    ensures Splice(pg, off, src[lo..hi])[off + hi - lo := src[hi]] == Splice(pg, off, src[lo..hi + 1])
  {}

  /** The leaves that see a copyout to the page of leaf k: a COW page is made private first, any other page
      is written where it is. */
  ghost function Hit(leaf: Leaves, k: Key): set<Key>
    requires k in leaf
  {
    if leaf[k].cow then {k} else Owners(leaf, leaf[k].pa)
  }

  /** One byte stored in the pages of some leaves. */
  function WriteHit(view: Views, hit: set<Key>, off: nat, b: int): (r: Views)
    ensures r.Keys == view.Keys
  {
    map l | l in view :: if l in hit && off < |view[l]| then view[l][off := b] else view[l]
  }

  /** What copyout of bytes lo..hi-1 of src does: like Written, but seen by all leaves that are hit. */
  ghost function Spread(leaf: Leaves, view: Views, t: nat, a: nat, src: seq<int>, lo: nat, hi: nat): (r: Views)
    requires lo <= hi <= |src|
    ensures r.Keys == view.Keys
    decreases hi
  {
    if lo == hi then view
    else
      var k, was := At(t, a + hi - 1), Spread(leaf, view, t, a, src, lo, hi - 1);
      if k in leaf then WriteHit(was, Hit(leaf, k), Offset(a + hi - 1), src[hi - 1]) else was
  }

  lemma SpreadNone(leaf: Leaves, view: Views, t: nat, a: nat, src: seq<int>)
    ensures Spread(leaf, view, t, a, src, 0, 0) == view
  {}

  lemma {:induction false} SpreadMore(leaf: Leaves, view: Views, t: nat, a: nat, src: seq<int>, lo: nat, mid: nat, hi: nat)
    requires lo <= mid <= hi <= |src|
    ensures Spread(leaf, Spread(leaf, view, t, a, src, lo, mid), t, a, src, mid, hi) == Spread(leaf, view, t, a, src, lo, hi)
    decreases hi
  {
    if mid < hi {
      SpreadMore(leaf, view, t, a, src, lo, mid, hi - 1);
    }
  }

  /** Bytes stored in the pages of some leaves at once. */
  function SpliceHit(view: Views, hit: set<Key>, off: nat, bytes: seq<int>): (r: Views)
    requires forall l :: l in view && l in hit ==> off + |bytes| <= |view[l]|
    ensures r.Keys == view.Keys
  {
    map l | l in view :: if l in hit then Splice(view[l], off, bytes) else view[l]
  }

  lemma SpliceHitNone(view: Views, hit: set<Key>, off: nat)
    requires off <= PGSIZE && forall l :: l in view ==> |view[l]| == PGSIZE
    ensures SpliceHit(view, hit, off, []) == view
  {
    forall l | l in view ensures Splice(view[l], off, []) == view[l] {
    }
  }

  lemma SpliceHitMore(view: Views, hit: set<Key>, off: nat, src: seq<int>, lo: nat, hi: nat)
    requires lo <= hi < |src| && off + hi - lo < PGSIZE && forall l :: l in view ==> |view[l]| == PGSIZE
    ensures WriteHit(SpliceHit(view, hit, off, src[lo..hi]), hit, off + hi - lo, src[hi]) == SpliceHit(view, hit, off, src[lo..hi + 1])
  {
    forall l | l in view ensures Splice(view[l], off, src[lo..hi])[off + hi - lo := src[hi]] == Splice(view[l], off, src[lo..hi + 1]) {
      SpliceMore(view[l], off, src, lo, hi);
    }
  }

  /** Bytes that fall on one page are one splice of it. */
  lemma {:induction false} SpreadOnPage(leaf: Leaves, view: Views, t: nat, a: nat, src: seq<int>, lo: nat, hi: nat)
    requires lo <= hi <= |src| && At(t, a + lo) in leaf && Offset(a + lo) + hi - lo <= PGSIZE
    requires forall l :: l in view ==> |view[l]| == PGSIZE
    ensures Spread(leaf, view, t, a, src, lo, hi) == SpliceHit(view, Hit(leaf, At(t, a + lo)), Offset(a + lo), src[lo..hi])
    decreases hi
  {
    hide Hit, SpliceHit, WriteHit;
    var k, off := At(t, a + lo), Offset(a + lo);
    if lo == hi {
      assert src[lo..hi] == [];
      SpliceHitNone(view, Hit(leaf, k), off);
    } else {
      SpreadOnPage(leaf, view, t, a, src, lo, hi - 1);
      SamePage(t, a + lo, hi - 1 - lo);
      SpliceHitMore(view, Hit(leaf, k), off, src, lo, hi - 1);
    }
  }

  /** Byte x of leaf l after a copyout of n bytes to address a of table t. */
  ghost function SpreadByte(leaf: Leaves, view: Views, t: nat, a: nat, src: seq<int>, n: nat, l: Key, x: nat): int
    requires n <= |src| && l in view && x < |view[l]|
  {
    var b := l.1 * PGSIZE + x;
    if a <= b < a + n && (t, l.1) in leaf && l in Hit(leaf, (t, l.1)) then src[b - a] else view[l][x]
  }

  lemma HitLined(leaf: Leaves, k: Key, l: Key)
    requires Lined(leaf) && k in leaf
    ensures l in Hit(leaf, k) ==> l.1 == k.1
  {
    if l in Hit(leaf, k) {
      assert l == k || Alias(leaf, l, k);
    }
  }

  lemma WriteHitAt(view: Views, hit: set<Key>, off: nat, b: int, l: Key, x: nat)
    requires l in view && x < |view[l]| == PGSIZE && off < PGSIZE
    ensures |WriteHit(view, hit, off, b)[l]| == PGSIZE
    ensures WriteHit(view, hit, off, b)[l][x] == if l in hit && x == off then b else view[l][x]
  {}

  lemma {:induction false} SpreadAt(leaf: Leaves, view: Views, t: nat, a: nat, src: seq<int>, n: nat, l: Key, x: nat)
    requires Lined(leaf) && n <= |src| && l in view && x < |view[l]| == PGSIZE
    ensures |Spread(leaf, view, t, a, src, 0, n)[l]| == PGSIZE
    ensures Spread(leaf, view, t, a, src, 0, n)[l][x] == SpreadByte(leaf, view, t, a, src, n, l, x)
    decreases n
  {
    hide Hit, WriteHit, Lined;
    if n > 0 {
      SpreadAt(leaf, view, t, a, src, n - 1, l, x);
      var i := a + n - 1;
      var k := At(t, i);
      assert i == k.1 * PGSIZE + Offset(i);
      if k in leaf {
        HitLined(leaf, k, l);
        WriteHitAt(Spread(leaf, view, t, a, src, 0, n - 1), Hit(leaf, k), Offset(i), src[n - 1], l, x);
      }
    }
  }

  lemma {:induction false} WrittenAt(view: Views, t: nat, a: nat, src: seq<int>, n: nat, l: Key, x: nat)
    requires n <= |src| && l in view && x < |view[l]| == PGSIZE
    ensures Written(view, t, a, src, 0, n).Keys == view.Keys && |Written(view, t, a, src, 0, n)[l]| == PGSIZE
    ensures var b := l.1 * PGSIZE + x;
            Written(view, t, a, src, 0, n)[l][x] == if l.0 == t && a <= b < a + n then src[b - a] else view[l][x]
    decreases n
  {
    if n > 0 {
      WrittenAt(view, t, a, src, n - 1, l, x);
      var i := a + n - 1;
      assert i == At(t, i).1 * PGSIZE + Offset(i);
    }
  }

  /** A copyout that goes only to pages the process may write is harmless. */
  lemma PrivateSpread(npages: nat, c: Moment, t: nat, a: nat, src: seq<int>, n: nat, hi: nat)
    requires Sound(npages, c) && n <= |src| && a + n <= hi && AllMapped(RightsIn(c.leaf), t, a, a + n) && Private(RightsIn(c.leaf), t, a, hi)
    ensures Spread(c.leaf, ViewOf(c.leaf, c.mem), t, a, src, 0, n) == Written(ViewOf(c.leaf, c.mem), t, a, src, 0, n)
  {
    hide Spread, Written;
    var view := ViewOf(c.leaf, c.mem);
    forall i | 0 <= i < n ensures Harmless(c.leaf, view, At(t, a + i), Offset(a + i), src[i]) {
      var k := At(t, a + i);
      assert Mapped(RightsIn(c.leaf), k) && Storable(RightsIn(c.leaf), k);
      if !c.leaf[k].cow {
        forall l | l in Owners(c.leaf, c.leaf[k].pa) ensures l == k {
          WritableAlone(c.count, c.leaf, c.kern, k, l);
        }
        assert Owners(c.leaf, c.leaf[k].pa) == {k};
      }
    }
    HarmlessEqual(npages, c, t, a, src, n);
  }

  /** The same leaves are hit through leaf k. */
  ghost predicate SameHit(leaf0: Leaves, leaf: Leaves, k: Key) {
    k in leaf0 ==> k in leaf && Hit(leaf, k) == Hit(leaf0, k)
  }

  /** Making COW pages of table t private changes nothing about which leaves its copyouts hit. */
  ghost predicate SameHits(leaf0: Leaves, leaf: Leaves, t: nat) {
    && leaf0.Keys == leaf.Keys && (forall v: nat :: SameHit(leaf0, leaf, (t, v)))
    && forall k :: k in leaf && leaf[k].cow ==> leaf0[k].cow
  }

  lemma HitsMoved(leaf0: Leaves, leaf: Leaves, t: nat, k0: Key, pte: Pte)
    requires SameHits(leaf0, leaf, t) && k0 in leaf && k0.0 == t && leaf[k0].cow && !pte.cow
    requires Lined(leaf) && Lined(leaf[k0 := pte]) && Owners(leaf[k0 := pte], pte.pa) == {k0}
    ensures SameHits(leaf0, leaf[k0 := pte], t)
  {
    var leaf' := leaf[k0 := pte];
    forall v: nat ensures SameHit(leaf0, leaf', (t, v)) {
      var k := (t, v);
      assert SameHit(leaf0, leaf, k);
      if k in leaf && k != k0 && !leaf[k].cow {
        assert !Alias(leaf, k, k0) && !Alias(leaf', k, k0);
        assert Owners(leaf', leaf[k].pa) == Owners(leaf, leaf[k].pa);
      }
    }
  }

  /** Writing a page is seen by all leaves that reach it. */
  lemma ViewWriteAll(leaf: Leaves, mem: seq<Page>, k: Key, off: nat, bytes: seq<int>)
    requires k in leaf && (forall l :: l in leaf ==> leaf[l].pa < |mem|) && (forall p :: 0 <= p < |mem| ==> |mem[p]| == PGSIZE)
    requires off + |bytes| <= PGSIZE
    ensures var p := leaf[k].pa;
            ViewOf(leaf, mem[p := Splice(mem[p], off, bytes)]) == SpliceHit(ViewOf(leaf, mem), Owners(leaf, p), off, bytes)
  {}

  /** Byte i of a copyout is seen by its own table only, or changes nothing. */
  ghost predicate Harmless(leaf: Leaves, view: Views, k: Key, off: nat, b: int) {
    k in leaf && k in view && off < |view[k]| && (Hit(leaf, k) == {k} || view[k][off] == b)
  }

  /** A copyout to mapped pages is a write to its own table, if and only if every byte of it goes to a page that
      is COW or that no other leaf reaches, or is the byte that is there already. */
  lemma CopyOutIff(npages: nat, c: Moment, t: nat, a: nat, src: seq<int>, n: nat)
    requires Sound(npages, c) && n <= |src| && AllMapped(RightsIn(c.leaf), t, a, a + n)
    ensures var view := ViewOf(c.leaf, c.mem);
            Spread(c.leaf, view, t, a, src, 0, n) == Written(view, t, a, src, 0, n)
            <==> forall i :: 0 <= i < n ==> Harmless(c.leaf, view, At(t, a + i), Offset(a + i), src[i])
  {
    var view := ViewOf(c.leaf, c.mem);
    if Spread(c.leaf, view, t, a, src, 0, n) == Written(view, t, a, src, 0, n) {
      forall i | 0 <= i < n ensures Harmless(c.leaf, view, At(t, a + i), Offset(a + i), src[i]) {
        EqualHarmless(npages, c, t, a, src, n, i);
      }
    }
    if forall i :: 0 <= i < n ==> Harmless(c.leaf, view, At(t, a + i), Offset(a + i), src[i]) {
      HarmlessEqual(npages, c, t, a, src, n);
    }
  }

  lemma EqualHarmless(npages: nat, c: Moment, t: nat, a: nat, src: seq<int>, n: nat, i: nat)
    requires Sound(npages, c) && i < n <= |src| && AllMapped(RightsIn(c.leaf), t, a, a + n)
    requires Spread(c.leaf, ViewOf(c.leaf, c.mem), t, a, src, 0, n) == Written(ViewOf(c.leaf, c.mem), t, a, src, 0, n)
    ensures Harmless(c.leaf, ViewOf(c.leaf, c.mem), At(t, a + i), Offset(a + i), src[i])
  {
    hide Listed, Exclusive, Spread, Written;
    var view, k, x := ViewOf(c.leaf, c.mem), At(t, a + i), Offset(a + i);
    assert Mapped(RightsIn(c.leaf), k);
    assert k in Hit(c.leaf, k) && a + i == k.1 * PGSIZE + x;
    if l :| l in Hit(c.leaf, k) && l != k {
      assert Alias(c.leaf, l, k);
      SpreadAt(c.leaf, view, t, a, src, n, l, x);
      WrittenAt(view, t, a, src, n, l, x);
    }
  }

  lemma HarmlessEqual(npages: nat, c: Moment, t: nat, a: nat, src: seq<int>, n: nat)
    requires Sound(npages, c) && n <= |src| && AllMapped(RightsIn(c.leaf), t, a, a + n)
    requires forall i :: 0 <= i < n ==> Harmless(c.leaf, ViewOf(c.leaf, c.mem), At(t, a + i), Offset(a + i), src[i])
    ensures Spread(c.leaf, ViewOf(c.leaf, c.mem), t, a, src, 0, n) == Written(ViewOf(c.leaf, c.mem), t, a, src, 0, n)
  {
    hide Listed, Exclusive, Spread, Written;
    var view := ViewOf(c.leaf, c.mem);
    var x, y := Spread(c.leaf, view, t, a, src, 0, n), Written(view, t, a, src, 0, n);
    WrittenElsewhere(view, t, a, src, 0, n);
    forall l | l in view ensures x[l] == y[l] {
      SameAfter(npages, c, t, a, src, n, l);
    }
  }

  lemma SameAfter(npages: nat, c: Moment, t: nat, a: nat, src: seq<int>, n: nat, l: Key)
    requires Sound(npages, c) && n <= |src| && AllMapped(RightsIn(c.leaf), t, a, a + n) && l in c.leaf
    requires forall i :: 0 <= i < n ==> Harmless(c.leaf, ViewOf(c.leaf, c.mem), At(t, a + i), Offset(a + i), src[i])
    ensures var view := ViewOf(c.leaf, c.mem);
            && Written(view, t, a, src, 0, n).Keys == view.Keys
            && Spread(c.leaf, view, t, a, src, 0, n)[l] == Written(view, t, a, src, 0, n)[l]
  {
    hide Listed, Exclusive, Spread, Written;
    var view := ViewOf(c.leaf, c.mem);
    var p, q := Spread(c.leaf, view, t, a, src, 0, n)[l], Written(view, t, a, src, 0, n);
    WrittenElsewhere(view, t, a, src, 0, n);
    SpreadAt(c.leaf, view, t, a, src, n, l, 0);
    WrittenAt(view, t, a, src, n, l, 0);
    forall x | 0 <= x < PGSIZE ensures p[x] == q[l][x] {
      SpreadAt(c.leaf, view, t, a, src, n, l, x);
      WrittenAt(view, t, a, src, n, l, x);
      SameByte(npages, c, t, a, src, n, l, x);
    }
  }

  lemma SameByte(npages: nat, c: Moment, t: nat, a: nat, src: seq<int>, n: nat, l: Key, x: nat)
    requires Sound(npages, c) && n <= |src| && AllMapped(RightsIn(c.leaf), t, a, a + n) && l in c.leaf && x < PGSIZE
    requires forall i :: 0 <= i < n ==> Harmless(c.leaf, ViewOf(c.leaf, c.mem), At(t, a + i), Offset(a + i), src[i])
    ensures var view, b := ViewOf(c.leaf, c.mem), l.1 * PGSIZE + x;
            SpreadByte(c.leaf, view, t, a, src, n, l, x) == if l.0 == t && a <= b < a + n then src[b - a] else view[l][x]
  {
    hide Listed, Exclusive;
    var view, b := ViewOf(c.leaf, c.mem), l.1 * PGSIZE + x;
    if a <= b < a + n {
      var i := b - a;
      assert At(t, a + i) == (t, l.1) && Offset(a + i) == x;
      assert Harmless(c.leaf, view, At(t, a + i), Offset(a + i), src[i]);
    }
  }

  /** Table t sees byte b at address a. */
  ghost predicate ByteIs(view: Views, t: nat, a: nat, b: int) {
    At(t, a) in view && Offset(a) < |view[At(t, a)]| && view[At(t, a)][Offset(a)] == b
  }

  /** The bytes that table t sees from address a on. */
  ghost predicate BytesAre(view: Views, t: nat, a: nat, bytes: seq<int>) {
    forall i :: 0 <= i < |bytes| ==> ByteIs(view, t, a + i, bytes[i])
  }

  /** Bytes taken from one page extend what has been copied so far. */
  lemma CopiedStep(view: Views, t: nat, a: nat, dst: seq<int>, bytes: seq<int>)
    requires BytesAre(view, t, a, dst)
    requires var k, off := At(t, a + |dst|), Offset(a + |dst|);
             k in view && |view[k]| == PGSIZE && off + |bytes| <= PGSIZE && bytes == view[k][off..off + |bytes|]
    ensures BytesAre(view, t, a, dst + bytes)
  {
    var dst' := dst + bytes;
    forall i | |dst| <= i < |dst'| ensures ByteIs(view, t, a + i, dst'[i]) {
      SamePage(t, a + |dst|, i - |dst|);
    }
  }

  /** What happens to memory in a run.  A fork names a new table, an exit or a shrink unmaps. */
  datatype Op =
    | Fork(parent: nat, child: nat, n: nat)
    | UserStore(t: nat, va: nat, b: int, sp: nat)
    | KernelCopy(t: nat, va: nat, bytes: seq<int>)
    | KernelRead(t: nat, va: nat, len: nat)
    | Unmap(t: nat, lo: nat, n: nat)
    | Grow(t: nat, oldsz: nat, newsz: nat, w: bool, x: bool)
    | KernelFree(p: nat)  // as freewalk does with the pages of a table

  /** How an operation ended, and the bytes that copyout or copyin copied. */
  datatype Result = Result(outcome: Outcome, bytes: seq<int>)

  predicate ForkOk<V>(m: map<Key, V>, parent: nat, child: nat, n: nat) {
    parent != child && forall v :: 0 <= v < n ==> (parent, v) in m && (child, v) !in m
  }

  /** The reference memory: contents and rights of the pages of every table. */
  datatype Reference = Reference(view: Views, rights: map<Key, Rights>)

  /** One operation on the reference memory, in which fork copies every page at once. */
  function EagerStep(m: Reference, op: Op, r: Result): Reference {
    if op.KernelCopy? then m.(view := Written(m.view, op.t, op.va, r.bytes, 0, |r.bytes|))
    else if !r.outcome.Done? then m
    else match op
      case Fork(parent, child, n) => EagerFork(m, parent, child, n)
      case UserStore(t, va, b, _) => m.(view := WriteByte(m.view, t, va, b))
      case KernelRead(_, _, _) => m
      case Unmap(t, lo, n) => EagerUnmap(m, t, lo, n)
      case Grow(t, oldsz, newsz, w, x) => EagerGrow(m, t, oldsz, newsz, w, x)
      case KernelFree(_) => m
  }

  function EagerFork(m: Reference, parent: nat, child: nat, n: nat): Reference {
    if ForkOk(m.view, parent, child, n) && ForkOk(m.rights, parent, child, n)
    then Reference(EagerCopy(m.view, parent, child, n), EagerCopy(m.rights, parent, child, n)) else m
  }

  function EagerUnmap(m: Reference, t: nat, lo: nat, n: nat): Reference {
    Reference(Cut(m.view, t, lo, lo + n), Cut(m.rights, t, lo, lo + n))
  }

  function EagerGrow(m: Reference, t: nat, oldsz: nat, newsz: nat, w: bool, x: bool): Reference {
    var lo, hi := PagesIn(oldsz), PagesIn(newsz);
    if newsz < oldsz then m
    else Reference(Extended(m.view, t, lo, hi, Memory.Junk(0)), Extended(m.rights, t, lo, hi, Rights(true, w, x, true)))
  }

  /** The pages that a loop over lo..hi-1 allocates: `each` for the page itself, and page tables. */
  function Need(tables: nat -> nat, lo: nat, hi: nat, each: nat): nat
    decreases hi
  {
    if hi <= lo then 0 else Need(tables, lo, hi - 1, each) + each + tables(hi - 1)
  }

  lemma NeedNone(tables: nat -> nat, lo: nat, each: nat)
    ensures Need(tables, lo, lo, each) == 0
  {}

  lemma NeedStep(tables: nat -> nat, lo: nat, v: nat, each: nat)
    requires lo <= v
    ensures Need(tables, lo, v + 1, each) == Need(tables, lo, v, each) + each + tables(v)
  {}

  lemma {:induction false} NeedGrows(tables: nat -> nat, lo: nat, v: nat, hi: nat, each: nat)
    requires v <= hi
    ensures Need(tables, lo, v, each) <= Need(tables, lo, hi, each)
    decreases hi
  {
    if v < hi {
      NeedGrows(tables, lo, v, hi - 1, each);
    }
  }

  /** A copy of len bytes covers n of them: all, or up to the first address without a user page. */
  ghost predicate Copies(m: map<Key, Rights>, t: nat, va: nat, len: nat, o: Outcome, n: nat) {
    n <= len && AllMapped(m, t, va, va + n) && (o.Done? <==> n == len) && (o.Refused? ==> !Mapped(m, At(t, va + n)))
  }

  /** How operations end, in terms of the reference memory and the number of free pages.  Fork needs memory
      for page tables only.  An operation that breaks its caller's duty (a fork over unmapped or taken
      pages, an unmap of nothing, growth over mapped pages, copyout to pages without the right to write)
      counts as refused. */
  ghost predicate Answers(m: Reference, free: nat, tables: nat -> nat, op: Op, r: Result) {
    match op
    case Fork(parent, child, n) =>
      !r.outcome.Panic? && (r.outcome.Done? <==> ForkOk(m.view, parent, child, n) && Need(tables, 0, n, 0) <= free)
    case UserStore(t, va, _, _) =>
      && (r.outcome.Done? ==> Storable(m.rights, At(t, va))) && (r.outcome.Refused? ==> !Storable(m.rights, At(t, va)))
      && (r.outcome.Panic? ==> free == 0)
    case KernelCopy(t, va, bytes) =>
      if Private(m.rights, t, va, va + |bytes|) then r.bytes <= bytes && Copies(m.rights, t, va, |bytes|, r.outcome, |r.bytes|)
      else r == Result(Refused, [])
    case KernelRead(t, va, len) =>
      && !r.outcome.Panic? && Copies(m.rights, t, va, len, r.outcome, |r.bytes|)
      && BytesAre(m.view, t, va, r.bytes)
    case Unmap(t, lo, n) =>
      !r.outcome.Panic? && (r.outcome.Done? <==> forall v :: lo <= v < lo + n ==> (t, v) in m.view)
    case Grow(t, oldsz, newsz, _, _) =>
      var lo, hi := PagesIn(oldsz), PagesIn(newsz);
      && !r.outcome.Panic?
      && (r.outcome.Done? <==> newsz < oldsz || (Need(tables, lo, hi, 1) <= free && forall v :: lo <= v < hi ==> (t, v) !in m.view))
    case KernelFree(_) => !r.outcome.Panic?
  }

  /** A run of the reference memory. */
  function EagerRun(m: Reference, ops: seq<Op>, rs: seq<Result>): Reference
    requires |rs| <= |ops|
  {
    if rs == [] then m
    else EagerStep(EagerRun(m, ops, rs[..|rs| - 1]), ops[|rs| - 1], rs[|rs| - 1])
  }

  /** The page tables that operation j needs for each page. */
  function TablesFor(tables: (nat, nat) -> nat, j: nat): nat -> nat {
    v => tables(j, v)
  }

  /** The fields of the memory at one moment. */
  datatype Moment = Moment(mem: seq<Page>, count: seq<int>, freelist: seq<nat>, leaf: Leaves, kern: seq<nat>, inflight: set<nat>)

  ghost predicate Sound(npages: nat, c: Moment) {
    && |c.mem| == |c.count| == npages && (forall p :: 0 <= p < |c.mem| ==> |c.mem[p]| == PGSIZE)
    && Counted(c.count, c.leaf, c.kern) && Listed(c.count, c.freelist, c.inflight) && Exclusive(c.count, c.leaf, c.kern) && Lined(c.leaf)
  }

  /** A moment in terms of the reference memory. */
  ghost function Abstraction(npages: nat, c: Moment): Reference
    requires Sound(npages, c)
  {
    Reference(ViewOf(c.leaf, c.mem), RightsIn(c.leaf))
  }

  /** One operation takes moment c to d: it is a step of the reference memory, and it ends as the reference
      and the free list of c say. */
  ghost predicate Performs(npages: nat, c: Moment, op: Op, tables: nat -> nat, r: Result, d: Moment) {
    && Sound(npages, c) && Sound(npages, d) && d.inflight == c.inflight
    && Abstraction(npages, d) == EagerStep(Abstraction(npages, c), op, r)
    && Answers(Abstraction(npages, c), |c.freelist|, tables, op, r)
    && (r.outcome.Panic? ==> d.freelist == []) && PanicsOnly(c, op, r) && (op.KernelFree? ==> GivesBack(c, op.p, r, d))
  }

  /** A page that the kernel holds is given back, and is free when nobody else uses it. */
  ghost predicate GivesBack(c: Moment, p: nat, r: Result, d: Moment) {
    && (r.outcome.Done? <==> p < |c.kern| && c.kern[p] > 0)
    && if r.outcome.Done? then
         p < |c.count| && d.kern == c.kern[p := c.kern[p] - 1] && d.freelist == if c.count[p] > 1 then c.freelist else [p] + c.freelist
       else d == c
  }

  /** The hardware lets user code write through a leaf. */
  predicate Direct(leaf: Leaves, k: Key) {
    k.1 < MAXPAGE && k in leaf && leaf[k].u && leaf[k].w
  }

  /** A store through a leaf makes removecopy panic. */
  predicate StorePanics(leaf: Leaves, freelist: seq<nat>, k: Key) {
    k.1 < MAXPAGE && k in leaf && leaf[k].cow && !Direct(leaf, k) && freelist == []
  }

  /** Only a COW page makes an operation panic: a store does exactly if it meets one while no page is free, a
      copyout stops at one. */
  ghost predicate PanicsOnly(c: Moment, op: Op, r: Result) {
    match op
    case UserStore(t, va, _, _) => r.outcome.Panic? <==> StorePanics(c.leaf, c.freelist, At(t, va))
    case KernelCopy(t, va, _) => r.outcome.Panic? ==> Memory.IsCow(c.leaf, At(t, va + |r.bytes|))
    case _ => !r.outcome.Panic?
  }

  /** A run: the moments before each operation and at the end. */
  ghost predicate IsRun(npages: nat, trace: seq<Moment>, tables: (nat, nat) -> nat, ops: seq<Op>, rs: seq<Result>) {
    |rs| <= |ops| && |trace| == |rs| + 1 && Sound(npages, trace[0]) &&
    forall j :: 0 <= j < |rs| ==> Performs(npages, trace[j], ops[j], TablesFor(tables, j), rs[j], trace[j + 1])
  }

  /** In every run every table sees, at every moment, what it would see if fork had copied every page. */
  lemma {:induction false} RunRefines(npages: nat, trace: seq<Moment>, tables: (nat, nat) -> nat, ops: seq<Op>, rs: seq<Result>, j: nat)
    requires IsRun(npages, trace, tables, ops, rs) && j <= |rs|
    ensures Sound(npages, trace[j]) && trace[j].inflight == trace[0].inflight
    ensures Abstraction(npages, trace[j]) == EagerRun(Abstraction(npages, trace[0]), ops, rs[..j])
  {
    hide Sound, Answers, EagerStep, Abstraction;
    if j > 0 {
      RunRefines(npages, trace, tables, ops, rs, j - 1);
      assert Performs(npages, trace[j - 1], ops[j - 1], TablesFor(tables, j - 1), rs[j - 1], trace[j]);
      assert rs[..j][..j - 1] == rs[..j - 1];
    }
  }

  /** Each operation of a run ends as the reference says, in the state the run has brought the reference to
      and with the pages that are free at that moment. */
  lemma AnswersAt(npages: nat, trace: seq<Moment>, tables: (nat, nat) -> nat, ops: seq<Op>, rs: seq<Result>, j: nat)
    requires IsRun(npages, trace, tables, ops, rs) && j < |rs|
    ensures Answers(EagerRun(Abstraction(npages, trace[0]), ops, rs[..j]), |trace[j].freelist|, TablesFor(tables, j), ops[j], rs[j])
    ensures PanicsOnly(trace[j], ops[j], rs[j])
  {
    hide Sound, Answers, EagerStep, EagerRun, Abstraction;
    RunRefines(npages, trace, tables, ops, rs, j);
    assert Performs(npages, trace[j], ops[j], TablesFor(tables, j), rs[j], trace[j + 1]);
  }

  /** Every page is free, on its way to or from the free list, or owned, so that the number of free pages
      is what the owners leave. */
  lemma FreePages(npages: nat, c: Moment)
    requires Sound(npages, c)
    ensures |c.freelist| + |c.inflight| + |OwnedPages(c)| == npages
  {
    hide Sound, Counted, Exclusive;
    PagesSplit(npages, c);
    Distinct(c.freelist);
    AllPages(npages);
    var free := Elements(c.freelist);
    assert |Pages(npages)| == |free + c.inflight| + |OwnedPages(c)|;
    assert |free + c.inflight| == |free| + |c.inflight|;
  }

  lemma PagesSplit(npages: nat, c: Moment)
    requires Sound(npages, c)
    ensures var free := Elements(c.freelist);
            Pages(npages) == free + c.inflight + OwnedPages(c) && free !! c.inflight && (free + c.inflight) !! OwnedPages(c)
    ensures forall i, j :: 0 <= i < j < |c.freelist| ==> c.freelist[i] != c.freelist[j]
  {
    AllPages(npages);
    hide Exclusive;
    forall p: nat | p < npages ensures c.count[p] >= 0 {
    }
  }

  /** The pages with owners. */
  ghost function OwnedPages(c: Moment): set<nat> {
    set p: nat | p < |c.count| && c.count[p] > 0
  }

  /** A page has an owner exactly if the kernel holds it or a leaf maps it. */
  lemma OwnedIff(c: Moment, p: nat)
    requires Counted(c.count, c.leaf, c.kern) && p < |c.count|
    ensures p in OwnedPages(c) <==> c.kern[p] > 0 || exists k :: k in c.leaf && c.leaf[k].pa == p
  {
    if exists k :: k in c.leaf && c.leaf[k].pa == p {
      var k :| k in c.leaf && c.leaf[k].pa == p;
      OneOwner(c.leaf, k);
    } else {
      assert Owners(c.leaf, p) == {};
    }
  }

  ghost function Pages(n: nat): set<nat> {
    if n == 0 then {} else Pages(n - 1) + {n - 1}
  }

  lemma {:induction false} AllPages(n: nat)
    ensures |Pages(n)| == n && forall p: nat :: p in Pages(n) <==> p < n
  {
    if n > 0 {
      AllPages(n - 1);
    }
  }

  ghost function Elements(s: seq<nat>): set<nat> {
    set p | p in s
  }

  lemma {:induction false} Distinct(s: seq<nat>)
    requires forall i, j :: 0 <= i < j < |s| ==> s[i] != s[j]
    ensures |Elements(s)| == |s|
  {
    if s != [] {
      var n := |s| - 1;
      Distinct(s[..n]);
      assert Elements(s) == Elements(s[..n]) + {s[n]} && s[n] !in Elements(s[..n]);
    }
  }

  /** The tables an operation may change. */
  function Targets(op: Op): set<nat> {
    if op.Fork? then {op.child} else if op.KernelFree? then {} else {op.t}
  }

  lemma {:induction false} WrittenElsewhere(view: Views, t: nat, a: nat, src: seq<int>, lo: nat, hi: nat)
    requires lo <= hi <= |src|
    ensures Written(view, t, a, src, lo, hi).Keys == view.Keys
    ensures forall k :: k in view && k.0 != t ==> Written(view, t, a, src, lo, hi)[k] == view[k]
    decreases hi
  {
    if lo < hi {
      WrittenElsewhere(view, t, a, src, lo, hi - 1);
    }
  }

  /** No operation changes what any table other than its own sees or may do. */
  lemma Isolation(m: Reference, op: Op, r: Result, k: Key)
    requires k.0 !in Targets(op)
    ensures var now := EagerStep(m, op, r);
            && (k in now.view <==> k in m.view) && (k in m.view ==> now.view[k] == m.view[k])
            && (k in now.rights <==> k in m.rights) && (k in m.rights ==> now.rights[k] == m.rights[k])
  {
    if op.KernelCopy? {
      WrittenElsewhere(m.view, op.t, op.va, r.bytes, 0, |r.bytes|);
    }
  }

  /** A reference memory with whole pages. */
  ghost predicate Whole(m: Reference) {
    m.view.Keys == m.rights.Keys && forall k :: k in m.view ==> |m.view[k]| == PGSIZE
  }

  /** The reference is a plain memory.  Byte x of page k after a fork, growth or unmapping that is done: the child has
      the parent's bytes and rights, new pages hold zeros, and nothing else changes. */
  lemma PagesAfter(m: Reference, op: Op, k: Key, x: nat)
    requires Whole(m) && x < PGSIZE && (op.Fork? || op.Unmap? || op.Grow?) && (op.Fork? ==> ForkOk(m.view, op.parent, op.child, op.n))
    ensures var now := EagerStep(m, op, Result(Done, []));
            && Whole(now)
            && match op
               case Fork(parent, child, n) =>
                 if k.0 == child && k.1 < n
                 then k in now.view && now.view[k][x] == m.view[(parent, k.1)][x] && now.rights[k] == m.rights[(parent, k.1)]
                 else (k in now.view <==> k in m.view) && (k in m.view ==> now.view[k][x] == m.view[k][x] && now.rights[k] == m.rights[k])
               case Unmap(t, lo, n) =>
                 && (k in now.view <==> k in m.view && !(k.0 == t && lo <= k.1 < lo + n))
                 && (k in now.view ==> now.view[k][x] == m.view[k][x] && now.rights[k] == m.rights[k])
               case Grow(t, oldsz, newsz, w, x') =>
                 if k !in m.view && k.0 == t && oldsz <= k.1 * PGSIZE < newsz
                 then k in now.view && now.view[k][x] == 0 && now.rights[k] == Rights(true, w, x', true)
                 else (k in now.view <==> k in m.view) && (k in m.view ==> now.view[k][x] == m.view[k][x] && now.rights[k] == m.rights[k])
               case _ => true
  {}

  /** A store changes one byte, and a copyout those from va on; pages and rights stay. */
  lemma BytesAfter(m: Reference, op: Op, r: Result, k: Key, x: nat)
    requires Whole(m) && k in m.view && x < PGSIZE && r.outcome.Done? && (op.UserStore? || op.KernelCopy?)
    requires op.UserStore? ==> At(op.t, op.va) in m.view
    ensures var now, b := EagerStep(m, op, r), k.1 * PGSIZE + x;
            && now.view.Keys == m.view.Keys && now.rights == m.rights && |now.view[k]| == PGSIZE
            && (op.UserStore? ==> now.view[k][x] == if k.0 == op.t && b == op.va then op.b else m.view[k][x])
            && (op.KernelCopy? ==> now.view[k][x] == if k.0 == op.t && op.va <= b < op.va + |r.bytes| then r.bytes[b - op.va] else m.view[k][x])
  {
    if op.KernelCopy? {
      WrittenAt(m.view, op.t, op.va, r.bytes, |r.bytes|, k, x);
    } else {
      assert op.va == At(op.t, op.va).1 * PGSIZE + Offset(op.va);
    }
  }

  lemma RightsMoved(leaf: Leaves, k: Key, pte: Pte)
    requires k in leaf && RightsOf(pte) == RightsOf(leaf[k])
    ensures RightsIn(leaf[k := pte]) == RightsIn(leaf)
  {}

  lemma RightsMap(leaf: Leaves, k: Key, pte: Pte)
    ensures RightsIn(leaf[k := pte]) == RightsIn(leaf)[k := RightsOf(pte)]
  {}

  lemma RightsCut(leaf: Leaves, t: nat, lo: nat, hi: nat)
    ensures RightsIn(Cut(leaf, t, lo, hi)) == Cut(RightsIn(leaf), t, lo, hi)
  {}

  class Memory {
    const npages: nat
    var mem: seq<Page>
    var count: seq<int>        // nump_using
    var freelist: seq<nat>
    var leaf: Leaves

    var kern: seq<nat>              // kernel holders of each page: page tables, stacks, pipes
    ghost var inflight: set<nat>    // pages between the two critical sections of kalloc or kfree

    ghost predicate Valid()
      reads this
    {
      && |mem| == |count| == npages
      && (forall p :: 0 <= p < |mem| ==> |mem[p]| == PGSIZE)
      && Counted(count, leaf, kern)
      && Listed(count, freelist, inflight)
      && Exclusive(count, leaf, kern)
      && Lined(leaf)
    }

    ghost function View(): (v: Views)
      requires Valid()
      reads this
    {
      ViewOf(leaf, mem)
    }

    // ----- kalloc.c -------------------------------------------------------------------

    /** kinit: every count starts at one and freerange frees the pages from `first` on. */
    constructor (npages: nat, first: nat)
      requires first <= npages
      ensures Valid() && leaf == map[] && inflight == {}
      ensures this.npages == npages && forall p :: 0 <= p < npages ==> (p in freelist <==> first <= p)
    {
      this.npages := npages;
      mem := seq(npages, p => Junk(0));
      count := seq(npages, p => 1);
      freelist, leaf, inflight := [], map[], {};
      kern := seq(npages, p => 1);
      new;
      assert forall p :: 0 <= p < npages ==> Owners(leaf, p) == {};
      var p := first;
      while p < npages
        invariant first <= p <= npages && Valid() && leaf == map[] && inflight == {}
        invariant forall q :: 0 <= q < npages ==> count[q] == (if first <= q < p then 0 else 1)
        invariant forall q :: p <= q < npages ==> kern[q] == 1
      {
        Kfree(p);
        p := p + 1;
      }
    }

    /** kfree, first critical section: one owner less.  True means others remain. */
    method KfreeCount(p: nat) returns (shared: bool)
      requires p < |count|
      modifies this`count
      ensures count == old(count)[p := old(count[p]) - 1]
      ensures shared <==> count[p] >= 1
    {
      count := count[p := count[p] - 1];
      shared := count[p] >= 1;
    }

    /** kfree of a page the kernel holds, up to the end of its first critical section. */
    method Release(p: nat) returns (shared: bool)
      requires Valid() && p < npages && kern[p] > 0
      modifies this`count, this`kern, this`inflight
      ensures Valid() && kern == old(kern)[p := old(kern[p]) - 1] && count == old(count)[p := old(count[p]) - 1]
      ensures inflight == if shared then old(inflight) else old(inflight) + {p}
      ensures shared <==> old(count[p]) > 1
    {
      CountedRelease(count, leaf, kern, p);
      ListedDrop(count, freelist, inflight, p);
      shared := KfreeCount(p);
      kern := kern[p := kern[p] - 1];
      inflight := if shared then inflight else inflight + {p};
    }

    /** kfree of the page of a leaf that is being cleared, up to the end of its first critical section. */
    method ReleaseLeaf(k: Key) returns (shared: bool)
      requires Valid() && k in leaf
      modifies this`count, this`leaf, this`inflight
      ensures Valid() && leaf == old(leaf) - {k}
      ensures count == old(count)[old(leaf[k].pa) := old(count[leaf[k].pa]) - 1]
      ensures inflight == if shared then old(inflight) else old(inflight) + {old(leaf[k].pa)}
      ensures shared <==> old(count[leaf[k].pa]) > 1
    {
      var p := leaf[k].pa;
      UnmapKeeps(count, freelist, leaf, kern, inflight, k);
      LinedUnmap(leaf, k);
      shared := KfreeCount(p);
      leaf := leaf - {k};
      inflight := if shared then inflight else inflight + {p};
    }

    /** kfree, second critical section: fill with junk and push on the free list. */
    method KfreePush(p: nat)
      requires Valid() && p in inflight
      modifies this`mem, this`freelist, this`inflight
      ensures Valid() && freelist == [p] + old(freelist) && inflight == old(inflight) - {p}
      ensures mem == old(mem)[p := Junk(1)] && View() == old(View())
    {
      Unowned(count, leaf, kern, p);
      ViewIgnores(leaf, mem, p, Junk(1));
      ListedPush(count, freelist, inflight, p);
      mem := mem[p := Junk(1)];
      freelist := [p] + freelist;
      inflight := inflight - {p};
    }

    method Kfree(p: nat)
      requires Valid() && p < npages && kern[p] > 0
      modifies this`count, this`kern, this`inflight, this`mem, this`freelist
      ensures Valid() && kern == old(kern)[p := old(kern[p]) - 1] && inflight == old(inflight)
      ensures View() == old(View()) && count == old(count)[p := old(count[p]) - 1]
      ensures freelist == if old(count[p]) > 1 then old(freelist) else [p] + old(freelist)
    {
      var shared := Release(p);
      if !shared {
        KfreePush(p);
      }
    }

    /** kalloc, first critical section: pop a page. */
    method KallocPop() returns (ok: bool, p: nat)
      requires Valid()
      modifies this`freelist, this`inflight
      ensures Valid() && (ok <==> old(freelist) != [])
      ensures ok ==> p == old(freelist)[0] && p !in old(inflight) && inflight == old(inflight) + {p}
                     && freelist == old(freelist)[1..]
      ensures !ok ==> freelist == old(freelist) && inflight == old(inflight)
    {
      ok, p := freelist != [], 0;
      if ok {
        ListedPop(count, freelist, inflight);
        p := freelist[0];
        freelist := freelist[1..];
        inflight := inflight + {p};
      }
    }

    /** kalloc, the rest: fill with junk, then count the new owner. */
    method KallocCount(p: nat)
      requires Valid() && p in inflight
      modifies this`mem, this`count, this`inflight, this`kern
      ensures Valid() && inflight == old(inflight) - {p} && kern == old(kern)[p := 1] && old(kern[p]) == 0
      ensures mem == old(mem)[p := Junk(5)] && count == old(count)[p := 1] && View() == old(View())
    {
      Unowned(count, leaf, kern, p);
      ViewIgnores(leaf, mem, p, Junk(5));
      CountedAlloc(count, leaf, kern, p);
      ListedTake(count, freelist, inflight, p);
      mem := mem[p := Junk(5)];
      count := count[p := count[p] + 1];
      inflight := inflight - {p};
      kern := kern[p := 1];
    }

    method Kalloc() returns (ok: bool, p: nat)
      requires Valid()
      modifies this`freelist, this`inflight, this`mem, this`count, this`kern
      ensures Valid() && View() == old(View()) && inflight == old(inflight)
      ensures ok <==> old(freelist) != []
      ensures ok ==> p < npages && old(kern[p]) == 0 && kern == old(kern)[p := 1] && mem == old(mem)[p := Junk(5)] && freelist == old(freelist)[1..]
      ensures !ok ==> kern == old(kern) && mem == old(mem) && freelist == []
    {
      ok, p := KallocPop();
      if ok {
        KallocCount(p);
      }
    }

    // ----- page tables ------------------------------------------------------------------

    /** The page-table pages walk has to allocate on the way to a leaf; on failure those already
        allocated stay in the tree. */
    method WalkAlloc(tables: nat) returns (ok: bool)
      requires Valid()
      modifies this`freelist, this`inflight, this`mem, this`count, this`kern
      ensures Valid() && View() == old(View()) && inflight == old(inflight)
      ensures forall p :: 0 <= p < npages && old(kern[p]) > 0 ==> kern[p] == old(kern[p])
      ensures (ok <==> tables <= |old(freelist)|) && (ok ==> |freelist| == |old(freelist)| - tables)
      ensures forall p :: 0 <= p < npages && old(kern[p]) > 0 ==> mem[p] == old(mem[p])
    {
      var i := 0;
      while i < tables
        invariant i <= tables && Valid() && View() == old(View()) && inflight == old(inflight) && |freelist| == |old(freelist)| - i
        invariant forall p :: 0 <= p < npages && old(kern[p]) > 0 ==> mem[p] == old(mem[p])
        invariant forall p :: 0 <= p < npages && old(kern[p]) > 0 ==> kern[p] == old(kern[p])
      {
        var got, p := Kalloc();
        if !got {
          return false;
        }
        i := i + 1;
      }
      return true;
    }

    /** uvmunmap of one page, with do_free. */
    method UnmapOne(k: Key)
      requires Valid() && k in leaf
      modifies this`count, this`leaf, this`inflight, this`mem, this`freelist
      ensures Valid() && leaf == old(leaf) - {k} && inflight == old(inflight)
      ensures View() == old(View()) - {k}
    {
      var p := leaf[k].pa;
      var shared := ReleaseLeaf(k);
      ViewUnmap(old(leaf), mem, k);
      if !shared {
        KfreePush(p);
      }
    }

    /** uvmunmap: the mappings must exist. */
    method UvmUnmap(t: nat, lo: nat, n: nat)
      requires Valid() && forall v :: lo <= v < lo + n ==> (t, v) in leaf
      modifies this`count, this`leaf, this`inflight, this`mem, this`freelist
      ensures Valid() && inflight == old(inflight)
      ensures leaf == Cut(old(leaf), t, lo, lo + n) && View() == Cut(old(View()), t, lo, lo + n)
    {
      hide Valid, ViewOf;
      ghost var leaf0, view0 := leaf, View();
      CutStep(leaf0, t, lo, lo);
      CutStep(view0, t, lo, lo);
      var v := lo;
      while v < lo + n
        invariant lo <= v <= lo + n && Valid() && inflight == old(inflight)
        invariant leaf == Cut(leaf0, t, lo, v) && View() == Cut(view0, t, lo, v)
      {
        CutStep(leaf0, t, lo, v);
        CutStep(view0, t, lo, v);
        UnmapOne((t, v));
        v := v + 1;
      }
    }

    /** memmove of a fresh page onto a leaf: the kernel's page becomes the leaf's (mappages after kalloc). */
    method Adopt(k: Key, pte: Pte)
      requires Valid() && k !in leaf && pte.pa < npages && kern[pte.pa] == 1
      modifies this`leaf, this`kern
      ensures Valid() && leaf == old(leaf)[k := pte] && kern == old(kern)[pte.pa := 0]
    {
      CountedAdopt(count, leaf, kern, k, pte);
      KernelOnly(count, leaf, kern, pte.pa);
      LinedFresh(leaf, k, pte);
      leaf := leaf[k := pte];
      kern := kern[pte.pa := 0];
    }

    /** memset of a page the kernel has just allocated. */
    method Zero(p: nat)
      requires Valid() && p < npages && kern[p] > 0
      modifies this`mem
      ensures Valid() && mem == old(mem)[p := Junk(0)] && View() == old(View())
    {
      ViewIgnores(leaf, mem, p, Junk(0));
      mem := mem[p := Junk(0)];
    }

    /** One iteration of uvmalloc: a zeroed page at a new address, or no change at all. */
    method GrowOne(k: Key, w: bool, x: bool, tables: nat) returns (ok: bool)
      requires Valid() && k !in leaf
      modifies this`freelist, this`inflight, this`mem, this`count, this`kern, this`leaf
      ensures Valid() && inflight == old(inflight)
      ensures ok ==> leaf.Keys == old(leaf.Keys) + {k} && leaf[k] == Pte(leaf[k].pa, true, w, x, true, false)
      ensures ok ==> leaf == old(leaf)[k := leaf[k]] && View() == old(View())[k := Junk(0)]
      ensures !ok ==> leaf == old(leaf) && View() == old(View())
      ensures (ok <==> 1 + tables <= |old(freelist)|) && (ok ==> |freelist| == |old(freelist)| - 1 - tables)
    {
      hide Listed, Exclusive, Lined, ViewOf;
      var got, p := Kalloc();
      if !got {
        return false;
      }
      Zero(p);
      ok := MapFresh(k, Pte(p, true, w, x, true, false), tables);
    }

    /** mappages of a fresh page, which is freed again when no table page can be had. */
    method MapFresh(k: Key, pte: Pte, tables: nat) returns (ok: bool)
      requires Valid() && k !in leaf && pte.pa < npages && kern[pte.pa] == 1
      modifies this`freelist, this`inflight, this`mem, this`count, this`kern, this`leaf
      ensures Valid() && inflight == old(inflight)
      ensures ok ==> leaf == old(leaf)[k := pte] && View() == old(View())[k := old(mem)[pte.pa]]
      ensures !ok ==> leaf == old(leaf) && View() == old(View())
      ensures (ok <==> tables <= |old(freelist)|) && (ok ==> |freelist| == |old(freelist)| - tables)
    {
      ok := WalkAlloc(tables);
      if ok {
        ViewMap(leaf, mem, k, pte);
        Adopt(k, pte);
      } else {
        Kfree(pte.pa);
      }
    }

    /** uvmalloc: grow a process, or on failure give back everything it added. */
    method UvmAlloc(t: nat, oldsz: nat, newsz: nat, w: bool, x: bool, tables: nat -> nat) returns (ok: bool, sz: nat)
      requires Valid() && forall v :: PagesIn(oldsz) <= v < PagesIn(newsz) ==> (t, v) !in leaf
      modifies this`freelist, this`inflight, this`mem, this`count, this`kern, this`leaf
      ensures Valid() && inflight == old(inflight)
      ensures newsz < oldsz ==> ok && sz == oldsz && leaf == old(leaf) && View() == old(View())
      ensures newsz >= oldsz && ok ==> sz == newsz && View() == Extended(old(View()), t, PagesIn(oldsz), PagesIn(newsz), Junk(0))
      ensures newsz >= oldsz && ok ==> RightsIn(leaf) == Extended(RightsIn(old(leaf)), t, PagesIn(oldsz), PagesIn(newsz), Rights(true, w, x, true))
      ensures !ok ==> sz == 0 && leaf == old(leaf) && View() == old(View())
      ensures ok <==> newsz < oldsz || Need(tables, PagesIn(oldsz), PagesIn(newsz), 1) <= |old(freelist)|
    {
      if newsz < oldsz {
        return true, oldsz;
      }
      ok := GrowTo(t, PagesIn(oldsz), PagesIn(newsz), w, x, tables);
      sz := if ok then newsz else 0;
    }

    /** uvmalloc over page numbers. */
    method GrowTo(t: nat, lo: nat, hi: nat, w: bool, x: bool, tables: nat -> nat) returns (ok: bool)
      requires Valid() && lo <= hi && forall v :: lo <= v < hi ==> (t, v) !in leaf
      modifies this`freelist, this`inflight, this`mem, this`count, this`kern, this`leaf
      ensures Valid() && inflight == old(inflight)
      ensures View() == if ok then Extended(old(View()), t, lo, hi, Junk(0)) else old(View())
      ensures ok ==> RightsIn(leaf) == Extended(RightsIn(old(leaf)), t, lo, hi, Rights(true, w, x, true))
      ensures !ok ==> leaf == old(leaf)
      ensures ok <==> Need(tables, lo, hi, 1) <= |old(freelist)|
    {
      ghost var view0 := View();
      var v := GrowPages(t, lo, hi, w, x, tables);
      ok := v == hi;
      if !ok {
        Ungrow(t, lo, v, view0);
      }
    }

    /** The loop of uvmalloc: how far it got. */
    method GrowPages(t: nat, lo: nat, hi: nat, w: bool, x: bool, tables: nat -> nat) returns (v: nat)
      requires Valid() && lo <= hi && forall v :: lo <= v < hi ==> (t, v) !in leaf
      modifies this`freelist, this`inflight, this`mem, this`count, this`kern, this`leaf
      ensures Valid() && inflight == old(inflight) && lo <= v <= hi
      ensures View() == Extended(old(View()), t, lo, v, Junk(0)) && Cut(leaf, t, lo, v) == old(leaf)
      ensures RightsIn(leaf) == Extended(RightsIn(old(leaf)), t, lo, v, Rights(true, w, x, true))
      ensures v == hi <==> Need(tables, lo, hi, 1) <= |old(freelist)|
    {
      hide Valid, ViewOf, RightsIn, Cut, Extended, Need;
      ghost var view0, leaf0, rights0 := View(), leaf, RightsIn(leaf);
      v := lo;
      ExtendedNone(view0, t, lo, Junk(0));
      ExtendedNone(rights0, t, lo, Rights(true, w, x, true));
      NeedNone(tables, lo, 1);
      CutStep(leaf0, t, lo, lo);
      var ok := true;
      while v < hi && ok
        invariant lo <= v <= hi && Valid() && inflight == old(inflight)
        invariant View() == Extended(view0, t, lo, v, Junk(0)) && Cut(leaf, t, lo, v) == leaf0
        invariant RightsIn(leaf) == Extended(rights0, t, lo, v, Rights(true, w, x, true))
        invariant ok ==> |freelist| == |old(freelist)| - Need(tables, lo, v, 1)
        invariant !ok ==> v < hi && |old(freelist)| < Need(tables, lo, hi, 1)
        decreases hi - v, ok
      {
        NeedStep(tables, lo, v, 1);
        NeedGrows(tables, lo, v + 1, hi, 1);
        ok := GrowNext(t, lo, v, w, x, tables(v), view0, rights0);
        v := if ok then v + 1 else v;
      }
    }

    /** One iteration of uvmalloc, v - lo pages after its start. */
    method GrowNext(t: nat, ghost lo: nat, v: nat, w: bool, x: bool, tables: nat, ghost view0: Views,
                    ghost rights0: map<Key, Rights>) returns (ok: bool)
      requires Valid() && lo <= v && (t, v) !in view0 && View() == Extended(view0, t, lo, v, Junk(0))
      requires (t, v) !in rights0 && RightsIn(leaf) == Extended(rights0, t, lo, v, Rights(true, w, x, true))
      modifies this`freelist, this`inflight, this`mem, this`count, this`kern, this`leaf
      ensures Valid() && inflight == old(inflight)
      ensures View() == Extended(view0, t, lo, if ok then v + 1 else v, Junk(0))
      ensures RightsIn(leaf) == Extended(rights0, t, lo, if ok then v + 1 else v, Rights(true, w, x, true))
      ensures Cut(leaf, t, lo, if ok then v + 1 else v) == Cut(old(leaf), t, lo, v)
      ensures (ok <==> 1 + tables <= |old(freelist)|) && (ok ==> |freelist| == |old(freelist)| - 1 - tables)
    {
      ghost var before := leaf;
      ExtendedStep(view0, t, lo, v, Junk(0));
      ExtendedStep(rights0, t, lo, v, Rights(true, w, x, true));
      assert (t, v) !in View().Keys;
      ok := GrowOne((t, v), w, x, tables);
      if ok {
        CutFresh(before, t, lo, v, leaf[(t, v)]);
        RightsMap(before, (t, v), leaf[(t, v)]);
      }
    }

    /** uvmdealloc on the failure path. */
    method Ungrow(t: nat, lo: nat, hi: nat, ghost view0: Views)
      requires Valid() && lo <= hi && View() == Extended(view0, t, lo, hi, Junk(0))
      requires forall v :: lo <= v < hi ==> (t, v) !in view0
      modifies this`count, this`leaf, this`inflight, this`mem, this`freelist
      ensures Valid() && inflight == old(inflight) && View() == view0 && leaf == Cut(old(leaf), t, lo, hi)
    {
      hide Valid, ViewOf, Cut, Extended;
      ExtendedUndone(view0, t, lo, hi, Junk(0));
      UvmUnmap(t, lo, hi - lo);
    }

    // ----- copy on write ------------------------------------------------------------------

    /** uvmcopy turns a writable leaf read-only and marks it COW. */
    method MarkCow(k: Key)
      requires Valid() && k in leaf
      modifies this`leaf
      ensures Valid() && View() == old(View()) && !leaf[k].w
      ensures leaf == old(leaf)[k := if old(leaf[k].w) then old(leaf[k]).(w := false, cow := true) else old(leaf[k])]
    {
      hide Counted, Listed, Exclusive, Lined, ViewOf;
      var pte := leaf[k];
      if pte.w {
        pte := pte.(w := false, cow := true);
      }
      MarkKeeps(count, leaf, kern, mem, k, pte);
      leaf := leaf[k := pte];
    }

    /** mappages of the parent's page in the child, and the count that goes with it. */
    method Share(k: Key, l: Key)
      requires Valid() && k in leaf && l !in leaf && !leaf[k].w && k.1 == l.1
      modifies this`leaf, this`count
      ensures Valid() && leaf == old(leaf)[l := old(leaf[k])]
    {
      hide Listed, Exclusive, Lined;
      var pte := leaf[k];
      ShareKeeps(count, freelist, leaf, kern, inflight, k, l);
      LinedShare(leaf, k, l);
      leaf := leaf[l := pte];
      count := count[pte.pa := count[pte.pa] + 1];
    }

    /** The rest of one iteration of uvmcopy, with a read-only parent leaf. */
    method ShareMapped(k: Key, l: Key, tables: nat) returns (ok: bool)
      requires Valid() && k in leaf && l !in leaf && !leaf[k].w && k.1 == l.1
      modifies this`freelist, this`inflight, this`mem, this`count, this`kern, this`leaf
      ensures Valid() && inflight == old(inflight)
      ensures ok ==> leaf == old(leaf)[l := old(leaf[k])] && View() == old(View())[l := old(View())[k]]
      ensures !ok ==> leaf == old(leaf) && View() == old(View())
      ensures (ok <==> tables <= |old(freelist)|) && (ok ==> |freelist| == |old(freelist)| - tables)
    {
      hide Listed, Exclusive, Lined, RightsIn;
      ok := WalkAlloc(tables);
      if ok {
        ViewMap(leaf, mem, l, leaf[k]);
        assert mem[leaf[k].pa] == View()[k];
        Share(k, l);
      }
    }

    /** One iteration of uvmcopy. */
    method CopyOne(parent: nat, child: nat, v: nat, tables: nat) returns (ok: bool)
      requires Valid() && (parent, v) in leaf && (child, v) !in leaf
      modifies this`freelist, this`inflight, this`mem, this`count, this`kern, this`leaf
      ensures Valid() && inflight == old(inflight)
      ensures ok ==> View() == old(View())[(child, v) := old(View())[(parent, v)]]
      ensures ok ==> (child, v) in leaf && (parent, v) in leaf && leaf[(child, v)] == leaf[(parent, v)] && !leaf[(child, v)].w
      ensures forall k :: k in old(leaf) && k != (parent, v) ==> k in leaf && leaf[k] == old(leaf)[k]
      ensures RightsIn(leaf) == if ok then RightsIn(old(leaf))[(child, v) := RightsIn(old(leaf))[(parent, v)]] else RightsIn(old(leaf))
      ensures !ok ==> leaf.Keys == old(leaf.Keys) && View() == old(View())
      ensures (ok <==> tables <= |old(freelist)|) && (ok ==> |freelist| == |old(freelist)| - tables)
    {
      hide Valid, ViewOf;
      MarkCow((parent, v));
      RightsMoved(old(leaf), (parent, v), leaf[(parent, v)]);
      RightsMap(leaf, (child, v), leaf[(parent, v)]);
      ok := ShareMapped((parent, v), (child, v), tables);
    }

    /** Two leaves map the same page, read-only. */
    static predicate Alike(leaf: Leaves, k: Key, l: Key) {
      k in leaf && l in leaf && leaf[k] == leaf[l] && !leaf[k].w
    }

    /** uvmcopy: the child sees what an eager copy would show it, or nothing changes for anyone. */
    method UvmCopy(parent: nat, child: nat, n: nat, tables: nat -> nat) returns (ok: bool)
      requires Valid() && parent != child
      requires forall v :: 0 <= v < n ==> (parent, v) in leaf && (child, v) !in leaf
      modifies this`freelist, this`inflight, this`mem, this`count, this`kern, this`leaf
      ensures Valid() && inflight == old(inflight)
      ensures View() == if ok then EagerCopy(old(View()), parent, child, n) else old(View())
      ensures RightsIn(leaf) == if ok then EagerCopy(RightsIn(old(leaf)), parent, child, n) else RightsIn(old(leaf))
      ensures ok <==> Need(tables, 0, n, 0) <= |old(freelist)|
      ensures ok ==> forall v :: 0 <= v < n ==> Alike(leaf, (parent, v), (child, v))
    {
      hide Valid, ViewOf, RightsIn, EagerCopy, Need;
      ghost var view0, rights0 := View(), RightsIn(leaf);
      var done := CopyPages(parent, child, n, tables);
      ok := done == n;
      if !ok {
        Uncopy(parent, child, done, view0, rights0);
      }
    }

    /** uvmcopy's loop: how many pages it shared before it ended or failed. */
    method CopyPages(parent: nat, child: nat, n: nat, tables: nat -> nat) returns (done: nat)
      requires Valid() && parent != child
      requires forall v :: 0 <= v < n ==> (parent, v) in leaf && (child, v) !in leaf
      modifies this`freelist, this`inflight, this`mem, this`count, this`kern, this`leaf
      ensures Valid() && inflight == old(inflight) && done <= n
      ensures View() == EagerCopy(old(View()), parent, child, done) && RightsIn(leaf) == EagerCopy(RightsIn(old(leaf)), parent, child, done)
      ensures done == n <==> Need(tables, 0, n, 0) <= |old(freelist)|
      ensures forall v :: 0 <= v < done ==> Alike(leaf, (parent, v), (child, v))
    {
      hide Valid, ViewOf, RightsIn, EagerCopy, Need;
      ghost var view0, rights0 := View(), RightsIn(leaf);
      done := 0;
      CopyNone(view0, parent, child);
      CopyNone(rights0, parent, child);
      NeedNone(tables, 0, 0);
      var ok := true;
      while done < n && ok
        invariant done <= n && Valid() && inflight == old(inflight)
        invariant View() == EagerCopy(view0, parent, child, done) && RightsIn(leaf) == EagerCopy(rights0, parent, child, done)
        invariant forall v :: 0 <= v < done ==> Alike(leaf, (parent, v), (child, v))
        invariant ok ==> |freelist| == |old(freelist)| - Need(tables, 0, done, 0)
        invariant !ok ==> done < n && |old(freelist)| < Need(tables, 0, n, 0)
        decreases n - done, ok
      {
        CopyStep(view0, parent, child, done);
        CopyStep(rights0, parent, child, done);
        NeedStep(tables, 0, done, 0);
        NeedGrows(tables, 0, done + 1, n, 0);
        ok := CopyOne(parent, child, done, tables(done));
        done := if ok then done + 1 else done;
      }
    }

    /** uvmcopy's failure path: the pages mapped so far are unmapped again. */
    method Uncopy(ghost parent: nat, child: nat, n: nat, ghost view0: Views, ghost rights0: map<Key, Rights>)
      requires Valid() && parent != child
      requires forall v :: 0 <= v < n ==> (parent, v) in view0 && (child, v) !in view0
      requires forall v :: 0 <= v < n ==> (parent, v) in rights0 && (child, v) !in rights0
      requires View() == EagerCopy(view0, parent, child, n) && RightsIn(leaf) == EagerCopy(rights0, parent, child, n)
      modifies this`count, this`leaf, this`inflight, this`mem, this`freelist
      ensures Valid() && inflight == old(inflight) && View() == view0 && RightsIn(leaf) == rights0
    {
      hide Valid, ViewOf, RightsIn, Cut, EagerCopy;
      CopyUndone(view0, parent, child, n);
      CopyUndone(rights0, parent, child, n);
      RightsCut(leaf, child, 0, n);
      UvmUnmap(child, 0, n);
    }

    /** removecopy: give a COW leaf a private, writable copy of its page.  No view changes. */
    method RemoveCopy(t: nat, va: nat, sz: nat) returns (r: Outcome)
      requires Valid() && sz % PGSIZE == 0
      modifies this`freelist, this`inflight, this`mem, this`count, this`kern, this`leaf
      ensures Valid() && inflight == old(inflight) && View() == old(View())
      ensures var k := At(t, va);
              && (r.Refused? <==> !(k.1 < MAXPAGE && k in old(leaf) && old(leaf)[k].cow))
              && (!r.Refused? ==> (r.Panic? <==> old(freelist) == []))
              && (r.Done? ==> k in leaf && leaf == old(leaf)[k := old(leaf)[k].(pa := leaf[k].pa, w := true, cow := false)])
      ensures RightsIn(leaf) == RightsIn(old(leaf)) && (!r.Done? ==> leaf == old(leaf))
      ensures r.Panic? ==> freelist == []
    {
      var va0 := va / PGSIZE * PGSIZE;
      var k := At(t, va0);
      Aligned(t, va, sz);
      r := Refused;
      if va0 < MAXPAGE * PGSIZE && !(sz != 0 && va0 > sz - PGSIZE && va0 < sz) {
        if k in leaf && leaf[k].cow {
          r := CopyCow(k);
          RightsMoved(old(leaf), k, leaf[k]);
        }
      }
    }

    /** The page bounds of removecopy: for an aligned size its size test never holds. */
    static lemma Aligned(t: nat, va: nat, sz: nat)
      requires sz % PGSIZE == 0
      ensures var va0 := va / PGSIZE * PGSIZE;
              At(t, va0) == At(t, va) && (va0 < MAXPAGE * PGSIZE <==> At(t, va).1 < MAXPAGE) && !(va0 > sz - PGSIZE && va0 < sz)
    {
      assert sz == sz / PGSIZE * PGSIZE;
    }

    /** kalloc, and the copy; removecopy panics without memory. */
    method CopyCow(k: Key) returns (r: Outcome)
      requires Valid() && k in leaf
      modifies this`freelist, this`inflight, this`mem, this`count, this`kern, this`leaf
      ensures Valid() && inflight == old(inflight) && View() == old(View())
      ensures r == if old(freelist) == [] then Panic else Done
      ensures r.Done? ==> k in leaf && leaf == old(leaf)[k := old(leaf)[k].(pa := leaf[k].pa, w := true, cow := false)]
      ensures !r.Done? ==> leaf == old(leaf)
      ensures r.Panic? ==> freelist == []
    {
      hide Listed, Exclusive, Lined, ViewOf;
      var ok, p := Kalloc();
      r := Panic;
      if ok {
        CopyInto(k, p);
        r := Done;
      }
    }

    /** memmove to the fresh page, repoint the leaf, kfree the old page. */
    method CopyInto(k: Key, p: nat)
      requires Valid() && k in leaf && p < npages && kern[p] == 1
      modifies this`mem, this`leaf, this`kern, this`count, this`inflight, this`freelist
      ensures Valid() && inflight == old(inflight) && View() == old(View())
      ensures leaf == old(leaf)[k := old(leaf[k]).(pa := p, w := true, cow := false)]
    {
      CopyPage(k, p);
      MoveLeaf(k, p);
    }

    method MoveLeaf(k: Key, p: nat)
      requires Valid() && k in leaf && p < npages && kern[p] == 1 && mem[p] == mem[leaf[k].pa]
      modifies this`mem, this`leaf, this`kern, this`count, this`inflight, this`freelist
      ensures Valid() && inflight == old(inflight) && View() == old(View())
      ensures leaf == old(leaf)[k := old(leaf[k]).(pa := p, w := true, cow := false)]
    {
      hide Listed, Exclusive, Lined;
      var pa := leaf[k].pa;
      ViewMoved(leaf, mem, k, leaf[k].(pa := p, w := true, cow := false));
      var shared := Repoint(k, p);
      if !shared {
        KfreePush(pa);
      }
    }

    method CopyPage(k: Key, p: nat)
      requires Valid() && k in leaf && p < npages && kern[p] == 1
      modifies this`mem
      ensures Valid() && View() == old(View()) && mem[p] == mem[leaf[k].pa]
    {
      KernelOnly(count, leaf, kern, p);
      ViewIgnores(leaf, mem, p, mem[leaf[k].pa]);
      mem := mem[p := mem[leaf[k].pa]];
    }

    method Repoint(k: Key, p: nat) returns (shared: bool)
      requires Valid() && k in leaf && p < npages && kern[p] == 1
      modifies this`leaf, this`kern, this`count, this`inflight
      ensures Valid()
      ensures leaf == old(leaf)[k := old(leaf[k]).(pa := p, w := true, cow := false)]
      ensures inflight == if shared then old(inflight) else old(inflight) + {old(leaf[k].pa)}
      ensures !shared ==> old(leaf[k].pa) !in old(inflight)
    {
      hide Listed, Exclusive, Lined;
      var pa := leaf[k].pa;
      var pte := leaf[k].(pa := p, w := true, cow := false);
      MoveKeeps(count, freelist, leaf, kern, inflight, k, pte);
      KernelOnly(count, leaf, kern, p);
      LinedFresh(leaf, k, pte);
      leaf := leaf[k := pte];
      kern := kern[p := 0];
      shared := KfreeCount(pa);
      inflight := if shared then inflight else inflight + {pa};
    }

    /** memmove into the page of a writable leaf. */
    method WriteTo(k: Key, off: nat, bytes: seq<int>)
      requires Valid() && k in leaf && leaf[k].w && off + |bytes| <= PGSIZE
      modifies this`mem
      ensures Valid() && View() == old(View())[k := Splice(old(View())[k], off, bytes)]
    {
      var pg := Splice(mem[leaf[k].pa], off, bytes);
      forall l | l in leaf && leaf[l].pa == leaf[k].pa ensures l == k {
        WritableAlone(count, leaf, kern, k, l);
      }
      ViewWrite(leaf, mem, k, pg);
      mem := mem[leaf[k].pa := pg];
    }

    /** A user store: the hardware writes through a user-writable leaf; otherwise the fault handler
        runs removecopy and the store is tried again, or the process is killed.  It ends well exactly if
        the process has the right, unless the fault of a COW page, a user page or not, finds no memory. */
    method Store(t: nat, va: nat, b: int, sp: nat) returns (r: Outcome)
      requires Valid()
      modifies this`freelist, this`inflight, this`mem, this`count, this`kern, this`leaf
      ensures Valid() && inflight == old(inflight) && RightsIn(leaf) == RightsIn(old(leaf))
      ensures r.Panic? <==> StorePanics(old(leaf), old(freelist), At(t, va))
      ensures !r.Panic? ==> (r.Done? <==> Storable(RightsIn(old(leaf)), At(t, va)))
      ensures View() == if r.Done? then WriteByte(old(View()), t, va, b) else old(View())
      ensures r.Panic? ==> freelist == []
    {
      hide Listed, Exclusive, Lined;
      var k := At(t, va);
      r := Done;
      if !Direct(leaf, k) {
        r := Fault(t, va, sp);
      }
      if r.Done? {
        SpliceOne(View()[k], Offset(va), b);
        WriteTo(k, Offset(va), [b]);
      }
    }

    /** The store fault: removecopy, and then the store is tried again; a page that is still not a user
        page faults once more, and is no longer COW then. */
    method Fault(t: nat, va: nat, sp: nat) returns (r: Outcome)
      requires Valid() && !Direct(leaf, At(t, va))
      modifies this`freelist, this`inflight, this`mem, this`count, this`kern, this`leaf
      ensures Valid() && inflight == old(inflight) && RightsIn(leaf) == RightsIn(old(leaf)) && View() == old(View())
      ensures r.Done? ==> Direct(leaf, At(t, va))
      ensures r.Panic? <==> StorePanics(old(leaf), old(freelist), At(t, va))
      ensures !r.Panic? ==> (r.Done? <==> Storable(RightsIn(old(leaf)), At(t, va)))
      ensures r.Panic? ==> freelist == []
    {
      r := RemoveCopy(t, va, sp / PGSIZE * PGSIZE);
      if r.Done? && !leaf[At(t, va)].u {
        r := Refused;
      }
    }

    static predicate IsCow(leaf: Leaves, k: Key) {
      k in leaf && leaf[k].cow
    }

    /** copyout: all bytes are copied, or those up to the first address without a user page, or up to a panic
        of a COW page for want of memory.  COW pages are made private first; other pages are written where they are, and
        `CopyOutIff` says when nobody else sees it. */
    method CopyOut(t: nat, dstva: nat, src: seq<int>) returns (r: Outcome, done: nat)
      requires Valid()
      modifies this`freelist, this`inflight, this`mem, this`count, this`kern, this`leaf
      ensures Valid() && inflight == old(inflight) && RightsIn(leaf) == RightsIn(old(leaf)) && done <= |src|
      ensures View() == Spread(old(leaf), old(View()), t, dstva, src, 0, done)
      ensures Copies(RightsIn(old(leaf)), t, dstva, |src|, r, done)
      ensures r.Panic? ==> freelist == [] && IsCow(old(leaf), At(t, dstva + done))
    {
      hide Valid, ViewOf, RightsIn, Spread, SameHits;
      ghost var view0, m, leaf0 := View(), RightsIn(leaf), leaf;
      SpreadNone(leaf0, view0, t, dstva, src);
      SameHitsStart(leaf0, t);
      done := 0;
      r := Done;
      while done < |src| && r.Done?
        invariant Valid() && inflight == old(inflight) && done <= |src| && RightsIn(leaf) == m && SameHits(leaf0, leaf, t)
        invariant View() == Spread(leaf0, view0, t, dstva, src, 0, done)
        invariant AllMapped(m, t, dstva, dstva + done)
        invariant r.Refused? ==> !Mapped(m, At(t, dstva + done))
        invariant (!r.Done? ==> done < |src|) && (r.Panic? ==> freelist == [] && IsCow(leaf0, At(t, dstva + done)))
        decreases |src| - done, r.Done?
      {
        var n := Chunk(dstva + done, |src| - done);
        r := CopyOutPage(t, dstva, src, done, done + n, m, leaf0);
        if r.Done? {
          SpreadMore(leaf0, view0, t, dstva, src, 0, done, done + n);
          MappedMore(m, t, dstva, dstva + done, n);
          done := done + n;
        }
      }
    }

    static lemma SameHitsStart(leaf: Leaves, t: nat)
      ensures SameHits(leaf, leaf, t)
    {}

    /** How much of what is left fits the page of an address. */
    static method Chunk(a: nat, left: nat) returns (n: nat)
      requires left > 0
      ensures 0 < n <= left && Offset(a) + n <= PGSIZE && (n == left || Offset(a) + n == PGSIZE)
    {
      n := PGSIZE - Offset(a);
      if n > left {
        n := left;
      }
    }

    /** Bytes lo..hi-1 of the source, which fall on one page. */
    method CopyOutPage(t: nat, dstva: nat, src: seq<int>, lo: nat, hi: nat, ghost m: map<Key, Rights>, ghost leaf0: Leaves)
      returns (r: Outcome)
      requires Valid() && lo <= hi <= |src| && Offset(dstva + lo) + hi - lo <= PGSIZE
      requires RightsIn(leaf) == m && SameHits(leaf0, leaf, t)
      modifies this`freelist, this`inflight, this`mem, this`count, this`kern, this`leaf
      ensures Valid() && inflight == old(inflight) && RightsIn(leaf) == m && SameHits(leaf0, leaf, t)
      ensures r.Refused? <==> !Mapped(m, At(t, dstva + lo))
      ensures View() == if r.Done? then Spread(leaf0, old(View()), t, dstva, src, lo, hi) else old(View())
      ensures r.Panic? ==> freelist == [] && IsCow(leaf0, At(t, dstva + lo))
    {
      hide Valid, ViewOf, Spread, SameHits;
      var k := At(t, dstva + lo);
      r := Refused;
      if k.1 < MAXPAGE && k in leaf && leaf[k].u {
        r := MakePrivate(t, dstva + lo, m, leaf0);
        if r.Done? {
          WritePage(t, dstva, src, lo, hi, leaf0);
        }
      }
    }

    /** copyout's memmove. */
    method WritePage(t: nat, dstva: nat, src: seq<int>, lo: nat, hi: nat, ghost leaf0: Leaves)
      requires Valid() && lo <= hi <= |src| && Offset(dstva + lo) + hi - lo <= PGSIZE
      requires At(t, dstva + lo) in leaf && !leaf[At(t, dstva + lo)].cow && SameHits(leaf0, leaf, t)
      modifies this`mem
      ensures Valid() && View() == Spread(leaf0, old(View()), t, dstva, src, lo, hi)
    {
      ghost var k := At(t, dstva + lo);
      assert SameHit(leaf0, leaf, k);
      SpreadOnPage(leaf0, View(), t, dstva, src, lo, hi);
      WriteThrough(At(t, dstva + lo), Offset(dstva + lo), src[lo..hi]);
    }

    /** memmove into the page of any leaf. */
    method WriteThrough(k: Key, off: nat, bytes: seq<int>)
      requires Valid() && k in leaf && off + |bytes| <= PGSIZE
      modifies this`mem
      ensures Valid() && forall l :: l in old(View()) ==> |old(View())[l]| == PGSIZE
      ensures View() == SpliceHit(old(View()), Owners(leaf, leaf[k].pa), off, bytes)
    {
      ViewWriteAll(leaf, mem, k, off, bytes);
      mem := mem[leaf[k].pa := Splice(mem[leaf[k].pa], off, bytes)];
    }

    /** copyout runs removecopy on a COW page first. */
    method MakePrivate(t: nat, a: nat, ghost m: map<Key, Rights>, ghost leaf0: Leaves) returns (r: Outcome)
      requires Valid() && RightsIn(leaf) == m && Mapped(m, At(t, a)) && SameHits(leaf0, leaf, t)
      modifies this`freelist, this`inflight, this`mem, this`count, this`kern, this`leaf
      ensures Valid() && inflight == old(inflight) && RightsIn(leaf) == m && View() == old(View()) && SameHits(leaf0, leaf, t)
      ensures !r.Refused? && (r.Done? ==> At(t, a) in leaf && !leaf[At(t, a)].cow)
      ensures r.Panic? ==> freelist == [] && IsCow(leaf0, At(t, a))
    {
      r := Done;
      if leaf[At(t, a)].cow {
        Aligned(t, a, 0);
        ghost var was := leaf;
        r := RemoveCopy(t, a / PGSIZE * PGSIZE, 0);
        if r.Done? {
          Moved(was, t, At(t, a), leaf0);
        }
      }
    }

    /** The leaf of a COW page was moved to a page of its own. */
    lemma Moved(was: Leaves, t: nat, k: Key, leaf0: Leaves)
      requires Valid() && k in was && k.0 == t && was[k].cow && SameHits(leaf0, was, t) && Lined(was)
      requires k in leaf && leaf == was[k := was[k].(pa := leaf[k].pa, w := true, cow := false)]
      ensures SameHits(leaf0, leaf, t)
    {
      forall l | l in Owners(leaf, leaf[k].pa) ensures l == k {
        WritableAlone(count, leaf, kern, k, l);
      }
      assert Owners(leaf, leaf[k].pa) == {k};
      HitsMoved(leaf0, was, t, k, leaf[k]);
    }

    /** copyin's memmove. */
    method ReadPage(k: Key, off: nat, n: nat) returns (bytes: seq<int>)
      requires Valid() && k in leaf && off + n <= PGSIZE
      ensures |View()[k]| == PGSIZE && bytes == View()[k][off..off + n]
    {
      bytes := mem[leaf[k].pa][off..off + n];
    }

    /** copyin: the bytes the table sees, or a refusal naming an address walkaddr does not find. */
    method CopyIn(t: nat, srcva: nat, len: nat) returns (r: Outcome, dst: seq<int>)
      requires Valid()
      ensures !r.Panic? && Copies(RightsIn(leaf), t, srcva, len, r, |dst|)
      ensures BytesAre(View(), t, srcva, dst)
    {
      hide Valid, ViewOf;
      dst := [];
      r := Done;
      while |dst| < len && r.Done?
        invariant |dst| <= len && !r.Panic?
        invariant BytesAre(View(), t, srcva, dst)
        invariant AllMapped(RightsIn(leaf), t, srcva, srcva + |dst|)
        invariant r.Refused? ==> |dst| < len && !Mapped(RightsIn(leaf), At(t, srcva + |dst|))
        decreases len - |dst|, r.Done?
      {
        var a := srcva + |dst|;
        var k := At(t, a);
        if !(k.1 < MAXPAGE && k in leaf && leaf[k].u) {
          r := Refused;
        } else {
          var n := Chunk(a, len - |dst|);
          var bytes := ReadPage(k, Offset(a), n);
          CopiedStep(View(), t, srcva, dst, bytes);
          MappedMore(RightsIn(leaf), t, srcva, a, n);
          dst := dst + bytes;
        }
      }
    }

    // ----- runs ---------------------------------------------------------------------------

    /** The state in terms of the reference memory. */
    ghost function Abstract(): Reference
      requires Valid()
      reads this
    {
      Reference(View(), RightsIn(leaf))
    }

    ghost function Now(): Moment
      reads this
    {
      Moment(mem, count, freelist, leaf, kern, inflight)
    }

    lemma NowSound()
      requires Valid()
      ensures Sound(npages, Now()) && Abstraction(npages, Now()) == Abstract()
    {}

    /** One operation: the views are those of the reference memory, and it ends as the reference says. */
    method Perform(op: Op, tables: nat -> nat) returns (r: Result)
      requires Valid()
      modifies this`freelist, this`inflight, this`mem, this`count, this`kern, this`leaf
      ensures Valid() && inflight == old(inflight) && Abstract() == EagerStep(old(Abstract()), op, r)
      ensures Answers(old(Abstract()), |old(freelist)|, tables, op, r)
      ensures (r.outcome.Panic? ==> freelist == []) && PanicsOnly(old(Now()), op, r)
      ensures op.KernelFree? ==> GivesBack(old(Now()), op.p, r, Now())
    {
      hide Valid, ViewOf, RightsIn, Written, Private, AllMapped, Need, EagerFork, EagerUnmap, EagerGrow;
      match op
      case Fork(parent, child, n) =>
        var ok := TryFork(parent, child, n, tables);
        r := Result(if ok then Done else Refused, []);
      case UserStore(t, va, b, sp) =>
        var o := Store(t, va, b, sp);
        r := Result(o, []);
      case KernelCopy(t, va, bytes) =>
        var o, n := TryCopyOut(t, va, bytes);
        WrittenPrefix(old(View()), t, va, bytes, n, n);
        r := Result(o, bytes[..n]);
      case KernelRead(t, va, len) =>
        var o, bytes := CopyIn(t, va, len);
        r := Result(o, bytes);
      case Unmap(t, lo, n) =>
        var ok := TryUnmap(t, lo, n);
        r := Result(if ok then Done else Refused, []);
      case Grow(t, oldsz, newsz, w, x) =>
        var ok := TryGrow(t, oldsz, newsz, w, x, tables);
        r := Result(if ok then Done else Refused, []);
      case KernelFree(p) =>
        var ok := TryKfree(p);
        r := Result(if ok then Done else Refused, []);
    }

    method TryKfree(p: nat) returns (ok: bool)
      requires Valid()
      modifies this`count, this`kern, this`inflight, this`mem, this`freelist
      ensures Valid() && inflight == old(inflight) && Abstract() == old(Abstract())
      ensures GivesBack(old(Now()), p, Result(if ok then Done else Refused, []), Now())
    {
      ok := p < |kern| && kern[p] > 0;
      if ok {
        Kfree(p);
      }
    }

    method TryFork(parent: nat, child: nat, n: nat, tables: nat -> nat) returns (ok: bool)
      requires Valid()
      modifies this`freelist, this`inflight, this`mem, this`count, this`kern, this`leaf
      ensures Valid() && inflight == old(inflight)
      ensures Abstract() == if ok then EagerFork(old(Abstract()), parent, child, n) else old(Abstract())
      ensures ok <==> ForkOk(old(View()), parent, child, n) && Need(tables, 0, n, 0) <= |old(freelist)|
    {
      hide Valid, EagerCopy, Need;
      ok := false;
      if ForkOk(leaf, parent, child, n) {
        ok := UvmCopy(parent, child, n, tables);
      }
    }

    method TryCopyOut(t: nat, va: nat, bytes: seq<int>) returns (o: Outcome, n: nat)
      requires Valid()
      modifies this`freelist, this`inflight, this`mem, this`count, this`kern, this`leaf
      ensures Valid() && inflight == old(inflight) && n <= |bytes|
      ensures View() == Written(old(View()), t, va, bytes, 0, n) && RightsIn(leaf) == RightsIn(old(leaf))
      ensures if Private(RightsIn(old(leaf)), t, va, va + |bytes|) then Copies(RightsIn(old(leaf)), t, va, |bytes|, o, n)
              else o.Refused? && n == 0
      ensures o.Panic? ==> freelist == [] && IsCow(old(leaf), At(t, va + n))
    {
      hide Valid, ViewOf, RightsIn, Private, Spread, AllMapped;
      o, n := Refused, 0;
      if Private(RightsIn(leaf), t, va, va + |bytes|) {
        NowSound();
        ghost var c := Now();
        o, n := CopyOut(t, va, bytes);
        PrivateSpread(npages, c, t, va, bytes, n, va + |bytes|);
      }
    }

    method TryUnmap(t: nat, lo: nat, n: nat) returns (ok: bool)
      requires Valid()
      modifies this`count, this`leaf, this`inflight, this`mem, this`freelist
      ensures Valid() && inflight == old(inflight)
      ensures Abstract() == if ok then EagerUnmap(old(Abstract()), t, lo, n) else old(Abstract())
      ensures ok <==> forall v :: lo <= v < lo + n ==> (t, v) in old(View())
    {
      ok := forall v :: lo <= v < lo + n ==> (t, v) in leaf;
      if ok {
        RightsCut(leaf, t, lo, lo + n);
        UvmUnmap(t, lo, n);
      }
    }

    method TryGrow(t: nat, oldsz: nat, newsz: nat, w: bool, x: bool, tables: nat -> nat) returns (ok: bool)
      requires Valid()
      modifies this`freelist, this`inflight, this`mem, this`count, this`kern, this`leaf
      ensures Valid() && inflight == old(inflight)
      ensures Abstract() == if ok then EagerGrow(old(Abstract()), t, oldsz, newsz, w, x) else old(Abstract())
      ensures ok <==> newsz < oldsz || (Need(tables, PagesIn(oldsz), PagesIn(newsz), 1) <= |old(freelist)|
                                        && forall v :: PagesIn(oldsz) <= v < PagesIn(newsz) ==> (t, v) !in old(View()))
    {
      ok := false;
      if forall v :: PagesIn(oldsz) <= v < PagesIn(newsz) ==> (t, v) !in leaf {
        var sz;
        ok, sz := UvmAlloc(t, oldsz, newsz, w, x, tables);
      }
    }

    /** Any run, up to its end or a panic, which happens only without free pages: every moment of it is
        sound, and every operation is a step of the reference memory and ends as the reference says. */
    method Run(ops: seq<Op>, tables: (nat, nat) -> nat) returns (rs: seq<Result>, ghost trace: seq<Moment>)
      requires Valid()
      modifies this`freelist, this`inflight, this`mem, this`count, this`kern, this`leaf
      ensures Valid() && IsRun(npages, trace, tables, ops, rs) && trace[0] == old(Now()) && trace[|rs|] == Now()
      ensures Abstract() == EagerRun(old(Abstract()), ops, rs)
      ensures |rs| < |ops| ==> rs != [] && rs[|rs| - 1].outcome.Panic? && freelist == []
    {
      hide Valid, Sound, Abstract, Abstraction, EagerStep, EagerRun, Answers;
      NowSound();
      rs, trace := [], [Now()];
      while |rs| < |ops| && (rs == [] || !rs[|rs| - 1].outcome.Panic?)
        invariant Valid() && IsRun(npages, trace, tables, ops, rs) && trace[0] == old(Now()) && trace[|rs|] == Now()
        invariant rs != [] && rs[|rs| - 1].outcome.Panic? ==> freelist == []
      {
        var j := |rs|;
        NowSound();
        var r := Perform(ops[j], TablesFor(tables, j));
        NowSound();
        rs, trace := rs + [r], trace + [Now()];
      }
      NowSound();
      RunRefines(npages, trace, tables, ops, rs, |rs|);
      assert rs[..|rs|] == rs;
    }

    /** Tables 0 and 1 after a process with one read-only page has forked. */
    static function GrowAndFork(): seq<Op> {
      [Grow(0, 0, PGSIZE, false, false), Fork(0, 1, 1)]
    }

    /** A page that is read-only and not COW stays shared after fork, and copyout writes to it.  The run grows a
        process by such a page and forks it; then a byte is copied out to the child, and the parent sees it. */
    static method SharedPageShows()
      returns (before: seq<int>, after: seq<int>, rs: seq<Result>, ghost trace: seq<Moment>, ghost last: Moment)
      ensures IsRun(1, trace, NoTables, GrowAndFork(), rs) && |rs| == 2 && rs[0].outcome.Done? && rs[1].outcome.Done? && Sound(1, last)
      ensures trace[0].leaf == map[] && (1, 0) in trace[2].leaf && Alias(trace[2].leaf, (0, 0), (1, 0))
      ensures var pte := trace[2].leaf[(1, 0)]; pte.u && !pte.w && !pte.cow
      ensures Counted(trace[2].count, trace[2].leaf, trace[2].kern) && |trace[2].mem| == |trace[2].count|
      ensures var view := ViewOf(trace[2].leaf, trace[2].mem);
              && ViewOf(last.leaf, last.mem) == Spread(trace[2].leaf, view, 1, 0, [7], 0, 1)
              && ByteIs(view, 0, 0, 0) && ByteIs(ViewOf(last.leaf, last.mem), 0, 0, 7)
      ensures before == [0] && after == [7]
    {
      hide Memory.Valid, ViewOf, RightsIn, EagerRun, Need, Spread, Abstraction, Sound, IsRun;
      var m := new Memory(1, 0);
      assert 0 in m.freelist;
      m.NowSound();
      rs, trace := m.Run(GrowAndFork(), NoTables);
      Forked(trace, rs);
      Shared(trace[2]);
      Shows(m.leaf, m.View());
      var o, done;
      o, before := m.CopyIn(0, 0, 1);
      assert ByteIs(m.View(), 0, 0 + 0, before[0]);
      o, done := m.CopyOut(1, 0, [7]);
      m.NowSound();
      last := m.Now();
      o, after := m.CopyIn(0, 0, 1);
      assert ByteIs(m.View(), 0, 0 + 0, after[0]);
    }

    static function NoTables(j: nat, v: nat): nat {
      0
    }

    static const READONLY := Rights(true, false, false, true)

    /** Both operations end well, and both tables have the page. */
    static lemma Forked(trace: seq<Moment>, rs: seq<Result>)
      requires IsRun(1, trace, NoTables, GrowAndFork(), rs) && trace[0].leaf == map[] && |trace[0].freelist| > 0
      requires |rs| < 2 ==> rs != [] && rs[|rs| - 1].outcome.Panic?
      ensures |rs| == 2 && |trace| == 3 && rs[0].outcome.Done? && rs[1].outcome.Done? && Sound(1, trace[2])
      ensures Abstraction(1, trace[2]) == Reference(map[(0, 0) := Junk(0), (1, 0) := Junk(0)], map[(0, 0) := READONLY, (1, 0) := READONLY])
    {
      hide Sound, EagerGrow, EagerFork, Need;
      assert Performs(1, trace[0], GrowAndFork()[0], TablesFor(NoTables, 0), rs[0], trace[1]);
      AllEmpty(trace[0]);
      NoNeed(0);
      NoNeed(1);
      Grown();
      assert Performs(1, trace[1], GrowAndFork()[1], TablesFor(NoTables, 1), rs[1], trace[2]);
    }

    static lemma AllEmpty(c: Moment)
      requires Sound(1, c) && c.leaf == map[]
      ensures Abstraction(1, c) == Reference(map[], map[])
    {}

    static lemma NoNeed(j: nat)
      ensures Need(TablesFor(NoTables, j), 0, 1, 1) == 1 && Need(TablesFor(NoTables, j), 0, 1, 0) == 0
      ensures PagesIn(0) == 0 && PagesIn(PGSIZE) == 1
    {
      NeedStep(TablesFor(NoTables, j), 0, 0, 1);
      NeedStep(TablesFor(NoTables, j), 0, 0, 0);
    }

    static lemma Grown()
      ensures var m := EagerGrow(Reference(map[], map[]), 0, 0, PGSIZE, false, false);
              && m.view.Keys == {(0, 0)} && ForkOk(m.view, 0, 1, 1)
              && EagerFork(m, 0, 1, 1) == Reference(map[(0, 0) := Junk(0), (1, 0) := Junk(0)], map[(0, 0) := READONLY, (1, 0) := READONLY])
    {
      NoNeed(0);
      TwoPages(Junk(0));
      TwoPages(READONLY);
    }

    static lemma TwoPages<V>(x: V)
      ensures var m := Extended<V>(map[], 0, 0, 1, x);
              && (0, 0) in m && (1, 0) !in m && m.Keys == {(0, 0)} && ForkOk(m, 0, 1, 1)
              && EagerCopy(m, 0, 1, 1) == map[(0, 0) := x, (1, 0) := x]
    {
      var m := Extended<V>(map[], 0, 0, 1, x);
      assert (0, 0) in Span(0, 0, 1) && (1, 0) in Span(1, 0, 1);
    }

    /** With one page of memory the two leaves share it; neither may be written. */
    static lemma Shared(c: Moment)
      requires Sound(1, c)
      requires Abstraction(1, c) == Reference(map[(0, 0) := Junk(0), (1, 0) := Junk(0)], map[(0, 0) := READONLY, (1, 0) := READONLY])
      ensures c.leaf.Keys == {(0, 0), (1, 0)} && Alias(c.leaf, (0, 0), (1, 0))
      ensures var pte := c.leaf[(1, 0)]; pte.u && !pte.w && !pte.cow
      ensures Counted(c.count, c.leaf, c.kern) && |c.mem| == |c.count|
      ensures ViewOf(c.leaf, c.mem) == map[(0, 0) := Junk(0), (1, 0) := Junk(0)]
      ensures Mapped(RightsIn(c.leaf), At(0, 0)) && Mapped(RightsIn(c.leaf), At(1, 0)) && At(0, 0) == (0, 0) && At(1, 0) == (1, 0)
    {
      assert RightsIn(c.leaf)[(1, 0)] == READONLY == RightsIn(c.leaf)[(0, 0)];
      assert c.leaf[(0, 0)].pa < 1 && c.leaf[(1, 0)].pa < 1;
    }

    /** A copyout to one of two leaves of a page that is not COW. */
    static lemma Shows(leaf: Leaves, view: Views)
      requires Alias(leaf, (0, 0), (1, 0)) && !leaf[(1, 0)].cow && view == map[(0, 0) := Junk(0), (1, 0) := Junk(0)]
      ensures ByteIs(view, 0, 0, 0) && ByteIs(Spread(leaf, view, 1, 0, [7], 0, 1), 0, 0, 7)
    {
      assert At(0, 0) == (0, 0) && At(1, 0) == (1, 0) && Offset(0) == 0;
      assert (0, 0) in Hit(leaf, (1, 0));
    }

    static function Junk(b: int): (pg: Page)
      ensures |pg| == PGSIZE
    {
      seq(PGSIZE, i => b)
    }
  }
}
