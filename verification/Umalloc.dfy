/** The K&R allocator of umalloc.c.  Addresses count header units; `base` lies below the heap.  The
    free list is described by its set of nodes: each points to the next higher one, the last to base. */
module Umalloc {
  import opened OptionType

  const BASE: nat := 0

  type Links = map<nat, nat>

  /** y follows x in the address-ordered cycle over F. */
  ghost predicate Succ(F: set<nat>, x: nat, y: nat) {
    y in F && if x < y then forall z :: z in F ==> !(x < z < y) else y == BASE && forall z :: z in F ==> z <= x
  }

  ghost predicate Ring(F: set<nat>, ptr: Links) {
    && BASE in F && (forall x :: x in F ==> x in ptr)
    && (forall x {:trigger Succ(F, x, ptr[x])} :: x in F ==> Succ(F, x, ptr[x]))
  }

  /** Where a block at b goes: between p and the node after it, or past the last node. */
  predicate Between(p: nat, b: nat, next: nat) {
    p < b < next || (p >= next && (b > p || b < next))
  }

  lemma SuccInsert(F: set<nat>, p: nat, b: nat, c: nat, x: nat, y: nat)
    requires Succ(F, p, c) && Succ(F, x, y) && p in F && x in F && x != p && b !in F && Between(p, b, c)
    ensures Succ(F + {b}, x, y)
  {}

  lemma RingInsert(F: set<nat>, ptr: Links, p: nat, b: nat)
    requires Ring(F, ptr) && p in F && b !in F && Between(p, b, ptr[p])
    ensures Ring(F + {b}, ptr[b := ptr[p]][p := b])
  {
    var ptr' := ptr[b := ptr[p]][p := b];
    assert Succ(F, p, ptr[p]);
    forall x | x in F + {b} ensures Succ(F + {b}, x, ptr'[x]) {
      if x != p && x != b {
        SuccInsert(F, p, b, ptr[p], x, ptr[x]);
      }
    }
  }

  lemma SuccRemove(F: set<nat>, a: nat, b: nat, x: nat, y: nat)
    requires Succ(F, a, b) && Succ(F, x, y) && a in F && x in F && x != a && x != b && b != BASE
    ensures Succ(F - {b}, x, y)
  {}

  lemma SuccSkip(F: set<nat>, a: nat, b: nat, c: nat)
    requires Succ(F, a, b) && Succ(F, b, c) && a in F && a != b && b != BASE && BASE in F
    ensures Succ(F - {b}, a, c)
  {}

  lemma RingRemove(F: set<nat>, ptr: Links, a: nat, b: nat)
    requires Ring(F, ptr) && a in F && ptr[a] == b && b != BASE
    ensures b in F && Ring(F - {b}, ptr[a := ptr[b]])
  {
    var ptr' := ptr[a := ptr[b]];
    assert Succ(F, a, b) && Succ(F, b, ptr[b]);
    forall x | x in F - {b} ensures Succ(F - {b}, x, ptr'[x]) {
      if x == a {
        SuccSkip(F, a, b, ptr[b]);
      } else {
        SuccRemove(F, a, b, x, ptr[x]);
      }
    }
  }

  lemma RingSame(F: set<nat>, ptr: Links, ptr': Links)
    requires Ring(F, ptr) && forall x :: x in F ==> x in ptr' && ptr'[x] == ptr[x]
    ensures Ring(F, ptr')
  {
    forall x | x in F ensures Succ(F, x, ptr'[x]) {
      assert Succ(F, x, ptr[x]);
    }
  }

  ghost function Above(F: set<nat>, p: nat): set<nat> {
    set z | z in F && z > p
  }

  /** The nodes met from p on until the list comes back to base. */
  ghost function Visit(F: set<nat>, ptr: Links, p: nat): seq<nat>
    requires Ring(F, ptr) && p in F
    decreases Above(F, p)
  {
    assert Succ(F, p, ptr[p]);
    if ptr[p] <= p then [p] else assert ptr[p] in Above(F, p); [p] + Visit(F, ptr, ptr[p])
  }

  /** The list is one cycle in address order: from base it meets every node once, from the lowest to
      the highest, and then base again. */
  lemma {:induction false} OneCycle(F: set<nat>, ptr: Links, p: nat)
    requires Ring(F, ptr) && p in F
    ensures var v := Visit(F, ptr, p);
            && v != [] && v[0] == p && v[|v| - 1] in F && ptr[v[|v| - 1]] == BASE
            && (forall i, j :: 0 <= i < j < |v| ==> v[i] < v[j])
            && (forall z :: z in v <==> z in F && z >= p)
    decreases Above(F, p)
  {
    assert Succ(F, p, ptr[p]);
    if ptr[p] > p {
      assert ptr[p] in Above(F, p);
      OneCycle(F, ptr, ptr[p]);
    }
  }

  /** Free blocks neither overlap nor touch. */
  ghost predicate Apart(F: set<nat>, size: Links) {
    && (forall x :: x in F ==> x in size)
    && (forall x, y {:trigger size[x], size[y]} :: x in F && y in F && x < y ==> x + size[x] < y)
    && BASE in F && size[BASE] == 0
  }

  // ----- blocks and the units they own ------------------------------------------------------------

  /** The block that a unit belongs to; base for units that are not the allocator's. */
  ghost function Own(owner: Links, u: nat): nat {
    if u in owner then owner[u] else BASE
  }

  /** Every unit got from sbrk belongs to exactly one block. */
  ghost predicate Cover(blocks: Links, owner: Links) {
    && BASE !in blocks && (forall h :: h in blocks ==> blocks[h] > 0)
    && (forall u :: u in owner ==> owner[u] != BASE)
    && (forall u: nat {:trigger Own(owner, u)} :: Own(owner, u) != BASE ==>
          Own(owner, u) in blocks && Own(owner, u) <= u < Own(owner, u) + blocks[Own(owner, u)])
    && (forall h, u: nat {:trigger blocks[h], Own(owner, u)} :: h in blocks && h <= u < h + blocks[h] ==> Own(owner, u) == h)
  }

  /** Blocks do not overlap. */
  lemma Disjoint(blocks: Links, owner: Links, a: nat, b: nat)
    requires Cover(blocks, owner) && a in blocks && b in blocks && a < b
    ensures a + blocks[a] <= b
  {
    assert Own(owner, b) == b;
  }

  ghost function Reowned(owner: Links, lo: nat, n: nat, h: nat): Links {
    map u | u in owner :: if lo <= u < lo + n then h else owner[u]
  }

  lemma SplitCover(blocks: Links, owner: Links, h: nat, a: nat)
    requires Cover(blocks, owner) && h in blocks && 0 < a < blocks[h]
    ensures h + a !in blocks
    ensures Cover(blocks[h := a][h + a := blocks[h] - a], Reowned(owner, h + a, blocks[h] - a, h + a))
  {
    var q, blocks', owner' := h + a, blocks[h := a][h + a := blocks[h] - a], Reowned(owner, h + a, blocks[h] - a, h + a);
    assert Own(owner, q) == h;
    forall u: nat ensures Own(owner', u) == if q <= u < h + blocks[h] then q else Own(owner, u) {
      SplitOwn(blocks, owner, h, a, u);
    }
    forall g, u: nat | g in blocks' && g <= u < g + blocks'[g] ensures Own(owner', u) == g {
      assert g != q ==> Own(owner, u) == g;
    }
  }

  lemma SplitOwn(blocks: Links, owner: Links, h: nat, a: nat, u: nat)
    requires Cover(blocks, owner) && h in blocks && 0 < a < blocks[h]
    ensures Own(Reowned(owner, h + a, blocks[h] - a, h + a), u) == if h + a <= u < h + blocks[h] then h + a else Own(owner, u)
  {
    assert h <= u < h + blocks[h] ==> Own(owner, u) == h && u in owner;
  }

  lemma MergeCover(blocks: Links, owner: Links, a: nat, b: nat)
    requires Cover(blocks, owner) && a in blocks && b in blocks && a + blocks[a] == b
    ensures Cover((blocks - {b})[a := blocks[a] + blocks[b]], Reowned(owner, b, blocks[b], a))
  {
    var blocks', owner' := (blocks - {b})[a := blocks[a] + blocks[b]], Reowned(owner, b, blocks[b], a);
    forall u: nat ensures Own(owner', u) == if b <= u < b + blocks[b] then a else Own(owner, u) {
      if b <= u < b + blocks[b] {
        assert Own(owner, u) == b;
      }
    }
    forall g, u: nat | g in blocks' && g <= u < g + blocks'[g] ensures Own(owner', u) == g {
      if g != a || u < b {
        assert Own(owner, u) == g;
      }
    }
  }

  ghost function UnitsFrom(lo: nat, n: nat): (r: set<nat>)
    ensures forall u :: u in r <==> lo <= u < lo + n
  {
    if n == 0 then {} else UnitsFrom(lo, n - 1) + {lo + n - 1}
  }

  ghost function Added(owner: Links, lo: nat, n: nat): Links {
    map u | u in owner.Keys + UnitsFrom(lo, n) :: if u in owner then owner[u] else lo
  }

  lemma AddCover(blocks: Links, owner: Links, h: nat, n: nat)
    requires Cover(blocks, owner) && n > 0 && h != BASE && forall u :: u in owner ==> u < h
    ensures h !in blocks && Cover(blocks[h := n], Added(owner, h, n))
  {
    var blocks', owner' := blocks[h := n], Added(owner, h, n);
    assert h in blocks ==> Own(owner, h) == h;
    forall u: nat ensures Own(owner', u) == if h <= u < h + n then h else Own(owner, u) {
      assert u in owner' <==> u in owner || h <= u < h + n;
    }
    forall g, u: nat | g in blocks' && g <= u < g + blocks'[g] ensures Own(owner', u) == g {
      assert g != h ==> Own(owner, u) == g;
    }
  }

  // ----- free -------------------------------------------------------------------------------------

  /** The sizes after block b is put back after p: it swallows next when it touches it (m1), and p
      swallows it when p touches it (m2). */
  function Joined(size: Links, p: nat, b: nat, next: nat, m1: bool, m2: bool): Links
    requires p in size && b in size && next in size
  {
    var size1 := if m1 then size[b := size[b] + size[next]] else size;
    if m2 then size1[p := size1[p] + size1[b]] else size1
  }

  ghost function JoinedNodes(F: set<nat>, b: nat, next: nat, m1: bool, m2: bool): set<nat> {
    F + {b} - (if m1 then {next} else {}) - (if m2 then {b} else {})
  }

  lemma JoinedApart(F: set<nat>, size: Links, p: nat, b: nat, next: nat, m1: bool, m2: bool)
    requires Apart(F, size) && p in F && b !in F && b in size && size[b] > 0 && p != b && Succ(F, p, next) && Between(p, b, next)
    requires p + size[p] <= b && (next > b ==> b + size[b] <= next)
    requires m1 == (b + size[b] == next) && m2 == (p + size[p] == b)
    ensures p != BASE || !m2
    ensures Apart(JoinedNodes(F, b, next, m1, m2), Joined(size, p, b, next, m1, m2))
  {
    var F', size' := JoinedNodes(F, b, next, m1, m2), Joined(size, p, b, next, m1, m2);
    forall x, y | x in F' && y in F' && x < y ensures x + size'[x] < y {
      JoinedPair(F, size, p, b, next, m1, m2, x, y);
    }
  }

  lemma JoinedPair(F: set<nat>, size: Links, p: nat, b: nat, next: nat, m1: bool, m2: bool, x: nat, y: nat)
    requires Apart(F, size) && p in F && b !in F && b in size && size[b] > 0 && Succ(F, p, next) && Between(p, b, next)
    requires p + size[p] <= b && (next > b ==> b + size[b] <= next)
    requires m1 == (b + size[b] == next) && m2 == (p + size[p] == b)
    requires var F' := JoinedNodes(F, b, next, m1, m2); x in F' && y in F' && x < y
    ensures x + Joined(size, p, b, next, m1, m2)[x] < y
  {}

  /** Free and live blocks are the blocks, and headers tell their sizes. */
  ghost predicate Sorted(F: set<nat>, live: set<nat>, size: Links, blocks: Links) {
    && (forall h :: h in blocks <==> (h in F && h != BASE) || h in live)
    && (forall h :: h in F ==> h !in live)
    && (forall h {:trigger blocks[h]} :: h in blocks ==> h in size && size[h] == blocks[h])
  }

  function JoinedLinks(ptr: Links, p: nat, b: nat, next: nat, m1: bool, m2: bool): Links
    requires p in ptr && next in ptr
  {
    var ptr1 := if m1 then ptr[b := ptr[next]] else ptr[b := next];
    if m2 then ptr1[p := ptr1[b]] else ptr1[p := b]
  }

  /** Putting b after p, in place of the next node. */
  lemma RingReplace(F: set<nat>, ptr: Links, p: nat, b: nat, next: nat)
    requires Ring(F, ptr) && p in F && b !in F && next == ptr[p] && p < b < next
    ensures next in F && Ring(F + {b} - {next}, ptr[b := ptr[next]][p := b])
  {
    assert Succ(F, p, next);
    RingInsert(F, ptr, p, b);
    var F1, ptr1 := F + {b}, ptr[b := next][p := b];
    RingRemove(F1, ptr1, b, next);
    RingSame(F1 - {next}, ptr1[b := ptr1[next]], ptr[b := ptr[next]][p := b]);
  }

  /** Taking b out again after p. */
  lemma RingDrop(F: set<nat>, ptr: Links, p: nat, b: nat, after: nat)
    requires Ring(F, ptr[b := after][p := b]) && p in F && b != BASE && p != b
    ensures Ring(F - {b}, ptr[b := after][p := after])
  {
    var ptr1 := ptr[b := after][p := b];
    RingRemove(F, ptr1, p, b);
    RingSame(F - {b}, ptr1[p := ptr1[b]], ptr[b := after][p := after]);
  }

  lemma JoinedRing(F: set<nat>, ptr: Links, p: nat, b: nat, next: nat, m1: bool, m2: bool)
    requires Ring(F, ptr) && p in F && b !in F && next == ptr[p] && Between(p, b, next) && (m1 ==> next > b)
    ensures next in F && Ring(JoinedNodes(F, b, next, m1, m2), JoinedLinks(ptr, p, b, next, m1, m2))
  {
    assert Succ(F, p, next);
    var F1 := F + {b};
    if m1 {
      RingReplace(F, ptr, p, b, next);
      F1 := F1 - {next};
    } else {
      RingInsert(F, ptr, p, b);
    }
    if m2 {
      RingDrop(F1, ptr, p, b, if m1 then ptr[next] else next);
    }
    assert JoinedNodes(F, b, next, m1, m2) == if m2 then F1 - {b} else F1;
  }

  ghost function JoinedBlocks(blocks: Links, p: nat, b: nat, next: nat, m1: bool, m2: bool): Links
    requires b in blocks && p != b && (m1 ==> next in blocks && next != p) && (m2 ==> p in blocks)
  {
    var blocks1 := if m1 then (blocks - {next})[b := blocks[b] + blocks[next]] else blocks;
    if m2 then (blocks1 - {b})[p := blocks1[p] + blocks1[b]] else blocks1
  }

  /** Joining moves units between blocks and loses none. */
  lemma JoinedCover(blocks: Links, owner: Links, p: nat, b: nat, next: nat, m1: bool, m2: bool) returns (owner': Links)
    requires Cover(blocks, owner) && b in blocks && p != b && (m1 ==> next in blocks && next != p) && (m2 ==> p in blocks)
    requires m1 ==> b + blocks[b] == next
    requires m2 ==> p + blocks[p] == b
    ensures Cover(JoinedBlocks(blocks, p, b, next, m1, m2), owner') && owner'.Keys == owner.Keys
  {
    hide Cover;
    var blocks1;
    blocks1, owner' := blocks, owner;
    if m1 {
      MergeCover(blocks, owner, b, next);
      blocks1, owner' := (blocks - {next})[b := blocks[b] + blocks[next]], Reowned(owner, next, blocks[next], b);
    }
    if m2 {
      MergeCover(blocks1, owner', p, b);
      owner' := Reowned(owner', b, blocks1[b], p);
    }
  }

  lemma JoinedSorted(F: set<nat>, live: set<nat>, size: Links, blocks: Links, p: nat, b: nat, next: nat, m1: bool, m2: bool)
    requires Sorted(F, live, size, blocks) && b in live && p in F && next in F && BASE in F && BASE !in blocks
    requires p in size && next in size && (m1 ==> next > b && next != p) && (m2 ==> p != BASE)
    ensures Sorted(JoinedNodes(F, b, next, m1, m2), live - {b}, Joined(size, p, b, next, m1, m2), JoinedBlocks(blocks, p, b, next, m1, m2))
  {}

  /** Putting a live block back leaves one ordered list of blocks that do not touch. */
  lemma JoinList(F: set<nat>, live: set<nat>, ptr: Links, size: Links, blocks: Links, owner: Links, p: nat, b: nat, m1: bool, m2: bool)
    requires Sorted(F, live, size, blocks) && Cover(blocks, owner) && Ring(F, ptr) && Apart(F, size)
    requires b in live && p in F && Between(p, b, ptr[p]) && b in size && ptr[p] in F
    requires m1 == (b + size[b] == ptr[p]) && m2 == (p + size[p] == b)
    ensures ptr[p] in ptr && Ring(JoinedNodes(F, b, ptr[p], m1, m2), JoinedLinks(ptr, p, b, ptr[p], m1, m2))
    ensures Apart(JoinedNodes(F, b, ptr[p], m1, m2), Joined(size, p, b, ptr[p], m1, m2))
    ensures (m1 ==> ptr[p] > b && ptr[p] != p) && (m2 ==> p != BASE) && p != b
  {
    var next: nat := ptr[p];
    assert Succ(F, p, next) && blocks[b] == size[b];
    if p != BASE {
      Disjoint(blocks, owner, p, b);
      assert blocks[p] == size[p];
    }
    if next > b {
      Disjoint(blocks, owner, b, next);
    }
    JoinedApart(F, size, p, b, next, m1, m2);
    JoinedRing(F, ptr, p, b, next, m1, m2);
  }

  /** The same for the blocks; live blocks keep their sizes and every unit keeps a block. */
  lemma JoinKeeps(F: set<nat>, live: set<nat>, ptr: Links, size: Links, blocks: Links, owner: Links, p: nat, b: nat, next: nat,
                  m1: bool, m2: bool, ptr': Links, size': Links)
    returns (F': set<nat>, blocks': Links, owner': Links, f: nat)
    requires Sorted(F, live, size, blocks) && Cover(blocks, owner) && Ring(F, ptr) && Apart(F, size)
    requires b in live && p in F && next == ptr[p] && Between(p, b, next) && b in size && next in F
    requires m1 == (b + size[b] == next) && m2 == (p + size[p] == b)
    requires ptr' == JoinedLinks(ptr, p, b, next, m1, m2) && size' == Joined(size, p, b, next, m1, m2)
    ensures p in F' && Sorted(F', live - {b}, size', blocks') && Cover(blocks', owner') && Ring(F', ptr') && Apart(F', size')
    ensures owner'.Keys == owner.Keys
    ensures forall h :: h in live - {b} ==> h in size' && h in size && size'[h] == size[h]
    ensures f in F' && size'[f] >= size[b]
  {
    f := if m2 then p else b;
    assert blocks[b] == size[b];
    JoinList(F, live, ptr, size, blocks, owner, p, b, m1, m2);
    JoinedSorted(F, live, size, blocks, p, b, next, m1, m2);
    F', blocks' := JoinedNodes(F, b, next, m1, m2), JoinedBlocks(blocks, p, b, next, m1, m2);
    owner' := JoinedCover(blocks, owner, p, b, next, m1, m2);
    forall h | h in live - {b} ensures h in size' && h in size && size'[h] == size[h] {
      assert blocks[h] == size[h];
    }
  }

  // ----- malloc ------------------------------------------------------------------------------------

  /** The nodes from p on, round the cycle, up to and including `last`. */
  ghost function Round(F: set<nat>, p: nat, last: nat): set<nat> {
    set z | z in F && if p <= last then p <= z <= last else z >= p || z <= last
  }

  lemma RoundNext(F: set<nat>, p: nat, next: nat, last: nat)
    requires Succ(F, p, next) && p in F && last in F && BASE in F && p != last
    ensures Round(F, next, last) == Round(F, p, last) - {p}
  {}

  lemma RoundWhole(F: set<nat>, last: nat, first: nat)
    requires Succ(F, last, first) && last in F
    ensures Round(F, first, last) == F
  {}

  /** A block of just the right size leaves the list. */
  lemma TakeWhole(F: set<nat>, live: set<nat>, ptr: Links, size: Links, blocks: Links, prev: nat, p: nat)
    requires Sorted(F, live, size, blocks) && Ring(F, ptr) && Apart(F, size) && prev in F && ptr[prev] == p && p != BASE && p in F
    ensures p in ptr && prev in F - {p} && Sorted(F - {p}, live + {p}, size, blocks)
    ensures Ring(F - {p}, ptr[prev := ptr[p]]) && Apart(F - {p}, size)
  {
    assert Succ(F, prev, p);
    RingRemove(F, ptr, prev, p);
  }

  /** The tail of a larger block is taken; the list keeps its nodes. */
  lemma TakeTail(F: set<nat>, live: set<nat>, size: Links, blocks: Links, owner: Links, p: nat, n: nat)
    returns (size1: Links, blocks1: Links, owner1: Links)
    requires Sorted(F, live, size, blocks) && Apart(F, size) && Cover(blocks, owner) && p in F && p != BASE && 0 < n < size[p]
    ensures var q := p + size[p] - n;
            q !in live && size1 == size[p := size[p] - n][q := n] && Sorted(F, live + {q}, size1, blocks1)
    ensures Apart(F, size1) && Cover(blocks1, owner1) && owner1.Keys == owner.Keys
    ensures forall h :: h in live ==> h in size1 && h in size && size1[h] == size[h]
  {
    assert blocks[p] == size[p];
    var a := size[p] - n;
    SplitCover(blocks, owner, p, a);
    size1, blocks1, owner1 := size[p := a][p + a := n], blocks[p := a][p + a := n], Reowned(owner, p + a, n, p + a);
    forall h | h in live ensures h in size1 && h in size && size1[h] == size[h] {
      assert blocks[h] == size[h];
    }
  }

  /** New memory above everything else. */
  lemma TakeNew(F: set<nat>, live: set<nat>, size: Links, blocks: Links, owner: Links, brk: nat, h: nat, n: nat)
    returns (size1: Links, blocks1: Links, owner1: Links)
    requires Sorted(F, live, size, blocks) && Apart(F, size) && Cover(blocks, owner) && n > 0 && BASE < brk <= h
    requires forall u :: u in owner ==> u < brk
    ensures size1 == size[h := n] && h !in live && Sorted(F, live + {h}, size1, blocks1) && Apart(F, size1) && Cover(blocks1, owner1)
    ensures owner1.Keys == owner.Keys + UnitsFrom(h, n) && forall u :: u in owner1 ==> u < h + n
    ensures forall g :: g in live ==> g in size1 && g in size && size1[g] == size[g]
  {
    AddCover(blocks, owner, h, n);
    forall g | g in blocks ensures g < h && size[g] == blocks[g] {
      assert Own(owner, g) == g;
    }
    size1, blocks1, owner1 := size[h := n], blocks[h := n], Added(owner, h, n);
  }

  class Heap {
    var ptr: Links
    var size: Links
    var freep: Option<nat>
    var brk: nat                 // what sbrk hands out next lies at or above this

    ghost var F: set<nat>        // the nodes of the free list
    ghost var live: set<nat>     // the headers of allocated blocks
    ghost var blocks: Links
    ghost var owner: Links

    ghost predicate Valid()
      reads this
    {
      && Sorted(F, live, size, blocks) && Cover(blocks, owner) && (forall u :: u in owner ==> u < brk) && brk > BASE
      && if freep == None then F == {} && live == {} else freep.value in F && Ring(F, ptr) && Apart(F, size)
    }

    constructor (start: nat)
      requires start > BASE
      ensures Valid() && freep == None && live == {} && owner == map[] && brk == start
    {
      ptr, size, freep, brk := map[], map[], None, start;
      F, live, blocks, owner := {}, {}, map[], map[];
    }

    /** Where the search of free stops: the free node after which block b belongs. */
    method FindPlace(b: nat) returns (p: nat)
      requires Valid() && freep.Some? && b !in F && b > BASE
      ensures p in F && Between(p, b, ptr[p])
    {
      p := freep.value;
      while !Between(p, b, ptr[p])
        invariant p in F
        decreases ToGo(F, p, b)
      {
        Nearer(F, p, ptr[p], b);
        p := ptr[p];
      }
    }

    static lemma Nearer(F: set<nat>, p: nat, next: nat, b: nat)
      requires Succ(F, p, next) && p in F && b !in F && BASE in F && !Between(p, b, next)
      ensures ToGo(F, next, b) < ToGo(F, p, b)
    {
      assert next in ToGo(F, p, b) && next !in ToGo(F, next, b);
    }

    /** The nodes that the search from p can still pass. */
    static ghost function ToGo(F: set<nat>, p: nat, b: nat): set<nat> {
      set z | z in F && if p < b then p < z < b else z > p || z < b
    }

    /** free: the block goes back to the list, joined with the neighbours it touches. */
    method Free(b: nat) returns (ghost f: nat)
      requires Valid() && b in live
      modifies this`ptr, this`size, this`freep, this`F, this`live, this`blocks, this`owner
      ensures Valid() && live == old(live) - {b} && owner.Keys == old(owner.Keys) && freep.Some?
      ensures forall h :: h in live ==> h in size && h in old(size) && size[h] == old(size)[h]
      ensures f in F && f in size && b in old(size) && size[f] >= old(size)[b]
    {
      var p := FindPlace(b);
      f := Link(b, p);
    }

    /** The end of free, at its place in the list. */
    method Link(b: nat, p: nat) returns (ghost f: nat)
      requires Valid() && freep.Some? && b in live && p in F && Between(p, b, ptr[p])
      modifies this`ptr, this`size, this`freep, this`F, this`live, this`blocks, this`owner
      ensures Valid() && live == old(live) - {b} && owner.Keys == old(owner.Keys) && freep == Some(p)
      ensures forall h :: h in live ==> h in size && h in old(size) && size[h] == old(size)[h]
      ensures f in F && f in size && b in old(size) && size[f] >= old(size)[b]
    {
      var next := ptr[p];
      ghost var ptr1, size1, F1, blocks1, owner1;
      ptr1, size1, F1, blocks1, owner1, f := Settle(b, p, next);
      Splice(b, p, next, ptr1, size1);
      freep := Some(p);
      Commit(F1, live - {b}, blocks1, owner1);
    }

    ghost method Commit(F1: set<nat>, live1: set<nat>, blocks1: Links, owner1: Links)
      requires Sorted(F1, live1, size, blocks1) && Cover(blocks1, owner1) && (forall u :: u in owner1 ==> u < brk) && brk > BASE
      requires freep.Some? && freep.value in F1 && Ring(F1, ptr) && Apart(F1, size)
      modifies this`F, this`live, this`blocks, this`owner
      ensures Valid() && F == F1 && live == live1 && blocks == blocks1 && owner == owner1
    {
      F, live, blocks, owner := F1, live1, blocks1, owner1;
    }

    /** What the list and the blocks are going to be. */
    lemma Settle(b: nat, p: nat, next: nat)
      returns (ptr1: Links, size1: Links, F1: set<nat>, blocks1: Links, owner1: Links, f: nat)
      requires Valid() && freep.Some? && b in live && p in F && Between(p, b, ptr[p]) && next == ptr[p]
      ensures p in size && b in size && next in size && next in ptr && p != b
      ensures ptr1 == JoinedLinks(ptr, p, b, next, b + size[b] == next, p + size[p] == b)
      ensures size1 == Joined(size, p, b, next, b + size[b] == next, p + size[p] == b)
      ensures p in F1 && Sorted(F1, live - {b}, size1, blocks1) && Cover(blocks1, owner1) && Ring(F1, ptr1) && Apart(F1, size1)
      ensures owner1.Keys == owner.Keys
      ensures forall h :: h in live - {b} ==> h in size1 && h in size && size1[h] == size[h]
      ensures f in F1 && f in size1 && size1[f] >= size[b]
    {
      assert Succ(F, p, ptr[p]);
      assert blocks[b] == size[b];
      var m1, m2 := b + size[b] == next, p + size[p] == b;
      ptr1, size1 := JoinedLinks(ptr, p, b, next, m1, m2), Joined(size, p, b, next, m1, m2);
      F1, blocks1, owner1, f := JoinKeeps(F, live, ptr, size, blocks, owner, p, b, next, m1, m2, ptr1, size1);
    }

    /** The header updates of free. */
    method Splice(b: nat, p: nat, next: nat, ghost ptr1: Links, ghost size1: Links)
      requires p in ptr && next in ptr && p in size && b in size && next in size && p != b
      requires ptr1 == JoinedLinks(ptr, p, b, next, b + size[b] == next, p + size[p] == b)
      requires size1 == Joined(size, p, b, next, b + size[b] == next, p + size[p] == b)
      modifies this`ptr, this`size
      ensures ptr == ptr1 && size == size1
    {
      if b + size[b] == next {
        size := size[b := size[b] + size[next]];
        ptr := ptr[b := ptr[next]];
      } else {
        ptr := ptr[b := next];
      }
      if p + size[p] == b {
        size := size[p := size[p] + size[b]];
        ptr := ptr[p := ptr[b]];
      } else {
        ptr := ptr[p := b];
      }
    }

    /** What morecore passes to sbrk for some units: the number of bytes, as an int. */
    static function SbrkArg(units: nat): int {
      var b := 16 * units % 0x1_0000_0000;
      if b < 0x8000_0000 then b else b - 0x1_0000_0000
    }

    /** sbrk is asked for the memory that malloc counts on. */
    static predicate Asked(units: nat) {
      SbrkArg(units) == 16 * units
    }

    /** A unit lies below a break, given in bytes. */
    static predicate Below(u: nat, end: int) {
      16 * (u + 1) <= end
    }

    /** sbrk moves the break by what it is asked for.  All units that morecore then counts as new memory, from the old
        break h on, lie below the break if and only if sbrk was asked for their size, hence if and only if
        that is less than 2 GiB. */
    static lemma SbrkIff(h: nat, units: nat)
      requires units > 0
      ensures (forall u :: u in UnitsFrom(h, units) ==> Below(u, 16 * h + SbrkArg(units))) <==> Asked(units)
      ensures Asked(units) <==> 16 * units < 0x8000_0000
    {
      if !Asked(units) {
        assert h + units - 1 in UnitsFrom(h, units) && !Below(h + units - 1, 16 * h + SbrkArg(units));
      }
    }

    /** Larger requests are made: the first asks sbrk to shrink the process, the second for 16 bytes. */
    static lemma SbrkWraps()
      ensures SbrkArg(Request(Units(0x8000_0000))) < 0 && SbrkArg(Request(Units(0xFFFF_FFFF))) == 16
    {}

    /** morecore: new memory from sbrk, `gap` units above what was handed out before, or none. */
    method Morecore(units: nat, gap: Option<nat>) returns (ok: bool, ghost f: nat, ghost lo: nat)
      requires Valid() && freep.Some? && units > 0 && Asked(Request(units))
      modifies this`ptr, this`size, this`freep, this`brk, this`F, this`live, this`blocks, this`owner
      ensures Valid() && live == old(live) && freep.Some? && (ok <==> gap.Some?)
      ensures forall h :: h in live ==> h in size && h in old(size) && size[h] == old(size)[h]
      ensures ok ==> f in F && f in size && size[f] >= units && lo >= old(brk)
                     && owner.Keys == old(owner.Keys) + UnitsFrom(lo, if units < 4096 then 4096 else units)
                     && forall u :: u in UnitsFrom(lo, Request(units)) ==> Below(u, 16 * brk)
      ensures !ok ==> owner.Keys == old(owner.Keys) && brk == old(brk) && F == old(F) && ptr == old(ptr) && size == old(size) && freep == old(freep)
    {
      f, lo := 0, 0;
      ok := gap.Some?;
      if ok {
        var h := Sbrk(Request(units), gap.value);
        lo := h;
        f := Free(h);
      }
    }

    /** morecore asks for the units wanted, but for no fewer than 4096. */
    static function Request(units: nat): (r: nat)
      ensures r >= 4096 && r >= units && (r == 4096 || r == units)
    {
      if units < 4096 then 4096 else units
    }

    /** sbrk, and the header of the new block. */
    method Sbrk(n: nat, gap: nat) returns (h: nat)
      requires Valid() && freep.Some? && n > 0 && Asked(n)
      modifies this`size, this`brk, this`F, this`live, this`blocks, this`owner
      ensures Valid() && F == old(F) && h >= old(brk) && h !in old(live) && live == old(live) + {h} && h in size && size[h] == n
      ensures forall g :: g in old(live) ==> g in size && g in old(size) && size[g] == old(size)[g]
      ensures owner.Keys == old(owner.Keys) + UnitsFrom(h, n) && 16 * brk == 16 * h + SbrkArg(n)
    {
      h := brk + gap;
      ghost var size1, blocks1, owner1 := TakeNew(F, live, size, blocks, owner, brk, h, n);
      brk := h + SbrkArg(n) / 16;
      size := size[h := n];
      Commit(F, live + {h}, blocks1, owner1);
    }

    /** malloc hands out node p, which follows prev and is large enough. */
    method Take(prev: nat, p: nat, n: nat) returns (r: nat)
      requires Valid() && freep.Some? && prev in F && p == ptr[prev] && p in F && 0 < n <= size[p]
      modifies this`ptr, this`size, this`freep, this`F, this`live, this`blocks, this`owner
      ensures Valid() && live == old(live) + {r} && r !in old(live) && r in size && size[r] == n && owner.Keys == old(owner.Keys)
      ensures forall h :: h in old(live) ==> h in size && h in old(size) && size[h] == old(size)[h]
      ensures r == p + old(size)[p] - n && F == (if old(size)[p] == n then old(F) - {p} else old(F))
      ensures forall h :: h in F && h != p ==> h in size && h in old(size) && size[h] == old(size)[h]
      ensures p in F ==> p in size && size[p] == old(size)[p] - n
    {
      assert forall h :: h in live ==> blocks[h] == size[h];
      if size[p] == n {
        TakeWhole(F, live, ptr, size, blocks, prev, p);
        ptr := ptr[prev := ptr[p]];
        freep := Some(prev);
        Commit(F - {p}, live + {p}, blocks, owner);
        r := p;
      } else {
        r := TakeFromTail(prev, p, n);
      }
    }

    method TakeFromTail(prev: nat, p: nat, n: nat) returns (r: nat)
      requires Valid() && freep.Some? && prev in F && p in F && 0 < n < size[p]
      modifies this`size, this`freep, this`F, this`live, this`blocks, this`owner
      ensures Valid() && live == old(live) + {r} && r !in old(live) && r in size && size[r] == n && owner.Keys == old(owner.Keys)
      ensures forall h :: h in old(live) ==> h in size && h in old(size) && size[h] == old(size)[h]
      ensures r == p + old(size)[p] - n && F == old(F) && p in size && size[p] == old(size)[p] - n
      ensures forall h :: h in F && h != p ==> h in size && h in old(size) && size[h] == old(size)[h]
    {
      hide Cover, Ring, Apart;
      NotBase(F, live, size, blocks, p);
      ghost var size1, blocks1, owner1 := TakeTail(F, live, size, blocks, owner, p, n);
      r := p + size[p] - n;
      SplitHeader(p, r, n, size1);
      freep := Some(prev);
      Commit(F, live + {r}, blocks1, owner1);
    }

    static lemma NotBase(F: set<nat>, live: set<nat>, size: Links, blocks: Links, p: nat)
      requires Sorted(F, live, size, blocks) && Apart(F, size) && p in F && size[p] > 0
      ensures p != BASE
    {}

    method SplitHeader(p: nat, r: nat, n: nat, ghost size1: Links)
      requires p in size && n <= size[p] && size1 == size[p := size[p] - n][r := n]
      modifies this`size
      ensures size == size1
    {
      size := size[p := size[p] - n];
      size := size[r := n];
    }

    /** The first call of malloc makes a list of just `base`. */
    method Start()
      requires Valid()
      modifies this`ptr, this`size, this`freep, this`F, this`live, this`blocks, this`owner
      ensures Valid() && freep.Some? && live == old(live) && owner == old(owner)
      ensures forall h :: h in old(F) ==> h in F && h in size && h in old(size) && size[h] == old(size)[h]
      ensures forall h :: h in live ==> h in size && h in old(size) && size[h] == old(size)[h]
    {
      assert forall h :: h in live ==> blocks[h] == size[h];
      if freep == None {
        ptr := ptr[BASE := BASE];
        size := size[BASE := 0];
        freep := Some(BASE);
        assert Succ({BASE}, BASE, ptr[BASE]);
        Commit({BASE}, live, blocks, owner);
      }
    }

    /** No free block is large enough. */
    static predicate NoneFits(free: set<nat>, size: Links, n: nat) {
      forall z :: z in free ==> z in size && size[z] < n
    }

    /** One round of malloc's loop over the list, from the node after freep to freep. */
    method Search(n: nat) returns (found: bool, prev: nat, p: nat)
      requires Valid() && freep.Some?
      ensures prev in F && p == ptr[prev] && p in F && (found ==> size[p] >= n)
      ensures !found ==> forall z :: z in F ==> size[z] < n
    {
      prev := freep.value;
      p := ptr[prev];
      assert Succ(F, prev, p);
      RoundWhole(F, prev, p);
      while size[p] < n && p != freep.value
        invariant prev in F && p == ptr[prev] && p in F
        invariant forall z :: z in F && z !in Round(F, p, freep.value) ==> size[z] < n
        decreases Round(F, p, freep.value)
      {
        assert Succ(F, p, ptr[p]);
        RoundNext(F, p, ptr[p], freep.value);
        prev := p;
        p := ptr[p];
      }
      found := size[p] >= n;
    }

    /** malloc: a block of the units asked for, or None when sbrk refuses.  sbrk succeeds at most once.  When the
        heap has to grow, the request must fit the int that sbrk takes. */
    method Malloc(nbytes: nat, gap: Option<nat>) returns (r: Option<nat>, ghost grown: nat, ghost lo: nat)
      requires Valid() && (NoneFits(F, size, Units(nbytes)) ==> Asked(Request(Units(nbytes))))
      modifies this`ptr, this`size, this`freep, this`brk, this`F, this`live, this`blocks, this`owner
      ensures Valid() && (r == None ==> live == old(live) && gap == None) && grown <= 1
      ensures r.Some? ==> r.value !in old(live) && live == old(live) + {r.value} && r.value in size && size[r.value] == Units(nbytes)
      ensures forall h :: h in old(live) ==> h in size && h in old(size) && size[h] == old(size)[h]
      ensures owner.Keys == if grown == 1 then old(owner.Keys) + UnitsFrom(lo, Request(Units(nbytes))) else old(owner.Keys)
      ensures grown == 1 ==> lo >= old(brk)
      ensures r == None || grown == 1 ==> NoneFits(old(F), old(size), Units(nbytes))
    {
      Start();
      r := None;
      var found, prev, p;
      found, prev, p, grown, lo := Find(Units(nbytes), gap);
      if found {
        var q := Take(prev, p, Units(nbytes));
        r := Some(q);
      }
    }

    /** malloc's loop: rounds over the list, with a call of morecore after each that finds nothing. */
    method Find(n: nat, gap: Option<nat>) returns (found: bool, prev: nat, p: nat, ghost grown: nat, ghost lo: nat)
      requires Valid() && freep.Some? && n > 0 && (NoneFits(F, size, n) ==> Asked(Request(n)))
      modifies this`ptr, this`size, this`freep, this`brk, this`F, this`live, this`blocks, this`owner
      ensures Valid() && freep.Some? && live == old(live) && grown <= 1 && (grown == 1 ==> found && lo >= old(brk))
      ensures if found then prev in F && p == ptr[prev] && p in F && size[p] >= n else gap == None
      ensures forall h :: h in live ==> h in size && h in old(size) && size[h] == old(size)[h]
      ensures owner.Keys == if grown == 1 then old(owner.Keys) + UnitsFrom(lo, Request(n)) else old(owner.Keys)
      ensures !found || grown == 1 ==> NoneFits(old(F), old(size), n)
    {
      grown, lo := 0, 0;
      assert forall h :: h in live ==> blocks[h] == size[h];
      found, prev, p := Search(n);
      var refused := false;
      while !found && !refused
        invariant Valid() && freep.Some? && live == old(live) && grown <= 1 && (grown == 1 ==> found && lo >= old(brk))
        invariant if found then prev in F && p == ptr[prev] && p in F && size[p] >= n else refused ==> gap == None
        invariant forall h :: h in live ==> h in size && h in old(size) && size[h] == old(size)[h]
        invariant owner.Keys == if grown == 1 then old(owner.Keys) + UnitsFrom(lo, Request(n)) else old(owner.Keys)
        invariant grown == 0 ==> brk == old(brk)
        invariant !found || grown == 1 ==> NoneFits(old(F), old(size), n)
        decreases !found && !refused
      {
        var ok;
        ok, found, prev, p, lo := Retry(n, gap);
        refused := !ok;
        grown := if ok then grown + 1 else grown;
      }
    }

    /** morecore and another round, which finds the new block if nothing before it. */
    method Retry(n: nat, gap: Option<nat>) returns (ok: bool, found: bool, prev: nat, p: nat, ghost lo: nat)
      requires Valid() && freep.Some? && n > 0 && Asked(Request(n))
      modifies this`ptr, this`size, this`freep, this`brk, this`F, this`live, this`blocks, this`owner
      ensures Valid() && freep.Some? && live == old(live) && ok == gap.Some? && (ok <==> found)
      ensures found ==> prev in F && p == ptr[prev] && p in F && size[p] >= n && lo >= old(brk)
      ensures !ok ==> brk == old(brk)
      ensures forall h :: h in live ==> h in size && h in old(size) && size[h] == old(size)[h]
      ensures owner.Keys == if ok then old(owner.Keys) + UnitsFrom(lo, Request(n)) else old(owner.Keys)
    {
      ghost var f;
      ok, f, lo := Morecore(n, gap);
      found, prev, p := false, 0, 0;
      if ok {
        found, prev, p := Search(n);
      }
    }

    static function Units(nbytes: nat): (n: nat)
      ensures n > 0 && (n - 1) * 16 >= nbytes && (n - 1) * 16 < nbytes + 16
    {
      (nbytes + 16 - 1) / 16 + 1
    }
  }
}
