/** The rings of a split virtqueue (section 2.6 of virtio v1.1): eight slots and 16-bit free-running
    indices. */
module Ring {
  const NUM: nat := 8
  const U16: nat := 0x1_0000

  function Inc(i: nat): (r: nat)
    ensures r < 0x1_0000 && (i < 0xffff ==> r == i + 1) && (i == 0xffff ==> r == 0)
  {
    (i + 1) % U16
  }

  /** The entries of a ring from index lo on, up to index hi. */
  ghost predicate Window(ring: seq<nat>, lo: nat, hi: nat, q: seq<nat>) {
    && |ring| == NUM && |q| <= NUM && lo < U16 && hi == (lo + |q|) % U16
    && forall k {:trigger q[k]} :: 0 <= k < |q| ==> ring[(lo + k) % NUM] == q[k]
  }

  lemma SameSlot(lo: nat, n: nat)
    ensures (lo + n) % U16 % NUM == (lo + n) % NUM
  {
    assert (lo + n) % U16 == lo + n - (lo + n) / U16 * U16;
  }

  lemma OtherSlot(lo: nat, k: nat, n: nat)
    requires k < n < NUM
    ensures (lo + k) % NUM != (lo + n) % NUM
  {}

  /** The writer stores an entry and then moves its index. */
  lemma Push(ring: seq<nat>, lo: nat, hi: nat, q: seq<nat>, h: nat)
    requires Window(ring, lo, hi, q) && |q| < NUM
    ensures Window(ring[hi % NUM := h], lo, Inc(hi), q + [h])
  {
    SameSlot(lo, |q|);
    assert Inc(hi) == (lo + |q| + 1) % U16;
    var ring' := ring[hi % NUM := h];
    forall k | 0 <= k < |q + [h]| ensures ring'[(lo + k) % NUM] == (q + [h])[k] {
      if k < |q| {
        OtherSlot(lo, k, |q|);
        assert ring[(lo + k) % NUM] == q[k];
      }
    }
  }

  /** The reader takes the oldest entry; the indices differ exactly when there is one. */
  lemma Pop(ring: seq<nat>, lo: nat, hi: nat, q: seq<nat>)
    requires Window(ring, lo, hi, q)
    ensures lo == hi <==> q == []
    ensures q != [] ==> ring[lo % NUM] == q[0] && Window(ring, Inc(lo), hi, q[1..])
  {
    SameIndex(lo, |q|);
    if q != [] {
      assert ring[(lo + 0) % NUM] == q[0];
      forall k | 0 <= k < |q| - 1 ensures ring[(Inc(lo) + k) % NUM] == q[1..][k] {
        NextSlot(lo, k);
        assert ring[(lo + (k + 1)) % NUM] == q[k + 1];
      }
    }
  }

  lemma SameIndex(lo: nat, n: nat)
    requires lo < U16 && n <= NUM
    ensures (lo + n) % U16 == lo <==> n == 0
    ensures n > 0 ==> (Inc(lo) + (n - 1)) % U16 == (lo + n) % U16
  {}

  lemma NextSlot(lo: nat, k: nat)
    ensures (Inc(lo) + k) % NUM == (lo + (k + 1)) % NUM
  {
    assert Inc(lo) == lo + 1 - (lo + 1) / U16 * U16;
  }

  ghost predicate Distinct(q: seq<nat>) {
    forall i, j :: 0 <= i < j < |q| ==> q[i] != q[j]
  }

  /** Different heads fit the ring. */
  lemma {:induction false} Fits(q: seq<nat>, n: nat)
    requires Distinct(q) && forall k :: 0 <= k < |q| ==> q[k] < n
    ensures |q| <= n
    decreases n
  {
    if q != [] {
      assert q[0] < n;
      if exists k :: 0 <= k < |q| && q[k] == n - 1 {
        var k :| 0 <= k < |q| && q[k] == n - 1;
        Fits(q[..k] + q[k + 1..], n - 1);
      } else {
        Fits(q, n - 1);
      }
    }
  }
}

/** The driver of virtio_disk.c and a device that completes requests in any order.  Each method runs
    under vdisk_lock, or is one step of the device. */
module Virtio {
  import opened OptionType
  import opened Ring

  /** A descriptor: where it points, and the flags NEXT and WRITE. */
  datatype Target = Nothing | Header(i: nat) | Data(b: nat) | Status(i: nat)
  datatype Desc = Desc(target: Target, hasNext: bool, devWrites: bool, next: nat)

  datatype Info = Info(b: Option<nat>, status: nat)

  /** Where a request is: in the available ring, with the device, in the used ring, or seen by the
      interrupt handler and not yet returned. */
  datatype Phase = Submitted | Fetched | Completed | Seen
  datatype Chain = Chain(i1: nat, i2: nat, b: nat, phase: Phase)

  /** The descriptors of the chain that starts at h. */
  ghost predicate Links(desc: seq<Desc>, h: nat, c: Chain, write: bool) {
    && h < |desc| && c.i1 < |desc| && c.i2 < |desc| && h != c.i1 && h != c.i2 && c.i1 != c.i2
    && desc[h] == Desc(Header(h), true, false, c.i1)
    && desc[c.i1] == Desc(Data(c.b), true, !write, c.i2)
    && desc[c.i2] == Desc(Status(h), false, true, 0)
  }

  /** A chain holds its three descriptors and its info slot. */
  ghost predicate ChainOk(desc: seq<Desc>, info: seq<Info>, owner: seq<Option<nat>>, h: nat, c: Chain) {
    && |desc| == |info| == |owner| == NUM
    && (Links(desc, h, c, false) || Links(desc, h, c, true))
    && info[h].b == Some(c.b) && (c.phase == Submitted ==> info[h].status == 0xff)
    && owner[h] == Some(h) && owner[c.i1] == Some(h) && owner[c.i2] == Some(h)
  }

  ghost predicate AllOk(desc: seq<Desc>, info: seq<Info>, owner: seq<Option<nat>>, chains: map<nat, Chain>) {
    forall h {:trigger ChainOk(desc, info, owner, h, chains[h])} :: h in chains ==> ChainOk(desc, info, owner, h, chains[h])
  }

  predicate Of(d: nat, h: nat, c: Chain) {
    d == h || d == c.i1 || d == c.i2
  }

  /** A descriptor is free exactly when it is in no chain; so chains are disjoint. */
  ghost predicate Held(free: seq<bool>, owner: seq<Option<nat>>, chains: map<nat, Chain>) {
    && |free| == |owner| == NUM
    && forall d :: 0 <= d < NUM ==>
         && (free[d] <==> owner[d] == None)
         && (owner[d].Some? ==> owner[d].value in chains && Of(d, owner[d].value, chains[owner[d].value]))
  }

  /** A ring holds the heads of exactly the chains in a phase, each once. */
  ghost predicate Queue(q: seq<nat>, chains: map<nat, Chain>, phase: Phase) {
    && Distinct(q)
    && (forall h :: h in q <==> h in chains && chains[h].phase == phase)
  }

  /** b->disk is set exactly while the request for b has not been seen; a buffer has one request. */
  ghost predicate Waiting(onDisk: set<nat>, chains: map<nat, Chain>) {
    && (forall h :: h in chains ==> (chains[h].b in onDisk <==> chains[h].phase != Seen))
    && (forall g, h :: g in chains && h in chains && chains[g].b == chains[h].b ==> g == h)
  }

  /** Three free descriptors become a chain. */
  function Claimed(owner: seq<Option<nat>>, h: nat, c: Chain): (r: seq<Option<nat>>)
    requires h < |owner| && c.i1 < |owner| && c.i2 < |owner|
    ensures |r| == |owner| && forall d :: 0 <= d < |r| ==> r[d] == if Of(d, h, c) then Some(h) else owner[d]
  {
    owner[h := Some(h)][c.i1 := Some(h)][c.i2 := Some(h)]
  }

  lemma HeldClaim(free: seq<bool>, owner: seq<Option<nat>>, chains: map<nat, Chain>, free': seq<bool>, h: nat, c: Chain)
    requires Held(free, owner, chains) && h < NUM && c.i1 < NUM && c.i2 < NUM && |free'| == NUM
    requires free[h] && free[c.i1] && free[c.i2] && h !in chains
    requires forall d :: 0 <= d < NUM ==> (free'[d] <==> free[d] && !Of(d, h, c))
    ensures Held(free', Claimed(owner, h, c), chains[h := c])
  {}

  /** Writing to free descriptors disturbs no chain. */
  lemma ChainStays(desc: seq<Desc>, info: seq<Info>, owner: seq<Option<nat>>, desc': seq<Desc>, info': seq<Info>,
                   owner': seq<Option<nat>>, h: nat, c: Chain)
    requires ChainOk(desc, info, owner, h, c) && |desc'| == |info'| == |owner'| == NUM
    requires forall d :: 0 <= d < NUM && owner[d] == Some(h) ==> desc'[d] == desc[d] && info'[d] == info[d] && owner'[d] == owner[d]
    ensures ChainOk(desc', info', owner', h, c)
  {}

  /** A free descriptor heads no chain, and a ring of heads has room for it. */
  lemma Unused(free: seq<bool>, owner: seq<Option<nat>>, desc: seq<Desc>, info: seq<Info>, chains: map<nat, Chain>, i: nat, q: seq<nat>)
    requires Held(free, owner, chains) && i < NUM && free[i] && Queue(q, chains, Submitted)
    requires AllOk(desc, info, owner, chains)
    ensures i !in chains && |q| < NUM
  {
    assert forall h :: h in chains ==> ChainOk(desc, info, owner, h, chains[h]);
    assert forall k :: 0 <= k < |q| ==> q[k] in q;
    Fits(q + [i], NUM);
  }

  lemma NewWaiting(onDisk: set<nat>, chains: map<nat, Chain>, h: nat, c: Chain)
    requires Waiting(onDisk, chains) && h !in chains && c.phase == Submitted && forall g :: g in chains ==> chains[g].b != c.b
    ensures Waiting(onDisk + {c.b}, chains[h := c])
  {}

  lemma NewQueue(q: seq<nat>, chains: map<nat, Chain>, h: nat, c: Chain, phase: Phase)
    requires Queue(q, chains, phase) && h !in chains
    ensures Queue(if c.phase == phase then q + [h] else q, chains[h := c], phase)
  {
    var q' := if c.phase == phase then q + [h] else q;
    forall g ensures g in q' <==> g in chains[h := c] && chains[h := c][g].phase == phase {
      assert g in q' <==> g in q || (c.phase == phase && g == h);
    }
  }

  /** A request moves on to another phase. */
  ghost function Moved(chains: map<nat, Chain>, h: nat, phase: Phase): map<nat, Chain>
    requires h in chains
  {
    chains[h := chains[h].(phase := phase)]
  }

  /** Its head leaves the front of the ring of its phase, and enters the ring of the next. */
  lemma QueueLeaves(q: seq<nat>, chains: map<nat, Chain>, h: nat, next: Phase, phase: Phase)
    requires Queue(q, chains, phase) && h in chains && next != phase && q != [] && q[0] == h
    ensures Queue(q[1..], Moved(chains, h, next), phase)
  {
    forall g ensures g in q[1..] <==> g in Moved(chains, h, next) && Moved(chains, h, next)[g].phase == phase {
      assert g in q <==> g == q[0] || g in q[1..];
    }
  }

  lemma QueueEnters(q: seq<nat>, chains: map<nat, Chain>, h: nat, phase: Phase)
    requires Queue(q, chains, phase) && h in chains && chains[h].phase != phase
    ensures Queue(q + [h], Moved(chains, h, phase), phase)
  {}

  lemma QueueStays(q: seq<nat>, chains: map<nat, Chain>, h: nat, next: Phase, phase: Phase)
    requires Queue(q, chains, phase) && h in chains && chains[h].phase != phase && next != phase
    ensures Queue(q, Moved(chains, h, next), phase) && Queue(q, chains - {h}, phase)
  {}

  /** Moving on leaves the chains as they are. */
  lemma AllMoved(desc: seq<Desc>, info: seq<Info>, owner: seq<Option<nat>>, chains: map<nat, Chain>, h: nat, next: Phase)
    requires AllOk(desc, info, owner, chains) && h in chains && next != Submitted
    ensures AllOk(desc, info, owner, Moved(chains, h, next))
  {
    var moved := Moved(chains, h, next);
    forall g | g in moved ensures ChainOk(desc, info, owner, g, moved[g]) {
      assert ChainOk(desc, info, owner, g, chains[g]);
    }
  }

  lemma WaitingMoved(onDisk: set<nat>, chains: map<nat, Chain>, h: nat, next: Phase)
    requires Waiting(onDisk, chains) && h in chains && chains[h].phase != Seen
    ensures Waiting(if next == Seen then onDisk - {chains[h].b} else onDisk, Moved(chains, h, next))
  {}

  /** The chains that remain when one is finished. */
  lemma AllRelease(desc: seq<Desc>, info: seq<Info>, owner: seq<Option<nat>>, chains: map<nat, Chain>, h: nat, desc': seq<Desc>, info': seq<Info>)
    requires AllOk(desc, info, owner, chains) && h in chains && |desc'| == |info'| == |desc| == |info| == |owner| == NUM
    requires h < NUM && chains[h].i1 < NUM && chains[h].i2 < NUM
    requires owner[h] == owner[chains[h].i1] == owner[chains[h].i2] == Some(h)
    requires forall d :: 0 <= d < NUM && !Of(d, h, chains[h]) ==> desc'[d] == desc[d] && info'[d] == info[d]
    ensures AllOk(desc', info', Released(owner, h, chains[h]), chains - {h})
  {
    var rest := chains - {h};
    var owner' := Released(owner, h, chains[h]);
    forall g | g in rest ensures ChainOk(desc', info', owner', g, rest[g]) {
      assert ChainOk(desc, info, owner, g, chains[g]);
      ChainStays(desc, info, owner, desc', info', owner', g, chains[g]);
    }
  }

  lemma HeldMoved(free: seq<bool>, owner: seq<Option<nat>>, chains: map<nat, Chain>, h: nat, next: Phase)
    requires Held(free, owner, chains) && h in chains
    ensures Held(free, owner, Moved(chains, h, next))
  {}

  /** A finished request gives its descriptors back. */
  function Released(owner: seq<Option<nat>>, h: nat, c: Chain): (r: seq<Option<nat>>)
    requires h < |owner| && c.i1 < |owner| && c.i2 < |owner|
    ensures |r| == |owner| && forall d :: 0 <= d < |r| ==> r[d] == if Of(d, h, c) then None else owner[d]
  {
    owner[h := None][c.i1 := None][c.i2 := None]
  }

  lemma HeldRelease(free: seq<bool>, owner: seq<Option<nat>>, chains: map<nat, Chain>, free': seq<bool>, h: nat, c: Chain)
    requires Held(free, owner, chains) && h in chains && c == chains[h] && h < NUM && c.i1 < NUM && c.i2 < NUM && |free'| == NUM
    requires owner[h] == owner[c.i1] == owner[c.i2] == Some(h)
    requires forall d :: 0 <= d < NUM ==> (free'[d] <==> free[d] || Of(d, h, c))
    ensures Held(free', Released(owner, h, c), chains - {h})
  {}

  class Disk {
    var free: seq<bool>
    var desc: seq<Desc>
    var info: seq<Info>
    var avail: seq<nat>
    var availIdx: nat
    var used: seq<nat>
    var usedEnd: nat       // used->idx, moved by the device
    var usedIdx: nat       // how far the driver has looked
    var devIdx: nat        // how far the device has looked in the available ring
    var onDisk: set<nat>   // the buffers with b->disk == 1

    ghost var chains: map<nat, Chain>
    ghost var owner: seq<Option<nat>>
    ghost var availQ: seq<nat>
    ghost var usedQ: seq<nat>

    ghost predicate Valid()
      reads this
    {
      && Held(free, owner, chains)
      && AllOk(desc, info, owner, chains)
      && Window(avail, devIdx, availIdx, availQ) && Queue(availQ, chains, Submitted)
      && Window(used, usedIdx, usedEnd, usedQ) && Queue(usedQ, chains, Completed)
      && Waiting(onDisk, chains) && |desc| == |info| == NUM
    }

    constructor ()
      ensures Valid() && chains == map[] && onDisk == {} && forall d :: 0 <= d < NUM ==> free[d]
    {
      free, desc := seq(NUM, _ => true), seq(NUM, _ => Desc(Nothing, false, false, 0));
      info := seq(NUM, _ => Info(None, 0));
      avail, used := seq(NUM, _ => 0), seq(NUM, _ => 0);
      availIdx, usedEnd, usedIdx, devIdx := 0, 0, 0, 0;
      onDisk, chains, availQ, usedQ := {}, map[], [], [];
      owner := seq(NUM, _ => None);
    }

    method AllocDesc() returns (i: int)
      requires |free| == NUM
      modifies this`free
      ensures |free| == NUM && (i == -1 <==> forall d :: 0 <= d < NUM ==> !old(free)[d])
      ensures i == -1 ==> free == old(free)
      ensures i != -1 ==> 0 <= i < NUM && old(free)[i] && (forall d :: 0 <= d < i ==> !old(free)[d]) && free == old(free)[i := false]
    {
      i := 0;
      while i < NUM && !free[i]
        invariant 0 <= i <= NUM && free == old(free) && forall d :: 0 <= d < i ==> !free[d]
      {
        i := i + 1;
      }
      if i < NUM {
        free := free[i := false];
      } else {
        i := -1;
      }
    }

    /** free_desc; false is a panic. */
    method FreeDesc(i: nat) returns (ok: bool)
      requires |free| == |desc| == NUM
      modifies this`free, this`desc
      ensures ok <==> i < NUM && !old(free)[i]
      ensures |free| == |desc| == NUM
      ensures ok ==> free == old(free)[i := true] && desc == old(desc)[i := Desc(Nothing, false, false, 0)]
      ensures !ok ==> free == old(free) && desc == old(desc)
    {
      ok := i < NUM && !free[i];
      if ok {
        desc := desc[i := Desc(Nothing, false, false, 0)];
        free := free[i := true];
      }
    }

    /** alloc3_desc: three descriptors, or none and the free set as it was. */
    method Alloc3Desc() returns (ok: bool, idx: seq<nat>)
      requires |free| == |desc| == NUM
      modifies this`free, this`desc
      ensures |free| == |desc| == NUM
      ensures ok ==> |idx| == 3 && Distinct(idx) && desc == old(desc)
      ensures ok ==> forall k :: 0 <= k < 3 ==> idx[k] < NUM && old(free)[idx[k]]
      ensures ok ==> forall d :: 0 <= d < NUM ==> (free[d] <==> old(free)[d] && d !in idx)
      ensures !ok ==> free == old(free) && forall d :: 0 <= d < NUM && !free[d] ==> desc[d] == old(desc)[d]
      ensures ok <==> |FreeSet(old(free))| >= 3
    {
      idx, ok := [], true;
      while |idx| < 3 && ok
        invariant |idx| <= 3 && Distinct(idx) && |free| == NUM && desc == old(desc)
        invariant forall k :: 0 <= k < |idx| ==> idx[k] < NUM && old(free)[idx[k]]
        invariant forall d :: 0 <= d < NUM ==> (free[d] <==> old(free)[d] && d !in idx)
        invariant !ok ==> |idx| < 3 && forall d :: 0 <= d < NUM ==> !free[d]
        decreases 3 - |idx|, ok
      {
        var i := AllocDesc();
        if i < 0 {
          ok := false;
        } else {
          idx := idx + [i];
        }
      }
      CountFree(old(free), idx, ok);
      if !ok {
        Rollback(idx, old(free));
      }
    }

    /** The free descriptors. */
    static ghost function FreeSet(free: seq<bool>): set<int> {
      set d | 0 <= d < |free| && free[d]
    }

    static lemma CountFree(free: seq<bool>, idx: seq<nat>, all: bool)
      requires Distinct(idx) && forall k :: 0 <= k < |idx| ==> idx[k] < |free| && free[idx[k]]
      requires if all then |idx| == 3 else |idx| < 3 && forall d :: 0 <= d < |free| && free[d] ==> d in idx
      ensures |FreeSet(free)| >= 3 <==> all
    {
      var taken := set d: int | d in idx;
      if all {
        var three := {idx[0] as int, idx[1], idx[2]};
        assert FreeSet(free) == three + (FreeSet(free) - three);
      } else {
        assert taken == FreeSet(free) + (taken - FreeSet(free));
        Few(idx);
      }
    }

    static lemma {:induction false} Few(idx: seq<nat>)
      ensures |set d: int | d in idx| <= |idx|
    {
      if idx != [] {
        var n := |idx| - 1;
        Few(idx[..n]);
        assert (set d: int | d in idx) == (set d: int | d in idx[..n]) + {idx[n]};
      }
    }

    /** The descriptors taken so far are freed again, and free_desc does not panic. */
    method Rollback(idx: seq<nat>, ghost free0: seq<bool>)
      requires |free| == |desc| == |free0| == NUM && Distinct(idx)
      requires forall k :: 0 <= k < |idx| ==> idx[k] < NUM && free0[idx[k]]
      requires forall d :: 0 <= d < NUM ==> (free[d] <==> free0[d] && d !in idx)
      modifies this`free, this`desc
      ensures free == free0 && |desc| == NUM && forall d :: 0 <= d < NUM && !free[d] ==> desc[d] == old(desc)[d]
    {
      var j := 0;
      while j < |idx|
        invariant j <= |idx| && |free| == |desc| == NUM
        invariant forall d :: 0 <= d < NUM ==> (free[d] <==> free0[d] && d !in idx[j..])
        invariant forall d :: 0 <= d < NUM && !free0[d] ==> desc[d] == old(desc)[d]
      {
        assert idx[j] in idx[j..];
        assert idx[j..] == [idx[j]] + idx[j + 1..];
        var ok := FreeDesc(idx[j]);
        assert ok;
        j := j + 1;
      }
    }

    /** virtio_disk_rw up to its wait: false when it has to sleep for descriptors. */
    method Submit(b: nat, write: bool) returns (sent: bool, idx0: nat)
      requires Valid() && b !in onDisk && forall h :: h in chains ==> chains[h].b != b
      modifies this
      ensures Valid() && |free| == |old(free)| && used == old(used) && usedEnd == old(usedEnd) && usedIdx == old(usedIdx)
      ensures sent ==> idx0 !in old(chains) && idx0 in chains && chains == old(chains)[idx0 := chains[idx0]]
                       && chains[idx0].b == b && chains[idx0].phase == Submitted && onDisk == old(onDisk) + {b}
      ensures sent ==> var c := chains[idx0];
                && idx0 < NUM && c.i1 < NUM && c.i2 < NUM && idx0 != c.i1 && idx0 != c.i2 && c.i1 != c.i2 && |desc| == |info| == |old(free)| == NUM
                && old(free)[idx0] && old(free)[c.i1] && old(free)[c.i2]
                && desc[idx0] == Desc(Header(idx0), true, false, c.i1)
                && desc[c.i1] == Desc(Data(b), true, !write, c.i2)
                && desc[c.i2] == Desc(Status(idx0), false, true, 0) && info[idx0] == Info(Some(b), 0xff)
      ensures !sent ==> free == old(free) && chains == old(chains) && onDisk == old(onDisk)
      ensures sent <==> |FreeSet(old(free))| >= 3
      ensures availQ == if sent then old(availQ) + [idx0] else old(availQ)
    {
      idx0 := 0;
      ghost var free0, desc0 := free, desc;
      var idx;
      sent, idx := Alloc3Desc();
      if sent {
        idx0 := idx[0];
        assert idx == [idx[0], idx[1], idx[2]];
        Enqueue(b, write, idx[0], idx[1], idx[2], free0);
        assert ChainOk(desc, info, owner, idx0, chains[idx0]);
      } else {
        forall h | h in chains ensures ChainOk(desc, info, owner, h, chains[h]) {
          assert ChainOk(desc0, info, owner, h, chains[h]);
          ChainStays(desc0, info, owner, desc, info, owner, h, chains[h]);
        }
      }
    }

    /** Format the three descriptors and put the chain in the available ring. */
    method Enqueue(b: nat, write: bool, i0: nat, i1: nat, i2: nat, ghost free0: seq<bool>)
      requires |desc| == |info| == |free| == |free0| == NUM && i0 < NUM && i1 < NUM && i2 < NUM && i0 != i1 && i0 != i2 && i1 != i2
      requires Held(free0, owner, chains) && free0[i0] && free0[i1] && free0[i2]
      requires forall d :: 0 <= d < NUM ==> (free[d] <==> free0[d] && !Of(d, i0, Chain(i1, i2, b, Submitted)))
      requires AllOk(desc, info, owner, chains)
      requires Window(avail, devIdx, availIdx, availQ) && Queue(availQ, chains, Submitted)
      requires Window(used, usedIdx, usedEnd, usedQ) && Queue(usedQ, chains, Completed)
      requires Waiting(onDisk, chains) && b !in onDisk && forall h :: h in chains ==> chains[h].b != b
      modifies this`desc, this`info, this`avail, this`availIdx, this`onDisk, this`chains, this`owner, this`availQ
      ensures Valid() && i0 !in old(chains) && chains == old(chains)[i0 := Chain(i1, i2, b, Submitted)]
      ensures Links(desc, i0, chains[i0], write) && onDisk == old(onDisk) + {b} && availQ == old(availQ) + [i0]
    {
      ghost var c := Chain(i1, i2, b, Submitted);
      Unused(free0, owner, desc, info, chains, i0, availQ);
      HeldClaim(free0, owner, chains, free, i0, c);
      NewQueue(availQ, chains, i0, c, Submitted);
      NewQueue(usedQ, chains, i0, c, Completed);
      NewWaiting(onDisk, chains, i0, c);
      Format(b, write, i0, i1, i2);
      Offer(b, i0);
    }

    /** b->disk = 1, and the head goes to the available ring. */
    method Offer(b: nat, i0: nat)
      requires Held(free, owner, chains) && |desc| == |info| == NUM && Waiting(onDisk + {b}, chains) && |availQ| < NUM
      requires AllOk(desc, info, owner, chains)
      requires Window(avail, devIdx, availIdx, availQ) && Queue(availQ + [i0], chains, Submitted)
      requires Window(used, usedIdx, usedEnd, usedQ) && Queue(usedQ, chains, Completed)
      modifies this`avail, this`availIdx, this`onDisk, this`availQ
      ensures Valid() && onDisk == old(onDisk) + {b} && availQ == old(availQ) + [i0]
    {
      Push(avail, devIdx, availIdx, availQ, i0);
      onDisk := onDisk + {b};
      avail := avail[availIdx % NUM := i0];
      availIdx := Inc(availIdx);
      availQ := availQ + [i0];
    }

    method Format(b: nat, write: bool, i0: nat, i1: nat, i2: nat)
      requires |desc| == |info| == |owner| == NUM && i0 < NUM && i1 < NUM && i2 < NUM && i0 != i1 && i0 != i2 && i1 != i2
      requires owner[i0] == owner[i1] == owner[i2] == None
      requires AllOk(desc, info, owner, chains)
      modifies this`desc, this`info, this`chains, this`owner
      ensures |desc| == |info| == NUM && chains == old(chains)[i0 := Chain(i1, i2, b, Submitted)]
      ensures owner == Claimed(old(owner), i0, Chain(i1, i2, b, Submitted))
      ensures AllOk(desc, info, owner, chains)
      ensures Links(desc, i0, chains[i0], write)
    {
      ghost var desc0, info0, owner0, chains0 := desc, info, owner, chains;
      desc := desc[i0 := Desc(Header(i0), true, false, i1)];
      desc := desc[i1 := Desc(Data(b), true, !write, i2)];
      desc := desc[i2 := Desc(Status(i0), false, true, 0)];
      info := info[i0 := Info(Some(b), 0xff)];
      chains := chains[i0 := Chain(i1, i2, b, Submitted)];
      owner := Claimed(owner, i0, chains[i0]);
      forall h | h in chains ensures ChainOk(desc, info, owner, h, chains[h]) {
        if h != i0 {
          assert ChainOk(desc0, info0, owner0, h, chains0[h]);
          ChainStays(desc0, info0, owner0, desc, info, owner, h, chains[h]);
        } else {
          assert Links(desc, i0, chains[i0], write);
        }
      }
    }

    // ----- the device -------------------------------------------------------------------------

    /** The device takes the next chain from the available ring. */
    method DevFetch() returns (h: nat)
      requires Valid() && devIdx != availIdx
      modifies this`devIdx, this`chains, this`availQ
      ensures Valid() && h in old(chains) && old(chains)[h].phase == Submitted && chains == Moved(old(chains), h, Fetched)
      ensures old(availQ) != [] && h == old(availQ)[0] && availQ == old(availQ)[1..]
    {
      Pop(avail, devIdx, availIdx, availQ);
      h := avail[devIdx % NUM];
      assert h in availQ;
      AllMoved(desc, info, owner, chains, h, Fetched);
      WaitingMoved(onDisk, chains, h, Fetched);
      QueueLeaves(availQ, chains, h, Fetched, Submitted);
      QueueStays(usedQ, chains, h, Fetched, Completed);
      HeldMoved(free, owner, chains, h, Fetched);
      devIdx := Inc(devIdx);
      availQ := availQ[1..];
      chains := Moved(chains, h, Fetched);
    }

    /** The device reports the status of a chain it has fetched. */
    method DevStatus(h: nat, status: nat)
      requires Valid() && h in chains && chains[h].phase == Fetched
      modifies this`info
      ensures Valid() && h < |info| == |old(info)| && info == old(info)[h := old(info)[h].(status := status)]
    {
      ghost var info0 := info;
      assert ChainOk(desc, info, owner, h, chains[h]);
      info := info[h := info[h].(status := status)];
      forall g | g in chains ensures ChainOk(desc, info, owner, g, chains[g]) {
        assert ChainOk(desc, info0, owner, g, chains[g]);
      }
    }

    /** The device completes a request it has fetched, in any order: it stores the status and publishes the
        id in the used ring, which has room. */
    method DevComplete(h: nat, status: nat)
      requires Valid() && h in chains && chains[h].phase == Fetched
      modifies this`info, this`used, this`usedEnd, this`chains, this`usedQ
      ensures Valid() && chains == Moved(old(chains), h, Completed) && usedQ == old(usedQ) + [h]
      ensures h < |info| == |old(info)| && info == old(info)[h := old(info)[h].(status := status)]
    {
      DevStatus(h, status);
      DevPublish(h);
    }

    method DevPublish(h: nat)
      requires Valid() && h in chains && chains[h].phase == Fetched
      modifies this`used, this`usedEnd, this`chains, this`usedQ
      ensures Valid() && chains == Moved(old(chains), h, Completed) && usedQ == old(usedQ) + [h]
    {
      hide Held, AllOk, Queue, Waiting, Moved;
      UsedRoom(h);
      Push(used, usedIdx, usedEnd, usedQ, h);
      used := used[usedEnd % NUM := h];
      usedEnd := Inc(usedEnd);
      Completes(h);
    }

    ghost method Completes(h: nat)
      requires Held(free, owner, chains) && AllOk(desc, info, owner, chains) && |desc| == |info| == NUM && Waiting(onDisk, chains)
      requires Window(avail, devIdx, availIdx, availQ) && Queue(availQ, chains, Submitted) && Queue(usedQ, chains, Completed)
      requires Window(used, usedIdx, usedEnd, usedQ + [h]) && h in chains && chains[h].phase == Fetched
      modifies this`chains, this`usedQ
      ensures Valid() && chains == Moved(old(chains), h, Completed) && usedQ == old(usedQ) + [h]
    {
      AllMoved(desc, info, owner, chains, h, Completed);
      WaitingMoved(onDisk, chains, h, Completed);
      QueueStays(availQ, chains, h, Completed, Submitted);
      QueueEnters(usedQ, chains, h, Completed);
      HeldMoved(free, owner, chains, h, Completed);
      usedQ := usedQ + [h];
      chains := Moved(chains, h, Completed);
    }

    /** The used ring has room for every chain that is still with the device. */
    lemma UsedRoom(h: nat)
      requires Valid() && h in chains && chains[h].phase == Fetched
      ensures |usedQ| < NUM && h < NUM
    {
      assert forall g :: g in chains ==> ChainOk(desc, info, owner, g, chains[g]);
      assert forall k :: 0 <= k < |usedQ| ==> usedQ[k] in usedQ;
      Fits(usedQ + [h], NUM);
    }

    // ----- completion ---------------------------------------------------------------------------

    /** One iteration of virtio_disk_intr: the next used entry clears the buffer submitted under its id. */
    method IntrOne() returns (ok: bool)
      requires Valid() && usedIdx != usedEnd
      modifies this`onDisk, this`usedIdx, this`chains, this`usedQ
      ensures old(usedQ) != [] && old(usedQ)[0] in old(chains) && old(usedQ)[0] < |info|
      ensures var id := old(usedQ)[0];
              && (ok <==> info[id].status == 0)
              && (ok ==> Valid() && usedQ == old(usedQ)[1..] && old(chains)[id].phase == Completed
                         && chains == Moved(old(chains), id, Seen) && onDisk == old(onDisk) - {old(chains)[id].b})
    {
      Pop(used, usedIdx, usedEnd, usedQ);
      var id := used[usedIdx % NUM];
      assert id in usedQ;
      assert ChainOk(desc, info, owner, id, chains[id]);
      ok := info[id].status == 0;
      if ok {
        See(id);
      }
    }

    method See(id: nat)
      requires Valid() && usedQ != [] && id == usedQ[0] && id < NUM && id in chains && chains[id].phase == Completed
      modifies this`onDisk, this`usedIdx, this`chains, this`usedQ
      ensures Valid() && usedQ == old(usedQ)[1..] && chains == Moved(old(chains), id, Seen) && onDisk == old(onDisk) - {old(chains)[id].b}
    {
      assert ChainOk(desc, info, owner, id, chains[id]);
      Pop(used, usedIdx, usedEnd, usedQ);
      onDisk := onDisk - {info[id].b.value};
      usedIdx := Inc(usedIdx);
      Sees(id, old(onDisk));
    }

    ghost method Sees(id: nat, onDisk0: set<nat>)
      requires Held(free, owner, chains) && AllOk(desc, info, owner, chains) && |desc| == |info| == NUM && Waiting(onDisk0, chains)
      requires Window(avail, devIdx, availIdx, availQ) && Queue(availQ, chains, Submitted) && Queue(usedQ, chains, Completed)
      requires id in chains && chains[id].phase == Completed && usedQ != [] && usedQ[0] == id
      requires Window(used, usedIdx, usedEnd, usedQ[1..]) && onDisk == onDisk0 - {chains[id].b}
      modifies this`chains, this`usedQ
      ensures Valid() && usedQ == old(usedQ)[1..] && chains == Moved(old(chains), id, Seen)
    {
      AllMoved(desc, info, owner, chains, id, Seen);
      WaitingMoved(onDisk0, chains, id, Seen);
      QueueStays(availQ, chains, id, Seen, Submitted);
      QueueLeaves(usedQ, chains, id, Seen, Completed);
      HeldMoved(free, owner, chains, id, Seen);
      usedQ := usedQ[1..];
      chains := Moved(chains, id, Seen);
    }

    static ghost predicate SeenOrSame(c: Chain, d: Chain) {
      d == c || (c.phase == Completed && d == c.(phase := Seen))
    }

    /** virtio_disk_intr: every entry of the used ring is consumed, each once; false is a panic. */
    method Intr() returns (ok: bool)
      requires Valid()
      modifies this`onDisk, this`usedIdx, this`chains, this`usedQ
      ensures ok <==> forall h :: h in old(chains) && old(chains)[h].phase == Completed ==> h < |info| && info[h].status == 0
      ensures ok ==> Valid() && usedIdx == usedEnd && chains.Keys == old(chains.Keys)
      ensures ok ==> forall h :: h in chains ==>
                chains[h] == if old(chains)[h].phase == Completed then old(chains)[h].(phase := Seen) else old(chains)[h]
    {
      ok := true;
      while usedIdx != usedEnd && ok
        invariant ok ==> Valid() && chains.Keys == old(chains.Keys)
        invariant ok ==> forall h :: h in chains ==> SeenOrSame(old(chains)[h], chains[h])
        invariant ok ==> forall h :: h in chains && chains[h] != old(chains)[h] ==> h < |info| && info[h].status == 0
        invariant !ok ==> exists h :: h in old(chains) && old(chains)[h].phase == Completed && h < |info| && info[h].status != 0
        decreases ok, |usedQ|
      {
        ok := IntrOne();
      }
      if ok {
        Pop(used, usedIdx, usedEnd, usedQ);
        assert forall h :: h in chains ==> chains[h].phase != Completed;
      }
    }

    /** free_chain on a chain of three; free_desc does not panic. */
    method FreeChain(i0: nat, ghost i1: nat, ghost i2: nat) returns (ok: bool)
      requires |free| == |desc| == NUM && i0 < NUM && i1 < NUM && i2 < NUM && i0 != i1 && i0 != i2 && i1 != i2
      requires desc[i0].hasNext && desc[i0].next == i1 && desc[i1].hasNext && desc[i1].next == i2 && !desc[i2].hasNext
      requires !free[i0] && !free[i1] && !free[i2]
      modifies this`free, this`desc
      ensures ok && |free| == |desc| == NUM
      ensures forall d :: 0 <= d < NUM ==> (free[d] <==> old(free)[d] || d == i0 || d == i1 || d == i2)
      ensures forall d :: 0 <= d < NUM && d != i0 && d != i1 && d != i2 ==> desc[d] == old(desc)[d]
    {
      var i, more := i0, true;
      ghost var k := 0;
      ok := true;
      while more && ok
        invariant k <= 3 && |free| == |desc| == NUM && ok && (more <==> k < 3)
        invariant i == if k == 0 then i0 else if k == 1 then i1 else i2
        invariant forall d :: 0 <= d < NUM ==> (free[d] <==> old(free)[d] || (k > 0 && d == i0) || (k > 1 && d == i1) || (k > 2 && d == i2))
        invariant forall d :: 0 <= d < NUM && !((k > 0 && d == i0) || (k > 1 && d == i1) || (k > 2 && d == i2)) ==> desc[d] == old(desc)[d]
        decreases 3 - k
      {
        var flag, nxt := desc[i].hasNext, desc[i].next;
        ok := FreeDesc(i);
        more := flag;
        i := if flag then nxt else i;
        k := k + 1;
      }
    }

    /** The end of virtio_disk_rw.  The wait is over only when b->disk is 0, and then the request's own
        completion has been seen. */
    method Finish(b: nat, i0: nat) returns (ok: bool)
      requires Valid() && i0 in chains && chains[i0].b == b && b !in onDisk
      modifies this`info, this`free, this`desc, this`chains, this`owner
      ensures ok && Valid() && old(chains)[i0].phase == Seen && chains == old(chains) - {i0}
      ensures |free| == |old(free)| && forall d :: 0 <= d < |free| ==> (free[d] <==> old(free)[d] || Of(d, i0, old(chains)[i0]))
    {
      ghost var c, free0, desc0, info0 := chains[i0], free, desc, info;
      assert ChainOk(desc, info, owner, i0, c);
      info := info[i0 := info[i0].(b := None)];
      ok := FreeChain(i0, c.i1, c.i2);
      Retire(i0, free0, desc0, info0);
    }

    ghost method Retire(i0: nat, free0: seq<bool>, desc0: seq<Desc>, info0: seq<Info>)
      requires Held(free0, owner, chains) && AllOk(desc0, info0, owner, chains) && Waiting(onDisk, chains)
      requires |desc0| == |info0| == |desc| == |info| == |free| == NUM && i0 in chains && chains[i0].phase == Seen
      requires Window(avail, devIdx, availIdx, availQ) && Queue(availQ, chains, Submitted)
      requires Window(used, usedIdx, usedEnd, usedQ) && Queue(usedQ, chains, Completed)
      requires forall d :: 0 <= d < NUM ==> (free[d] <==> free0[d] || Of(d, i0, chains[i0]))
      requires forall d :: 0 <= d < NUM && !Of(d, i0, chains[i0]) ==> desc[d] == desc0[d] && info[d] == info0[d]
      modifies this`chains, this`owner
      ensures Valid() && chains == old(chains) - {i0}
    {
      assert ChainOk(desc0, info0, owner, i0, chains[i0]);
      HeldRelease(free0, owner, chains, free, i0, chains[i0]);
      AllRelease(desc0, info0, owner, chains, i0, desc, info);
      QueueStays(availQ, chains, i0, Seen, Submitted);
      QueueStays(usedQ, chains, i0, Seen, Completed);
      owner := Released(owner, i0, chains[i0]);
      chains := chains - {i0};
    }
  }
}
