/** The doubly linked list that threads all buffers, most recently used first.
    Node n is the list head `bcache.head`; nodes below n are the buffers. */
module LruList {

  /** The walk from the head, forwards, back to the head. */
  function Ring(order: seq<nat>, n: nat): seq<nat> {
    [n] + order + [n]
  }

  ghost predicate Linked(next: seq<nat>, prev: seq<nat>, order: seq<nat>, n: nat) {
    && |next| == |prev| == n + 1
    && (forall i :: 0 <= i < |order| ==> order[i] < n)
    && (forall i, j :: 0 <= i < j < |order| ==> order[i] != order[j])
    && (forall k :: 0 <= k <= |order| ==> Hop(next, prev, Ring(order, n), k))
  }

  ghost predicate Hop(next: seq<nat>, prev: seq<nat>, ring: seq<nat>, k: nat)
    requires k + 1 < |ring|
  {
    ring[k] < |next| && ring[k + 1] < |prev| && next[ring[k]] == ring[k + 1] && prev[ring[k + 1]] == ring[k]
  }

  /** The list holds every node below n, latest stamp first. */
  ghost predicate ByRecency(order: seq<nat>, stamp: seq<nat>, clock: nat, n: nat) {
    && |stamp| == n
    && (forall i :: 0 <= i < |order| ==> order[i] < n)
    && (forall i :: 0 <= i < n ==> i in order)
    && (forall i :: 0 <= i < n ==> stamp[i] < clock)
    && (forall i, j :: 0 <= i < j < |order| ==> stamp[order[i]] > stamp[order[j]])
  }

  /** Insert node b right after the head. */
  lemma Inserted(next: seq<nat>, prev: seq<nat>, order: seq<nat>, n: nat, b: nat)
    requires Linked(next, prev, order, n) && b < n && b !in order
    ensures next[n] <= n
    ensures var f := next[n];
            Linked(next[b := f][n := b], prev[b := n][f := b], [b] + order, n)
  {
    var r, r' := Ring(order, n), Ring([b] + order, n);
    assert Hop(next, prev, r, 0);
    var f := next[n];
    var next', prev' := next[b := f][n := b], prev[b := n][f := b];
    forall k | 0 <= k <= |order| + 1 ensures Hop(next', prev', r', k) {
      if k >= 2 {
        assert Hop(next, prev, r, k - 1);
        assert r'[k] == r[k - 1] == order[k - 2] && r'[k + 1] == r[k];
        assert r[1] == order[0];
      }
    }
  }

  /** Take node order[i] out of the list. */
  lemma Removed(next: seq<nat>, prev: seq<nat>, order: seq<nat>, n: nat, i: nat)
    requires Linked(next, prev, order, n) && i < |order|
    ensures next[order[i]] <= n && prev[order[i]] <= n
    ensures var nx, pv := next[order[i]], prev[order[i]];
            Linked(next[pv := nx], prev[nx := pv], order[..i] + order[i + 1..], n)
  {
    var rest := order[..i] + order[i + 1..];
    var r, r' := Ring(order, n), Ring(rest, n);
    assert Hop(next, prev, r, i) && Hop(next, prev, r, i + 1);
    var nx, pv := next[order[i]], prev[order[i]];
    assert pv == r[i] && nx == r[i + 2];
    var next', prev' := next[pv := nx], prev[nx := pv];
    forall k | 0 <= k <= |rest| ensures Hop(next', prev', r', k) {
      if k < i {
        assert Hop(next, prev, r, k);
        assert r'[k] == r[k] && r'[k + 1] == r[k + 1];
        assert r[k] != r[i] || i == k;
      } else if k == i {
        assert r'[k] == r[k] && r'[k + 1] == r[k + 2];
      } else {
        assert Hop(next, prev, r, k + 1);
        assert r'[k] == r[k + 1] && r'[k + 1] == r[k + 2];
      }
    }
  }

  /** Moving node order[i] to the front, as a sequence of link assignments. */
  lemma Moved(next: seq<nat>, prev: seq<nat>, order: seq<nat>, n: nat, i: nat)
    requires Linked(next, prev, order, n) && i < |order|
    ensures next[order[i]] <= n && prev[order[i]] <= n
    ensures var b := order[i];
            var next1, prev1 := next[prev[b] := next[b]], prev[next[b] := prev[b]];
            && next1[n] <= n
            && Linked(next1[b := next1[n]][n := b], prev1[b := n][next1[n] := b], [b] + (order[..i] + order[i + 1..]), n)
  {
    var b := order[i];
    Removed(next, prev, order, n, i);
    Inserted(next[prev[b] := next[b]], prev[next[b] := prev[b]], order[..i] + order[i + 1..], n, b);
  }

  lemma MovedByRecency(order: seq<nat>, stamp: seq<nat>, clock: nat, n: nat, i: nat)
    requires ByRecency(order, stamp, clock, n) && i < |order|
    ensures ByRecency([order[i]] + (order[..i] + order[i + 1..]), stamp[order[i] := clock], clock + 1, n)
  {
    var b := order[i];
    var order' := [b] + (order[..i] + order[i + 1..]);
    forall k | 0 < k < |order'| ensures order'[k] == order[if k <= i then k - 1 else k] {
    }
    forall x | 0 <= x < n ensures x in order' {
      assert x in order;
    }
  }
}

/** The buffer cache.  Each method is one critical section of bio.c, so any interleaving of
    processes is a sequence of these calls and `Valid` is what every interleaving keeps.
    `contents` is the plain map from block number to contents that the cache implements:
    bwrite and log_write are the only calls that change it. */
module Bio {
  import opened OptionType
  import opened LogSpec
  import opened LruList

  /** The one disk device; device 0 marks a buffer that has never been used. */
  const ROOTDEV: nat := 1

  datatype Buf = Buf(valid: bool, dev: nat, blockno: nat, refcnt: nat, locked: bool, data: Data) {
    predicate Holds(d: nat, b: nat) {
      dev == d && blockno == b
    }

    predicate Pinned(pins: set<int>) {
      dev != 0 && blockno in pins
    }

    /** The buffer after bget handed it out for a block: one more reference, or recycled. */
    function Taken(d: nat, b: nat): Buf {
      if Holds(d, b) then this.(refcnt := refcnt + 1)
      else this.(dev := d, blockno := b, valid := false, refcnt := 1)
    }
  }

  class BufferCache {
    const n: nat                 // NBUF
    var bufs: seq<Buf>
    var next: seq<nat>
    var prev: seq<nat>
    var disk: Disk

    ghost var order: seq<nat>    // buffers from head.next to head.prev
    ghost var stamp: seq<nat>    // when each buffer was last released for good
    ghost var clock: nat
    var users: seq<nat>          // processes between bget and brelse, per buffer
    ghost var pins: set<int>     // blocks whose buffer holds a log pin
    var dirty: set<nat>          // locked buffers modified and not yet written or logged
    ghost var contents: Disk

    ghost predicate ListValid()
      reads this`next, this`prev, this`order, this`stamp, this`clock
    {
      Linked(next, prev, order, n) && ByRecency(order, stamp, clock, n)
    }

    ghost predicate CountsValid()
      reads this`bufs, this`users, this`pins, this`dirty
    {
      && |bufs| == |users| == n
      && (forall i :: 0 <= i < n ==> bufs[i].refcnt == users[i] + if bufs[i].Pinned(pins) then 1 else 0)
      && (forall i :: 0 <= i < n && bufs[i].locked ==> users[i] >= 1)
      && (forall i :: i in dirty ==> i < n && bufs[i].locked && bufs[i].valid)
    }

    ghost predicate DataValid()
      reads this`bufs, this`pins, this`dirty, this`contents, this`disk
    {
      && |bufs| == n && |contents| == |disk|
      && (forall i :: 0 <= i < n ==> BufOk(bufs[i], |disk|))
      && (forall i, j :: 0 <= i < j < n && bufs[i].dev != 0 ==> !bufs[j].Holds(bufs[i].dev, bufs[i].blockno))
      && (forall i :: 0 <= i < n && bufs[i].valid && i !in dirty ==> bufs[i].data == contents[bufs[i].blockno])
      && (forall i :: 0 <= i < n && bufs[i].Pinned(pins) ==> bufs[i].valid)
      && (forall b :: b in pins ==> Cached(ROOTDEV, b))
      && (forall b :: 0 <= b < |disk| ==> disk[b] == contents[b] || b in pins)
    }

    static predicate BufOk(b: Buf, size: nat) {
      if b.dev == 0 then !b.valid && b.refcnt == 0 else b.dev == ROOTDEV && b.blockno < size
    }

    ghost predicate Valid()
      reads this
    {
      ListValid() && CountsValid() && DataValid()
    }

    /** Some buffer holds the block. */
    ghost predicate Cached(dev: nat, blk: nat)
      reads this`bufs
    {
      exists i :: 0 <= i < |bufs| && bufs[i].Holds(dev, blk)
    }

    /** binit */
    constructor (n: nat, disk: Disk)
      ensures Valid() && this.n == n && this.disk == disk && contents == disk
      ensures pins == {} && dirty == {}
      ensures forall i :: 0 <= i < n ==> bufs[i] == Buf(false, 0, 0, 0, false, []) && users[i] == 0
    {
      this.n := n;
      this.disk := disk;
      contents := disk;
      pins, dirty := {}, {};
      users := seq(n, i => 0);
      stamp := seq(n, i => i);
      clock := n;
      bufs := seq(n, i => Buf(false, 0, 0, 0, false, []));
      next := seq(n + 1, i => n);
      prev := seq(n + 1, i => n);
      order := [];
      new;
      assert Hop(next, prev, Ring([], n), 0);
      var b := 0;
      while b < n
        invariant b <= n && |order| == b
        invariant Linked(next, prev, order, n)
        invariant forall i :: 0 <= i < b ==> order[i] == b - 1 - i
        modifies this`next, this`prev, this`order
      {
        Inserted(next, prev, order, n, b);
        var f := next[n];
        next := next[b := f];
        prev := prev[b := n];
        prev := prev[f := b];
        next := next[n := b];
        order := [b] + order;
        b := b + 1;
      }
      forall i | 0 <= i < n ensures i in order {
        assert order[n - 1 - i] == i;
      }
    }

    static ghost predicate AllBusy(bufs: seq<Buf>) {
      forall i :: 0 <= i < |bufs| ==> bufs[i].refcnt > 0
    }

    /** Buffer v is idle and no idle buffer was released before it. */
    ghost predicate LeastRecent(v: nat, bufs: seq<Buf>)
      requires |bufs| == |stamp| && v < |bufs|
      reads this`stamp
    {
      bufs[v].refcnt == 0 && forall i :: 0 <= i < |bufs| && bufs[i].refcnt == 0 ==> stamp[v] <= stamp[i]
    }

    /** bget's first loop: walk from the most recently used end for a cached block. */
    method Find(dev: nat, blk: nat) returns (r: Option<nat>)
      requires ListValid() && |bufs| == n
      ensures r.None? <==> !Cached(dev, blk)
      ensures r.Some? ==> r.value < n && bufs[r.value].Holds(dev, blk)
    {
      assert Hop(next, prev, Ring(order, n), 0);
      var b := next[n];
      ghost var k := 0;
      while b != n
        invariant 0 <= k <= |order| && b == Ring(order, n)[k + 1]
        invariant forall i :: 0 <= i < k ==> !bufs[order[i]].Holds(dev, blk)
        decreases |order| - k
      {
        if bufs[b].dev == dev && bufs[b].blockno == blk {
          return Some(b);
        }
        assert Hop(next, prev, Ring(order, n), k + 1);
        b, k := next[b], k + 1;
      }
      forall i | 0 <= i < n ensures !bufs[i].Holds(dev, blk) {
        assert i in order;
      }
      return None;
    }

    /** bget's second loop: walk from the least recently used end for an idle buffer;
        it is the idle buffer released longest ago. */
    method FindIdle() returns (r: Option<nat>)
      requires ListValid() && |bufs| == n
      ensures r.None? <==> AllBusy(bufs)
      ensures r.Some? ==> r.value < n && LeastRecent(r.value, bufs)
    {
      assert Hop(next, prev, Ring(order, n), |order|);
      var b := prev[n];
      ghost var k := |order|;
      while b != n
        invariant 0 <= k <= |order| && b == Ring(order, n)[k]
        invariant forall i :: k <= i < |order| ==> bufs[order[i]].refcnt != 0
        decreases k
      {
        if bufs[b].refcnt == 0 {
          forall i | 0 <= i < n && bufs[i].refcnt == 0 ensures stamp[b] <= stamp[i] {
            assert i in order;
          }
          return Some(b);
        }
        assert Hop(next, prev, Ring(order, n), k - 1);
        b, k := prev[b], k - 1;
      }
      forall i | 0 <= i < n ensures bufs[i].refcnt > 0 {
        assert i in order;
      }
      return None;
    }

    /** The part of bget under bcache.lock: take a reference to the buffer of a block,
        recycling the least recently released idle buffer when the block is not cached.
        None is the panic "bget: no buffers". */
    method BGet(dev: nat, blk: nat) returns (r: Option<nat>)
      requires Valid() && dev == ROOTDEV && blk < |disk|
      modifies this`bufs, this`users
      ensures Valid()
      ensures r.None? <==> !old(Cached(dev, blk)) && AllBusy(old(bufs))
      ensures r.None? ==> bufs == old(bufs) && users == old(users)
      ensures r.Some? ==>
        && r.value < n
        && bufs == old(bufs)[r.value := old(bufs[r.value]).Taken(dev, blk)]
        && users == old(users)[r.value := old(users[r.value]) + 1]
      ensures r.Some? ==> (if old(Cached(dev, blk)) then old(bufs[r.value]).Holds(dev, blk) else LeastRecent(r.value, old(bufs)))
    {
      hide ListValid;
      r := Find(dev, blk);
      if r.Some? {
        AddUser(r.value, dev, blk);
      } else {
        r := FindIdle();
        if r.Some? {
          Recycle(r.value, dev, blk);
        }
      }
    }

    method AddUser(b: nat, dev: nat, blk: nat)
      requires CountsValid() && DataValid() && b < n && dev == ROOTDEV && bufs[b].Holds(dev, blk)
      modifies this`bufs, this`users
      ensures CountsValid() && DataValid()
      ensures bufs == old(bufs)[b := old(bufs[b]).Taken(dev, blk)]
      ensures users == old(users)[b := old(users[b]) + 1]
    {
      bufs := bufs[b := bufs[b].(refcnt := bufs[b].refcnt + 1)];
      users := users[b := users[b] + 1];
    }

    /** Re-use an idle buffer for another block: nothing is lost, because an idle buffer is
        neither pinned nor modified, so its old block is the same on disk. */
    method Recycle(b: nat, dev: nat, blk: nat)
      requires CountsValid() && DataValid() && b < n && bufs[b].refcnt == 0
      requires dev == ROOTDEV && blk < |disk| && !Cached(dev, blk)
      modifies this`bufs, this`users
      ensures CountsValid() && DataValid()
      ensures !old(bufs[b]).Pinned(pins) && (old(bufs[b].valid) ==> disk[old(bufs[b].blockno)] == old(bufs[b].data))
      ensures bufs == old(bufs)[b := old(bufs[b]).Taken(dev, blk)]
      ensures users == old(users)[b := old(users[b]) + 1]
    {
      bufs := bufs[b := bufs[b].(dev := dev, blockno := blk, valid := false, refcnt := 1)];
      users := users[b := users[b] + 1];
    }

    /** acquiresleep on a buffer, at the moment the sleep lock is free. */
    method Lock(b: nat)
      requires Valid() && b < n && users[b] >= 1 && !bufs[b].locked
      modifies this`bufs
      ensures Valid() && bufs == old(bufs)[b := old(bufs[b]).(locked := true)]
    {
      bufs := bufs[b := bufs[b].(locked := true)];
    }

    /** The rest of bread: a buffer that is not valid is read from the disk. */
    method Fill(b: nat)
      requires Valid() && b < n && bufs[b].locked && b !in dirty && bufs[b].dev == ROOTDEV
      modifies this`bufs
      ensures Valid()
      ensures bufs == old(bufs)[b := old(bufs[b]).(valid := true, data := contents[old(bufs[b].blockno)])]
    {
      if !bufs[b].valid {
        assert disk[bufs[b].blockno] == contents[bufs[b].blockno];
        bufs := bufs[b := bufs[b].(data := disk[bufs[b].blockno])];
        bufs := bufs[b := bufs[b].(valid := true)];
      }
    }

    /** Somebody holds the lock of the buffer that holds the block. */
    ghost predicate LockHeld(dev: nat, blk: nat)
      reads this`bufs
    {
      exists i :: 0 <= i < |bufs| && bufs[i].Holds(dev, blk) && bufs[i].locked
    }

    /** bread, up to the point where it has the buffer, with the block's current contents, or has a reference
        to it and sleeps because somebody holds its lock. */
    method BRead(dev: nat, blk: nat) returns (r: Option<nat>, ready: bool)
      requires Valid() && dev == ROOTDEV && blk < |disk|
      modifies this`bufs, this`users
      ensures Valid()
      ensures r.None? <==> !old(Cached(dev, blk)) && AllBusy(old(bufs))
      ensures r.None? ==> bufs == old(bufs) && users == old(users)
      ensures ready <==> r.Some? && !old(LockHeld(dev, blk))
      ensures r.Some? ==> r.value < n && users == old(users)[r.value := old(users[r.value]) + 1]
      ensures r.Some? && ready ==>
        && r.value !in dirty
        && bufs == old(bufs)[r.value := old(bufs[r.value]).Taken(dev, blk).(locked := true, valid := true, data := contents[blk])]
      ensures r.Some? && !ready ==> bufs == old(bufs)[r.value := old(bufs[r.value]).Taken(dev, blk)]
      ensures r.Some? ==> (if old(Cached(dev, blk)) then old(bufs[r.value]).Holds(dev, blk) else LeastRecent(r.value, old(bufs)))
    {
      r := BGet(dev, blk);
      ready := false;
      if r.Some? {
        assert bufs[r.value].Holds(dev, blk);
        ready := !bufs[r.value].locked;
        if ready {
          Lock(r.value);
          Fill(r.value);
        }
      }
    }

    /** The holder of a locked buffer changes its data. */
    method SetData(b: nat, data: Data)
      requires Valid() && b < n && bufs[b].locked && bufs[b].valid
      modifies this`bufs, this`dirty
      ensures Valid() && dirty == old(dirty) + {b}
      ensures bufs == old(bufs)[b := old(bufs[b]).(data := data)]
    {
      dirty := dirty + {b};
      bufs := bufs[b := bufs[b].(data := data)];
    }

    method BWrite(b: nat)
      requires Valid() && b < n && bufs[b].locked && bufs[b].valid
      modifies this`disk, this`contents, this`dirty
      ensures Valid() && dirty == old(dirty) - {b}
      ensures disk == old(disk)[bufs[b].blockno := bufs[b].data]
      ensures contents == old(contents)[bufs[b].blockno := bufs[b].data]
    {
      disk := disk[bufs[b].blockno := bufs[b].data];
      contents := contents[bufs[b].blockno := bufs[b].data];
      dirty := dirty - {b};
    }

    /** Part of log_write: the data of a pinned buffer becomes the block's contents. */
    method Publish(b: nat)
      requires Valid() && b < n && bufs[b].Pinned(pins) && bufs[b].locked
      modifies this`contents, this`dirty
      ensures Valid() && dirty == old(dirty) - {b}
      ensures contents == old(contents)[bufs[b].blockno := bufs[b].data]
    {
      contents := contents[bufs[b].blockno := bufs[b].data];
      dirty := dirty - {b};
    }

    method BPin(b: nat)
      requires Valid() && b < n && bufs[b].valid && !bufs[b].Pinned(pins)
      modifies this`bufs, this`pins
      ensures Valid() && pins == old(pins) + {bufs[b].blockno}
      ensures bufs == old(bufs)[b := old(bufs[b]).(refcnt := old(bufs[b].refcnt) + 1)]
    {
      pins := pins + {bufs[b].blockno};
      bufs := bufs[b := bufs[b].(refcnt := bufs[b].refcnt + 1)];
    }

    /** A pin is dropped only once the block is home on disk. */
    method BUnpin(b: nat)
      requires Valid() && b < n && bufs[b].Pinned(pins)
      requires disk[bufs[b].blockno] == contents[bufs[b].blockno]
      modifies this`bufs, this`pins
      ensures Valid() && pins == old(pins) - {bufs[b].blockno}
      ensures bufs == old(bufs)[b := old(bufs[b]).(refcnt := old(bufs[b].refcnt) - 1)]
    {
      pins := pins - {bufs[b].blockno};
      bufs := bufs[b := bufs[b].(refcnt := bufs[b].refcnt - 1)];
    }

    /** brelse: unlock, drop the reference, and on the last one move to the head of the list. */
    method BRelse(b: nat)
      requires Valid() && b < n && bufs[b].locked && b !in dirty
      modifies this`bufs, this`users, this`next, this`prev, this`order, this`stamp, this`clock
      ensures Valid()
      ensures bufs == old(bufs)[b := old(bufs[b]).(locked := false, refcnt := old(bufs[b].refcnt) - 1)]
      ensures users == old(users)[b := old(users[b]) - 1]
      ensures if bufs[b].refcnt == 0
              then stamp == old(stamp)[b := old(clock)] && clock == old(clock) + 1
              else stamp == old(stamp) && order == old(order)
    {
      DropUser(b);
      if bufs[b].refcnt == 0 {
        MoveToHead(b);
      }
    }

    method DropUser(b: nat)
      requires CountsValid() && DataValid() && b < n && bufs[b].locked && b !in dirty
      modifies this`bufs, this`users
      ensures CountsValid() && DataValid()
      ensures bufs == old(bufs)[b := old(bufs[b]).(locked := false, refcnt := old(bufs[b].refcnt) - 1)]
      ensures users == old(users)[b := old(users[b]) - 1]
    {
      bufs := bufs[b := bufs[b].(locked := false)];
      bufs := bufs[b := bufs[b].(refcnt := bufs[b].refcnt - 1)];
      users := users[b := users[b] - 1];
    }

    /** The relinking in brelse. */
    method MoveToHead(b: nat)
      requires ListValid() && b < n
      modifies this`next, this`prev, this`order, this`stamp, this`clock
      ensures ListValid()
      ensures stamp == old(stamp)[b := old(clock)] && clock == old(clock) + 1
    {
      assert b in order;
      ghost var i :| 0 <= i < |order| && order[i] == b;
      Moved(next, prev, order, n, i);
      var nx, pv := next[b], prev[b];
      var nexts, prevs := next[pv := nx], prev[nx := pv];
      var f := nexts[n];
      nexts, prevs := nexts[b := f], prevs[b := n];
      prevs := prevs[f := b];
      nexts := nexts[n := b];
      next, prev := nexts, prevs;
      MovedByRecency(order, stamp, clock, n, i);
      order := [b] + (order[..i] + order[i + 1..]);
      stamp := stamp[b := clock];
      clock := clock + 1;
    }
  }
}
