/** Who owns a physical page: user leaf mappings and kernel holders, and what nump_using
    and the free list say about it. */
module PageCounts {
  import opened Machine

  /** A valid leaf entry of a user page table: the physical page and the permission bits. */
  datatype Pte = Pte(pa: nat, r: bool, w: bool, x: bool, u: bool, cow: bool)

  /** All user leaf mappings, keyed by page table and virtual page number. */
  type Leaves = map<Key, Pte>

  function Owners(leaf: Leaves, p: nat): set<Key> {
    set k | k in leaf && leaf[k].pa == p
  }

  /** nump_using counts the owners of every page. */
  ghost predicate Counted(count: seq<int>, leaf: Leaves, kern: seq<nat>) {
    && (forall k :: k in leaf ==> leaf[k].pa < |count|)
    && |kern| == |count|
    && (forall p :: 0 <= p < |count| ==> count[p] == |Owners(leaf, p)| + kern[p])
  }

  /** A page is on the free list, once, exactly when nobody owns it and no kalloc or kfree
      of it is between its two critical sections. */
  ghost predicate Listed(count: seq<int>, freelist: seq<nat>, inflight: set<nat>) {
    && (forall p :: p in freelist || p in inflight ==> p < |count|)
    && (forall i, j :: 0 <= i < j < |freelist| ==> freelist[i] != freelist[j])
    && (forall p :: 0 <= p < |count| ==> (p in freelist <==> count[p] == 0 && p !in inflight))
    && (forall p :: p in inflight ==> count[p] == 0)
  }

  /** A writable leaf is the only owner of its page; kernel pages are not user pages. */
  ghost predicate Exclusive(count: seq<int>, leaf: Leaves, kern: seq<nat>) {
    forall k :: k in leaf ==>
      leaf[k].pa < |count| == |kern| && kern[leaf[k].pa] == 0 && (leaf[k].w ==> count[leaf[k].pa] == 1)
  }

  /** Two leaves reach the same page. */
  predicate Alias(leaf: Leaves, k: Key, l: Key) {
    k in leaf && l in leaf && leaf[k].pa == leaf[l].pa
  }

  /** Pages are shared only at the same address, as fork leaves them. */
  ghost predicate Lined(leaf: Leaves) {
    forall k, l {:trigger Alias(leaf, k, l)} :: Alias(leaf, k, l) ==> k.1 == l.1
  }

  lemma LinedUnmap(leaf: Leaves, k: Key)
    requires Lined(leaf)
    ensures Lined(leaf - {k})
  {
    forall a, b | Alias(leaf - {k}, a, b) ensures a.1 == b.1 {
      assert Alias(leaf, a, b);
    }
  }

  lemma LinedFresh(leaf: Leaves, k: Key, pte: Pte)
    requires Lined(leaf) && forall l :: l in leaf && l != k ==> leaf[l].pa != pte.pa
    ensures Lined(leaf[k := pte])
  {
    forall a, b | Alias(leaf[k := pte], a, b) ensures a.1 == b.1 {
      assert a == b || Alias(leaf, a, b);
    }
  }

  lemma LinedFlags(leaf: Leaves, k: Key, pte: Pte)
    requires Lined(leaf) && k in leaf && pte.pa == leaf[k].pa
    ensures Lined(leaf[k := pte])
  {
    forall a, b | Alias(leaf[k := pte], a, b) ensures a.1 == b.1 {
      assert Alias(leaf, a, b);
    }
  }

  lemma LinedShare(leaf: Leaves, k: Key, l: Key)
    requires Lined(leaf) && k in leaf && l.1 == k.1
    ensures Lined(leaf[l := leaf[k]])
  {
    forall a, b | Alias(leaf[l := leaf[k]], a, b) ensures a.1 == b.1 {
      assert Alias(leaf, if a == l then k else a, if b == l then k else b);
    }
  }

  /** No other leaf reaches the page of a writable one. */
  lemma WritableAlone(count: seq<int>, leaf: Leaves, kern: seq<nat>, k: Key, l: Key)
    requires Counted(count, leaf, kern) && Exclusive(count, leaf, kern)
    requires k in leaf && l in leaf && leaf[k].w && leaf[l].pa == leaf[k].pa
    ensures k == l
  {
    OneOwner(leaf, k);
  }

  lemma OwnersMap(leaf: Leaves, k: Key, pte: Pte, p: nat)
    requires k !in leaf
    ensures |Owners(leaf[k := pte], p)| == |Owners(leaf, p)| + if p == pte.pa then 1 else 0
  {
    var was := Owners(leaf, p);
    assert Owners(leaf[k := pte], p) == if p == pte.pa then was + {k} else was;
  }

  lemma OwnersUnmap(leaf: Leaves, k: Key, p: nat)
    requires k in leaf
    ensures |Owners(leaf - {k}, p)| == |Owners(leaf, p)| - if p == leaf[k].pa then 1 else 0
  {
    assert Owners(leaf - {k}, p) == Owners(leaf, p) - {k};
  }

  /** Changing permission bits changes no owner. */
  lemma OwnersFlags(leaf: Leaves, k: Key, pte: Pte, p: nat)
    requires k in leaf && pte.pa == leaf[k].pa
    ensures Owners(leaf[k := pte], p) == Owners(leaf, p)
  {}

  lemma OneOwner(leaf: Leaves, k: Key)
    requires k in leaf
    ensures |Owners(leaf, leaf[k].pa)| >= 1
    ensures |Owners(leaf, leaf[k].pa)| == 1 ==> forall l :: l in leaf && leaf[l].pa == leaf[k].pa ==> l == k
  {
    var o := Owners(leaf, leaf[k].pa);
    assert k in o;
    if |o| == 1 {
      assert |o - {k}| == 0;
      assert o == {k};
      forall l | l in leaf && leaf[l].pa == leaf[k].pa ensures l == k {
        assert l in o;
      }
    }
  }

  /** A page whose count is zero is mapped by nobody and held by nobody. */
  lemma Unowned(count: seq<int>, leaf: Leaves, kern: seq<nat>, p: nat)
    requires Counted(count, leaf, kern) && p < |count| && count[p] == 0
    ensures kern[p] == 0 && forall k :: k in leaf ==> leaf[k].pa != p
  {
    forall k | k in leaf ensures leaf[k].pa != p {
      if leaf[k].pa == p {
        OneOwner(leaf, k);
      }
    }
  }

  /** A page held by the kernel has no other owner. */
  lemma KernelOnly(count: seq<int>, leaf: Leaves, kern: seq<nat>, p: nat)
    requires Counted(count, leaf, kern) && Exclusive(count, leaf, kern) && p < |kern| && kern[p] > 0
    ensures count[p] == kern[p] && forall k :: k in leaf ==> leaf[k].pa != p
  {
    assert Owners(leaf, p) == {};
  }

  /** kfree of a kernel page and the count that goes with it. */
  lemma CountedRelease(count: seq<int>, leaf: Leaves, kern: seq<nat>, p: nat)
    requires Counted(count, leaf, kern) && p < |kern| && kern[p] > 0
    ensures Counted(count[p := count[p] - 1], leaf, kern[p := kern[p] - 1])
  {}

  lemma CountedAlloc(count: seq<int>, leaf: Leaves, kern: seq<nat>, p: nat)
    requires Counted(count, leaf, kern) && p < |count| && count[p] == 0
    ensures Counted(count[p := 1], leaf, kern[p := 1])
  {
    Unowned(count, leaf, kern, p);
  }

  /** Clearing a leaf drops one owner of its page. */
  lemma CountedUnmap(count: seq<int>, leaf: Leaves, kern: seq<nat>, k: Key)
    requires Counted(count, leaf, kern) && k in leaf
    ensures var p := leaf[k].pa;
            count[p] >= 1 && Counted(count[p := count[p] - 1], leaf - {k}, kern)
  {
    OneOwner(leaf, k);
    forall q ensures |Owners(leaf - {k}, q)| == |Owners(leaf, q)| - if q == leaf[k].pa then 1 else 0 {
      OwnersUnmap(leaf, k, q);
    }
  }

  /** Setting a leaf adds one owner of its page. */
  lemma CountedMap(count: seq<int>, leaf: Leaves, kern: seq<nat>, k: Key, pte: Pte)
    requires Counted(count, leaf, kern) && k !in leaf && pte.pa < |count|
    ensures Counted(count[pte.pa := count[pte.pa] + 1], leaf[k := pte], kern)
  {
    forall q ensures |Owners(leaf[k := pte], q)| == |Owners(leaf, q)| + if q == pte.pa then 1 else 0 {
      OwnersMap(leaf, k, pte, q);
    }
  }

  lemma CountedFlags(count: seq<int>, leaf: Leaves, kern: seq<nat>, k: Key, pte: Pte)
    requires Counted(count, leaf, kern) && k in leaf && pte.pa == leaf[k].pa
    ensures Counted(count, leaf[k := pte], kern)
  {
    forall q ensures Owners(leaf[k := pte], q) == Owners(leaf, q) {
      OwnersFlags(leaf, k, pte, q);
    }
  }

  /** One owner less: a page that loses its last owner is in flight to the free list. */
  lemma ListedDrop(count: seq<int>, freelist: seq<nat>, inflight: set<nat>, p: nat)
    requires Listed(count, freelist, inflight) && p < |count| && count[p] >= 1
    ensures Listed(count[p := count[p] - 1], freelist, if count[p] > 1 then inflight else inflight + {p})
  {}

  lemma ListedPush(count: seq<int>, freelist: seq<nat>, inflight: set<nat>, p: nat)
    requires Listed(count, freelist, inflight) && p in inflight
    ensures Listed(count, [p] + freelist, inflight - {p})
  {}

  lemma ListedPop(count: seq<int>, freelist: seq<nat>, inflight: set<nat>)
    requires Listed(count, freelist, inflight) && freelist != []
    ensures Listed(count, freelist[1..], inflight + {freelist[0]})
    ensures freelist[0] < |count| && count[freelist[0]] == 0 && freelist[0] !in inflight
  {
    assert freelist == [freelist[0]] + freelist[1..];
    assert freelist[0] in freelist && freelist[0] !in freelist[1..];
    forall p | p in freelist[1..] ensures p in freelist {
    }
  }

  lemma ListedTake(count: seq<int>, freelist: seq<nat>, inflight: set<nat>, p: nat)
    requires Listed(count, freelist, inflight) && p in inflight
    ensures Listed(count[p := 1], freelist, inflight - {p})
  {}

  /** A page the kernel holds becomes the page of a new leaf: same number of owners. */
  lemma CountedAdopt(count: seq<int>, leaf: Leaves, kern: seq<nat>, k: Key, pte: Pte)
    requires Counted(count, leaf, kern) && k !in leaf && pte.pa < |kern| && kern[pte.pa] == 1
    ensures Counted(count, leaf[k := pte], kern[pte.pa := 0])
  {
    forall q ensures |Owners(leaf[k := pte], q)| == |Owners(leaf, q)| + if q == pte.pa then 1 else 0 {
      OwnersMap(leaf, k, pte, q);
    }
  }

  /** A leaf moves from its page to one the kernel holds. */
  lemma CountedMove(count: seq<int>, leaf: Leaves, kern: seq<nat>, k: Key, pte: Pte)
    requires Counted(count, leaf, kern) && k in leaf && pte.pa < |kern| && kern[pte.pa] == 1
    ensures var p := leaf[k].pa;
            count[p] >= 1 && Counted(count[p := count[p] - 1], leaf[k := pte], kern[pte.pa := 0])
  {
    var p := leaf[k].pa;
    CountedUnmap(count, leaf, kern, k);
    CountedAdopt(count[p := count[p] - 1], leaf - {k}, kern, k, pte);
    assert (leaf - {k})[k := pte] == leaf[k := pte];
  }

  lemma ExclusiveUnmap(count: seq<int>, leaf: Leaves, kern: seq<nat>, k: Key)
    requires Counted(count, leaf, kern) && Exclusive(count, leaf, kern) && k in leaf
    ensures var p := leaf[k].pa; Exclusive(count[p := count[p] - 1], leaf - {k}, kern)
  {
    var p := leaf[k].pa;
    forall l | l in leaf - {k} && leaf[l].pa == p ensures !leaf[l].w {
      if leaf[l].w {
        WritableAlone(count, leaf, kern, l, k);
      }
    }
  }

  /** Clearing a leaf and giving up its page keeps all the books. */
  lemma UnmapKeeps(count: seq<int>, freelist: seq<nat>, leaf: Leaves, kern: seq<nat>, inflight: set<nat>, k: Key)
    requires Counted(count, leaf, kern) && Listed(count, freelist, inflight) && Exclusive(count, leaf, kern)
    requires k in leaf
    ensures var p := leaf[k].pa;
            var count' := count[p := count[p] - 1];
            && count[p] >= 1
            && Counted(count', leaf - {k}, kern)
            && Listed(count', freelist, if count[p] > 1 then inflight else inflight + {p})
            && Exclusive(count', leaf - {k}, kern)
  {
    CountedUnmap(count, leaf, kern, k);
    ExclusiveUnmap(count, leaf, kern, k);
    ListedDrop(count, freelist, inflight, leaf[k].pa);
  }

  /** Sharing the page of a read-only leaf with a new one adds an owner. */
  lemma ShareKeeps(count: seq<int>, freelist: seq<nat>, leaf: Leaves, kern: seq<nat>, inflight: set<nat>, k: Key, l: Key)
    requires Counted(count, leaf, kern) && Listed(count, freelist, inflight) && Exclusive(count, leaf, kern)
    requires k in leaf && l !in leaf && !leaf[k].w
    ensures var p := leaf[k].pa;
            var count' := count[p := count[p] + 1];
            && Counted(count', leaf[l := leaf[k]], kern)
            && Listed(count', freelist, inflight)
            && Exclusive(count', leaf[l := leaf[k]], kern)
  {
    CountedMap(count, leaf, kern, l, leaf[k]);
    OneOwner(leaf, k);
    forall m | m in leaf && leaf[m].pa == leaf[k].pa ensures !leaf[m].w {
      if leaf[m].w {
        WritableAlone(count, leaf, kern, m, k);
      }
    }
  }

  /** Moving a leaf to a page of its own, as the COW fault does, keeps all the books. */
  lemma MoveKeeps(count: seq<int>, freelist: seq<nat>, leaf: Leaves, kern: seq<nat>, inflight: set<nat>, k: Key, pte: Pte)
    requires Counted(count, leaf, kern) && Listed(count, freelist, inflight) && Exclusive(count, leaf, kern)
    requires k in leaf && pte.pa < |kern| && kern[pte.pa] == 1
    ensures var p := leaf[k].pa;
            var count' := count[p := count[p] - 1];
            && p < |count| == |kern| && count[p] >= 1 && p != pte.pa && p !in inflight
            && Counted(count', leaf[k := pte], kern[pte.pa := 0])
            && Listed(count', freelist, if count[p] > 1 then inflight else inflight + {p})
            && Exclusive(count', leaf[k := pte], kern[pte.pa := 0])
  {
    KernelOnly(count, leaf, kern, pte.pa);
    CountedMove(count, leaf, kern, k, pte);
    ExclusiveUnmap(count, leaf, kern, k);
    ListedDrop(count, freelist, inflight, leaf[k].pa);
    forall l | l in leaf && l != k ensures l in leaf - {k} {
    }
  }
}
