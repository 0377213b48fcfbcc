/** The number of page-table pages that fork and growth need, which `Cow` takes as a parameter, is what the
    tree of `PageTable` lacks. */
module TableNeed {
  import Cow
  import PT = PageTable

  /** The tables that mappages of page v lacks when the pages lo..v-1 have been mapped. */
  function Step(places: set<PT.Node>, root: nat, lo: nat): nat -> nat {
    v => |PT.Path(root, v) - (places + PT.Paths(root, lo, v))|
  }

  /** Added up over the pages lo..hi-1 they are the tables that the way to those pages lacks, so that `Need` counts
      the pages that the walk takes, and `each` more for every page. */
  lemma {:induction false} NeedIsLacking(places: set<PT.Node>, root: nat, lo: nat, hi: nat, each: nat)
    requires lo <= hi
    ensures Cow.Need(Step(places, root, lo), lo, hi, each) == PT.Lacking(places, root, lo, hi) + each * (hi - lo)
    decreases hi
  {
    hide PT.Path, PT.Lacking, Step;
    if lo < hi {
      NeedIsLacking(places, root, lo, hi - 1, each);
      LackingNext(places, root, lo, hi - 1);
      Times(each, hi - 1 - lo);
    } else {
      LackingNone(places, root, lo);
    }
  }

  lemma LackingNone(places: set<PT.Node>, root: nat, lo: nat)
    ensures PT.Lacking(places, root, lo, lo) == 0
  {}

  lemma LackingNext(places: set<PT.Node>, root: nat, lo: nat, v: nat)
    requires lo <= v
    ensures PT.Lacking(places, root, lo, v + 1) == PT.Lacking(places, root, lo, v) + Step(places, root, lo)(v)
  {
    hide PT.Path;
    var was, more := PT.Paths(root, lo, v), PT.Path(root, v);
    assert (was + more) - places == (was - places) + (more - (places + was));
  }

  lemma Times(a: nat, n: nat)
    ensures a * (n + 1) == a * n + a
  {}
}
