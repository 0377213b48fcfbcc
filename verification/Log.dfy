/** Moving whole blocks through the buffer cache, as recovery does before any other process runs, and the
    loops over the header block. */
module BlockCopy {
  import opened OptionType
  import opened LogSpec
  import opened Bio

  /** No process is between bget and brelse. */
  ghost predicate Quiet(cache: BufferCache)
    reads cache`users, cache`dirty
  {
    cache.dirty == {} && forall i :: 0 <= i < |cache.users| ==> cache.users[i] == 0
  }

  /** Buffer b is locked by us and holds block x. */
  ghost predicate Held(cache: BufferCache, b: nat, x: nat)
    reads cache
  {
    && b < |cache.bufs| && x < |cache.contents|
    && cache.bufs[b].Holds(ROOTDEV, x) && cache.bufs[b].locked && cache.bufs[b].valid
    && cache.bufs[b].data == cache.contents[x]
  }

  /** Exactly buffers a and b are in use, for blocks x and y. */
  ghost predicate HeldTwo(cache: BufferCache, a: nat, x: nat, b: nat, y: nat)
    reads cache
  {
    && Held(cache, a, x) && Held(cache, b, y) && a != b && cache.dirty == {}
    && forall i :: 0 <= i < |cache.users| ==> cache.users[i] == if i == a || i == b then 1 else 0
  }

  /** How many of the first k buffers some process uses. */
  function InUse(users: seq<nat>, k: nat): (n: nat)
    requires k <= |users|
    ensures n <= k
  {
    if k == 0 then 0 else InUse(users, k - 1) + if users[k - 1] > 0 then 1 else 0
  }

  lemma {:induction false} OneInUse(users: seq<nat>, k: nat, a: nat)
    requires k <= |users| && forall i :: 0 <= i < |users| && i != a ==> users[i] == 0
    ensures InUse(users, k) <= if a < k then 1 else 0
  {
    if k > 0 {
      OneInUse(users, k - 1, a);
    }
  }

  /** If the first k buffers are all pinned or used, there are that many pins and used buffers. */
  lemma {:induction false} Crowded(bufs: seq<Buf>, users: seq<nat>, pins: set<int>, k: nat)
    requires k <= |bufs| == |users|
    requires forall i, j :: 0 <= i < j < k && users[i] == 0 && users[j] == 0 ==> bufs[i].blockno != bufs[j].blockno
    requires forall i :: 0 <= i < k && users[i] == 0 ==> bufs[i].blockno in pins
    ensures k <= |pins| + InUse(users, k)
  {
    if k > 0 {
      if users[k - 1] > 0 {
        Crowded(bufs, users, pins, k - 1);
      } else {
        Crowded(bufs, users, pins - {bufs[k - 1].blockno}, k - 1);
      }
    }
  }

  /** With fewer pins and used buffers than buffers, some buffer is idle. */
  lemma IdleExists(cache: BufferCache)
    requires cache.Valid() && |cache.pins| + InUse(cache.users, cache.n) < cache.n
    ensures !BufferCache.AllBusy(cache.bufs)
  {
    hide BufferCache.ListValid, InUse;
    if BufferCache.AllBusy(cache.bufs) {
      forall i | 0 <= i < cache.n && cache.users[i] == 0 ensures cache.bufs[i].Pinned(cache.pins) {
        assert cache.bufs[i].refcnt > 0;
      }
      Crowded(cache.bufs, cache.users, cache.pins, cache.n);
    }
  }

  /** Exactly buffer a is in use, for block x. */
  ghost predicate HeldOne(cache: BufferCache, a: nat, x: nat)
    reads cache
  {
    && Held(cache, a, x) && cache.dirty == {}
    && forall i :: 0 <= i < |cache.users| ==> cache.users[i] == if i == a then 1 else 0
  }

  /** bread while nobody uses the cache: a pin-free buffer suffices. */
  method BReadFirst(cache: BufferCache, x: nat) returns (a: nat)
    requires cache.Valid() && Quiet(cache) && x < |cache.disk| && |cache.pins| < cache.n
    modifies cache`bufs, cache`users
    ensures cache.Valid() && HeldOne(cache, a, x)
  {
    OneInUse(cache.users, cache.n, cache.n);
    IdleExists(cache);
    var r, ready := cache.BRead(ROOTDEV, x);
    a := r.value;
  }

  /** bread of a second block, which is pinned in the cache or finds one more buffer. */
  method BReadSecond(cache: BufferCache, ghost a: nat, ghost x: nat, y: nat) returns (b: nat)
    requires cache.Valid() && HeldOne(cache, a, x) && y < |cache.disk| && x != y
    requires |cache.pins| + 1 < cache.n || y in cache.pins
    modifies cache`bufs, cache`users
    ensures cache.Valid() && HeldTwo(cache, a, x, b, y)
  {
    if y !in cache.pins {
      OneInUse(cache.users, cache.n, a);
      IdleExists(cache);
    }
    var r, ready := cache.BRead(ROOTDEV, y);
    b := r.value;
  }

  /** memmove one held buffer onto the other and bwrite it. */
  method WriteOver(cache: BufferCache, from: nat, x: nat, to: nat, y: nat)
    requires cache.Valid() && HeldTwo(cache, from, x, to, y)
    modifies cache`bufs, cache`dirty, cache`disk, cache`contents
    ensures cache.Valid() && HeldTwo(cache, from, x, to, y)
    ensures cache.disk == old(cache.disk)[y := old(cache.contents)[x]]
    ensures cache.contents == old(cache.contents)[y := old(cache.contents)[x]]
  {
    cache.SetData(to, cache.bufs[from].data);
    cache.BWrite(to);
  }

  method ReleaseTwo(cache: BufferCache, a: nat, x: nat, b: nat, y: nat)
    requires cache.Valid() && HeldTwo(cache, a, x, b, y)
    modifies cache`bufs, cache`users, cache`next, cache`prev, cache`order, cache`stamp, cache`clock
    ensures cache.Valid() && Quiet(cache)
  {
    cache.BRelse(a);
    cache.BRelse(b);
  }

  /** bread two blocks, in this order. */
  method Fetch(cache: BufferCache, x: nat, y: nat) returns (a: nat, b: nat)
    requires cache.Valid() && Quiet(cache) && x < |cache.disk| && y < |cache.disk| && x != y
    requires |cache.pins| < cache.n && (|cache.pins| + 1 < cache.n || y in cache.pins)
    modifies cache`bufs, cache`users
    ensures cache.Valid() && HeldTwo(cache, a, x, b, y)
  {
    a := BReadFirst(cache, x);
    b := BReadSecond(cache, a, x, y);
  }

  /** memmove, bwrite and the two brelse calls. */
  method Store(cache: BufferCache, from: nat, x: nat, to: nat, y: nat)
    requires cache.Valid() && HeldTwo(cache, from, x, to, y)
    modifies cache
    ensures cache.Valid() && Quiet(cache) && cache.pins == old(cache.pins)
    ensures cache.disk == old(cache.disk)[y := old(cache.contents)[x]]
    ensures cache.contents == old(cache.contents)[y := old(cache.contents)[x]]
  {
    WriteOver(cache, from, x, to, y);
    ReleaseTwo(cache, from, x, to, y);
  }

  /** One iteration of install_trans during recovery: nothing is pinned. */
  method RecopyHome(cache: BufferCache, log: nat, home: nat)
    requires cache.Valid() && Quiet(cache) && home < |cache.disk| && log < |cache.disk| && home != log
    requires |cache.pins| + 1 < cache.n
    modifies cache
    ensures cache.Valid() && Quiet(cache) && cache.pins == old(cache.pins)
    ensures cache.disk == old(cache.disk)[home := old(cache.contents)[log]]
    ensures cache.contents == old(cache.contents)[home := old(cache.contents)[log]]
  {
    var lbuf, dbuf := Fetch(cache, log, home);
    Store(cache, lbuf, log, dbuf, home);
  }

  /** The loop of write_head: store the count and the entries. */
  method FillHead(was: Data, lh: seq<int>) returns (d: Data)
    requires |lh| < |was|
    ensures d == PutHead(was, lh)
  {
    d := was[0 := |lh|];
    var i := 0;
    while i < |lh|
      invariant i <= |lh| && |d| == |was| && d == [|lh|] + lh[..i] + was[1 + i..]
    {
      d := d[1 + i := lh[i]];
      i := i + 1;
    }
    assert lh[..i] == lh;
  }

  /** The loop of read_head. */
  method ParseHead(d: Data) returns (lh: seq<int>)
    requires |d| > 0 && 0 <= d[0] < |d|
    ensures lh == HeadList(d)
  {
    lh := [];
    var i := 0;
    while i < d[0]
      invariant 0 <= i <= d[0] && lh == d[1..1 + i]
    {
      lh := lh + [d[1 + i]];
      i := i + 1;
    }
  }

  /** write_head at the end of recovery: one write of the header block. */
  method WriteHead(cache: BufferCache, start: nat, lh: seq<int>)
    requires cache.Valid() && Quiet(cache) && |cache.pins| < cache.n
    requires start < |cache.disk| && start !in cache.pins && |lh| < |cache.disk[start]|
    modifies cache
    ensures cache.Valid() && Quiet(cache) && cache.pins == old(cache.pins)
    ensures cache.disk == old(cache.disk)[start := PutHead(old(cache.disk)[start], lh)]
    ensures cache.contents == old(cache.contents)[start := PutHead(old(cache.disk)[start], lh)]
  {
    var b := BReadFirst(cache, start);
    var d := FillHead(cache.bufs[b].data, lh);
    PutOne(cache, b, start, d);
  }

  /** bread, copy the data out, brelse. */
  method ReadBlock(cache: BufferCache, x: nat) returns (d: Data)
    requires cache.Valid() && Quiet(cache) && x < |cache.disk| && |cache.pins| < cache.n
    modifies cache`bufs, cache`users, cache`next, cache`prev, cache`order, cache`stamp, cache`clock
    ensures cache.Valid() && Quiet(cache) && d == cache.contents[x]
  {
    var b := BReadFirst(cache, x);
    d := cache.bufs[b].data;
    cache.BRelse(b);
  }

  /** Change a held buffer, bwrite and brelse it. */
  method PutOne(cache: BufferCache, b: nat, ghost x: nat, d: Data)
    requires cache.Valid() && HeldOne(cache, b, x)
    modifies cache
    ensures cache.Valid() && Quiet(cache) && cache.pins == old(cache.pins)
    ensures cache.disk == old(cache.disk)[x := d] && cache.contents == old(cache.contents)[x := d]
  {
    cache.SetData(b, d);
    cache.BWrite(b);
    cache.BRelse(b);
  }
}

/** The processes that use the log and the buffer cache, as sequences of critical sections.  Between two of its
    sections the process that commits holds references to buffers, and locks on some of them. */
module Committer {
  import opened OptionType
  import opened LogSpec
  import opened LogProof
  import opened Bio

  /** Where it is in copying a block: it has taken a reference to the first buffer, locked it, the same for
      the second, or it is giving back what it holds. */
  datatype Pc = Ready | Want1(a: nat) | Got1(a: nat) | Want2(a: nat, b: nat) | Got2(a: nat, b: nat) | Leaving(bufs: seq<nat>)

  /** How a section ends: done, not possible now, the panic of bget, or the panic of log_write. */
  datatype Progress = Moved | Waits | NoBuffers | TooBig

  /** A critical section of some other process: bget, acquiresleep, the disk read of bread, brelse. */
  datatype Access = Get(blk: nat) | Acquire(b: nat) | Load(b: nat) | Release(b: nat)

  predicate Copying(p: Phase) {
    p.WritingLog? || p.Installing?
  }

  predicate Heading(p: Phase) {
    p.WritingHead? || p.Clearing?
  }

  /** The block that is read first: a log block or the header. */
  function Block1(c: Config, p: Phase): nat {
    if Copying(p) then c.start + p.tail + 1 else c.start
  }

  /** The buffers it has locked, and the one it waits for. */
  function Locked(pc: Pc): seq<nat> {
    match pc
    case Got1(a) => [a]
    case Want2(a, _) => [a]
    case Got2(a, b) => [a, b]
    case Leaving(bufs) => bufs
    case _ => []
  }

  predicate Awaits(pc: Pc, b: nat) {
    (pc.Want1? && pc.a == b) || (pc.Want2? && pc.b == b)
  }

  /** Buffer a is locked by us and holds the contents of block x. */
  ghost predicate Has(bufs: seq<Buf>, contents: Disk, a: nat, x: int) {
    && a < |bufs| && 0 <= x < |contents| && bufs[a].Holds(ROOTDEV, x) && bufs[a].locked && bufs[a].valid
    && bufs[a].data == contents[x]
  }

  /** We have a reference to buffer a, which holds block x; somebody else may have it locked. */
  ghost predicate Wants(bufs: seq<Buf>, users: seq<nat>, a: nat, x: int) {
    && a < |bufs| == |users| && x >= 0 && bufs[a].Holds(ROOTDEV, x)
    && users[a] >= 1 + if bufs[a].locked then 1 else 0
  }

  ghost predicate PcOk(c: Config, pc: Pc, p: Phase, lh: seq<int>, bufs: seq<Buf>, users: seq<nat>, contents: Disk) {
    && (pc.Want1? || pc.Got1? ==> Copying(p) || Heading(p))
    && (pc.Want2? || pc.Got2? ==> Copying(p) && p.tail < |lh| && pc.a != pc.b)
    && match pc
       case Ready => true
       case Want1(a) => Wants(bufs, users, a, Block1(c, p))
       case Got1(a) => Has(bufs, contents, a, Block1(c, p))
       case Want2(a, b) => Has(bufs, contents, a, Block1(c, p)) && Wants(bufs, users, b, lh[p.tail])
       case Got2(a, b) => Has(bufs, contents, a, Block1(c, p)) && Has(bufs, contents, b, lh[p.tail])
       case Leaving(rest) =>
         && 0 < |rest| <= 2 && (|rest| == 2 ==> rest[0] != rest[1])
         && forall i :: 0 <= i < |rest| ==> rest[i] < |bufs| && bufs[rest[i]].locked && bufs[rest[i]].valid
  }

  lemma ReadyOk(c: Config, p: Phase, lh: seq<int>, bufs: seq<Buf>, users: seq<nat>, contents: Disk)
    ensures PcOk(c, Ready, p, lh, bufs, users, contents)
  {}

  /** The lock that is waited for has been taken. */
  lemma LockedNow(c: Config, pc: Pc, p: Phase, lh: seq<int>, bufs: seq<Buf>, users: seq<nat>, contents: Disk, b: nat, now: seq<Buf>)
    requires PcOk(c, pc, p, lh, bufs, users, contents) && Awaits(pc, b) && b < |bufs| == |now| && now == bufs[b := now[b]]
    requires Has(now, contents, b, if pc.Want1? then Block1(c, p) else lh[p.tail])
    ensures PcOk(c, if pc.Want1? then Got1(b) else Got2(pc.a, b), p, lh, now, users, contents)
  {}

  /** Buffer b is the one that is waited for. */
  lemma Waiting(c: Config, pc: Pc, p: Phase, lh: seq<int>, bufs: seq<Buf>, users: seq<nat>, contents: Disk, b: nat)
    requires PcOk(c, pc, p, lh, bufs, users, contents) && Awaits(pc, b)
    ensures (pc.Want2? ==> Copying(p) && p.tail < |lh|) && Wants(bufs, users, b, if pc.Want1? then Block1(c, p) else lh[p.tail])
  {}

  /** Both blocks are locked, and different buffers. */
  lemma GotBoth(c: Config, pc: Pc, p: Phase, lh: seq<int>, bufs: seq<Buf>, users: seq<nat>, contents: Disk)
    requires PcOk(c, pc, p, lh, bufs, users, contents) && pc.Got2?
    ensures p.tail < |lh| && pc.a != pc.b && Has(bufs, contents, pc.a, Block1(c, p)) && Has(bufs, contents, pc.b, lh[p.tail])
  {}

  lemma GotHeader(c: Config, pc: Pc, p: Phase, lh: seq<int>, bufs: seq<Buf>, users: seq<nat>, contents: Disk)
    requires PcOk(c, pc, p, lh, bufs, users, contents) && pc.Got1? && Heading(p)
    ensures Has(bufs, contents, pc.a, c.start)
  {}

  lemma LeavingOk(c: Config, rest: seq<nat>, p: Phase, lh: seq<int>, bufs: seq<Buf>, users: seq<nat>, contents: Disk)
    requires 0 < |rest| <= 2 && (|rest| == 2 ==> rest[0] != rest[1])
    requires forall i :: 0 <= i < |rest| ==> rest[i] < |bufs| && bufs[rest[i]].locked && bufs[rest[i]].valid
    ensures PcOk(c, Leaving(rest), p, lh, bufs, users, contents)
  {}

  /** Another process takes a reference: what we hold is in use, so it is not recycled. */
  lemma OthersGet(c: Config, pc: Pc, p: Phase, lh: seq<int>, bufs: seq<Buf>, users: seq<nat>, contents: Disk, b: nat, blk: nat)
    requires PcOk(c, pc, p, lh, bufs, users, contents) && b < |bufs| == |users|
    requires bufs[b].Holds(ROOTDEV, blk) || bufs[b].refcnt == 0
    requires forall i :: 0 <= i < |bufs| ==> bufs[i].refcnt >= users[i]
    requires forall i :: 0 <= i < |bufs| && bufs[i].locked ==> users[i] >= 1
    ensures PcOk(c, pc, p, lh, bufs[b := bufs[b].Taken(ROOTDEV, blk)], users[b := users[b] + 1], contents)
  {}

  lemma OthersLock(c: Config, pc: Pc, p: Phase, lh: seq<int>, bufs: seq<Buf>, users: seq<nat>, contents: Disk, b: nat)
    requires PcOk(c, pc, p, lh, bufs, users, contents) && b < |bufs| == |users| && !bufs[b].locked
    requires users[b] >= 1 + if Awaits(pc, b) then 1 else 0
    ensures PcOk(c, pc, p, lh, bufs[b := bufs[b].(locked := true)], users, contents)
  {}

  lemma OthersLoad(c: Config, pc: Pc, p: Phase, lh: seq<int>, bufs: seq<Buf>, users: seq<nat>, contents: Disk, b: nat, data: Data)
    requires PcOk(c, pc, p, lh, bufs, users, contents) && b < |bufs| == |users| && b !in Locked(pc)
    ensures PcOk(c, pc, p, lh, bufs[b := bufs[b].(valid := true, data := data)], users, contents)
  {}

  lemma OthersRelease(c: Config, pc: Pc, p: Phase, lh: seq<int>, bufs: seq<Buf>, users: seq<nat>, contents: Disk, b: nat)
    requires PcOk(c, pc, p, lh, bufs, users, contents) && b < |bufs| == |users| && b !in Locked(pc)
    requires bufs[b].locked && bufs[b].refcnt >= users[b] >= 1
    ensures PcOk(c, pc, p, lh, bufs[b := bufs[b].(locked := false, refcnt := bufs[b].refcnt - 1)], users[b := users[b] - 1], contents)
  {}

  /** The sections that are left of a commit before a phase: seven for each block that is copied (two references,
      two locks, the copy, two releases) and four for each header write. */
  function Ahead(p: Phase, n: nat): int {
    match p
    case WritingLog(t) => 7 * (n - t) + 4 + 7 * n + 4
    case WritingHead => 4 + 7 * n + 4
    case Installing(t) => 7 * (n - t) + 4
    case Clearing => 4
    case _ => 0
  }

  /** The sections that are left of a commit. */
  function Left(p: Phase, n: nat, pc: Pc): int {
    match pc
    case Ready => Ahead(p, n)
    case Want1(_) => Ahead(p, n) - 1
    case Got1(_) => Ahead(p, n) - 2
    case Want2(_, _) => Ahead(p, n) - 3
    case Got2(_, _) => Ahead(p, n) - 4
    case Leaving(bufs) => Ahead(p, n) + |bufs|
  }

  /** How the next section ends, given what the buffers look like. */
  ghost function Expected(c: Config, p: Phase, lh: seq<int>, pc: Pc, bufs: seq<Buf>): Progress
    requires forall i :: 0 <= i < |lh| ==> lh[i] >= 0
  {
    match pc
    case Ready => if Obtainable(bufs, Block1(c, p)) then Moved else NoBuffers
    case Want1(a) => if a < |bufs| && bufs[a].locked then Waits else Moved
    case Got1(_) => if Copying(p) && p.tail < |lh| && !Obtainable(bufs, lh[p.tail]) then NoBuffers else Moved
    case Want2(_, b) => if b < |bufs| && bufs[b].locked then Waits else Moved
    case _ => Moved
  }

  /** bget hands out buffer a for a block. */
  ghost predicate HandsOut(bufs: seq<Buf>, users: seq<nat>, blk: nat, now: seq<Buf>, usersNow: seq<nat>, a: nat) {
    && a < |bufs| == |users| && (bufs[a].Holds(ROOTDEV, blk) || bufs[a].refcnt == 0)
    && now == bufs[a := bufs[a].Taken(ROOTDEV, blk)] && usersNow == users[a := users[a] + 1]
  }

  /** What a section of another process does, when the commit is at pc: a process locks a buffer to which it has a
      reference, and reads into or releases one that it has locked and not changed since it was logged; anything
      else does not happen. */
  ghost predicate Accessed(bufs: seq<Buf>, users: seq<nat>, dirty: set<nat>, pc: Pc, contents: Disk, t: Access, now: seq<Buf>, usersNow: seq<nat>) {
    match t
    case Get(blk) =>
      if blk < |contents| && Obtainable(bufs, blk) then exists a :: HandsOut(bufs, users, blk, now, usersNow, a)
      else now == bufs && usersNow == users
    case Acquire(b) =>
      && usersNow == users
      && now == if b < |bufs| == |users| && !bufs[b].locked && users[b] >= 1 + (if Awaits(pc, b) then 1 else 0)
                  then bufs[b := bufs[b].(locked := true)] else bufs
    case Load(b) =>
      && usersNow == users
      && now == if b < |bufs| && bufs[b].locked && b !in Locked(pc) && b !in dirty && bufs[b].dev == ROOTDEV && bufs[b].blockno < |contents|
                  then bufs[b := bufs[b].(valid := true, data := contents[bufs[b].blockno])] else bufs
    case Release(b) =>
      if b < |bufs| == |users| && bufs[b].locked && b !in Locked(pc) && b !in dirty && bufs[b].refcnt > 0 && users[b] > 0
      then now == bufs[b := bufs[b].(locked := false, refcnt := bufs[b].refcnt - 1)] && usersNow == users[b := users[b] - 1]
      else now == bufs && usersNow == users
  }

  /** A section of some process: the next one of the commit, the end of end_op after it, one pass of begin_op, a
      change of a locked buffer within an operation, log_write, end_op up to the commit, or a use of the cache. */
  datatype Turn =
    | Mine
    | Finish
    | Start(op: nat)
    | Modify(b: nat, data: Data, op: nat)
    | LogIt(b: nat, op: nat)
    | Stop(op: nat)
    | Other(t: Access)

  /** The cache, what the commit holds and the log machine at one moment. */
  datatype Moment = Moment(bufs: seq<Buf>, users: seq<nat>, dirty: set<nat>, contents: Disk, pc: Pc, state: State) {
    function ToGo(): int {
      Left(state.phase, |state.lh|, pc)
    }
  }

  /** The block that a section of the commit writes. */
  function Dest(c: Config, s: State): int {
    if s.phase.Installing? && s.phase.tail < |s.lh| then s.lh[s.phase.tail] else Block1(c, s.phase)
  }

  /** The section writes a block. */
  predicate Writes(p: Phase, pc: Pc) {
    pc.Got2? || (pc.Got1? && Heading(p))
  }

  /** Only buffer a changed, and only as stated by its new value. */
  predicate OnlyBuf(bufs: seq<Buf>, a: nat, now: seq<Buf>) {
    a < |bufs| == |now| && now == bufs[a := now[a]]
  }

  /** What a done section of the commit does to the buffers: it takes one as bget does, locks and fills the one it
      waits for, changes the data of the one it writes (and unpins a home block), or gives one back. */
  ghost predicate Handled(c: Config, m: Moment, n: Moment) {
    var p, lh := m.state.phase, m.state.lh;
    match m.pc
    case Ready => n.pc.Want1? && HandsOut(m.bufs, m.users, Block1(c, p), n.bufs, n.users, n.pc.a)
    case Want1(a) => n.pc == Got1(a) && Filled(m, a, n)
    case Got1(a) =>
      if Copying(p) then
        && p.tail < |lh| && lh[p.tail] >= 0 && n.pc.Want2? && n.pc.a == a
        && HandsOut(m.bufs, m.users, lh[p.tail], n.bufs, n.users, n.pc.b)
      else
        && n.pc == Leaving([a]) && n.users == m.users && OnlyBuf(m.bufs, a, n.bufs)
        && n.bufs[a] == m.bufs[a].(data := n.bufs[a].data)
    case Want2(a, b) => n.pc == Got2(a, b) && Filled(m, b, n)
    case Got2(a, b) =>
      && n.users == m.users && a < |m.bufs| && b < |m.bufs|
      && if p.WritingLog? then n.pc == Leaving([b, a]) && n.bufs == m.bufs[a := m.bufs[a].(data := m.bufs[b].data)]
         else n.pc == Leaving([a, b]) && OnlyBuf(m.bufs, b, n.bufs) && n.bufs[b].refcnt + 1 == m.bufs[b].refcnt
              && n.bufs[b] == m.bufs[b].(data := m.bufs[a].data, refcnt := n.bufs[b].refcnt)
    case Leaving(rest) =>
      && rest != [] && n.pc == (if |rest| == 1 then Ready else Leaving(rest[1..]))
      && rest[0] < |m.bufs| == |m.users| && m.bufs[rest[0]].refcnt > 0 && m.users[rest[0]] > 0
      && n.bufs == m.bufs[rest[0] := m.bufs[rest[0]].(locked := false, refcnt := m.bufs[rest[0]].refcnt - 1)]
      && n.users == m.users[rest[0] := m.users[rest[0]] - 1]
  }

  ghost predicate Filled(m: Moment, a: nat, n: Moment) {
    && n.users == m.users && OnlyBuf(m.bufs, a, n.bufs) && !m.bufs[a].locked && m.bufs[a].blockno < |m.contents|
    && n.bufs[a] == m.bufs[a].(locked := true, valid := true, data := m.contents[m.bufs[a].blockno])
  }

  /** A done section of the commit.  One that writes a block is a step of the log machine. */
  ghost predicate Sectioned(c: Config, m: Moment, n: Moment) {
    && Handled(c, m, n) && n.dirty == m.dirty && n.ToGo() == m.ToGo() - 1
    && if Writes(m.state.phase, m.pc) then Steps(c, m.state, Commit, n.state) && Put(c, m, n)
       else n.state == m.state && n.contents == m.contents
  }

  /** The sections that write, given the machine step that they carry out. */
  lemma LogSection(c: Config, m: Moment, n: Moment)
    requires m.pc.Got2? && m.state.phase.WritingLog? && Steps(c, m.state, Commit, n.state) && n.pc == Leaving([m.pc.b, m.pc.a])
    requires m.pc.a < |m.bufs| && m.pc.b < |m.bufs| && n.bufs == m.bufs[m.pc.a := m.bufs[m.pc.a].(data := m.bufs[m.pc.b].data)]
    requires Put(c, m, n)
    ensures Sectioned(c, m, n)
  {
    hide Shape;
  }

  lemma HomeSection(c: Config, m: Moment, n: Moment)
    requires m.pc.Got2? && m.state.phase.Installing? && Steps(c, m.state, Commit, n.state) && n.pc == Leaving([m.pc.a, m.pc.b])
    requires m.pc.a < |m.bufs| && OnlyBuf(m.bufs, m.pc.b, n.bufs) && n.bufs[m.pc.b].refcnt + 1 == m.bufs[m.pc.b].refcnt
    requires n.bufs[m.pc.b] == m.bufs[m.pc.b].(data := m.bufs[m.pc.a].data, refcnt := n.bufs[m.pc.b].refcnt)
    requires Put(c, m, n)
    ensures Sectioned(c, m, n)
  {}

  lemma HeadSection(c: Config, m: Moment, n: Moment)
    requires m.pc.Got1? && Heading(m.state.phase) && Steps(c, m.state, Commit, n.state) && n.pc == Leaving([m.pc.a])
    requires OnlyBuf(m.bufs, m.pc.a, n.bufs) && n.bufs[m.pc.a] == m.bufs[m.pc.a].(data := n.bufs[m.pc.a].data)
    requires Put(c, m, n)
    ensures Sectioned(c, m, n)
  {}

  /** One block is written, on the disk and in the contents. */
  ghost predicate Put(c: Config, m: Moment, n: Moment) {
    && n.users == m.users && n.dirty == m.dirty && 0 <= Dest(c, m.state) < |m.contents| == |n.state.disk|
    && n.contents == m.contents[Dest(c, m.state) := n.state.disk[Dest(c, m.state)]]
  }

  /** The caller may change the data of a buffer. */
  predicate MayModify(c: Config, m: Moment, b: nat, data: Data, op: nat) {
    && m.state.phase == Idle && HasOp(m.state.ops, op) && |data| == c.words
    && b < |m.bufs| && m.bufs[b].locked && m.bufs[b].valid
  }

  /** The caller may pass a buffer to log_write: it has it locked, and is within its budget. */
  ghost predicate MayLog(c: Config, m: Moment, b: nat, op: nat) {
    b < |m.bufs| && m.bufs[b].locked && m.bufs[b].valid && InBudget(c, m.state, op, m.bufs[b].blockno, m.bufs[b].data)
  }

  /** log_write: a new block is pinned, and the data become the contents of the block. */
  ghost predicate Recorded(c: Config, m: Moment, b: nat, op: nat, n: Moment)
    requires b < |m.bufs|
  {
    var blk, data := m.bufs[b].blockno, m.bufs[b].data;
    && blk < |m.contents| && Steps(c, m.state, LogWrite(op, blk, data), n.state)
    && n == Moment(m.bufs[b := m.bufs[b].(refcnt := m.bufs[b].refcnt + if blk in m.state.lh then 0 else 1)], m.users, m.dirty - {b},
                   m.contents[blk := data], m.pc, n.state)
  }

  /** A turn takes m to n.  What is not possible now, or would break the duty of a caller (to change buffers only
      within an operation, to log what it has changed before it lets go of it, to begin and end operations in
      turn), does not happen. */
  ghost predicate Turned(c: Config, m: Moment, turn: Turn, r: Progress, n: Moment) {
    match turn
    case Mine =>
      if !m.state.committing || m.ToGo() <= 0 then r == Waits && n == m
      else
        && (forall i :: 0 <= i < |m.state.lh| ==> m.state.lh[i] >= 0) && r == Expected(c, m.state.phase, m.state.lh, m.pc, m.bufs)
        && if r == Moved then Sectioned(c, m, n) else n == m
    case Finish =>
      if m.state.phase == Finishing && m.pc == Ready then r == Moved && Steps(c, m.state, Commit, n.state) && n == m.(state := n.state)
      else r == Waits && n == m
    case Start(op) =>
      if Enabled(c, m.state, BeginOp(op)) then r == Moved && Steps(c, m.state, BeginOp(op), n.state) && n == m.(state := n.state)
      else r == Waits && n == m
    case Modify(b, data, op) =>
      if MayModify(c, m, b, data, op) then r == Moved && n == m.(bufs := m.bufs[b := m.bufs[b].(data := data)], dirty := m.dirty + {b})
      else r == Waits && n == m
    case LogIt(b, op) =>
      if !MayLog(c, m, b, op) then r == Waits && n == m
      else if |m.state.lh| < c.Room() then r == Moved && Recorded(c, m, b, op, n)
      else r == TooBig && n == m
    case Stop(op) =>
      if Enabled(c, m.state, EndOp(op)) && (|m.state.ops| == 1 ==> m.dirty == {}) then
        r == Moved && Steps(c, m.state, EndOp(op), n.state) && n == m.(state := n.state)
      else r == Waits && n == m
    case Other(t) =>
      && r == (if t.Get? && t.blk < |m.contents| && !Obtainable(m.bufs, t.blk) then NoBuffers else Waits)
      && n == m.(bufs := n.bufs, users := n.users) && Accessed(m.bufs, m.users, m.dirty, m.pc, m.contents, t, n.bufs, n.users)
  }

  predicate Panics(r: Progress) {
    r == NoBuffers || r == TooBig
  }

  /** Turns in any order, up to a panic. */
  ghost predicate Interleaving(c: Config, trace: seq<Moment>, turns: seq<Turn>, rs: seq<Progress>) {
    && |rs| <= |turns| && |trace| == |rs| + 1
    && (forall i :: 0 <= i < |rs| ==> Turned(c, trace[i], turns[i], rs[i], trace[i + 1]))
    && (forall i :: 0 <= i < |rs| - 1 ==> !Panics(rs[i]))
    && (|rs| < |turns| ==> rs != [] && Panics(rs[|rs| - 1]))
  }

  /** A turn is a step of the log machine or leaves it alone. */
  lemma TurnSteps(c: Config, m: Moment, turn: Turn, r: Progress, n: Moment)
    requires Turned(c, m, turn, r, n)
    ensures n.state == m.state || Follows(c, m.state, n.state)
  {
    hide Shape, Enabled, Do, Handled, Expected, Obtainable, Accessed, Left;
  }

  /** However the turns come, what is durable stays durable. */
  lemma {:induction false} TurnsLast(c: Config, trace: seq<Moment>, turns: seq<Turn>, rs: seq<Progress>, i: nat, j: nat)
    requires Interleaving(c, trace, turns, rs) && i <= j < |trace| && trace[i].state.durable <= |trace[i].state.trace|
    ensures Lasts(trace[i].state, trace[j].state)
    decreases j
  {
    hide Turned, Shape, Enabled, Do;
    if i < j {
      TurnsLast(c, trace, turns, rs, i, j - 1);
      assert Turned(c, trace[j - 1], turns[j - 1], rs[j - 1], trace[j]);
      TurnSteps(c, trace[j - 1], turns[j - 1], rs[j - 1], trace[j]);
      if trace[j].state != trace[j - 1].state {
        FollowsLasts(c, trace[j - 1].state, trace[j].state);
      }
    }
  }

  function Advances(rs: seq<Progress>): nat {
    if rs == [] then 0 else Advances(rs[..|rs| - 1]) + if rs[|rs| - 1] == Moved then 1 else 0
  }

  /** A commit is running. */
  ghost predicate Running(m: Moment) {
    m.state.committing && m.state.phase != Idle
  }

  /** However the turns come, from moment k to moment n of a run, while a commit runs, it has as many sections left as
      it had, less those that were done, and the history and the operations stay. */
  lemma {:induction false} CommitProgress(c: Config, trace: seq<Moment>, turns: seq<Turn>, rs: seq<Progress>, k: nat, n: nat)
    requires Interleaving(c, trace, turns, rs) && k <= n <= |rs| && forall i :: k <= i <= n ==> Running(trace[i])
    ensures trace[n].ToGo() == trace[k].ToGo() - Advances(rs[k..n])
    ensures trace[n].state.trace == trace[k].state.trace && trace[n].state.ops == trace[k].state.ops
    decreases n
  {
    hide Left, Expected, Obtainable, Handled, Accessed, Interleaving;
    if k < n {
      CommitProgress(c, trace, turns, rs, k, n - 1);
      OneCommitTurn(c, trace, turns, rs, n - 1);
      assert rs[k..n][..n - 1 - k] == rs[k..n - 1];
    }
  }

  lemma OneCommitTurn(c: Config, trace: seq<Moment>, turns: seq<Turn>, rs: seq<Progress>, i: nat)
    requires Interleaving(c, trace, turns, rs) && i < |rs| && Running(trace[i]) && Running(trace[i + 1])
    ensures trace[i + 1].ToGo() == trace[i].ToGo() - if rs[i] == Moved then 1 else 0
    ensures trace[i + 1].state.trace == trace[i].state.trace && trace[i + 1].state.ops == trace[i].state.ops
  {
    hide Left, Expected, Obtainable, Handled, Accessed, Shape;
    assert Turned(c, trace[i], turns[i], rs[i], trace[i + 1]);
  }

  /** bget finds the block in the cache, or a buffer that nobody uses. */
  ghost predicate Obtainable(bufs: seq<Buf>, x: nat) {
    (exists i :: 0 <= i < |bufs| && bufs[i].Holds(ROOTDEV, x)) || !BufferCache.AllBusy(bufs)
  }
}

/** log.c over the buffer cache.  The class keeps, as a ghost, the run of the log machine it
    performs: every block write is one machine step, so whatever is proved about all runs
    (LogProof) holds of the disk at every moment of these methods. */
module Log {
  import opened OptionType
  import opened LogSpec
  import opened LogProof
  import opened Bio
  import opened BlockCopy
  import opened Committer

  /** What the code needs of the machine's invariant in the last state of a run. */
  lemma LastState(c: Config, boot: Disk, run: seq<State>)
    requires |run| > 0 && DiskOk(c, boot) && IsRun(c, run) && run[0] == Boot(boot)
    ensures var s := run[|run| - 1];
            && Shape(c, s) && (s.committing <==> s.phase != Idle && !Recovering(s.phase)) && (s.phase != Idle ==> s.ops == [])
            && (s.phase.Reclearing? || s.phase.Reinstalling? ==> HeadList(s.disk[c.start]) == s.lh)
            && (s.phase.Installing? ==> LogHolds(c, s, |s.lh|))
            && (s.phase.Finishing? ==> s.durable == |s.trace| && s.lh == [])
            && (forall i, j :: 0 <= i < j < |s.ops| ==> s.ops[i].id != s.ops[j].id)
  {
    hide IsRun, Replay, Open, Carries, CleanOutside, HomeEq, Installed;
    RunInv(c, boot, run, |run| - 1);
  }

  class Log {
    const c: Config
    const cache: BufferCache
    var lh: seq<int>
    var outstanding: nat
    var ops: seq<Op>             // the outstanding operations, each with the blocks it has logged
    var committing: bool
    var phase: Phase             // how far commit or recovery has come
    var pc: Pc                   // what the committing process holds

    ghost const boot: Disk       // the disk when the machine was powered on
    ghost var run: seq<State>

    /** Power on: an empty cache over whatever the disk holds (initlog before recovery). */
    constructor (c: Config, nbuf: nat, disk: Disk)
      requires DiskOk(c, disk)
      ensures Valid() && fresh(cache) && Quiet(cache) && cache.n == nbuf
      ensures this.c == c && boot == disk == cache.disk && run == [Boot(disk)]
    {
      this.c, boot, run := c, disk, [Boot(disk)];
      lh, outstanding, ops, committing, phase, pc := [], 0, [], false, Booting, Ready;
      cache := new BufferCache(nbuf, disk);
    }

    /** The machine state the log is in. */
    ghost function Now(): (s: State)
      requires |run| > 0
      reads this`run
    {
      run[|run| - 1]
    }

    ghost predicate RunValid()
      reads this`run
    {
      |run| > 0 && DiskOk(c, boot) && IsRun(c, run) && run[0] == Boot(boot)
    }

    /** How many listed blocks are already home. */
    static function Settled(p: Phase, n: nat): nat {
      match p
      case Installing(t) => t
      case Clearing => n
      case _ => 0
    }

    /** The blocks listed from position t on. */
    static function Pending(lh: seq<int>, t: nat): set<int>
      decreases |lh| - t
    {
      if t < |lh| then {lh[t]} + Pending(lh, t + 1) else {}
    }

    static lemma {:induction false} PendingFacts(c: Config, lh: seq<int>, t: nat)
      requires ListOk(c, lh) && t <= |lh|
      ensures |Pending(lh, t)| == |lh| - t
      ensures forall b :: b in Pending(lh, t) ==> c.Home(b)
      ensures forall j :: 0 <= j < t ==> lh[j] !in Pending(lh, t)
      decreases |lh| - t
    {
      if t < |lh| {
        PendingFacts(c, lh, t + 1);
        assert c.Home(lh[t]);
      }
    }

    static lemma PendingPop(c: Config, lh: seq<int>, t: nat)
      requires c.Ok() && ListOk(c, lh) && t < |lh|
      ensures c.Home(lh[t]) && lh[t] in Pending(lh, t) && Pending(lh, t) - {lh[t]} == Pending(lh, t + 1)
      ensures |Pending(lh, t)| <= |lh| && c.start + t + 1 !in Pending(lh, t)
    {
      PendingFacts(c, lh, t);
      PendingFacts(c, lh, t + 1);
      assert c.Home(lh[t]) && !c.Home(c.start + t + 1);
    }

    static lemma {:induction false} PendingAbsorb(lh: seq<int>, b: int, t: nat)
      requires t <= |lh|
      ensures b in lh[t..] ==> b in Pending(lh, t)
      ensures b !in lh[t..] ==> b !in Pending(lh, t)
      ensures Pending(lh + [b], t) == Pending(lh, t) + {b}
      decreases |lh| - t
    {
      if t < |lh| {
        PendingAbsorb(lh, b, t + 1);
        assert lh[t..] == [lh[t]] + lh[t + 1..];
      } else {
        assert Pending(lh + [b], t + 1) == {};
      }
    }

    /** The cache, seen as values, is in the machine state. */
    static ghost predicate Matches(c: Config, s: State, disk: Disk, contents: Disk, pins: set<int>) {
      && s.disk == disk && |disk| == |contents| == c.nblocks
      && (!Recovering(s.phase) ==> HomeEq(c, s.cur, contents))
      && (if Recovering(s.phase) then pins == {} && contents == disk else pins == Pending(s.lh, Settled(s.phase, |s.lh|)))
    }

    /** Blocks that are not pinned are the same on disk and in the contents. */
    static ghost predicate Synced(disk: Disk, contents: Disk, pins: set<int>) {
      |disk| == |contents| && forall b :: 0 <= b < |disk| ==> disk[b] == contents[b] || b in pins
    }

    ghost predicate Valid()
      reads this, cache
    {
      && RunValid() && cache.Valid() && Matches(c, Now(), cache.disk, cache.contents, cache.pins)
      && Now().lh == lh && Now().ops == ops && |ops| == outstanding && Now().committing == committing && Now().phase == phase
      && PcOk(c, pc, phase, lh, cache.bufs, cache.users, cache.contents)
      && if committing then cache.dirty == {} else pc == Ready
    }

    /** The disk can be lost at any time: recovering it as it is now yields the contents after
        the durable part of the history, which cuts no operation in two. */
    lemma AlwaysRecoverable()
      requires Valid()
      ensures Now().disk == cache.disk && Recoverable(c, boot, Now())
    {
      CrashSafety(c, boot, run, |run| - 1);
    }

    static ghost predicate Recoverable(c: Config, boot: Disk, s: State) {
      && DiskOk(c, boot) && DiskOk(c, s.disk) && s.durable <= |s.trace|
      && HomeEq(c, RecoverDisk(c, s.disk), Replay(RecoverDisk(c, boot), s.trace[..s.durable]))
      && Open(s.trace[..s.durable]) == {}
    }

    /** What the methods below need of the machine's invariant. */
    lemma Basics()
      requires RunValid()
      ensures Shape(c, Now())
      ensures Now().committing <==> Now().phase != Idle && !Recovering(Now().phase)
      ensures Now().phase != Idle ==> Now().ops == []
      ensures Now().phase.Reclearing? || Now().phase.Reinstalling? ==> HeadList(Now().disk[c.start]) == Now().lh
      ensures Now().phase.Installing? ==> LogHolds(c, Now(), |Now().lh|)
    {
      LastState(c, boot, run);
    }

    /** bget does not panic while the listed blocks and the buffers in use do not fill the cache. */
    lemma BufferForCommit(x: nat)
      requires Valid() && !Recovering(phase) && |lh| + InUse(cache.users, cache.n) < cache.n
      ensures Obtainable(cache.bufs, x)
    {
      Basics();
      PendingFacts(c, lh, Settled(phase, |lh|));
      IdleExists(cache);
    }

    /** With as many buffers as log blocks (NBUF and nlog are both 3 * MAXOPBLOCKS), a full log still
        leaves a buffer. */
    lemma HeaderLeavesOne()
      requires Valid() && c.size <= cache.n
      ensures |lh| < cache.n
    {
      RunInv(c, boot, run, |run| - 1);
    }

    ghost method Perform(step: Step)
      requires RunValid() && Enabled(c, Now(), step)
      modifies this`run
      ensures |run| > 0 && RunValid() && Shape(c, old(Now()))
      ensures run == old(run) + [Do(c, old(Now()), step)] && Steps(c, old(Now()), step, Now())
    {
      Basics();
      Extends(c, run, step);
      run := run + [Do(c, Now(), step)];
    }

    /** The position of an operation among those outstanding, or their number. */
    method FindOp(op: nat) returns (i: nat)
      ensures i <= |ops| && (i < |ops| ==> ops[i].id == op)
      ensures i == |ops| <==> !HasOp(ops, op)
    {
      i := 0;
      while i < |ops| && ops[i].id != op
        invariant i <= |ops| && forall j :: 0 <= j < i ==> ops[j].id != op
      {
        i := i + 1;
      }
    }

    /** The operations have different names. */
    lemma TheOp(op: nat, i: nat)
      requires RunValid() && i < |Now().ops| && Now().ops[i].id == op
      ensures HasOp(Now().ops, op) && OpIndex(Now().ops, op) == i
    {
      LastState(c, boot, run);
    }

    /** One pass of begin_op's loop: false means the caller sleeps and tries again. */
    method BeginOp(op: nat) returns (ok: bool)
      requires Valid() && !Recovering(phase) && !HasOp(ops, op)
      modifies this`outstanding, this`ops, this`run
      ensures Valid()
      ensures ok <==> !committing && |lh| + (old(outstanding) + 1) * c.maxOp <= c.logSize
      ensures ok ==> run[..|run| - 1] == old(run) && ops == old(ops) + [Op(op, {})] && Now().trace == old(Now().trace) + [Begin(op)]
      ensures ok ==> Steps(c, old(Now()), LogSpec.BeginOp(op), Now())
      ensures !ok ==> run == old(run) && ops == old(ops)
    {
      hide BufferCache.Valid, IsRun, PcOk, HomeEq, Pending, HasOp, Shape;
      Basics();
      if committing {
        return false;
      } else if |lh| + (outstanding + 1) * c.maxOp > c.logSize {
        return false;
      }
      Perform(LogSpec.BeginOp(op));
      outstanding, ops := outstanding + 1, ops + [Op(op, {})];
      return true;
    }

    /** end_op up to the commit: the last operation out has to commit.  By then all changes are logged. */
    method EndOp(op: nat) returns (last: bool)
      requires Valid() && phase == Idle && HasOp(ops, op)
      requires outstanding == 1 ==> cache.dirty == {}
      modifies this`outstanding, this`ops, this`committing, this`phase, this`run
      ensures Valid() && outstanding == old(outstanding) - 1 && (last <==> outstanding == 0) && committing == last
      ensures var i := OpIndex(old(ops), op); ops == old(ops)[..i] + old(ops)[i + 1..]
      ensures Now().trace == old(Now().trace) + [End(op)] && Steps(c, old(Now()), LogSpec.EndOp(op), Now())
      ensures phase == if !last then Idle else if lh == [] then Finishing else WritingLog(0)
    {
      hide BufferCache.Valid, RunValid, PcOk, HomeEq, Pending, Steps;
      IdleNotCommitting();
      var i := FindOp(op);
      PerformEnd(op, i);
      outstanding, ops := outstanding - 1, ops[..i] + ops[i + 1..];
      last := outstanding == 0;
      if last {
        committing := true;
        phase := if |lh| > 0 then WritingLog(0) else Finishing;
      }
      ReadyOk(c, phase, lh, cache.bufs, cache.users, cache.contents);
    }

    /** end_op after the commit: the whole history is durable. */
    method FinishOp()
      requires Valid() && phase == Finishing && pc == Ready
      modifies this`committing, this`phase, this`run
      ensures Valid() && phase == Idle && !committing && lh == []
      ensures Now().trace == old(Now().trace) && Now().durable == |Now().trace| && Steps(c, old(Now()), LogSpec.Commit, Now())
    {
      Durable();
      committing, phase := false, Idle;
      PerformDone();
    }

    /** The machine step of end_op's first half, with its effect spelt out. */
    ghost method PerformEnd(op: nat, i: nat)
      requires RunValid() && Now().phase == Idle && i < |Now().ops| && Now().ops[i].id == op && !Now().committing
      modifies this`run
      ensures |run| > 0 && RunValid() && Steps(c, old(Now()), LogSpec.EndOp(op), Now()) && i == OpIndex(old(Now()).ops, op)
      ensures Now().ops == old(Now()).ops[..i] + old(Now()).ops[i + 1..] && Now().trace == old(Now().trace) + [End(op)]
      ensures Now().disk == old(Now().disk) && Now().cur == old(Now().cur) && Now().lh == old(Now().lh)
      ensures Now().committing <==> |Now().ops| == 0
      ensures Now().phase == if |Now().ops| > 0 then Idle else if Now().lh == [] then Finishing else WritingLog(0)
    {
      TheOp(op, i);
      Perform(LogSpec.EndOp(op));
    }

    ghost method PerformDone()
      requires RunValid() && Now().phase == Finishing
      modifies this`run
      ensures |run| > 0 && RunValid() && Now() == old(Now()).(committing := false, phase := Idle) && Steps(c, old(Now()), LogSpec.Commit, Now())
    {
      Perform(LogSpec.Commit);
    }

    ghost method PerformCommit()
      requires RunValid() && Enabled(c, Now(), LogSpec.Commit)
      modifies this`run
      ensures |run| > 0 && RunValid() && Shape(c, old(Now())) && Now() == CommitStep(c, old(Now())) && Steps(c, old(Now()), LogSpec.Commit, Now())
    {
      Perform(LogSpec.Commit);
    }

    lemma IdleNotCommitting()
      requires RunValid() && Now().phase == Idle
      ensures !Now().committing
    {
      LastState(c, boot, run);
    }

    lemma Durable()
      requires RunValid() && Now().phase == Finishing
      ensures Now().durable == |Now().trace| && Now().lh == []
    {
      LastState(c, boot, run);
    }

    // ----- commit among other processes ---------------------------------------------------

    /** The sections of the commit that are left. */
    function Remaining(): int
      reads this`phase, this`lh, this`pc
    {
      Left(phase, |lh|, pc)
    }

    /** The state of cache, commit and log. */
    ghost function Present(): Moment
      requires |run| > 0
      reads this, cache
    {
      Moment(cache.bufs, cache.users, cache.dirty, cache.contents, pc, Now())
    }

    /** The next critical section of commit.  It is done, unless the buffer it waits for is locked, or bget finds
        no buffer for a block that is not cached. */
    method CommitTurn() returns (r: Progress)
      requires Valid() && committing && Remaining() > 0
      modifies this`lh, this`phase, this`pc, this`run, cache
      ensures Valid() && committing
      ensures (forall i :: 0 <= i < |old(lh)| ==> old(lh)[i] >= 0) && r == Expected(c, old(phase), old(lh), old(pc), old(cache.bufs))
      ensures if r == Moved then Sectioned(c, old(Present()), Present()) else Present() == old(Present())
    {
      hide Valid, Obtainable, Sectioned;
      Blocks();
      if pc.Got2? || pc.Leaving? || (pc.Got1? && !Copying(phase)) {
        WorkTurn();
        r := Moved;
      } else {
        r := ReadTurn();
      }
    }

    /** A section of bread: a reference or a lock. */
    method ReadTurn() returns (r: Progress)
      requires Valid() && committing && Remaining() > 0 && !pc.Got2? && !pc.Leaving? && (pc.Got1? ==> Copying(phase))
      modifies this`pc, cache`bufs, cache`users
      ensures Valid() && (forall i :: 0 <= i < |lh| ==> lh[i] >= 0) && r == Expected(c, phase, lh, old(pc), old(cache.bufs))
      ensures if r == Moved then Sectioned(c, old(Present()), Present()) else Present() == old(Present())
    {
      hide Valid, Obtainable, Sectioned;
      Blocks();
      match pc
      case Ready =>
        r := Take1();
      case Want1(a) =>
        r := Lock1(a);
      case Got1(a) =>
        r := Take2(a);
      case Want2(a, b) =>
        r := Lock2(a, b);
    }

    /** A section that writes a block or gives a buffer back. */
    method WorkTurn()
      requires Valid() && committing && (pc.Got2? || pc.Leaving? || (pc.Got1? && !Copying(phase)))
      modifies this`lh, this`phase, this`pc, this`run, cache
      ensures Valid() && committing && Sectioned(c, old(Present()), Present())
    {
      hide Valid, Sectioned;
      Blocks();
      match pc
      case Got1(a) =>
        WriteHeader(a);
      case Got2(a, b) =>
        if phase.WritingLog? {
          CopyToLog(a, b);
        } else {
          CopyHome(a, b);
        }
      case Leaving(bufs) =>
        GiveBack(bufs);
    }

    /** The log among any processes: sections in any order.  Every turn does exactly what Turned says, at every
        moment the disk can be lost, and when a commit has no section left, end_op can go on. */
    method Run(turns: seq<Turn>) returns (rs: seq<Progress>, ghost trace: seq<Moment>)
      requires Valid() && !Recovering(phase)
      modifies this`lh, this`outstanding, this`ops, this`committing, this`phase, this`pc, this`run, cache
      ensures Valid() && !Recovering(phase) && |run| > 0 && |old(run)| > 0
      ensures Interleaving(c, trace, turns, rs) && trace[0] == old(Present()) && trace[|rs|] == Present()
      ensures forall i :: 0 <= i < |trace| ==> Recoverable(c, boot, trace[i].state)
      ensures forall i, j :: 0 <= i <= j < |trace| ==> Lasts(trace[i].state, trace[j].state)
      ensures forall i :: 0 <= i < |trace| && trace[i].state.committing ==> Running(trace[i])
      ensures committing && Remaining() <= 0 ==> phase == Finishing && pc == Ready && Now().durable == |Now().trace|
    {
      hide Valid, Turned, Left, Recoverable, Running;
      Ran();
      AlwaysRecoverable();
      RunningNow();
      rs, trace := [], [Present()];
      var panic := false;
      while |rs| < |turns| && !panic
        invariant Valid() && !Recovering(phase) && |run| > 0 && |rs| <= |turns|
        invariant |trace| == |rs| + 1 && trace[0] == old(Present()) && trace[|rs|] == Present()
        invariant forall i :: 0 <= i < |rs| ==> Turned(c, trace[i], turns[i], rs[i], trace[i + 1])
        invariant forall i :: 0 <= i < |rs| - 1 ==> !Panics(rs[i])
        invariant panic <==> rs != [] && Panics(rs[|rs| - 1])
        invariant forall i :: 0 <= i < |trace| ==> Recoverable(c, boot, trace[i].state)
        invariant forall i :: 0 <= i < |trace| && trace[i].state.committing ==> Running(trace[i])
      {
        var r := OneTurn(turns[|rs|]);
        panic := Panics(r);
        AlwaysRecoverable();
        RunningNow();
        rs, trace := rs + [r], trace + [Present()];
      }
      Lasting(trace, turns, rs);
      if committing && Remaining() <= 0 {
        Finished();
      }
    }

    lemma Lasting(trace: seq<Moment>, turns: seq<Turn>, rs: seq<Progress>)
      requires Interleaving(c, trace, turns, rs) && forall i :: 0 <= i < |trace| ==> Recoverable(c, boot, trace[i].state)
      ensures forall i, j :: 0 <= i <= j < |trace| ==> Lasts(trace[i].state, trace[j].state)
    {
      hide Interleaving, Lasts;
      forall i, j | 0 <= i <= j < |trace| ensures Lasts(trace[i].state, trace[j].state) {
        TurnsLast(c, trace, turns, rs, i, j);
      }
    }

    lemma RunningNow()
      requires Valid() && |run| > 0
      ensures Now().committing ==> Running(Present())
    {
      Basics();
    }

    lemma Ran()
      requires Valid()
      ensures |run| > 0
    {}

    lemma Finished()
      requires Valid() && committing && Remaining() <= 0
      ensures phase == Finishing && pc == Ready && Now().durable == |Now().trace|
    {
      Basics();
      Blocks();
      Durable();
    }

    method OneTurn(turn: Turn) returns (r: Progress)
      requires Valid() && !Recovering(phase) && |run| > 0
      modifies this`lh, this`outstanding, this`ops, this`committing, this`phase, this`pc, this`run, cache
      ensures Valid() && !Recovering(phase) && |run| > 0
      ensures Turned(c, old(Present()), turn, r, Present())
    {
      hide Valid, Turned;
      match turn
      case Mine => r := MyTurn();
      case Finish => r := FinishTurn();
      case Start(op) => r := StartTurn(op);
      case Modify(b, data, op) => r := ModifyTurn(b, data, op);
      case LogIt(b, op) => r := LogTurn(b, op);
      case Stop(op) => r := StopTurn(op);
      case Other(t) => r := OtherTurn(t);
    }

    /** The fields repeat what the machine state says. */
    lemma InStep()
      requires Valid()
      ensures |run| > 0 && Now().phase == phase && Now().lh == lh && Now().ops == ops && Now().committing == committing
      ensures |ops| == outstanding && |cache.contents| == |cache.disk| && |cache.bufs| == cache.n
      ensures phase == Idle ==> !committing && pc == Ready
      ensures committing ==> !Recovering(phase)
    {
      Basics();
    }

    method MyTurn() returns (r: Progress)
      requires Valid() && !Recovering(phase)
      modifies this`lh, this`phase, this`pc, this`run, cache
      ensures Valid() && !Recovering(phase) && |run| > 0 && Turned(c, old(Present()), Mine, r, Present())
    {
      hide Valid, Expected, Left, Obtainable, Sectioned;
      InStep();
      r := Waits;
      if committing && Remaining() > 0 {
        r := CommitTurn();
        InStep();
      }
    }

    method FinishTurn() returns (r: Progress)
      requires Valid() && !Recovering(phase)
      modifies this`committing, this`phase, this`run
      ensures Valid() && !Recovering(phase) && |run| > 0 && Turned(c, old(Present()), Finish, r, Present())
    {
      hide Valid, Steps;
      InStep();
      r := Waits;
      if phase == Finishing && pc == Ready {
        FinishOp();
        r := Moved;
      }
      InStep();
    }

    method StartTurn(op: nat) returns (r: Progress)
      requires Valid() && !Recovering(phase)
      modifies this`outstanding, this`ops, this`run
      ensures Valid() && |run| > 0 && Turned(c, old(Present()), Start(op), r, Present())
    {
      hide Valid, Steps, HasOp;
      InStep();
      r := Waits;
      if phase == Idle && !HasOp(ops, op) {
        var ok := BeginOp(op);
        r := if ok then Moved else Waits;
      }
      InStep();
    }

    method ModifyTurn(b: nat, data: Data, op: nat) returns (r: Progress)
      requires Valid() && !Recovering(phase)
      modifies cache`bufs, cache`dirty
      ensures Valid() && |run| > 0 && Turned(c, old(Present()), Modify(b, data, op), r, Present())
    {
      hide RunValid, Matches, PcOk, BufferCache.Valid, HasOp;
      InStep();
      r := Waits;
      if phase == Idle && HasOp(ops, op) && |data| == c.words && b < cache.n && cache.bufs[b].locked && cache.bufs[b].valid {
        cache.SetData(b, data);
        ReadyOk(c, phase, lh, cache.bufs, cache.users, cache.contents);
        r := Moved;
      }
    }

    method LogTurn(b: nat, op: nat) returns (r: Progress)
      requires Valid() && !Recovering(phase)
      modifies this`lh, this`ops, this`run, cache`bufs, cache`pins, cache`contents, cache`dirty
      ensures Valid() && |run| > 0 && Turned(c, old(Present()), LogIt(b, op), r, Present())
    {
      hide Valid, Steps;
      InStep();
      r := Waits;
      var i := FindOp(op);
      if phase == Idle && i < |ops| && b < cache.n && cache.bufs[b].locked && cache.bufs[b].valid {
        OpOf(op, i);
        var blk, data := cache.bufs[b].blockno, cache.bufs[b].data;
        if c.Home(blk) && |data| == c.words && |ops[i].blocks + {blk}| <= c.maxOp {
          var ok := LogWrite(b, op);
          r := if ok then Moved else TooBig;
        }
      }
      InStep();
    }

    lemma OpOf(op: nat, i: nat)
      requires Valid() && i < |ops| && ops[i].id == op
      ensures HasOp(ops, op) && OpIndex(ops, op) == i
    {
      TheOp(op, i);
    }

    method StopTurn(op: nat) returns (r: Progress)
      requires Valid() && !Recovering(phase)
      modifies this`outstanding, this`ops, this`committing, this`phase, this`run
      ensures Valid() && !Recovering(phase) && |run| > 0 && Turned(c, old(Present()), Stop(op), r, Present())
    {
      hide Valid, Steps, HasOp;
      InStep();
      r := Waits;
      if phase == Idle && HasOp(ops, op) && (outstanding == 1 ==> cache.dirty == {}) {
        var last := EndOp(op);
        r := Moved;
      }
      InStep();
    }

    lemma SameSize()
      requires Valid()
      ensures |cache.disk| == c.nblocks == |Now().disk| && Now().disk == cache.disk
    {}

    /** The blocks of the present phase are on the disk, and the two are different. */
    lemma Blocks()
      requires Valid() && committing
      ensures (forall i :: 0 <= i < |lh| ==> lh[i] >= 0) && Block1(c, phase) < |cache.disk|
      ensures Copying(phase) || Heading(phase) || phase == Finishing
      ensures Copying(phase) ==> phase.tail < |lh| && 0 <= lh[phase.tail] < |cache.disk| && lh[phase.tail] != Block1(c, phase)
      ensures |run| > 0 && (pc.Want1? || pc.Got1? ==> Copying(phase) || Heading(phase)) && (pc.Want2? || pc.Got2? ==> Copying(phase))
      ensures pc.Leaving? ==> |pc.bufs| > 0
    {
      Basics();
      if Copying(phase) {
        assert c.Home(lh[phase.tail]);
      }
      forall i | 0 <= i < |lh| ensures lh[i] >= 0 {
        assert c.Home(lh[i]);
      }
    }

    /** bget of a block. */
    method Refer(x: nat) returns (ok: bool, a: nat)
      requires Valid() && x < |cache.disk|
      modifies cache`bufs, cache`users
      ensures Valid() && (ok <==> Obtainable(old(cache.bufs), x)) && (!ok ==> cache.bufs == old(cache.bufs) && cache.users == old(cache.users))
      ensures ok ==> Wants(cache.bufs, cache.users, a, x) && HandsOut(old(cache.bufs), old(cache.users), x, cache.bufs, cache.users, a)
    {
      hide RunValid, Matches, PcOk, BufferCache.Valid;
      CacheCounts();
      var r := cache.BGet(ROOTDEV, x);
      ok, a := r.Some?, 0;
      if ok {
        a := r.value;
        OthersGet(c, pc, phase, lh, old(cache.bufs), old(cache.users), cache.contents, a, x);
      }
    }

    /** What the reference counts say about use. */
    lemma CacheCounts()
      requires Valid()
      ensures |cache.bufs| == |cache.users| == cache.n
      ensures forall i :: 0 <= i < |cache.bufs| ==> cache.bufs[i].refcnt >= cache.users[i]
      ensures forall i :: 0 <= i < |cache.bufs| && cache.bufs[i].locked ==> cache.users[i] >= 1
      ensures Synced(cache.disk, cache.contents, cache.pins)
    {}

    method Take1() returns (r: Progress)
      requires Valid() && committing && pc == Ready && Block1(c, phase) < |cache.disk| && (Copying(phase) || Heading(phase))
      modifies this`pc, cache`bufs, cache`users
      ensures Valid() && r == (if Obtainable(old(cache.bufs), Block1(c, phase)) then Moved else NoBuffers)
      ensures if r == Moved then Sectioned(c, old(Present()), Present()) else Present() == old(Present())
    {
      hide IsRun, Matches, BufferCache.Valid, Obtainable;
      var ok, a := Refer(Block1(c, phase));
      r := NoBuffers;
      if ok {
        pc, r := Want1(a), Moved;
      }
    }

    method Take2(a: nat) returns (r: Progress)
      requires Valid() && committing && pc == Got1(a) && Copying(phase) && phase.tail < |lh|
      requires 0 <= lh[phase.tail] < |cache.disk| && lh[phase.tail] != Block1(c, phase)
      modifies this`pc, cache`bufs, cache`users
      ensures Valid() && r == (if Obtainable(old(cache.bufs), lh[phase.tail]) then Moved else NoBuffers)
      ensures if r == Moved then Sectioned(c, old(Present()), Present()) else Present() == old(Present())
    {
      hide IsRun, Matches, BufferCache.Valid, Obtainable;
      var ok, b := Refer(lh[phase.tail]);
      r := NoBuffers;
      if ok {
        pc, r := Want2(a, b), Moved;
      }
    }

    /** acquiresleep and the rest of bread. */
    method LockFill(b: nat, ghost x: nat)
      requires cache.Valid() && cache.dirty == {} && x < |cache.contents| && Wants(cache.bufs, cache.users, b, x) && !cache.bufs[b].locked
      modifies cache`bufs
      ensures cache.Valid() && Has(cache.bufs, cache.contents, b, x)
      ensures cache.bufs == old(cache.bufs)[b := old(cache.bufs)[b].(locked := true, valid := true, data := cache.contents[x])]
    {
      cache.Lock(b);
      cache.Fill(b);
    }

    method Lock1(a: nat) returns (r: Progress)
      requires Valid() && committing && pc == Want1(a) && Block1(c, phase) < |cache.disk|
      modifies this`pc, cache`bufs
      ensures Valid() && a < |old(cache.bufs)| && r == (if old(cache.bufs)[a].locked then Waits else Moved)
      ensures if r == Moved then Sectioned(c, old(Present()), Present()) else Present() == old(Present())
    {
      hide RunValid, Matches, BufferCache.Valid, PcOk;
      Waiting(c, pc, phase, lh, cache.bufs, cache.users, cache.contents, a);
      CacheCounts();
      r := Waits;
      if !cache.bufs[a].locked {
        LockFill(a, Block1(c, phase));
        LockedNow(c, pc, phase, lh, old(cache.bufs), cache.users, cache.contents, a, cache.bufs);
        pc, r := Got1(a), Moved;
      }
    }

    method Lock2(a: nat, b: nat) returns (r: Progress)
      requires Valid() && committing && pc == Want2(a, b) && 0 <= lh[phase.tail] < |cache.disk|
      modifies this`pc, cache`bufs
      ensures Valid() && b < |old(cache.bufs)| && r == (if old(cache.bufs)[b].locked then Waits else Moved)
      ensures if r == Moved then Sectioned(c, old(Present()), Present()) else Present() == old(Present())
    {
      hide RunValid, Matches, BufferCache.Valid, PcOk;
      Waiting(c, pc, phase, lh, cache.bufs, cache.users, cache.contents, b);
      CacheCounts();
      r := Waits;
      if !cache.bufs[b].locked {
        LockFill(b, lh[phase.tail]);
        LockedNow(c, pc, phase, lh, old(cache.bufs), cache.users, cache.contents, b, cache.bufs);
        pc, r := Got2(a, b), Moved;
      }
    }

    /** brelse. */
    method GiveBack(bufs: seq<nat>)
      requires Valid() && committing && pc == Leaving(bufs)
      modifies this`pc, cache`bufs, cache`users, cache`next, cache`prev, cache`order, cache`stamp, cache`clock
      ensures Valid() && Sectioned(c, old(Present()), Present())
    {
      hide RunValid, Matches, BufferCache.ListValid, BufferCache.DataValid;
      InStep();
      cache.BRelse(bufs[0]);
      pc := if |bufs| == 1 then Ready else Leaving(bufs[1..]);
    }

    /** Change a locked buffer and bwrite it. */
    method PutBlock(b: nat, ghost x: nat, d: Data)
      requires cache.Valid() && cache.dirty == {} && Has(cache.bufs, cache.contents, b, x)
      modifies cache`bufs, cache`dirty, cache`disk, cache`contents
      ensures cache.Valid() && cache.dirty == {} && Has(cache.bufs, cache.contents, b, x)
      ensures cache.bufs == old(cache.bufs)[b := old(cache.bufs)[b].(data := d)]
      ensures cache.disk == old(cache.disk)[x := d] && cache.contents == old(cache.contents)[x := d]
    {
      cache.SetData(b, d);
      cache.BWrite(b);
    }

    /** The same for a home block, which is then unpinned. */
    method PutHome(b: nat, ghost x: nat, d: Data)
      requires cache.Valid() && cache.dirty == {} && Has(cache.bufs, cache.contents, b, x) && x in cache.pins
      modifies cache`bufs, cache`dirty, cache`disk, cache`contents, cache`pins
      ensures cache.Valid() && cache.dirty == {} && cache.pins == old(cache.pins) - {x}
      ensures b < |cache.bufs| && cache.bufs[b].refcnt + 1 == old(cache.bufs)[b].refcnt && cache.bufs[b].locked && cache.bufs[b].valid
      ensures cache.bufs == old(cache.bufs)[b := old(cache.bufs)[b].(data := d, refcnt := cache.bufs[b].refcnt)]
      ensures cache.disk == old(cache.disk)[x := d] && cache.contents == old(cache.contents)[x := d]
    {
      PutBlock(b, x, d);
      cache.BUnpin(b);
    }

    /** One iteration of write_log: the cached contents of the home block go to the log block. */
    method CopyToLog(a: nat, b: nat)
      requires Valid() && committing && pc == Got2(a, b) && phase.WritingLog?
      modifies this`phase, this`pc, this`run, cache`bufs, cache`dirty, cache`disk, cache`contents
      ensures Valid() && Sectioned(c, old(Present()), Present())
    {
      hide RunValid, Matches, BufferCache.Valid, PcOk, Sectioned, Steps;
      InStep();
      GotBoth(c, pc, phase, lh, cache.bufs, cache.users, cache.contents);
      ghost var s := PerformLogBlock(cache.disk, cache.contents, cache.pins);
      PutBlock(a, Block1(c, phase), cache.bufs[b].data);
      phase := if phase.tail + 1 < |lh| then WritingLog(phase.tail + 1) else WritingHead;
      pc := Leaving([b, a]);
      LeavingOk(c, [b, a], phase, lh, cache.bufs, cache.users, cache.contents);
      SameSize();
      LogSection(c, old(Present()), Present());
    }

    /** One iteration of install_trans: the log block goes home, and the home block is unpinned. */
    method CopyHome(a: nat, b: nat)
      requires Valid() && committing && pc == Got2(a, b) && phase.Installing?
      modifies this`phase, this`pc, this`run, cache`bufs, cache`dirty, cache`disk, cache`contents, cache`pins
      ensures Valid() && Sectioned(c, old(Present()), Present())
    {
      hide RunValid, Matches, BufferCache.Valid, PcOk, Synced, Sectioned, Steps;
      Ran();
      CacheCounts();
      GotBoth(c, pc, phase, lh, cache.bufs, cache.users, cache.contents);
      ghost var s := PerformInstall(cache.disk, cache.contents, cache.pins);
      PutHome(b, lh[phase.tail], cache.bufs[a].data);
      phase := if phase.tail + 1 < |lh| then Installing(phase.tail + 1) else Clearing;
      pc := Leaving([a, b]);
      LeavingOk(c, [a, b], phase, lh, cache.bufs, cache.users, cache.contents);
      SameSize();
      HomeSection(c, old(Present()), Present());
    }

    /** write_head: the write that commits, and the one that erases the transaction. */
    method WriteHeader(a: nat)
      requires Valid() && committing && pc == Got1(a) && Heading(phase)
      modifies this`lh, this`phase, this`pc, this`run, cache`bufs, cache`dirty, cache`disk, cache`contents
      ensures Valid() && Sectioned(c, old(Present()), Present())
    {
      hide RunValid, Matches, BufferCache.Valid, PcOk, Synced, PutHead, Sectioned, Steps;
      Ran();
      CacheCounts();
      GotHeader(c, pc, phase, lh, cache.bufs, cache.users, cache.contents);
      var clearing := phase.Clearing?;
      lh := if clearing then [] else lh;
      ghost var s := PerformHead(cache.disk, cache.contents, cache.pins);
      var d := FillHead(cache.bufs[a].data, lh);
      PutBlock(a, c.start, d);
      phase := if clearing then Finishing else Installing(0);
      pc := Leaving([a]);
      LeavingOk(c, [a], phase, lh, cache.bufs, cache.users, cache.contents);
      SameSize();
      HeadSection(c, old(Present()), Present());
    }

    ghost method PerformHead(disk: Disk, contents: Disk, pins: set<int>) returns (s: State)
      requires RunValid() && Heading(Now().phase) && Matches(c, Now(), disk, contents, pins) && Synced(disk, contents, pins)
      modifies this`run
      ensures |run| > 0 && RunValid() && s == old(Now()) && c.start < |disk| && disk[c.start] == contents[c.start]
      ensures Steps(c, s, LogSpec.Commit, Now())
      ensures Now().ops == s.ops && Now().trace == s.trace && Now().committing == s.committing
      ensures Now().lh == (if s.phase.Clearing? then [] else s.lh) && |Now().lh| < |disk[c.start]|
      ensures Now().phase == if s.phase.Clearing? then Finishing else Installing(0)
      ensures var d := PutHead(disk[c.start], Now().lh); Matches(c, Now(), disk[c.start := d], contents[c.start := d], pins)
    {
      hide IsRun;
      s := Now();
      Basics();
      HeadMatches(c, s, disk, contents, pins);
      PerformCommit();
    }

    ghost method PerformLogBlock(disk: Disk, contents: Disk, pins: set<int>) returns (s: State)
      requires RunValid() && Now().phase.WritingLog? && Matches(c, Now(), disk, contents, pins)
      modifies this`run
      ensures |run| > 0 && RunValid() && s == old(Now()) && s.phase.tail < |s.lh| && |pins| == |s.lh| && Steps(c, s, LogSpec.Commit, Now())
      ensures Now().ops == s.ops && Now().trace == s.trace && Now().lh == s.lh && Now().committing == s.committing
      ensures Now().phase == if s.phase.tail + 1 < |s.lh| then WritingLog(s.phase.tail + 1) else WritingHead
      ensures var home, log := s.lh[s.phase.tail], c.start + s.phase.tail + 1;
              && 0 <= home < c.nblocks && home in pins && log < c.nblocks && home != log
              && Matches(c, Now(), disk[log := contents[home]], contents[log := contents[home]], pins)
    {
      hide IsRun, Matches;
      s := Now();
      Basics();
      LogBlockMatches(c, s, disk, contents, pins);
      PerformCommit();
    }

    static lemma LogBlockMatches(c: Config, s: State, disk: Disk, contents: Disk, pins: set<int>)
      requires Shape(c, s) && s.phase.WritingLog? && Matches(c, s, disk, contents, pins)
      ensures |pins| == |s.lh|
      ensures var home, log := s.lh[s.phase.tail], c.start + s.phase.tail + 1;
              && c.Home(home) && home in pins && log < c.nblocks && home != log
              && Matches(c, CommitStep(c, s), disk[log := contents[home]], contents[log := contents[home]], pins)
    {
      PendingFacts(c, s.lh, 0);
      PendingAbsorb(s.lh, s.lh[s.phase.tail], 0);
      assert c.Home(s.lh[s.phase.tail]);
    }

    static lemma HeadMatches(c: Config, s: State, disk: Disk, contents: Disk, pins: set<int>)
      requires Shape(c, s) && Heading(s.phase) && Matches(c, s, disk, contents, pins) && Synced(disk, contents, pins)
      ensures c.start !in pins && disk[c.start] == contents[c.start]
      ensures |CommitStep(c, s).lh| < |disk[c.start]|
      ensures var d := PutHead(disk[c.start], CommitStep(c, s).lh);
              Matches(c, CommitStep(c, s), disk[c.start := d], contents[c.start := d], pins)
    {
      PendingFacts(c, s.lh, if s.phase.Clearing? then |s.lh| else 0);
    }

    /** The machine step of one installed block, which the copy then carries out. */
    ghost method PerformInstall(disk: Disk, contents: Disk, pins: set<int>) returns (s: State)
      requires RunValid() && Now().phase.Installing? && Matches(c, Now(), disk, contents, pins)
      requires Synced(disk, contents, pins)
      modifies this`run
      ensures |run| > 0 && RunValid() && s == old(Now()) && s.phase.tail < |s.lh| && |pins| <= |s.lh| && Steps(c, s, LogSpec.Commit, Now())
      ensures Now().ops == s.ops && Now().trace == s.trace && Now().lh == s.lh && Now().committing == s.committing
      ensures Now().phase == if s.phase.tail + 1 < |s.lh| then Installing(s.phase.tail + 1) else Clearing
      ensures var home, log := s.lh[s.phase.tail], c.start + s.phase.tail + 1;
              && 0 <= home < c.nblocks && home in pins && log < c.nblocks && home != log
              && Matches(c, Now(), disk[home := contents[log]], contents[home := contents[log]], pins - {home})
    {
      hide IsRun, Matches;
      s := Now();
      Basics();
      InstallMatches(c, s, disk, contents, pins);
      PerformCommit();
    }

    static lemma InstallMatches(c: Config, s: State, disk: Disk, contents: Disk, pins: set<int>)
      requires Shape(c, s) && s.phase.Installing? && Matches(c, s, disk, contents, pins)
      requires Synced(disk, contents, pins)
      requires s.disk[c.start + s.phase.tail + 1] == s.cur[s.lh[s.phase.tail]]
      ensures var home, log := s.lh[s.phase.tail], c.start + s.phase.tail + 1;
              && c.Home(home) && home in pins && |pins| <= |s.lh| && log < c.nblocks && log !in pins && home != log
              && Matches(c, CommitStep(c, s), disk[home := contents[log]], contents[home := contents[log]], pins - {home})
    {
      var home, log := s.lh[s.phase.tail], c.start + s.phase.tail + 1;
      InstallPlace(c, s, disk, contents, pins);
      InstalledContents(c, s.cur, contents, home, log);
      InstallPins(c, s);
      InstallState(c, s);
    }

    static lemma InstallState(c: Config, s: State)
      requires Shape(c, s) && s.phase.Installing?
      ensures var t, k := CommitStep(c, s), s.phase.tail;
              && 0 <= s.lh[k] < |s.disk| && t.disk == s.disk[s.lh[k] := s.disk[c.start + 1 + k]] && t.cur == s.cur
              && !Recovering(t.phase) && t.lh == s.lh
    {
      assert c.Home(s.lh[s.phase.tail]);
    }

    /** The log block and the home block of the next copy. */
    static lemma InstallPlace(c: Config, s: State, disk: Disk, contents: Disk, pins: set<int>)
      requires Shape(c, s) && s.phase.Installing? && Matches(c, s, disk, contents, pins)
      requires Synced(disk, contents, pins)
      requires s.disk[c.start + s.phase.tail + 1] == s.cur[s.lh[s.phase.tail]]
      ensures var home, log := s.lh[s.phase.tail], c.start + s.phase.tail + 1;
              && c.Home(home) && home in pins && |pins| <= |s.lh| && log < c.nblocks && log !in pins && home != log
              && contents[log] == s.cur[home] == s.disk[log]
    {
      hide HomeEq, Pending, HeadList;
      PendingPop(c, s.lh, s.phase.tail);
    }

    static lemma InstallPins(c: Config, s: State)
      requires Shape(c, s) && s.phase.Installing?
      ensures var t := CommitStep(c, s);
              Pending(t.lh, Settled(t.phase, |t.lh|)) == Pending(s.lh, s.phase.tail) - {s.lh[s.phase.tail]}
    {
      PendingPop(c, s.lh, s.phase.tail);
    }

    /** Contents that equal the cached ones stay so when a home block receives its own contents. */
    static lemma InstalledContents(c: Config, cur: Disk, contents: Disk, home: nat, log: nat)
      requires HomeEq(c, cur, contents) && c.Home(home) && log < c.nblocks
      requires contents[log] == cur[home]
      ensures HomeEq(c, cur, contents[home := contents[log]])
    {}

    // ----- the other processes ---------------------------------------------------------------

    /** A critical section of a process that uses the cache.  It locks a buffer to which it has a reference, and
        reads into or releases one that it has locked and not changed since it was logged. */
    method OtherTurn(t: Access) returns (r: Progress)
      requires Valid() && !Recovering(phase)
      modifies cache`bufs, cache`users, cache`next, cache`prev, cache`order, cache`stamp, cache`clock
      ensures Valid() && |run| > 0 && Turned(c, old(Present()), Other(t), r, Present())
    {
      hide Valid, Obtainable;
      InStep();
      r := Waits;
      match t
      case Get(blk) =>
        if blk < |cache.disk| {
          var ok, a := Refer(blk);
          r := if ok then Waits else NoBuffers;
        }
      case Acquire(b) => OtherAcquire(b);
      case Load(b) => OtherLoad(b);
      case Release(b) => OtherRelease(b);
    }

    method OtherAcquire(b: nat)
      requires Valid()
      modifies cache`bufs
      ensures Valid()
      ensures Accessed(old(cache.bufs), old(cache.users), cache.dirty, pc, cache.contents, Acquire(b), cache.bufs, cache.users)
    {
      hide IsRun, Matches, PcOk;
      if b < cache.n && !cache.bufs[b].locked && cache.users[b] >= 1 + if Awaits(pc, b) then 1 else 0 {
        OthersLock(c, pc, phase, lh, cache.bufs, cache.users, cache.contents, b);
        cache.Lock(b);
      }
    }

    method OtherLoad(b: nat)
      requires Valid()
      modifies cache`bufs
      ensures Valid()
      ensures Accessed(old(cache.bufs), old(cache.users), cache.dirty, pc, cache.contents, Load(b), cache.bufs, cache.users)
    {
      hide IsRun, Matches, PcOk;
      if b < cache.n && cache.bufs[b].locked && b !in Locked(pc) && b !in cache.dirty && cache.bufs[b].dev == ROOTDEV {
        OthersLoad(c, pc, phase, lh, cache.bufs, cache.users, cache.contents, b, cache.contents[cache.bufs[b].blockno]);
        cache.Fill(b);
      }
    }

    method OtherRelease(b: nat)
      requires Valid()
      modifies cache`bufs, cache`users, cache`next, cache`prev, cache`order, cache`stamp, cache`clock
      ensures Valid()
      ensures Accessed(old(cache.bufs), old(cache.users), cache.dirty, pc, cache.contents, Release(b), cache.bufs, cache.users)
    {
      hide IsRun, Matches, PcOk, BufferCache.ListValid, BufferCache.DataValid;
      if b < cache.n && cache.bufs[b].locked && b !in Locked(pc) && b !in cache.dirty {
        CacheCounts();
        OthersRelease(c, pc, phase, lh, cache.bufs, cache.users, cache.contents, b);
        cache.BRelse(b);
      }
    }

    /** recover_from_log: whatever the disk was when the machine came up, afterwards its home
        blocks are exactly what recovery makes of that disk, and the log is empty. */
    method RecoverFromLog()
      requires Valid() && Quiet(cache) && 2 <= cache.n && phase == Booting
      modifies this`lh, this`phase, this`run, cache
      ensures Valid() && Quiet(cache) && phase == Idle && lh == [] && outstanding == 0
      ensures DiskOk(c, old(cache.disk)) && HomeEq(c, cache.disk, RecoverDisk(c, old(cache.disk)))
    {
      hide Valid, RunValid, RecoverDisk, Replay, DiskOk, HomeEq, Quiet;
      SameSize();
      BootRun();
      RecoveredIs();
      ReadHead();
      Ran();
      var tail := 0;
      while tail < |lh|
        invariant tail <= |lh| && Valid() && Quiet(cache) && |run| > 0 && Now().trace == old(Now().trace)
        invariant phase == if tail < |lh| then Reinstalling(tail) else Reclearing
      {
        ReinstallBlock(tail);
        Ran();
        tail := tail + 1;
      }
      EraseRecovered();
      SameSize();
      BootRun();
      RecoveredIs();
      SameHome(c, RecoverDisk(c, old(cache.disk)), cache.disk, Replay(RecoverDisk(c, boot), Now().trace));
    }

    static lemma SameHome(c: Config, a: Disk, b: Disk, d: Disk)
      requires HomeEq(c, a, d) && HomeEq(c, b, d)
      ensures HomeEq(c, b, a)
    {}

    lemma BootRun()
      requires Valid()
      ensures RunValid() && Now().phase == phase && |Now().ops| == outstanding
    {}

    /** What the machine's invariant says about the disk before and after recovery. */
    lemma RecoveredIs()
      requires RunValid()
      ensures DiskOk(c, Now().disk) && Now().durable <= |Now().trace|
      ensures Now().phase == Booting ==>
        HomeEq(c, RecoverDisk(c, Now().disk), Replay(RecoverDisk(c, boot), Now().trace)) && Now().ops == []
      ensures Now().phase == Idle && Now().ops == [] ==>
        HomeEq(c, Now().disk, Replay(RecoverDisk(c, boot), Now().trace))
    {
      CrashSafety(c, boot, run, |run| - 1);
      RunInv(c, boot, run, |run| - 1);
      assert Now().durable == |Now().trace| ==> Now().trace[..Now().durable] == Now().trace;
    }

    ghost method PerformRecover()
      requires RunValid() && Enabled(c, Now(), LogSpec.Recover)
      modifies this`run
      ensures |run| > 0 && RunValid() && Shape(c, old(Now())) && Now() == RecoverStep(c, old(Now()))
    {
      Perform(LogSpec.Recover);
    }

    /** read_head: the list on disk becomes the in-memory header. */
    method ReadHead()
      requires Valid() && Quiet(cache) && 2 <= cache.n && phase == Booting
      modifies this`lh, this`phase, this`run, cache`bufs, cache`users, cache`next, cache`prev, cache`order, cache`stamp, cache`clock
      ensures Valid() && Quiet(cache) && |run| > 0 && |old(run)| > 0 && Now().trace == old(Now().trace)
      ensures phase == if lh == [] then Reclearing else Reinstalling(0)
    {
      hide RunValid, BufferCache.Valid, PcOk, Matches, HeadList, Quiet;
      Ran();
      ghost var s := PerformReadHead(cache.disk, cache.contents, cache.pins);
      var d := ReadBlock(cache, c.start);
      lh := ParseHead(d);
      phase := if |lh| == 0 then Reclearing else Reinstalling(0);
      ReadyOk(c, phase, lh, cache.bufs, cache.users, cache.contents);
    }

    ghost method PerformReadHead(disk: Disk, contents: Disk, pins: set<int>) returns (s: State)
      requires RunValid() && Now().phase.Booting? && Matches(c, Now(), disk, contents, pins)
      modifies this`run
      ensures |run| > 0 && RunValid() && s == old(Now()) && !s.committing && Now().ops == s.ops && Now().trace == s.trace && !Now().committing
      ensures c.start < |disk| && disk == contents && pins == {} && |disk[c.start]| > 0 && 0 <= disk[c.start][0] < |disk[c.start]|
      ensures Now().lh == HeadList(disk[c.start]) && Now().phase == if Now().lh == [] then Reclearing else Reinstalling(0)
      ensures Matches(c, Now(), disk, contents, pins)
    {
      hide IsRun;
      s := Now();
      Basics();
      PerformRecover();
    }

    /** One iteration of install_trans(1). */
    method ReinstallBlock(tail: nat)
      requires Valid() && Quiet(cache) && 2 <= cache.n && tail < |lh| && phase == Reinstalling(tail)
      modifies this`phase, this`run, cache
      ensures Valid() && Quiet(cache) && |run| > 0 && |old(run)| > 0 && Now().trace == old(Now().trace) && lh == old(lh)
      ensures phase == if tail + 1 < |lh| then Reinstalling(tail + 1) else Reclearing
    {
      hide RunValid, BufferCache.Valid, PcOk, Matches, Quiet;
      Ran();
      ghost var s := PerformReinstall(cache.disk, cache.contents, cache.pins);
      RecopyHome(cache, c.start + tail + 1, lh[tail]);
      phase := if tail + 1 < |lh| then Reinstalling(tail + 1) else Reclearing;
      ReadyOk(c, phase, lh, cache.bufs, cache.users, cache.contents);
    }

    ghost method PerformReinstall(disk: Disk, contents: Disk, pins: set<int>) returns (s: State)
      requires RunValid() && Now().phase.Reinstalling? && Matches(c, Now(), disk, contents, pins)
      modifies this`run
      ensures |run| > 0 && RunValid() && s == old(Now()) && s.phase.tail < |s.lh| && !s.committing && !Now().committing
      ensures Now().ops == s.ops && Now().trace == s.trace && Now().lh == s.lh && disk == contents && pins == {}
      ensures Now().phase == if s.phase.tail + 1 < |s.lh| then Reinstalling(s.phase.tail + 1) else Reclearing
      ensures var home, log := s.lh[s.phase.tail], c.start + s.phase.tail + 1;
              && 0 <= home < |disk| && log < |disk| && home != log
              && Matches(c, Now(), disk[home := contents[log]], contents[home := contents[log]], pins)
    {
      hide IsRun;
      s := Now();
      Basics();
      assert c.Home(s.lh[s.phase.tail]);
      PerformRecover();
    }

    /** The header write at the end of recovery. */
    method EraseRecovered()
      requires Valid() && Quiet(cache) && 2 <= cache.n && phase == Reclearing
      modifies this`lh, this`phase, this`run, cache
      ensures Valid() && Quiet(cache) && |run| > 0 && |old(run)| > 0 && Now().trace == old(Now().trace) && Now().ops == []
      ensures phase == Idle && lh == [] && outstanding == 0
    {
      hide RunValid, BufferCache.Valid, PcOk, Matches, Quiet, PutHead;
      Ran();
      ghost var s := PerformReclear(cache.disk, cache.contents, cache.pins);
      lh := [];
      WriteHead(cache, c.start, lh);
      phase := Idle;
      ReadyOk(c, phase, lh, cache.bufs, cache.users, cache.contents);
    }

    ghost method PerformReclear(disk: Disk, contents: Disk, pins: set<int>) returns (s: State)
      requires RunValid() && Now().phase.Reclearing? && Matches(c, Now(), disk, contents, pins)
      modifies this`run
      ensures |run| > 0 && RunValid() && s == old(Now()) && !s.committing && !Now().committing && Now().phase == Idle
      ensures Now().ops == s.ops == [] && Now().trace == s.trace && Now().lh == [] && pins == {} && c.start < |disk| && 0 < |disk[c.start]|
      ensures var d := PutHead(disk[c.start], []); Matches(c, Now(), disk[c.start := d], contents[c.start := d], pins)
    {
      hide IsRun;
      s := Now();
      Basics();
      ReclearMatches(c, s, disk, contents, pins);
      PerformRecover();
    }

    static lemma ReclearMatches(c: Config, s: State, disk: Disk, contents: Disk, pins: set<int>)
      requires Shape(c, s) && s.phase.Reclearing? && Matches(c, s, disk, contents, pins)
      ensures var d := PutHead(disk[c.start], []); Matches(c, RecoverStep(c, s), disk[c.start := d], contents[c.start := d], pins)
    {}

    /** How every system call uses the log: begin_op, bread, change the block, log_write, brelse, end_op.  When
        none of them has to wait or panic, exactly this block has the new contents, nothing of the cache stays
        in use, and the history has the operation. */
    method UpdateBlock(op: nat, blk: nat, data: Data) returns (last: bool)
      requires Valid() && phase == Idle && !HasOp(ops, op) && c.Home(blk) && |data| == c.words && 1 <= c.maxOp
      requires |lh| + (outstanding + 1) * c.maxOp <= c.logSize && |lh| < c.Room()
      requires Obtainable(cache.bufs, blk) && !cache.LockHeld(ROOTDEV, blk) && (outstanding == 0 ==> cache.dirty == {})
      modifies this`lh, this`outstanding, this`ops, this`committing, this`phase, this`run, cache
      ensures Valid() && |run| > 0 && |old(run)| > 0
      ensures blk < |old(cache.contents)| && cache.contents == old(cache.contents)[blk := data] && lh == Absorb(old(lh), blk)
      ensures cache.users == old(cache.users) && cache.dirty == old(cache.dirty) && ops == old(ops) && cache.disk == old(cache.disk)
      ensures Now().trace == old(Now().trace) + [Begin(op), Write(op, blk, data), End(op)]
      ensures (last <==> ops == []) && phase == if last then WritingLog(0) else Idle
    {
      hide Valid, Steps, Absorb, Obtainable, HasOp;
      InStep();
      var ok := BeginOp(op);
      InStep();
      ghost var i := |ops| - 1;
      OpOf(op, i);
      var a := ReadBuf(blk);
      ChangeBuf(a, blk, data, op, i);
      OpOf(op, i);
      InStep();
      last := EndOp(op);
      InStep();
    }

    /** Change a locked buffer, log_write and brelse it. */
    method ChangeBuf(a: nat, ghost blk: nat, data: Data, op: nat, ghost i: nat)
      requires Valid() && phase == Idle && i < |ops| && ops[i].id == op && |ops[i].blocks + {blk}| <= c.maxOp && |lh| < c.Room()
      requires a < |cache.bufs| == |cache.users| && a !in cache.dirty && cache.users[a] > 0
      requires cache.bufs[a].locked && cache.bufs[a].valid && cache.bufs[a].Holds(ROOTDEV, blk)
      requires c.Home(blk) && |data| == c.words
      modifies this`lh, this`ops, this`run, cache
      ensures Valid() && |run| > 0 && |old(run)| > 0
      ensures blk < |old(cache.contents)| && cache.contents == old(cache.contents)[blk := data] && lh == Absorb(old(lh), blk)
      ensures cache.users == old(cache.users)[a := old(cache.users)[a] - 1]
      ensures cache.dirty == old(cache.dirty) && cache.disk == old(cache.disk)
      ensures ops == old(ops)[i := Op(op, old(ops)[i].blocks + {blk})] && Now().trace == old(Now().trace) + [Write(op, blk, data)]
    {
      hide Valid, Absorb, Shape;
      InStep();
      OpOf(op, i);
      var r := ModifyTurn(a, data, op);
      var ok := LogWrite(a, op);
      InStep();
      CacheCounts();
      OtherRelease(a);
    }

    /** bread, when it does not have to wait. */
    method ReadBuf(blk: nat) returns (a: nat)
      requires Valid() && phase == Idle && c.Home(blk) && Obtainable(cache.bufs, blk) && !cache.LockHeld(ROOTDEV, blk)
      modifies cache`bufs, cache`users
      ensures Valid() && a < |old(cache.users)| == |cache.bufs| && a !in cache.dirty
      ensures cache.users == old(cache.users)[a := old(cache.users)[a] + 1]
      ensures cache.bufs[a].locked && cache.bufs[a].valid && cache.bufs[a].Holds(ROOTDEV, blk)
    {
      hide RunValid, PcOk, BufferCache.Valid;
      InStep();
      CacheCounts();
      var r, ready := cache.BRead(ROOTDEV, blk);
      a := r.value;
      ReadyOk(c, phase, lh, cache.bufs, cache.users, cache.contents);
    }

    /** The scan in log_write: the position of a block in the header, or its length. */
    method Scan(blk: int) returns (i: nat)
      ensures i <= |lh| && (i < |lh| ==> lh[i] == blk)
      ensures i == |lh| <==> blk !in lh
    {
      i := 0;
      while i < |lh|
        invariant i <= |lh| && blk !in lh[..i]
      {
        if lh[i] == blk {
          return;
        }
        i := i + 1;
      }
    }

    /** log_write of a buffer the caller holds locked; false is the panic "too big a transaction". */
    method LogWrite(b: nat, op: nat) returns (ok: bool)
      requires Valid() && MayLog(c, Present(), b, op)
      modifies this`lh, this`ops, this`run, cache`bufs, cache`pins, cache`contents, cache`dirty
      ensures Valid()
      ensures ok <==> old(|lh|) < c.logSize && old(|lh|) < c.size - 1
      ensures if ok then Recorded(c, old(Present()), b, op, Present()) else Present() == old(Present())
      ensures ok ==> run[..|run| - 1] == old(run) && lh == Absorb(old(lh), cache.bufs[b].blockno)
      ensures ok ==> var i := OpIndex(old(ops), op); ops == old(ops)[i := Op(op, old(ops)[i].blocks + {cache.bufs[b].blockno})]
    {
      hide BufferCache.Valid, RunValid, PcOk, Matches, HasOp, Shape;
      InStep();
      if |lh| >= c.logSize || |lh| >= c.size - 1 {
        return false;
      }
      Record(b, op);
      return true;
    }

    method Record(b: nat, op: nat)
      requires Valid() && MayLog(c, Present(), b, op) && |lh| < c.logSize && |lh| < c.size - 1
      modifies this`lh, this`ops, this`run, cache`bufs, cache`pins, cache`contents, cache`dirty
      ensures Valid() && |old(run)| > 0 && Recorded(c, old(Present()), b, op, Present()) && run[..|run| - 1] == old(run)
    {
      hide BufferCache.Valid, RunValid, PcOk, HomeEq, Steps, Pending, HasOp;
      InStep();
      CacheCounts();
      IdleNotCommitting();
      var i := FindOp(op);
      var blk := cache.bufs[b].blockno;
      PerformWrite(op, i, blk, cache.bufs[b].data, cache.contents);
      ListBlock(b);
      ops := ops[i := Op(op, ops[i].blocks + {blk})];
      ReadyOk(c, phase, lh, cache.bufs, cache.users, cache.contents);
    }

    /** The machine step of log_write, with its effect spelt out. */
    ghost method PerformWrite(op: nat, i: nat, blk: nat, data: Data, contents: Disk)
      requires RunValid() && Enabled(c, Now(), LogSpec.LogWrite(op, blk, data)) && HomeEq(c, Now().cur, contents)
      requires i < |Now().ops| && Now().ops[i].id == op
      modifies this`run
      ensures |run| > 0 && RunValid() && run[..|run| - 1] == old(run) && Steps(c, old(Now()), LogSpec.LogWrite(op, blk, data), Now())
      ensures Now().disk == old(Now().disk) && HomeEq(c, Now().cur, contents[blk := data])
      ensures Now().lh == Absorb(old(Now().lh), blk) && i == OpIndex(old(Now()).ops, op)
      ensures Now().ops == old(Now()).ops[i := Op(op, old(Now()).ops[i].blocks + {blk})]
      ensures Now().committing == old(Now().committing) && Now().phase == Idle
      ensures Now().trace == old(Now().trace) + [Write(op, blk, data)]
    {
      TheOp(op, i);
      Perform(LogSpec.LogWrite(op, blk, data));
    }

    /** A valid buffer holds a block of the disk. */
    lemma HoldsBlock(b: nat)
      requires cache.Valid() && b < cache.n && cache.bufs[b].valid
      ensures cache.bufs[b].dev == ROOTDEV && cache.bufs[b].blockno < |cache.contents|
    {}

    /** Absorb a block already listed, or pin its buffer and append it. */
    method ListBlock(b: nat)
      requires cache.Valid() && cache.pins == Pending(lh, 0) && b < cache.n && cache.bufs[b].valid && cache.bufs[b].locked
      modifies this`lh, cache`bufs, cache`pins, cache`contents, cache`dirty
      ensures cache.Valid() && cache.pins == Pending(lh, 0)
      ensures lh == Absorb(old(lh), old(cache.bufs[b].blockno))
      ensures cache.contents == old(cache.contents)[old(cache.bufs[b].blockno) := old(cache.bufs[b].data)]
      ensures cache.dirty == old(cache.dirty) - {b}
      ensures var r := if old(cache.bufs[b].blockno) in old(lh) then 0 else 1;
              cache.bufs == old(cache.bufs)[b := old(cache.bufs[b]).(refcnt := old(cache.bufs[b].refcnt) + r)]
    {
      hide BufferCache.ListValid, BufferCache.DataValid, Pending;
      HoldsBlock(b);
      var blk := cache.bufs[b].blockno;
      var i := Scan(blk);
      PendingAbsorb(lh, blk, 0);
      assert lh[0..] == lh;
      if i == |lh| {
        cache.BPin(b);
        lh := lh + [blk];
      } else {
        lh := lh[i := blk];
        assert lh == old(lh);
      }
      cache.Publish(b);
    }
  }
}
