/** The write-ahead log as a step machine over the durable disk, the cached
    contents and the in-memory header.  Every block write is one step and a crash
    may happen between any two steps, also during recovery.  A step names who acts;
    `Do` says what it does, `Enabled` when the code lets it happen.
    The machine keeps the history of the operations (`trace`) and the length
    `durable` of the part of it that a crash cannot lose. */
module LogSpec {

  /** A disk block, as its machine words. */
  type Data = seq<int>
  type Disk = seq<Data>

  /** `start`/`size` locate the log on disk; `logSize` is LOGSIZE and `maxOp` MAXOPBLOCKS;
      `words` is the number of words in a block. */
  datatype Config = Config(start: nat, size: nat, nblocks: nat, logSize: nat, maxOp: nat, words: nat) {
    /** The largest header that both fits the array and has a log block per entry. */
    function Room(): int {
      if logSize <= size - 1 then logSize else size - 1
    }

    predicate Ok() {
      && 1 <= size && start + size <= nblocks
      && logSize + 1 <= words  // initlog: the header fits one block
    }

    predicate Home(b: int) {
      0 <= b < nblocks && !(start <= b < start + size)
    }
  }

  datatype Event = Begin(op: nat) | Write(op: nat, blk: nat, data: Data) | End(op: nat)

  /** An operation between its begin_op and its end_op, with the blocks it has logged. */
  datatype Op = Op(id: nat, blocks: set<int>)

  datatype Phase =
    | Idle
    | WritingLog(tail: nat)
    | WritingHead
    | Installing(tail: nat)
    | Clearing
    | Finishing
    | Booting                   // crashed; the header has not been read yet
    | Reinstalling(tail: nat)
    | Reclearing

  datatype State = State(
    disk: Disk,
    cur: Disk,          // what a read through the buffer cache returns
    lh: seq<int>,       // in-memory header: the logged home blocks
    ops: seq<Op>,       // outstanding operations
    committing: bool,
    phase: Phase,
    trace: seq<Event>,
    durable: nat)

  datatype Step =
    | BeginOp(op: nat)
    | LogWrite(op: nat, blk: nat, data: Data)
    | EndOp(op: nat)
    | Commit             // one block write (or the final bookkeeping) of commit
    | Crash
    | Recover            // one block write of recover_from_log

  // ----- the header block ---------------------------------------------------------

  /** The block numbers listed in a header block: a count, then that many entries. */
  function HeadList(d: Data): seq<int> {
    if |d| > 0 && 0 <= d[0] < |d| then d[1..1 + d[0]] else []
  }

  /** Store a list in a header block; words past the list keep their old value. */
  function PutHead(d: Data, lh: seq<int>): (r: Data)
    requires |lh| < |d|
    ensures |r| == |d| && HeadList(r) == lh
  {
    [|lh|] + lh + d[1 + |lh|..]
  }

  ghost predicate ListOk(c: Config, lh: seq<int>) {
    && (forall i, j :: 0 <= i < j < |lh| ==> lh[i] != lh[j])
    && |lh| <= c.Room()
    && forall i :: 0 <= i < |lh| ==> c.Home(lh[i])
  }

  // ----- disks --------------------------------------------------------------------

  ghost predicate DiskOk(c: Config, d: Disk) {
    && c.Ok()
    && |d| == c.nblocks
    && (forall b :: 0 <= b < |d| ==> |d[b]| == c.words)
    && 0 <= d[c.start][0] < c.words
    && ListOk(c, HeadList(d[c.start]))
  }

  ghost predicate HomeEq(c: Config, a: Disk, b: Disk) {
    |a| == |b| == c.nblocks && forall i {:trigger c.Home(i)} :: c.Home(i) ==> a[i] == b[i]
  }

  /** Copy log block `start+1+j` home, for j in [tail, |lh|): the loop of install_trans. */
  ghost function InstallFrom(c: Config, d: Disk, lh: seq<int>, tail: nat): (r: Disk)
    requires c.Ok() && |d| == c.nblocks && ListOk(c, lh) && tail <= |lh|
    ensures |r| == |d|
    decreases |lh| - tail
  {
    if tail == |lh| then d
    else
      assert c.Home(lh[tail]);
      InstallFrom(c, d[lh[tail] := d[c.start + 1 + tail]], lh, tail + 1)
  }

  /** What recover_from_log makes of a disk. */
  ghost function RecoverDisk(c: Config, d: Disk): (r: Disk)
    requires DiskOk(c, d)
    ensures |r| == |d|
  {
    var lh := HeadList(d[c.start]);
    var inst := InstallFrom(c, d, lh, 0);
    inst[c.start := PutHead(d[c.start], [])]
  }

  /** The disk carries `target` durably: blocks listed in its header have their contents
      in the log, all other home blocks have them in place. */
  ghost predicate Carries(c: Config, d: Disk, target: Disk)
    requires DiskOk(c, d)
  {
    |target| == c.nblocks && CarriesBy(c, d, HeadList(d[c.start]), target)
  }

  ghost predicate CarriesBy(c: Config, d: Disk, lh: seq<int>, target: Disk)
    requires c.Ok() && |d| == |target| == c.nblocks && ListOk(c, lh)
  {
    && (forall j :: 0 <= j < |lh| ==> c.Home(lh[j]) && d[c.start + 1 + j] == target[lh[j]])
    && (forall b {:trigger c.Home(b)} :: c.Home(b) && b !in lh ==> d[b] == target[b])
  }

  lemma {:induction false} InstallFromAt(c: Config, d: Disk, lh: seq<int>, tail: nat, b: nat)
    requires c.Ok() && |d| == c.nblocks && ListOk(c, lh) && tail <= |lh| && b < |d|
    ensures b !in lh[tail..] ==> InstallFrom(c, d, lh, tail)[b] == d[b]
    ensures forall j :: tail <= j < |lh| && lh[j] == b ==> InstallFrom(c, d, lh, tail)[b] == d[c.start + 1 + j]
    decreases |lh| - tail
  {
    if tail < |lh| {
      assert c.Home(lh[tail]);
      var d' := d[lh[tail] := d[c.start + 1 + tail]];
      InstallFromAt(c, d', lh, tail + 1, b);
      assert lh[tail..] == [lh[tail]] + lh[tail + 1..];
      if lh[tail] == b {
        assert b !in lh[tail + 1..];
      }
    }
  }

  /** Recovery of a disk yields `target` on every home block exactly when the disk carries it. */
  lemma RecoverIffCarries(c: Config, d: Disk, target: Disk)
    requires DiskOk(c, d) && |target| == c.nblocks
    ensures HomeEq(c, RecoverDisk(c, d), target) <==> Carries(c, d, target)
    ensures HeadList(RecoverDisk(c, d)[c.start]) == []
  {
    var lh := HeadList(d[c.start]);
    var r := RecoverDisk(c, d);
    forall b | c.Home(b) && b !in lh ensures r[b] == d[b] {
      InstallFromAt(c, d, lh, 0, b);
    }
    forall j | 0 <= j < |lh| ensures c.Home(lh[j]) && r[lh[j]] == d[c.start + 1 + j] {
      InstallFromAt(c, d, lh, 0, lh[j]);
    }
    if HomeEq(c, r, target) {
      forall b | c.Home(b) && b !in lh ensures d[b] == target[b] {
        assert r[b] == target[b];
      }
    }
  }

  // ----- the history --------------------------------------------------------------

  function Apply(d: Disk, e: Event): (r: Disk)
    ensures |r| == |d|
  {
    match e
    case Write(_, blk, data) => if blk < |d| then d[blk := data] else d
    case _ => d
  }

  function Bracket(open: set<nat>, e: Event): set<nat> {
    match e
    case Begin(op) => open + {op}
    case End(op) => open - {op}
    case Write(_, _, _) => open
  }

  /** The home blocks after all writes of the history. */
  function Replay(init: Disk, tr: seq<Event>): (d: Disk)
    ensures |d| == |init|
  {
    if tr == [] then init else Apply(Replay(init, tr[..|tr| - 1]), tr[|tr| - 1])
  }

  /** The operations begun and not ended in the history. */
  function Open(tr: seq<Event>): set<nat> {
    if tr == [] then {} else Bracket(Open(tr[..|tr| - 1]), tr[|tr| - 1])
  }

  lemma Snoc(init: Disk, tr: seq<Event>, e: Event)
    ensures Open(tr + [e]) == Bracket(Open(tr), e)
    ensures Replay(init, tr + [e]) == Apply(Replay(init, tr), e)
  {
    assert (tr + [e])[..|tr|] == tr;
  }

  /** A block holds what was written to it last, or what it held in the beginning. */
  lemma {:induction false} ReplayAt(init: Disk, tr: seq<Event>, b: nat, k: int)
    requires b < |init| && -1 <= k < |tr| && (k >= 0 ==> tr[k].Write? && tr[k].blk == b)
    requires forall j :: k < j < |tr| && tr[j].Write? ==> tr[j].blk != b
    ensures Replay(init, tr)[b] == if k < 0 then init[b] else tr[k].data
    decreases |tr|
  {
    if tr != [] && k < |tr| - 1 {
      ReplayAt(init, tr[..|tr| - 1], b, k);
    }
  }

  /** An operation is open if and only if it has begun and not ended since. */
  lemma {:induction false} OpenIff(tr: seq<Event>, op: nat)
    ensures op in Open(tr) <==> exists i :: 0 <= i < |tr| && tr[i] == Begin(op) && forall j :: i < j < |tr| ==> tr[j] != End(op)
    decreases |tr|
  {
    if tr != [] {
      var n := |tr| - 1;
      var rest := tr[..n];
      OpenIff(rest, op);
      if op in Open(tr) {
        if tr[n] == Begin(op) {
          assert tr[n] == Begin(op);
        } else {
          var i :| 0 <= i < |rest| && rest[i] == Begin(op) && forall j :: i < j < |rest| ==> rest[j] != End(op);
          assert tr[i] == Begin(op) && forall j :: i < j < |tr| ==> tr[j] != End(op);
        }
      }
      if i :| 0 <= i < |tr| && tr[i] == Begin(op) && forall j :: i < j < |tr| ==> tr[j] != End(op) {
        if i < n {
          assert rest[i] == Begin(op) && forall j :: i < j < |rest| ==> rest[j] != End(op);
        }
      }
    }
  }

  // ----- the steps ----------------------------------------------------------------

  predicate HasOp(ops: seq<Op>, id: nat) {
    exists i :: 0 <= i < |ops| && ops[i].id == id
  }

  ghost function OpIndex(ops: seq<Op>, id: nat): (i: nat)
    requires HasOp(ops, id)
    ensures i < |ops| && ops[i].id == id
  {
    var i :| 0 <= i < |ops| && ops[i].id == id;
    i
  }

  /** log_write appends a new block number and absorbs one already listed. */
  function Absorb(lh: seq<int>, blk: int): (r: seq<int>)
    ensures blk in r
    ensures forall b :: b in r <==> b in lh || b == blk
    ensures |r| == if blk in lh then |lh| else |lh| + 1
  {
    if blk in lh then lh else lh + [blk]
  }

  ghost predicate Enabled(c: Config, s: State, step: Step) {
    match step
    case BeginOp(op) =>
      && s.phase == Idle && !s.committing && !HasOp(s.ops, op)
      && |s.lh| + (|s.ops| + 1) * c.maxOp <= c.logSize
    case LogWrite(op, blk, data) =>
      && s.phase == Idle && HasOp(s.ops, op)
      && |s.lh| < c.logSize && |s.lh| < c.size - 1   // otherwise log_write panics
      && c.Home(blk) && |data| == c.words
      && |s.ops[OpIndex(s.ops, op)].blocks + {blk}| <= c.maxOp
    case EndOp(op) =>
      s.phase == Idle && HasOp(s.ops, op)
    case Commit => s.phase.WritingLog? || s.phase.WritingHead? || s.phase.Installing? || s.phase.Clearing? || s.phase.Finishing?
    case Crash => true
    case Recover => s.phase.Booting? || s.phase.Reinstalling? || s.phase.Reclearing?
  }

  /** An operation that may log a block within its budget. */
  ghost predicate InBudget(c: Config, s: State, op: nat, blk: nat, data: Data) {
    && s.phase == Idle && HasOp(s.ops, op) && c.Home(blk) && |data| == c.words
    && |s.ops[OpIndex(s.ops, op)].blocks + {blk as int}| <= c.maxOp
  }

  ghost function Do(c: Config, s: State, step: Step): (t: State)
    requires Shape(c, s) && Enabled(c, s, step)
  {
    match step
    case BeginOp(op) =>
      s.(ops := s.ops + [Op(op, {})], trace := s.trace + [Begin(op)])
    case LogWrite(op, blk, data) =>
      var i := OpIndex(s.ops, op);
      s.(cur := s.cur[blk := data],
         lh := Absorb(s.lh, blk),
         ops := s.ops[i := Op(op, s.ops[i].blocks + {blk})],
         trace := s.trace + [Write(op, blk, data)])
    case EndOp(op) =>
      var i := OpIndex(s.ops, op);
      var ops := s.ops[..i] + s.ops[i + 1..];
      var tr := s.trace + [End(op)];
      if ops != [] then s.(ops := ops, trace := tr)
      else if s.lh != [] then s.(ops := ops, trace := tr, committing := true, phase := WritingLog(0))
      else s.(ops := ops, trace := tr, committing := true, phase := Finishing, durable := |tr|)
    case Commit => CommitStep(c, s)
    case Crash =>
      s.(ops := [], committing := false, phase := Booting, trace := s.trace[..s.durable])
    case Recover => RecoverStep(c, s)
  }

  /** The step is possible in s and leads to t. */
  ghost predicate Steps(c: Config, s: State, step: Step, t: State) {
    Shape(c, s) && Enabled(c, s, step) && t == Do(c, s, step)
  }

  function CommitStep(c: Config, s: State): (t: State)
    requires Shape(c, s)
  {
    match s.phase
    case WritingLog(t) =>
      s.(disk := s.disk[c.start + 1 + t := s.cur[s.lh[t]]],
         phase := if t + 1 == |s.lh| then WritingHead else WritingLog(t + 1))
    case WritingHead =>
      s.(disk := s.disk[c.start := PutHead(s.disk[c.start], s.lh)], phase := Installing(0), durable := |s.trace|)
    case Installing(t) =>
      s.(disk := s.disk[s.lh[t] := s.disk[c.start + 1 + t]],
         phase := if t + 1 == |s.lh| then Clearing else Installing(t + 1))
    case Clearing =>
      s.(disk := s.disk[c.start := PutHead(s.disk[c.start], [])], lh := [], phase := Finishing)
    case Finishing =>
      s.(committing := false, phase := Idle)
    case _ => s
  }

  function RecoverStep(c: Config, s: State): (t: State)
    requires Shape(c, s)
  {
    match s.phase
    case Booting =>
      var lh := HeadList(s.disk[c.start]);
      s.(lh := lh, phase := if lh == [] then Reclearing else Reinstalling(0))
    case Reinstalling(t) =>
      s.(disk := s.disk[s.lh[t] := s.disk[c.start + 1 + t]],
         phase := if t + 1 == |s.lh| then Reclearing else Reinstalling(t + 1))
    case Reclearing =>
      var d := s.disk[c.start := PutHead(s.disk[c.start], [])];
      s.(disk := d, cur := d, lh := [], phase := Idle)
    case _ => s
  }

  // ----- invariants ---------------------------------------------------------------

  /** Indices are in range, so that every step is defined. */
  ghost predicate Shape(c: Config, s: State) {
    && DiskOk(c, s.disk)
    && |s.cur| == c.nblocks && (forall b :: 0 <= b < |s.cur| ==> |s.cur[b]| == c.words)
    && ListOk(c, s.lh)
    && s.durable <= |s.trace|
    && (s.phase.WritingLog? ==> s.phase.tail < |s.lh|)
    && (s.phase.WritingHead? ==> s.lh != [])
    && (s.phase.Installing? ==> s.phase.tail < |s.lh|)
    && (s.phase.Reinstalling? ==> s.phase.tail < |s.lh|)
  }

  /** The first k log blocks hold the cached contents of the first k listed blocks. */
  ghost predicate LogHolds(c: Config, s: State, k: nat)
    requires Shape(c, s) && k <= |s.lh|
  {
    forall j :: 0 <= j < k ==> s.disk[c.start + 1 + j] == s.cur[s.lh[j]]
  }

  /** The first k listed blocks are the same at home and in the log. */
  ghost predicate Installed(c: Config, s: State, k: nat)
    requires Shape(c, s) && k <= |s.lh|
  {
    forall j :: 0 <= j < k ==> s.disk[s.lh[j]] == s.disk[c.start + 1 + j]
  }

  ghost predicate CleanOutside(c: Config, s: State)
    requires Shape(c, s)
  {
    forall b {:trigger c.Home(b)} :: c.Home(b) && b !in s.lh ==> s.disk[b] == s.cur[b]
  }

  ghost predicate PhaseInv(c: Config, init: Disk, s: State)
    requires Shape(c, s) && |init| == c.nblocks
  {
    match s.phase
    case Idle =>
      HeadList(s.disk[c.start]) == [] && CleanOutside(c, s) && (s.ops == [] ==> s.lh == [])
      && (s.ops == [] ==> s.durable == |s.trace|)
    case WritingLog(t) =>
      HeadList(s.disk[c.start]) == [] && CleanOutside(c, s) && LogHolds(c, s, t)
    case WritingHead =>
      HeadList(s.disk[c.start]) == [] && CleanOutside(c, s) && LogHolds(c, s, |s.lh|)
    case Installing(t) =>
      s.durable == |s.trace| && HeadList(s.disk[c.start]) == s.lh && CleanOutside(c, s)
      && LogHolds(c, s, |s.lh|) && Installed(c, s, t)
    case Clearing =>
      s.durable == |s.trace| && HomeEq(c, s.disk, s.cur)
    case Finishing =>
      s.durable == |s.trace| && s.lh == [] && CleanOutside(c, s) && HeadList(s.disk[c.start]) == []
    case Booting => true
    case Reinstalling(t) => HeadList(s.disk[c.start]) == s.lh && Installed(c, s, t)
    case Reclearing => HeadList(s.disk[c.start]) == s.lh && Installed(c, s, |s.lh|)
  }

  predicate Recovering(p: Phase) {
    p.Booting? || p.Reinstalling? || p.Reclearing?
  }

  /** Budgets still unspent by the outstanding operations. */
  function Unspent(ops: seq<Op>, maxOp: int): int {
    if ops == [] then 0
    else Unspent(ops[..|ops| - 1], maxOp) + (maxOp - |ops[|ops| - 1].blocks|)
  }

  /** The open operations of the history are those outstanding, and their blocks are logged. */
  ghost predicate Tracked(c: Config, ops: seq<Op>, open: set<nat>, lh: seq<int>) {
    && (forall i, j :: 0 <= i < j < |ops| ==> ops[i].id != ops[j].id)
    && (forall i :: 0 <= i < |ops| ==> ops[i].id in open && |ops[i].blocks| <= c.maxOp)
    && (forall p :: p in open ==> HasOp(ops, p))
    && (forall i, b :: 0 <= i < |ops| && b in ops[i].blocks ==> b in lh)
  }

  ghost predicate OpsInv(c: Config, s: State) {
    && Tracked(c, s.ops, Open(s.trace), s.lh)
    && (s.phase != Idle || s.committing ==> s.ops == [])
    && (s.phase == Idle ==> |s.lh| + Unspent(s.ops, c.maxOp) <= c.logSize)
  }

  ghost predicate DiskInv(c: Config, init: Disk, s: State) {
    && |init| == c.nblocks
    && Shape(c, s)
    && Open(s.trace[..s.durable]) == {}
    && Carries(c, s.disk, Replay(init, s.trace[..s.durable]))
    && (!Recovering(s.phase) ==> HomeEq(c, s.cur, Replay(init, s.trace)))
    && (Recovering(s.phase) ==> s.durable == |s.trace|)
    && (s.committing <==> s.phase != Idle && !Recovering(s.phase))
    && PhaseInv(c, init, s)
  }

  ghost predicate Inv(c: Config, init: Disk, s: State) {
    DiskInv(c, init, s) && OpsInv(c, s)
  }
}
