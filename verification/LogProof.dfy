/** Crash safety of the log: what every step keeps, and what follows for whole runs. */
module LogProof {
  import opened LogSpec

  // ----- budgets --------------------------------------------------------------------

  lemma {:induction false} UnspentBounds(ops: seq<Op>, maxOp: nat)
    requires forall i :: 0 <= i < |ops| ==> |ops[i].blocks| <= maxOp
    ensures 0 <= Unspent(ops, maxOp) <= |ops| * maxOp
  {
    if ops != [] {
      UnspentBounds(ops[..|ops| - 1], maxOp);
      assert |ops| * maxOp == (|ops| - 1) * maxOp + maxOp;
    }
  }

  lemma {:induction false} UnspentConcat(a: seq<Op>, b: seq<Op>, maxOp: int)
    ensures Unspent(a + b, maxOp) == Unspent(a, maxOp) + Unspent(b, maxOp)
  {
    if b == [] {
      assert a + b == a;
    } else {
      assert (a + b)[..|a + b| - 1] == a + b[..|b| - 1];
      UnspentConcat(a, b[..|b| - 1], maxOp);
    }
  }

  /** The total splits at any operation. */
  lemma UnspentSplit(ops: seq<Op>, i: nat, maxOp: int)
    requires i < |ops|
    ensures Unspent(ops, maxOp)
         == Unspent(ops[..i], maxOp) + (maxOp - |ops[i].blocks|) + Unspent(ops[i + 1..], maxOp)
  {
    assert ops == ops[..i] + ([ops[i]] + ops[i + 1..]);
    UnspentConcat(ops[..i], [ops[i]] + ops[i + 1..], maxOp);
    UnspentConcat([ops[i]], ops[i + 1..], maxOp);
    assert Unspent([ops[i]], maxOp) == Unspent([], maxOp) + (maxOp - |ops[i].blocks|);
  }

  lemma UnspentUpdate(ops: seq<Op>, i: nat, op: Op, maxOp: int)
    requires i < |ops|
    ensures Unspent(ops[i := op], maxOp) == Unspent(ops, maxOp) + |ops[i].blocks| - |op.blocks|
  {
    UnspentSplit(ops, i, maxOp);
    UnspentSplit(ops[i := op], i, maxOp);
    assert ops[i := op][..i] == ops[..i] && ops[i := op][i + 1..] == ops[i + 1..];
  }

  lemma UnspentRemove(ops: seq<Op>, i: nat, maxOp: int)
    requires i < |ops|
    ensures Unspent(ops[..i] + ops[i + 1..], maxOp) == Unspent(ops, maxOp) - (maxOp - |ops[i].blocks|)
  {
    UnspentSplit(ops, i, maxOp);
    UnspentConcat(ops[..i], ops[i + 1..], maxOp);
  }

  // ----- boot -----------------------------------------------------------------------

  /** The machine just powered on, over any well-formed disk. */
  function Boot(d: Disk): State {
    State(d, d, [], [], false, Booting, [], 0)
  }

  lemma BootInv(c: Config, d: Disk)
    requires DiskOk(c, d)
    ensures Inv(c, RecoverDisk(c, d), Boot(d))
  {
    RecoverIffCarries(c, d, RecoverDisk(c, d));
  }

  // ----- the operations -------------------------------------------------------------

  lemma BeginKeepsOps(c: Config, s: State, op: nat)
    requires Shape(c, s) && OpsInv(c, s) && Enabled(c, s, BeginOp(op))
    ensures OpsInv(c, Do(c, s, BeginOp(op)))
  {
    var t := Do(c, s, BeginOp(op));
    Snoc(s.disk, s.trace, Begin(op));
    assert |t.lh| + Unspent(t.ops, c.maxOp) <= c.logSize by {
      UnspentBounds(s.ops, c.maxOp);
      assert t.ops[..|s.ops|] == s.ops;
      assert (|s.ops| + 1) * c.maxOp == |s.ops| * c.maxOp + c.maxOp;
    }
    forall p | p in Open(t.trace) ensures HasOp(t.ops, p) {
      if p == op {
        assert t.ops[|s.ops|].id == op;
      } else {
        assert t.ops[OpIndex(s.ops, p)].id == p;
      }
    }
  }

  lemma BeginKeeps(c: Config, init: Disk, s: State, op: nat)
    requires DiskInv(c, init, s) && Enabled(c, s, BeginOp(op))
    ensures DiskInv(c, init, Do(c, s, BeginOp(op)))
  {
    var t := Do(c, s, BeginOp(op));
    Snoc(init, s.trace, Begin(op));
    assert t.trace[..t.durable] == s.trace[..s.durable];
  }

  lemma WriteKeepsOps(c: Config, s: State, op: nat, blk: nat, data: Data)
    requires Shape(c, s) && OpsInv(c, s) && Enabled(c, s, LogWrite(op, blk, data))
    ensures OpsInv(c, Do(c, s, LogWrite(op, blk, data)))
  {
    var t := Do(c, s, LogWrite(op, blk, data));
    var i := OpIndex(s.ops, op);
    Snoc(s.disk, s.trace, Write(op, blk, data));
    UnspentUpdate(s.ops, i, t.ops[i], c.maxOp);
    if blk in s.ops[i].blocks {
      assert t.ops[i].blocks == s.ops[i].blocks;
    }
    forall p | p in Open(t.trace) ensures HasOp(t.ops, p) {
      assert t.ops[OpIndex(s.ops, p)].id == p;
    }
  }

  lemma WriteKeeps(c: Config, init: Disk, s: State, op: nat, blk: nat, data: Data)
    requires DiskInv(c, init, s) && Enabled(c, s, LogWrite(op, blk, data))
    ensures DiskInv(c, init, Do(c, s, LogWrite(op, blk, data)))
  {
    var t := Do(c, s, LogWrite(op, blk, data));
    Snoc(init, s.trace, Write(op, blk, data));
    assert t.trace[..t.durable] == s.trace[..s.durable];
  }

  lemma RemoveTracked(c: Config, ops: seq<Op>, open: set<nat>, lh: seq<int>, i: nat)
    requires Tracked(c, ops, open, lh) && i < |ops|
    ensures Tracked(c, ops[..i] + ops[i + 1..], open - {ops[i].id}, lh)
  {
    var r := ops[..i] + ops[i + 1..];
    forall k | 0 <= k < |r| ensures r[k] == ops[if k < i then k else k + 1] {
    }
    forall p | p in open - {ops[i].id} ensures HasOp(r, p) {
      var k := OpIndex(ops, p);
      assert r[if k < i then k else k - 1] == ops[k];
    }
  }

  lemma EndKeepsOps(c: Config, s: State, op: nat)
    requires Shape(c, s) && OpsInv(c, s) && Enabled(c, s, EndOp(op))
    ensures OpsInv(c, Do(c, s, EndOp(op)))
    ensures Do(c, s, EndOp(op)).ops == [] ==> Open(s.trace + [End(op)]) == {}
  {
    var i := OpIndex(s.ops, op);
    Snoc(s.disk, s.trace, End(op));
    RemoveTracked(c, s.ops, Open(s.trace), s.lh, i);
    var t := Do(c, s, EndOp(op));
    assert Tracked(c, t.ops, Open(t.trace), t.lh);
    UnspentRemove(s.ops, i, c.maxOp);
  }

  /** The last end_op starts a commit; with nothing logged there is nothing to write. */
  lemma LastEndKeeps(c: Config, init: Disk, s: State, op: nat)
    requires DiskInv(c, init, s) && Enabled(c, s, EndOp(op))
    requires Do(c, s, EndOp(op)).phase == Finishing && Open(s.trace + [End(op)]) == {}
    ensures DiskInv(c, init, Do(c, s, EndOp(op)))
  {
    var t := Do(c, s, EndOp(op));
    Snoc(init, s.trace, End(op));
    assert t.trace[..t.durable] == t.trace;
  }

  lemma EndKeeps(c: Config, init: Disk, s: State, op: nat)
    requires DiskInv(c, init, s) && Enabled(c, s, EndOp(op))
    requires Do(c, s, EndOp(op)).phase == Finishing ==> Open(s.trace + [End(op)]) == {}
    ensures DiskInv(c, init, Do(c, s, EndOp(op)))
  {
    if Do(c, s, EndOp(op)).phase == Finishing {
      LastEndKeeps(c, init, s, op);
    } else {
      Snoc(init, s.trace, End(op));
      assert (s.trace + [End(op)])[..s.durable] == s.trace[..s.durable];
    }
  }

  // ----- commit and recovery ----------------------------------------------------------

  /** With no operation outstanding, the bookkeeping of operations is untouched. */
  lemma QuietOps(c: Config, s: State, t: State)
    requires OpsInv(c, s) && s.phase != Idle && t.ops == s.ops && t.trace == s.trace && |t.lh| <= c.logSize
    ensures OpsInv(c, t)
  {}

  lemma WriteLogKeeps(c: Config, init: Disk, s: State)
    requires DiskInv(c, init, s) && s.phase.WritingLog?
    ensures DiskInv(c, init, CommitStep(c, s))
  {
    hide Replay, Open;
    assert c.Home(s.lh[s.phase.tail]);
  }

  /** The header write is the commit point: the disk stops carrying the old contents
      and carries the whole history. */
  lemma WriteHeadKeeps(c: Config, init: Disk, s: State)
    requires Inv(c, init, s) && s.phase.WritingHead?
    ensures DiskInv(c, init, CommitStep(c, s))
    ensures CommitStep(c, s).durable == |s.trace|
  {
    var t := CommitStep(c, s);
    assert t.trace[..t.durable] == s.trace;
    assert HeadList(t.disk[c.start]) == s.lh;
    forall j | 0 <= j < |s.lh|
      ensures c.Home(s.lh[j]) && t.disk[c.start + 1 + j] == Replay(init, s.trace)[s.lh[j]]
    {
      assert c.Home(s.lh[j]);
    }
  }

  /** Copying one listed block home changes nothing about what the disk carries. */
  lemma InstallOneCarries(c: Config, d: Disk, lh: seq<int>, k: nat, target: Disk)
    requires DiskOk(c, d) && Carries(c, d, target) && lh == HeadList(d[c.start]) && k < |lh|
    ensures c.Home(lh[k])
    ensures var d' := d[lh[k] := d[c.start + 1 + k]];
            DiskOk(c, d') && d'[c.start] == d[c.start] && Carries(c, d', target)
  {
    assert c.Home(lh[k]);
    var d' := d[lh[k] := d[c.start + 1 + k]];
    assert d'[c.start] == d[c.start];
    assert CarriesBy(c, d', lh, target);
  }

  /** A list all of whose blocks are installed makes every home block agree. */
  lemma AllInstalled(c: Config, s: State, target: Disk)
    requires Shape(c, s) && |target| == c.nblocks && CarriesBy(c, s.disk, s.lh, target) && Installed(c, s, |s.lh|)
    ensures HomeEq(c, s.disk, target)
  {
    forall b | c.Home(b) ensures s.disk[b] == target[b] {
      if b in s.lh {
        var j :| 0 <= j < |s.lh| && s.lh[j] == b;
        assert s.disk[c.start + 1 + j] == target[s.lh[j]];
      }
    }
  }

  /** Copying listed block k home extends the installed part by one. */
  lemma InstallOneInstalled(c: Config, s: State, t: State, k: nat)
    requires Shape(c, s) && Shape(c, t) && k < |s.lh| && t.lh == s.lh && Installed(c, s, k) && c.Home(s.lh[k])
    requires t.disk == s.disk[s.lh[k] := s.disk[c.start + 1 + k]]
    ensures Installed(c, t, k + 1)
  {
    forall j | 0 <= j <= k ensures t.disk[s.lh[j]] == t.disk[c.start + 1 + j] {
      assert c.Home(s.lh[j]) && !c.Home(c.start + 1 + j);
    }
  }

  /** It changes no log block and no block outside the list. */
  lemma InstallOneLog(c: Config, s: State, t: State, k: nat)
    requires Shape(c, s) && Shape(c, t) && k < |s.lh| && t.lh == s.lh && t.cur == s.cur && c.Home(s.lh[k])
    requires t.disk == s.disk[s.lh[k] := s.disk[c.start + 1 + k]] && LogHolds(c, s, |s.lh|) && CleanOutside(c, s)
    ensures LogHolds(c, t, |t.lh|) && CleanOutside(c, t)
  {
    forall j | 0 <= j < |s.lh| ensures t.disk[c.start + 1 + j] == t.cur[t.lh[j]] {
      assert !c.Home(c.start + 1 + j);
    }
  }

  lemma InstallKeeps(c: Config, init: Disk, s: State)
    requires DiskInv(c, init, s) && s.phase.Installing?
    ensures DiskInv(c, init, CommitStep(c, s))
  {
    hide Replay, Open, Installed, LogHolds, CleanOutside, CarriesBy;
    var t := CommitStep(c, s);
    var k := s.phase.tail;
    var target := Replay(init, s.trace);
    assert s.trace[..s.durable] == s.trace;
    InstallOneCarries(c, s.disk, s.lh, k, target);
    InstallOneInstalled(c, s, t, k);
    InstallOneLog(c, s, t, k);
    if k + 1 == |s.lh| {
      AllInstalled(c, t, target);
    }
  }

  /** The header write that erases a transaction whose blocks are all home. */
  lemma EraseKeeps(c: Config, init: Disk, s: State)
    requires DiskInv(c, init, s) && s.phase.Clearing? && s.ops == []
    ensures DiskInv(c, init, CommitStep(c, s))
  {
    hide Replay, Open;
    var t, target := CommitStep(c, s), Replay(init, s.trace);
    assert s.trace[..s.durable] == s.trace && t.trace == s.trace && t.durable == s.durable;
    ErasedDisk(c, s.disk);
    forall b | c.Home(b) ensures t.disk[b] == target[b] == s.cur[b] {
    }
    assert Carries(c, t.disk, target);
  }

  /** A disk with an empty header. */
  lemma ErasedDisk(c: Config, d: Disk)
    requires DiskOk(c, d)
    ensures var e := d[c.start := PutHead(d[c.start], [])];
            DiskOk(c, e) && HeadList(e[c.start]) == [] && forall b {:trigger c.Home(b)} :: c.Home(b) ==> e[b] == d[b]
  {}

  lemma FinishKeeps(c: Config, init: Disk, s: State)
    requires DiskInv(c, init, s) && s.phase.Finishing? && s.ops == []
    ensures DiskInv(c, init, CommitStep(c, s))
  {
    hide Replay, Open;
    assert s.trace[..s.durable] == s.trace;
  }

  lemma ReinstallKeeps(c: Config, init: Disk, s: State)
    requires DiskInv(c, init, s) && s.phase.Reinstalling?
    ensures DiskInv(c, init, RecoverStep(c, s))
  {
    var t := RecoverStep(c, s);
    var k := s.phase.tail;
    InstallOneCarries(c, s.disk, s.lh, k, Replay(init, s.trace[..s.durable]));
    assert Shape(c, t);
    InstallOneInstalled(c, s, t, k);
  }

  lemma ReclearKeeps(c: Config, init: Disk, s: State)
    requires DiskInv(c, init, s) && s.phase.Reclearing? && s.ops == []
    ensures DiskInv(c, init, RecoverStep(c, s))
  {
    var t := RecoverStep(c, s);
    assert s.trace[..s.durable] == s.trace;
    AllInstalled(c, s, Replay(init, s.trace));
    assert HomeEq(c, t.disk, Replay(init, s.trace));
  }

  lemma CrashKeeps(c: Config, init: Disk, s: State)
    requires Inv(c, init, s)
    ensures Inv(c, init, Do(c, s, Crash))
  {
    var t := Do(c, s, Crash);
    assert t.trace[..t.durable] == s.trace[..s.durable];
  }

  lemma StepKeeps(c: Config, init: Disk, s: State, step: Step)
    requires Inv(c, init, s) && Enabled(c, s, step)
    ensures Inv(c, init, Do(c, s, step))
  {
    match step
    case BeginOp(op) => BeginKeeps(c, init, s, op); BeginKeepsOps(c, s, op);
    case LogWrite(op, blk, data) => WriteKeeps(c, init, s, op, blk, data); WriteKeepsOps(c, s, op, blk, data);
    case EndOp(op) => EndKeepsOps(c, s, op); EndKeeps(c, init, s, op);
    case Commit => CommitKeeps(c, init, s);
    case Crash => CrashKeeps(c, init, s);
    case Recover => RecoverKeeps(c, init, s);
  }

  lemma CommitKeeps(c: Config, init: Disk, s: State)
    requires Inv(c, init, s) && Enabled(c, s, Commit)
    ensures Inv(c, init, CommitStep(c, s))
  {
    QuietOps(c, s, CommitStep(c, s));
    match s.phase
    case WritingLog(_) => WriteLogKeeps(c, init, s);
    case WritingHead => WriteHeadKeeps(c, init, s);
    case Installing(_) => InstallKeeps(c, init, s);
    case Clearing => EraseKeeps(c, init, s);
    case _ => FinishKeeps(c, init, s);
  }

  lemma RecoverKeeps(c: Config, init: Disk, s: State)
    requires Inv(c, init, s) && Enabled(c, s, Recover)
    ensures Inv(c, init, RecoverStep(c, s))
  {
    QuietOps(c, s, RecoverStep(c, s));
    match s.phase
    case Reinstalling(_) => ReinstallKeeps(c, init, s);
    case Reclearing => ReclearKeeps(c, init, s);
    case _ =>
  }

  // ----- whole runs -------------------------------------------------------------------

  /** The states of `run` follow one another by enabled steps. */
  ghost predicate IsRun(c: Config, run: seq<State>) {
    |run| > 0 && forall i :: 0 < i < |run| ==> StepAt(c, run, i)
  }

  ghost predicate StepAt(c: Config, run: seq<State>, i: nat)
    requires 0 < i < |run|
  {
    Follows(c, run[i - 1], run[i])
  }

  ghost predicate Follows(c: Config, s: State, t: State) {
    Shape(c, s) && exists step :: Enabled(c, s, step) && t == Do(c, s, step)
  }

  lemma FollowsKeeps(c: Config, init: Disk, s: State, t: State)
    requires Inv(c, init, s) && Follows(c, s, t)
    ensures Inv(c, init, t)
  {
    var step :| Enabled(c, s, step) && t == Do(c, s, step);
    StepKeeps(c, init, s, step);
  }

  /** Whatever every step keeps holds all along a run. */
  lemma {:induction false} RunKeeps(c: Config, p: State -> bool, run: seq<State>, i: nat)
    requires IsRun(c, run) && p(run[0]) && i < |run|
    requires forall s, t :: p(s) && Follows(c, s, t) ==> p(t)
    ensures p(run[i])
  {
    if i > 0 {
      RunKeeps(c, p, run, i - 1);
      assert StepAt(c, run, i);
    }
  }

  lemma RunInv(c: Config, d: Disk, run: seq<State>, i: nat)
    requires DiskOk(c, d) && IsRun(c, run) && run[0] == Boot(d) && i < |run|
    ensures Inv(c, RecoverDisk(c, d), run[i])
  {
    var init := RecoverDisk(c, d);
    BootInv(c, d);
    forall s, t | Inv(c, init, s) && Follows(c, s, t) ensures Inv(c, init, t) {
      FollowsKeeps(c, init, s, t);
    }
    RunKeeps(c, s => Inv(c, init, s), run, i);
  }

  /** Crash safety: whatever state a run is in, recovering the disk as it is now gives exactly
      the contents after the first `durable` events, and no operation is cut in two there. */
  lemma CrashSafety(c: Config, d: Disk, run: seq<State>, i: nat)
    requires DiskOk(c, d) && IsRun(c, run) && run[0] == Boot(d) && i < |run|
    ensures DiskOk(c, run[i].disk)
    ensures var s := run[i];
            && s.durable <= |s.trace|
            && HomeEq(c, RecoverDisk(c, s.disk), Replay(RecoverDisk(c, d), s.trace[..s.durable]))
            && Open(s.trace[..s.durable]) == {}
  {
    RunInv(c, d, run, i);
    RecoverIffCarries(c, run[i].disk, Replay(RecoverDisk(c, d), run[i].trace[..run[i].durable]));
  }

  /** What is durable in s is durable in t. */
  ghost predicate Lasts(s: State, t: State) {
    s.durable <= |s.trace| && t.durable <= |t.trace| && s.trace[..s.durable] <= t.trace[..t.durable]
  }

  /** What is durable stays durable, through any steps and crashes. */
  lemma {:induction false} DurableStays(c: Config, d: Disk, run: seq<State>, i: nat, j: nat)
    requires DiskOk(c, d) && IsRun(c, run) && run[0] == Boot(d) && i <= j < |run|
    ensures Lasts(run[i], run[j])
    decreases j
  {
    hide Inv, Shape, Do, Enabled;
    if i == j {
      CrashSafety(c, d, run, i);
    } else {
      DurableStays(c, d, run, i, j - 1);
      assert StepAt(c, run, j);
      FollowsLasts(c, run[j - 1], run[j]);
    }
  }

  lemma FollowsLasts(c: Config, s: State, t: State)
    requires s.durable <= |s.trace| && Follows(c, s, t)
    ensures Lasts(s, t)
  {}

  /** An operation open at i and not ended before k is open in the history up to k. */
  lemma {:induction false} StaysOpen(tr: seq<Event>, i: nat, k: nat, op: nat)
    requires i < k <= |tr| && tr[i] == Begin(op)
    requires forall j :: i < j < k ==> tr[j] != End(op)
    ensures op in Open(tr[..k])
  {
    assert tr[..k][..k - 1] == tr[..k - 1];
    if k > i + 1 {
      StaysOpen(tr, i, k - 1, op);
    }
  }

  /** Of one operation, either all events survive a crash or none: its begin is durable
      exactly when any later event of the same operation is. */
  lemma AllOrNothing(c: Config, d: Disk, run: seq<State>, n: nat, i: nat, j: nat, op: nat)
    requires DiskOk(c, d) && IsRun(c, run) && run[0] == Boot(d) && n < |run|
    requires i <= j < |run[n].trace| && run[n].trace[i] == Begin(op)
    requires forall k :: i < k < j ==> run[n].trace[k] != End(op)
    ensures i < run[n].durable <==> j < run[n].durable
  {
    RunInv(c, d, run, n);
    var s := run[n];
    if i < s.durable <= j {
      StaysOpen(s.trace, i, s.durable, op);
    }
  }

  /** Durability: once no operation is outstanding and no commit runs, everything is durable,
      and the home blocks on disk are the contents seen through the cache. */
  lemma QuiescentDurable(c: Config, d: Disk, run: seq<State>, n: nat)
    requires DiskOk(c, d) && IsRun(c, run) && run[0] == Boot(d) && n < |run|
    requires run[n].phase == Idle && run[n].ops == []
    ensures run[n].durable == |run[n].trace| && HomeEq(c, run[n].disk, run[n].cur)
  {
    RunInv(c, d, run, n);
  }

  /** An outstanding operation, within its budget, logs a block not yet in the header. */
  ghost predicate Adds(c: Config, s: State, op: nat, blk: int) {
    && s.phase == Idle && HasOp(s.ops, op) && blk !in s.lh
    && |s.ops[OpIndex(s.ops, op)].blocks + {blk}| <= c.maxOp
  }

  /** Space reservation: distinct entries, the header plus the unspent budgets fit LOGSIZE,
      committing means nobody is outstanding, and an operation within its budget that adds a
      new block never finds the header array full. */
  lemma Reservation(c: Config, d: Disk, run: seq<State>, n: nat, op: nat, blk: int)
    requires DiskOk(c, d) && IsRun(c, run) && run[0] == Boot(d) && n < |run|
    ensures var s := run[n];
            && (forall i, j :: 0 <= i < j < |s.lh| ==> s.lh[i] != s.lh[j])
            && (s.committing ==> s.ops == [])
            && (s.phase == Idle ==> |s.lh| + Unspent(s.ops, c.maxOp) <= c.logSize)
            && (Adds(c, s, op, blk) ==> |s.lh| < c.logSize)
  {
    RunInv(c, d, run, n);
    var s := run[n];
    if Adds(c, s, op, blk) {
      var i := OpIndex(s.ops, op);
      assert blk !in s.ops[i].blocks;
      UnspentSplit(s.ops, i, c.maxOp);
      UnspentBounds(s.ops[..i], c.maxOp);
      UnspentBounds(s.ops[i + 1..], c.maxOp);
    }
  }

  /** log_write tests for a full header, and for a full log on disk, before it looks for the block.  So an
      operation within its budget meets the panic exactly when one of the two is full.  The header array is
      full only for a block that is listed; a new block meets the panic exactly when the log on disk has
      no block left although the array has room, hence never if the log has a block for each entry. */
  lemma PanicsIffFull(c: Config, d: Disk, run: seq<State>, n: nat, op: nat, blk: nat, data: Data)
    requires DiskOk(c, d) && IsRun(c, run) && run[0] == Boot(d) && n < |run|
    requires InBudget(c, run[n], op, blk, data)
    ensures var s := run[n];
            && (!Enabled(c, s, LogWrite(op, blk, data)) <==> |s.lh| >= c.Room())
            && (|s.lh| >= c.logSize ==> blk in s.lh)
            && (blk !in s.lh ==> (!Enabled(c, s, LogWrite(op, blk, data)) <==> c.size - 1 <= |s.lh| < c.logSize))
            && (blk !in s.lh && c.logSize <= c.size - 1 ==> Enabled(c, s, LogWrite(op, blk, data)))
  {
    Reservation(c, d, run, n, op, blk);
  }

  const ZERO: Data := [0, 0, 0]

  /** An empty disk of n blocks. */
  function Blank(n: nat): Disk {
    seq(n, _ => ZERO)
  }

  /** Booting an empty disk with the log in blocks 0 and 1, beginning operation 0 and logging block 2. */
  lemma LoggedTwo(c: Config) returns (run: seq<State>)
    requires c.start == 0 && c.size == 2 && c.nblocks > 2 && 0 < c.maxOp <= c.logSize <= 2 && c.words == 3
    ensures DiskOk(c, Blank(c.nblocks)) && IsRun(c, run) && run[0] == Boot(Blank(c.nblocks))
    ensures var s := run[|run| - 1]; s.phase == Idle && s.lh == [2] && s.ops == [Op(0, {2})]
  {
    run := Begun(c);
    var ops := run[|run| - 1].ops;
    assert ops[0].id == 0 && HasOp(ops, 0) && OpIndex(ops, 0) == 0;
    assert ops[0].blocks + {2} == {2};
    run := Take(c, Blank(c.nblocks), run, LogWrite(0, 2, ZERO));
    assert ops[0 := Op(0, {2})] == [Op(0, {2})];
  }

  lemma Begun(c: Config) returns (run: seq<State>)
    requires c.start == 0 && c.size == 2 && c.nblocks > 2 && 0 < c.maxOp <= c.logSize <= 2 && c.words == 3
    ensures var d := Blank(c.nblocks);
            && DiskOk(c, d) && IsRun(c, run) && run[0] == Boot(d)
            && run[|run| - 1] == State(d, d, [], [Op(0, {})], false, Idle, [Begin(0)], 0)
  {
    var d := Blank(c.nblocks);
    assert HeadList(ZERO) == [] && PutHead(ZERO, []) == ZERO && d[0 := ZERO] == d;
    run := [Boot(d)];
    run := Take(c, d, run, Recover);
    assert run[|run| - 1] == State(d, d, [], [], false, Reclearing, [], 0);
    run := Take(c, d, run, Recover);
    assert run[|run| - 1] == State(d, d, [], [], false, Idle, [], 0);
    run := Take(c, d, run, BeginOp(0));
  }

  // Both logs have one block for contents; the second has a header array of two entries.
  const SMALL := Config(0, 2, 3, 1, 1, 3)
  const NARROW := Config(0, 2, 4, 2, 2, 3)

  /** The panic for a listed block can be reached: an operation logs its one block and then logs it again. */
  lemma AbsorptionCanPanic() returns (run: seq<State>)
    ensures DiskOk(SMALL, Blank(3)) && IsRun(SMALL, run) && run[0] == Boot(Blank(3)) && SMALL.logSize <= SMALL.size - 1
    ensures var s := run[|run| - 1];
            2 in s.lh && InBudget(SMALL, s, 0, 2, ZERO) && !Enabled(SMALL, s, LogWrite(0, 2, ZERO))
  {
    run := LoggedTwo(SMALL);
    var ops := run[|run| - 1].ops;
    assert ops[0].id == 0 && HasOp(ops, 0) && OpIndex(ops, 0) == 0;
    assert ops[0].blocks + {2} == {2};
  }

  /** So can the panic for a new block, when the log on disk is as long as the header array (mkfs makes it
      so): the header block itself takes one of its blocks. */
  lemma NewBlockCanPanic() returns (run: seq<State>)
    ensures DiskOk(NARROW, Blank(4)) && IsRun(NARROW, run) && run[0] == Boot(Blank(4)) && NARROW.size == NARROW.logSize
    ensures var s := run[|run| - 1];
            3 !in s.lh && InBudget(NARROW, s, 0, 3, ZERO) && !Enabled(NARROW, s, LogWrite(0, 3, ZERO))
  {
    run := LoggedTwo(NARROW);
    var ops := run[|run| - 1].ops;
    assert ops[0].id == 0 && HasOp(ops, 0) && OpIndex(ops, 0) == 0;
    assert ops[0].blocks + {3} == {2, 3};
  }

  /** A run may be extended by any enabled step. */
  lemma Extends(c: Config, run: seq<State>, step: Step)
    requires IsRun(c, run) && Shape(c, run[|run| - 1]) && Enabled(c, run[|run| - 1], step)
    ensures IsRun(c, run + [Do(c, run[|run| - 1], step)])
  {
    hide Shape, Enabled, Do;
    var run' := run + [Do(c, run[|run| - 1], step)];
    forall i | 0 < i < |run'| ensures StepAt(c, run', i) {
      if i < |run| {
        assert StepAt(c, run, i);
      } else {
        assert Follows(c, run[|run| - 1], run'[i]);
      }
    }
  }

  /** One more step of a run that begins at power-on. */
  lemma Take(c: Config, d: Disk, run: seq<State>, step: Step) returns (longer: seq<State>)
    requires DiskOk(c, d) && IsRun(c, run) && run[0] == Boot(d) && Enabled(c, run[|run| - 1], step)
    ensures Shape(c, run[|run| - 1]) && longer == run + [Do(c, run[|run| - 1], step)] && IsRun(c, longer) && longer[0] == Boot(d)
  {
    hide Shape, Enabled, Do, PhaseInv, OpsInv, Carries, Replay, Open, HomeEq;
    RunInv(c, d, run, |run| - 1);
    longer := run + [Do(c, run[|run| - 1], step)];
    Extends(c, run, step);
  }
}
