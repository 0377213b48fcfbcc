/** sleep, wakeup, kill and sleep locks as a machine of small steps.  Processes run concurrently;
    a spinlock can be taken when it is free; sched hands p->lock to the scheduler in one step. */
module SleepLock {
  import opened OptionType

  /** Points in acquiresleep, in the sleep it may call, in releasesleep with its wakeup, and in kill. */
  datatype AcqPoint = TakeLk | Test | DropLk
  datatype SlpPoint = TakeLock | LeaveLk | SetChan | SetState | Sched | Off | Tidy | DropLock | RetakeLk
  datatype RelPoint = EnterLk | Clear | Scan | Check | Leave | Finish
  datatype KillPoint = Grab | Hit | Drop

  /** Where a process is; l is a sleep lock, i the process that wakeup looks at. */
  datatype Pc = Idle | Acq(a: AcqPoint, l: nat) | Slp(z: SlpPoint, l: nat) | Rel(r: RelPoint, l: nat, i: nat) | Kill(k: KillPoint, q: nat)

  datatype Owner = Free | By(p: nat) | Scheduler
  datatype RunState = Running | Runnable | Sleeping

  /** A process: its position, p->state, p->chan, p->lock, and the sleep locks it holds. */
  datatype Proc = Proc(pc: Pc, state: RunState, chan: Option<nat>, lock: Owner, mine: set<nat>)

  /** A sleep lock: its inner spinlock, locked, and the process whose pid it records. */
  datatype Lock = Lock(lk: Owner, locked: bool, pid: Option<nat>)

  datatype State = State(procs: seq<Proc>, locks: seq<Lock>)

  datatype Action =
    | Call(p: nat, pc: Pc)        // an idle process enters acquiresleep, releasesleep or kill
    | Run(p: nat)                 // the next small step of a process
    | SchedRelease(q: nat)        // the scheduler releases p->lock
    | Dispatch(q: nat)            // the scheduler takes p->lock of a runnable process and switches to it

  /** May the next step of a process be taken: is the spinlock it wants free? */
  predicate CanStep(s: State, p: nat)
    requires p < |s.procs|
  {
    var me := s.procs[p];
    match me.pc
    case Idle => false
    case Acq(a, l) => a == TakeLk ==> LkFree(s, l)
    case Slp(z, l) => z != Off && (z == TakeLock ==> me.lock == Free) && (z == RetakeLk ==> LkFree(s, l))
    case Rel(r, l, i) => (r == EnterLk ==> LkFree(s, l)) && (r == Scan && i != p && i < |s.procs| ==> s.procs[i].lock == Free)
    case Kill(k, q) => k == Grab ==> q < |s.procs| && s.procs[q].lock == Free
  }

  predicate LkFree(s: State, l: nat) {
    l < |s.locks| && s.locks[l].lk == Free
  }

  predicate Enabled(s: State, a: Action) {
    match a
    case Call(p, pc) => p < |s.procs| && s.procs[p].pc == Idle && MayCall(s, p, pc)
    case Run(p) => p < |s.procs| && CanStep(s, p)
    case SchedRelease(q) => q < |s.procs| && s.procs[q].lock == Scheduler
    case Dispatch(q) => q < |s.procs| && s.procs[q].lock == Free && s.procs[q].state == Runnable
                        && s.procs[q].pc.Slp? && s.procs[q].pc.z == Off
  }

  /** Only the holder of a sleep lock releases it. */
  predicate MayCall(s: State, p: nat, pc: Pc)
    requires p < |s.procs|
  {
    match pc
    case Acq(a, l) => a == TakeLk && l < |s.locks|
    case Rel(r, l, i) => r == EnterLk && i == 0 && l in s.procs[p].mine
    case Kill(k, q) => k == Grab && q < |s.procs|
    case _ => false
  }

  function SetProc(s: State, p: nat, me: Proc): State
    requires p < |s.procs|
  {
    s.(procs := s.procs[p := me])
  }

  function SetLk(s: State, l: nat, o: Owner): State {
    if l < |s.locks| then s.(locks := s.locks[l := s.locks[l].(lk := o)]) else s
  }

  function SetLock(s: State, q: nat, o: Owner): State {
    if q < |s.procs| then s.(procs := s.procs[q := s.procs[q].(lock := o)]) else s
  }

  function Goto(s: State, p: nat, pc: Pc): State
    requires p < |s.procs|
  {
    SetProc(s, p, s.procs[p].(pc := pc))
  }

  /** Wake process q if it is asleep, on this channel when one is given. */
  function Rouse(s: State, q: nat, chan: Option<nat>): State {
    if q < |s.procs| && s.procs[q].state == Sleeping && (chan.None? || s.procs[q].chan == chan)
    then SetProc(s, q, s.procs[q].(state := Runnable))
    else s
  }

  function Do(s: State, a: Action): State
    requires Enabled(s, a)
  {
    match a
    case Call(p, pc) => Goto(s, p, pc)
    case Run(p) => Next(s, p)
    case SchedRelease(q) => SetLock(s, q, Free)
    case Dispatch(q) => SetProc(s, q, s.procs[q].(pc := Slp(Tidy, s.procs[q].pc.l), state := Running, lock := By(q)))
  }

  /** One small step of process p. */
  function Next(s: State, p: nat): State
    requires p < |s.procs| && CanStep(s, p)
  {
    match s.procs[p].pc
    case Idle => s
    case Acq(a, l) => NextAcq(s, p, a, l)
    case Slp(z, l) => NextSlp(s, p, z, l)
    case Rel(r, l, i) => NextRel(s, p, r, l, i)
    case Kill(k, q) => NextKill(s, p, k, q)
  }

  function NextAcq(s: State, p: nat, a: AcqPoint, l: nat): State
    requires p < |s.procs|
  {
    var me := s.procs[p];
    match a
    case TakeLk => Goto(SetLk(s, l, By(p)), p, Acq(Test, l))
    case Test =>
      if l >= |s.locks| then s
      else if s.locks[l].locked then Goto(s, p, Slp(TakeLock, l))
      else SetProc(s.(locks := s.locks[l := s.locks[l].(locked := true, pid := Some(p))]), p,
                   me.(mine := me.mine + {l}, pc := Acq(DropLk, l)))
    case DropLk => Goto(SetLk(s, l, Free), p, Idle)
  }

  function NextSlp(s: State, p: nat, z: SlpPoint, l: nat): State
    requires p < |s.procs|
  {
    var me := s.procs[p];
    match z
    case TakeLock => Goto(SetLock(s, p, By(p)), p, Slp(LeaveLk, l))
    case LeaveLk => Goto(SetLk(s, l, Free), p, Slp(SetChan, l))
    case SetChan => SetProc(s, p, me.(chan := Some(l), pc := Slp(SetState, l)))
    case SetState => SetProc(s, p, me.(state := Sleeping, pc := Slp(Sched, l)))
    case Sched => Goto(SetLock(s, p, Scheduler), p, Slp(Off, l))
    case Off => s
    case Tidy => SetProc(s, p, me.(chan := None, pc := Slp(DropLock, l)))
    case DropLock => Goto(SetLock(s, p, Free), p, Slp(RetakeLk, l))
    case RetakeLk => Goto(SetLk(s, l, By(p)), p, Acq(Test, l))
  }

  function NextRel(s: State, p: nat, r: RelPoint, l: nat, i: nat): State
    requires p < |s.procs|
  {
    var me := s.procs[p];
    match r
    case EnterLk => Goto(SetLk(s, l, By(p)), p, Rel(Clear, l, 0))
    case Clear =>
      if l >= |s.locks| then s
      else SetProc(s.(locks := s.locks[l := s.locks[l].(locked := false, pid := None)]), p,
                   me.(mine := me.mine - {l}, pc := Rel(Scan, l, 0)))
    case Scan =>
      if i >= |s.procs| then Goto(s, p, Rel(Finish, l, i))
      else if i == p then Goto(s, p, Rel(Scan, l, i + 1))
      else Goto(SetLock(s, i, By(p)), p, Rel(Check, l, i))
    case Check => Goto(Rouse(s, i, Some(l)), p, Rel(Leave, l, i))
    case Leave => Goto(SetLock(s, i, Free), p, Rel(Scan, l, i + 1))
    case Finish => Goto(SetLk(s, l, Free), p, Idle)
  }

  function NextKill(s: State, p: nat, k: KillPoint, q: nat): State
    requires p < |s.procs|
  {
    match k
    case Grab => Goto(SetLock(s, q, By(p)), p, Kill(Hit, q))
    case Hit => Goto(Rouse(s, q, None), p, Kill(Drop, q))
    case Drop => Goto(SetLock(s, q, Free), p, Idle)
  }

  function Init(n: nat, m: nat): State {
    State(seq(n, _ => Proc(Idle, Running, None, Free, {})), seq(m, _ => Lock(Free, false, None)))
  }

  // ----- the invariant ------------------------------------------------------------------------

  /** Positions at which a process holds the spinlock of sleep lock l. */
  predicate HasLk(pc: Pc, l: nat) {
    match pc
    case Acq(a, k) => k == l && a != TakeLk
    case Slp(z, k) => k == l && (z == TakeLock || z == LeaveLk)
    case Rel(r, k, _) => k == l && r != EnterLk
    case _ => false
  }

  /** Positions at which process p holds the p->lock of q. */
  predicate HasLock(pc: Pc, p: nat, q: nat) {
    match pc
    case Slp(z, _) => q == p && z != TakeLock && z != Off && z != RetakeLk
    case Rel(r, _, i) => i == q && (r == Check || r == Leave)
    case Kill(k, j) => j == q && k != Grab
    case _ => false
  }

  /** A process is asleep on lock l, or has given up its spinlock in order to sleep. */
  predicate Sleepy(me: Proc, l: nat) {
    me.pc.Slp? && me.pc.l == l &&
    (me.pc.z == SetChan || me.pc.z == SetState || me.pc.z == Sched || (me.pc.z == Off && me.state == Sleeping))
  }

  /** A wakeup of lock l has not yet come past process p. */
  predicate Ahead(pc: Pc, l: nat, p: nat) {
    pc.Rel? && pc.l == l && (if pc.r == Leave then pc.i < p else (pc.r == Scan || pc.r == Check) && pc.i <= p)
  }

  /** Facts of one process. */
  ghost predicate ProcOk(s: State, p: nat)
    requires p < |s.procs|
  {
    var me := s.procs[p];
    && (me.state == Sleeping ==> me.pc.Slp? && (me.pc.z == Sched || me.pc.z == Off))
    && (me.lock == Scheduler ==> me.pc.Slp? && me.pc.z == Off)
    && (forall l :: l in me.mine ==> l < |s.locks| && s.locks[l].locked && s.locks[l].pid == Some(p))
    && match me.pc
       case Idle => true
       case Acq(a, l) => l < |s.locks| && (a == DropLk ==> l in me.mine)
       case Slp(z, l) =>
         && l < |s.locks|
         && (z == Sched ==> me.state == Sleeping)
         && (z == SetState || z == Sched || z == Off ==> me.chan == Some(l))
         && (z == TakeLock || z == LeaveLk ==> s.locks[l].locked)
       case Rel(r, l, i) =>
         && l < |s.locks| && (r == Check || r == Leave ==> i != p && i < |s.procs|)
         && if r == EnterLk || r == Clear then l in me.mine else l !in me.mine && !s.locks[l].locked
       case Kill(_, q) => q < |s.procs|
  }

  ghost predicate LkOk(s: State, p: nat, l: nat)
    requires p < |s.procs|
  {
    HasLk(s.procs[p].pc, l) ==> l < |s.locks| && s.locks[l].lk == By(p)
  }

  ghost predicate LockOk(s: State, p: nat, q: nat)
    requires p < |s.procs|
  {
    HasLock(s.procs[p].pc, p, q) ==> q < |s.procs| && s.procs[q].lock == By(p)
  }

  /** Whoever sleeps on l will be woken: l is locked, or a wakeup is on its way. */
  ghost predicate SleeperOk(s: State, p: nat, l: nat)
    requires p < |s.procs|
  {
    Sleepy(s.procs[p], l) ==>
      l < |s.locks| && (s.locks[l].locked || (s.locks[l].lk.By? && s.locks[l].lk.p < |s.procs| && Ahead(s.procs[s.locks[l].lk.p].pc, l, p)))
  }

  /** A sleep lock is locked exactly while the process it records holds it. */
  ghost predicate HolderOk(s: State, l: nat)
    requires l < |s.locks|
  {
    if s.locks[l].locked
    then s.locks[l].pid.Some? && s.locks[l].pid.value < |s.procs| && l in s.procs[s.locks[l].pid.value].mine
    else s.locks[l].pid.None?
  }

  /** The inner spinlock of l is taken only by a process that is inside its critical section. */
  ghost predicate LkBack(s: State, l: nat)
    requires l < |s.locks|
  {
    match s.locks[l].lk
    case Free => true
    case By(p) => p < |s.procs| && HasLk(s.procs[p].pc, l)
    case Scheduler => false
  }

  /** So it is with the p->lock of q. */
  ghost predicate LockBack(s: State, q: nat)
    requires q < |s.procs|
  {
    s.procs[q].lock.By? ==> s.procs[q].lock.p < |s.procs| && HasLock(s.procs[s.procs[q].lock.p].pc, s.procs[q].lock.p, q)
  }

  /** Only within sleep does a process have a channel, and only there is it not running. */
  ghost predicate StateOk(s: State, p: nat)
    requires p < |s.procs|
  {
    var me := s.procs[p];
    var waits := me.pc.Slp? && (me.pc.z == SetState || me.pc.z == Sched || me.pc.z == Off || me.pc.z == Tidy);
    && me.chan == (if waits then Some(me.pc.l) else None)
    && (me.state != Running <==> me.pc.Slp? && (me.pc.z == Sched || me.pc.z == Off))
  }

  ghost predicate Inv(s: State) {
    && (forall l: nat {:trigger LkBack(s, l)} :: l < |s.locks| ==> LkBack(s, l))
    && (forall q: nat {:trigger LockBack(s, q)} :: q < |s.procs| ==> LockBack(s, q))
    && (forall p: nat {:trigger StateOk(s, p)} :: p < |s.procs| ==> StateOk(s, p))
    && (forall p: nat {:trigger ProcOk(s, p)} :: p < |s.procs| ==> ProcOk(s, p))
    && (forall p: nat, l: nat {:trigger LkOk(s, p, l)} :: p < |s.procs| ==> LkOk(s, p, l))
    && (forall p: nat, q: nat {:trigger LockOk(s, p, q)} :: p < |s.procs| ==> LockOk(s, p, q))
    && (forall p: nat, l: nat {:trigger SleeperOk(s, p, l)} :: p < |s.procs| ==> SleeperOk(s, p, l))
    && (forall l: nat {:trigger HolderOk(s, l)} :: l < |s.locks| ==> HolderOk(s, l))
  }

  /** What the invariant says about processes p and q and lock l, without quantifiers. */
  ghost predicate Local(s: State, p: nat, q: nat, l: nat)
    requires p < |s.procs| && q < |s.procs|
  {
    && ProcOk(s, p) && ProcOk(s, q) && LkOk(s, p, l) && LkOk(s, q, l)
    && LockOk(s, p, q) && LockOk(s, q, q) && LockOk(s, q, p) && SleeperOk(s, q, l)
  }

  lemma InvLocal(s: State, p: nat, q: nat, l: nat)
    requires Inv(s) && p < |s.procs| && q < |s.procs|
    ensures Local(s, p, q, l)
  {}

  /** The lock a position is about. */
  function LockOf(pc: Pc): nat {
    if pc.Idle? || pc.Kill? then 0 else pc.l
  }

  // One small step of p, seen from process q and lock l: first the spinlock and the sleepers of l.

  lemma AcqStep(s: State, p: nat, q: nat, l: nat)
    requires p < |s.procs| && q < |s.procs| && CanStep(s, p) && Local(s, p, q, l) && s.procs[p].pc.Acq?
    ensures LkOk(Next(s, p), q, l) && SleeperOk(Next(s, p), q, l)
  {}

  lemma SlpStep(s: State, p: nat, q: nat, l: nat)
    requires p < |s.procs| && q < |s.procs| && CanStep(s, p) && Local(s, p, q, l) && s.procs[p].pc.Slp?
    ensures LkOk(Next(s, p), q, l) && SleeperOk(Next(s, p), q, l)
  {}

  lemma RelStep(s: State, p: nat, q: nat, l: nat)
    requires p < |s.procs| && q < |s.procs| && CanStep(s, p) && Local(s, p, q, l) && s.procs[p].pc.Rel?
    ensures LkOk(Next(s, p), q, l)
  {}

  /** A wakeup passes q only when q is no longer on its way to sleep. */
  lemma WakeStep(s: State, p: nat, q: nat, l: nat)
    requires p < |s.procs| && q < |s.procs| && CanStep(s, p) && Local(s, p, q, l) && s.procs[p].pc.Rel?
    ensures SleeperOk(Next(s, p), q, l)
  {
    if s.procs[p].pc.r == Check || s.procs[p].pc.r == Leave {
      PassStep(s, p, q, l);
    }
  }

  lemma PassStep(s: State, p: nat, q: nat, l: nat)
    requires p < |s.procs| && q < |s.procs| && CanStep(s, p) && Local(s, p, q, l)
    requires s.procs[p].pc.Rel? && (s.procs[p].pc.r == Check || s.procs[p].pc.r == Leave)
    ensures SleeperOk(Next(s, p), q, l)
  {}

  lemma KillStep(s: State, p: nat, q: nat, l: nat)
    requires p < |s.procs| && q < |s.procs| && CanStep(s, p) && Local(s, p, q, l) && s.procs[p].pc.Kill?
    ensures LkOk(Next(s, p), q, l) && SleeperOk(Next(s, p), q, l)
  {}

  // Then the facts of q itself.

  lemma AcqProc(s: State, p: nat, q: nat)
    requires p < |s.procs| && q < |s.procs| && CanStep(s, p) && s.procs[p].pc.Acq?
    requires Local(s, p, q, LockOf(s.procs[p].pc)) && Local(s, p, q, LockOf(s.procs[q].pc)) && HolderOk(s, s.procs[p].pc.l)
    ensures ProcOk(Next(s, p), q)
  {}

  lemma SlpProc(s: State, p: nat, q: nat)
    requires p < |s.procs| && q < |s.procs| && CanStep(s, p) && s.procs[p].pc.Slp?
    requires Local(s, p, q, LockOf(s.procs[p].pc)) && Local(s, p, q, LockOf(s.procs[q].pc))
    ensures ProcOk(Next(s, p), q)
  {
    if q == p {
      SlpSelf(s, p);
    }
  }

  lemma SlpSelf(s: State, p: nat)
    requires p < |s.procs| && CanStep(s, p) && s.procs[p].pc.Slp? && Local(s, p, p, LockOf(s.procs[p].pc))
    ensures ProcOk(Next(s, p), p)
  {}

  lemma RelProc(s: State, p: nat, q: nat)
    requires p < |s.procs| && q < |s.procs| && CanStep(s, p) && s.procs[p].pc.Rel?
    requires Local(s, p, q, LockOf(s.procs[p].pc)) && Local(s, p, q, LockOf(s.procs[q].pc))
    ensures ProcOk(Next(s, p), q)
  {
    if q == p {
      RelSelf(s, p);
    } else if s.procs[p].pc.r == Clear {
      RelClear(s, p, q);
    }
  }

  lemma RelSelf(s: State, p: nat)
    requires p < |s.procs| && CanStep(s, p) && s.procs[p].pc.Rel? && Local(s, p, p, LockOf(s.procs[p].pc))
    ensures ProcOk(Next(s, p), p)
  {}

  lemma RelClear(s: State, p: nat, q: nat)
    requires p < |s.procs| && q < |s.procs| && q != p && CanStep(s, p) && s.procs[p].pc.Rel? && s.procs[p].pc.r == Clear
    requires Local(s, p, q, LockOf(s.procs[p].pc)) && Local(s, p, q, LockOf(s.procs[q].pc))
    ensures ProcOk(Next(s, p), q)
  {}

  lemma KillProc(s: State, p: nat, q: nat)
    requires p < |s.procs| && q < |s.procs| && CanStep(s, p) && s.procs[p].pc.Kill?
    requires Local(s, p, q, LockOf(s.procs[p].pc)) && Local(s, p, q, LockOf(s.procs[q].pc))
    ensures ProcOk(Next(s, p), q)
  {
    if q == p {
      KillSelf(s, p);
    }
  }

  lemma KillSelf(s: State, p: nat)
    requires p < |s.procs| && CanStep(s, p) && s.procs[p].pc.Kill? && Local(s, p, p, LockOf(s.procs[p].pc))
    ensures ProcOk(Next(s, p), p)
  {}

  // The p->locks and the holders.

  lemma LockStep(s: State, p: nat, r: nat, q: nat)
    requires p < |s.procs| && r < |s.procs| && CanStep(s, p) && ProcOk(s, p) && ProcOk(s, r)
    requires LockOk(s, p, q) && LockOk(s, r, q)
    ensures LockOk(Next(s, p), r, q)
  {
    if s.procs[p].pc.Rel? {
      LockRel(s, p, r, q);
    } else if s.procs[p].pc.Kill? {
      LockKill(s, p, r, q);
    }
  }

  lemma LockRel(s: State, p: nat, r: nat, q: nat)
    requires p < |s.procs| && r < |s.procs| && CanStep(s, p) && ProcOk(s, p) && s.procs[p].pc.Rel?
    requires LockOk(s, p, q) && LockOk(s, r, q)
    ensures LockOk(Next(s, p), r, q)
  {}

  lemma LockKill(s: State, p: nat, r: nat, q: nat)
    requires p < |s.procs| && r < |s.procs| && CanStep(s, p) && ProcOk(s, p) && s.procs[p].pc.Kill?
    requires LockOk(s, p, q) && LockOk(s, r, q)
    ensures LockOk(Next(s, p), r, q)
  {}

  lemma HolderStep(s: State, p: nat, l: nat)
    requires p < |s.procs| && l < |s.locks| && CanStep(s, p) && ProcOk(s, p) && HolderOk(s, l)
    ensures HolderOk(Next(s, p), l)
  {
    if s.procs[p].pc.Rel? {
      HolderRel(s, p, l);
    }
  }

  lemma HolderRel(s: State, p: nat, l: nat)
    requires p < |s.procs| && l < |s.locks| && CanStep(s, p) && ProcOk(s, p) && HolderOk(s, l) && s.procs[p].pc.Rel?
    ensures HolderOk(Next(s, p), l)
  {}

  lemma LkBackStep(s: State, p: nat, l: nat)
    requires p < |s.procs| && l < |s.locks| && CanStep(s, p) && ProcOk(s, p) && LkOk(s, p, l) && LkBack(s, l)
    ensures LkBack(Next(s, p), l)
  {
    if s.procs[p].pc.Rel? {
      LkBackRel(s, p, l);
    }
  }

  lemma LkBackRel(s: State, p: nat, l: nat)
    requires p < |s.procs| && l < |s.locks| && CanStep(s, p) && ProcOk(s, p) && LkOk(s, p, l) && LkBack(s, l) && s.procs[p].pc.Rel?
    ensures LkBack(Next(s, p), l)
  {}

  lemma LockBackStep(s: State, p: nat, q: nat)
    requires p < |s.procs| && q < |s.procs| && CanStep(s, p) && ProcOk(s, p) && LockOk(s, p, q) && LockBack(s, q)
    ensures LockBack(Next(s, p), q)
  {
    if s.procs[p].pc.Rel? {
      LockBackRel(s, p, q);
    } else if s.procs[p].pc.Kill? {
      LockBackKill(s, p, q);
    }
  }

  lemma LockBackKill(s: State, p: nat, q: nat)
    requires p < |s.procs| && q < |s.procs| && CanStep(s, p) && ProcOk(s, p) && LockOk(s, p, q) && LockBack(s, q) && s.procs[p].pc.Kill?
    ensures LockBack(Next(s, p), q)
  {}

  lemma LockBackRel(s: State, p: nat, q: nat)
    requires p < |s.procs| && q < |s.procs| && CanStep(s, p) && ProcOk(s, p) && LockOk(s, p, q) && LockBack(s, q) && s.procs[p].pc.Rel?
    ensures LockBack(Next(s, p), q)
  {
    if s.procs[p].pc.r == Scan {
      LockBackScan(s, p, q);
    }
  }

  lemma LockBackScan(s: State, p: nat, q: nat)
    requires p < |s.procs| && q < |s.procs| && CanStep(s, p) && LockOk(s, p, q) && LockBack(s, q) && s.procs[p].pc.Rel? && s.procs[p].pc.r == Scan
    ensures LockBack(Next(s, p), q)
  {}

  lemma StateStep(s: State, p: nat, q: nat)
    requires p < |s.procs| && q < |s.procs| && CanStep(s, p) && Local(s, p, q, 0) && StateOk(s, q)
    ensures StateOk(Next(s, p), q)
  {
    hide StateOk;
    if q == p {
      StateSelf(s, p);
    } else {
      StateOther(s, p, q);
    }
  }

  lemma StateSelf(s: State, p: nat)
    requires p < |s.procs| && CanStep(s, p) && ProcOk(s, p) && LockOk(s, p, p) && StateOk(s, p)
    ensures StateOk(Next(s, p), p)
  {
    if s.procs[p].pc.Rel? {
      StateRel(s, p, p);
    }
  }

  /** Another process can only be woken, and only when it has switched away. */
  lemma StateOther(s: State, p: nat, q: nat)
    requires p < |s.procs| && q < |s.procs| && q != p && CanStep(s, p) && ProcOk(s, p) && ProcOk(s, q)
    requires LockOk(s, p, q) && LockOk(s, q, q) && StateOk(s, q)
    ensures StateOk(Next(s, p), q)
  {
    if s.procs[p].pc.Rel? {
      StateRel(s, p, q);
    }
  }

  lemma StateRel(s: State, p: nat, q: nat)
    requires p < |s.procs| && q < |s.procs| && CanStep(s, p) && ProcOk(s, p) && ProcOk(s, q) && s.procs[p].pc.Rel?
    requires LockOk(s, p, q) && LockOk(s, q, q) && StateOk(s, q)
    ensures StateOk(Next(s, p), q)
  {}

  /** The small step of any process keeps the invariant. */
  lemma RunKeeps(s: State, p: nat)
    requires Inv(s) && p < |s.procs| && CanStep(s, p)
    ensures Inv(Next(s, p))
  {
    var t := Next(s, p);
    forall q: nat | q < |t.procs| ensures ProcOk(t, q) {
      ProcKeeps(s, p, q);
    }
    forall q: nat, l: nat | q < |t.procs| ensures LkOk(t, q, l) && SleeperOk(t, q, l) {
      LkKeeps(s, p, q, l);
    }
    forall r: nat, q: nat | r < |t.procs| ensures LockOk(t, r, q) {
      assert ProcOk(s, p) && ProcOk(s, r) && LockOk(s, p, q) && LockOk(s, r, q);
      LockStep(s, p, r, q);
    }
    forall l: nat | l < |t.locks| ensures HolderOk(t, l) && LkBack(t, l) {
      assert ProcOk(s, p) && HolderOk(s, l) && LkOk(s, p, l) && LkBack(s, l);
      HolderStep(s, p, l);
      LkBackStep(s, p, l);
    }
    forall q: nat | q < |t.procs| ensures LockBack(t, q) && StateOk(t, q) {
      InvLocal(s, p, q, 0);
      assert LockBack(s, q) && StateOk(s, q);
      LockBackStep(s, p, q);
      StateStep(s, p, q);
    }
  }

  lemma ProcKeeps(s: State, p: nat, q: nat)
    requires Inv(s) && p < |s.procs| && q < |s.procs| && CanStep(s, p)
    ensures ProcOk(Next(s, p), q)
  {
    InvLocal(s, p, q, LockOf(s.procs[p].pc));
    InvLocal(s, p, q, LockOf(s.procs[q].pc));
    if s.procs[p].pc.Acq? {
      assert HolderOk(s, s.procs[p].pc.l);
      AcqProc(s, p, q);
    } else if s.procs[p].pc.Slp? {
      SlpProc(s, p, q);
    } else if s.procs[p].pc.Rel? {
      RelProc(s, p, q);
    } else {
      KillProc(s, p, q);
    }
  }

  lemma LkKeeps(s: State, p: nat, q: nat, l: nat)
    requires Inv(s) && p < |s.procs| && q < |s.procs| && CanStep(s, p)
    ensures LkOk(Next(s, p), q, l) && SleeperOk(Next(s, p), q, l)
  {
    InvLocal(s, p, q, l);
    if s.procs[p].pc.Acq? {
      AcqStep(s, p, q, l);
    } else if s.procs[p].pc.Slp? {
      SlpStep(s, p, q, l);
    } else if s.procs[p].pc.Rel? {
      RelStep(s, p, q, l);
      WakeStep(s, p, q, l);
    } else {
      KillStep(s, p, q, l);
    }
  }

  /** Calls and the scheduler keep it too. */
  lemma OtherKeeps(s: State, a: Action)
    requires Inv(s) && Enabled(s, a) && !a.Run?
    ensures Inv(Do(s, a))
  {
    var t := Do(s, a);
    var p := if a.Call? then a.p else a.q;
    forall q: nat | q < |t.procs| ensures ProcOk(t, q) && LockBack(t, q) && StateOk(t, q) {
      assert ProcOk(s, q) && ProcOk(s, p) && LockBack(s, q) && StateOk(s, q);
      OtherProc(s, a, q);
    }
    forall q: nat, l: nat | q < |t.procs| ensures LkOk(t, q, l) && SleeperOk(t, q, l) {
      InvLocal(s, p, q, l);
      OtherSleeper(s, a, p, q, l);
    }
    forall r: nat, q: nat | r < |t.procs| ensures LockOk(t, r, q) {
      assert ProcOk(s, p) && ProcOk(s, r) && LockOk(s, p, q) && LockOk(s, r, q);
    }
    forall l: nat | l < |t.locks| ensures HolderOk(t, l) && LkBack(t, l) {
      assert HolderOk(s, l) && LkBack(s, l);
      OtherHolder(s, a, l);
    }
  }

  lemma OtherProc(s: State, a: Action, q: nat)
    requires Enabled(s, a) && !a.Run? && q < |s.procs| && ProcOk(s, q) && LockBack(s, q) && StateOk(s, q)
    ensures ProcOk(Do(s, a), q) && LockBack(Do(s, a), q) && StateOk(Do(s, a), q)
  {}

  lemma OtherSleeper(s: State, a: Action, p: nat, q: nat, l: nat)
    requires Enabled(s, a) && !a.Run? && p == (if a.Call? then a.p else a.q) && q < |s.procs| && Local(s, p, q, l)
    ensures LkOk(Do(s, a), q, l) && SleeperOk(Do(s, a), q, l)
  {}

  lemma OtherHolder(s: State, a: Action, l: nat)
    requires Enabled(s, a) && !a.Run? && l < |s.locks| && HolderOk(s, l) && LkBack(s, l)
    ensures HolderOk(Do(s, a), l) && LkBack(Do(s, a), l)
  {}

  // ----- runs -----------------------------------------------------------------------------------

  /** A run: the states before each action and at the end. */
  ghost predicate IsRun(trace: seq<State>, acts: seq<Action>) {
    |trace| == |acts| + 1 && forall i :: 0 <= i < |acts| ==> Enabled(trace[i], acts[i]) && trace[i + 1] == Do(trace[i], acts[i])
  }

  lemma ActKeeps(s: State, a: Action)
    requires Inv(s) && Enabled(s, a)
    ensures Inv(Do(s, a)) && |Do(s, a).procs| == |s.procs| && |Do(s, a).locks| == |s.locks|
  {
    hide Inv;
    if a.Run? {
      RunKeeps(s, a.p);
    } else {
      OtherKeeps(s, a);
    }
  }

  /** Every state of every run. */
  lemma {:induction false} RunInv(n: nat, m: nat, trace: seq<State>, acts: seq<Action>, i: nat)
    requires IsRun(trace, acts) && trace[0] == Init(n, m) && i < |trace|
    ensures Inv(trace[i]) && |trace[i].procs| == n && |trace[i].locks| == m
  {
    hide Inv, Enabled, Do;
    if i == 0 {
      InitInv(n, m);
    } else {
      RunInv(n, m, trace, acts, i - 1);
      ActKeeps(trace[i - 1], acts[i - 1]);
    }
  }

  /** Asleep on l, or anywhere between the decision to sleep on l and the sleep. */
  predicate Sleeps(me: Proc, l: nat) {
    Sleepy(me, l) || (me.pc.Slp? && me.pc.l == l && (me.pc.z == TakeLock || me.pc.z == LeaveLk))
  }

  /** No lost wakeup: in every interleaving, when the inner spinlock of a sleep lock is free and the
      lock is not taken, nobody sleeps on it or is about to. */
  lemma NoLostWakeup(n: nat, m: nat, trace: seq<State>, acts: seq<Action>, i: nat, l: nat, p: nat)
    requires IsRun(trace, acts) && trace[0] == Init(n, m) && i < |trace| && l < m && p < n
    ensures var s := trace[i];
            |s.procs| == n && |s.locks| == m && (s.locks[l].lk == Free && !s.locks[l].locked ==> !Sleeps(s.procs[p], l))
  {
    RunInv(n, m, trace, acts, i);
    assert LkOk(trace[i], p, l) && SleeperOk(trace[i], p, l);
  }

  /** At most one process holds a sleep lock, and holdingsleep tells it so. */
  lemma MutualExclusion(n: nat, m: nat, trace: seq<State>, acts: seq<Action>, i: nat, l: nat, p: nat, q: nat)
    requires IsRun(trace, acts) && trace[0] == Init(n, m) && i < |trace| && l < m && p < n && q < n
    ensures var s := trace[i];
            && |s.procs| == n && |s.locks| == m
            && (l in s.procs[p].mine && l in s.procs[q].mine ==> p == q)
            && (HoldingSleep(s, l, p) <==> l in s.procs[p].mine)
  {
    RunInv(n, m, trace, acts, i);
    assert ProcOk(trace[i], p) && ProcOk(trace[i], q) && HolderOk(trace[i], l);
  }

  predicate HoldingSleep(s: State, l: nat, p: nat)
    requires l < |s.locks|
  {
    s.locks[l].locked && s.locks[l].pid == Some(p)
  }

  lemma InitInv(n: nat, m: nat)
    ensures Inv(Init(n, m))
  {}

  /** A process that is in none of these calls is running, has no channel and holds no spinlock; a spinlock
      is held only by a process at a point where the code holds it. */
  lemma SpinlocksReturned(n: nat, m: nat, trace: seq<State>, acts: seq<Action>, i: nat, p: nat, q: nat, l: nat)
    requires IsRun(trace, acts) && trace[0] == Init(n, m) && i < |trace| && p < n && q < n && l < m
    ensures var s := trace[i];
            && |s.procs| == n && |s.locks| == m
            && (s.locks[l].lk == By(p) <==> HasLk(s.procs[p].pc, l)) && (s.procs[q].lock == By(p) <==> HasLock(s.procs[p].pc, p, q))
            && (s.procs[p].pc == Idle ==> s.locks[l].lk != By(p) && s.procs[q].lock != By(p))
            && (!s.procs[p].pc.Slp? ==> s.procs[p].state == Running && s.procs[p].chan == None)
  {
    RunInv(n, m, trace, acts, i);
    assert LkOk(trace[i], p, l) && LockOk(trace[i], p, q) && LkBack(trace[i], l) && LockBack(trace[i], q) && StateOk(trace[i], p);
  }

  /** A sleeper is woken exactly by a wakeup that looks at it and finds it on its channel, and by a kill of it. */
  lemma WokenIff(s: State, a: Action, q: nat)
    requires Inv(s) && Enabled(s, a) && q < |s.procs| && s.procs[q].state == Sleeping
    ensures |Do(s, a).procs| == |s.procs|
    ensures Do(s, a).procs[q].state != Sleeping <==>
            a.Run? && var pc := s.procs[a.p].pc;
            (pc.Rel? && pc.r == Check && pc.i == q && s.procs[q].chan == Some(pc.l)) || pc == Kill(Hit, q)
  {
    assert ProcOk(s, q) && StateOk(s, q);
    if a.Run? && a.p != q {
      assert ProcOk(s, a.p);
      WokenRun(s, a.p, q);
    }
  }

  lemma WokenRun(s: State, p: nat, q: nat)
    requires p < |s.procs| && q < |s.procs| && p != q && CanStep(s, p) && s.procs[q].state == Sleeping
    ensures |Next(s, p).procs| == |s.procs|
    ensures Next(s, p).procs[q].state != Sleeping <==>
            var pc := s.procs[p].pc;
            (pc.Rel? && pc.r == Check && pc.i == q && s.procs[q].chan == Some(pc.l)) || pc == Kill(Hit, q)
  {}

  // ----- whole calls ----------------------------------------------------------------------------

  /** From moment i to moment j the sleep locks of p are `before`, up to moment k, and then `after`. */
  ghost predicate Switches(trace: seq<State>, p: nat, i: nat, k: nat, j: nat, before: set<nat>, after: set<nat>) {
    && i <= k <= j < |trace| && (forall x :: i <= x <= j ==> p < |trace[x].procs|)
    && (forall x :: i <= x <= k ==> trace[x].procs[p].mine == before)
    && (forall x :: k < x <= j ==> trace[x].procs[p].mine == after)
  }

  /** Process p is in a call, begun at moment i and not ended before moment j. */
  ghost predicate During(trace: seq<State>, acts: seq<Action>, p: nat, pc: Pc, i: nat, j: nat) {
    && i < j <= |acts| < |trace| && acts[i] == Call(p, pc) && (forall x :: i <= x <= j ==> p < |trace[x].procs|)
    && forall x :: i < x < j ==> trace[x].procs[p].pc != Idle
  }

  /** Within releasesleep(l): the lock is p's up to Clear. */
  ghost predicate Releasing(s: State, p: nat, l: nat, before: set<nat>) {
    && p < |s.procs| && s.procs[p].pc.Rel? && s.procs[p].pc.l == l
    && s.procs[p].mine == if s.procs[p].pc.r == EnterLk || s.procs[p].pc.r == Clear then before else before - {l}
  }

  /** What others do leaves the sleep locks of p alone; of its position they can only end the sleep. */
  lemma Untouched(s: State, a: Action, p: nat)
    requires Enabled(s, a) && p < |s.procs| && a != Run(p) && s.procs[p].pc != Idle
    ensures p < |Do(s, a).procs| && Do(s, a).procs[p].mine == s.procs[p].mine
    ensures Do(s, a).procs[p].pc == if a == Dispatch(p) then Slp(Tidy, s.procs[p].pc.l) else s.procs[p].pc
  {
    if a.Run? {
      NextOther(s, a.p, p);
    }
  }

  lemma NextOther(s: State, q: nat, p: nat)
    requires q < |s.procs| && p < |s.procs| && q != p && CanStep(s, q)
    ensures p < |Next(s, q).procs| && Next(s, q).procs[p].mine == s.procs[p].mine && Next(s, q).procs[p].pc == s.procs[p].pc
  {}

  /** The lock that releasesleep leaves behind. */
  ghost predicate Released(s: State, p: nat, l: nat, before: set<nat>) {
    && p < |s.procs| && l < |s.locks| && s.procs[p].pc == Idle
    && s.procs[p].mine == before - {l} && s.locks[l] == Lock(Free, false, None)
  }

  lemma ReleasingOwn(s: State, p: nat, l: nat, before: set<nat>)
    requires Releasing(s, p, l, before) && CanStep(s, p) && ProcOk(s, p) && HolderOk(s, l)
    ensures if s.procs[p].pc.r == Finish then Released(Next(s, p), p, l, before) else Releasing(Next(s, p), p, l, before)
    ensures Next(s, p).procs[p].mine == if s.procs[p].pc.r == Clear then before - {l} else s.procs[p].mine
  {}

  /** Whatever anybody does, p stays within releasesleep, or ends it and leaves the lock free. */
  lemma ReleasingStep(s: State, a: Action, p: nat, l: nat, before: set<nat>)
    requires Inv(s) && Enabled(s, a) && Releasing(s, p, l, before)
    ensures Releasing(Do(s, a), p, l, before) || Released(Do(s, a), p, l, before)
    ensures Do(s, a).procs[p].mine != s.procs[p].mine ==> a == Run(p) && s.procs[p].pc.r == Clear
  {
    hide Next;
    if a == Run(p) {
      assert ProcOk(s, p) && HolderOk(s, s.procs[p].pc.l);
      ReleasingOwn(s, p, l, before);
    } else {
      Untouched(s, a, p);
    }
  }

  /** Within acquiresleep(l), asleep or not: the lock is p's after the last Test. */
  ghost predicate Acquiring(s: State, p: nat, l: nat, before: set<nat>) {
    && p < |s.procs| && (s.procs[p].pc.Acq? || s.procs[p].pc.Slp?) && s.procs[p].pc.l == l
    && s.procs[p].mine == if s.procs[p].pc == Acq(DropLk, l) then before + {l} else before
  }

  /** The lock that acquiresleep leaves behind. */
  ghost predicate Acquired(s: State, p: nat, l: nat, before: set<nat>) {
    && p < |s.procs| && l < |s.locks| && s.procs[p].pc == Idle
    && s.procs[p].mine == before + {l} && s.locks[l] == Lock(Free, true, Some(p))
  }

  lemma AcquiringOwn(s: State, p: nat, l: nat, before: set<nat>)
    requires Acquiring(s, p, l, before) && CanStep(s, p) && ProcOk(s, p)
    ensures if s.procs[p].pc == Acq(DropLk, l) then Acquired(Next(s, p), p, l, before) else Acquiring(Next(s, p), p, l, before)
    ensures Next(s, p).procs[p].pc == Acq(DropLk, l) <==> TakesNow(s, p, l)
  {}

  /** p is at the test of the loop in acquiresleep, and the lock is not taken. */
  predicate TakesNow(s: State, p: nat, l: nat) {
    p < |s.procs| && l < |s.locks| && s.procs[p].pc == Acq(Test, l) && !s.locks[l].locked
  }

  /** Whatever anybody does, p stays within acquiresleep, or ends it with the lock in its hands.  It goes on to the
      end exactly if its test finds the lock free. */
  lemma AcquiringStep(s: State, a: Action, p: nat, l: nat, before: set<nat>)
    requires Inv(s) && Enabled(s, a) && Acquiring(s, p, l, before)
    ensures Acquiring(Do(s, a), p, l, before) || (s.procs[p].pc == Acq(DropLk, l) && Acquired(Do(s, a), p, l, before))
    ensures s.procs[p].pc != Acq(DropLk, l) ==> (Do(s, a).procs[p].pc == Acq(DropLk, l) <==> a == Run(p) && TakesNow(s, p, l))
    ensures s.procs[p].pc != Acq(DropLk, l) && Do(s, a).procs[p].pc == Acq(DropLk, l) ==> l !in before
    ensures s.procs[p].pc == Acq(DropLk, l) ==> Do(s, a).procs[p].mine == s.procs[p].mine
  {
    hide Next;
    assert ProcOk(s, p);
    if a == Run(p) {
      AcquiringOwn(s, p, l, before);
    } else {
      Untouched(s, a, p);
    }
  }

  /** An action of a run, with what the invariant gives. */
  lemma StepOf(n: nat, m: nat, trace: seq<State>, acts: seq<Action>, i: nat)
    requires IsRun(trace, acts) && trace[0] == Init(n, m) && i < |acts|
    ensures Inv(trace[i]) && Enabled(trace[i], acts[i]) && trace[i + 1] == Do(trace[i], acts[i])
  {
    hide Inv, Enabled, Do;
    RunInv(n, m, trace, acts, i);
  }

  lemma CallBegins(s: State, p: nat, pc: Pc)
    requires Inv(s) && Enabled(s, Call(p, pc))
    ensures pc.Rel? ==> pc.l in s.procs[p].mine && Releasing(Do(s, Call(p, pc)), p, pc.l, s.procs[p].mine)
    ensures pc.Acq? ==> Acquiring(Do(s, Call(p, pc)), p, pc.l, s.procs[p].mine)
    ensures Do(s, Call(p, pc)).procs[p].mine == s.procs[p].mine
  {}

  lemma {:induction false} InRelease(n: nat, m: nat, trace: seq<State>, acts: seq<Action>, p: nat, l: nat, i: nat, j: nat, x: nat)
    requires IsRun(trace, acts) && trace[0] == Init(n, m) && During(trace, acts, p, Rel(EnterLk, l, 0), i, j) && i < x < j
    ensures l in trace[i].procs[p].mine && Releasing(trace[x], p, l, trace[i].procs[p].mine)
  {
    hide Inv, Enabled, Do, IsRun;
    StepOf(n, m, trace, acts, x - 1);
    if x == i + 1 {
      CallBegins(trace[i], p, Rel(EnterLk, l, 0));
    } else {
      InRelease(n, m, trace, acts, p, l, i, j, x - 1);
      ReleasingStep(trace[x - 1], acts[x - 1], p, l, trace[i].procs[p].mine);
    }
  }

  lemma {:induction false} InAcquire(n: nat, m: nat, trace: seq<State>, acts: seq<Action>, p: nat, l: nat, i: nat, j: nat, x: nat)
    requires IsRun(trace, acts) && trace[0] == Init(n, m) && During(trace, acts, p, Acq(TakeLk, l), i, j) && i < x < j
    ensures Acquiring(trace[x], p, l, trace[i].procs[p].mine)
  {
    hide Inv, Enabled, Do, IsRun;
    StepOf(n, m, trace, acts, x - 1);
    if x == i + 1 {
      CallBegins(trace[i], p, Acq(TakeLk, l));
    } else {
      InAcquire(n, m, trace, acts, p, l, i, j, x - 1);
      AcquiringStep(trace[x - 1], acts[x - 1], p, l, trace[i].procs[p].mine);
    }
  }

  /** A set that changes once. */
  lemma {:induction false} Switch(trace: seq<State>, p: nat, i: nat, j: nat, before: set<nat>, after: set<nat>) returns (k: nat)
    requires i <= j < |trace| && before != after && forall x :: i <= x <= j ==> p < |trace[x].procs|
    requires trace[i].procs[p].mine == before && trace[j].procs[p].mine == after
    requires forall x :: i <= x < j ==> Turns(trace[x], trace[x + 1], p, before, after)
    ensures i <= k < j && Switches(trace, p, i, k, j, before, after)
    decreases j
  {
    assert Turns(trace[j - 1], trace[j], p, before, after);
    if trace[j - 1].procs[p].mine == before {
      k := j - 1;
      StayedBefore(trace, p, i, k, before, after);
    } else {
      k := Switch(trace, p, i, j - 1, before, after);
    }
  }

  ghost predicate Turns(s: State, t: State, p: nat, before: set<nat>, after: set<nat>)
    requires p < |s.procs| && p < |t.procs|
  {
    (s.procs[p].mine == before && (t.procs[p].mine == before || t.procs[p].mine == after)) || (s.procs[p].mine == after == t.procs[p].mine)
  }

  lemma {:induction false} StayedBefore(trace: seq<State>, p: nat, i: nat, k: nat, before: set<nat>, after: set<nat>)
    requires i <= k < |trace| && before != after && forall x :: i <= x <= k ==> p < |trace[x].procs|
    requires trace[k].procs[p].mine == before && forall x :: i <= x < k ==> Turns(trace[x], trace[x + 1], p, before, after)
    ensures forall x :: i <= x <= k ==> trace[x].procs[p].mine == before
    decreases k
  {
    if i < k {
      assert Turns(trace[k - 1], trace[k], p, before, after);
      StayedBefore(trace, p, i, k - 1, before, after);
    }
  }

  /** releasesleep as a whole: when p comes back, the lock is free and so is its spinlock.  p gave it up once, at
      step k of its own, and the lock stayed free from there to the end of the call; the other locks of p stay. */
  lemma ReleaseCall(n: nat, m: nat, trace: seq<State>, acts: seq<Action>, p: nat, l: nat, i: nat, j: nat) returns (k: nat)
    requires IsRun(trace, acts) && trace[0] == Init(n, m) && During(trace, acts, p, Rel(EnterLk, l, 0), i, j) && trace[j].procs[p].pc == Idle
    ensures var mine := trace[i].procs[p].mine;
            && l in mine && Released(trace[j], p, l, mine)
            && i < k < j && acts[k] == Run(p) && Switches(trace, p, i, k, j, mine, mine - {l})
            && forall x :: k < x <= j ==> l < |trace[x].locks| && !trace[x].locks[l].locked
  {
    hide Inv, Enabled, Do, IsRun;
    var mine := trace[i].procs[p].mine;
    ReleaseEnd(n, m, trace, acts, p, l, i, j);
    forall x | i <= x < j ensures Turns(trace[x], trace[x + 1], p, mine, mine - {l}) {
      ReleaseTurns(n, m, trace, acts, p, l, i, j, x);
    }
    k := Switch(trace, p, i, j, mine, mine - {l});
    ReleaseTurns(n, m, trace, acts, p, l, i, j, k);
    forall x | k < x <= j ensures l < |trace[x].locks| && !trace[x].locks[l].locked {
      if x < j {
        ReleaseFree(n, m, trace, acts, p, l, i, j, x);
      }
    }
  }

  lemma ReleaseEnd(n: nat, m: nat, trace: seq<State>, acts: seq<Action>, p: nat, l: nat, i: nat, j: nat)
    requires IsRun(trace, acts) && trace[0] == Init(n, m) && During(trace, acts, p, Rel(EnterLk, l, 0), i, j) && trace[j].procs[p].pc == Idle
    ensures i + 1 < j && l in trace[i].procs[p].mine && Released(trace[j], p, l, trace[i].procs[p].mine)
  {
    hide Inv, Enabled, Do, IsRun;
    StepOf(n, m, trace, acts, i);
    CallBegins(trace[i], p, Rel(EnterLk, l, 0));
    StepOf(n, m, trace, acts, j - 1);
    InRelease(n, m, trace, acts, p, l, i, j, j - 1);
    ReleasingStep(trace[j - 1], acts[j - 1], p, l, trace[i].procs[p].mine);
  }

  lemma ReleaseTurns(n: nat, m: nat, trace: seq<State>, acts: seq<Action>, p: nat, l: nat, i: nat, j: nat, x: nat)
    requires IsRun(trace, acts) && trace[0] == Init(n, m) && During(trace, acts, p, Rel(EnterLk, l, 0), i, j) && i <= x < j
    requires trace[j].procs[p].pc == Idle
    ensures Turns(trace[x], trace[x + 1], p, trace[i].procs[p].mine, trace[i].procs[p].mine - {l})
    ensures trace[x + 1].procs[p].mine != trace[x].procs[p].mine ==> i < x && acts[x] == Run(p)
  {
    hide Inv, Enabled, Do, IsRun;
    StepOf(n, m, trace, acts, x);
    if x == i {
      CallBegins(trace[i], p, Rel(EnterLk, l, 0));
    } else {
      InRelease(n, m, trace, acts, p, l, i, j, x);
      ReleasingStep(trace[x], acts[x], p, l, trace[i].procs[p].mine);
    }
  }

  lemma ReleaseFree(n: nat, m: nat, trace: seq<State>, acts: seq<Action>, p: nat, l: nat, i: nat, j: nat, x: nat)
    requires IsRun(trace, acts) && trace[0] == Init(n, m) && During(trace, acts, p, Rel(EnterLk, l, 0), i, j) && i < x < j
    requires trace[x].procs[p].mine != trace[i].procs[p].mine
    ensures l < |trace[x].locks| && !trace[x].locks[l].locked
  {
    RunInv(n, m, trace, acts, x);
    InRelease(n, m, trace, acts, p, l, i, j, x);
    assert ProcOk(trace[x], p);
  }

  /** acquiresleep as a whole: when p comes back, the lock is taken in its name and the spinlock is free.  p took it once,
      at the only one of its tests that found the lock free; it did not hold it before, and its other locks stay. */
  lemma AcquireCall(n: nat, m: nat, trace: seq<State>, acts: seq<Action>, p: nat, l: nat, i: nat, j: nat) returns (k: nat)
    requires IsRun(trace, acts) && trace[0] == Init(n, m) && During(trace, acts, p, Acq(TakeLk, l), i, j) && trace[j].procs[p].pc == Idle
    ensures var mine := trace[i].procs[p].mine;
            && l !in mine && Acquired(trace[j], p, l, mine)
            && i < k < j && Switches(trace, p, i, k, j, mine, mine + {l})
            && forall x :: i < x < j ==> (acts[x] == Run(p) && TakesNow(trace[x], p, l) <==> x == k)
  {
    hide Inv, Enabled, Do, IsRun;
    var mine := trace[i].procs[p].mine;
    AcquireEnd(n, m, trace, acts, p, l, i, j);
    forall x | i <= x < j ensures Turns(trace[x], trace[x + 1], p, mine, mine + {l}) {
      AcquireTurns(n, m, trace, acts, p, l, i, j, x);
    }
    k := Switch(trace, p, i, j, mine, mine + {l});
    AcquireTurns(n, m, trace, acts, p, l, i, j, k);
    forall x | i < x < j ensures acts[x] == Run(p) && TakesNow(trace[x], p, l) <==> x == k {
      AcquireTurns(n, m, trace, acts, p, l, i, j, x);
      assert trace[x].procs[p].mine == if x <= k then mine else mine + {l};
      assert trace[x + 1].procs[p].mine == if x + 1 <= k then mine else mine + {l};
    }
  }

  lemma AcquireTurns(n: nat, m: nat, trace: seq<State>, acts: seq<Action>, p: nat, l: nat, i: nat, j: nat, x: nat)
    requires IsRun(trace, acts) && trace[0] == Init(n, m) && During(trace, acts, p, Acq(TakeLk, l), i, j) && i <= x < j
    requires trace[j].procs[p].pc == Idle && l !in trace[i].procs[p].mine
    ensures Turns(trace[x], trace[x + 1], p, trace[i].procs[p].mine, trace[i].procs[p].mine + {l})
    ensures trace[x + 1].procs[p].mine != trace[x].procs[p].mine <==> i < x && acts[x] == Run(p) && TakesNow(trace[x], p, l)
  {
    hide Inv, Enabled, Do, IsRun;
    StepOf(n, m, trace, acts, x);
    if x == i {
      CallBegins(trace[i], p, Acq(TakeLk, l));
    } else {
      InAcquire(n, m, trace, acts, p, l, i, j, x);
      AcquiringStep(trace[x], acts[x], p, l, trace[i].procs[p].mine);
    }
  }

  lemma AcquireEnd(n: nat, m: nat, trace: seq<State>, acts: seq<Action>, p: nat, l: nat, i: nat, j: nat)
    requires IsRun(trace, acts) && trace[0] == Init(n, m) && During(trace, acts, p, Acq(TakeLk, l), i, j) && trace[j].procs[p].pc == Idle
    ensures i + 1 < j && l !in trace[i].procs[p].mine && Acquired(trace[j], p, l, trace[i].procs[p].mine)
  {
    hide Inv, Enabled, Do, IsRun;
    StepOf(n, m, trace, acts, i);
    CallBegins(trace[i], p, Acq(TakeLk, l));
    StepOf(n, m, trace, acts, j - 1);
    InAcquire(n, m, trace, acts, p, l, i, j, j - 1);
    AcquiringStep(trace[j - 1], acts[j - 1], p, l, trace[i].procs[p].mine);
    NotHeld(n, m, trace, acts, p, l, i, j, j - 1);
  }

  /** A process that comes past the test did not hold the lock. */
  lemma {:induction false} NotHeld(n: nat, m: nat, trace: seq<State>, acts: seq<Action>, p: nat, l: nat, i: nat, j: nat, x: nat)
    requires IsRun(trace, acts) && trace[0] == Init(n, m) && During(trace, acts, p, Acq(TakeLk, l), i, j) && i < x < j
    requires trace[x].procs[p].pc == Acq(DropLk, l)
    ensures l !in trace[i].procs[p].mine
    decreases x
  {
    hide Inv, Enabled, Do, IsRun;
    StepOf(n, m, trace, acts, x - 1);
    if x == i + 1 {
      CallBegins(trace[i], p, Acq(TakeLk, l));
      CallAt(trace[i], p, Acq(TakeLk, l));
    } else {
      InAcquire(n, m, trace, acts, p, l, i, j, x - 1);
      AcquiringStep(trace[x - 1], acts[x - 1], p, l, trace[i].procs[p].mine);
      if trace[x - 1].procs[p].pc == Acq(DropLk, l) {
        NotHeld(n, m, trace, acts, p, l, i, j, x - 1);
      }
    }
  }

  lemma CallAt(s: State, p: nat, pc: Pc)
    requires Enabled(s, Call(p, pc))
    ensures Do(s, Call(p, pc)).procs[p].pc == pc
  {}
}
