/** The multi-level feedback queue of proc.c on one CPU: mlfq_yield at every timer tick, and
    sched_mlfq.  The scan and the dispatch are one step. */
module Mlfq {
  import opened Machine
  import opened OptionType

  const NUMQ: nat := 4
  const TICKS: nat := 1    // the channel &ticks

  datatype RunState = Unused | Sleeping | Runnable | Running | Zombie

  datatype Proc = Proc(state: RunState, chan: nat, level: int, tickCtr: int, inTime: int, lastExec: nat)

  /** ticks stored in an int field. */
  function Signed(t: nat): (r: int)
    ensures t < UINT ==> -0x8000_0000 <= r < 0x8000_0000 && r % UINT == t
  {
    if t < 0x8000_0000 then t else t - UINT
  }

  /** ticks - last_exec in unsigned arithmetic. */
  function Elapsed(t: nat, last: nat): (e: nat)
    ensures e < UINT
  {
    (t - last) % UINT
  }

  /** What the scan of mlfq_yield does to a runnable process. */
  function Aged(p: Proc, t: nat): Proc {
    if p.level > 0 && Elapsed(t, p.lastExec) > 30
    then p.(lastExec := t, inTime := Signed(t), level := p.level - 1)
    else p
  }

  /** a comes before b in the order in which processes are dispatched. */
  predicate Before(a: Proc, b: Proc) {
    a.level < b.level || (a.level == b.level && a.inTime < b.inTime)
  }

  /** A process that only waits, n ticks with one scan each after tick t. */
  function Waited(p: Proc, t: nat, n: nat): Proc {
    if n == 0 then p else Aged(Waited(p, t, n - 1), TickAt(t, n))
  }

  /** The value of ticks n ticks after it was t. */
  function TickAt(t: nat, n: nat): (r: nat)
    ensures t < UINT ==> r < UINT
  {
    if n == 0 then t else (TickAt(t, n - 1) + 1) % UINT
  }

  /** The same in terms of the level and the wait since last_exec. */
  datatype Wait = Wait(level: int, e: nat)

  function Tick(w: Wait): Wait {
    var e := if w.e == UINT - 1 then 0 else w.e + 1;
    if w.level > 0 && e > 30 then Wait(w.level - 1, 0) else Wait(w.level, e)
  }

  function Ticks(w: Wait, n: nat): Wait {
    if n == 0 then w else Tick(Ticks(w, n - 1))
  }

  function WaitOf(p: Proc, t: nat): Wait {
    Wait(p.level, Elapsed(t, p.lastExec))
  }

  lemma ElapsedNext(t: nat, last: nat)
    requires t < UINT
    ensures Elapsed((t + 1) % UINT, last) == if Elapsed(t, last) == UINT - 1 then 0 else Elapsed(t, last) + 1
  {
    var x := t - last;
    assert (x + 1) % UINT == if x % UINT == UINT - 1 then 0 else x % UINT + 1;
    if t + 1 == UINT {
      assert x + 1 - UINT == 0 - last;
    }
  }

  lemma OneTick(p: Proc, t: nat)
    requires t < UINT
    ensures WaitOf(Aged(p, (t + 1) % UINT), (t + 1) % UINT) == Tick(WaitOf(p, t))
  {
    var now := (t + 1) % UINT;
    ElapsedNext(t, p.lastExec);
    assert Elapsed(now, now) == 0;
  }

  lemma {:induction false} WaitedTicks(p: Proc, t: nat, n: nat)
    requires t < UINT
    ensures WaitOf(Waited(p, t, n), TickAt(t, n)) == Ticks(WaitOf(p, t), n)
  {
    if n > 0 {
      WaitedTicks(p, t, n - 1);
      OneTick(Waited(p, t, n - 1), TickAt(t, n - 1));
    }
  }

  /** A process that has waited at most 30 ticks at its level takes exactly 31 * level - e more ticks
      to reach level 0. */
  lemma {:induction false} Settled(w: Wait, n: nat)
    requires w.level > 0 && w.e <= 30
    ensures var now := Ticks(w, n);
            if n < 31 * w.level - w.e then now.level > 0 && now.e <= 30 && 31 * now.level - now.e == 31 * w.level - w.e - n
            else now.level == 0
  {
    if n > 0 {
      Settled(w, n - 1);
    }
  }

  lemma {:induction false} TicksFirst(w: Wait, n: nat)
    requires n > 0
    ensures Ticks(w, n) == Ticks(Tick(w), n - 1)
  {
    if n > 1 {
      TicksFirst(w, n - 1);
    } else {
      assert Ticks(w, 0) == w;
    }
  }

  lemma {:induction false} StaysAtZero(w: Wait, n: nat)
    requires w.level == 0
    ensures Ticks(w, n).level == 0
  {
    if n > 0 {
      StaysAtZero(w, n - 1);
    }
  }

  /** The aging bound: a process that waits at level L is at level 0 after 31 * L ticks, unless its
      wait so far is exactly 2^32 - 1 ticks, when the first tick makes it look as if it had not waited. */
  lemma AgingBound(p: Proc, t: nat)
    requires 0 <= p.level && t < UINT
    ensures Waited(p, t, 31 * p.level).level == 0 <==> p.level == 0 || Elapsed(t, p.lastExec) != UINT - 1
  {
    var w, n := WaitOf(p, t), 31 * p.level;
    WaitedTicks(p, t, n);
    if w.level > 0 {
      if w.e <= 30 {
        Settled(w, n);
      } else {
        TicksFirst(w, n);
        if Tick(w).level > 0 {
          Settled(Tick(w), n - 1);
        } else {
          StaysAtZero(Tick(w), n - 1);
        }
      }
    }
  }

  /** What happens to processes: a timer interrupt, a wakeup, the running process sleeps or exits, a
      process is created or killed. */
  datatype Event = Timer | Awaken(chan: nat) | Sleep(chan: nat) | Exit | New(p: nat) | Kill(p: nat)

  /** The process table, the tick counter and the running process. */
  datatype Snap = Snap(procs: seq<Proc>, ticks: nat, current: Option<nat>)

  ghost predicate Ok(s: Snap) {
    && s.ticks < UINT
    && (forall p :: 0 <= p < |s.procs| ==> 0 <= s.procs[p].level <= NUMQ && s.procs[p].lastExec < UINT)
    && (forall p :: 0 <= p < |s.procs| ==> (s.procs[p].state == Running <==> s.current == Some(p)))
    && (s.current.Some? ==> s.current.value < |s.procs|)
  }

  /** The CPU is idle only while nobody is runnable. */
  ghost predicate Busy(s: Snap) {
    s.current == None ==> NoneRunnable(s.procs)
  }

  ghost predicate NoneRunnable(procs: seq<Proc>) {
    forall q :: 0 <= q < |procs| ==> procs[q].state != Runnable
  }

  /** No runnable process is at a better level than the running one. */
  ghost predicate TopRuns(s: Snap) {
    s.current.Some? && s.current.value < |s.procs| &&
    forall q :: 0 <= q < |s.procs| && s.procs[q].state == Runnable ==> s.procs[q].level >= s.procs[s.current.value].level
  }

  /** ticklim; lim4 is what ticklim[4] reads. */
  function Limit(lim4: int, level: int): int {
    if level == 0 then 1 else if level == 1 then 3 else if level == 2 then 9 else if level == 3 then 15 else lim4
  }

  /** The tick that is being accounted is the last of the slice. */
  predicate Used(lim4: int, p: Proc) {
    p.tickCtr + 1 >= Limit(lim4, p.level)
  }

  /** The running process after a yield: one level down if the slice is used up, and last in its queue. */
  function Requeued(lim4: int, p: Proc, t: nat): Proc {
    p.(state := Runnable, tickCtr := 0, inTime := Signed(t), level := if Used(lim4, p) && p.level < NUMQ then p.level + 1 else p.level)
  }

  function WokenOn(p: Proc, chan: nat, t: nat): Proc {
    if p.state == Sleeping && p.chan == chan then p.(state := Runnable, lastExec := t, tickCtr := 0, inTime := Signed(t)) else p
  }

  function AllWoken(procs: seq<Proc>, chan: nat, t: nat): (r: seq<Proc>)
    ensures |r| == |procs|
  {
    seq(|procs|, q requires 0 <= q < |procs| => WokenOn(procs[q], chan, t))
  }

  /** What the aging scan makes of the table. */
  function AllAged(procs: seq<Proc>, t: nat): (r: seq<Proc>)
    ensures |r| == |procs|
  {
    seq(|procs|, q requires 0 <= q < |procs| => if procs[q].state == Runnable then Aged(procs[q], t) else procs[q])
  }

  /** Somebody waits at a level better than the given one. */
  ghost predicate BetterWaits(procs: seq<Proc>, level: int) {
    exists q :: 0 <= q < |procs| && procs[q].state == Runnable && procs[q].level < level
  }

  /** mlfq_yield in process me. */
  ghost function Accounted(lim4: int, procs: seq<Proc>, t: nat, me: nat): Snap
    requires me < |procs|
  {
    var was, aged := procs[me], AllAged(procs, t);
    if Used(lim4, was) || BetterWaits(aged, was.level)
    then Snap(aged[me := Requeued(lim4, was, t)], t, None)
    else Snap(aged[me := was.(tickCtr := was.tickCtr + 1)], t, Some(me))
  }

  lemma AccountedIs(lim4: int, procs: seq<Proc>, t: nat, me: nat, now: seq<Proc>, yielded: bool)
    requires me < |procs| == |now| && procs[me].state != Runnable && 0 <= procs[me].level <= NUMQ
    requires forall q :: 0 <= q < |procs| && q != me ==> now[q] == if procs[q].state == Runnable then Aged(procs[q], t) else procs[q]
    requires yielded <==> Used(lim4, procs[me]) || exists q :: 0 <= q < |now| && q != me && now[q].state == Runnable && now[q].level < procs[me].level
    requires now[me] == if yielded then Requeued(lim4, procs[me], t) else procs[me].(tickCtr := procs[me].tickCtr + 1)
    ensures Snap(now, t, if yielded then None else Some(me)) == Accounted(lim4, procs, t, me)
  {
    var aged := AllAged(procs, t);
    assert forall q :: 0 <= q < |aged| && q != me ==> aged[q] == now[q];
    assert aged[me] == procs[me];
    assert now == aged[me := now[me]];
  }

  /** An event, before the dispatch that follows when the CPU is free. */
  ghost function Acts(lim4: int, s: Snap, e: Event): Snap
    requires Ok(s)
  {
    match e
    case Timer =>
      var t := (s.ticks + 1) % UINT;
      var woken := AllWoken(s.procs, TICKS, t);
      if s.current.Some? then Accounted(lim4, woken, t, s.current.value) else Snap(woken, t, None)
    case Awaken(chan) => s.(procs := AllWoken(s.procs, chan, s.ticks))
    case Sleep(chan) => Left(s, Sleeping, chan)
    case Exit => Left(s, Zombie, 0)
    case New(p) =>
      if p < |s.procs| && s.procs[p].state == Unused
      then s.(procs := s.procs[p := s.procs[p].(state := Runnable, level := 0, tickCtr := 0, lastExec := s.ticks)]) else s
    case Kill(p) => if p < |s.procs| then s.(procs := s.procs[p := WokenOn(s.procs[p], s.procs[p].chan, s.ticks)]) else s
  }

  /** The running process, if any, gives up the CPU. */
  ghost function Left(s: Snap, state: RunState, chan: nat): Snap
    requires Ok(s)
  {
    if s.current.None? then s
    else s.(procs := s.procs[s.current.value := s.procs[s.current.value].(state := state, chan := chan)], current := None)
  }

  /** Process s is runnable, none comes before it, and those that tie with it stand later in the table. */
  ghost predicate First(procs: seq<Proc>, s: nat) {
    s < |procs| && procs[s].state == Runnable &&
    forall q :: 0 <= q < |procs| && procs[q].state == Runnable ==>
      !Before(procs[q], procs[s]) && (q < s ==> Before(procs[s], procs[q]))
  }

  /** sched_mlfq when the CPU is free. */
  ghost predicate Dispatched(u: Snap, t: Snap) {
    if u.current.Some? then t == u
    else if t.current.None? then t == u && NoneRunnable(u.procs)
    else First(u.procs, t.current.value) && t == u.(procs := t.procs, current := t.current)
         && t.procs == u.procs[t.current.value := u.procs[t.current.value].(state := Running)]
  }

  /** One event takes s to t. */
  ghost predicate Moves(lim4: int, s: Snap, e: Event, t: Snap) {
    Ok(s) && Busy(s) && Dispatched(Acts(lim4, s, e), t)
  }

  /** A run: one snapshot before each event and one at the end. */
  ghost predicate IsRun(lim4: int, trace: seq<Snap>, events: seq<Event>) {
    |trace| == |events| + 1 && Ok(trace[0]) && Busy(trace[0]) &&
    forall i :: 0 <= i < |events| ==> Moves(lim4, trace[i], events[i], trace[i + 1])
  }

  lemma ActsOk(lim4: int, s: Snap, e: Event)
    requires Ok(s)
    ensures Ok(Acts(lim4, s, e)) && |Acts(lim4, s, e).procs| == |s.procs|
    ensures Acts(lim4, s, e).ticks == if e.Timer? then (s.ticks + 1) % UINT else s.ticks
  {}

  /** Every event keeps levels in 0..numq and leaves the CPU idle only if nobody is runnable. */
  lemma MovesOk(lim4: int, s: Snap, e: Event, t: Snap)
    requires Moves(lim4, s, e, t)
    ensures Ok(t) && Busy(t) && |t.procs| == |s.procs| && t.ticks == if e.Timer? then (s.ticks + 1) % UINT else s.ticks
  {
    ActsOk(lim4, s, e);
  }

  /** After a step from s to t no runnable process is at a better level than the running one; nobody runs only if
      nobody is runnable, and never if somebody ran before. */
  ghost predicate Top(s: Snap, t: Snap) {
    TopRuns(t) || (s.current.None? && t.current.None? && NoneRunnable(t.procs))
  }

  /** So it is after every timer interrupt, on a busy CPU or an idle one. */
  lemma TopAfterTimer(lim4: int, s: Snap, t: Snap)
    requires Moves(lim4, s, Timer, t)
    ensures Top(s, t)
  {
    ActsOk(lim4, s, Timer);
    var u := Acts(lim4, s, Timer);
    if u.current.None? {
      if s.current.Some? {
        assert u.procs[s.current.value].state == Runnable;
      }
    } else {
      var me := s.current.value;
      var aged := AllAged(AllWoken(s.procs, TICKS, u.ticks), u.ticks);
      forall q | 0 <= q < |t.procs| && t.procs[q].state == Runnable ensures t.procs[q].level >= t.procs[me].level {
        assert t.procs[q] == aged[q];
      }
    }
  }

  /** What every event but a timer tick makes of every process, apart from the dispatch: a new one starts at level 0,
      a woken one keeps its level and starts to wait now, the running one leaves the CPU, and the rest stays. */
  lemma EventAt(lim4: int, s: Snap, e: Event, t: Snap, q: nat)
    requires Moves(lim4, s, e, t) && !e.Timer? && q < |s.procs|
    ensures |t.procs| == |s.procs| && t.ticks == s.ticks
    ensures var was, now := s.procs[q], t.procs[q];
            var state := if now.state == Running && s.current != Some(q) then Runnable else now.state;
            now.(state := state) ==
              if e == New(q) && was.state == Unused then was.(state := Runnable, level := 0, tickCtr := 0, lastExec := s.ticks)
              else if was.state == Sleeping && (e == Kill(q) || e == Awaken(was.chan))
              then was.(state := Runnable, lastExec := s.ticks, tickCtr := 0, inTime := Signed(s.ticks))
              else if s.current == Some(q) && e.Sleep? then was.(state := Sleeping, chan := e.chan)
              else if s.current == Some(q) && e.Exit? then was.(state := Zombie, chan := 0)
              else was
  {
    ActsOk(lim4, s, e);
  }

  /** Process q is runnable and not dispatched. */
  predicate Waits(s: Snap, q: nat) {
    q < |s.procs| && s.procs[q].state == Runnable
  }

  /** A process that waits before and after an event is changed by one aging scan on a timer interrupt, and
      not otherwise. */
  lemma WaitingMove(lim4: int, s: Snap, e: Event, t: Snap, q: nat)
    requires Moves(lim4, s, e, t) && Waits(s, q) && Waits(t, q)
    ensures t.procs[q] == if e.Timer? then Aged(s.procs[q], t.ticks) else s.procs[q]
  {
    ActsOk(lim4, s, e);
    var u := Acts(lim4, s, e);
    assert t.procs[q] == u.procs[q];
  }

  function Timers(events: seq<Event>): (n: nat)
    ensures n <= |events|
  {
    if events == [] then 0 else Timers(events[..|events| - 1]) + if events[|events| - 1].Timer? then 1 else 0
  }

  lemma TimersNext(events: seq<Event>, i: nat)
    requires i < |events|
    ensures Timers(events[..i + 1]) == Timers(events[..i]) + if events[i].Timer? then 1 else 0
  {
    assert events[..i + 1][..i] == events[..i];
  }

  /** In every run, whatever happens to the others, a process that is never dispatched and stays runnable
      for i events is what the aging scan alone makes of it, once for each timer tick. */
  lemma {:induction false} WaitingRun(lim4: int, trace: seq<Snap>, events: seq<Event>, q: nat, i: nat)
    requires IsRun(lim4, trace, events) && i <= |events| && forall j :: 0 <= j <= i ==> Waits(trace[j], q)
    requires Waits(trace[0], q) && Waits(trace[i], q)
    ensures trace[i].ticks == TickAt(trace[0].ticks, Timers(events[..i]))
    ensures trace[i].procs[q] == Waited(trace[0].procs[q], trace[0].ticks, Timers(events[..i]))
  {
    hide Ok, Busy, Moves, Aged;
    if i > 0 {
      assert Waits(trace[i - 1], q);
      WaitingRun(lim4, trace, events, q, i - 1);
      assert Moves(lim4, trace[i - 1], events[i - 1], trace[i]);
      MovesOk(lim4, trace[i - 1], events[i - 1], trace[i]);
      WaitingMove(lim4, trace[i - 1], events[i - 1], trace[i], q);
      TimersNext(events, i - 1);
    }
  }

  /** The aging bound over runs: a process that waits at level L is at level 0 after 31 * L timer ticks of
      any run, if and only if its wait before was not exactly 2^32 - 1 ticks (or L is 0). */
  lemma RunAgingBound(lim4: int, trace: seq<Snap>, events: seq<Event>, q: nat)
    requires IsRun(lim4, trace, events) && forall j :: 0 <= j < |trace| ==> Waits(trace[j], q)
    requires Waits(trace[0], q) && Waits(trace[|events|], q) && Timers(events) == 31 * trace[0].procs[q].level
    ensures var p := trace[0].procs[q];
            trace[|events|].procs[q].level == 0 <==> p.level == 0 || Elapsed(trace[0].ticks, p.lastExec) != UINT - 1
  {
    WaitingRun(lim4, trace, events, q, |events|);
    assert events[..|events|] == events;
    AgingBound(trace[0].procs[q], trace[0].ticks);
  }

  /** Process me runs, and nobody else wants to. */
  ghost predicate RunsOnly(s: Snap, me: nat) {
    me < |s.procs| && s.current == Some(me) && forall q :: 0 <= q < |s.procs| && q != me ==> s.procs[q].state != Runnable
  }

  /** A process that runs on alone has its ticks counted; at the end of a slice it goes one level down, but not
      below the last level. */
  lemma AloneMove(lim4: int, s: Snap, e: Event, t: Snap, me: nat)
    requires Moves(lim4, s, e, t) && RunsOnly(s, me) && RunsOnly(t, me)
    ensures var was, now := s.procs[me], t.procs[me];
            var limit := if was.level == 0 then 1 else if was.level == 1 then 3 else if was.level == 2 then 9 else 15;
            if !e.Timer? then now.level == was.level && now.tickCtr == was.tickCtr
            else if was.level == NUMQ then now.level == NUMQ
            else if was.tickCtr + 1 >= limit then now.level == was.level + 1 && now.tickCtr == 0
            else now.level == was.level && now.tickCtr == was.tickCtr + 1
  {
    ActsOk(lim4, s, e);
    var u := Acts(lim4, s, e);
    if e.Timer? {
      var aged := AllAged(AllWoken(s.procs, TICKS, u.ticks), u.ticks);
      forall q | 0 <= q < |aged| && q != me ensures aged[q].state != Runnable {
        assert u.procs[q] == aged[q];
        assert t.procs[q].state != Runnable;
      }
      assert !BetterWaits(aged, s.procs[me].level);
    }
  }

  /** The law of the slices: a process that has just been created and runs alone is at level 1 after 1 tick, at level 2
      after 4, at level 3 after 13 and at level 4 after 28 ticks, and stays there. */
  lemma {:induction false} AloneRun(lim4: int, trace: seq<Snap>, events: seq<Event>, me: nat, i: nat)
    requires IsRun(lim4, trace, events) && i <= |events| && forall j :: 0 <= j <= i ==> RunsOnly(trace[j], me)
    requires RunsOnly(trace[0], me) && RunsOnly(trace[i], me) && trace[0].procs[me].level == 0 && trace[0].procs[me].tickCtr == 0
    ensures var n, p := Timers(events[..i]), trace[i].procs[me];
            && p.level == (if n < 1 then 0 else if n < 4 then 1 else if n < 13 then 2 else if n < 28 then 3 else 4)
            && (n < 28 ==> p.tickCtr == if n < 1 then 0 else if n < 4 then n - 1 else if n < 13 then n - 4 else n - 13)
  {
    hide Moves;
    if i > 0 {
      assert RunsOnly(trace[i - 1], me);
      AloneRun(lim4, trace, events, me, i - 1);
      assert Moves(lim4, trace[i - 1], events[i - 1], trace[i]);
      AloneMove(lim4, trace[i - 1], events[i - 1], trace[i], me);
      TimersNext(events, i - 1);
    }
  }

  /** Two processes, of which process 0 runs alone; n ticks after tick 0 it has not been aged. */
  ghost predicate AloneAt(s: Snap, n: nat) {
    && Ok(s) && s.ticks == n && s.current == Some(0) && |s.procs| == 2 && s.procs[1].state == Unused
    && s.procs[0].lastExec == 0 && (n > 0 ==> s.procs[0].level > 0) && (n == 0 ==> s.procs[0].tickCtr == 0)
  }

  /** Process 0 takes a timer tick alone: if it yields it is dispatched again. */
  lemma AloneTick(lim4: int, s: Snap, n: nat) returns (t: Snap)
    requires AloneAt(s, n) && n + 1 < UINT
    ensures Moves(lim4, s, Timer, t) && AloneAt(t, n + 1)
  {
    ActsOk(lim4, s, Timer);
    var u := Acts(lim4, s, Timer);
    assert !BetterWaits(AllAged(AllWoken(s.procs, TICKS, n + 1), n + 1), s.procs[0].level);
    t := if u.current.Some? then u else u.(procs := u.procs[0 := u.procs[0].(state := Running)], current := Some(0));
  }

  /** One more event of a run. */
  lemma Longer(lim4: int, trace: seq<Snap>, events: seq<Event>, e: Event, t: Snap)
    requires IsRun(lim4, trace, events) && Moves(lim4, trace[|events|], e, t)
    ensures IsRun(lim4, trace + [t], events + [e])
  {
    hide Moves, Ok, Busy;
    var trace', events' := trace + [t], events + [e];
    forall i | 0 <= i < |events'| ensures Moves(lim4, trace'[i], events'[i], trace'[i + 1]) {
      if i < |events| {
        assert Moves(lim4, trace[i], events[i], trace[i + 1]);
      }
    }
  }

  /** The idle machine after boot, with room for two processes. */
  function Booted(): Snap {
    Snap([Proc(Unused, 0, 0, 0, 0, 0), Proc(Unused, 0, 0, 0, 0, 0)], 0, None)
  }

  lemma {:induction false} RunsAlone(lim4: int, n: nat) returns (trace: seq<Snap>, events: seq<Event>)
    requires n < UINT
    ensures IsRun(lim4, trace, events) && trace[0] == Booted() && AloneAt(trace[|events|], n)
  {
    if n == 0 {
      var p := Booted().procs[0].(state := Running);
      trace, events := [Booted()], [];
      var t := Booted().(procs := Booted().procs[0 := p], current := Some(0));
      Longer(lim4, trace, events, New(0), t);
      trace, events := trace + [t], events + [New(0)];
    } else {
      trace, events := RunsAlone(lim4, n - 1);
      var t := AloneTick(lim4, trace[|events|], n - 1);
      Longer(lim4, trace, events, Timer, t);
      trace, events := trace + [t], events + [Timer];
    }
  }

  /** A new process comes first at the next tick: process 0 has to wait, 2^32 - 1 ticks after last_exec. */
  lemma Overtaken(lim4: int, s: Snap) returns (t: Snap, u: Snap)
    requires AloneAt(s, UINT - 2)
    ensures Moves(lim4, s, New(1), t) && Moves(lim4, t, Timer, u)
    ensures Waits(u, 0) && u.ticks == UINT - 1 && u.procs[0].level > 0 && u.procs[0].lastExec == 0
  {
    t := Acts(lim4, s, New(1));
    ActsOk(lim4, s, New(1));
    var v := Acts(lim4, t, Timer);
    ActsOk(lim4, t, Timer);
    var aged := AllAged(AllWoken(t.procs, TICKS, UINT - 1), UINT - 1);
    assert aged[1].state == Runnable && aged[1].level == 0;
    assert BetterWaits(aged, t.procs[0].level);
    u := v.(procs := v.procs[1 := v.procs[1].(state := Running)], current := Some(1));
  }

  /** The waits for which the aging bound fails are reached: after this run process 0 waits, and 31 ticks
      for each of its levels do not bring it to level 0. */
  lemma AgingBoundFails(lim4: int) returns (trace: seq<Snap>, events: seq<Event>)
    ensures IsRun(lim4, trace, events) && trace[0] == Booted() && Waits(trace[|events|], 0)
    ensures var s := trace[|events|];
            s.procs[0].level > 0 && Elapsed(s.ticks, s.procs[0].lastExec) == UINT - 1
            && Waited(s.procs[0], s.ticks, 31 * s.procs[0].level).level != 0
  {
    hide Ok, Busy, Moves;
    trace, events := RunsAlone(lim4, UINT - 2);
    var t, u := Overtaken(lim4, trace[|events|]);
    Longer(lim4, trace, events, New(1), t);
    trace, events := trace + [t], events + [New(1)];
    Longer(lim4, trace, events, Timer, u);
    trace, events := trace + [u], events + [Timer];
    AgingBound(u.procs[0], u.ticks);
  }

  class Scheduler {
    const limit4: int          // what ticklim[4] reads
    var procs: seq<Proc>
    var ticks: nat
    var current: Option<nat>

    ghost predicate Valid()
      reads this
    {
      Ok(Now())
    }

    function Now(): Snap
      reads this
    {
      Snap(procs, ticks, current)
    }

    constructor (n: nat, limit4: int)
      ensures Valid() && Busy(Now()) && Now() == Snap(seq(n, _ => Proc(Unused, 0, 0, 0, 0, 0)), 0, None) && this.limit4 == limit4
    {
      this.limit4 := limit4;
      procs := seq(n, _ => Proc(Unused, 0, 0, 0, 0, 0));
      ticks, current := 0, None;
    }

    /** The aging scan; ti counts runnable processes at a better level than process `me`. */
    method Scan(me: nat) returns (ti: nat)
      requires Valid() && current == Some(me)
      modifies this`procs
      ensures Valid() && |procs| == |old(procs)|
      ensures forall q :: 0 <= q < |procs| ==>
                var was := old(procs)[q];
                procs[q] == if was.state == Runnable && was.level > 0 && (ticks - was.lastExec) % UINT > 30
                            then was.(lastExec := ticks, inTime := Signed(ticks), level := was.level - 1) else was
      ensures ti > 0 <==> exists q :: 0 <= q < |procs| && procs[q].state == Runnable && procs[q].level < procs[me].level
    {
      ti := 0;
      var p := 0;
      while p < |procs|
        invariant p <= |procs| == |old(procs)| && Valid() && procs[me] == old(procs)[me]
        invariant forall q :: 0 <= q < p ==> procs[q] == if old(procs)[q].state == Runnable then Aged(old(procs)[q], ticks) else old(procs)[q]
        invariant forall q :: p <= q < |procs| ==> procs[q] == old(procs)[q]
        invariant ti > 0 <==> exists q :: 0 <= q < p && procs[q].state == Runnable && procs[q].level < procs[me].level
      {
        if procs[p].state == Runnable {
          if procs[p].level > 0 && Elapsed(ticks, procs[p].lastExec) > 30 {
            procs := procs[p := procs[p].(lastExec := ticks, inTime := Signed(ticks), level := procs[p].level - 1)];
          }
          if procs[p].level < procs[me].level {
            ti := ti + 1;
          }
        }
        p := p + 1;
      }
    }

    /** mlfq_yield: account the tick, age the waiting processes, and give up the CPU when the slice
        is used up or somebody better waits. */
    method MlfqYield() returns (yielded: bool)
      requires Valid() && current.Some?
      modifies this`procs, this`current
      ensures Valid() && |procs| == |old(procs)|
      ensures forall q :: 0 <= q < |procs| && Some(q) != old(current) ==>
                var was := old(procs)[q];
                procs[q] == if was.state == Runnable && was.level > 0 && (ticks - was.lastExec) % UINT > 30
                            then was.(lastExec := ticks, inTime := Signed(ticks), level := was.level - 1) else was
      ensures var me, was := old(current).value, old(procs)[old(current).value];
              var limit := if was.level == 0 then 1 else if was.level == 1 then 3 else if was.level == 2 then 9 else if was.level == 3 then 15 else limit4;
              var better := exists q :: 0 <= q < |procs| && q != me && procs[q].state == Runnable && procs[q].level < was.level;
              && (yielded <==> was.tickCtr + 1 >= limit || better)
              && (!yielded ==> procs[me] == was.(tickCtr := was.tickCtr + 1))
              && (yielded ==> procs[me] == was.(state := Runnable, tickCtr := 0, inTime := Signed(ticks), level := procs[me].level))
              && (yielded ==> procs[me].level == if was.tickCtr + 1 >= limit && was.level <= 3 then was.level + 1 else was.level)
      ensures current == if yielded then None else old(current)
    {
      var me := current.value;
      procs := procs[me := procs[me].(tickCtr := procs[me].tickCtr + 1)];
      var ti := Scan(me);
      yielded := GiveWay(me, ti);
    }

    /** The end of mlfq_yield: the running process goes on or gives up the CPU, one level down if its slice is used up. */
    method GiveWay(me: nat, ti: nat) returns (yielded: bool)
      requires Valid() && current == Some(me)
      modifies this`procs, this`current
      ensures Valid() && |procs| == |old(procs)| && procs == old(procs)[me := procs[me]]
      ensures var was, limit := old(procs)[me], Limit(limit4, old(procs)[me].level);
              && (yielded <==> was.tickCtr >= limit || ti > 0)
              && procs[me] == (if !yielded then was else was.(state := Runnable, tickCtr := 0, inTime := Signed(ticks), level := procs[me].level))
              && procs[me].level == if was.tickCtr >= limit && was.level < NUMQ then was.level + 1 else was.level
      ensures current == if yielded then None else old(current)
    {
      if procs[me].tickCtr >= Limit(limit4, procs[me].level) {
        procs := procs[me := procs[me].(tickCtr := 0, inTime := Signed(ticks))];
        if procs[me].level < NUMQ {
          procs := procs[me := procs[me].(level := procs[me].level + 1)];
        }
        Yield(me);
        yielded := true;
      } else if ti > 0 {
        procs := procs[me := procs[me].(tickCtr := 0, inTime := Signed(ticks))];
        Yield(me);
        yielded := true;
      } else {
        yielded := false;
      }
    }

    method Yield(me: nat)
      requires Valid() && current == Some(me)
      modifies this`procs, this`current
      ensures Valid() && current == None && |procs| == |old(procs)| && procs == old(procs)[me := old(procs)[me].(state := Runnable)]
    {
      procs := procs[me := procs[me].(state := Runnable)];
      current := None;
    }

    /** sched_mlfq: the runnable process that is first by level, then by in_time, then in the table. */
    method SchedMlfq() returns (selected: Option<nat>)
      requires Valid() && current == None
      modifies this`procs, this`current
      ensures Valid() && current == selected && |procs| == |old(procs)|
      ensures selected == None <==> forall q :: 0 <= q < |procs| ==> old(procs)[q].state != Runnable
      ensures selected == None ==> procs == old(procs)
      ensures selected.Some? ==>
                && selected.value < |procs| && old(procs)[selected.value].state == Runnable
                && procs == old(procs)[selected.value := old(procs)[selected.value].(state := Running)]
                && First(old(procs), selected.value)
      ensures selected.Some? ==> forall q :: 0 <= q < |procs| && old(procs)[q].state == Runnable ==>
                var p, best := old(procs)[q], old(procs)[selected.value];
                best.level < p.level || (best.level == p.level && (best.inTime < p.inTime || (best.inTime == p.inTime && selected.value <= q)))
    {
      selected := None;
      var p := 0;
      while p < |procs|
        invariant p <= |procs|
        invariant selected == None <==> forall q :: 0 <= q < p ==> procs[q].state != Runnable
        invariant selected.Some? ==> selected.value < p && procs[selected.value].state == Runnable
        invariant selected.Some? ==> forall q :: 0 <= q < p && procs[q].state == Runnable ==>
                    !Before(procs[q], procs[selected.value]) && (q < selected.value ==> Before(procs[selected.value], procs[q]))
      {
        if procs[p].state == Runnable && (selected.None? || Before(procs[p], procs[selected.value])) {
          selected := Some(p);
        }
        p := p + 1;
      }
      if selected.Some? {
        procs := procs[selected.value := procs[selected.value].(state := Running)];
        current := selected;
      }
    }

    /** wakeup: sleepers on a channel become runnable, as if they had just run. */
    method Wakeup(chan: nat)
      requires Valid()
      modifies this`procs
      ensures Valid() && |procs| == |old(procs)|
      ensures forall q :: 0 <= q < |procs| ==>
                var was := old(procs)[q];
                procs[q] == if was.state == Sleeping && was.chan == chan
                            then was.(state := Runnable, lastExec := ticks, tickCtr := 0, inTime := Signed(ticks)) else was
      ensures procs == AllWoken(old(procs), chan, ticks)
    {
      var p := 0;
      while p < |procs|
        invariant p <= |procs| == |old(procs)| && Valid()
        invariant forall q :: p <= q < |procs| ==> procs[q] == old(procs)[q]
        invariant forall q :: 0 <= q < p ==> procs[q] == WokenOn(old(procs)[q], chan, ticks)
      {
        if current != Some(p) && procs[p].state == Sleeping && procs[p].chan == chan {
          procs := procs[p := procs[p].(state := Runnable, lastExec := ticks, tickCtr := 0, inTime := Signed(ticks))];
        }
        p := p + 1;
      }
    }

    /** clockintr and, in a process, mlfq_yield. */
    method TimerIntr()
      requires Valid()
      modifies this`procs, this`ticks, this`current
      ensures Valid() && Now() == Acts(limit4, old(Now()), Timer)
    {
      ActsOk(limit4, Now(), Timer);
      hide Accounted, AllWoken, Signed;
      ticks := (ticks + 1) % UINT;
      Wakeup(TICKS);
      if current.Some? {
        Preempt();
      }
    }

    method Preempt()
      requires Valid() && current.Some?
      modifies this`procs, this`current
      ensures Valid() && Now() == Accounted(limit4, old(procs), ticks, old(current).value)
    {
      hide Accounted, Signed;
      var yielded := MlfqYield();
      AccountedIs(limit4, old(procs), ticks, old(current).value, procs, yielded);
    }

    /** The running process sleeps or exits. */
    method Leave(state: RunState, chan: nat)
      requires Valid() && current.Some? && (state == Sleeping || state == Zombie)
      modifies this`procs, this`current
      ensures Valid() && Now() == Left(old(Now()), state, chan)
    {
      procs := procs[current.value := procs[current.value].(state := state, chan := chan)];
      current := None;
    }

    /** allocproc, and the parent's fork that makes the new process runnable. */
    method Create(p: nat)
      requires Valid() && p < |procs| && procs[p].state == Unused
      modifies this`procs
      ensures Valid() && procs == old(procs)[p := old(procs)[p].(state := Runnable, level := 0, tickCtr := 0, lastExec := ticks)]
    {
      procs := procs[p := procs[p].(state := Runnable, level := 0, tickCtr := 0, lastExec := ticks)];
    }

    /** kill wakes a sleeper whatever it waits for. */
    method KillProc(p: nat)
      requires Valid() && p < |procs|
      modifies this`procs
      ensures Valid() && procs == old(procs)[p := WokenOn(old(procs)[p], old(procs)[p].chan, ticks)]
    {
      if procs[p].state == Sleeping {
        procs := procs[p := procs[p].(state := Runnable, lastExec := ticks, tickCtr := 0, inTime := Signed(ticks))];
      }
    }

    /** One event, and the dispatch that follows when the CPU is free. */
    method Step(e: Event)
      requires Valid() && Busy(Now())
      modifies this`procs, this`ticks, this`current
      ensures Valid() && Busy(Now()) && Moves(limit4, old(Now()), e, Now())
    {
      match e {
        case Timer => TimerIntr();
        case Awaken(chan) => Wakeup(chan);
        case Sleep(chan) => if current.Some? { Leave(Sleeping, chan); }
        case Exit => if current.Some? { Leave(Zombie, 0); }
        case New(p) => if p < |procs| && procs[p].state == Unused { Create(p); }
        case Kill(p) => if p < |procs| { KillProc(p); }
      }
      if current.None? {
        var selected := SchedMlfq();
      }
    }

    /** Any sequence of events.  The snapshots are a run of the step relation, so that what the lemmas
        above say of all runs holds of it. */
    method Run(events: seq<Event>) returns (ghost trace: seq<Snap>)
      requires Valid() && Busy(Now())
      modifies this`procs, this`ticks, this`current
      ensures Valid() && IsRun(limit4, trace, events) && trace[0] == old(Now()) && trace[|events|] == Now()
      ensures forall i :: 0 <= i < |events| && events[i].Timer? ==> Top(trace[i], trace[i + 1])
    {
      hide Ok, Busy, Moves, Top;
      trace := [Now()];
      for i := 0 to |events|
        invariant Valid() && Busy(Now()) && |trace| == i + 1 && trace[0] == old(Now()) && trace[i] == Now()
        invariant Ok(trace[0]) && Busy(trace[0])
        invariant forall j :: 0 <= j < i ==> Moves(limit4, trace[j], events[j], trace[j + 1])
        invariant forall j :: 0 <= j < i && events[j].Timer? ==> Top(trace[j], trace[j + 1])
      {
        ghost var s := Now();
        Step(events[i]);
        if events[i].Timer? {
          TopAfterTimer(limit4, s, Now());
        }
        trace := trace + [Now()];
      }
    }
  }
}
