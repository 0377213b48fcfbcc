/** The pipe of pipe.c.  Writers and readers take turns under pi->lock; each method below is what one of
    them does between taking the lock and sleeping or releasing it, so any interleaving is a sequence of
    calls. */
module Pipe {
  import opened Machine

  const PIPESIZE: nat := 512

  /** How a turn ends: finished, asleep until the other side moves, or an error return. */
  datatype Turn = Finished | Asleep | Broken

  /** Unsigned counters that differ by at most PIPESIZE. */
  lemma Counters(w: nat, r: nat)
    requires r <= w <= r + PIPESIZE
    ensures w % UINT == (r % UINT + PIPESIZE) % UINT <==> w == r + PIPESIZE
    ensures w % UINT == r % UINT <==> w == r
    ensures (w % UINT + 1) % UINT == (w + 1) % UINT
    ensures w % UINT % PIPESIZE == w % PIPESIZE
  {
    Slot(w);
    var a, b := w / UINT, r / UINT;
    assert w == a * UINT + w % UINT && r == b * UINT + r % UINT && (a == b || a == b + 1);
  }

  lemma Slot(w: nat)
    ensures w % UINT % PIPESIZE == w % PIPESIZE
  {
    var k := w / UINT * 0x80_0000;
    assert w == k * PIPESIZE + w % UINT;
    Laps(k, w % UINT);
  }

  lemma Laps(k: nat, x: nat)
    ensures (k * PIPESIZE + x) % PIPESIZE == x % PIPESIZE
  {}

  lemma OtherSlot(k: nat, w: nat)
    requires k < w < k + PIPESIZE
    ensures k % PIPESIZE != w % PIPESIZE
  {}

  /** A turn of some writer (with what it still has to write), of some reader, or the closing of an end. */
  datatype Op = WriteTurn(src: seq<byte>, killed: nat -> bool) | ReadTurn(n: nat, dead: bool) | CloseEnd(writable: bool)

  /** The pipe as a queue: every byte taken from a writer, in order, how many of them readers have got,
      and which ends are open. */
  datatype Fifo = Fifo(accepted: seq<byte>, delivered: nat, readopen: bool, writeopen: bool)

  /** The bytes a turn put in, the bytes it got, and how it ended. */
  datatype Answer = Answer(put: seq<byte>, got: seq<byte>, turn: Turn)

  predicate Ok(f: Fifo) {
    f.delivered <= |f.accepted| <= f.delivered + PIPESIZE
  }

  /** A writer puts in n bytes of src and ends its turn this way: it is done, the ring is full, or the
      reader is gone or the writer killed. */
  ghost predicate WriteEnds(f: Fifo, src: seq<byte>, killed: nat -> bool, n: nat, turn: Turn) {
    && n <= |src| && |f.accepted| + n <= f.delivered + PIPESIZE
    && (n > 0 ==> f.readopen) && (forall j :: 0 <= j < n ==> !killed(j))
    && match turn
       case Finished => n == |src|
       case Asleep => n < |src| && f.readopen && !killed(n) && |f.accepted| + n == f.delivered + PIPESIZE
       case Broken => n < |src| && (!f.readopen || killed(n))
  }

  /** A reader of up to n bytes gets k and ends its turn this way. */
  ghost predicate ReadEnds(f: Fifo, n: nat, dead: bool, k: nat, turn: Turn) {
    if f.delivered == |f.accepted| && f.writeopen then k == 0 && turn == (if dead then Broken else Asleep)
    else turn == Finished && k == if |f.accepted| - f.delivered < n then |f.accepted| - f.delivered else n
  }

  /** A turn takes the queue from f to g.  An end that is closed takes no more turns. */
  ghost predicate Takes(f: Fifo, op: Op, o: Answer, g: Fifo) {
    match op
    case WriteTurn(src, killed) =>
      if f.writeopen then o.got == [] && o.put <= src && WriteEnds(f, src, killed, |o.put|, o.turn) && g == f.(accepted := f.accepted + o.put)
      else o == Answer([], [], Broken) && g == f
    case ReadTurn(n, dead) =>
      if f.readopen then
        && o.put == [] && ReadEnds(f, n, dead, |o.got|, o.turn) && g == f.(delivered := f.delivered + |o.got|)
        && g.delivered <= |f.accepted| && o.got == f.accepted[f.delivered..g.delivered]
      else o == Answer([], [], Broken) && g == f
    case CloseEnd(writable) =>
      o == Answer([], [], Finished) && g == if writable then f.(writeopen := false) else f.(readopen := false)
  }

  /** A run of turns on a new pipe. */
  ghost predicate IsRun(states: seq<Fifo>, ops: seq<Op>, outs: seq<Answer>) {
    && |states| == |ops| + 1 && |outs| == |ops| && states[0] == Fifo([], 0, true, true)
    && forall i :: 0 <= i < |ops| ==> Takes(states[i], ops[i], outs[i], states[i + 1])
  }

  /** All bytes put in, and all bytes got, turn after turn. */
  function Puts(outs: seq<Answer>): seq<byte> {
    if outs == [] then [] else Puts(outs[..|outs| - 1]) + outs[|outs| - 1].put
  }

  function Gots(outs: seq<Answer>): seq<byte> {
    if outs == [] then [] else Gots(outs[..|outs| - 1]) + outs[|outs| - 1].got
  }

  /** What a turn does to the whole queue. */
  lemma Turned(f: Fifo, op: Op, o: Answer, g: Fifo)
    requires Takes(f, op, o, g) && Ok(f)
    ensures Ok(g) && g.accepted == f.accepted + o.put
    ensures f.accepted[..f.delivered] + o.got == g.accepted[..g.delivered]
    ensures g.writeopen <==> f.writeopen && op != CloseEnd(true)
    ensures g.readopen <==> f.readopen && op != CloseEnd(false)
  {
    assert g.accepted[..f.delivered] == f.accepted[..f.delivered];
    assert f.accepted[..f.delivered] + o.got == g.accepted[..g.delivered];
  }

  /** In every run, after n turns: the queue took exactly what the writers put in, turn after turn, the readers
      got exactly its first bytes, at most PIPESIZE bytes are in between, and an end is open until a turn closes it. */
  lemma {:induction false} FifoRun(states: seq<Fifo>, ops: seq<Op>, outs: seq<Answer>, n: nat)
    requires IsRun(states, ops, outs) && n <= |ops|
    ensures Ok(states[n]) && states[n].accepted == Puts(outs[..n])
    ensures Gots(outs[..n]) == Puts(outs[..n])[..states[n].delivered]
    ensures states[n].writeopen <==> CloseEnd(true) !in ops[..n]
    ensures states[n].readopen <==> CloseEnd(false) !in ops[..n]
  {
    hide Takes;
    if n > 0 {
      FifoRun(states, ops, outs, n - 1);
      assert outs[..n][..n - 1] == outs[..n - 1] && ops[..n] == ops[..n - 1] + [ops[n - 1]];
      assert Takes(states[n - 1], ops[n - 1], outs[n - 1], states[n]);
      Turned(states[n - 1], ops[n - 1], outs[n - 1], states[n]);
    }
  }

  /** Each turn of a writer puts in a prefix of what it has to write. */
  lemma PutsPrefix(states: seq<Fifo>, ops: seq<Op>, outs: seq<Answer>, i: nat)
    requires IsRun(states, ops, outs) && i < |ops|
    ensures outs[i].put <= if ops[i].WriteTurn? then ops[i].src else []
  {
    assert Takes(states[i], ops[i], outs[i], states[i + 1]);
  }

  /** What the turns of a run amount to: a reader gets all that is there, up to what it asks for, and sleeps only if nothing
      is there and a writer may still come; a writer stops short only if the ring is full, nobody reads, or it is killed. */
  lemma TurnsExact(states: seq<Fifo>, ops: seq<Op>, outs: seq<Answer>, i: nat)
    requires IsRun(states, ops, outs) && i < |ops|
    ensures var f, o := states[i], outs[i];
            && f.delivered <= |f.accepted|
            && var waiting := |f.accepted| - f.delivered;
            && (ops[i].ReadTurn? && f.readopen ==>
                  && |o.got| == (if waiting < ops[i].n then waiting else ops[i].n)
                  && (o.turn == Asleep <==> waiting == 0 && f.writeopen && !ops[i].dead))
            && (ops[i].WriteTurn? && f.writeopen && f.readopen && (forall k :: 0 <= k < |ops[i].src| ==> !ops[i].killed(k)) ==>
                  && |o.put| == (if PIPESIZE - waiting < |ops[i].src| then PIPESIZE - waiting else |ops[i].src|)
                  && (o.turn == Asleep <==> PIPESIZE - waiting < |ops[i].src|))
  {
    FifoRun(states, ops, outs, i);
    assert Takes(states[i], ops[i], outs[i], states[i + 1]);
  }

  class PipeBuf {
    const data: array<byte>
    var nread: nat
    var nwrite: nat
    var readopen: bool
    var writeopen: bool

    ghost var accepted: seq<byte>     // every byte taken from a writer, in order
    ghost var delivered: nat          // how many of them readers have got
    ghost var freed: nat              // how often the page was given to kfree

    ghost predicate Valid()
      reads this, data
    {
      && data.Length == PIPESIZE
      && delivered <= |accepted| <= delivered + PIPESIZE
      && nwrite == |accepted| % UINT && nread == delivered % UINT
      && (forall k {:trigger accepted[k]} :: delivered <= k < |accepted| ==> data[k % PIPESIZE] == accepted[k])
      && freed == if readopen || writeopen then 0 else 1
    }

    /** pipealloc */
    constructor ()
      ensures Valid() && fresh(data) && accepted == [] && delivered == 0 && readopen && writeopen
    {
      data := new byte[PIPESIZE](_ => 0);
      nread, nwrite, readopen, writeopen := 0, 0, true, true;
      accepted, delivered, freed := [], 0, 0;
    }

    /** One byte into the ring. */
    method Put(ch: byte)
      requires Valid() && |accepted| < delivered + PIPESIZE
      modifies this`nwrite, this`accepted, data
      ensures Valid() && accepted == old(accepted) + [ch]
    {
      ghost var w := |accepted|;
      Counters(w, delivered);
      forall k | delivered <= k < w ensures k % PIPESIZE != w % PIPESIZE {
        OtherSlot(k, w);
      }
      data[nwrite % PIPESIZE] := ch;
      nwrite := (nwrite + 1) % UINT;
      accepted := accepted + [ch];
    }

    /** One byte out of the ring. */
    method Get() returns (ch: byte)
      requires Valid() && delivered < |accepted|
      modifies this`nread, this`delivered
      ensures Valid() && ch == accepted[old(delivered)] && delivered == old(delivered) + 1
    {
      Counters(delivered, delivered);
      ch := data[nread % PIPESIZE];
      nread := (nread + 1) % UINT;
      delivered := delivered + 1;
    }

    /** pipewrite from byte i on, until the ring is full.  killed(k) is what killed(pr) says at byte k. */
    method Write(src: seq<byte>, i: nat, killed: nat -> bool) returns (next: nat, turn: Turn)
      requires Valid() && i <= |src|
      modifies this`nwrite, this`accepted, data
      ensures Valid() && i <= next <= |src| && accepted == old(accepted) + src[i..next]
      ensures next > i ==> readopen && forall j :: i <= j < next ==> !killed(j)
      ensures match turn
              case Finished => next == |src|
              case Asleep => next < |src| && readopen && !killed(next) && |accepted| == delivered + PIPESIZE
              case Broken => next < |src| && (!readopen || killed(next))
    {
      next, turn := i, Finished;
      while next < |src| && turn == Finished
        invariant Valid() && i <= next <= |src| && accepted == old(accepted) + src[i..next]
        invariant next > i ==> readopen && forall j :: i <= j < next ==> !killed(j)
        invariant turn == Asleep ==> next < |src| && readopen && !killed(next) && |accepted| == delivered + PIPESIZE
        invariant turn == Broken ==> next < |src| && (!readopen || killed(next))
        decreases |src| - next, turn == Finished
      {
        Counters(|accepted|, delivered);
        if !readopen || killed(next) {
          turn := Broken;
        } else if nwrite == (nread + PIPESIZE) % UINT {
          turn := Asleep;
        } else {
          Put(src[next]);
          next := next + 1;
        }
      }
    }

    /** piperead of up to n bytes. */
    method Read(n: nat, killed: bool) returns (bytes: seq<byte>, turn: Turn)
      requires Valid()
      modifies this`nread, this`delivered
      ensures Valid() && delivered == old(delivered) + |bytes| && bytes == accepted[old(delivered)..delivered]
      ensures turn == Finished ==> |bytes| == (if |accepted| - old(delivered) < n then |accepted| - old(delivered) else n)
      ensures turn != Finished <==> old(delivered) == |accepted| && writeopen
      ensures turn != Finished ==> turn == (if killed then Broken else Asleep)
    {
      Counters(|accepted|, delivered);
      bytes := [];
      if nread == nwrite && writeopen {
        turn := if killed then Broken else Asleep;
        return;
      }
      turn := Finished;
      while |bytes| < n && nread != nwrite
        invariant Valid() && |bytes| <= n && delivered == old(delivered) + |bytes| && bytes == accepted[old(delivered)..delivered]
        decreases n - |bytes|
      {
        Counters(|accepted|, delivered);
        var ch := Get();
        bytes := bytes + [ch];
      }
      Counters(|accepted|, delivered);
    }

    /** pipeclose; each end is closed once. */
    method Close(writable: bool)
      requires Valid() && (if writable then writeopen else readopen)
      modifies this`readopen, this`writeopen, this`freed
      ensures Valid() && writeopen == (old(writeopen) && !writable) && readopen == (old(readopen) && writable)
      ensures freed == old(freed) + if readopen || writeopen then 0 else 1
    {
      if writable {
        writeopen := false;
      } else {
        readopen := false;
      }
      if !readopen && !writeopen {
        freed := freed + 1;
      }
    }

    /** The queue this pipe is. */
    ghost function State(): Fifo
      reads this
    {
      Fifo(accepted, delivered, readopen, writeopen)
    }

    /** One turn of a writer, of a reader, or of the closing of an end. */
    method Turn(op: Op) returns (o: Answer)
      requires Valid()
      modifies this, data
      ensures Valid() && Takes(old(State()), op, o, State())
    {
      o := Answer([], [], Broken);
      match op
      case WriteTurn(src, killed) =>
        if writeopen {
          var next, turn := Write(src, 0, killed);
          assert src[0..next] == src[..next];
          o := Answer(src[..next], [], turn);
        }
      case ReadTurn(n, dead) =>
        if readopen {
          var got, turn := Read(n, dead);
          o := Answer([], got, turn);
        }
      case CloseEnd(writable) =>
        if if writable then writeopen else readopen {
          Close(writable);
        }
        o := Answer([], [], Finished);
    }

    /** Any interleaving of turns on a new pipe is a run of the queue; the page is freed once, when both
        ends are closed. */
    static method Run(ops: seq<Op>) returns (p: PipeBuf, outs: seq<Answer>, ghost states: seq<Fifo>)
      ensures p.Valid() && fresh(p) && fresh(p.data) && IsRun(states, ops, outs) && states[|ops|] == p.State()
      ensures p.freed == if CloseEnd(true) in ops && CloseEnd(false) in ops then 1 else 0
    {
      p := new PipeBuf();
      outs, states := [], [p.State()];
      for i := 0 to |ops|
        invariant p.Valid() && fresh(p) && fresh(p.data) && |outs| == i && |states| == i + 1
        invariant states[0] == Fifo([], 0, true, true) && states[i] == p.State()
        invariant forall j :: 0 <= j < i ==> Takes(states[j], ops[j], outs[j], states[j + 1])
      {
        var o := p.Turn(ops[i]);
        outs, states := outs + [o], states + [p.State()];
      }
      FifoRun(states, ops, outs, |ops|);
      assert ops[..|ops|] == ops;
    }
  }
}
