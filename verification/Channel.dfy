/** The pending queue of one AoC channel (`aoc_channel_dev.c`): the demux thread appends messages, any
    number of readers pop them, and BLOCK/UNBLOCK commands tell the firmware to pause the channel. Every
    access to the list, the count and the flag is a step, under the pending lock where the source takes it. */
module Channel {

  type Message = nat
  type Thread = nat

  datatype Limits = Limits(max: nat, threshold: nat)

  datatype Command = Block | Unblock

  /** The demux thread, which holds the open-files lock throughout. */
  datatype Demux =
    | Waiting
    | Checked(m: Message)    // the count was not above the maximum
    | Locked(m: Message)
    | Appended               // on the list, count not yet raised
    | Raised                 // count raised, flow control not yet checked

  /** A reader that has seen a nonzero count. */
  datatype Reader =
    | Seen
    | Popping                // holds the lock
    | Holding(m: Message)    // popped, lock released
    | Lowering(m: Message)   // holds the lock again
    | Lowered                // count lowered, flow control not yet checked

  datatype Lock = Open | ByDemux | ByReader(t: Thread)

  /** `accepted` are the messages appended so far, `popped` those taken off, `scrapped` those discarded on
      release, `sent` the flow-control commands the service took; `refused` if it ever refused one. */
  datatype State = State(
    list: seq<Message>, count: int, blocked: bool, lock: Lock, demux: Demux,
    readers: map<Thread, Reader>, closed: bool,
    accepted: seq<Message>, popped: seq<Message>, scrapped: seq<Message>, sent: seq<Command>, refused: bool)

  datatype Event =
    | Arrive(m: Message)
    | DemuxLock
    | Append
    | Raise
    | DemuxFlow(taken: bool)
    | See(t: Thread)
    | PopLock(t: Thread)
    | Pop(t: Thread)
    | LowerLock(t: Thread)
    | Lower(t: Thread)
    | ReaderFlow(t: Thread, taken: bool)
    | Release

  /** A flow-control command: the flag follows it only if the service took it. */
  function Send(s: State, c: Command, taken: bool): State {
    if taken then s.(sent := s.sent + [c], blocked := c == Block) else s.(refused := true)
  }

  function DemuxStep(l: Limits, s: State, e: Event): State {
    match (e, s.demux)
    case (Arrive(m), Waiting) => if s.count > l.max then s else s.(demux := Checked(m))
    case (DemuxLock, Checked(m)) => if s.lock == Open then s.(lock := ByDemux, demux := Locked(m)) else s
    case (Append, Locked(m)) => s.(list := s.list + [m], accepted := s.accepted + [m], demux := Appended)
    case (Raise, Appended) => s.(count := s.count + 1, demux := Raised)
    case (DemuxFlow(taken), Raised) =>
      var s' := if s.count > l.threshold && !s.blocked then Send(s, Block, taken) else s;
      s'.(lock := Open, demux := Waiting)
    case _ => s
  }

  function ReaderStep(l: Limits, s: State, e: Event, t: Thread): State
    requires t in s.readers
  {
    match (e, s.readers[t])
    case (PopLock(_), Seen) =>
      if s.lock == Open then s.(lock := ByReader(t), readers := s.readers[t := Popping]) else s
    case (Pop(_), Popping) =>
      if s.list == [] then s.(lock := Open, readers := s.readers - {t})
      else s.(list := s.list[1..], popped := s.popped + [s.list[0]], lock := Open,
              readers := s.readers[t := Holding(s.list[0])])
    case (LowerLock(_), Holding(m)) =>
      if s.lock == Open then s.(lock := ByReader(t), readers := s.readers[t := Lowering(m)]) else s
    case (Lower(_), Lowering(_)) => s.(count := s.count - 1, readers := s.readers[t := Lowered])
    case (ReaderFlow(_, taken), Lowered) =>
      var s' := if s.count < l.threshold && s.blocked then Send(s, Unblock, taken) else s;
      s'.(lock := Open, readers := s.readers - {t})
    case _ => s
  }

  function Next(l: Limits, s: State, e: Event): State {
    if s.closed then s
    else
      match e
      case See(t) => if t !in s.readers && s.count != 0 then s.(readers := s.readers[t := Seen]) else s
      case Release =>
        if s.demux == Waiting && s.readers == map[] then
          s.(list := [], count := s.count - |s.list|, scrapped := s.list, closed := true)
        else s
      case PopLock(t) => if t in s.readers then ReaderStep(l, s, e, t) else s
      case Pop(t) => if t in s.readers then ReaderStep(l, s, e, t) else s
      case LowerLock(t) => if t in s.readers then ReaderStep(l, s, e, t) else s
      case Lower(t) => if t in s.readers then ReaderStep(l, s, e, t) else s
      case ReaderFlow(t, _) => if t in s.readers then ReaderStep(l, s, e, t) else s
      case _ => DemuxStep(l, s, e)
  }

  function Run(l: Limits, s: State, es: seq<Event>): State {
    if es == [] then s else Next(l, Run(l, s, es[..|es| - 1]), es[|es| - 1])
  }

  /** As `aocc_open` leaves it, the flag taken as false. */
  const Opened := State([], 0, false, Open, Waiting, map[], false, [], [], [], [], false)

  // ---------------------------------------------------------------------------------------------

  /** Readers between their pop and their decrement. */
  function Carriers(readers: map<Thread, Reader>): set<Thread> {
    set t | t in readers && (readers[t].Holding? || readers[t].Lowering?)
  }

  ghost predicate LockOk(s: State) {
    && (s.lock == ByDemux <==> s.demux.Locked? || s.demux.Appended? || s.demux.Raised?)
    && (s.lock.ByReader? ==> s.lock.t in s.readers)
    && forall t :: t in s.readers ==>
         (s.lock == ByReader(t) <==> s.readers[t].Popping? || s.readers[t].Lowering? || s.readers[t].Lowered?)
  }

  ghost predicate CountOk(l: Limits, s: State) {
    && s.count == |s.list| + |Carriers(s.readers)| - (if s.demux.Appended? then 1 else 0)
    && s.count <= l.max + 1
    && (s.demux.Appended? ==> s.list != [])
    && (s.demux.Checked? || s.demux.Locked? || s.demux.Appended? ==> s.count <= l.max)
  }

  ghost predicate Alternating(cs: seq<Command>) {
    forall i :: 0 <= i < |cs| ==> (cs[i] == Block <==> i % 2 == 0)
  }

  ghost predicate FlowOk(l: Limits, s: State) {
    && Alternating(s.sent)
    && (s.blocked <==> s.sent != [] && s.sent[|s.sent| - 1] == Block)
    && (!s.refused && !s.closed && !s.demux.Raised? && s.count > l.threshold ==> s.blocked)
    && (!s.refused && !s.closed && s.count < l.threshold && s.blocked ==> exists t :: LoweredBy(s, t))
  }

  ghost predicate LoweredBy(s: State, t: Thread) {
    t in s.readers && s.readers[t].Lowered? && s.lock == ByReader(t)
  }

  ghost predicate Inv(l: Limits, s: State) {
    && LockOk(s) && CountOk(l, s) && FlowOk(l, s)
    && s.popped + s.list + s.scrapped == s.accepted
    && (if s.closed then s.list == [] && s.readers == map[] && s.demux == Waiting else s.scrapped == [])
  }

  lemma CarriersMove(readers: map<Thread, Reader>, t: Thread, r: Reader)
    ensures Carriers(readers[t := r])
            == if r.Holding? || r.Lowering? then Carriers(readers) + {t} else Carriers(readers) - {t}
    ensures Carriers(readers - {t}) == Carriers(readers) - {t}
  {
  }

  /** The end of a critical section: the flag agrees with the count again. */
  lemma SendOk(l: Limits, s: State, c: Command, taken: bool)
    requires Alternating(s.sent) && (s.blocked <==> s.sent != [] && s.sent[|s.sent| - 1] == Block)
    requires c == Block <==> !s.blocked
    ensures var s' := Send(s, c, taken);
            && Alternating(s'.sent) && (s'.blocked <==> s'.sent != [] && s'.sent[|s'.sent| - 1] == Block)
            && (taken ==> s'.blocked == (c == Block)) && (s'.refused <==> s.refused || !taken)
  {
    if s.sent != [] {
      assert s.sent[|s.sent| - 1] == Block <==> (|s.sent| - 1) % 2 == 0;
    }
  }

  lemma DemuxFlowOk(l: Limits, s: State, taken: bool)
    requires Inv(l, s) && !s.closed && s.demux.Raised?
    ensures Inv(l, DemuxStep(l, s, DemuxFlow(taken)))
  {
    assert forall t :: !LoweredBy(s, t);
    if s.count > l.threshold && !s.blocked {
      SendOk(l, s, Block, taken);
    }
  }

  lemma DemuxOk(l: Limits, s: State, e: Event)
    requires Inv(l, s) && !s.closed
    ensures Inv(l, DemuxStep(l, s, e))
  {
    var s' := DemuxStep(l, s, e);
    if e.DemuxFlow? && s.demux.Raised? {
      DemuxFlowOk(l, s, e.taken);
    } else {
      assert forall t :: LoweredBy(s, t) && s'.lock == s.lock ==> LoweredBy(s', t);
      if s.demux.Locked? && e.Append? {
        assert s.popped + (s.list + [s.demux.m]) + [] == s.popped + s.list + [] + [s.demux.m];
      }
    }
  }

  lemma PopNothingOk(l: Limits, s: State, t: Thread)
    requires Inv(l, s) && !s.closed && t in s.readers && s.readers[t].Popping? && s.list == []
    ensures Inv(l, ReaderStep(l, s, Pop(t), t))
  {
    assert forall u :: !LoweredBy(s, u);
    CarriersMove(s.readers, t, Seen);
  }

  lemma PopOk(l: Limits, s: State, t: Thread)
    requires Inv(l, s) && !s.closed && t in s.readers && s.readers[t].Popping? && s.list != []
    ensures Inv(l, ReaderStep(l, s, Pop(t), t))
  {
    var s' := ReaderStep(l, s, Pop(t), t);
    CarriersMove(s.readers, t, Holding(s.list[0]));
    assert CountOk(l, s');
    assert LockOk(s');
    assert FlowOk(l, s') by {
      assert forall u :: !LoweredBy(s, u);
    }
    assert s.popped + s.list + [] == s'.popped + s'.list + [];
  }

  lemma LowerOk(l: Limits, s: State, t: Thread)
    requires Inv(l, s) && !s.closed && t in s.readers && s.readers[t].Lowering?
    ensures Inv(l, ReaderStep(l, s, Lower(t), t))
  {
    CarriersMove(s.readers, t, Lowered);
    assert t in Carriers(s.readers);
    assert LoweredBy(ReaderStep(l, s, Lower(t), t), t);
  }

  lemma ReaderFlowOk(l: Limits, s: State, t: Thread, taken: bool)
    requires Inv(l, s) && !s.closed && t in s.readers && s.readers[t].Lowered?
    ensures Inv(l, ReaderStep(l, s, ReaderFlow(t, taken), t))
  {
    CarriersMove(s.readers, t, Seen);
    if s.count < l.threshold && s.blocked {
      SendOk(l, s, Unblock, taken);
    }
  }

  /** A reader that takes the lock carries a message exactly if it did before. */
  lemma TakeLockOk(l: Limits, s: State, t: Thread, r: Reader)
    requires Inv(l, s) && !s.closed && t in s.readers && s.lock == Open
    requires (s.readers[t].Seen? && r.Popping?) || (s.readers[t].Holding? && r.Lowering?)
    ensures Inv(l, s.(lock := ByReader(t), readers := s.readers[t := r]))
  {
    var s' := s.(lock := ByReader(t), readers := s.readers[t := r]);
    CarriersMove(s.readers, t, r);
    assert Carriers(s'.readers) == Carriers(s.readers);
    assert LockOk(s');
    assert FlowOk(l, s') by {
      assert forall u :: !LoweredBy(s, u);
    }
  }

  lemma SeeOk(l: Limits, s: State, t: Thread)
    requires Inv(l, s) && !s.closed
    ensures Inv(l, Next(l, s, See(t)))
  {
    var s' := Next(l, s, See(t));
    if s' != s {
      CarriersMove(s.readers, t, Seen);
      assert Carriers(s.readers) - {t} == Carriers(s.readers);
      assert forall u :: LoweredBy(s, u) ==> LoweredBy(s', u);
    }
  }

  lemma ReleaseOk(l: Limits, s: State)
    requires Inv(l, s) && !s.closed
    ensures Inv(l, Next(l, s, Release))
  {
  }

  lemma StepOk(l: Limits, s: State, e: Event)
    requires Inv(l, s)
    ensures Inv(l, Next(l, s, e))
  {
    if !s.closed {
      match e
      case See(t) => SeeOk(l, s, t);
      case Release => ReleaseOk(l, s);
      case PopLock(t) =>
        if t in s.readers && s.readers[t].Seen? && s.lock == Open {
          TakeLockOk(l, s, t, Popping);
        }
      case LowerLock(t) =>
        if t in s.readers && s.readers[t].Holding? && s.lock == Open {
          TakeLockOk(l, s, t, Lowering(s.readers[t].m));
        }
      case Pop(t) =>
        if t in s.readers && s.readers[t].Popping? {
          if s.list == [] { PopNothingOk(l, s, t); } else { PopOk(l, s, t); }
        }
      case Lower(t) => if t in s.readers && s.readers[t].Lowering? { LowerOk(l, s, t); }
      case ReaderFlow(t, taken) => if t in s.readers && s.readers[t].Lowered? { ReaderFlowOk(l, s, t, taken); }
      case _ => DemuxOk(l, s, e);
    }
  }

  lemma {:induction false} RunOk(l: Limits, es: seq<Event>)
    ensures Inv(l, Run(l, Opened, es))
  {
    if es == [] {
      assert Carriers(map[]) == {};
    } else {
      RunOk(l, es[..|es| - 1]);
      StepOk(l, Run(l, Opened, es[..|es| - 1]), es[|es| - 1]);
    }
  }

  /** In every run the messages popped, then those on the list, then those scrapped at release are the
      accepted ones in order; the count is the list length plus the readers between their pop and their
      decrement, less the message just appended; and it is never above the maximum plus one. */
  lemma {:induction false} QueueConserved(l: Limits, es: seq<Event>)
    ensures var s := Run(l, Opened, es);
            && s.popped + s.list + s.scrapped == s.accepted
            && s.count == |s.list| + |Carriers(s.readers)| - (if s.demux.Appended? then 1 else 0)
            && 0 <= s.count <= l.max + 1
            && (s.closed ==> s.count == 0 && s.list == [])
  {
    RunOk(l, es);
    assert Carriers(map[]) == {};
  }

  /** In every run the flag is the last command the service took, and the commands alternate, starting
      with BLOCK. While none has been refused, at every point outside the pending lock a count above the
      threshold means blocked and a count below it means not blocked. */
  lemma {:induction false} FlowControl(l: Limits, es: seq<Event>)
    ensures var s := Run(l, Opened, es);
            && Alternating(s.sent)
            && (s.blocked <==> s.sent != [] && s.sent[|s.sent| - 1] == Block)
            && (s.lock == Open && !s.refused && !s.closed ==>
                  && (s.count > l.threshold ==> s.blocked)
                  && (s.count < l.threshold ==> !s.blocked))
  {
    RunOk(l, es);
    var s := Run(l, Opened, es);
    if s.lock == Open {
      assert forall t :: !LoweredBy(s, t);
    }
  }

  /** The threshold must be at least one: with it an emptied channel is unblocked, and with zero a
      channel once blocked never gets an UNBLOCK. */
  lemma {:induction false} EmptiedIsUnblocked(l: Limits, es: seq<Event>)
    ensures var s := Run(l, Opened, es);
            && (1 <= l.threshold && s.lock == Open && !s.refused && !s.closed && s.count == 0 ==> !s.blocked)
            && (l.threshold == 0 ==> Unblock !in s.sent)
  {
    FlowControl(l, es);
    if l.threshold == 0 {
      NeverUnblocked(l, es);
    }
  }

  lemma {:induction false} NeverUnblocked(l: Limits, es: seq<Event>)
    requires l.threshold == 0
    ensures Unblock !in Run(l, Opened, es).sent
  {
    if es != [] {
      var before, e := es[..|es| - 1], es[|es| - 1];
      NeverUnblocked(l, before);
      QueueConserved(l, before);
    }
  }

  /** One more event at the end of a run. */
  lemma Extend(l: Limits, s: State, es: seq<Event>, e: Event) returns (s': State, longer: seq<Event>)
    requires s == Run(l, Opened, es)
    ensures s' == Next(l, s, e) == Run(l, Opened, longer)
  {
    longer := es + [e];
    assert longer[..|longer| - 1] == es;
    s' := Next(l, s, e);
  }

  /** A message arrives and its BLOCK is taken. */
  lemma BlockingArrival(l: Limits) returns (s: State, es: seq<Event>)
    requires l.threshold == 0
    ensures s == Run(l, Opened, es)
    ensures s == State([0], 1, true, Open, Waiting, map[], false, [0], [], [], [Block], false)
  {
    s, es := Extend(l, Opened, [], Arrive(0));
    s, es := Extend(l, s, es, DemuxLock);
    s, es := Extend(l, s, es, Append);
    assert s == State([0], 0, false, ByDemux, Appended, map[], false, [0], [], [], [], false);
    s, es := Extend(l, s, es, Raise);
    s, es := Extend(l, s, es, DemuxFlow(true));
  }

  /** A reader takes it off the list and holds the lock again. */
  lemma EmptyingRead(l: Limits) returns (s: State, es: seq<Event>)
    requires l.threshold == 0
    ensures s == Run(l, Opened, es)
    ensures s == State([], 1, true, ByReader(0), Waiting, map[0 := Lowering(0)], false, [0], [0], [], [Block], false)
  {
    s, es := BlockingArrival(l);
    s, es := Extend(l, s, es, See(0));
    assert s.readers == map[0 := Seen];
    s, es := Extend(l, s, es, PopLock(0));
    assert s.readers == map[0 := Popping];
    s, es := Extend(l, s, es, Pop(0));
    assert s.readers == map[0 := Holding(0)];
    s, es := Extend(l, s, es, LowerLock(0));
  }

  /** The read ends: with a threshold of zero the empty channel stays blocked. */
  lemma {:induction false} ZeroThresholdSticks(l: Limits) returns (s: State, es: seq<Event>)
    requires l.threshold == 0
    ensures s == Run(l, Opened, es)
    ensures s.blocked && s.count == 0 && s.list == [] && s.lock == Open && !s.refused && !s.closed
  {
    s, es := EmptyingRead(l);
    s, es := Extend(l, s, es, Lower(0));
    assert 0 in s.readers && s.readers[0] == Lowered;
    s, es := Extend(l, s, es, ReaderFlow(0, true));
  }
}
