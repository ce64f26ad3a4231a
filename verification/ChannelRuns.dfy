/** What a channel accepts, when it changes its flow control, and that what it accepted can be read. */
module ChannelRuns {
  import opened Channel

  /** Between messages: the demux thread waits and no reader is inside. */
  ghost predicate Still(s: State) {
    && !s.closed && s.demux == Waiting && s.readers == map[]
    && s.lock == Open && s.count == |s.list|
  }

  /** Reachable states between messages have the lock open and the count right. */
  lemma {:induction false} StillReached(l: Limits, es: seq<Event>)
    requires var s := Run(l, Opened, es); !s.closed && s.demux == Waiting && s.readers == map[]
    ensures Still(Run(l, Opened, es))
  {
    RunOk(l, es);
    assert Carriers(map[]) == {};
  }

  /** `s'` comes after `s` by some events. */
  ghost predicate Leads(l: Limits, s: State, s': State) {
    exists es :: s' == Run(l, s, es)
  }

  lemma {:induction false} LeadsOn(l: Limits, s0: State, s: State, e: Event)
    requires Leads(l, s0, s)
    ensures Leads(l, s0, Next(l, s, e))
  {
    var es :| s == Run(l, s0, es);
    var longer := es + [e];
    assert longer[..|longer| - 1] == es;
    assert Next(l, s, e) == Run(l, s0, longer);
  }

  /** Three events in a row. */
  lemma Thrice(l: Limits, s: State, a: Event, b: Event, c: Event)
    ensures Run(l, s, [a, b, c]) == Next(l, Next(l, Next(l, s, a), b), c)
  {
    assert [a, b, c][..2] == [a, b] && [a, b][..1] == [a] && [a][..0] == [];
    assert Run(l, s, []) == s;
    assert Run(l, s, [a]) == Next(l, s, a);
    assert Run(l, s, [a, b]) == Next(l, Next(l, s, a), b);
  }

  /** Which messages are accepted: a message that comes while nobody holds the lock goes to the end of the list
      exactly if the count is not above the maximum, and is lost otherwise. */
  lemma {:induction false} AcceptedExactly(l: Limits, es: seq<Event>, m: Message)
    requires var s := Run(l, Opened, es); !s.closed && s.demux == Waiting && s.lock == Open
    ensures var s := Run(l, Opened, es);
            var s' := Run(l, s, [Arrive(m), DemuxLock, Append]);
            && s'.accepted == s.accepted + (if s.count <= l.max then [m] else [])
            && s'.list == s.list + (if s.count <= l.max then [m] else [])
  {
    Thrice(l, Run(l, Opened, es), Arrive(m), DemuxLock, Append);
  }

  /** Commands are sent only for a reason: BLOCK on a count above the threshold, UNBLOCK on one below. At the
      threshold itself the flag stays as it is. */
  lemma {:induction false} CommandsExactly(l: Limits, es: seq<Event>, e: Event)
    ensures var s, s' := Run(l, Opened, es), Run(l, Opened, es + [e]);
            s'.sent != s.sent ==>
              || (s'.sent == s.sent + [Block] && s'.count > l.threshold)
              || (s'.sent == s.sent + [Unblock] && s'.count < l.threshold)
  {
    var longer := es + [e];
    assert longer[..|longer| - 1] == es;
    RunOk(l, es);
  }

  /** The steps of an arrival, one after the other. */
  function Arrived(l: Limits, s: State, m: Message): State {
    Next(l, Next(l, Next(l, Next(l, Next(l, s, Arrive(m)), DemuxLock), Append), Raise), DemuxFlow(true))
  }

  lemma ArrivalLeads(l: Limits, s0: State, s: State, m: Message)
    requires Leads(l, s0, s)
    ensures Leads(l, s0, Arrived(l, s, m))
  {
    LeadsOn(l, s0, s, Arrive(m));
    var s1 := Next(l, s, Arrive(m));
    LeadsOn(l, s0, s1, DemuxLock);
    var s2 := Next(l, s1, DemuxLock);
    LeadsOn(l, s0, s2, Append);
    var s3 := Next(l, s2, Append);
    LeadsOn(l, s0, s3, Raise);
    LeadsOn(l, s0, Next(l, s3, Raise), DemuxFlow(true));
  }

  /** A whole arrival. */
  lemma ArrivalTaken(l: Limits, s: State, m: Message)
    requires Still(s) && s.count <= l.max
    ensures var s' := Arrived(l, s, m);
            Still(s') && s'.list == s.list + [m] && s'.accepted == s.accepted + [m] && s'.popped == s.popped
  {
  }

  /** The bound on the count is attained: a channel nobody reads fills up to one above the maximum. */
  lemma {:induction false} BoundAttained(l: Limits, n: nat) returns (s: State)
    requires n <= l.max + 1
    ensures Leads(l, Opened, s) && Still(s) && s.count == n
  {
    s := Opened;
    assert s == Run(l, Opened, []);
    if n > 0 {
      var before := BoundAttained(l, n - 1);
      ArrivalTaken(l, before, 0);
      ArrivalLeads(l, Opened, before, 0);
      s := Arrived(l, before, 0);
    }
  }

  /** The steps of a read, up to the lock taken again and to the end. */
  function Taken(l: Limits, s: State): State {
    Next(l, Next(l, Next(l, Next(l, s, See(0)), PopLock(0)), Pop(0)), LowerLock(0))
  }

  function Done(l: Limits, s: State): State {
    Next(l, Next(l, s, Lower(0)), ReaderFlow(0, true))
  }

  lemma ReadLeads(l: Limits, s0: State, s: State)
    requires Leads(l, s0, s)
    ensures Leads(l, s0, Done(l, Taken(l, s)))
  {
    LeadsOn(l, s0, s, See(0));
    var s1 := Next(l, s, See(0));
    LeadsOn(l, s0, s1, PopLock(0));
    var s2 := Next(l, s1, PopLock(0));
    LeadsOn(l, s0, s2, Pop(0));
    LeadsOn(l, s0, Next(l, s2, Pop(0)), LowerLock(0));
    var s4 := Taken(l, s);
    LeadsOn(l, s0, s4, Lower(0));
    LeadsOn(l, s0, Next(l, s4, Lower(0)), ReaderFlow(0, true));
  }

  lemma TakenIs(l: Limits, s: State)
    requires Still(s) && s.list != []
    ensures Taken(l, s) == s.(list := s.list[1..], popped := s.popped + [s.list[0]], lock := ByReader(0),
                              readers := map[0 := Lowering(s.list[0])])
  {
    assert Next(l, s, See(0)).readers == map[0 := Seen];
  }

  lemma DoneIs(l: Limits, s: State, m: Message)
    requires !s.closed && s.lock == ByReader(0) && s.readers == map[0 := Lowering(m)]
    ensures var s' := Done(l, s);
            s' == s.(count := s.count - 1, lock := Open, readers := map[],
                     blocked := s'.blocked, sent := s'.sent, refused := s'.refused)
  {
    var s1 := Next(l, s, Lower(0));
    assert s1.readers == map[0 := Lowered] && s1.readers - {0} == map[];
  }

  /** A whole read: it takes the oldest message. */
  lemma ReadTakes(l: Limits, s0: State, s: State) returns (s': State)
    requires Leads(l, s0, s) && Still(s) && s.list != []
    ensures Leads(l, s0, s') && Still(s') && s'.list == s.list[1..] && s'.popped == s.popped + [s.list[0]]
    ensures s'.accepted == s.accepted && s'.scrapped == s.scrapped
  {
    TakenIs(l, s);
    DoneIs(l, Taken(l, s), s.list[0]);
    ReadLeads(l, s0, s);
    s' := Done(l, Taken(l, s));
  }

  lemma {:induction false} ListReadable(l: Limits, s0: State, s: State) returns (s': State)
    requires Leads(l, s0, s) && Still(s)
    ensures Leads(l, s0, s') && Still(s')
    ensures s'.list == [] && s'.popped == s.popped + s.list
    ensures s'.accepted == s.accepted && s'.scrapped == s.scrapped
    decreases |s.list|
  {
    s' := s;
    if s.list != [] {
      var s1 := ReadTakes(l, s0, s);
      s' := ListReadable(l, s0, s1);
      assert s.popped + s.list == s1.popped + s1.list;
    }
  }

  /** Whatever a channel has accepted can be read: from every state between messages reads alone bring out all
      that was accepted, in order, and leave the channel empty, to be closed with nothing discarded. */
  lemma {:induction false} AllReadable(l: Limits, es: seq<Event>) returns (s': State)
    requires var s := Run(l, Opened, es); !s.closed && s.demux == Waiting && s.readers == map[]
    ensures Leads(l, Run(l, Opened, es), s') && s'.closed
    ensures s'.accepted == Run(l, Opened, es).accepted == s'.popped && s'.scrapped == [] && s'.count == 0
  {
    var s := Run(l, Opened, es);
    StillReached(l, es);
    RunOk(l, es);
    assert s == Run(l, s, []);
    s' := ListReadable(l, s, s);
    LeadsOn(l, s, s', Release);
    s' := Next(l, s', Release);
    assert s.popped + s.list + [] == s.accepted;
  }
}
