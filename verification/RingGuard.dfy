/** Ring writes that keep to the room the ring has: what a writer can check before each write so that no race
    with the reader can lose, repeat or reorder a byte. */
module RingGuard {
  import opened Words
  import opened RingRace

  /** `aoc_ring_bytes_available_to_write`. */
  function Room(s: State): int {
    Size(s) - Min(Lead(s), Size(s))
  }

  /** Every write of the run was started within the room the ring then had. */
  ghost predicate Guarded(s0: State, es: seq<Event>)
    requires 0 < Size(s0) < WORD
  {
    es != [] ==>
      var before, e := es[..|es| - 1], es[|es| - 1];
      Guarded(s0, before) && (e.StartWrite? ==> e.n <= Room(Run(s0, before)))
  }

  /** What the finished reads returned, joined. */
  function Flat(rs: seq<Record>): seq<int> {
    if rs == [] then [] else Flat(rs[..|rs| - 1]) + rs[|rs| - 1].out
  }

  /** The read returned the bytes from its start on, and all that was unread and fits. */
  ghost predicate Whole(r: Record) {
    && |r.out| == Min(r.seen - r.start, r.capacity)
    && forall i :: 0 <= i < |r.out| ==> r.out[i] == r.start + i
  }

  /** No cell is filled again before the reader is done with it. */
  ghost predicate Ahead(s: State) {
    && Inv(s) && s.front <= s.consumed + Size(s) && !s.reader.CatchUp?
    && (s.writer.Filling? ==> s.writer.end <= s.consumed + Size(s))
  }

  ghost predicate Lossless(s: State) {
    && Flat(s.finished) == Positions(s.consumed)
    && forall r :: r in s.finished ==> Whole(r)
  }

  lemma RoomExact(s: State)
    requires Inv(s) && s.written <= s.consumed + Size(s)
    ensures Room(s) == s.consumed + Size(s) - s.written
  {
    DeltaExact(s.written, s.consumed);
  }

  lemma ReaderAhead(s: State)
    requires Ahead(s)
    ensures Ahead(ReaderStep(s)) && s.consumed <= ReaderStep(s).consumed
  {
    ReaderOk(s);
    DeltaExact(s.written, s.consumed);
  }

  /** Only a finished read moves the reader, and what it returns comes next in the stream. */
  lemma ReaderLossless(s: State)
    requires Ahead(s) && Lossless(s)
    ensures Lossless(ReaderStep(s))
  {
    if s.reader.Copy? && |s.reader.out| == s.reader.n {
      FinishLossless(s);
    } else {
      DeltaExact(s.written, s.consumed);
    }
  }

  lemma FinishLossless(s: State)
    requires Ahead(s) && Lossless(s) && s.reader.Copy? && |s.reader.out| == s.reader.n
    ensures Lossless(ReaderStep(s))
  {
    var Copy(capacity, seen, n, out, fronts) := s.reader;
    var r := Record(s.consumed, capacity, seen, out, fronts);
    var s' := ReaderStep(s);
    CountExact(s.consumed, capacity, seen, n, Size(s));
    assert Whole(r);
    assert s'.finished[..|s'.finished| - 1] == s.finished;
    assert Positions(s.consumed) + out == Positions(s.consumed + n);
  }

  lemma StepLossless(s: State, e: Event)
    requires Ahead(s) && Lossless(s) && (e.StartWrite? ==> e.n <= Room(s))
    ensures Ahead(Next(s, e)) && Lossless(Next(s, e))
  {
    StepOk(s, e);
    RoomExact(s);
    if e.StepReader? {
      ReaderAhead(s);
      ReaderLossless(s);
    }
  }

  lemma {:induction false} RunLossless(s0: State, es: seq<Event>)
    requires Initial(s0) && Guarded(s0, es)
    ensures Ahead(Run(s0, es)) && Lossless(Run(s0, es))
  {
    if es == [] {
      RunOk(s0, es);
    } else {
      RunLossless(s0, es[..|es| - 1]);
      StepLossless(Run(s0, es[..|es| - 1]), es[|es| - 1]);
    }
  }

  /** If every write keeps to the room reported when it starts, then under every interleaving each read is
      whole and takes all that was unread and fits, and the reads, joined, are the stream as far as the reader
      has got: nothing is lost, repeated or reordered. */
  lemma {:induction false} GuardedReads(s0: State, es: seq<Event>)
    requires Initial(s0) && Guarded(s0, es)
    ensures var s := Run(s0, es);
            && s.consumed <= s.written <= s.consumed + Size(s0)
            && (forall r :: r in s.finished ==> Whole(r))
            && Flat(s.finished) == Positions(s.consumed)
  {
    RunLossless(s0, es);
  }

  lemma ReaderLeavesRoom(s: State)
    requires Ahead(s)
    ensures Room(s) <= Room(ReaderStep(s))
  {
    ReaderAhead(s);
    RoomExact(s);
    RoomExact(ReaderStep(s));
  }

  /** The room a writer has seen stays: whatever the reader does, it only grows. */
  lemma {:induction false} RoomGrows(s0: State, es: seq<Event>, e: Event)
    requires Initial(s0) && Guarded(s0, es) && (e.StartRead? || e.StepReader?)
    ensures Room(Run(s0, es)) <= Room(Next(Run(s0, es), e))
  {
    RunLossless(s0, es);
    if e.StepReader? {
      ReaderLeavesRoom(Run(s0, es));
    }
  }

  // ---------------------------------------------------------------------------------------------
  // The room is the exact limit

  ghost predicate NoWrites(es: seq<Event>) {
    forall e :: e in es ==> !e.StartWrite?
  }

  lemma {:induction false} RunAppend(s0: State, es: seq<Event>, more: seq<Event>)
    requires 0 < Size(s0) < WORD
    ensures Run(s0, es + more) == Run(Run(s0, es), more)
    ensures Guarded(s0, es) && NoWrites(more) ==> Guarded(s0, es + more)
  {
    if more == [] {
      assert es + more == es;
    } else {
      RunAppend(s0, es, more[..|more| - 1]);
      assert (es + more)[..|es + more| - 1] == es + more[..|more| - 1];
    }
  }

  /** The writer goes on to the end of its write. */
  lemma {:induction false} FinishWrite(s0: State, s: State, es: seq<Event>) returns (s': State, longer: seq<Event>)
    requires 0 < Size(s0) < WORD && s == Run(s0, es) && NoWrites(es)
    requires s.writer.Filling? && s.front <= s.writer.end
    ensures s' == Run(s0, longer) && NoWrites(longer)
    ensures s'.written == s.writer.end && s'.consumed == s.consumed
    ensures s'.reader == s.reader && s'.finished == s.finished
    decreases s.writer.end - s.front
  {
    s', longer := Extend(s0, s, es, StepWriter);
    if s.front < s.writer.end {
      s', longer := FinishWrite(s0, s', longer);
    }
  }

  /** A write beyond the room, then a read: the reader skips what it has not read. */
  lemma {:induction false} OverfullLoses(s: State) returns (es: seq<Event>)
    requires Inv(s) && Lossless(s) && s.reader.RIdle? && s.writer.Filling?
    requires s.consumed + Size(s) < s.writer.end < s.consumed + WORD
    ensures NoWrites(es) && !Lossless(Run(s, es))
  {
    var s';
    s', es := FinishWrite(s, s, []);
    DeltaExact(s'.written, s'.consumed);
    s', es := Extend(s, s', es, StartRead(1));
    s', es := Extend(s, s', es, StepReader);
    s', es := Extend(s, s', es, StepReader);
    assert |Flat(s'.finished)| == s.consumed < s'.consumed;
  }

  /** Exactly the writes within the room are safe: of a write started while both sides are idle, every
      continuation without another write loses nothing if and only if the write keeps to the room. */
  lemma {:induction false} GuardExact(s0: State, es: seq<Event>, n: nat)
    requires Initial(s0) && Guarded(s0, es) && n <= Size(s0)
    requires Run(s0, es).writer.WIdle? && Run(s0, es).reader.RIdle?
    ensures n <= Room(Run(s0, es))
            <==> forall more :: NoWrites(more) ==> Lossless(Run(Next(Run(s0, es), StartWrite(n)), more))
  {
    var s, e := Run(s0, es), StartWrite(n);
    var s1 := Next(s, e);
    RunLossless(s0, es);
    RoomExact(s);
    StepOk(s, e);
    if n <= Room(s) {
      var begun := es + [e];
      assert begun[..|begun| - 1] == es;
      assert s1 == Run(s0, begun) && Guarded(s0, begun);
      forall more | NoWrites(more)
        ensures Lossless(Run(s1, more))
      {
        RunAppend(s0, begun, more);
        RunLossless(s0, begun + more);
      }
    } else {
      var more := OverfullLoses(s1);
      assert NoWrites(more) && !Lossless(Run(s1, more));
    }
  }
}
