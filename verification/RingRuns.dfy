/** Whole runs of ring operations: what the reader gets of the byte stream. */
module RingRuns {
  import opened Words
  import opened RingStream
  import opened Ring

  /** A run of operations: the final stream and the pieces the reads delivered, in order. */
  function Run(s: Stream, size: nat, ops: seq<Op>): (r: (Stream, seq<Piece>))
    requires s.Ok()
    ensures r.0.Ok() && s.log <= r.0.log && s.consumed <= r.0.consumed
    decreases |ops|
  {
    if ops == [] then (s, [])
    else
      var (s1, first) := Apply(s, size, ops[0]);
      var (s2, rest) := Run(s1, size, ops[1..]);
      (s2, first + rest)
  }

  /** The pieces lie in the log one after the other, between two positions. */
  ghost predicate InStream(ps: seq<Piece>, log: seq<byte>, low: nat, high: nat)
    decreases |ps|
  {
    && low <= high <= |log|
    && (ps != [] ==>
          && low <= ps[0].start && ps[0].End() <= |log|
          && ps[0].data == log[ps[0].start..ps[0].End()]
          && InStream(ps[1..], log, ps[0].End(), high))
  }

  /** For every run, what the reads return are contiguous pieces of the bytes published, in stream order,
      none of them twice: nothing reordered or duplicated. */
  lemma {:induction false} ReadsFollowStream(s: Stream, size: nat, ops: seq<Op>)
    requires s.Ok()
    ensures var (s', ps) := Run(s, size, ops);
            InStream(ps, s'.log, s.consumed, s'.consumed)
    decreases |ops|
  {
    if ops != [] {
      var (s1, first) := Apply(s, size, ops[0]);
      var (s', rest) := Run(s1, size, ops[1..]);
      ReadsFollowStream(s1, size, ops[1..]);
      if ops[0].Read? {
        assert (first + rest)[1..] == rest;
      } else {
        assert first + rest == rest;
        WidenStream(rest, s'.log, s.consumed, s1.consumed, s'.consumed);
      }
    }
  }

  lemma WidenStream(ps: seq<Piece>, log: seq<byte>, lower: nat, low: nat, high: nat)
    requires InStream(ps, log, low, high) && lower <= low
    ensures InStream(ps, log, lower, high)
  {
  }

  /** Some piece contains stream position `q`. */
  predicate Delivered(ps: seq<Piece>, q: nat)
    decreases |ps|
  {
    ps != [] && (ps[0].start <= q < ps[0].End() || Delivered(ps[1..], q))
  }

  /** Position `q` was unread and already overwritten when some read of the run came by. */
  predicate Overwritten(s: Stream, size: nat, ops: seq<Op>, q: nat)
    requires s.Ok()
    decreases |ops|
  {
    && ops != []
    && (|| (ops[0].Read? && s.consumed <= q < |s.log| - size)
        || Overwritten(Apply(s, size, ops[0]).0, size, ops[1..], q))
  }

  ghost predicate NoneOverwritten(s: Stream, size: nat, ops: seq<Op>)
    requires s.Ok()
  {
    forall q: nat :: !Overwritten(s, size, ops, q)
  }

  ghost predicate WritesAndReads(ops: seq<Op>) {
    forall op :: op in ops ==> op.Write? || op.Read?
  }

  /** Position `q` was passed by the reader exactly if it was delivered or lost, and it was not both. */
  ghost predicate DeliveredOrLost(s: Stream, size: nat, ops: seq<Op>, q: nat)
    requires s.Ok()
  {
    var (s', ps) := Run(s, size, ops);
    var lost := Overwritten(s, size, ops, q);
    && (s.consumed <= q < s'.consumed <==> Delivered(ps, q) || lost)
    && !(Delivered(ps, q) && lost)
  }

  /** In a run of writes and reads every byte the reader has passed was either delivered or had been
      overwritten before the read that passed it, and never both: only overwritten bytes are lost. */
  lemma {:induction false} OnlyOverwrittenLost(s: Stream, size: nat, ops: seq<Op>, q: nat)
    requires s.Ok() && WritesAndReads(ops)
    ensures DeliveredOrLost(s, size, ops, q)
    decreases |ops|
  {
    if ops != [] {
      var (s1, first) := Apply(s, size, ops[0]);
      var (s', rest) := Run(s1, size, ops[1..]);
      OnlyOverwrittenLost(s1, size, ops[1..], q);
      if ops[0].Read? {
        assert (first + rest)[1..] == rest;
      } else {
        assert first + rest == rest;
      }
    }
  }

  /** A read into a buffer of at least the ring's size leaves nothing unread. */
  ghost predicate EndsFull(size: nat, ops: seq<Op>) {
    ops != [] && ops[|ops| - 1].Read? && size <= ops[|ops| - 1].capacity
  }

  lemma {:induction false} LastReadDrains(s: Stream, size: nat, ops: seq<Op>)
    requires s.Ok() && EndsFull(size, ops)
    ensures Run(s, size, ops).0.Unread() == 0
    decreases |ops|
  {
    if |ops| > 1 {
      LastReadDrains(Apply(s, size, ops[0]).0, size, ops[1..]);
    } else {
      assert ops[1..] == [];
    }
  }

  /** So in a run of writes and reads that ends with one, every byte written is delivered exactly if it was not
      overwritten first. */
  lemma {:induction false} LastReadAccounts(s: Stream, size: nat, ops: seq<Op>, q: nat)
    requires s.Ok() && WritesAndReads(ops) && EndsFull(size, ops)
    requires s.consumed <= q < |Run(s, size, ops).0.log|
    ensures Delivered(Run(s, size, ops).1, q) <==> !Overwritten(s, size, ops, q)
  {
    LastReadDrains(s, size, ops);
    OnlyOverwrittenLost(s, size, ops, q);
  }

  /** The bytes of each piece. */
  function Bytes(ps: seq<Piece>): seq<seq<byte>> {
    seq(|ps|, i requires 0 <= i < |ps| => ps[i].data)
  }

  function Joined(outs: seq<seq<byte>>): seq<byte>
    decreases |outs|
  {
    if outs == [] then [] else outs[0] + Joined(outs[1..])
  }

  lemma JoinedFirst(p: Piece, rest: seq<Piece>)
    ensures Joined(Bytes([p] + rest)) == p.data + Joined(Bytes(rest))
  {
    assert Bytes([p] + rest)[1..] == Bytes(rest);
  }

  /** A run in which no read finds more unread bytes than the ring holds loses nothing: the bytes read,
      joined, are the bytes written. */
  lemma {:induction false} LosslessWithinRing(s: Stream, size: nat, ops: seq<Op>)
    requires s.Ok() && WritesAndReads(ops) && NoneOverwritten(s, size, ops)
    ensures var (s', ps) := Run(s, size, ops);
            Joined(Bytes(ps)) == s'.log[s.consumed..s'.consumed]
    decreases |ops|
  {
    if ops != [] {
      var (s1, first) := Apply(s, size, ops[0]);
      var (s', rest) := Run(s1, size, ops[1..]);
      assert forall q: nat :: Overwritten(s1, size, ops[1..], q) ==> Overwritten(s, size, ops, q);
      LosslessWithinRing(s1, size, ops[1..]);
      if ops[0].Read? {
        JoinedFirst(first[0], rest);
        assert !Overwritten(s, size, ops, s.consumed);
      } else {
        assert first + rest == rest;
      }
    }
  }

  /** The calls a client makes; what a reset publishes is up to the array. */
  datatype Call =
    | Send(data: seq<byte>)
    | Receive(capacity: nat)
    | Discard(leave: nat)
    | Skip(amount: u32)
    | Rewind

  /** `op` is what `call` does to the stream. A message larger than the ring is refused. */
  ghost predicate Does(s: Stream, size: u32, call: Call, op: Op)
    requires 0 < size
  {
    match call
    case Send(data) => op == Write(if |data| <= size then data else [])
    case Receive(capacity) => op == Read(capacity)
    case Discard(leave) => op == Flush(leave)
    case Skip(amount) => op == Advance(amount)
    case Rewind => op.Reset? && |op.stale| == size - |s.log| % size
  }

  /** What the ring needs of a call: fewer than 2^32 bytes unread after it, and for a flush a read
      pointer sum that fits u32, unless the size divides 2^32. */
  ghost predicate Allowed(s: Stream, size: u32, call: Call)
    requires 0 < size && s.Ok()
  {
    match call
    case Send(data) => |data| <= size ==> s.Unread() + |data| < WORD
    case Receive(_) => true
    case Discard(leave) => s.consumed % size + s.Skipped(size, leave) < WORD || WORD % size == 0
    case Skip(_) => true
    case Rewind => s.Unread() + size - |s.log| % size < WORD
  }

  /** Every call of the sequence is allowed where it comes, whatever a reset before it published. */
  ghost predicate AllAllowed(s: Stream, size: u32, calls: seq<Call>)
    requires 0 < size && s.Ok()
    decreases |calls|
  {
    calls != [] ==>
      && Allowed(s, size, calls[0])
      && forall op :: Does(s, size, calls[0], op) ==> AllAllowed(Apply(s, size, op).0, size, calls[1..])
  }

  /** The most bytes the calls can publish. */
  function Volume(calls: seq<Call>, size: nat): nat
    decreases |calls|
  {
    if calls == [] then 0
    else (match calls[0]
          case Send(data) => |data|
          case Rewind => size
          case _ => 0) + Volume(calls[1..], size)
  }

  /** All calls are allowed in a run that cannot bring the unread count to within a ring of 2^32. */
  lemma {:induction false} ShortRunsAllowed(s: Stream, size: u32, calls: seq<Call>)
    requires 0 < size && s.Ok() && s.Unread() + Volume(calls, size) + size <= WORD
    ensures AllAllowed(s, size, calls)
    decreases |calls|
  {
    if calls != [] {
      forall op | Does(s, size, calls[0], op)
        ensures AllAllowed(Apply(s, size, op).0, size, calls[1..])
      {
        ShortRunsAllowed(Apply(s, size, op).0, size, calls[1..]);
      }
    }
  }

  ghost predicate AllDone(s: Stream, size: u32, calls: seq<Call>, ops: seq<Op>)
    requires 0 < size && s.Ok()
    decreases |calls|
  {
    && |ops| == |calls|
    && (calls != [] ==>
          && Does(s, size, calls[0], ops[0])
          && AllDone(Apply(s, size, ops[0]).0, size, calls[1..], ops[1..]))
  }

  /** A read into a buffer of its own; with nothing unread it is an empty piece. */
  method PerformReceive(ring: Ring, capacity: nat) returns (out: seq<byte>, ghost p: Piece)
    requires ring.Valid() && ring.slots != 0
    modifies ring
    ensures ring.Valid()
    ensures (ring.stream, [p]) == Apply(old(ring.stream), ring.size, Read(capacity)) && out == p.data
  {
    var dest := new byte[capacity];
    var ok, n, got := ring.ReadMessage(dest);
    p := ReadPiece(old(ring.stream), ring.size, capacity);
    out := if ok then dest[..n] else [];
  }

  /** One call on the ring. */
  method Perform(ring: Ring, call: Call) returns (outs: seq<seq<byte>>, ghost op: Op, ghost ps: seq<Piece>)
    requires ring.Valid() && ring.slots != 0 && Allowed(ring.stream, ring.size, call)
    modifies ring, ring.buf
    ensures ring.Valid() && Does(old(ring.stream), ring.size, call, op)
    ensures (ring.stream, ps) == Apply(old(ring.stream), ring.size, op) && outs == Bytes(ps)
  {
    outs, ps := [], [];
    match call {
      case Send(data) =>
        op := Write(if |data| <= ring.size then data else []);
        var ok := ring.WriteMessage(data);
        assert !ok ==> old(ring.stream.log) + [] == ring.stream.log;
      case Receive(capacity) =>
        op := Read(capacity);
        var out, p := PerformReceive(ring, capacity);
        outs, ps := [out], [p];
      case Discard(leave) =>
        op := Flush(leave);
        ring.SyncOffset(leave);
      case Skip(amount) =>
        op := Advance(amount);
        var all := ring.AdvanceReadIndex(amount);
      case Rewind =>
        op := Reset(ring.buf[ring.wp..]);
        ring.ResetWritePointer();
    }
  }

  lemma RunFirst(s: Stream, size: u32, calls: seq<Call>, op: Op, others: seq<Op>)
    requires 0 < size && s.Ok() && calls != [] && Does(s, size, calls[0], op)
    requires AllDone(Apply(s, size, op).0, size, calls[1..], others)
    ensures AllDone(s, size, calls, [op] + others)
    ensures var (s1, first) := Apply(s, size, op);
            var (s2, rest) := Run(s1, size, others);
            Run(s, size, [op] + others) == (s2, first + rest) && Bytes(first + rest) == Bytes(first) + Bytes(rest)
  {
    assert ([op] + others)[1..] == others;
  }

  /** Any sequence of calls on a ring, each allowed where it comes: the ring does what the stream does. */
  method PerformAll(ring: Ring, calls: seq<Call>)
    returns (outs: seq<seq<byte>>, ghost ops: seq<Op>, ghost ps: seq<Piece>)
    requires ring.Valid() && ring.slots != 0 && AllAllowed(ring.stream, ring.size, calls)
    modifies ring, ring.buf
    ensures ring.Valid() && AllDone(old(ring.stream), ring.size, calls, ops)
    ensures (ring.stream, ps) == Run(old(ring.stream), ring.size, ops) && outs == Bytes(ps)
    decreases |calls|
  {
    outs, ops, ps := [], [], [];
    if calls != [] {
      var out, op, first := Perform(ring, calls[0]);
      var more, others, rest := PerformAll(ring, calls[1..]);
      outs, ops, ps := out + more, [op] + others, first + rest;
      RunFirst(old(ring.stream), ring.size, calls, op, others);
    }
  }

  /** Among writes and reads alone, exactly the overwritten bytes that the reader passed are lost, and if
      there are none, the bytes read, joined, are the bytes written. */
  ghost predicate LossExact(s: Stream, size: nat, ops: seq<Op>)
    requires s.Ok()
  {
    var (s', ps) := Run(s, size, ops);
    && (forall q: nat :: DeliveredOrLost(s, size, ops, q))
    && (NoneOverwritten(s, size, ops) ==> Joined(Bytes(ps)) == s'.log[s.consumed..s'.consumed])
  }

  lemma RunsLoseExactly(s: Stream, size: nat, ops: seq<Op>)
    requires s.Ok() && WritesAndReads(ops)
    ensures LossExact(s, size, ops)
  {
    forall q: nat {
      OnlyOverwrittenLost(s, size, ops, q);
    }
    if NoneOverwritten(s, size, ops) {
      LosslessWithinRing(s, size, ops);
    }
  }

  /** Of any such sequence: what the reads return are pieces of the published bytes in order, none twice,
      and among sends and receives alone exactly the overwritten bytes are lost. */
  method Drive(ring: Ring, calls: seq<Call>)
    returns (outs: seq<seq<byte>>, ghost ops: seq<Op>, ghost ps: seq<Piece>)
    requires ring.Valid() && ring.slots != 0 && AllAllowed(ring.stream, ring.size, calls)
    modifies ring, ring.buf
    ensures ring.Valid() && AllDone(old(ring.stream), ring.size, calls, ops)
    ensures (ring.stream, ps) == Run(old(ring.stream), ring.size, ops) && outs == Bytes(ps)
    ensures InStream(ps, ring.stream.log, old(ring.stream.consumed), ring.stream.consumed)
    ensures WritesAndReads(ops) ==> LossExact(old(ring.stream), ring.size, ops)
    ensures EndsFull(ring.size, ops) ==> ring.stream.Unread() == 0
  {
    outs, ops, ps := PerformAll(ring, calls);
    if EndsFull(ring.size, ops) {
      LastReadDrains(old(ring.stream), ring.size, ops);
    }
    ReadsFollowStream(old(ring.stream), ring.size, ops);
    if WritesAndReads(ops) {
      RunsLoseExactly(old(ring.stream), ring.size, ops);
    }
  }

  /** A three-byte ring with two bytes read and 2^32 - 1 unread. */
  method NearlyWrapped() returns (ring: Ring)
    ensures fresh(ring) && fresh(ring.buf) && ring.Valid() && ring.size == 3 && ring.slots == 1
    ensures ring.stream.consumed == 2 && |ring.stream.log| == WORD + 1 && ring.stream.log[WORD] == 1
  {
    ring := new Ring(3, 1);
    var ok := ring.WriteMessage([1, 1]);
    var all := ring.AdvanceReadIndex(2);
    var i := 0;
    while i < 0x5555_5555
      invariant 0 <= i <= 0x5555_5555
      invariant fresh(ring) && fresh(ring.buf) && ring.size == 3 && ring.slots == 1 && ring.Valid()
      invariant ring.stream.consumed == 2 && |ring.stream.log| == 2 + 3 * i
      invariant ring.stream.log[|ring.stream.log| - 1] == 1
    {
      ok := ring.WriteMessage([1, 1, 1]);
      i := i + 1;
    }
  }

  /** A flush of that ring is not allowed. After it and one more byte the pointers count two bytes, and the
      first of them is an old one. */
  method FlushOverflows() returns (ring: Ring)
    ensures fresh(ring) && ring.size == 3 && ring.Counters() && Holds(ring.buf[..], ring.stream.log)
    ensures ring.stream.Unread() == 1 && ring.stream.log[ring.stream.consumed] == 7
    ensures PointerAvailable(ring.tx, ring.rx, ring.wp, ring.rp, 3) == 2
    ensures Ahead(ring.buf[..], ring.rp, 2) == [1, 7]
  {
    ring := NearlyWrapped();
    ring.SyncOffset(0);
    var ok := ring.WriteMessage([7]);
  }
}
