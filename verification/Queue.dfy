/** The message queue of `aoc_ipc_core.c` under every interleaving of one writer and one reader. Each
    load, each byte stored or copied and each store of an index is a step of its own. */
module Queue {
  import opened Words

  /** `sizeof(struct aoc_ipc_message_header)`. */
  const HEADER: int := 8
  /** Span of the u16 length field. */
  const LENGTH_SPAN: int := 0x1_0000

  /** A region descriptor: bytes per slot and number of slots. */
  datatype Config = Config(size: u32, slots: u32)
  {
    predicate Valid() {
      HEADER <= size && 0 < slots
    }

    /** The counters wrap together with the slots. */
    predicate Steady() {
      Valid() && WORD % slots == 0
    }

    /** The slot a counter value selects. */
    function Slot(counter: nat): (i: nat)
      requires 0 < slots
      ensures i < slots
    {
      counter % slots
    }
  }

  type Message = seq<byte>

  /** `_aoc_queue_write_buffer`: a header with a u16 length and three zero fields, then the payload. */
  function Encode(m: Message): (r: seq<byte>)
    ensures |r| == HEADER + |m|
  {
    var length := |m| % LENGTH_SPAN;
    [length % 256, length / 256, 0, 0, 0, 0, 0, 0] + m
  }

  /** The length a reader takes from the first two bytes of a slot. */
  function HeaderLength(slot: seq<byte>): nat
    requires HEADER <= |slot|
  {
    var low: int, high: int := slot[0], slot[1];
    low + 256 * high
  }

  /** What survives the u16 length field; the whole message exactly when it is shorter than 2^16. */
  function Clip(m: Message): (r: Message)
    ensures r <= m
  {
    m[..|m| % LENGTH_SPAN]
  }

  datatype Writer =
    | WIdle
    | WTx(m: Message, tx: u32)              // first check: `tx` loaded
    | WPoint(m: Message)                    // first check passed
    | WFill(m: Message, slot: nat, k: nat)  // `k` bytes stored in the slot
    | WRecheck(m: Message)
    | WRecheckTx(m: Message, tx: u32)       // second check: `tx` loaded
    | WPublish(m: Message)                  // second check passed
    | WPointer(m: Message)                  // `tx` stored, `wp` not yet

  datatype Reader =
    | RIdle
    | RTx(capacity: nat, tx: u32)
    | RPoint(capacity: nat)
    | RCopy(slot: nat, length: nat, out: seq<byte>)
    | RRecheck(out: seq<byte>)
    | RRecheckTx(out: seq<byte>, tx: u32)
    | RPublish(out: seq<byte>)
    | RPointer(out: seq<byte>)

  /** The shared region, both program counters, and what has happened so far: messages published by a
      store of `tx`, messages whose write returned true, slots released by a store of `rx`, and
      messages whose read returned true. */
  datatype State = State(
    tx: u32, rx: u32, wp: u32, rp: u32, mem: seq<seq<byte>>,
    writer: Writer, reader: Reader,
    published: seq<Message>, accepted: seq<Message>, released: nat, delivered: seq<Message>)

  datatype Event = StartWrite(m: Message) | StepWriter | StartRead(capacity: nat) | StepReader

  /** `aoc_service_slots_available_to_write`, a `size_t` that a count above `slots` would wrap. */
  function Writable(c: Config, tx: u32, rx: u32): int {
    (c.slots - Delta(tx, rx)) % SIZE_SPAN
  }

  /** `aoc_service_slots_available_to_read`. */
  function Readable(c: Config, tx: u32, rx: u32): int {
    Min(Delta(tx, rx), c.slots)
  }

  /** `aoc_service_write_message`, one step. */
  function WriterStep(c: Config, s: State): State
    requires c.Valid()
  {
    match s.writer
    case WIdle => s
    case WTx(m, tx) =>
      if Writable(c, tx, s.rx) > 0 && |m| <= c.size - HEADER
      then s.(writer := WPoint(m)) else s.(writer := WIdle)
    case WPoint(m) => s.(writer := WFill(m, c.Slot(s.tx), 0))
    case WFill(m, slot, k) =>
      if k == |Encode(m)| then s.(writer := WRecheck(m))
      else if k < |Encode(m)| && slot < |s.mem| && k < |s.mem[slot]| then
        s.(mem := s.mem[slot := s.mem[slot][k := Encode(m)[k]]], writer := WFill(m, slot, k + 1))
      else s
    case WRecheck(m) => s.(writer := WRecheckTx(m, s.tx))
    case WRecheckTx(m, tx) =>
      if Writable(c, tx, s.rx) >= 1 then s.(writer := WPublish(m))
      else s.(writer := WIdle, accepted := s.accepted + [m])
    case WPublish(m) =>
      s.(tx := Add32(s.tx, 1), published := s.published + [m], writer := WPointer(m))
    case WPointer(m) =>
      s.(wp := Add32(s.wp, 1) % c.size, accepted := s.accepted + [m], writer := WIdle)
  }

  /** `aoc_service_read_message`, one step. */
  function ReaderStep(c: Config, s: State): State
    requires c.Valid()
  {
    match s.reader
    case RIdle => s
    case RTx(capacity, tx) =>
      if Readable(c, tx, s.rx) > 0 then s.(reader := RPoint(capacity)) else s.(reader := RIdle)
    case RPoint(capacity) =>
      var slot := c.Slot(s.rx);
      if slot < |s.mem| && HEADER <= |s.mem[slot]| then
        var length := HeaderLength(s.mem[slot]);
        if capacity < length then s.(reader := RIdle) else s.(reader := RCopy(slot, length, []))
      else s
    case RCopy(slot, length, out) =>
      if |out| == length then s.(reader := RRecheck(out))
      else if slot < |s.mem| && HEADER + |out| < |s.mem[slot]| then
        s.(reader := RCopy(slot, length, out + [s.mem[slot][HEADER + |out|]]))
      else s
    case RRecheck(out) => s.(reader := RRecheckTx(out, s.tx))
    case RRecheckTx(out, tx) =>
      if Readable(c, tx, s.rx) >= 1 then s.(reader := RPublish(out))
      else s.(reader := RIdle, delivered := s.delivered + [out])
    case RPublish(out) =>
      s.(rx := Add32(s.rx, 1), released := s.released + 1, reader := RPointer(out))
    case RPointer(out) =>
      s.(rp := Add32(s.rp, 1) % c.size, delivered := s.delivered + [out], reader := RIdle)
  }

  function Next(c: Config, s: State, e: Event): State
    requires c.Valid()
  {
    match e
    case StartWrite(m) => if s.writer.WIdle? then s.(writer := WTx(m, s.tx)) else s
    case StepWriter => WriterStep(c, s)
    case StartRead(capacity) => if s.reader.RIdle? then s.(reader := RTx(capacity, s.tx)) else s
    case StepReader => ReaderStep(c, s)
  }

  /** Any run is a sequence of events. */
  function Run(c: Config, s: State, es: seq<Event>): State
    requires c.Valid()
  {
    if es == [] then s else Next(c, Run(c, s, es[..|es| - 1]), es[|es| - 1])
  }

  ghost predicate Initial(c: Config, s: State) {
    && s.tx == 0 && s.rx == 0
    && |s.mem| == c.slots && (forall i :: 0 <= i < c.slots ==> |s.mem[i]| == c.size)
    && s.writer == WIdle && s.reader == RIdle
    && s.published == [] && s.accepted == [] && s.released == 0 && s.delivered == []
  }

  // ---------------------------------------------------------------------------------------------
  // The invariant

  ghost predicate Fits(c: Config, m: Message) {
    HEADER + |m| <= c.size
  }

  /** The first `k` bytes of the encoded message are in the slot. */
  ghost predicate Stored(slot: seq<byte>, m: Message, k: nat)
    requires k <= |slot| && k <= |Encode(m)|
  {
    slot[..k] == Encode(m)[..k]
  }

  ghost predicate Shape(c: Config, s: State)
    requires c.Valid()
  {
    && |s.mem| == c.slots && (forall i :: 0 <= i < c.slots ==> |s.mem[i]| == c.size)
    && s.tx == |s.published| % WORD && s.rx == s.released % WORD
    && s.released <= |s.published| <= s.released + c.slots
    && (forall k :: s.released <= k < |s.published| ==>
          Fits(c, s.published[k]) &&
          Stored(s.mem[c.Slot(k)], s.published[k], |Encode(s.published[k])|))
  }

  ghost predicate WriterOk(c: Config, s: State)
    requires c.Valid() && Shape(c, s)
  {
    var room := |s.published| < s.released + c.slots;
    match s.writer
    case WIdle => s.accepted == s.published
    case WTx(m, tx) => s.accepted == s.published && tx == s.tx
    case WPoint(m) => s.accepted == s.published && room && Fits(c, m)
    case WFill(m, slot, k) =>
      && s.accepted == s.published && room && Fits(c, m)
      && slot == c.Slot(|s.published|) && k <= |Encode(m)| && Stored(s.mem[slot], m, k)
    case WRecheck(m) => Filled(c, s, m)
    case WRecheckTx(m, tx) => Filled(c, s, m) && tx == s.tx
    case WPublish(m) => Filled(c, s, m)
    case WPointer(m) => s.accepted + [m] == s.published
  }

  /** The next slot is free and holds the whole message. */
  ghost predicate Filled(c: Config, s: State, m: Message)
    requires c.Valid() && Shape(c, s)
  {
    && s.accepted == s.published && |s.published| < s.released + c.slots && Fits(c, m)
    && Stored(s.mem[c.Slot(|s.published|)], m, |Encode(m)|)
  }

  /** `n` messages came out whole and in order, but for what the length field cuts off. */
  ghost predicate InOrder(s: State, n: nat) {
    && |s.delivered| == n <= |s.published|
    && forall i :: 0 <= i < n ==> s.delivered[i] == Clip(s.published[i])
  }

  ghost predicate ReaderOk(c: Config, s: State)
    requires c.Valid() && Shape(c, s)
  {
    var some := s.released < |s.published|;
    match s.reader
    case RIdle => InOrder(s, s.released)
    case RTx(_, tx) => InOrder(s, s.released) && Seen(s, s.released, tx)
    case RPoint(_) => InOrder(s, s.released) && some
    case RCopy(slot, length, out) =>
      && InOrder(s, s.released) && some && slot == c.Slot(s.released)
      && length == |Clip(s.published[s.released])| && out <= Clip(s.published[s.released])
    case RRecheck(out) => InOrder(s, s.released) && some && out == Clip(s.published[s.released])
    case RRecheckTx(out, tx) =>
      && InOrder(s, s.released) && some && out == Clip(s.published[s.released])
      && Seen(s, s.released + 1, tx)
    case RPublish(out) => InOrder(s, s.released) && some && out == Clip(s.published[s.released])
    case RPointer(out) =>
      && 0 < s.released && InOrder(s, s.released - 1) && out == Clip(s.published[s.released - 1])
  }

  /** A loaded `tx` was the publication count at some moment when at least `low` were published. */
  ghost predicate Seen(s: State, low: nat, tx: u32) {
    exists t: nat :: low <= t <= |s.published| && tx == t % WORD
  }

  ghost predicate Inv(c: Config, s: State)
    requires c.Valid()
  {
    Shape(c, s) && WriterOk(c, s) && ReaderOk(c, s)
  }

  // ---------------------------------------------------------------------------------------------
  // Every step keeps it

  /** The wrapped counter selects the slot of the true count. */
  lemma SlotOfWord(c: Config, n: nat)
    requires c.Steady()
    ensures c.Slot(n % WORD) == c.Slot(n) < c.slots
  {
    ModMod(n, c.slots, WORD);
  }

  /** The availability computed from loaded counters is the true one. */
  lemma Availability(c: Config, t: nat, r: nat)
    requires c.Valid() && r <= t <= r + c.slots
    ensures Writable(c, t % WORD, r % WORD) == c.slots - (t - r)
    ensures Readable(c, t % WORD, r % WORD) == t - r
  {
    DeltaExact(t, r);
  }

  /** The header gives back the length, up to the width of its field. */
  lemma HeaderRead(slot: seq<byte>, m: Message)
    requires |Encode(m)| <= |slot| && Stored(slot, m, |Encode(m)|)
    ensures HeaderLength(slot) == |Clip(m)|
    ensures forall k :: 0 <= k < |m| ==> slot[HEADER + k] == m[k]
  {
    assert slot[..|Encode(m)|] == Encode(m);
    assert slot[0] == Encode(m)[0] && slot[1] == Encode(m)[1];
    forall k | 0 <= k < |m|
      ensures slot[HEADER + k] == m[k]
    {
      assert slot[HEADER + k] == Encode(m)[HEADER + k];
    }
  }

  lemma StartOk(c: Config, s: State, e: Event)
    requires c.Steady() && Inv(c, s) && (e.StartWrite? || e.StartRead?)
    ensures Inv(c, Next(c, s, e))
  {
    assert Seen(s, s.released, s.tx);
  }

  lemma CheckOk(c: Config, s: State)
    requires c.Steady() && Inv(c, s) && (s.writer.WTx? || s.writer.WRecheckTx?)
    ensures Inv(c, WriterStep(c, s))
    ensures s.writer.WRecheckTx? ==> WriterStep(c, s).writer.WPublish?
  {
    Availability(c, |s.published|, s.released);
  }

  /** Storing a byte into the free slot touches none of the unread messages. */
  lemma FillOk(c: Config, s: State)
    requires c.Steady() && Inv(c, s) && s.writer.WFill?
    ensures Inv(c, WriterStep(c, s))
  {
    var WFill(m, slot, k) := s.writer;
    var s' := WriterStep(c, s);
    if k < |Encode(m)| {
      forall i | s.released <= i < |s.published|
        ensures s'.mem[c.Slot(i)] == s.mem[c.Slot(i)]
      {
        ModDistinct(i, |s.published|, c.slots);
      }
      assert s'.mem[slot][..k + 1] == s.mem[slot][..k] + [Encode(m)[k]];
      assert Encode(m)[..k + 1] == Encode(m)[..k] + [Encode(m)[k]];
    }
  }

  lemma PublishOk(c: Config, s: State)
    requires c.Steady() && Inv(c, s) && s.writer.WPublish?
    ensures Inv(c, WriterStep(c, s))
  {
    ModAdd(|s.published|, 1, WORD);
    var s' := WriterStep(c, s);
    if s.reader.RTx? {
      assert Seen(s', s.released, s.reader.tx);
    } else if s.reader.RRecheckTx? {
      assert Seen(s', s.released + 1, s.reader.tx);
    }
  }

  lemma WriterStepOk(c: Config, s: State)
    requires c.Steady() && Inv(c, s)
    ensures Inv(c, WriterStep(c, s))
  {
    match s.writer
    case WTx(_, _) => CheckOk(c, s);
    case WPoint(_) => SlotOfWord(c, |s.published|);
    case WFill(_, _, _) => FillOk(c, s);
    case WRecheckTx(_, _) => CheckOk(c, s);
    case WPublish(_) => PublishOk(c, s);
    case _ =>
  }

  lemma ReadCheckOk(c: Config, s: State)
    requires c.Steady() && Inv(c, s) && (s.reader.RTx? || s.reader.RRecheckTx?)
    ensures Inv(c, ReaderStep(c, s))
    ensures s.reader.RRecheckTx? ==> ReaderStep(c, s).reader.RPublish?
  {
    var low := if s.reader.RTx? then s.released else s.released + 1;
    var t: nat :| low <= t <= |s.published| && s.reader.tx == t % WORD;
    Availability(c, t, s.released);
  }

  lemma PointOk(c: Config, s: State)
    requires c.Steady() && Inv(c, s) && s.reader.RPoint?
    ensures Inv(c, ReaderStep(c, s))
  {
    SlotOfWord(c, s.released);
    HeaderRead(s.mem[c.Slot(s.released)], s.published[s.released]);
  }

  lemma CopyOk(c: Config, s: State)
    requires c.Steady() && Inv(c, s) && s.reader.RCopy?
    ensures Inv(c, ReaderStep(c, s))
  {
    var RCopy(slot, length, out) := s.reader;
    var m := s.published[s.released];
    SlotOfWord(c, s.released);
    HeaderRead(s.mem[slot], m);
    if |out| < length {
      assert out + [m[|out|]] <= Clip(m);
      assert ReaderStep(c, s) == s.(reader := RCopy(slot, length, out + [m[|out|]]));
    }
  }

  lemma ReleaseOk(c: Config, s: State)
    requires c.Steady() && Inv(c, s) && s.reader.RPublish?
    ensures Inv(c, ReaderStep(c, s))
  {
    ModAdd(s.released, 1, WORD);
  }

  lemma ReaderStepOk(c: Config, s: State)
    requires c.Steady() && Inv(c, s)
    ensures Inv(c, ReaderStep(c, s))
  {
    match s.reader
    case RTx(_, _) => ReadCheckOk(c, s);
    case RPoint(_) => PointOk(c, s);
    case RCopy(_, _, _) => CopyOk(c, s);
    case RRecheck(_) => assert Seen(s, s.released + 1, s.tx);
    case RRecheckTx(_, _) => ReadCheckOk(c, s);
    case RPublish(_) => ReleaseOk(c, s);
    case _ =>
  }

  lemma {:induction false} RunOk(c: Config, s: State, es: seq<Event>)
    requires c.Steady() && Initial(c, s)
    ensures Inv(c, Run(c, s, es))
  {
    if es != [] {
      var before := Run(c, s, es[..|es| - 1]);
      RunOk(c, s, es[..|es| - 1]);
      match es[|es| - 1]
      case StepWriter => WriterStepOk(c, before);
      case StepReader => ReaderStepOk(c, before);
      case e => StartOk(c, before, e);
    }
  }

  // ---------------------------------------------------------------------------------------------
  // What holds of every run

  /** In every reachable state the messages read are a prefix of those written, what a write reported
      as accepted is what was published, the unread count is within the slots, and the slot being
      filled is never the one being read. */
  lemma {:induction false} QueueSafe(c: Config, s0: State, es: seq<Event>)
    requires c.Steady() && Initial(c, s0)
    ensures var s := Run(c, s0, es);
            && 0 <= |s.published| - s.released <= c.slots
            && |s.delivered| <= |s.published|
            && (forall i :: 0 <= i < |s.delivered| ==> s.delivered[i] == Clip(s.published[i]))
            && s.accepted <= s.published && |s.published| <= |s.accepted| + 1
            && (s.writer.WIdle? ==> s.accepted == s.published)
            && (s.reader.RIdle? ==> |s.delivered| == s.released)
            && (s.writer.WFill? && s.reader.RCopy? ==> s.writer.slot != s.reader.slot)
            && (s.writer.WFill? && s.reader.RPoint? ==> s.writer.slot != c.Slot(s.rx))
  {
    RunOk(c, s0, es);
    var s := Run(c, s0, es);
    SlotOfWord(c, s.released);
    if s.writer.WFill? && (s.reader.RCopy? || s.reader.RPoint?) {
      ModDistinct(s.released, |s.published|, c.slots);
    }
  }

  /** A message shorter than 2^16 bytes is delivered whole, and nothing else is ever cut to more than its length
      modulo 2^16. */
  lemma {:induction false} DeliveredWhole(c: Config, s0: State, es: seq<Event>, i: nat)
    requires c.Steady() && Initial(c, s0) && i < |Run(c, s0, es).delivered|
    ensures var s := Run(c, s0, es);
            && i < |s.published| && s.delivered[i] <= s.published[i]
            && |s.delivered[i]| == |s.published[i]| % 0x1_0000
            && (|s.published[i]| < 0x1_0000 ==> s.delivered[i] == s.published[i])
  {
    QueueSafe(c, s0, es);
    ClipExact(Run(c, s0, es).published[i]);
  }

  /** A stored message: its length in the first two bytes, the low one first, six zero bytes, the payload. */
  lemma {:induction false} EncodeExact(m: Message)
    ensures |Encode(m)| == 8 + |m| && Encode(m)[8..] == m && Encode(m)[2..8] == [0, 0, 0, 0, 0, 0]
    ensures Encode(m)[0] == |m| % 256 && Encode(m)[1] == |m| / 256 % 256
  {
    LengthBytes(|m|);
  }

  lemma LengthBytes(n: nat)
    ensures n % 0x1_0000 % 256 == n % 256 && n % 0x1_0000 / 256 == n / 256 % 256
  {
    var q, r := n / 0x1_0000, n % 0x1_0000;
    assert n == (q * 256 + r / 256) * 256 + r % 256;
    ModUnique(n, 256, q * 256 + r / 256, r % 256);
    ModUnique(q * 256 + r / 256, 256, q, r / 256);
  }

  ghost predicate Pointers(c: Config, s: State)
    requires c.Valid()
  {
    s.wp == |s.accepted| % c.size && s.rp == |s.delivered| % c.size
  }

  lemma WriterPointers(c: Config, s: State)
    requires c.Valid() && Pointers(c, s)
    requires s.writer.WRecheckTx? ==> WriterStep(c, s).writer.WPublish?
    ensures Pointers(c, WriterStep(c, s))
  {
    if s.writer.WPointer? {
      PointerStep(|s.accepted|, c.size);
    }
  }

  lemma ReaderPointers(c: Config, s: State)
    requires c.Valid() && Pointers(c, s)
    requires s.reader.RRecheckTx? ==> ReaderStep(c, s).reader.RPublish?
    ensures Pointers(c, ReaderStep(c, s))
  {
    if s.reader.RPointer? {
      PointerStep(|s.delivered|, c.size);
    }
  }

  /** The ring pointers, which a queue keeps up though it does not use them, count the messages written and read,
      modulo the slot size. */
  lemma {:induction false} PointersFollow(c: Config, s0: State, es: seq<Event>)
    requires c.Steady() && Initial(c, s0) && s0.wp == s0.rp == 0
    ensures Pointers(c, Run(c, s0, es))
  {
    if es != [] {
      var before := es[..|es| - 1];
      PointersFollow(c, s0, before);
      RechecksPass(c, s0, before);
      match es[|es| - 1]
      case StepWriter => WriterPointers(c, Run(c, s0, before));
      case StepReader => ReaderPointers(c, Run(c, s0, before));
      case _ =>
    }
  }

  lemma PointerStep(n: nat, size: u32)
    requires 0 < size
    ensures Add32(n % size, 1) % size == (n + 1) % size
  {
    ModAdd(n, 1, size);
    ModUnique(n % size + 1, WORD, 0, n % size + 1);
  }

  /** The second availability checks, whose result the callers drop, never fail: a write that returned
      true was published and a read that returned true released its slot. */
  lemma {:induction false} RechecksPass(c: Config, s0: State, es: seq<Event>)
    requires c.Steady() && Initial(c, s0)
    ensures var s := Run(c, s0, es);
            && (s.writer.WRecheckTx? ==> WriterStep(c, s).writer == WPublish(s.writer.m))
            && (s.reader.RRecheckTx? ==> ReaderStep(c, s).reader == RPublish(s.reader.out))
  {
    RunOk(c, s0, es);
    var s := Run(c, s0, es);
    if s.writer.WRecheckTx? {
      CheckOk(c, s);
    }
    if s.reader.RRecheckTx? {
      ReadCheckOk(c, s);
    }
  }

  /** Steps a call still has to make at most. */
  function WriterRank(c: Config, w: Writer): int {
    match w
    case WIdle => 0
    case WPointer(_) => 1
    case WPublish(_) => 2
    case WRecheckTx(_, _) => 3
    case WRecheck(_) => 4
    case WFill(m, _, k) => 5 + c.size - k
    case WPoint(_) => 6 + c.size
    case WTx(_, _) => 7 + c.size
  }

  function ReaderRank(c: Config, r: Reader): int {
    match r
    case RIdle => 0
    case RPointer(_) => 1
    case RPublish(_) => 2
    case RRecheckTx(_, _) => 3
    case RRecheck(_) => 4
    case RCopy(_, _, out) => 5 + c.size - |out|
    case RPoint(_) => 6 + c.size
    case RTx(_, _) => 7 + c.size
  }

  /** Neither side ever waits for the other: in every reachable state each of its own steps brings a call
      closer to its end, and steps of the other side do not put it back. */
  lemma {:induction false} CallsEnd(c: Config, s0: State, es: seq<Event>)
    requires c.Steady() && Initial(c, s0)
    ensures var s := Run(c, s0, es);
            && (s.writer != WIdle ==>
                  0 <= WriterRank(c, WriterStep(c, s).writer) < WriterRank(c, s.writer) <= c.size + 7)
            && (s.reader != RIdle ==>
                  0 <= ReaderRank(c, ReaderStep(c, s).reader) < ReaderRank(c, s.reader) <= c.size + 7)
            && WriterStep(c, s).reader == s.reader && ReaderStep(c, s).writer == s.writer
  {
    RunOk(c, s0, es);
    var s := Run(c, s0, es);
    if s.writer != WIdle {
      WriterEnds(c, s);
    }
    if s.reader != RIdle {
      ReaderEnds(c, s);
    }
  }

  lemma WriterEnds(c: Config, s: State)
    requires c.Steady() && Inv(c, s) && s.writer != WIdle
    ensures 0 <= WriterRank(c, WriterStep(c, s).writer) < WriterRank(c, s.writer) <= c.size + 7
  {
  }

  lemma ReaderEnds(c: Config, s: State)
    requires c.Steady() && Inv(c, s) && s.reader != RIdle
    ensures 0 <= ReaderRank(c, ReaderStep(c, s).reader) < ReaderRank(c, s.reader) <= c.size + 7
  {
    match s.reader
    case RPoint(_) => SlotOfWord(c, s.released);
    case RCopy(_, _, _) => CopyStays(c, s);
    case _ =>
  }

  /** The copy stays inside its slot. */
  lemma CopyStays(c: Config, s: State)
    requires c.Steady() && Shape(c, s) && ReaderOk(c, s) && s.reader.RCopy?
    ensures s.reader.slot < |s.mem| && |s.mem[s.reader.slot]| == c.size
    ensures |s.reader.out| <= s.reader.length <= c.size - HEADER
  {
    assert Fits(c, s.published[s.released]);
  }

  /** When a call gives up: a write exactly when every slot is taken at its check or the message does not
      fit a slot; a read exactly when nothing had been published when it loaded `tx`, or the message is
      longer than its buffer. Giving up changes nothing. */
  lemma {:induction false} RefusedExactly(c: Config, s0: State, es: seq<Event>)
    requires c.Steady() && Initial(c, s0)
    ensures var s := Run(c, s0, es);
            && (s.writer.WTx? ==>
                  (WriterStep(c, s) == s.(writer := WIdle)
                   <==> |s.published| - s.released == c.slots || |s.writer.m| > c.size - HEADER))
            && (s.reader.RTx? ==>
                  (ReaderStep(c, s) == s.(reader := RIdle) <==> s.reader.tx == s.rx))
            && (s.reader.RPoint? ==>
                  s.released < |s.published| &&
                  (ReaderStep(c, s) == s.(reader := RIdle)
                   <==> s.reader.capacity < |Clip(s.published[s.released])|))
  {
    RunOk(c, s0, es);
    var s := Run(c, s0, es);
    if s.writer.WTx? {
      Availability(c, |s.published|, s.released);
    }
    if s.reader.RTx? {
      NothingSeen(c, s);
    } else if s.reader.RPoint? {
      TooLong(c, s);
    }
  }

  lemma NothingSeen(c: Config, s: State)
    requires c.Steady() && Inv(c, s) && s.reader.RTx?
    ensures ReaderStep(c, s) == s.(reader := RIdle) <==> s.reader.tx == s.rx
  {
    var t: nat :| s.released <= t <= |s.published| && s.reader.tx == t % WORD;
    Availability(c, t, s.released);
    DeltaIs(s.reader.tx, s.rx);
  }

  lemma TooLong(c: Config, s: State)
    requires c.Steady() && Inv(c, s) && s.reader.RPoint?
    ensures ReaderStep(c, s) == s.(reader := RIdle)
            <==> s.reader.capacity < |Clip(s.published[s.released])|
  {
    SlotOfWord(c, s.released);
    HeaderRead(s.mem[c.Slot(s.released)], s.published[s.released]);
  }

  /** The length field keeps a message whole exactly when it is shorter than 2^16. */
  lemma {:induction false} ClipExact(m: Message)
    ensures Clip(m) == m <==> |m| < LENGTH_SPAN
  {
    assert |m| >= LENGTH_SPAN ==> |Clip(m)| < |m|;
  }

  /** Counts less than `slots` apart get different slots across the 32-bit wrap exactly when the number
      of slots divides 2^32; otherwise a message at the wrap lands on one that is still unread. */
  lemma {:induction false} SlotsMustDivide(c: Config)
    requires 0 < c.slots
    ensures (forall a: nat, b: nat :: a < b < a + c.slots ==> c.Slot(a % WORD) != c.Slot(b % WORD))
            <==> WORD % c.slots == 0
  {
    if WORD % c.slots == 0 {
      forall a: nat, b: nat | a < b < a + c.slots
        ensures c.Slot(a % WORD) != c.Slot(b % WORD)
      {
        ModMod(a, c.slots, WORD);
        ModMod(b, c.slots, WORD);
        ModDistinct(a, b, c.slots);
      }
    } else {
      var q, r := WORD / c.slots, WORD % c.slots;
      var a, b := WORD - r, WORD;
      assert a == q * c.slots;
      ModUnique(a, c.slots, q, 0);
      assert a >= c.slots by {
        assert q >= 1;
      }
      ModUnique(a, WORD, 0, a);
      assert a < b < a + c.slots && c.Slot(a % WORD) == c.Slot(b % WORD);
    }
  }

  /** The u32 byte offsets of the slots do not overflow, stay in the region and do not overlap. */
  lemma {:induction false} SlotOffsets(c: Config, i: nat, j: nat)
    requires c.Valid() && c.size * c.slots <= WORD && i < j < c.slots
    ensures (c.size * i) % WORD + c.size <= (c.size * j) % WORD
    ensures (c.size * j) % WORD + c.size <= c.size * c.slots
  {
    MulMonotone(c.size, i + 1, j);
    MulMonotone(c.size, j + 1, c.slots);
    assert c.size * (i + 1) == c.size * i + c.size;
    assert c.size * (j + 1) == c.size * j + c.size;
    ModUnique(c.size * i, WORD, 0, c.size * i);
    ModUnique(c.size * j, WORD, 0, c.size * j);
  }
}
