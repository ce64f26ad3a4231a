/** A ring read racing with ring writes. Each byte copied is a step, the stores of `tx` and `wp` are one
    step, and a cell holds the stream position of its byte, so that what a read returns can be told
    apart from what it should return. The state has the true positions; the steps compute with the 32-bit
    counters and the ring pointers, and a write starts only while fewer than 2^32 bytes stay unread. */
module RingRace {
  import opened Words
  import Ring

  datatype Writer =
    | WIdle
    | Filling(end: nat)             // bytes up to stream position `end` are being copied in

  datatype Reader =
    | RIdle
    | Measure(capacity: nat)        // there is something to read
    | CatchUp(capacity: nat)        // more is unread than the ring holds
    | LoadTx(capacity: nat)
    | LoadWp(capacity: nat, tx: u32)
    | Copy(capacity: nat, seen: nat, n: nat, out: seq<int>, fronts: seq<nat>)

  /** One finished read: where it started, how much was written when it loaded `wp`, the stream
      positions of the bytes it returned, and how far the writer had filled at each of its copies. */
  datatype Record = Record(start: nat, capacity: nat, seen: nat, out: seq<int>, fronts: seq<nat>)

  /** `written` bytes are published, `front` are copied in, `consumed` are released. */
  datatype State = State(
    cells: seq<int>, written: nat, front: nat, consumed: nat,
    writer: Writer, reader: Reader, finished: seq<Record>)

  datatype Event = StartWrite(n: nat) | StepWriter | StartRead(capacity: nat) | StepReader

  function Size(s: State): nat {
    |s.cells|
  }

  function WriterStep(s: State): State
    requires 0 < Size(s)
  {
    match s.writer
    case WIdle => s
    case Filling(end) =>
      if s.front < end then s.(cells := s.cells[s.front % Size(s) := s.front], front := s.front + 1)
      else s.(written := end, writer := WIdle)
  }

  /** The byte count taken from the pointers, and from the counters when the pointers meet. */
  function Available(tx: u32, s: State): nat
    requires 0 < Size(s) < WORD
  {
    Ring.PointerAvailable(tx, s.consumed % WORD, s.written % Size(s), s.consumed % Size(s), Size(s))
  }

  /** The delta of the counters as they are now. */
  function Lead(s: State): u32 {
    Delta(s.written % WORD, s.consumed % WORD)
  }

  function ReaderStep(s: State): State
    requires 0 < Size(s) < WORD
  {
    match s.reader
    case RIdle => s
    case Measure(capacity) =>
      if Lead(s) > Size(s) then s.(reader := CatchUp(capacity))
      else s.(reader := LoadTx(capacity))
    case CatchUp(capacity) =>
      s.(consumed := s.consumed + Lead(s) - Min(Size(s), Lead(s)), reader := LoadTx(capacity))
    case LoadTx(capacity) => s.(reader := LoadWp(capacity, s.written % WORD))
    case LoadWp(capacity, tx) =>
      var available := Available(tx, s);
      s.(reader := Copy(capacity, s.written, Min(available, capacity), [], []))
    case Copy(capacity, seen, n, out, fronts) =>
      if |out| < n then
        var byte := s.cells[(s.consumed + |out|) % Size(s)];
        s.(reader := Copy(capacity, seen, n, out + [byte], fronts + [s.front]))
      else
        s.(consumed := s.consumed + n, reader := RIdle,
           finished := s.finished + [Record(s.consumed, capacity, seen, out, fronts)])
  }

  function Next(s: State, e: Event): State
    requires 0 < Size(s) < WORD
  {
    match e
    case StartWrite(n) =>
      if s.writer.WIdle? && n <= Size(s) && s.written + n - s.consumed < WORD
      then s.(writer := Filling(s.written + n)) else s
    case StepWriter => WriterStep(s)
    case StartRead(capacity) =>
      if s.reader.RIdle? && s.written % WORD != s.consumed % WORD then s.(reader := Measure(capacity)) else s
    case StepReader => ReaderStep(s)
  }

  function Run(s: State, es: seq<Event>): (r: State)
    requires 0 < Size(s) < WORD
    ensures Size(r) == Size(s)
  {
    if es == [] then s else Next(Run(s, es[..|es| - 1]), es[|es| - 1])
  }

  ghost predicate Initial(s: State) {
    && 0 < Size(s) < 0x8000_0000
    && s.written == s.front == s.consumed == 0
    && s.writer == WIdle && s.reader == RIdle && s.finished == []
  }

  // ---------------------------------------------------------------------------------------------

  /** The first `n` stream positions. */
  function Positions(n: nat): seq<int> {
    seq(n, i => i)
  }

  /** Byte `i` of a read is the byte it stands for exactly if the writer had not lapped its cell. */
  ghost predicate Faithful(start: nat, out: seq<int>, fronts: seq<nat>, size: nat) {
    && |out| == |fronts|
    && forall i :: 0 <= i < |out| ==> (out[i] == start + i <==> fronts[i] <= start + i + size)
  }

  ghost predicate WriterInv(s: State) {
    && Size(s) < WORD && Ring.Holds(s.cells, Positions(s.front))
    && s.consumed <= s.written <= s.front <= s.written + Size(s)
    && s.written - s.consumed < WORD
    && match s.writer
       case WIdle => s.front == s.written
       case Filling(end) => s.front <= end <= s.written + Size(s) && end - s.consumed < WORD
  }

  ghost predicate ReaderInv(s: State)
    requires 0 < Size(s)
  {
    match s.reader
    case RIdle => true
    case Measure(_) => s.consumed < s.written
    case CatchUp(_) => s.consumed + Size(s) < s.written
    case LoadTx(_) => s.consumed < s.written
    case LoadWp(_, tx) => s.consumed < s.written && tx != s.consumed % WORD
    case Copy(capacity, seen, n, out, fronts) =>
      && seen <= s.written && |out| <= n
      && Counted(s.consumed, capacity, seen, n, Size(s))
      && Faithful(s.consumed, out, fronts, Size(s))
      && Past(fronts, s.front)
  }

  ghost predicate RecordOk(r: Record, size: nat, front: nat)
    requires 0 < size
  {
    && Faithful(r.start, r.out, r.fronts, size)
    && Counted(r.start, r.capacity, r.seen, |r.out|, size)
    && Past(r.fronts, front)
  }

  ghost predicate Past(fronts: seq<nat>, front: nat) {
    forall i :: 0 <= i < |fronts| ==> fronts[i] <= front
  }

  /** Reads start where earlier ones ended, or later. */
  ghost predicate Ordered(rs: seq<Record>, consumed: nat) {
    && (forall i, j :: 0 <= i < j < |rs| ==> rs[i].start + |rs[i].out| <= rs[j].start)
    && (forall i :: 0 <= i < |rs| ==> rs[i].start + |rs[i].out| <= consumed)
  }

  ghost predicate Inv(s: State) {
    && WriterInv(s) && ReaderInv(s) && Ordered(s.finished, s.consumed)
    && forall r :: r in s.finished ==> RecordOk(r, Size(s), s.front)
  }

  /** The count is what is unread and fits, or its residue when the ring has been lapped. */
  ghost predicate Counted(start: nat, capacity: nat, seen: nat, n: nat, size: nat)
    requires 0 < size
  {
    && start < seen
    && n == Min(Residue(seen - start, size), capacity)
  }

  /** A positive count as the pointers show it. */
  function Residue(unread: nat, size: nat): nat
    requires 0 < size
  {
    if unread % size == 0 then size else unread % size
  }

  lemma ResidueBelow(u: nat, m: nat)
    requires 0 < m && 0 < u
    ensures Residue(u, m) <= u
  {
    if u < m {
      ModUnique(u, m, 0, u);
    }
  }

  lemma AvailableIs(tx: u32, s: State)
    requires 0 < Size(s) < WORD && s.consumed < s.written < s.consumed + WORD && tx != s.consumed % WORD
    ensures Available(tx, s) == Residue(s.written - s.consumed, Size(s))
  {
    Ring.AvailableExact(s.written, s.consumed, Size(s));
    ModDistinct(s.consumed, s.written, WORD);
  }

  /** Filling one more byte. */
  lemma FillHolds(cells: seq<int>, front: nat)
    requires Ring.Holds(cells, Positions(front))
    ensures Ring.Holds(cells[front % |cells| := front], Positions(front + 1))
  {
    Ring.WriteIn(cells, cells[front % |cells| := front], Positions(front), [front]);
    assert Positions(front) + [front] == Positions(front + 1);
  }

  /** The cell for position `q` holds `q` exactly until the writer fills the next lap. */
  lemma CellExact(cells: seq<int>, front: nat, q: nat)
    requires Ring.Holds(cells, Positions(front)) && q < front
    ensures cells[q % |cells|] == q <==> front <= q + |cells|
  {
    var size := |cells|;
    if q + size < front {
      var low := front - size;
      var d := (q - low) % size;
      ModAdd(q - low, low, size);
      assert (low + d) % size == q % size;
      assert cells[(low + d) % size] == Positions(front)[low + d];
    } else {
      assert cells[q % size] == Positions(front)[q];
    }
  }

  lemma WriterOk(s: State)
    requires Inv(s)
    ensures Inv(WriterStep(s))
  {
    if s.writer.Filling? && s.front < s.writer.end {
      FillHolds(s.cells, s.front);
    }
  }

  lemma ReaderOk(s: State)
    requires Inv(s)
    ensures Inv(ReaderStep(s))
  {
    DeltaExact(s.written, s.consumed);
    match s.reader
    case LoadWp(_, _) => LoadOk(s);
    case Copy(_, _, _, _, _) => CopyOk(s);
    case _ =>
  }

  lemma LoadOk(s: State)
    requires Inv(s) && s.reader.LoadWp?
    ensures Inv(ReaderStep(s))
  {
    AvailableIs(s.reader.tx, s);
  }

  lemma StepOk(s: State, e: Event)
    requires Inv(s)
    ensures Inv(Next(s, e))
  {
    match e
    case StepWriter => WriterOk(s);
    case StepReader => ReaderOk(s);
    case StartRead(_) => DeltaExact(s.written, s.consumed);
    case StartWrite(_) =>
  }

  lemma CopyOk(s: State)
    requires Inv(s) && s.reader.Copy?
    ensures Inv(ReaderStep(s))
  {
    var Copy(capacity, seen, n, out, fronts) := s.reader;
    ResidueBelow(seen - s.consumed, Size(s));
    if |out| < n {
      CellExact(s.cells, s.front, s.consumed + |out|);
    }
  }

  lemma {:induction false} RunOk(s: State, es: seq<Event>)
    requires Initial(s)
    ensures Inv(Run(s, es))
  {
    if es != [] {
      RunOk(s, es[..|es| - 1]);
      StepOk(Run(s, es[..|es| - 1]), es[|es| - 1]);
    }
  }

  /** The count is right exactly up to one ring of unread bytes, or when the caller wanted no more. */
  lemma CountExact(start: nat, capacity: nat, seen: nat, n: nat, size: nat)
    requires 0 < size && Counted(start, capacity, seen, n, size)
    ensures n == Min(seen - start, capacity) <==> seen - start <= size || capacity <= Residue(seen - start, size)
  {
    var unread := seen - start;
    if unread < size {
      ModUnique(unread, size, 0, unread);
    } else if unread == size {
      ModUnique(unread, size, 1, 0);
    } else {
      assert 0 <= unread % size < size;
    }
  }

  /** Under every interleaving: a byte of a finished read is the byte at its stream position exactly
      when the writer had not filled past that position plus the ring size at the moment of the copy;
      and the read takes all that was unread and fits exactly when, at the load of `wp`, no more was
      unread than the ring holds, or the caller wanted no more than the residue of it. */
  lemma {:induction false} RaceExact(s0: State, es: seq<Event>, r: Record)
    requires Initial(s0) && r in Run(s0, es).finished
    ensures |r.fronts| == |r.out|
    ensures forall i :: 0 <= i < |r.out| ==>
              (r.out[i] == r.start + i <==> r.fronts[i] <= r.start + i + Size(s0))
    ensures |r.out| == Min(r.seen - r.start, r.capacity)
            <==> r.seen - r.start <= Size(s0) || r.capacity <= Residue(r.seen - r.start, Size(s0))
  {
    RunOk(s0, es);
    CountExact(r.start, r.capacity, r.seen, |r.out|, Size(s0));
  }

  /** A read that ends before the writer has filled past its start by more than the ring is whole. */
  lemma {:induction false} UnlappedReadWhole(s0: State, es: seq<Event>, r: Record)
    requires Initial(s0) && r in Run(s0, es).finished && Run(s0, es).front <= r.start + Size(s0)
    ensures forall i :: 0 <= i < |r.out| ==> r.out[i] == r.start + i
  {
    RunOk(s0, es);
    RaceExact(s0, es, r);
  }

  /** A read none of whose cells the writer had lapped when they were copied. */
  ghost predicate Unlapped(r: Record, size: nat) {
    |r.fronts| == |r.out| && forall i :: 0 <= i < |r.fronts| ==> r.fronts[i] <= r.start + i + size
  }

  /** Reads that were not lapped return stream positions in increasing order, none of them twice, however
      writes and reads interleave. */
  lemma {:induction false} UnlappedReadsInOrder(s0: State, es: seq<Event>, k: nat, l: nat, i: nat, j: nat)
    requires Initial(s0)
    requires var f := Run(s0, es).finished;
             && k <= l < |f| && Unlapped(f[k], Size(s0)) && Unlapped(f[l], Size(s0))
             && i < |f[k].out| && j < |f[l].out| && (k < l || i < j)
    ensures Run(s0, es).finished[k].out[i] < Run(s0, es).finished[l].out[j]
  {
    var f := Run(s0, es).finished;
    RunOk(s0, es);
    RaceExact(s0, es, f[k]);
    RaceExact(s0, es, f[l]);
  }

  /** One more event at the end of a run. */
  lemma Extend(s0: State, s: State, es: seq<Event>, e: Event) returns (s': State, longer: seq<Event>)
    requires 0 < Size(s0) < WORD && s == Run(s0, es)
    ensures longer == es + [e] && s' == Next(s, e) == Run(s0, longer)
  {
    longer := es + [e];
    assert longer[..|longer| - 1] == es;
    s' := Next(s, e);
  }

  /** A write of one byte into a one-byte ring, from start to publication. */
  lemma WriteOne(s0: State, s: State, es: seq<Event>) returns (s': State, longer: seq<Event>)
    requires 0 < Size(s0) < WORD && s == Run(s0, es)
    requires |s.cells| == 1 && s.writer == WIdle && s.front == s.written < s.consumed + WORD - 1
    ensures s' == s.(cells := [s.written], written := s.written + 1, front := s.written + 1)
    ensures s' == Run(s0, longer)
  {
    s', longer := Extend(s0, s, es, StartWrite(1));
    s', longer := Extend(s0, s', longer, StepWriter);
    assert s.cells[0 := s.written] == [s.written];
    s', longer := Extend(s0, s', longer, StepWriter);
  }

  /** The reader of a one-byte ring from its pointer load to its end, undisturbed. */
  lemma ReadOne(s0: State, s: State, es: seq<Event>) returns (s': State, longer: seq<Event>)
    requires 0 < Size(s0) < WORD && s == Run(s0, es)
    requires |s.cells| == 1 && s.reader == LoadTx(1) && s.consumed < s.written < s.consumed + WORD
    ensures s' == s.(consumed := s.consumed + 1, reader := RIdle, finished := s.finished
                       + [Record(s.consumed, 1, s.written, [s.cells[0]], [s.front])])
    ensures s' == Run(s0, longer)
  {
    s', longer := Extend(s0, s, es, StepReader);
    ModDistinct(s.consumed, s.written, WORD);
    AvailableIs(s.written % WORD, s');
    s', longer := Extend(s0, s', longer, StepReader);
    assert s'.reader == Copy(1, s.written, 1, [], []);
    s', longer := Extend(s0, s', longer, StepReader);
    assert s'.reader.out == [s.cells[0]] && s'.reader.fronts == [s.front];
    s', longer := Extend(s0, s', longer, StepReader);
  }

  /** The in-order promise fails under a race: a write that lands between the reader's overflow check and
      its pointer load makes two successive reads return the same byte, the first in place of an older one. */
  lemma {:induction false} RaceDuplicates() returns (s0: State, es: seq<Event>)
    ensures Initial(s0) && Size(s0) == 1
    ensures var f := Run(s0, es).finished;
            |f| == 2 && f[0].start == 0 && f[0].out == [1] && f[1].start == 1 && f[1].out == [1]
  {
    s0 := State([-1], 0, 0, 0, WIdle, RIdle, []);
    var s := s0;
    s, es := WriteOne(s0, s, []);
    s, es := Extend(s0, s, es, StartRead(1));
    s, es := Extend(s0, s, es, StepReader);
    s, es := WriteOne(s0, s, es);
    s, es := ReadOne(s0, s, es);
    s, es := Extend(s0, s, es, StartRead(1));
    s, es := Extend(s0, s, es, StepReader);
    s, es := ReadOne(s0, s, es);
  }
}
