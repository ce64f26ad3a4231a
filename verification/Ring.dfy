/** The byte ring of `aoc_ipc_core.c`: 32-bit counters `tx`/`rx`, ring pointers `wp`/`rp` and a byte
    array, refining an unbounded byte stream (everything ever written) and the number of its bytes
    the reader is done with. */
module RingStream {
  import opened Words

  /** `log` is every byte written so far, `consumed` how far the reader has got. */
  datatype Stream = Stream(log: seq<byte>, consumed: nat)
  {
    ghost predicate Ok() {
      consumed <= |log|
    }

    function Unread(): int {
      |log| - consumed
    }

    /** What a flush down to `leave` bytes skips. */
    function Skipped(size: nat, leave: nat): int {
      Unread() - Min(leave, Min(size, Unread()))
    }

    /** Stream position of the oldest byte a ring of `size` bytes can still deliver. */
    function Oldest(size: nat): int {
      Max(consumed, |log| - size)
    }
  }

  datatype Op =
    | Write(data: seq<byte>)
    | Read(capacity: nat)
    | Flush(leave: nat)
    | Advance(amount: nat)
    | Reset(stale: seq<byte>)

  /** What a read delivers: the bytes and the stream position of the first one. */
  datatype Piece = Piece(start: nat, data: seq<byte>)
  {
    function End(): nat { start + |data| }
  }

  function ReadPiece(s: Stream, size: nat, capacity: nat): (p: Piece)
    requires s.Ok()
    ensures p.start == s.Oldest(size) && p.End() <= |s.log|
  {
    var start := s.Oldest(size);
    Piece(start, s.log[start..start + Min(capacity, |s.log| - start)])
  }

  /** One operation on the stream; a read also yields a piece. */
  function Apply(s: Stream, size: nat, op: Op): (r: (Stream, seq<Piece>))
    requires s.Ok()
    ensures r.0.Ok()
    ensures s.log <= r.0.log && s.consumed <= r.0.consumed
  {
    match op
    case Write(data) => (s.(log := s.log + data), [])
    case Read(capacity) =>
      var p := ReadPiece(s, size, capacity);
      (s.(consumed := p.End()), [p])
    case Flush(leave) =>
      (s.(consumed := s.consumed + s.Skipped(size, leave)), [])
    case Advance(amount) =>
      (s.(consumed := s.consumed + Min(amount, Min(size, s.Unread()))), [])
    case Reset(stale) => (s.(log := s.log + stale), [])
  }
}

module Ring {
  import opened Words
  import opened RingStream

  /** `_region_advance_rx` computes the new read pointer in u32 arithmetic. That is the true ring
      position exactly when the sum does not overflow, or the size divides 2^32. */
  lemma {:induction false} PointerExact(consumed: nat, amount: u32, size: u32)
    requires 0 < size
    ensures Add32(consumed % size, amount) % size == (consumed + amount) % size
            <==> (consumed % size + amount < WORD || WORD % size == 0)
  {
    var x := consumed % size + amount;
    ModAdd(consumed, amount, size);
    if x < WORD {
      ModUnique(x, WORD, 0, x);
    } else {
      ModUnique(x, WORD, 1, x - WORD);
      ModShift(x, WORD, size);
    }
  }

  /** The cells hold the newest bytes of the log, each at its stream position modulo the ring size. */
  ghost predicate Holds<T>(cells: seq<T>, log: seq<T>) {
    && 0 < |cells|
    && forall p :: 0 <= p < |log| && |log| - |cells| <= p ==> cells[p % |cells|] == log[p]
  }

  /** The cell `i` places after cell `at`, going round the end. */
  function Around(at: nat, i: nat, size: nat): int {
    if at + i < size then at + i else at + i - size
  }

  /** What `n` cells from `at` on hold, going round the end. */
  function Ahead<T>(cells: seq<T>, at: nat, n: nat): seq<T>
    requires at < |cells| && n <= |cells|
  {
    seq(n, i requires 0 <= i < n => cells[Around(at, i, |cells|)])
  }

  /** The ring is read back: the cells from a position still held are the log from that position. */
  lemma ReadOut<T>(cells: seq<T>, log: seq<T>, start: nat, n: nat)
    requires Holds(cells, log) && |log| - |cells| <= start && start + n <= |log|
    ensures Ahead(cells, start % |cells|, n) == log[start..start + n]
  {
    forall i | 0 <= i < n
      ensures cells[Around(start % |cells|, i, |cells|)] == log[start + i]
    {
      ModStep(start, i, |cells|);
      assert Around(start % |cells|, i, |cells|) == (start + i) % |cells|;
    }
  }

  /** Filling the cells after the write pointer with `src` and nothing else appends `src` to the log held. */
  lemma WriteIn<T>(before: seq<T>, after: seq<T>, log: seq<T>, src: seq<T>)
    requires Holds(before, log) && |after| == |before| && |src| <= |before|
    requires Filled(before, after, |log| % |before|, src)
    ensures Holds(after, log + src)
  {
    var size, t := |before|, |log|;
    forall p | 0 <= p < t + |src| && t + |src| - size <= p
      ensures after[p % size] == (log + src)[p]
    {
      if p < t {
        var j, wp := p % size, t % size;
        var i := if j >= wp then j - wp else j - wp + size;
        ModStep(t, i, size);
        if i < |src| {
          ModDistinct(p, t + i, size);
        }
        assert Around(wp, i, size) == j;
      } else {
        ModStep(t, p - t, size);
        assert Around(t % size, p - t, size) == p % size;
      }
    }
  }

  /** `after` is `before` with `src` put into the cells from `wp` on, going round the end. */
  ghost predicate Filled<T>(before: seq<T>, after: seq<T>, wp: nat, src: seq<T>)
    requires |after| == |before| && wp < |before| && |src| <= |before|
  {
    forall i :: 0 <= i < |before| ==>
      after[Around(wp, i, |before|)] == if i < |src| then src[i] else before[Around(wp, i, |before|)]
  }

  /** Publishing the cells from the write pointer to the end appends what they hold already. */
  lemma ResetHolds(cells: seq<byte>, log: seq<byte>)
    requires Holds(cells, log)
    ensures Holds(cells, log + cells[|log| % |cells|..])
    ensures (|log + cells[|log| % |cells|..]|) % |cells| == 0
  {
    var wp := |log| % |cells|;
    ModStep(|log|, |cells| - wp, |cells|);
    WriteIn(cells, cells, log, cells[wp..]);
  }

  /** `_region_advance_tx` on a ring below 2^31 bytes: neither sum loses anything. */
  lemma PublishExact(written: nat, amount: u32, size: u32)
    requires 0 < size < 0x8000_0000 && amount <= size
    ensures Add32(written % WORD, amount) == (written + amount) % WORD
    ensures Add32(written % size, amount) % size == (written + amount) % size
  {
    ModAdd(written, amount, WORD);
    PointerExact(written, amount, size);
  }

  /** The reader's byte count, taken from the pointers and, when they meet, from the counters. */
  function PointerAvailable(tx: u32, rx: u32, wp: u32, rp: u32, size: u32): nat
    requires wp < size && rp < size
  {
    if wp > rp then wp - rp
    else if wp < rp then wp + size - rp
    else if tx == rx then 0
    else size
  }

  /** For counters less than 2^32 apart the pointers give the unread count reduced modulo the size,
      a whole ring in place of a positive multiple: the true count exactly up to one ring. */
  lemma {:induction false} AvailableExact(t: nat, r: nat, size: u32)
    requires r <= t && t - r < WORD && 0 < size
    ensures var a := PointerAvailable(t % WORD, r % WORD, t % size, r % size, size);
            && (a == t - r <==> t - r <= size)
            && (a == if t != r && (t - r) % size == 0 then size else (t - r) % size)
  {
    DeltaExact(t, r);
    var rest := (t - r) % size;
    assert t - r == ((t - r) / size) * size + rest;
    ModAdd(t - r, r, size);
    assert (rest + r) % size == t % size;
    ModStep(r, rest, size);
    if t - r < size {
      ModUnique(t - r, size, 0, t - r);
    } else if t - r == size {
      ModUnique(t - r, size, 1, 0);
    }
  }

  class Ring {
    const size: u32
    const slots: u32
    const buf: array<byte>
    var tx: u32
    var rx: u32
    var wp: u32
    var rp: u32
    ghost var stream: Stream

    /** The counters and the write pointer follow the stream. */
    ghost predicate Counters()
      reads this
    {
      && stream.Ok() && stream.Unread() < WORD
      && 0 < size < 0x8000_0000
      && buf.Length == size
      && tx == |stream.log| % WORD
      && rx == stream.consumed % WORD
      && wp == |stream.log| % size && rp < size
    }

    ghost predicate Valid()
      reads this, buf
    {
      && Counters()
      && Holds(buf[..], stream.log)
      && rp == stream.consumed % size
    }

    constructor (size: u32, slots: u32)
      requires 0 < size < 0x8000_0000
      ensures Valid() && fresh(buf) && stream == Stream([], 0)
      ensures this.size == size && this.slots == slots
    {
      this.size, this.slots := size, slots;
      buf := new byte[size];
      tx, rx, wp, rp := 0, 0, 0, 0;
      stream := Stream([], 0);
    }

    /** `_region_advance_tx`, publishing `data` that the array already holds. */
    method AdvanceTx(amount: u32, ghost data: seq<byte>)
      requires Counters() && amount == |data| <= size
      requires stream.Unread() + amount < WORD
      modifies this`tx, this`wp, this`stream
      ensures stream == old(stream).(log := old(stream).log + data)
      ensures Counters()
    {
      PublishExact(|stream.log|, amount, size);
      var updatedTx, updatedWp := Add32(tx, amount), Add32(wp, amount) % size;
      tx, wp := updatedTx, updatedWp;
      stream := stream.(log := stream.log + data);
    }

    /** `_region_advance_rx`: the pointer is right exactly when its sum fits u32 or the size divides 2^32. */
    method AdvanceRx(amount: u32)
      requires Valid() && amount <= stream.Unread()
      modifies this`rx, this`rp, this`stream
      ensures stream == old(stream).(consumed := old(stream).consumed + amount)
      ensures Counters() && Holds(buf[..], stream.log)
      ensures rp == Add32(old(rp), amount) % size
      ensures Valid() <==> old(rp) + amount < WORD || WORD % size == 0
    {
      PointerExact(stream.consumed, amount, size);
      ModAdd(stream.consumed, amount, WORD);
      rx, rp := Add32(rx, amount), Add32(rp, amount) % size;
      stream := stream.(consumed := stream.consumed + amount);
    }

    /** `aoc_ring_bytes_available_to_read`. */
    method BytesAvailableToRead() returns (n: nat)
      requires Valid()
      ensures n == Min(stream.Unread(), size)
    {
      DeltaExact(|stream.log|, stream.consumed);
      var difference := Delta(tx, rx);
      n := if difference > size then size else difference;
    }

    /** `aoc_ring_did_overflow`: some unread byte has been overwritten. */
    method DidOverflow() returns (lost: bool)
      requires Valid()
      ensures lost <==> stream.consumed < stream.Oldest(size)
    {
      DeltaExact(|stream.log|, stream.consumed);
      lost := Delta(tx, rx) > size;
    }

    /** `_aoc_ring_reader_sync_offset`, also `aoc_ring_flush_read_data`: skip to the newest bytes. */
    method SyncOffset(leave: nat)
      requires Valid()
      modifies this`rx, this`rp, this`stream
      ensures stream == Apply(old(stream), size, Flush(leave)).0
      ensures stream.Unread() == Min(leave, Min(size, old(stream).Unread()))
      ensures Counters() && Holds(buf[..], stream.log)
      ensures rp == Add32(old(rp), old(stream.Skipped(size, leave))) % size
      ensures Valid() <==> old(rp + stream.Skipped(size, leave)) < WORD || WORD % size == 0
      ensures old(stream).Unread() + size <= WORD || leave >= size ==> Valid()
    {
      DeltaExact(|stream.log|, stream.consumed);
      var delta, toLeave := Delta(tx, rx), leave;
      if toLeave > size {
        toLeave := size;
      }
      if delta < toLeave {
        toLeave := delta;
      }
      AdvanceRx(delta - toLeave);
    }

    /** The copies of `_aoc_ring_read_buffer`: two when the piece runs over the end of the array. */
    method CopyOut(dest: array<byte>, n: nat)
      requires buf.Length == size && rp < size && n <= size && n <= dest.Length && dest != buf
      modifies dest
      ensures dest[..n] == Ahead(buf[..], rp, n)
      ensures dest[n..] == old(dest[n..])
    {
      if rp + n <= size {
        forall i | 0 <= i < n { dest[i] := buf[rp + i]; }
      } else {
        var partial := size - rp;
        forall i | 0 <= i < partial { dest[i] := buf[rp + i]; }
        forall i | partial <= i < n { dest[i] := buf[i - partial]; }
      }
    }

    /** The part of `_aoc_ring_read_buffer` before the copies: skip what was overwritten, then count. */
    method CatchUp() returns (available: nat)
      requires Valid()
      modifies this`rx, this`rp, this`stream
      ensures Valid()
      ensures stream == old(stream).(consumed := old(stream).Oldest(size))
      ensures available == stream.Unread() <= size
    {
      DeltaExact(|stream.log|, stream.consumed);
      available := Delta(tx, rx);
      if available > size {
        SyncOffset(size);
      }
      AvailableExact(|stream.log|, stream.consumed, size);
      available := PointerAvailable(tx, rx, wp, rp, size);
    }

    /** `_aoc_ring_read_buffer`: the piece still held that is oldest, cut to the destination. */
    method ReadBuffer(dest: array<byte>) returns (n: nat, ghost p: Piece)
      requires Valid() && dest != buf
      modifies this`rx, this`rp, this`stream, dest
      ensures Valid()
      ensures p == ReadPiece(old(stream), size, dest.Length) && n == |p.data|
      ensures n == Min(dest.Length, Min(old(stream).Unread(), size))
      ensures stream == old(stream).(consumed := p.start)
      ensures dest[..n] == p.data && dest[n..] == old(dest[n..])
    {
      p := ReadPiece(stream, size, dest.Length);
      var available := CatchUp();
      n := if available > dest.Length then dest.Length else available;
      ReadOut(buf[..], stream.log, stream.consumed, n);
      CopyOut(dest, n);
    }

    /** `aoc_service_read_message` on a ring. */
    method ReadMessage(dest: array<byte>) returns (ok: bool, n: nat, ghost p: Piece)
      requires Valid() && dest != buf
      modifies this`rx, this`rp, this`stream, dest
      ensures Valid()
      ensures ok <==> slots != 0 && old(stream).Unread() > 0
      ensures ok ==> (stream, [p]) == Apply(old(stream), size, Read(dest.Length))
      ensures ok ==> n == |p.data| && dest[..n] == p.data && dest[n..] == old(dest[n..])
      ensures ok ==> n == Min(dest.Length, Min(old(stream).Unread(), size))
      ensures ok ==> stream.Unread() == Min(old(stream).Unread(), size) - n
      ensures !ok ==> stream == old(stream) && dest[..] == old(dest[..])
    {
      n, p := 0, Piece(0, []);
      DeltaExact(|stream.log|, stream.consumed);
      ok := slots != 0 && tx != rx;
      if ok {
        n, p := ReadBuffer(dest);
        AdvanceRx(n);
      }
    }

    /** `_aoc_ring_write_buffer`: the copy into the array, before anything is published. */
    method WriteBuffer(src: seq<byte>) returns (n: nat)
      requires buf.Length == size && wp < size
      modifies buf
      ensures n == Min(|src|, size)
      ensures Filled(old(buf[..]), buf[..], wp, src[..n])
    {
      n := if |src| > size then size else |src|;
      if wp + n <= size {
        forall i | 0 <= i < n { buf[wp + i] := src[i]; }
      } else {
        var partial := size - wp;
        forall i | 0 <= i < partial { buf[wp + i] := src[i]; }
        forall i | partial <= i < n { buf[i - partial] := src[i]; }
      }
    }

    /** `aoc_service_write_message` on a ring. Unread bytes may be overwritten; the source relies on
        fewer than 2^32 of them. The read pointer plays no part. */
    method WriteMessage(src: seq<byte>) returns (ok: bool)
      requires Counters() && Holds(buf[..], stream.log)
      requires |src| <= size ==> stream.Unread() + |src| < WORD
      modifies this`tx, this`wp, this`stream, buf
      ensures Counters() && Holds(buf[..], stream.log)
      ensures old(Valid()) ==> Valid()
      ensures ok <==> slots != 0 && |src| <= size
      ensures ok ==> stream == Apply(old(stream), size, Write(src)).0 == old(stream).(log := old(stream).log + src)
      ensures !ok ==> stream == old(stream) && buf[..] == old(buf[..])
    {
      ok := slots != 0 && |src| <= size;
      if ok {
        var n := WriteBuffer(src);
        WriteIn(old(buf[..]), buf[..], stream.log, src);
        AdvanceTx(n, src);
      }
    }

    /** `aoc_service_advance_write_index` on a ring: publishes what the cells after the write pointer
        hold, up to a whole ring. */
    method AdvanceWriteIndex(amount: u32) returns (ok: bool, ghost data: seq<byte>)
      requires Valid() && (amount <= size ==> stream.Unread() + amount < WORD)
      modifies this`tx, this`wp, this`stream
      ensures Valid()
      ensures ok <==> amount <= size
      ensures ok ==> data == Ahead(buf[..], old(wp), amount)
      ensures ok ==> stream == Apply(old(stream), size, Write(data)).0 == old(stream).(log := old(stream).log + data)
      ensures !ok ==> stream == old(stream)
    {
      ok, data := amount <= size, [];
      if ok {
        data := Ahead(buf[..], wp, amount);
        WriteIn(buf[..], buf[..], stream.log, data);
        AdvanceTx(amount, data);
      }
    }

    /** `aoc_service_advance_read_index` on a ring. */
    method AdvanceReadIndex(amount: u32) returns (all: bool)
      requires Valid()
      modifies this`rx, this`rp, this`stream
      ensures Valid() && stream == Apply(old(stream), size, Advance(amount)).0
      ensures old(stream).Unread() - stream.Unread() == Min(amount, Min(old(stream).Unread(), size))
      ensures all <==> amount <= Min(old(stream).Unread(), size)
    {
      var available := BytesAvailableToRead();
      var toAdvance := if available < amount then available else amount;
      AdvanceRx(toAdvance);
      all := toAdvance == amount;
    }

    /** `aoc_ring_reset_write_pointer`: publishes the stale bytes from the write pointer to the end. */
    method ResetWritePointer()
      requires Valid() && stream.Unread() + size - wp < WORD
      modifies this`tx, this`wp, this`stream
      ensures Valid() && wp == 0
      ensures stream == Apply(old(stream), size, Reset(buf[old(wp)..])).0
      ensures stream.Unread() == old(stream).Unread() + size - old(wp)
    {
      var remaining := size - wp;
      ResetHolds(buf[..], stream.log);
      AdvanceTx(remaining, buf[wp..]);
    }
  }
}
