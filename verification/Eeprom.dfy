/** The battery EEPROM (`google_eeprom.c`, `google_eeprom_01.c`): where each tag lives in the two layouts,
    reads and writes of tags and history entries, and the migration of the history to the V1 layout. */
module Eeprom {
  import opened Words
  import opened Errno

  const EEPROM_SIZE: int := 0x400
  const LOTR_OFFSET: int := 0x59
  const HIST_OFFSET: int := 0x5E
  const HIST_OFFSET_V1: int := 0x64
  const ONE_HIST_LEN: int := 12
  const MAX_HIST_CNT: int := 75
  const INIT_LEN: int := 5
  const ERASED: byte := 0xFF
  const LOTR_DEFAULT: byte := 0xFF
  const LOTR_V1: byte := 1

  datatype Layout = Default | V1

  datatype Tag =
    | MINF | DINF | HIST | SNUM | BGPN | GMSR | BCNT | CNHS | LOTR | SELC | CELC | STRD | ACIM | GCFE | RAVG
    | RFCN | THAS | AYMD | MYMD | FCRU | FGST | BPST | AAWC

  /** Where a tag is kept; absent if the layout does not have it. */
  datatype Place = Nowhere | At(addr: nat, count: nat)

  /** `gbee_storage_info`, and `gbee_storage01_info` in front of it for the V1 layout. */
  function Info(layout: Layout, tag: Tag): (p: Place)
    ensures p.At? ==> 0 < p.count && p.addr + p.count <= EEPROM_SIZE
  {
    if layout == V1 && tag == BPST then At(0x5E, 1)
    else if layout == V1 && tag == HIST then At(HIST_OFFSET_V1, ONE_HIST_LEN)
    else
      match tag
      case MINF => At(0x00, 30)
      case DINF => At(0x3EE, 16)
      case HIST => At(HIST_OFFSET, ONE_HIST_LEN)
      case SNUM => At(0x03, 10)
      case BGPN => At(0x03, 10)
      case GMSR => At(0x42, 23)
      case BCNT => At(0x2E, 20)
      case CNHS => At(0x5A, 2)
      case LOTR => At(LOTR_OFFSET, 1)
      case SELC => At(0x5C, 1)
      case CELC => At(0x5D, 1)
      case STRD => At(0x1E, 12)
      case ACIM => At(0x2C, 2)
      case GCFE => At(0x3E8, 2)
      case RAVG => At(0x3EA, 2)
      case RFCN => At(0x3EC, 2)
      case THAS => At(0x3FE, 2)
      case AYMD => At(0x3E5, 3)
      case MYMD => At(0x0F, 3)
      case FCRU => At(0x3E2, 2)
      case FGST => At(0x3E4, 1)
      case BPST => Nowhere
      case AAWC => Nowhere
  }

  predicate Writable(tag: Tag) {
    tag in {DINF, GMSR, BCNT, CNHS, SELC, CELC, BPST, STRD, ACIM, GCFE, RAVG, RFCN, THAS, AYMD, FGST, FCRU, AAWC}
  }

  /** First byte of history entry `i`. */
  function HistAt(layout: Layout, i: nat): nat {
    (if layout == V1 then HIST_OFFSET_V1 else HIST_OFFSET) + ONE_HIST_LEN * i
  }

  predicate Overlap(a: int, n: int, b: int, m: int) {
    a < b + m && b < a + n
  }

  /** Writing a writable tag never disturbs another tag, in either layout. */
  lemma TagsDisjoint(layout: Layout, tag: Tag, other: Tag)
    requires Writable(tag) && other != tag && other != HIST
    ensures var p, q := Info(layout, tag), Info(layout, other);
            p.At? && q.At? ==> !Overlap(p.addr, p.count, q.addr, q.count)
  {
  }

  /** Where history entries run into writable tags: nowhere in the default layout; in V1 the last entry
      covers FCRU, FGST and AYMD. */
  lemma {:induction false} HistoryOverlapExact(layout: Layout, tag: Tag, i: nat)
    requires Writable(tag) && Info(layout, tag).At? && i < MAX_HIST_CNT
    ensures Overlap(Info(layout, tag).addr, Info(layout, tag).count, HistAt(layout, i), ONE_HIST_LEN)
            <==> layout == V1 && i == MAX_HIST_CNT - 1 && tag in {FCRU, FGST, AYMD}
  {
    var p := Info(layout, tag);
    assert p.addr + p.count <= HistAt(layout, 0) || p.addr >= HistAt(Default, MAX_HIST_CNT);
  }

  // ---------------------------------------------------------------------------------------------
  // Images

  /** The image with `bytes` put at `addr`. */
  function Put(mem: seq<byte>, addr: nat, bytes: seq<byte>): (r: seq<byte>)
    requires addr + |bytes| <= |mem|
    ensures |r| == |mem| && r[addr..addr + |bytes|] == bytes
    ensures r[..addr] == mem[..addr] && r[addr + |bytes|..] == mem[addr + |bytes|..]
  {
    mem[..addr] + bytes + mem[addr + |bytes|..]
  }

  /** Bytes away from what is put stay as they are. */
  lemma PutElsewhere(mem: seq<byte>, addr: nat, bytes: seq<byte>, lo: nat, hi: nat)
    requires addr + |bytes| <= |mem| && lo <= hi <= |mem| && (hi <= addr || addr + |bytes| <= lo)
    ensures Put(mem, addr, bytes)[lo..hi] == mem[lo..hi]
  {
  }

  /** What is put can be read back in part. */
  lemma PutPart(mem: seq<byte>, addr: nat, bytes: seq<byte>, o: nat, n: nat)
    requires addr + |bytes| <= |mem| && o + n <= |bytes|
    ensures Put(mem, addr, bytes)[addr + o..addr + o + n] == bytes[o..o + n]
  {
  }

  lemma SliceOf(mem: seq<byte>, base: nat, len: nat, o: nat, n: nat)
    requires base + len <= |mem| && o + n <= len
    ensures mem[base..base + len][o..o + n] == mem[base + o..base + o + n]
  {
    var part, whole := mem[base..base + len][o..o + n], mem[base + o..base + o + n];
    assert forall i :: 0 <= i < n ==> part[i] == whole[i];
  }

  lemma Adjacent(mem: seq<byte>, a: nat, b: nat, c: nat)
    requires a <= b <= c <= |mem|
    ensures mem[a..b] + mem[b..c] == mem[a..c]
  {
  }

  function Entry(mem: seq<byte>, layout: Layout, i: nat): seq<byte>
    requires |mem| == EEPROM_SIZE && i < MAX_HIST_CNT
  {
    mem[HistAt(layout, i)..HistAt(layout, i) + ONE_HIST_LEN]
  }

  /** Number of leading entries in use, from entry `i` on of the history that starts at `base`. */
  function Used(mem: seq<byte>, base: nat, i: nat): (k: nat)
    requires |mem| == EEPROM_SIZE && base <= HIST_OFFSET_V1 && i <= MAX_HIST_CNT
    ensures i <= k <= MAX_HIST_CNT
    decreases MAX_HIST_CNT - i
  {
    if i == MAX_HIST_CNT || mem[base + ONE_HIST_LEN * i] == ERASED then i else Used(mem, base, i + 1)
  }

  /** The used history. */
  function History(mem: seq<byte>): (h: seq<byte>)
    requires |mem| == EEPROM_SIZE
    ensures |h| == ONE_HIST_LEN * Used(mem, HIST_OFFSET, 0)
  {
    mem[HIST_OFFSET..HIST_OFFSET + ONE_HIST_LEN * Used(mem, HIST_OFFSET, 0)]
  }

  /** The first `n` bytes of the history written to the V1 place. */
  function MovedUpTo(mem: seq<byte>, n: nat): (r: seq<byte>)
    requires |mem| == EEPROM_SIZE && n <= |History(mem)|
    ensures |r| == EEPROM_SIZE
  {
    Put(mem, HIST_OFFSET_V1, History(mem)[..n])
  }

  /** The history moved to its V1 place. */
  function Moved(mem: seq<byte>): (r: seq<byte>)
    requires |mem| == EEPROM_SIZE
    ensures |r| == EEPROM_SIZE && r == Put(mem, HIST_OFFSET_V1, History(mem))
  {
    assert History(mem)[..|History(mem)|] == History(mem);
    MovedUpTo(mem, |History(mem)|)
  }

  function Zeros(n: nat): (z: seq<byte>)
    ensures |z| == n
  {
    seq(n, _ => 0)
  }

  /** The first `n` bytes of the new fields cleared. */
  function Cleared(mem: seq<byte>, n: nat): (r: seq<byte>)
    requires |mem| == EEPROM_SIZE && n <= INIT_LEN
    ensures |r| == EEPROM_SIZE
  {
    Put(mem, HIST_OFFSET, Zeros(n))
  }

  /** The history moved and the new fields cleared. */
  function Migrated(mem: seq<byte>): (r: seq<byte>)
    requires |mem| == EEPROM_SIZE
    ensures |r| == EEPROM_SIZE
  {
    Cleared(Moved(mem), INIT_LEN)
  }

  /** Clearing the fields does not touch the V1 history. */
  lemma ClearedKeeps(mem: seq<byte>, n: nat, i: nat)
    requires |mem| == EEPROM_SIZE && n <= INIT_LEN && i < MAX_HIST_CNT
    ensures Entry(Cleared(mem, n), V1, i) == Entry(mem, V1, i)
  {
    PutElsewhere(mem, HIST_OFFSET, Zeros(n), HistAt(V1, i), HistAt(V1, i) + ONE_HIST_LEN);
  }

  /** Moving keeps every used entry, although source and target overlap. */
  lemma {:induction false} MovedKeeps(mem: seq<byte>, i: nat)
    requires |mem| == EEPROM_SIZE && i < Used(mem, HIST_OFFSET, 0)
    ensures Entry(Moved(mem), V1, i) == Entry(mem, Default, i)
  {
    var o := ONE_HIST_LEN * i;
    assert o + ONE_HIST_LEN <= |History(mem)|;
    PutPart(mem, HIST_OFFSET_V1, History(mem), o, ONE_HIST_LEN);
    SliceOf(mem, HIST_OFFSET, |History(mem)|, o, ONE_HIST_LEN);
  }

  /** Migration keeps every used entry and every byte below the history, although source and target
      overlap. */
  lemma {:induction false} MigrationKeepsHistory(mem: seq<byte>, i: nat)
    requires |mem| == EEPROM_SIZE && i < Used(mem, HIST_OFFSET, 0)
    ensures Entry(Migrated(mem), V1, i) == Entry(mem, Default, i)
    ensures Migrated(mem)[..HIST_OFFSET] == mem[..HIST_OFFSET]
  {
    MovedKeeps(mem, i);
    ClearedKeeps(Moved(mem), INIT_LEN, i);
    PutElsewhere(mem, HIST_OFFSET_V1, History(mem), 0, HIST_OFFSET);
    PutElsewhere(Moved(mem), HIST_OFFSET, Zeros(INIT_LEN), 0, HIST_OFFSET);
  }

  /** The used entries are the leading ones whose first byte is not 0xFF. */
  lemma {:induction false} UsedExact(mem: seq<byte>, i: nat, from: nat)
    requires |mem| == EEPROM_SIZE && from <= i < 75
    ensures i < Used(mem, HIST_OFFSET, from) <==> forall k :: from <= k <= i ==> mem[0x5E + 12 * k] != 0xFF
    decreases i - from
  {
    if from < i {
      UsedExact(mem, i, from + 1);
    }
  }

  /** The new fields in front of the moved history are zero. */
  lemma {:induction false} NewFieldsZero(mem: seq<byte>, k: nat)
    requires |mem| == EEPROM_SIZE && 0x5E <= k < 0x63
    ensures Migrated(mem)[k] == 0
  {
    assert Migrated(mem)[k] == Migrated(mem)[HIST_OFFSET..HIST_OFFSET + INIT_LEN][k - HIST_OFFSET];
  }

  /** What every other tag reads after the migration, now in the V1 layout: what it read before, but for FCRU,
      FGST and AYMD if all 75 history entries are used. */
  lemma {:induction false} MigrationKeepsTags(mem: seq<byte>, tag: Tag)
    requires |mem| == EEPROM_SIZE && tag != HIST && Info(Default, tag).At?
    requires tag in {FCRU, FGST, AYMD} ==> exists k :: 0 <= k < 75 && mem[0x5E + 12 * k] == 0xFF
    ensures var p, q := Info(Default, tag), Info(V1, tag);
            p == q && Migrated(mem)[q.addr..q.addr + q.count] == mem[p.addr..p.addr + p.count]
  {
    var p := Info(Default, tag);
    if p.addr + p.count <= HIST_OFFSET {
      BelowKept(mem, p.addr, p.addr + p.count);
    } else {
      if tag in {FCRU, FGST, AYMD} {
        UsedExact(mem, 74, 0);
      }
      BehindKept(mem, p.addr, p.addr + p.count);
    }
  }

  lemma {:induction false} BehindKept(mem: seq<byte>, lo: nat, hi: nat)
    requires |mem| == EEPROM_SIZE && HIST_OFFSET + ONE_HIST_LEN * MAX_HIST_CNT <= lo <= hi <= EEPROM_SIZE
    requires Used(mem, HIST_OFFSET, 0) < MAX_HIST_CNT || Info(V1, GCFE).addr <= lo
    ensures Migrated(mem)[lo..hi] == mem[lo..hi]
  {
    forall j | lo <= j < hi
      ensures Migrated(mem)[j] == mem[j]
    {
      FieldsBehindHistory(mem, j);
    }
  }

  lemma BelowKept(mem: seq<byte>, lo: nat, hi: nat)
    requires |mem| == EEPROM_SIZE && lo <= hi <= HIST_OFFSET
    ensures Migrated(mem)[lo..hi] == mem[lo..hi]
  {
    PutElsewhere(mem, HIST_OFFSET_V1, History(mem), lo, hi);
    PutElsewhere(Moved(mem), HIST_OFFSET, Zeros(INIT_LEN), lo, hi);
  }

  /** What the migration does to the fields behind the history: nothing, unless all 75 entries are used;
      then FCRU, FGST and AYMD are overwritten by the end of the last entry. */
  lemma {:induction false} FieldsBehindHistory(mem: seq<byte>, j: nat)
    requires |mem| == EEPROM_SIZE && HIST_OFFSET + ONE_HIST_LEN * MAX_HIST_CNT <= j < EEPROM_SIZE
    ensures Migrated(mem)[j]
            == if Used(mem, HIST_OFFSET, 0) == MAX_HIST_CNT && j < Info(V1, GCFE).addr then mem[j - 6] else mem[j]
  {
    var history := History(mem);
    var end := HIST_OFFSET_V1 + |history|;
    if j < end {
      assert Moved(mem)[HIST_OFFSET_V1..end][j - HIST_OFFSET_V1] == history[j - HIST_OFFSET_V1];
    } else {
      assert Moved(mem)[end..][j - end] == mem[end..][j - end];
    }
  }

  /** A byte of the V1 history after a move that stored `n` bytes: the moved one, or what was there. */
  lemma {:induction false} MovedByte(mem: seq<byte>, n: nat, o: nat)
    requires |mem| == EEPROM_SIZE && n <= |History(mem)| && o < ONE_HIST_LEN * MAX_HIST_CNT
    ensures MovedUpTo(mem, n)[HIST_OFFSET_V1 + o] == if o < n then mem[HIST_OFFSET + o] else mem[HIST_OFFSET_V1 + o]
  {
    assert o < n ==> History(mem)[..n][o] == mem[HIST_OFFSET + o];
  }

  /** How many bytes of entry `i` are among the first `n` of the history. */
  function Reached(n: nat, i: nat): (k: nat)
    ensures k <= ONE_HIST_LEN
  {
    Max(0, Min(n - ONE_HIST_LEN * i, ONE_HIST_LEN))
  }

  /** The bytes of entry `i` beyond the first `n` of the history are at its V1 place already. */
  predicate InPlace(mem: seq<byte>, n: nat, i: nat)
    requires |mem| == EEPROM_SIZE && i < MAX_HIST_CNT
  {
    Entry(mem, V1, i)[Reached(n, i)..] == Entry(mem, Default, i)[Reached(n, i)..]
  }

  lemma {:induction false} MovedEntry(mem: seq<byte>, n: nat, i: nat)
    requires |mem| == EEPROM_SIZE && n <= |History(mem)| && i < MAX_HIST_CNT
    ensures Entry(MovedUpTo(mem, n), V1, i)
            == Entry(mem, Default, i)[..Reached(n, i)] + Entry(mem, V1, i)[Reached(n, i)..]
  {
    var e := Entry(mem, Default, i)[..Reached(n, i)] + Entry(mem, V1, i)[Reached(n, i)..];
    forall j | 0 <= j < ONE_HIST_LEN
      ensures Entry(MovedUpTo(mem, n), V1, i)[j] == e[j]
    {
      MovedByte(mem, n, ONE_HIST_LEN * i + j);
    }
  }

  /** A move that stores only `n` bytes of the history and reports no error is taken for a whole one. A used
      entry survives that exactly if the bytes of it that were not stored are in place already. */
  lemma {:induction false} ShortMoveExact(mem: seq<byte>, n: nat, i: nat)
    requires |mem| == EEPROM_SIZE && n <= |History(mem)| && i < Used(mem, HIST_OFFSET, 0)
    ensures Entry(Cleared(MovedUpTo(mem, n), INIT_LEN), V1, i) == Entry(mem, Default, i) <==> InPlace(mem, n, i)
  {
    ClearedKeeps(MovedUpTo(mem, n), INIT_LEN, i);
    MovedEntry(mem, n, i);
    var e, k := Entry(mem, Default, i), Reached(n, i);
    assert e == e[..k] + e[k..];
    assert (e[..k] + Entry(mem, V1, i)[k..])[k..] == Entry(mem, V1, i)[k..];
  }

  /** Entries of the V1 history beyond those moved stay as they are. */
  lemma {:induction false} BeyondMoved(mem: seq<byte>, i: nat)
    requires |mem| == EEPROM_SIZE && Used(mem, HIST_OFFSET, 0) <= i < MAX_HIST_CNT
    ensures Entry(Migrated(mem), V1, i) == Entry(mem, V1, i)
  {
    ClearedKeeps(Moved(mem), INIT_LEN, i);
    PutElsewhere(mem, HIST_OFFSET_V1, History(mem), HistAt(V1, i), HistAt(V1, i) + ONE_HIST_LEN);
  }

  /** If clearing the fields fails after the move, the layout mark stays and the next start migrates again.
      An entry survives that exactly if the second migration does not reach it, or its bytes are also those
      six places before it. */
  lemma {:induction false} RetryExact(mem: seq<byte>, n: nat, i: nat)
    requires |mem| == EEPROM_SIZE && n <= INIT_LEN && i < Used(mem, HIST_OFFSET, 0)
    ensures var again := Cleared(Moved(mem), n);
            Entry(Migrated(again), V1, i) == Entry(mem, Default, i)
            <==> i >= Used(again, HIST_OFFSET, 0) || Entry(again, Default, i) == Entry(again, V1, i)
  {
    var again := Cleared(Moved(mem), n);
    MovedKeeps(mem, i);
    ClearedKeeps(Moved(mem), n, i);
    if i < Used(again, HIST_OFFSET, 0) {
      MigrationKeepsHistory(again, i);
    } else {
      BeyondMoved(again, i);
    }
  }

  /** With no field cleared, the first entry survives exactly when its two halves are the same. */
  lemma {:induction false} RetryFirst(mem: seq<byte>)
    requires |mem| == EEPROM_SIZE && Used(mem, HIST_OFFSET, 0) > 0
    ensures Entry(Migrated(Moved(mem)), V1, 0) == Entry(mem, Default, 0)
            <==> Entry(mem, Default, 0)[..6] == Entry(mem, Default, 0)[6..]
  {
    var again, history := Moved(mem), History(mem);
    assert again[..HIST_OFFSET_V1][HIST_OFFSET] == mem[HIST_OFFSET];
    assert Used(again, HIST_OFFSET, 0) > 0;
    MigrationKeepsHistory(again, 0);
    assert again[HIST_OFFSET..HIST_OFFSET_V1] == again[..HIST_OFFSET_V1][HIST_OFFSET..]
           == mem[HIST_OFFSET..HIST_OFFSET_V1];
    assert again[HIST_OFFSET_V1..HIST_OFFSET_V1 + 6] == history[..6];
    var e := Entry(mem, Default, 0);
    assert Entry(again, Default, 0) == again[HIST_OFFSET..HIST_OFFSET_V1] + again[HIST_OFFSET_V1..HIST_OFFSET_V1 + 6];
    assert history[..6] == e[..6] && mem[HIST_OFFSET..HIST_OFFSET_V1] == e[..6];
    assert Entry(again, Default, 0) == e[..6] + e[..6];
    assert e == e[..6] + e[6..];
  }

  /** One used entry with different halves, which the second migration loses. */
  lemma RetryLoses() returns (mem: seq<byte>)
    ensures |mem| == EEPROM_SIZE && Used(mem, HIST_OFFSET, 0) == 1
    ensures Entry(Migrated(Moved(mem)), V1, 0) != Entry(mem, Default, 0)
  {
    mem := seq(EEPROM_SIZE, i => if i < HIST_OFFSET + 6 then 1 else if i < HIST_OFFSET + 12 then 2 else ERASED);
    assert mem[HIST_OFFSET + ONE_HIST_LEN] == ERASED && Used(mem, HIST_OFFSET, 1) == 1;
    RetryFirst(mem);
    var e := Entry(mem, Default, 0);
    assert e[..6][0] == 1 && e[6..][0] == 2;
  }

  // ---------------------------------------------------------------------------------------------
  // The device

  /** What a device write returns, and how many bytes it had stored if that is an error. */
  datatype Write = Write(rc: int, done: nat)
  {
    /** How many of `n` bytes are stored. */
    function Count(n: nat): nat {
      Min(if rc >= 0 then rc else done, n)
    }
  }

  /** What can go wrong in a migration: the read of the layout mark, the allocation, each history read, and
      the three writes. */
  datatype Faults = Faults(lotrRc: int, room: bool, read: nat -> int, move: Write, init: Write, mark: Write)
  {
    ghost predicate ReadsWork(n: nat) {
      forall k :: 0 <= k < n ==> read(k) >= 0
    }

    /** Nothing goes wrong before the write of the history. */
    ghost predicate Starts() {
      lotrRc >= 0 && room && forall k :: read(k) >= 0
    }
  }

  /** How many history reads a move makes: one past the used entries, unless all are used. */
  function Reads(mem: seq<byte>): nat
    requires |mem| == EEPROM_SIZE
  {
    Min(Used(mem, HIST_OFFSET, 0) + 1, MAX_HIST_CNT)
  }

  /** The first `i` reads were good and found entries in use. */
  ghost predicate ReadSoFar(mem: seq<byte>, f: Faults, i: nat)
    requires |mem| == EEPROM_SIZE && i <= MAX_HIST_CNT
  {
    Used(mem, HIST_OFFSET, 0) == Used(mem, HIST_OFFSET, i) && f.ReadsWork(i)
  }

  /** The next read fails, or it ends the history, or the history goes on. */
  lemma {:induction false} ReadStep(mem: seq<byte>, f: Faults, i: nat)
    requires |mem| == EEPROM_SIZE && i < MAX_HIST_CNT && ReadSoFar(mem, f, i)
    ensures if f.read(i) < 0 then !f.ReadsWork(Reads(mem))
            else if mem[HistAt(Default, i)] == ERASED then i == Used(mem, HIST_OFFSET, 0) && f.ReadsWork(Reads(mem))
            else ReadSoFar(mem, f, i + 1)
  {
  }

  /** The read loop of `gbms_hist_move`: the used entries, or the error of the first read that fails. */
  method ReadUsed(mem: seq<byte>, f: Faults) returns (r: int, index: nat, buff: seq<byte>)
    requires |mem| == EEPROM_SIZE
    ensures r < 0 <==> !f.ReadsWork(Reads(mem))
    ensures r >= 0 ==> index == Used(mem, HIST_OFFSET, 0)
    ensures r >= 0 ==> buff == History(mem)
  {
    var from := HIST_OFFSET;
    r, index, buff := 0, 0, [];
    while index < MAX_HIST_CNT
      invariant 0 <= index <= MAX_HIST_CNT && from == HistAt(Default, index) && r >= 0
      invariant buff == mem[HIST_OFFSET..from]
      invariant ReadSoFar(mem, f, index)
    {
      ReadStep(mem, f, index);
      r := f.read(index);
      if r < 0 {
        return;
      }
      if mem[from] == ERASED {
        return;
      }
      Adjacent(mem, HIST_OFFSET, from, from + ONE_HIST_LEN);
      buff := buff + mem[from..from + ONE_HIST_LEN];
      from, index := from + ONE_HIST_LEN, index + 1;
    }
  }

  class Device {
    const data: array<byte>

    ghost predicate Valid() {
      data.Length == EEPROM_SIZE
    }

    constructor (image: seq<byte>)
      requires |image| == EEPROM_SIZE
      ensures Valid() && data[..] == image && fresh(data)
    {
      data := new byte[EEPROM_SIZE](i requires 0 <= i < EEPROM_SIZE => image[i]);
    }

    /** `nvmem_device_write`, as far as it gets. */
    method Store(addr: nat, bytes: seq<byte>)
      requires Valid() && addr + |bytes| <= EEPROM_SIZE
      modifies data
      ensures data[..] == Put(old(data[..]), addr, bytes)
    {
      forall j | 0 <= j < |bytes| { data[addr + j] := bytes[j]; }
    }

    /** `gbee_storage_read`; `rc` is the device's answer, negative for an error. */
    method ReadTag(layout: Layout, tag: Tag, size: nat, rc: int) returns (r: int, out: seq<byte>)
      requires Valid()
      ensures var p := Info(layout, tag);
              if p.Nowhere? then r == ENOENT && out == []
              else if p.count > size then r == ENOMEM && out == []
              else if rc < 0 then r == rc && out == []
              else r == p.count && out == data[p.addr..p.addr + p.count]
    {
      var p := Info(layout, tag);
      if p.Nowhere? {
        return ENOENT, [];
      }
      if p.count > size {
        return ENOMEM, [];
      }
      if rc < 0 {
        return rc, [];
      }
      return p.count, data[p.addr..p.addr + p.count];
    }

    /** The byte-by-byte write loop of `gbee_storage_write` and `gbee_storage_write_data`. `failAt` is the
        byte whose write fails with `rc`, if it is within the data: the bytes before it stay written. */
    method StoreBytes(addr: nat, bytes: seq<byte>, failAt: nat, rc: int) returns (r: int)
      requires Valid() && addr + |bytes| <= EEPROM_SIZE && rc < 0
      modifies data
      ensures failAt >= |bytes| ==> r == |bytes| && data[..] == Put(old(data[..]), addr, bytes)
      ensures failAt < |bytes| ==> r == rc && data[..] == Put(old(data[..]), addr, bytes[..failAt])
    {
      var n := 0;
      while n < |bytes|
        invariant 0 <= n <= |bytes| && n <= failAt
        invariant data[..] == Put(old(data[..]), addr, bytes[..n])
      {
        if n == failAt {
          return rc;
        }
        data[addr + n] := bytes[n];
        assert bytes[..n + 1] == bytes[..n] + [bytes[n]];
        n := n + 1;
      }
      assert bytes[..n] == bytes;
      return |bytes|;
    }

    /** `gbee_storage_write`. */
    method WriteTag(layout: Layout, tag: Tag, buff: seq<byte>, failAt: nat, rc: int) returns (r: int)
      requires Valid() && rc < 0
      modifies data
      ensures var p := Info(layout, tag);
              if !Writable(tag) || p.Nowhere? then r == ENOENT && data[..] == old(data[..])
              else if |buff| > p.count then r == ENOMEM && data[..] == old(data[..])
              else
                && r == (if failAt < |buff| then rc else |buff|)
                && data[..] == Put(old(data[..]), p.addr, if failAt < |buff| then buff[..failAt] else buff)
    {
      var p := Info(layout, tag);
      if !Writable(tag) || p.Nowhere? {
        return ENOENT;
      }
      if |buff| > p.count {
        return ENOMEM;
      }
      r := StoreBytes(p.addr, buff, failAt, rc);
    }

    /** `gbee_storage_write_data` on HIST. It writes a whole entry whatever `count` is, so the caller's
        buffer must hold one. */
    method WriteEntry(layout: Layout, buff: seq<byte>, count: nat, idx: int, failAt: nat, rc: int) returns (r: int)
      requires Valid() && |buff| >= ONE_HIST_LEN && rc < 0
      modifies data
      ensures if idx < 0 || count == 0 || (idx < MAX_HIST_CNT && count > ONE_HIST_LEN)
              then r == EINVAL && data[..] == old(data[..])
              else if idx >= MAX_HIST_CNT then r == ENODATA && data[..] == old(data[..])
              else
                && r == (if failAt < ONE_HIST_LEN then rc else ONE_HIST_LEN)
                && data[..] == Put(old(data[..]), HistAt(layout, idx), buff[..Min(failAt, ONE_HIST_LEN)])
                && (failAt >= ONE_HIST_LEN ==> Entry(data[..], layout, idx) == buff[..ONE_HIST_LEN])
    {
      if idx < 0 || count == 0 {
        return EINVAL;
      }
      if idx >= MAX_HIST_CNT {
        return ENODATA;
      }
      if count > ONE_HIST_LEN {
        return EINVAL;
      }
      r := StoreBytes(HistAt(layout, idx), buff[..ONE_HIST_LEN], failAt, rc);
      assert failAt < ONE_HIST_LEN ==> buff[..ONE_HIST_LEN][..failAt] == buff[..failAt];
    }

    /** `gbms_hist_move` from the default to the V1 place: entries are read up to the first unused one,
        then written back in one go. */
    method HistMove(f: Faults) returns (r: int)
      requires Valid()
      modifies data
      ensures var m := old(data[..]);
              var h := History(m);
              if !f.room then r == ENOMEM && data[..] == m
              else if !f.ReadsWork(Reads(m)) || h == [] then (r < 0 <==> !f.ReadsWork(Reads(m))) && data[..] == m
              else r == f.move.rc && data[..] == MovedUpTo(m, f.move.Count(|h|))
    {
      if !f.room {
        return ENOMEM;
      }
      var index, buff;
      r, index, buff := ReadUsed(data[..], f);
      if r < 0 || index == 0 {
        return;
      }
      r := f.move.rc;
      Store(HIST_OFFSET_V1, buff[..f.move.Count(|buff|)]);
    }

    /** `gbms_lotr_update` from the default layout to V1, with `gbms_lotr_update_to_v1`. A failed migration is
        not reported: the layout mark keeps its value and the migration is made again at the next start. */
    method UpdateToV1(f: Faults) returns (r: int)
      requires Valid()
      modifies data
      ensures var m := old(data[..]);
              var h := History(m);
              if f.lotrRc < 0 || m[LOTR_OFFSET] == LOTR_V1 then r == f.lotrRc && data[..] == m
              else if m[LOTR_OFFSET] != LOTR_DEFAULT || !f.room || !f.ReadsWork(Reads(m)) then r == 0 && data[..] == m
              else
                var part := MovedUpTo(m, f.move.Count(|h|));
                if h != [] && f.move.rc < 0 then r == 0 && data[..] == part
                else if f.init.rc != INIT_LEN then r == 0 && data[..] == Cleared(part, f.init.Count(INIT_LEN))
                else r == f.mark.rc
                     && data[..] == Put(Cleared(part, INIT_LEN), LOTR_OFFSET, [LOTR_V1][..f.mark.Count(1)])
    {
      r := f.lotrRc;
      if r < 0 || data[LOTR_OFFSET] == LOTR_V1 {
        return;
      }
      if data[LOTR_OFFSET] != LOTR_DEFAULT {
        return 0;
      }
      r := HistMove(f);
      ghost var part := MovedUpTo(old(data[..]), f.move.Count(|History(old(data[..]))|));
      assert r >= 0 ==> data[..] == part;
      if r < 0 {
        return 0;
      }
      Store(HIST_OFFSET, Zeros(f.init.Count(INIT_LEN)));
      if f.init.rc != INIT_LEN {
        return 0;
      }
      assert data[..] == Cleared(part, INIT_LEN);
      r := f.mark.rc;
      Store(LOTR_OFFSET, [LOTR_V1][..f.mark.Count(1)]);
    }
  }

  /** Two starts, the first one failing to clear the new fields: the second migrates again, and exactly the
      entries of `RetryExact` survive. */
  method MigrateTwice(d: Device, f: Faults, g: Faults)
    requires d.Valid() && d.data[LOTR_OFFSET] == LOTR_DEFAULT
    requires f.Starts() && f.move.rc >= |History(d.data[..])| && f.init.rc != INIT_LEN
    requires g.Starts() && g.move.rc >= |History(Cleared(Moved(d.data[..]), f.init.Count(INIT_LEN)))|
    requires g.init.rc == INIT_LEN && g.mark.rc == 1
    modifies d.data
    ensures var m := old(d.data[..]);
            var again := Cleared(Moved(m), f.init.Count(INIT_LEN));
            && d.data[..] == Put(Migrated(again), LOTR_OFFSET, [LOTR_V1])
            && forall i :: 0 <= i < Used(m, HIST_OFFSET, 0) ==>
                 (Entry(d.data[..], V1, i) == Entry(m, Default, i)
                  <==> i >= Used(again, HIST_OFFSET, 0) || Entry(again, Default, i) == Entry(again, V1, i))
  {
    ghost var m := d.data[..];
    ghost var again := Cleared(Moved(m), f.init.Count(INIT_LEN));
    var r := d.UpdateToV1(f);
    assert d.data[..] == again;
    r := d.UpdateToV1(g);
    forall i | 0 <= i < Used(m, HIST_OFFSET, 0)
      ensures Entry(d.data[..], V1, i) == Entry(Migrated(again), V1, i)
      ensures Entry(d.data[..], V1, i) == Entry(m, Default, i)
              <==> i >= Used(again, HIST_OFFSET, 0) || Entry(again, Default, i) == Entry(again, V1, i)
    {
      RetryExact(m, f.init.Count(INIT_LEN), i);
      PutElsewhere(Migrated(again), LOTR_OFFSET, [LOTR_V1], HistAt(V1, i), HistAt(V1, i) + ONE_HIST_LEN);
    }
  }

  /** A start whose move is short and reports no error: the fields are cleared, the layout is marked, and
      exactly the entries of `ShortMoveExact` are kept. */
  method MigrateShort(d: Device, f: Faults)
    requires d.Valid() && d.data[LOTR_OFFSET] == LOTR_DEFAULT
    requires f.Starts() && 0 <= f.move.rc <= |History(d.data[..])|
    requires f.init.rc == INIT_LEN && f.mark.rc == 1
    modifies d.data
    ensures d.data[LOTR_OFFSET] == LOTR_V1
    ensures forall i :: 0 <= i < Used(old(d.data[..]), HIST_OFFSET, 0) ==>
              (Entry(d.data[..], V1, i) == Entry(old(d.data[..]), Default, i)
               <==> InPlace(old(d.data[..]), f.move.rc, i))
  {
    ghost var m := d.data[..];
    ghost var part := Cleared(MovedUpTo(m, f.move.rc), INIT_LEN);
    var r := d.UpdateToV1(f);
    assert d.data[..] == Put(part, LOTR_OFFSET, [LOTR_V1]);
    forall i | 0 <= i < Used(m, HIST_OFFSET, 0)
      ensures Entry(d.data[..], V1, i) == Entry(part, V1, i)
      ensures Entry(part, V1, i) == Entry(m, Default, i) <==> InPlace(m, f.move.rc, i)
    {
      ShortMoveExact(m, f.move.rc, i);
      PutElsewhere(part, LOTR_OFFSET, [LOTR_V1], HistAt(V1, i), HistAt(V1, i) + ONE_HIST_LEN);
    }
  }

  /** A start on which nothing goes wrong: the image is the migrated one with the layout marked, and BPST, which
      the default layout does not have, reads zero. */
  method MigrateCleanly(d: Device, f: Faults) returns (bpst: seq<byte>, lotr: seq<byte>)
    requires d.Valid() && d.data[0x59] == 0xFF
    requires f.Starts() && f.move.rc >= |History(d.data[..])| && f.init.rc == INIT_LEN && f.mark.rc == 1
    modifies d.data
    ensures bpst == [0] && lotr == [1]
    ensures d.data[..] == Put(Migrated(old(d.data[..])), 0x59, [1])
  {
    ghost var m := d.data[..];
    var r := d.UpdateToV1(f);
    assert [LOTR_V1][..1] == [LOTR_V1];
    NewFieldsZero(m, 0x5E);
    assert d.data[..] == Put(Migrated(m), 0x59, [1]);
    r, bpst := d.ReadTag(V1, BPST, 1, 1);
    assert d.data[0x5E] == Put(Migrated(m), 0x59, [1])[0x5A..][4] == Migrated(m)[0x5A..][4];
    r, lotr := d.ReadTag(V1, LOTR, 1, 1);
  }

  /** A tag written whole reads back, and every other tag but the history reads as before. */
  method WriteThenRead(d: Device, layout: Layout, tag: Tag, buff: seq<byte>, other: Tag)
    returns (got: seq<byte>, before: seq<byte>, after: seq<byte>)
    requires d.Valid() && Writable(tag) && Info(layout, tag).At? && |buff| == Info(layout, tag).count
    requires other != tag && other != HIST
    modifies d.data
    ensures got == buff && before == after
  {
    var r;
    r, before := d.ReadTag(layout, other, EEPROM_SIZE, 1);
    ghost var was := d.data[..];
    var p, q := Info(layout, tag), Info(layout, other);
    r := d.WriteTag(layout, tag, buff, |buff|, EINVAL);
    r, got := d.ReadTag(layout, tag, |buff|, 1);
    r, after := d.ReadTag(layout, other, EEPROM_SIZE, 1);
    assert d.data[p.addr..p.addr + p.count] == d.data[..][p.addr..p.addr + p.count];
    if q.At? {
      TagsDisjoint(layout, tag, other);
      PutElsewhere(was, p.addr, buff, q.addr, q.addr + q.count);
    }
  }
}
