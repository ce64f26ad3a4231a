/** `AocInterfaceCheck`: does the firmware's table hold every UUID the driver expects? The search for each
    expected UUID starts after the table entries already matched at the front. */
module InterfaceCheck {
  import opened Words

  const UUID_SIZE: int := 16

  type Uuid = seq<byte>

  /** C division of the byte count, which truncates toward zero. */
  function Entries(size: int): int {
    TruncDiv(size, UUID_SIZE)
  }

  function EntryAt(table: seq<byte>, index: nat): Uuid
    requires (index + 1) * UUID_SIZE <= |table|
  {
    table[index * UUID_SIZE..(index + 1) * UUID_SIZE]
  }

  /** The sixteen bytes at `at`, which are within the first `size`, are the UUID. */
  ghost predicate FoundAt(table: seq<byte>, size: int, uuid: Uuid, at: int)
    requires size <= |table|
  {
    0 <= at && at + 16 <= size && table[at..at + 16] == uuid
  }

  /** The plain meaning: the UUID is in the first `size` bytes, at a multiple of sixteen. */
  ghost predicate Present(table: seq<byte>, size: int, uuid: Uuid)
    requires size <= |table|
  {
    exists at :: FoundAt(table, size, uuid, at) && at % 16 == 0
  }

  /** The whole entries among the first `size` bytes are those the driver counts. */
  lemma PresentExact(table: seq<byte>, size: int, uuid: Uuid)
    requires size <= |table|
    ensures Present(table, size, uuid)
            <==> exists index :: 0 <= index < Entries(size) && EntryAt(table, index) == uuid
  {
    if Present(table, size, uuid) {
      var at :| FoundAt(table, size, uuid, at) && at % 16 == 0;
      assert EntryAt(table, at / 16) == uuid;
    }
    if index :| 0 <= index < Entries(size) && EntryAt(table, index) == uuid {
      assert FoundAt(table, size, uuid, 16 * index);
    }
  }

  ghost predicate Distinct(uuids: seq<Uuid>) {
    forall i, j :: 0 <= i < j < |uuids| ==> uuids[i] != uuids[j]
  }

  /** The byte loop: how far the UUID and the table entry agree. */
  method MatchBytes(uuid: Uuid, table: seq<byte>, index: nat) returns (j: nat)
    requires |uuid| == UUID_SIZE && (index + 1) * UUID_SIZE <= |table|
    ensures j <= UUID_SIZE
    ensures j == UUID_SIZE <==> EntryAt(table, index) == uuid
  {
    j := 0;
    while j < UUID_SIZE
      invariant j <= UUID_SIZE
      invariant uuid[..j] == EntryAt(table, index)[..j]
    {
      if uuid[j] != table[index * UUID_SIZE + j] {
        assert EntryAt(table, index)[j] != uuid[j];
        break;
      }
      j := j + 1;
    }
  }

  /** The entries skipped at the front are UUIDs already matched, so the shortened search is a full one. */
  method AocInterfaceCheck(uuids: seq<Uuid>, table: seq<byte>, size: int) returns (rc: int)
    requires forall e :: 0 <= e < |uuids| ==> |uuids[e]| == UUID_SIZE
    requires Distinct(uuids)
    requires size <= |table|
    ensures rc == 0 || rc == -1
    ensures rc == 0 <==> forall e :: 0 <= e < |uuids| ==> Present(table, size, uuids[e])
  {
    var start, last := 0, Entries(size);
    rc := 0;
    var entry := 0;
    while entry < |uuids|
      invariant 0 <= entry <= |uuids|
      invariant 0 <= start <= Max(0, last)
      invariant entry == 0 ==> rc == 0
      invariant entry > 0 ==> rc == if last < 0 then -1 else 0
      invariant last >= 0 ==> forall e :: 0 <= e < entry ==> Present(table, size, uuids[e])
      invariant forall i :: 0 <= i < start ==> EntryAt(table, i) in uuids[..entry]
    {
      var uuid := uuids[entry];
      rc := -1;
      var index := start;
      while index < last
        invariant start <= index <= Max(start, last)
        invariant start <= Max(0, last) && rc == -1
        invariant forall i :: start <= i < index ==> EntryAt(table, i) != uuid
      {
        var j := MatchBytes(uuid, table, index);
        if j == UUID_SIZE {
          if index == start {
            start := start + 1;
          }
          rc := 0;
          PresentExact(table, size, uuid);
          break;
        }
        index := index + 1;
      }
      if index == last {
        rc := -1;
        PresentExact(table, size, uuid);
        assert !Present(table, size, uuid);
        break;
      }
      entry := entry + 1;
    }
    assert last < 0 && uuids != [] ==> !Present(table, size, uuids[0]);
  }
}
