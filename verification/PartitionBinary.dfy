/** The binary form of a partition table: 32-byte entries, a checksum, and an end marker. */
module PartitionBinary {
  import opened ByteFields
  import opened Wrappers
  import opened Md5Spec
  import opened PartitionLayout

  const MAX_PARTITION_LENGTH := 0xC00
  const ENTRY: nat := 32
  const MAGIC_BYTES: seq<byte> := [0xAA, 0x50]
  const MD5_PARTITION_BEGIN: seq<byte> := [0xEB, 0xEB] + Fill(0xFF, 14)

  datatype BinaryError = CannotPack | TooLong | BadLength | BadMagic | BadChecksum | NoEndMarker

  // ----- one entry

  predicate InRange(d: Definition) {
    && 0 <= d.ptype < 0x100 && 0 <= d.subtype < 0x100
    && d.offset.Some? && 0 <= d.offset.value < 0x1_0000_0000
    && 0 <= d.size < 0x1_0000_0000
  }

  /** `16s` cuts a long name and fills up a short one. */
  function NameField(name: seq<byte>): (field: seq<byte>)
    ensures |field| == 16
  {
    if |name| >= 16 then name[..16] else name + Fill(0, 16 - |name|)
  }

  /** `'<2sBBLL16sL'`. */
  function EntryBytes(d: Definition): (bytes: seq<byte>)
    requires InRange(d)
    ensures |bytes| == ENTRY
  {
    MAGIC_BYTES + [d.ptype, d.subtype] + Pack(Little, 4, d.offset.value) + Pack(Little, 4, d.size)
    + NameField(d.name) + Pack(Little, 4, if d.encrypted then 1 else 0)
  }

  /** Unknown flag bits are only warned about. */
  function ReadEntry(b: seq<byte>): Result<Definition, BinaryError>
    requires |b| == ENTRY
  {
    if b[..2] != MAGIC_BYTES then Failure(BadMagic) else
    Success(Definition(UpToNul(b[12..28]), b[2], b[3], Some(Unpack(Little, b[4..8])), Unpack(Little, b[8..12]),
                       Unpack(Little, b[28..32]) % 2 == 1))
  }

  /** The name that the fixed field keeps. */
  function Kept(d: Definition): Definition {
    d.(name := UpToNul(if |d.name| >= 16 then d.name[..16] else d.name))
  }

  lemma {:induction false} UpToNulFilled(name: seq<byte>, n: nat)
    ensures UpToNul(name + Fill(0, n)) == UpToNul(name)
  {
    if name == [] {
      assert name + Fill(0, n) == Fill(0, n);
    } else if name[0] != 0 {
      assert (name + Fill(0, n))[1..] == name[1..] + Fill(0, n);
      UpToNulFilled(name[1..], n);
    }
  }

  lemma FourByteValue(value: nat)
    requires value < 0x1_0000_0000
    ensures Unpack(Little, Pack(Little, 4, value)) == value
  {
    FourBytes();
    UnpackPack(Little, 4, value);
  }

  lemma EntryParts(d: Definition)
    requires InRange(d)
    ensures var b := EntryBytes(d);
      && b[..2] == MAGIC_BYTES && b[2] == d.ptype && b[3] == d.subtype
      && b[4..8] == Pack(Little, 4, d.offset.value) && b[8..12] == Pack(Little, 4, d.size)
      && b[12..28] == NameField(d.name) && b[28..32] == Pack(Little, 4, if d.encrypted then 1 else 0)
  {
    hide Pack, NameField;
  }

  /** An entry reads back as itself, but for the part of its name that the field does not keep. */
  lemma EntryReadsBack(d: Definition)
    requires InRange(d)
    ensures ReadEntry(EntryBytes(d)) == Success(Kept(d))
  {
    hide Pack, Unpack, EntryBytes;
    EntryParts(d);
    FourByteValue(d.offset.value);
    FourByteValue(d.size);
    FourByteValue(if d.encrypted then 1 else 0);
    if |d.name| < 16 { UpToNulFilled(d.name, 16 - |d.name|); }
  }

  /** All of a name is kept exactly when it has at most 16 bytes, none of them NUL. */
  lemma KeptIff(d: Definition)
    ensures Kept(d) == d <==> |d.name| <= 16 && 0 !in d.name
  {
    WholeName(d.name);
    if |d.name| > 16 { WholeName(d.name[..16]); }
    if |d.name| == 16 { assert d.name[..16] == d.name; }
  }

  lemma {:induction false} WholeName(name: seq<byte>)
    ensures |UpToNul(name)| <= |name|
    ensures UpToNul(name) == name <==> 0 !in name
  {
    if name != [] {
      WholeName(name[1..]);
      assert name == [name[0]] + name[1..];
    }
  }

  // ----- the table

  function Entries(table: seq<Definition>): (entries: seq<seq<byte>>)
    requires forall d :: d in table ==> InRange(d)
    ensures |entries| == |table|
    ensures forall i :: 0 <= i < |table| ==> entries[i] == EntryBytes(table[i])
    ensures forall e :: e in entries ==> |e| == ENTRY
  {
    seq(|table|, i requires 0 <= i < |table| => EntryBytes(table[i]))
  }

  function Checksum(bytes: seq<byte>): (record: seq<byte>)
    ensures |record| == ENTRY
  {
    MD5_PARTITION_BEGIN + Digest(bytes)
  }

  /** `to_binary`: the size check leaves room for an end marker. */
  function ToBinary(table: seq<Definition>, md5sum: bool): Result<seq<byte>, BinaryError> {
    if exists d :: d in table && !InRange(d) then Failure(CannotPack) else
    var entries := Flatten(Entries(table));
    var result := if md5sum then entries + Checksum(entries) else entries;
    if |result| >= MAX_PARTITION_LENGTH then Failure(TooLong) else
    Success(result + Fill(0xFF, MAX_PARTITION_LENGTH - |result|))
  }

  /** `b[o:o + 32]`. */
  function Chunk(b: seq<byte>, o: nat): seq<byte>
    requires o <= |b|
  {
    if o + ENTRY <= |b| then b[o..o + ENTRY] else b[o..]
  }

  /** The loop of `from_binary` from offset `o` on, where `hashed` is what the checksum has been fed. */
  function ReadFrom(b: seq<byte>, o: nat, md5sum: bool, hashed: seq<byte>, found: seq<Definition>)
    : Result<seq<Definition>, BinaryError>
    requires o <= |b|
    decreases |b| - o
  {
    if o == |b| then Failure(NoEndMarker) else
    var data := Chunk(b, o);
    if |data| != ENTRY then Failure(BadLength) else
    if data == Fill(0xFF, ENTRY) then Success(found) else
    if md5sum && data[..2] == MD5_PARTITION_BEGIN[..2] then
      if data[16..] == Digest(hashed) then ReadFrom(b, o + ENTRY, md5sum, hashed, found) else Failure(BadChecksum)
    else
      match ReadEntry(data)
      case Failure(e) => Failure(e)
      case Success(d) => ReadFrom(b, o + ENTRY, md5sum, hashed + data, found + [d])
  }

  /** `from_binary`. The checksum object stands as the bytes it has been fed so far. */
  method FromBinary(b: seq<byte>, md5sum: bool) returns (r: Result<seq<Definition>, BinaryError>)
    ensures r == ReadFrom(b, 0, md5sum, [], [])
  {
    hide Digest, ReadEntry;
    var hashed: seq<byte> := [];
    var result: seq<Definition> := [];
    var o := 0;
    while o < |b|
      invariant 0 <= o <= |b|
      invariant ReadFrom(b, 0, md5sum, [], []) == ReadFrom(b, o, md5sum, hashed, result)
    {
      var data := Chunk(b, o);
      if |data| != ENTRY { return Failure(BadLength); }
      if data == Fill(0xFF, ENTRY) { return Success(result); }
      o := o + ENTRY;
      if md5sum && data[..2] == MD5_PARTITION_BEGIN[..2] {
        if data[16..] != Digest(hashed) { return Failure(BadChecksum); }
        continue;
      }
      hashed := hashed + data;
      var d := ReadEntry(data);
      if d.Failure? { return Failure(d.error); }
      result := result + [d.value];
    }
    return Failure(NoEndMarker);
  }

  function AllKept(table: seq<Definition>): (kept: seq<Definition>)
    ensures |kept| == |table|
  {
    seq(|table|, i requires 0 <= i < |table| => Kept(table[i]))
  }

  lemma ChunkOf(parts: seq<seq<byte>>, tail: seq<byte>, i: nat)
    requires i < |parts| && forall p :: p in parts ==> |p| == ENTRY
    ensures |Flatten(parts) + tail| >= ENTRY * i + ENTRY
    ensures Chunk(Flatten(parts) + tail, ENTRY * i) == parts[i]
  {
    hide Flatten;
    FlattenSlice(parts, tail, ENTRY, i);
    assert |parts[i]| == ENTRY;
  }

  /** An entry is not the end marker, nor a checksum. */
  lemma EntryIsNoMark(d: Definition)
    requires InRange(d)
    ensures EntryBytes(d) != Fill(0xFF, ENTRY) && EntryBytes(d)[..2] != MD5_PARTITION_BEGIN[..2]
  {
    hide EntryBytes;
    EntryParts(d);
    assert EntryBytes(d)[0] == EntryBytes(d)[..2][0] == 0xAA;
    assert MD5_PARTITION_BEGIN[..2][0] == 0xEB;
  }

  lemma OneEntryRead(b: seq<byte>, o: nat, d: Definition, md5sum: bool, hashed: seq<byte>, found: seq<Definition>)
    requires o + ENTRY <= |b| && InRange(d) && Chunk(b, o) == EntryBytes(d)
    ensures ReadFrom(b, o, md5sum, hashed, found)
      == ReadFrom(b, o + ENTRY, md5sum, hashed + EntryBytes(d), found + [Kept(d)])
  {
    hide EntryBytes, ReadEntry, Digest, Kept;
    EntryIsNoMark(d);
    EntryReadsBack(d);
  }

  /** Reading gets through the first `n` entries. */
  lemma {:induction false} EntriesRead(table: seq<Definition>, tail: seq<byte>, md5sum: bool, n: nat)
    requires n <= |table| && forall d :: d in table ==> InRange(d)
    ensures var b := Flatten(Entries(table)) + tail;
      && ENTRY * n <= |b|
      && ReadFrom(b, 0, md5sum, [], [])
         == ReadFrom(b, ENTRY * n, md5sum, Flatten(Entries(table)[..n]), AllKept(table)[..n])
  {
    hide Flatten, EntryBytes, ReadFrom, Kept;
    var b := Flatten(Entries(table)) + tail;
    if n == 0 {
      FlattenNone(Entries(table)[..0]);
    } else {
      EntriesRead(table, tail, md5sum, n - 1);
      var d := table[n - 1];
      ChunkOf(Entries(table), tail, n - 1);
      OneEntryRead(b, ENTRY * (n - 1), d, md5sum, Flatten(Entries(table)[..n - 1]), AllKept(table)[..n - 1]);
      FlattenSnoc(Entries(table), n - 1);
      assert AllKept(table)[..n] == AllKept(table)[..n - 1] + [Kept(d)];
    }
  }

  lemma ChecksumParts(bytes: seq<byte>)
    ensures Checksum(bytes)[..2] == MD5_PARTITION_BEGIN[..2] && Checksum(bytes)[16..] == Digest(bytes)
    ensures Checksum(bytes) != Fill(0xFF, ENTRY)
  {
    hide Digest;
    assert Checksum(bytes)[0] == 0xEB;
  }

  lemma ChunkAfter(a: seq<byte>, b: seq<byte>, c: seq<byte>)
    requires |b| == ENTRY
    ensures Chunk(a + (b + c), |a|) == b
  {
  }

  /** At the padding the reader stops. */
  lemma EndRead(before: seq<byte>, n: nat, md5sum: bool, hashed: seq<byte>, found: seq<Definition>)
    requires n >= ENTRY
    ensures ReadFrom(before + Fill(0xFF, n), |before|, md5sum, hashed, found) == Success(found)
  {
    hide Digest, ReadEntry;
    assert Fill(0xFF, n) == Fill(0xFF, ENTRY) + Fill(0xFF, n - ENTRY);
    ChunkAfter(before, Fill(0xFF, ENTRY), Fill(0xFF, n - ENTRY));
  }

  /** The checksum over the entries is accepted, and the padding ends the table. */
  lemma TailRead(entries: seq<byte>, n: nat, found: seq<Definition>)
    requires n >= ENTRY
    ensures ReadFrom(entries + Checksum(entries) + Fill(0xFF, n), |entries|, true, entries, found) == Success(found)
  {
    hide Digest, ReadEntry, Checksum;
    var whole := entries + Checksum(entries) + Fill(0xFF, n);
    assert whole == entries + (Checksum(entries) + Fill(0xFF, n));
    ChunkAfter(entries, Checksum(entries), Fill(0xFF, n));
    ChecksumParts(entries);
    EndRead(entries + Checksum(entries), n, true, entries, found);
  }

  /** A table can be written exactly when all fields are in range and a marker still fits: at most 94 entries
      with a checksum, and 95 without. */
  lemma ToBinaryIff(table: seq<Definition>, md5sum: bool)
    ensures ToBinary(table, md5sum).Success?
      <==> (forall d :: d in table ==> InRange(d)) && |table| <= (if md5sum then 94 else 95)
    ensures ToBinary(table, md5sum).Success? ==> |ToBinary(table, md5sum).value| == 0xC00
  {
    hide Flatten, Checksum;
    if forall d :: d in table ==> InRange(d) {
      FlattenLength(Entries(table), ENTRY);
    }
  }

  /** What is written reads back: the same entries in the same order, with the part of each name that fits
      its field; the table itself exactly when all names fit. */
  lemma RoundTrip(table: seq<Definition>, md5sum: bool)
    requires ToBinary(table, md5sum).Success?
    ensures var r := ReadFrom(ToBinary(table, md5sum).value, 0, md5sum, [], []);
      && r == Success(AllKept(table))
      && (r == Success(table) <==> forall i :: 0 <= i < |table| ==> |table[i].name| <= 16 && 0 !in table[i].name)
  {
    hide Flatten, Checksum, ReadFrom, EntryBytes, Kept;
    ToBinaryIff(table, md5sum);
    var entries := Flatten(Entries(table));
    FlattenLength(Entries(table), ENTRY);
    assert Entries(table)[..|table|] == Entries(table) && AllKept(table)[..|table|] == AllKept(table);
    if md5sum {
      var n := MAX_PARTITION_LENGTH - |entries| - ENTRY;
      var tail := Checksum(entries) + Fill(0xFF, n);
      EntriesRead(table, tail, md5sum, |table|);
      assert entries + Checksum(entries) + Fill(0xFF, n) == entries + tail;
      TailRead(entries, n, AllKept(table));
    } else {
      var n := MAX_PARTITION_LENGTH - |entries|;
      EntriesRead(table, Fill(0xFF, n), md5sum, |table|);
      EndRead(entries, n, md5sum, entries, AllKept(table));
    }
    forall i | 0 <= i < |table|
      ensures AllKept(table)[i] == table[i] <==> |table[i].name| <= 16 && 0 !in table[i].name
    {
      KeptIff(table[i]);
    }
    if forall i :: 0 <= i < |table| ==> AllKept(table)[i] == table[i] { assert AllKept(table) == table; }
  }

  // ----- what the reader accepts

  predicate IsEnd(c: seq<byte>) {
    |c| == 32 && forall i :: 0 <= i < 32 ==> c[i] == 0xFF
  }

  predicate IsChecksum(c: seq<byte>, md5sum: bool) {
    md5sum && |c| == 32 && c[0] == 0xEB && c[1] == 0xEB
  }

  /** Record `k` of the table. */
  function Record(b: seq<byte>, k: nat): seq<byte>
    requires 32 * (k + 1) <= |b|
  {
    b[32 * k..32 * (k + 1)]
  }

  /** The records before record `n` that are no checksums: what a checksum at `n` has to cover. */
  function Covered(b: seq<byte>, n: nat, md5sum: bool): seq<byte>
    requires 32 * n <= |b|
  {
    if n == 0 then [] else
    var c := Record(b, n - 1);
    Covered(b, n - 1, md5sum) + if IsChecksum(c, md5sum) then [] else c
  }

  /** The entries in them. */
  function EntriesIn(b: seq<byte>, n: nat, md5sum: bool): seq<Definition>
    requires 32 * n <= |b|
  {
    if n == 0 then [] else
    var c := Record(b, n - 1);
    EntriesIn(b, n - 1, md5sum)
      + if IsChecksum(c, md5sum) || ReadEntry(c).Failure? then [] else [ReadEntry(c).value]
  }

  /** Record `n` is an entry, or a checksum that is right. */
  predicate Accepted(b: seq<byte>, n: nat, md5sum: bool)
    requires 32 * (n + 1) <= |b|
  {
    var c := Record(b, n);
    && !IsEnd(c)
    && if IsChecksum(c, md5sum) then c[16..] == Digest(Covered(b, n, md5sum)) else c[0] == 0xAA && c[1] == 0x50
  }

  ghost predicate AcceptedUntil(b: seq<byte>, n: nat, md5sum: bool) {
    32 * n <= |b| && forall k :: 0 <= k < n ==> Accepted(b, k, md5sum)
  }

  /** Where the reader stops, with what. */
  ghost predicate StopsAt(b: seq<byte>, n: nat, md5sum: bool, r: Result<seq<Definition>, BinaryError>) {
    && AcceptedUntil(b, n, md5sum)
    && if |b| == 32 * n then r == Failure(NoEndMarker)
       else if |b| < 32 * (n + 1) then r == Failure(BadLength)
       else
         var c := Record(b, n);
         if IsEnd(c) then r == Success(EntriesIn(b, n, md5sum))
         else if IsChecksum(c, md5sum) then r == Failure(BadChecksum) && c[16..] != Digest(Covered(b, n, md5sum))
         else r == Failure(BadMagic) && !(c[0] == 0xAA && c[1] == 0x50)
  }

  /** The reader passes over entries and right checksums, and nothing else, and answers with what it stops at: for
      every input there is one such answer. */
  lemma ReadIff(b: seq<byte>, md5sum: bool, r: Result<seq<Definition>, BinaryError>)
    ensures r == ReadFrom(b, 0, md5sum, [], []) <==> exists n: nat :: StopsAt(b, n, md5sum, r)
  {
    hide ReadFrom, StopsAt;
    var n, answer := Stop(b, md5sum, 0);
    StopsRead(b, n, md5sum, answer);
    forall m: nat | StopsAt(b, m, md5sum, r) ensures r == ReadFrom(b, 0, md5sum, [], []) {
      StopsRead(b, m, md5sum, r);
    }
  }

  lemma {:induction false} Stop(b: seq<byte>, md5sum: bool, k: nat)
    returns (n: nat, r: Result<seq<Definition>, BinaryError>)
    requires AcceptedUntil(b, k, md5sum)
    ensures StopsAt(b, n, md5sum, r)
    decreases |b| - 32 * k
  {
    hide Digest, ReadEntry;
    if |b| >= 32 * (k + 1) && Accepted(b, k, md5sum) {
      n, r := Stop(b, md5sum, k + 1);
    } else {
      n := k;
      r := if |b| == 32 * n then Failure(NoEndMarker)
        else if |b| < 32 * (n + 1) then Failure(BadLength)
        else if IsEnd(Record(b, n)) then Success(EntriesIn(b, n, md5sum))
        else if IsChecksum(Record(b, n), md5sum) then Failure(BadChecksum) else Failure(BadMagic);
    }
  }

  lemma StopsRead(b: seq<byte>, n: nat, md5sum: bool, r: Result<seq<Definition>, BinaryError>)
    requires StopsAt(b, n, md5sum, r)
    ensures r == ReadFrom(b, 0, md5sum, [], [])
  {
    hide Digest, Covered, EntriesIn, Accepted;
    AcceptedRead(b, n, md5sum);
    if |b| >= 32 * (n + 1) { RecordIs(b, n, md5sum); }
  }

  lemma RecordIs(b: seq<byte>, n: nat, md5sum: bool)
    requires 32 * (n + 1) <= |b|
    ensures var c := Record(b, n);
      && Chunk(b, 32 * n) == c && |c| == 32
      && (c == Fill(0xFF, ENTRY) <==> IsEnd(c))
      && (md5sum && c[..2] == MD5_PARTITION_BEGIN[..2] <==> IsChecksum(c, md5sum))
      && (ReadEntry(c) == Failure(BadMagic) <==> !(c[0] == 0xAA && c[1] == 0x50))
      && (ReadEntry(c).Failure? ==> ReadEntry(c) == Failure(BadMagic))
  {
    var c := Record(b, n);
    assert c[..2] == [c[0], c[1]] && MD5_PARTITION_BEGIN[..2] == [0xEB, 0xEB];
  }

  lemma {:induction false} AcceptedRead(b: seq<byte>, n: nat, md5sum: bool)
    requires AcceptedUntil(b, n, md5sum)
    ensures ReadFrom(b, 0, md5sum, [], [])
      == ReadFrom(b, 32 * n, md5sum, Covered(b, n, md5sum), EntriesIn(b, n, md5sum))
  {
    hide ReadFrom, Accepted, Covered, EntriesIn;
    NoneCovered(b, md5sum);
    if n > 0 {
      AcceptedRead(b, n - 1, md5sum);
      OneAccepted(b, n - 1, md5sum);
    }
  }

  lemma NoneCovered(b: seq<byte>, md5sum: bool)
    ensures Covered(b, 0, md5sum) == [] && EntriesIn(b, 0, md5sum) == []
  {
  }

  lemma OneAccepted(b: seq<byte>, n: nat, md5sum: bool)
    requires 32 * (n + 1) <= |b| && Accepted(b, n, md5sum)
    ensures ReadFrom(b, 32 * n, md5sum, Covered(b, n, md5sum), EntriesIn(b, n, md5sum))
      == ReadFrom(b, 32 * (n + 1), md5sum, Covered(b, n + 1, md5sum), EntriesIn(b, n + 1, md5sum))
  {
    hide Digest, ReadEntry, ReadFrom, Covered, EntriesIn, IsEnd, IsChecksum, Record, Chunk;
    CoveredNext(b, n, md5sum);
    RecordIs(b, n, md5sum);
    ReadOne(b, 32 * n, md5sum, Covered(b, n, md5sum), EntriesIn(b, n, md5sum));
    var covered, entries := Covered(b, n, md5sum), EntriesIn(b, n, md5sum);
    assert covered + [] == covered && entries + [] == entries && 32 * n + ENTRY == 32 * (n + 1);
  }

  lemma ReadOne(b: seq<byte>, o: nat, md5sum: bool, hashed: seq<byte>, found: seq<Definition>)
    requires o + ENTRY <= |b| && Chunk(b, o) != Fill(0xFF, ENTRY)
    ensures var data := Chunk(b, o);
      if md5sum && data[..2] == MD5_PARTITION_BEGIN[..2] then
        data[16..] == Digest(hashed) ==>
          ReadFrom(b, o, md5sum, hashed, found) == ReadFrom(b, o + ENTRY, md5sum, hashed, found)
      else
        ReadEntry(data).Success? ==>
          ReadFrom(b, o, md5sum, hashed, found)
            == ReadFrom(b, o + ENTRY, md5sum, hashed + data, found + [ReadEntry(data).value])
  {
    hide Digest, ReadEntry;
  }

  lemma CoveredNext(b: seq<byte>, n: nat, md5sum: bool)
    requires 32 * (n + 1) <= |b|
    ensures var c := Record(b, n);
      && Covered(b, n + 1, md5sum) == Covered(b, n, md5sum) + (if IsChecksum(c, md5sum) then [] else c)
      && EntriesIn(b, n + 1, md5sum) == EntriesIn(b, n, md5sum)
           + if IsChecksum(c, md5sum) || ReadEntry(c).Failure? then [] else [ReadEntry(c).value]
  {
    hide ReadEntry, IsChecksum, Record;
  }

  /** In particular, a checksum that is not that of the entries before it is reported, whatever follows. */
  lemma WrongChecksum(table: seq<Definition>, digest: seq<byte>, filler: seq<byte>, tail: seq<byte>)
    requires forall d :: d in table ==> InRange(d)
    requires |digest| == 16 && |filler| == 14 && digest != Digest(Flatten(Entries(table)))
    ensures ReadFrom(Flatten(Entries(table)) + ([0xEB, 0xEB] + filler + digest + tail), 0, true, [], [])
      == Failure(BadChecksum)
  {
    hide Flatten, EntryBytes, Kept, Digest, ReadEntry;
    var entries, record := Flatten(Entries(table)), [0xEB, 0xEB] + filler + digest;
    var b := entries + (record + tail);
    EntriesRead(table, record + tail, true, |table|);
    FlattenLength(Entries(table), ENTRY);
    assert Entries(table)[..|table|] == Entries(table);
    ChunkAfter(entries, record, tail);
    assert record[..2] == [0xEB, 0xEB] == MD5_PARTITION_BEGIN[..2] && record[16..] == digest;
    assert record != Fill(0xFF, ENTRY) by { assert record[0] == 0xEB; }
  }

  // ----- the bytes

  /** Where the fields of an entry are. */
  lemma EntryLayout(d: Definition)
    requires InRange(d)
    ensures var b := EntryBytes(d);
      && b[0] == 0xAA && b[1] == 0x50 && b[2] == d.ptype && b[3] == d.subtype
      && d.offset.value == Weighed(b[7], b[6], b[5], b[4]) && d.size == Weighed(b[11], b[10], b[9], b[8])
      && (forall i :: 12 <= i < 28 ==> b[i] == if i - 12 < |d.name| then d.name[i - 12] else 0)
      && b[28] == (if d.encrypted then 1 else 0) && b[29] == b[30] == b[31] == 0
  {
    EntryParts(d);
    hide EntryBytes, Pack, Weighed, NameField;
    var b := EntryBytes(d);
    NumbersLayout(d);
    assert b[0] == b[..2][0] && b[1] == b[..2][1];
    forall i | 12 <= i < 28 ensures b[i] == if i - 12 < |d.name| then d.name[i - 12] else 0 {
      NameLayout(d.name, i - 12);
      assert b[i] == b[12..28][i - 12];
    }
  }

  lemma NumbersLayout(d: Definition)
    requires InRange(d)
    ensures var b := EntryBytes(d);
      && d.offset.value == Weighed(b[7], b[6], b[5], b[4]) && d.size == Weighed(b[11], b[10], b[9], b[8])
      && b[28] == (if d.encrypted then 1 else 0) && b[29] == b[30] == b[31] == 0
  {
    hide EntryBytes, Pack, Unpack, Weighed, NameField;
    EntryParts(d);
    AddressesAt(EntryBytes(d), d.offset.value, d.size);
    FlagsAt(EntryBytes(d), d.encrypted);
  }

  lemma AddressesAt(b: seq<byte>, offset: nat, size: nat)
    requires |b| == 32 && offset < 0x1_0000_0000 && size < 0x1_0000_0000
    requires b[4..8] == Pack(Little, 4, offset) && b[8..12] == Pack(Little, 4, size)
    ensures offset == Weighed(b[7], b[6], b[5], b[4]) && size == Weighed(b[11], b[10], b[9], b[8])
  {
    hide *;
    NumberAt(b, 4, offset);
    NumberAt(b, 8, size);
  }

  lemma FlagsAt(b: seq<byte>, encrypted: bool)
    requires |b| == 32 && b[28..32] == Pack(Little, 4, if encrypted then 1 else 0)
    ensures b[28] == (if encrypted then 1 else 0) && b[29] == b[30] == b[31] == 0
  {
    hide *;
    NumberAt(b, 28, if encrypted then 1 else 0);
    SmallWeighed(b[31], b[30], b[29], b[28]);
  }

  lemma NumberAt(b: seq<byte>, at: nat, value: nat)
    requires at + 4 <= |b| && b[at..at + 4] == Pack(Little, 4, value) && value < 0x1_0000_0000
    ensures value == Weighed(b[at + 3], b[at + 2], b[at + 1], b[at])
  {
    hide *;
    LowFirst(b[at..at + 4], value);
  }

  lemma NameLayout(name: seq<byte>, i: nat)
    requires i < 16
    ensures NameField(name)[i] == if i < |name| then name[i] else 0
  {
  }

  lemma LowFirst(b: seq<byte>, value: nat)
    requires b == Pack(Little, 4, value) && value < 0x1_0000_0000
    ensures |b| == 4 && value == Weighed(b[3], b[2], b[1], b[0])
  {
    hide Pack, Unpack;
    FourByteValue(value);
    LittleFour(b);
  }

  lemma SmallWeighed(a: byte, b: byte, c: byte, d: byte)
    ensures Weighed(a, b, c, d) <= 1 ==> a == b == c == 0 && d == Weighed(a, b, c, d)
  {
  }

  /** And those of a checksum. */
  lemma ChecksumLayout(bytes: seq<byte>)
    ensures var b := Checksum(bytes);
      && b[0] == b[1] == 0xEB && (forall i :: 2 <= i < 16 ==> b[i] == 0xFF) && b[16..] == Digest(bytes)
  {
    hide Digest;
  }
}
