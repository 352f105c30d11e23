/**
 The archive layout of PKWARE APPNOTE.TXT (sections 4.3.7, 4.3.12 and 4.3.16) and a reader that
 follows it: end record first, then the central directory, then each local header.
 */
module ZipFormat {
  import opened Bytes
  import opened Crc32
  import opened Wrappers

  const LOCAL_SIGNATURE := 0x04034b50
  const CENTRAL_SIGNATURE := 0x02014b50
  const EOCD_SIGNATURE := 0x06054b50

  const LOCAL_SIZE := 30
  const CENTRAL_SIZE := 46
  const EOCD_SIZE := 22

  const STORED := 0
  const DEFLATED := 8

  // ---------------------------------------------------------------- headers as lists of fields

  datatype Field = Field(width: nat, value: int)

  ghost predicate FieldsFit(fields: seq<Field>) {
    forall i :: 0 <= i < |fields| ==> 0 <= fields[i].value < FieldLimit(fields[i].width)
  }

  /** The fields one after another, each little-endian. */
  function Encode(fields: seq<Field>): ByteString {
    if |fields| == 0 then []
    else
      var last := fields[|fields| - 1];
      Encode(fields[..|fields| - 1]) + LittleEndian(last.value, last.width)
  }

  lemma EncodePush(fields: seq<Field>, i: nat)
    requires i < |fields|
    ensures Encode(fields[..i + 1]) == Encode(fields[..i]) + LittleEndian(fields[i].value, fields[i].width)
    ensures |Encode(fields[..i + 1])| == |Encode(fields[..i])| + fields[i].width
  {
    assert fields[..i + 1][..i] == fields[..i];
  }

  /** Where field `i` starts. */
  function OffsetOf(fields: seq<Field>, i: nat): nat
    requires i <= |fields|
  {
    if i == 0 then 0 else OffsetOf(fields, i - 1) + fields[i - 1].width
  }

  lemma {:induction false} OffsetIsLength(fields: seq<Field>, i: nat)
    requires i <= |fields|
    ensures |Encode(fields[..i])| == OffsetOf(fields, i)
  {
    if i > 0 {
      OffsetIsLength(fields, i - 1);
      EncodePush(fields, i - 1);
    }
  }

  lemma {:induction false} EncodeSplits(fields: seq<Field>, i: nat, n: nat)
    requires i <= n <= |fields|
    ensures Encode(fields[..i]) <= Encode(fields[..n])
    decreases n - i
  {
    if i < n {
      EncodePush(fields, i);
      EncodeSplits(fields, i + 1, n);
    }
  }

  // ---------------------------------------------------------------- the reader

  /** The little-endian field of `width` bytes at `at`. */
  function ReadField(b: ByteString, at: nat, width: nat): nat
    requires at + width <= |b|
  {
    FromLittleEndian(b[at..at + width])
  }

  lemma SliceOfSlice<T>(s: seq<T>, a: nat, b: nat, c: nat, d: nat)
    requires a <= b <= |s| && c <= d <= b - a
    ensures s[a..b][c..d] == s[a + c..a + d]
  {
    forall i | 0 <= i < d - c
      ensures s[a..b][c..d][i] == s[a + c..a + d][i]
    {
      assert s[a..b][c..d][i] == s[a..b][c + i] == s[a + c + i];
    }
  }

  lemma FieldLies(fields: seq<Field>, i: nat)
    requires i < |fields|
    ensures OffsetOf(fields, i) + fields[i].width <= |Encode(fields)|
    ensures Encode(fields)[OffsetOf(fields, i)..OffsetOf(fields, i) + fields[i].width]
         == LittleEndian(fields[i].value, fields[i].width)
  {
    hide LittleEndian, Encode, OffsetOf;
    var from, width, whole := OffsetOf(fields, i), fields[i].width, Encode(fields);
    OffsetIsLength(fields, i);
    EncodePush(fields, i);
    EncodeSplits(fields, i + 1, |fields|);
    assert fields[..|fields|] == fields;
    var upTo := Encode(fields[..i + 1]);
    assert |upTo| == from + width && upTo <= whole;
    assert whole[from..from + width] == upTo[from..];
  }

  lemma FieldReads(b: ByteString, at: nat, fields: seq<Field>, i: nat)
    requires FieldsFit(fields) && i < |fields|
    requires at + |Encode(fields)| <= |b| && b[at..at + |Encode(fields)|] == Encode(fields)
    ensures at + OffsetOf(fields, i) + fields[i].width <= |b|
    ensures ReadField(b, at + OffsetOf(fields, i), fields[i].width) == fields[i].value
  {
    hide FromLittleEndian, LittleEndian, Encode, OffsetOf;
    var from, width := OffsetOf(fields, i), fields[i].width;
    FieldLies(fields, i);
    SliceOfSlice(b, at, at + |Encode(fields)|, from, from + width);
    LittleEndianRoundTrip(fields[i].value, width);
  }

  /** The local-time parts of a date; `month` counts from 1. */
  datatype Date = Date(year: int, month: nat, day: nat, hours: nat, minutes: nat, seconds: nat)

  /** The date a header carries (4.4.6). */
  function DosDecode(stamp: nat): Date {
    var date, time := stamp / U16_LIMIT, stamp % U16_LIMIT;
    Date(1980 + date / 512, date / 32 % 16, date % 32, time / 2048, time / 32 % 64, time % 32 * 2)
  }

  /** What both headers of an entry say: version needed, flags, compression, date and time, checksum and sizes. */
  datatype Facts = Facts(version: nat, flags: nat, compression: nat, stamp: nat, crc: nat, compressedSize: nat, size: nat)

  datatype CentralEntry = CentralEntry(
    madeBy: nat, facts: Facts, name: ByteString, internal: nat, external: nat, localOffset: nat)

  datatype EndRecord = EndRecord(at: nat, count: nat, centralSize: nat, centralOffset: nat)

  /** The end record at `at`: a single disk, and a comment that reaches exactly to the end of the file (4.3.16). */
  function EndRecordAt(b: ByteString, at: nat): Option<EndRecord> {
    if at + EOCD_SIZE > |b| || ReadField(b, at, 4) != EOCD_SIGNATURE then None
    else if ReadField(b, at + 4, 2) != 0 || ReadField(b, at + 6, 2) != 0 then None
    else if ReadField(b, at + 8, 2) != ReadField(b, at + 10, 2) || at + EOCD_SIZE + ReadField(b, at + 20, 2) != |b| then None
    else Some(EndRecord(at, ReadField(b, at + 10, 2), ReadField(b, at + 12, 4), ReadField(b, at + 16, 4)))
  }

  /** The last end record at or before `at`. */
  function FindEndRecord(b: ByteString, at: nat): Option<EndRecord> {
    var here := EndRecordAt(b, at);
    if here.Some? || at == 0 then here else FindEndRecord(b, at - 1)
  }

  /** The facts both headers hold in one order, from the version on. */
  function ReadFacts(b: ByteString, at: nat): Facts
    requires at + 22 <= |b|
  {
    Facts(ReadField(b, at, 2), ReadField(b, at + 2, 2), ReadField(b, at + 4, 2), ReadField(b, at + 6, 4),
          ReadField(b, at + 10, 4), ReadField(b, at + 14, 4), ReadField(b, at + 18, 4))
  }

  /** One central directory entry (4.3.12) of the single disk, and the position just past it. */
  function ReadCentralEntry(b: ByteString, at: nat): (r: Option<(CentralEntry, nat)>)
    ensures r.Some? ==> at + CENTRAL_SIZE <= r.value.1 <= |b|
  {
    if at + CENTRAL_SIZE > |b| || ReadField(b, at, 4) != CENTRAL_SIGNATURE || ReadField(b, at + 34, 2) != 0 then None else
    var nameLength := ReadField(b, at + 28, 2);
    var next := at + CENTRAL_SIZE + nameLength + ReadField(b, at + 30, 2) + ReadField(b, at + 32, 2);
    if next > |b| then None
    else Some((CentralEntry(ReadField(b, at + 4, 2), ReadFacts(b, at + 6), b[at + CENTRAL_SIZE..at + CENTRAL_SIZE + nameLength],
                            ReadField(b, at + 36, 2), ReadField(b, at + 38, 4), ReadField(b, at + 42, 4)), next))
  }

  /** `count` consecutive central entries and the position just past them. */
  function ReadCentral(b: ByteString, at: nat, count: nat): Option<(seq<CentralEntry>, nat)>
    decreases count
  {
    if count == 0 then Some(([], at)) else
    match ReadCentralEntry(b, at)
    case None => None
    case Some((entry, next)) =>
      match ReadCentral(b, next, count - 1)
      case None => None
      case Some((rest, end)) => Some(([entry] + rest, end))
  }

  /** The stored bytes of an entry: a local header (4.3.7) that says the same as the central one, then data. */
  function ReadStored(b: ByteString, entry: CentralEntry): Option<ByteString> {
    var at := entry.localOffset;
    if at + LOCAL_SIZE > |b| || ReadField(b, at, 4) != LOCAL_SIGNATURE || ReadFacts(b, at + 4) != entry.facts then None else
    var nameLength := ReadField(b, at + 26, 2);
    var data := at + LOCAL_SIZE + nameLength + ReadField(b, at + 28, 2);
    if data + entry.facts.compressedSize <= |b| && b[at + LOCAL_SIZE..at + LOCAL_SIZE + nameLength] == entry.name
    then Some(b[data..data + entry.facts.compressedSize]) else None
  }

  /** The contents of an entry that version 2.0 can extract and that is not encrypted, checked against its recorded size and
      checksum. */
  function ReadData(b: ByteString, entry: CentralEntry, inflate: ByteString -> Option<ByteString>): Option<ByteString> {
    match ReadStored(b, entry)
    case None => None
    case Some(stored) =>
      var f := entry.facts;
      var data := if f.version > 20 || f.flags != 0 then None
                  else if f.compression == STORED then Some(stored)
                  else if f.compression == DEFLATED then inflate(stored) else None;
      if data.Some? && |data.value| == f.size && Crc(data.value) as int == f.crc then data else None
  }

  /** An entry as it is read: what it holds, when it was changed, its POSIX mode and how it was compressed. */
  datatype ReadEntry = ReadEntry(name: ByteString, data: ByteString, modified: Date, mode: nat, compression: nat)

  function ReadAllData(b: ByteString, entries: seq<CentralEntry>, inflate: ByteString -> Option<ByteString>)
    : Option<seq<ReadEntry>>
  {
    if |entries| == 0 then Some([]) else
    var e := entries[0];
    match (ReadData(b, e, inflate), ReadAllData(b, entries[1..], inflate))
    case (Some(data), Some(rest)) =>
      Some([ReadEntry(e.name, data, DosDecode(e.facts.stamp), e.external / U16_LIMIT, e.facts.compression)] + rest)
    case _ => None
  }

  /** The whole archive; the central directory must fill exactly the span the end record gives it. */
  function ReadArchive(b: ByteString, inflate: ByteString -> Option<ByteString>): Option<seq<ReadEntry>> {
    if |b| < EOCD_SIZE then None else
    match FindEndRecord(b, |b| - EOCD_SIZE)
    case None => None
    case Some(end) =>
      match ReadCentral(b, end.centralOffset, end.count)
      case None => None
      case Some((entries, past)) =>
        if past == end.centralOffset + end.centralSize == end.at
        then ReadAllData(b, entries, inflate) else None
  }
}
