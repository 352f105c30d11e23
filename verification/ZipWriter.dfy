/**
 The archive writer: `dosDateTime` and `buildZip`. The writer fails, as the original throws, when a
 header field does not fit its width; it succeeds on exactly the inputs of `Encodable`.

 Names are the UTF-8 bytes of the entry names: a backslash is one byte in UTF-8 and that byte occurs
 in no other character, so replacing the byte is replacing the character.
 */
module ZipWriter {
  import opened Bytes
  import opened Crc32
  import opened Wrappers
  import opened ZipFormat

  datatype ZipError = RangeError

  // ---------------------------------------------------------------- timestamps

  ghost predicate IsDate(d: Date) {
    && 1 <= d.month <= 12 && 1 <= d.day <= 31
    && d.hours < 24 && d.minutes < 60 && d.seconds < 60
  }

  /** A 32-bit pattern read as a signed number, the result of JavaScript's `<<` and `|`. */
  function ToInt32(pattern: nat): int
    requires pattern < U32_LIMIT
  {
    if pattern < 0x8000_0000 then pattern else pattern - U32_LIMIT
  }

  /** `dosDateTime`; the bit fields are disjoint, so `|` is `+`, and `& 0xffff` keeps seven year bits. */
  function DosDateTime(d: Date): int
    requires IsDate(d)
  {
    ToInt32(DosDatePart(d) % U16_LIMIT * U16_LIMIT + DosTimePart(d) % U16_LIMIT)
  }

  lemma DivModUnique(q: int, r: int, m: int)
    requires 0 <= r < m
    ensures (q * m + r) / m == q
    ensures (q * m + r) % m == r
  {
    var x := q * m + r;
    var d := x / m - q;
    assert x == x / m * m + x % m;
    assert d * m == r - x % m by {
      assert (x / m - q) * m == x / m * m - q * m;
    }
    assert d < 1 by { if d >= 1 { MulMonotone(1, d, m); } }
    assert -1 < d by { if d <= -1 { MulMonotone(d, -1, m); } }
  }

  lemma MulMonotone(a: int, b: int, m: int)
    requires a <= b && 0 < m
    ensures a * m <= b * m
  {
  }

  function DosDatePart(d: Date): int { ((if d.year < 1980 then 1980 else d.year) - 1980) * 512 + (d.month * 32 + d.day) }

  function DosTimePart(d: Date): int { d.hours * 2048 + (d.minutes * 32 + d.seconds / 2) }

  lemma LowDateBits(d: Date)
    requires IsDate(d)
    ensures var offset := (if d.year < 1980 then 1980 else d.year) - 1980;
      DosDatePart(d) % U16_LIMIT == offset % 128 * 512 + (d.month * 32 + d.day)
  {
    var offset := (if d.year < 1980 then 1980 else d.year) - 1980;
    DivModUnique(offset / 128, offset % 128 * 512 + (d.month * 32 + d.day), U16_LIMIT);
  }

  /** The stamp can be written as an unsigned field exactly when bit 6 of the year offset is clear. */
  lemma StampIsWritable(d: Date)
    requires IsDate(d)
    ensures 0 <= DosDateTime(d) <==> d.year < 1980 || (d.year - 1980) % 128 < 64
    ensures DosDateTime(d) < U32_LIMIT
  {
    LowDateBits(d);
  }

  /** The date as the seven bits for the year hold it. */
  function Folded(d: Date): Date {
    d.(year := 1980 + ((if d.year < 1980 then 1980 else d.year) - 1980) % 128)
  }

  lemma FoldedStamp(d: Date)
    requires IsDate(d)
    ensures DosDateTime(Folded(d)) == DosDateTime(d)
  {
    LowDateBits(d);
    LowDateBits(Folded(d));
  }

  /** From every writable stamp a reader gets the folded date, with the seconds rounded down to an even number. */
  lemma StampDecodes(d: Date)
    requires IsDate(d) && 0 <= DosDateTime(d)
    ensures DosDecode(DosDateTime(d)) == Folded(d).(seconds := d.seconds / 2 * 2)
  {
    hide DosDateTime, DosDecode;
    StampIsWritable(d);
    FoldedStamp(d);
    RecentStampDecodes(Folded(d));
  }

  /** So the date itself comes back, up to the odd second, exactly for the years 1980 to 2043. */
  lemma StampDecodesIff(d: Date)
    requires IsDate(d) && 0 <= DosDateTime(d)
    ensures DosDecode(DosDateTime(d)) == d.(seconds := d.seconds / 2 * 2) <==> 1980 <= d.year < 2044
  {
    hide DosDateTime, DosDecode;
    StampIsWritable(d);
    StampDecodes(d);
  }

  /** The first day of 2044 gives a negative number, and the last of 1979 reads as 1980. */
  lemma StampsThatFail()
    ensures DosDateTime(Date(2044, 1, 1, 0, 0, 0)) < 0
    ensures 0 <= DosDateTime(Date(1979, 12, 31, 0, 0, 0))
    ensures DosDecode(DosDateTime(Date(1979, 12, 31, 0, 0, 0))) == Date(1980, 12, 31, 0, 0, 0)
  {
    hide DosDateTime, DosDecode;
    StampIsWritable(Date(2044, 1, 1, 0, 0, 0));
    StampIsWritable(Date(1979, 12, 31, 0, 0, 0));
    StampDecodes(Date(1979, 12, 31, 0, 0, 0));
  }

  lemma RecentStampDecodes(d: Date)
    requires IsDate(d) && 1980 <= d.year < 2044
    ensures 0 <= DosDateTime(d)
    ensures DosDecode(DosDateTime(d)) == d.(seconds := d.seconds / 2 * 2)
  {
    hide DosDatePart, DosTimePart, DosDateTime;
    StampValue(d);
    DivModUnique(DosDatePart(d), DosTimePart(d), U16_LIMIT);
    DatePartDecodes(d);
    TimePartDecodes(d);
  }

  lemma StampValue(d: Date)
    requires IsDate(d) && 1980 <= d.year < 2044
    ensures DosDateTime(d) == DosDatePart(d) * U16_LIMIT + DosTimePart(d)
    ensures 0 <= DosDateTime(d) && 0 <= DosTimePart(d) < U16_LIMIT
  {
    PartBounds(d);
    hide DosDatePart, DosTimePart;
    assert DosDatePart(d) % U16_LIMIT == DosDatePart(d) && DosTimePart(d) % U16_LIMIT == DosTimePart(d);
  }

  lemma PartBounds(d: Date)
    requires IsDate(d) && 1980 <= d.year < 2044
    ensures 0 <= DosDatePart(d) < 0x8000 && 0 <= DosTimePart(d) < U16_LIMIT
  {
  }

  lemma DatePartDecodes(d: Date)
    requires IsDate(d) && 1980 <= d.year < 2044
    ensures var date := DosDatePart(d);
      1980 + date / 512 == d.year && date / 32 % 16 == d.month && date % 32 == d.day
  {
    DivModUnique(d.year - 1980, d.month * 32 + d.day, 512);
    DivModUnique((d.year - 1980) * 16 + d.month, d.day, 32);
    assert DosDatePart(d) == ((d.year - 1980) * 16 + d.month) * 32 + d.day;
    DivModUnique(d.year - 1980, d.month, 16);
  }

  lemma TimePartDecodes(d: Date)
    requires IsDate(d)
    ensures var time := DosTimePart(d);
      time / 2048 == d.hours && time / 32 % 64 == d.minutes && time % 32 == d.seconds / 2
  {
    DivModUnique(d.hours, d.minutes * 32 + d.seconds / 2, 2048);
    DivModUnique(d.hours * 64 + d.minutes, d.seconds / 2, 32);
    assert DosTimePart(d) == (d.hours * 64 + d.minutes) * 32 + d.seconds / 2;
    DivModUnique(d.hours, d.minutes, 64);
  }

  // ---------------------------------------------------------------- what is written

  datatype Entry = Entry(name: ByteString, data: ByteString)

  datatype Options = Options(compress: bool, date: Date)

  const BACKSLASH: Byte := 0x5C
  const SLASH: Byte := 0x2F

  /** `name.replace(/\\/g, '/')` */
  function Slashed(name: ByteString): (r: ByteString)
    ensures |r| == |name|
  {
    seq(|name|, i requires 0 <= i < |name| => if name[i] == BACKSLASH then SLASH else name[i])
  }

  /** An entry as the headers describe it. */
  datatype Prepared = Prepared(name: ByteString, raw: ByteString, stored: ByteString, compression: nat, stamp: int, crc: nat)

  function Prepare(e: Entry, options: Options, deflate: ByteString -> ByteString): Prepared
    requires IsDate(options.date)
  {
    Prepared(Slashed(e.name), e.data,
             if options.compress then deflate(e.data) else e.data,
             if options.compress then DEFLATED else STORED,
             DosDateTime(options.date), Crc(e.data) as int)
  }

  function PrepareAll(es: seq<Entry>, options: Options, deflate: ByteString -> ByteString): (ps: seq<Prepared>)
    requires IsDate(options.date)
    ensures |ps| == |es|
    ensures forall i :: 0 <= i < |es| ==> ps[i] == Prepare(es[i], options, deflate)
  {
    seq(|es|, i requires 0 <= i < |es| => Prepare(es[i], options, deflate))
  }

  function LocalFields(p: Prepared): seq<Field> {
    [Field(4, LOCAL_SIGNATURE), Field(2, 20), Field(2, 0), Field(2, p.compression), Field(4, p.stamp),
     Field(4, p.crc), Field(4, |p.stored|), Field(4, |p.raw|), Field(2, |p.name|), Field(2, 0)]
  }

  /** POSIX mode 0100644 in the high half, as `zip` writes it. */
  const REGULAR_FILE_MODE := 0x81A4_0000

  function CentralFields(p: Prepared, offset: nat): seq<Field> {
    [Field(4, CENTRAL_SIGNATURE), Field(2, 20), Field(2, 20), Field(2, 0), Field(2, p.compression), Field(4, p.stamp),
     Field(4, p.crc), Field(4, |p.stored|), Field(4, |p.raw|), Field(2, |p.name|), Field(2, 0),
     Field(2, 0), Field(2, 0), Field(2, 0), Field(4, REGULAR_FILE_MODE), Field(4, offset)]
  }

  function EndFields(count: nat, centralSize: nat, centralOffset: nat): seq<Field> {
    [Field(4, EOCD_SIGNATURE), Field(2, 0), Field(2, 0), Field(2, count), Field(2, count),
     Field(4, centralSize), Field(4, centralOffset), Field(2, 0)]
  }

  function LocalRecord(p: Prepared): ByteString {
    Encode(LocalFields(p)) + p.name + p.stored
  }

  function Locals(ps: seq<Prepared>): ByteString {
    if |ps| == 0 then [] else Locals(ps[..|ps| - 1]) + LocalRecord(ps[|ps| - 1])
  }

  function CentralRecord(p: Prepared, offset: nat): ByteString {
    Encode(CentralFields(p, offset)) + p.name
  }

  function Centrals(ps: seq<Prepared>): ByteString {
    if |ps| == 0 then []
    else Centrals(ps[..|ps| - 1]) + CentralRecord(ps[|ps| - 1], |Locals(ps[..|ps| - 1])|)
  }

  function Archive(ps: seq<Prepared>): ByteString {
    Locals(ps) + Centrals(ps) + Encode(EndFields(|ps|, |Centrals(ps)|, |Locals(ps)|))
  }

  /** The fields of one entry fit their widths. */
  predicate Writable(p: Prepared) {
    && 0 <= p.stamp < U32_LIMIT && p.crc < U32_LIMIT
    && |p.name| < U16_LIMIT && |p.stored| < U32_LIMIT && |p.raw| < U32_LIMIT
  }

  /** Every entry fits, and so does the offset of its local header. */
  predicate EntriesEncodable(ps: seq<Prepared>) {
    |ps| == 0 ||
    var before := ps[..|ps| - 1];
    EntriesEncodable(before) && Writable(ps[|ps| - 1]) && |Locals(before)| < U32_LIMIT
  }

  /** Exactly the inputs the writer accepts: the format without ZIP64. */
  predicate Encodable(ps: seq<Prepared>) {
    && EntriesEncodable(ps)
    && |ps| < U16_LIMIT && |Centrals(ps)| < U32_LIMIT && |Locals(ps)| < U32_LIMIT
  }

  // ---------------------------------------------------------------- the code

  /** `writeUInt16LE` and `writeUInt32LE`: throw unless the value fits. Each call here continues the
      buffer where the previous one stopped, which `fields` and `i` record. */
  method WriteUInt(buf: array<Byte>, width: nat, value: int, at: nat, ghost fields: seq<Field>, ghost i: nat)
    returns (ok: bool)
    requires at + width <= buf.Length
    requires i < |fields| && fields[i] == Field(width, value)
    requires buf[..at] == Encode(fields[..i])
    modifies buf
    ensures ok <==> 0 <= value < FieldLimit(width)
    ensures ok ==> buf[..at + width] == Encode(fields[..i + 1])
    ensures buf[at + width..] == old(buf[at + width..])
  {
    hide Encode, LittleEndian;
    if !(0 <= value < FieldLimit(width)) {
      return false;
    }
    var bytes := LittleEndian(value, width);
    forall j | 0 <= j < width {
      buf[at + j] := bytes[j];
    }
    EncodePush(fields, i);
    assert buf[..at] == old(buf[..at]);
    assert buf[at..at + width] == bytes;
    assert buf[..at + width] == buf[..at] + buf[at..at + width];
    return true;
  }

  method WriteLocal(p: Prepared) returns (r: Result<array<Byte>, ZipError>)
    requires 0 <= p.stamp ==> p.stamp < U32_LIMIT
    requires p.crc < U32_LIMIT && p.compression < U16_LIMIT
    ensures r.Success? <==> Writable(p)
    ensures r.Success? ==> fresh(r.value) && r.value.Length == LOCAL_SIZE && r.value[..] == Encode(LocalFields(p))
  {
    hide Encode, FieldLimit, LittleEndian;
    FieldLimits();
    ghost var fields := LocalFields(p);
    NothingEncoded(fields);
    var ok;
    var local := new Byte[LOCAL_SIZE](_ => 0);
    var _ := WriteUInt(local, 4, LOCAL_SIGNATURE, 0, fields, 0);
    var _ := WriteUInt(local, 2, 20, 4, fields, 1);
    var _ := WriteUInt(local, 2, 0, 6, fields, 2);
    var _ := WriteUInt(local, 2, p.compression, 8, fields, 3);
    ok := WriteUInt(local, 4, p.stamp, 10, fields, 4);
    if !ok { return Failure(RangeError); }
    var _ := WriteUInt(local, 4, p.crc, 14, fields, 5);
    ok := WriteUInt(local, 4, |p.stored|, 18, fields, 6);
    if !ok { return Failure(RangeError); }
    ok := WriteUInt(local, 4, |p.raw|, 22, fields, 7);
    if !ok { return Failure(RangeError); }
    ok := WriteUInt(local, 2, |p.name|, 26, fields, 8);
    if !ok { return Failure(RangeError); }
    var _ := WriteUInt(local, 2, 0, 28, fields, 9);
    assert local[..30] == local[..] && fields[..10] == fields;
    return Success(local);
  }

  lemma CentralHeadFields(p: Prepared, offset: nat)
    ensures var f := CentralFields(p, offset);
      && |f| == 16 && f[0] == Field(4, CENTRAL_SIGNATURE) && f[1] == f[2] == Field(2, 20) && f[3] == Field(2, 0)
      && f[4] == Field(2, p.compression) && f[5] == Field(4, p.stamp) && f[6] == Field(4, p.crc)
      && f[7] == Field(4, |p.stored|) && f[8] == Field(4, |p.raw|)
  {
  }

  lemma FitsOfWritable(p: Prepared)
    requires Writable(p)
    ensures 0 <= p.stamp < U32_LIMIT && p.crc < U32_LIMIT && |p.stored| < U32_LIMIT && |p.raw| < U32_LIMIT
  {
  }

  method WriteCentralHead(central: array<Byte>, p: Prepared, ghost offset: nat)
    requires central.Length == CENTRAL_SIZE
    requires Writable(p) && p.compression < U16_LIMIT
    modifies central
    ensures central[..28] == Encode(CentralFields(p, offset)[..9])
  {
    hide Encode, FieldLimit, LittleEndian, CentralFields, Writable;
    FieldLimits();
    ghost var fields := CentralFields(p, offset);
    CentralHeadFields(p, offset);
    FitsOfWritable(p);
    NothingEncoded(fields);
    var _ := WriteUInt(central, 4, CENTRAL_SIGNATURE, 0, fields, 0);
    var _ := WriteUInt(central, 2, 20, 4, fields, 1);
    var _ := WriteUInt(central, 2, 20, 6, fields, 2);
    var _ := WriteUInt(central, 2, 0, 8, fields, 3);
    var _ := WriteUInt(central, 2, p.compression, 10, fields, 4);
    var _ := WriteUInt(central, 4, p.stamp, 12, fields, 5);
    var _ := WriteUInt(central, 4, p.crc, 16, fields, 6);
    var _ := WriteUInt(central, 4, |p.stored|, 20, fields, 7);
    var _ := WriteUInt(central, 4, |p.raw|, 24, fields, 8);
  }

  method WriteCentral(p: Prepared, offset: nat) returns (r: Result<array<Byte>, ZipError>)
    requires Writable(p) && p.compression < U16_LIMIT
    ensures r.Success? <==> offset < U32_LIMIT
    ensures r.Success? ==> fresh(r.value) && r.value[..] == Encode(CentralFields(p, offset))
  {
    hide Encode, FieldLimit, LittleEndian;
    FieldLimits();
    ghost var fields := CentralFields(p, offset);
    var ok;
    var central := new Byte[CENTRAL_SIZE](_ => 0);
    WriteCentralHead(central, p, offset);
    var _ := WriteUInt(central, 2, |p.name|, 28, fields, 9);
    var _ := WriteUInt(central, 2, 0, 30, fields, 10);
    var _ := WriteUInt(central, 2, 0, 32, fields, 11);
    var _ := WriteUInt(central, 2, 0, 34, fields, 12);
    var _ := WriteUInt(central, 2, 0, 36, fields, 13);
    var _ := WriteUInt(central, 4, REGULAR_FILE_MODE, 38, fields, 14);
    ok := WriteUInt(central, 4, offset, 42, fields, 15);
    if !ok { return Failure(RangeError); }
    assert central[..46] == central[..] && fields[..16] == fields;
    return Success(central);
  }

  method WriteEnd(count: nat, centralSize: nat, offset: nat) returns (r: Result<array<Byte>, ZipError>)
    ensures r.Success? <==> count < U16_LIMIT && centralSize < U32_LIMIT && offset < U32_LIMIT
    ensures r.Success? ==> fresh(r.value) && r.value[..] == Encode(EndFields(count, centralSize, offset))
  {
    hide Encode, FieldLimit, LittleEndian;
    FieldLimits();
    ghost var fields := EndFields(count, centralSize, offset);
    NothingEncoded(fields);
    var ok;
    var eocd := new Byte[EOCD_SIZE](_ => 0);
    var _ := WriteUInt(eocd, 4, EOCD_SIGNATURE, 0, fields, 0);
    var _ := WriteUInt(eocd, 2, 0, 4, fields, 1);
    var _ := WriteUInt(eocd, 2, 0, 6, fields, 2);
    ok := WriteUInt(eocd, 2, count, 8, fields, 3);
    if !ok { return Failure(RangeError); }
    var _ := WriteUInt(eocd, 2, count, 10, fields, 4);
    ok := WriteUInt(eocd, 4, centralSize, 12, fields, 5);
    if !ok { return Failure(RangeError); }
    ok := WriteUInt(eocd, 4, offset, 16, fields, 6);
    if !ok { return Failure(RangeError); }
    var _ := WriteUInt(eocd, 2, 0, 20, fields, 7);
    assert eocd[..22] == eocd[..] && fields[..8] == fields;
    return Success(eocd);
  }

  lemma NothingEncoded(fields: seq<Field>)
    ensures Encode(fields[..0]) == []
  {
  }

  /** `Buffer.concat` */
  function Concat(parts: seq<ByteString>): ByteString {
    if |parts| == 0 then [] else Concat(parts[..|parts| - 1]) + parts[|parts| - 1]
  }

  lemma ConcatPush(parts: seq<ByteString>, part: ByteString)
    ensures Concat(parts + [part]) == Concat(parts) + part
  {
    assert (parts + [part])[..|parts|] == parts;
  }

  lemma {:induction false} ConcatAppends(a: seq<ByteString>, b: seq<ByteString>)
    ensures Concat(a + b) == Concat(a) + Concat(b)
  {
    if |b| == 0 {
      assert a + b == a;
    } else {
      ConcatAppends(a, b[..|b| - 1]);
      assert (a + b)[..|a + b| - 1] == a + b[..|b| - 1];
    }
  }

  lemma LocalsPush(parts: seq<ByteString>, ps: seq<Prepared>, k: nat)
    requires k < |ps| && Concat(parts) == Locals(ps[..k])
    ensures Concat(parts + [Encode(LocalFields(ps[k]))] + [ps[k].name] + [ps[k].stored]) == Locals(ps[..k + 1])
    ensures |Locals(ps[..k + 1])| == |Locals(ps[..k])| + LOCAL_SIZE + |ps[k].name| + |ps[k].stored|
  {
    hide Encode, Concat;
    var p := ps[k];
    var header := Encode(LocalFields(p));
    assert ps[..k + 1][..k] == ps[..k];
    LocalSize(p);
    ConcatPush(parts, header);
    ConcatPush(parts + [header], p.name);
    ConcatPush(parts + [header] + [p.name], p.stored);
  }

  lemma CentralsPush(parts: seq<ByteString>, ps: seq<Prepared>, k: nat)
    requires k < |ps| && Concat(parts) == Centrals(ps[..k])
    ensures Concat(parts + [Encode(CentralFields(ps[k], |Locals(ps[..k])|))] + [ps[k].name]) == Centrals(ps[..k + 1])
  {
    hide Encode, Concat;
    var header := Encode(CentralFields(ps[k], |Locals(ps[..k])|));
    assert ps[..k + 1][..k] == ps[..k];
    ConcatPush(parts, header);
    ConcatPush(parts + [header], ps[k].name);
  }

  /** Where each field of a local header lies (APPNOTE 4.3.7). */
  lemma LocalLayout(p: Prepared)
    ensures var f := LocalFields(p);
      && OffsetOf(f, 0) == 0 && OffsetOf(f, 1) == 4 && OffsetOf(f, 2) == 6 && OffsetOf(f, 3) == 8 && OffsetOf(f, 4) == 10
      && OffsetOf(f, 5) == 14 && OffsetOf(f, 6) == 18 && OffsetOf(f, 7) == 22 && OffsetOf(f, 8) == 26
      && OffsetOf(f, 9) == 28 && OffsetOf(f, 10) == LOCAL_SIZE
  {
    var f := LocalFields(p);
    assert OffsetOf(f, 1) == 4;
    assert OffsetOf(f, 2) == 6;
    assert OffsetOf(f, 3) == 8;
    assert OffsetOf(f, 4) == 10;
    assert OffsetOf(f, 5) == 14;
    assert OffsetOf(f, 6) == 18;
    assert OffsetOf(f, 7) == 22;
    assert OffsetOf(f, 8) == 26;
    assert OffsetOf(f, 9) == 28;
  }

  /** Where each field of a central entry lies (APPNOTE 4.3.12). */
  lemma CentralLayout(p: Prepared, offset: nat)
    ensures var f := CentralFields(p, offset);
      && OffsetOf(f, 0) == 0 && OffsetOf(f, 1) == 4 && OffsetOf(f, 2) == 6 && OffsetOf(f, 3) == 8 && OffsetOf(f, 4) == 10
      && OffsetOf(f, 5) == 12 && OffsetOf(f, 6) == 16 && OffsetOf(f, 7) == 20 && OffsetOf(f, 8) == 24
      && OffsetOf(f, 9) == 28 && OffsetOf(f, 10) == 30 && OffsetOf(f, 11) == 32 && OffsetOf(f, 12) == 34
      && OffsetOf(f, 13) == 36 && OffsetOf(f, 14) == 38 && OffsetOf(f, 15) == 42 && OffsetOf(f, 16) == CENTRAL_SIZE
  {
    var f := CentralFields(p, offset);
    assert OffsetOf(f, 1) == 4;
    assert OffsetOf(f, 2) == 6;
    assert OffsetOf(f, 3) == 8;
    assert OffsetOf(f, 4) == 10;
    assert OffsetOf(f, 5) == 12;
    assert OffsetOf(f, 6) == 16;
    assert OffsetOf(f, 7) == 20;
    assert OffsetOf(f, 8) == 24;
    assert OffsetOf(f, 9) == 28;
    assert OffsetOf(f, 10) == 30;
    assert OffsetOf(f, 11) == 32;
    assert OffsetOf(f, 12) == 34;
    assert OffsetOf(f, 13) == 36;
    assert OffsetOf(f, 14) == 38;
    assert OffsetOf(f, 15) == 42;
  }

  /** Where each field of the end record lies (APPNOTE 4.3.16). */
  lemma EndLayout(count: nat, centralSize: nat, centralOffset: nat)
    ensures var f := EndFields(count, centralSize, centralOffset);
      && OffsetOf(f, 0) == 0 && OffsetOf(f, 1) == 4 && OffsetOf(f, 2) == 6 && OffsetOf(f, 3) == 8 && OffsetOf(f, 4) == 10
      && OffsetOf(f, 5) == 12 && OffsetOf(f, 6) == 16 && OffsetOf(f, 7) == 20 && OffsetOf(f, 8) == EOCD_SIZE
  {
    var f := EndFields(count, centralSize, centralOffset);
    assert OffsetOf(f, 1) == 4;
    assert OffsetOf(f, 2) == 6;
    assert OffsetOf(f, 3) == 8;
    assert OffsetOf(f, 4) == 10;
    assert OffsetOf(f, 5) == 12;
    assert OffsetOf(f, 6) == 16;
    assert OffsetOf(f, 7) == 20;
  }

  lemma WholeLength(fields: seq<Field>)
    ensures |Encode(fields)| == OffsetOf(fields, |fields|)
  {
    OffsetIsLength(fields, |fields|);
    assert fields[..|fields|] == fields;
  }

  lemma LocalSize(p: Prepared)
    ensures |Encode(LocalFields(p))| == LOCAL_SIZE
  {
    hide Encode, OffsetOf;
    LocalLayout(p);
    WholeLength(LocalFields(p));
  }

  method BuildZip(table: array<Word>, entries: seq<Entry>, options: Options, deflate: ByteString -> ByteString)
    returns (r: Result<ByteString, ZipError>)
    requires IsCrcTable(table[..]) && IsDate(options.date)
    ensures r.Success? <==> Encodable(PrepareAll(entries, options, deflate))
    ensures r.Success? ==> r.value == Archive(PrepareAll(entries, options, deflate))
  {
    hide Encode, Crc, IsCrcTable, DosDateTime, Locals, Centrals, Concat, LocalFields, CentralFields, EndFields, Slashed,
      EntriesEncodable, Writable;
    ghost var ps := PrepareAll(entries, options, deflate);
    var stamp := DosDateTime(options.date);
    StampIsWritable(options.date);
    var localParts: seq<ByteString>, centralParts: seq<ByteString>, offset := [], [], 0;
    NothingWritten(ps);
    var k := 0;
    while k < |entries|
      invariant 0 <= k <= |entries|
      invariant Concat(localParts) == Locals(ps[..k])
      invariant Concat(centralParts) == Centrals(ps[..k])
      invariant offset == |Locals(ps[..k])|
      invariant EntriesEncodable(ps[..k])
    {
      var entry := entries[k];
      var name := Slashed(entry.name);
      var stored := if options.compress then deflate(entry.data) else entry.data;
      var compression := if options.compress then DEFLATED else STORED;
      var crc := ComputeCrc(table, entry.data);
      var p := Prepared(name, entry.data, stored, compression, stamp, crc as int);
      assert p == ps[k];
      EncodableStep(ps, k);
      var local :- WriteLocal(p);
      var central :- WriteCentral(p, offset);
      LocalsPush(localParts, ps, k);
      CentralsPush(centralParts, ps, k);
      localParts := localParts + [local[..]] + [name] + [stored];
      centralParts := centralParts + [central[..]] + [name];
      offset := offset + local.Length + |name| + |stored|;
      k := k + 1;
    }
    assert ps[..k] == ps;
    var centralSize := |Concat(centralParts)|;
    var eocd :- WriteEnd(|entries|, centralSize, offset);
    ConcatAppends(localParts, centralParts);
    ConcatPush(localParts + centralParts, eocd[..]);
    return Success(Concat(localParts + centralParts + [eocd[..]]));
  }

  lemma EncodableStep(ps: seq<Prepared>, k: nat)
    requires k < |ps|
    ensures EntriesEncodable(ps[..k + 1])
       <==> EntriesEncodable(ps[..k]) && Writable(ps[k]) && |Locals(ps[..k])| < U32_LIMIT
    ensures EntriesEncodable(ps) ==> EntriesEncodable(ps[..k + 1])
  {
    EncodablePrefix(ps, k + 1);
    assert ps[..k + 1][..k] == ps[..k];
  }

  lemma NothingWritten(ps: seq<Prepared>)
    ensures Concat([]) == [] && Locals(ps[..0]) == [] && Centrals(ps[..0]) == [] && EntriesEncodable(ps[..0])
  {
  }

  lemma {:induction false} EncodablePrefix(ps: seq<Prepared>, k: nat)
    requires k <= |ps|
    ensures EntriesEncodable(ps) ==> EntriesEncodable(ps[..k])
  {
    if k < |ps| {
      EncodablePrefix(ps[..|ps| - 1], k);
      assert ps[..|ps| - 1][..k] == ps[..k];
    } else {
      assert ps[..k] == ps;
    }
  }
}
