/** What the reader of the standard makes of the writer's bytes. */
module ZipRoundTrip {
  import opened Bytes
  import opened Crc32
  import opened Wrappers
  import opened ZipFormat
  import opened ZipWriter

  /** The prepared entry's stored form decodes to its data, and its checksum is the data's. */
  ghost predicate Consistent(p: Prepared, inflate: ByteString -> Option<ByteString>) {
    && p.crc == Crc(p.raw) as int
    && ((p.compression == STORED && p.stored == p.raw)
     || (p.compression == DEFLATED && inflate(p.stored) == Some(p.raw)))
  }

  /** The central entry the reader should see for entry `i`: its offset is that of its own local header. */
  function Meta(ps: seq<Prepared>, i: nat): CentralEntry
    requires i < |ps| && ps[i].stamp >= 0
  {
    EntryOf(ps[i], |Locals(ps[..i])|)
  }

  function FactsOf(p: Prepared): Facts
    requires p.stamp >= 0
  {
    Facts(20, 0, p.compression, p.stamp, p.crc, |p.stored|, |p.raw|)
  }

  function EntryOf(p: Prepared, offset: nat): CentralEntry
    requires p.stamp >= 0
  {
    CentralEntry(20, FactsOf(p), p.name, 0, REGULAR_FILE_MODE, offset)
  }

  function Metas(ps: seq<Prepared>, from: nat): (ms: seq<CentralEntry>)
    requires from <= |ps| && forall i :: 0 <= i < |ps| ==> ps[i].stamp >= 0
    ensures |ms| == |ps| - from
    ensures forall i :: 0 <= i < |ms| ==> ms[i] == Meta(ps, from + i)
    decreases |ps| - from
  {
    if from == |ps| then [] else [Meta(ps, from)] + Metas(ps, from + 1)
  }

  // ---------------------------------------------------------------- one header at a time

  lemma FieldsOfWritable(p: Prepared, offset: nat)
    requires Writable(p) && p.compression < U16_LIMIT && offset < U32_LIMIT
    ensures FieldsFit(LocalFields(p)) && FieldsFit(CentralFields(p, offset))
  {
    FieldLimits();
  }

  lemma ReadsCentral(b: ByteString, at: nat, p: Prepared, offset: nat)
    requires Writable(p) && p.compression < U16_LIMIT && offset < U32_LIMIT
    requires at + CENTRAL_SIZE + |p.name| <= |b|
    requires |Encode(CentralFields(p, offset))| == CENTRAL_SIZE
    requires b[at..at + CENTRAL_SIZE] == Encode(CentralFields(p, offset))
    requires b[at + CENTRAL_SIZE..at + CENTRAL_SIZE + |p.name|] == p.name
    ensures ReadCentralEntry(b, at) == Some((EntryOf(p, offset), at + CENTRAL_SIZE + |p.name|))
  {
    hide Encode, ReadField, OffsetOf, FieldsFit;
    var f := CentralFields(p, offset);
    FieldsOfWritable(p, offset);
    CentralLayout(p, offset);
    FieldReads(b, at, f, 0);
    FieldReads(b, at, f, 1);
    FieldReads(b, at, f, 2);
    FieldReads(b, at, f, 3);
    FieldReads(b, at, f, 4);
    FieldReads(b, at, f, 5);
    FieldReads(b, at, f, 6);
    FieldReads(b, at, f, 7);
    FieldReads(b, at, f, 8);
    FieldReads(b, at, f, 9);
    FieldReads(b, at, f, 10);
    FieldReads(b, at, f, 11);
    FieldReads(b, at, f, 12);
    FieldReads(b, at, f, 13);
    FieldReads(b, at, f, 14);
    FieldReads(b, at, f, 15);
  }

  lemma ReadsLocal(b: ByteString, at: nat, p: Prepared)
    requires Writable(p) && p.compression < U16_LIMIT
    requires at + LOCAL_SIZE + |p.name| + |p.stored| <= |b|
    requires b[at..at + LOCAL_SIZE] == Encode(LocalFields(p))
    requires b[at + LOCAL_SIZE..at + LOCAL_SIZE + |p.name|] == p.name
    requires b[at + LOCAL_SIZE + |p.name|..at + LOCAL_SIZE + |p.name| + |p.stored|] == p.stored
    ensures ReadStored(b, EntryOf(p, at)) == Some(p.stored)
  {
    hide Encode, ReadField, OffsetOf, FieldsFit;
    var f := LocalFields(p);
    FieldsOfWritable(p, 0);
    LocalLayout(p);
    FieldReads(b, at, f, 0);
    FieldReads(b, at, f, 1);
    FieldReads(b, at, f, 2);
    FieldReads(b, at, f, 3);
    FieldReads(b, at, f, 4);
    FieldReads(b, at, f, 5);
    FieldReads(b, at, f, 6);
    FieldReads(b, at, f, 7);
    FieldReads(b, at, f, 8);
    FieldReads(b, at, f, 9);
  }

  lemma ReadsEnd(b: ByteString, at: nat, count: nat, centralSize: nat, centralOffset: nat)
    requires count < U16_LIMIT && centralSize < U32_LIMIT && centralOffset < U32_LIMIT
    requires at + EOCD_SIZE == |b| && b[at..] == Encode(EndFields(count, centralSize, centralOffset))
    ensures FindEndRecord(b, at) == Some(EndRecord(at, count, centralSize, centralOffset))
  {
    hide Encode, ReadField, OffsetOf, FieldsFit;
    var f := EndFields(count, centralSize, centralOffset);
    assert FieldsFit(f) by { EndFieldsFit(count, centralSize, centralOffset); }
    EndLayout(count, centralSize, centralOffset);
    assert b[at..] == b[at..at + EOCD_SIZE];
    FieldReads(b, at, f, 0);
    FieldReads(b, at, f, 1);
    FieldReads(b, at, f, 2);
    FieldReads(b, at, f, 3);
    FieldReads(b, at, f, 4);
    FieldReads(b, at, f, 5);
    FieldReads(b, at, f, 6);
    FieldReads(b, at, f, 7);
  }

  lemma EndFieldsFit(count: nat, centralSize: nat, centralOffset: nat)
    requires count < U16_LIMIT && centralSize < U32_LIMIT && centralOffset < U32_LIMIT
    ensures FieldsFit(EndFields(count, centralSize, centralOffset))
  {
    FieldLimits();
  }

  // ---------------------------------------------------------------- where the parts lie

  /** `part` lies in `b` at `at`. */
  ghost predicate Lies(b: ByteString, at: nat, part: ByteString) {
    at + |part| <= |b| && b[at..at + |part|] == part
  }

  lemma LiesSplits(b: ByteString, at: nat, x: ByteString, y: ByteString)
    requires Lies(b, at, x + y)
    ensures Lies(b, at, x) && Lies(b, at + |x|, y)
  {
    SliceOfSlice(b, at, at + |x + y|, 0, |x|);
    SliceOfSlice(b, at, at + |x + y|, |x|, |x + y|);
    assert (x + y)[0..|x|] == x && (x + y)[|x|..|x + y|] == y;
  }

  lemma LiesInside(b: ByteString, at: nat, whole: ByteString, prefix: ByteString)
    requires Lies(b, at, whole) && prefix <= whole
    ensures Lies(b, at, prefix)
  {
    assert whole == prefix + whole[|prefix|..];
    LiesSplits(b, at, prefix, whole[|prefix|..]);
  }

  lemma {:induction false} LocalsArePrefixes(ps: seq<Prepared>, i: nat)
    requires i <= |ps|
    ensures Locals(ps[..i]) <= Locals(ps)
    ensures Centrals(ps[..i]) <= Centrals(ps)
  {
    hide LocalRecord, CentralRecord;
    if i == |ps| {
      assert ps[..i] == ps;
    } else {
      LocalsArePrefixes(ps[..|ps| - 1], i);
      assert ps[..|ps| - 1][..i] == ps[..i];
    }
  }

  lemma LocalLies(b: ByteString, ps: seq<Prepared>, i: nat)
    requires i < |ps| && Lies(b, 0, Locals(ps))
    ensures Lies(b, |Locals(ps[..i])|, LocalRecord(ps[i]))
  {
    hide LocalRecord, Lies;
    LocalsArePrefixes(ps, i + 1);
    LiesInside(b, 0, Locals(ps), Locals(ps[..i + 1]));
    assert ps[..i + 1][..i] == ps[..i];
    LiesSplits(b, 0, Locals(ps[..i]), LocalRecord(ps[i]));
  }

  lemma CentralLies(b: ByteString, at: nat, ps: seq<Prepared>, i: nat)
    requires i < |ps| && Lies(b, at, Centrals(ps))
    ensures Lies(b, at + |Centrals(ps[..i])|, CentralRecord(ps[i], |Locals(ps[..i])|))
    ensures |Centrals(ps[..i + 1])| == |Centrals(ps[..i])| + |CentralRecord(ps[i], |Locals(ps[..i])|)|
  {
    hide CentralRecord, Lies;
    LocalsArePrefixes(ps, i + 1);
    LiesInside(b, at, Centrals(ps), Centrals(ps[..i + 1]));
    assert ps[..i + 1][..i] == ps[..i];
    LiesSplits(b, at, Centrals(ps[..i]), CentralRecord(ps[i], |Locals(ps[..i])|));
  }

  lemma {:induction false} EachEncodable(ps: seq<Prepared>, i: nat)
    requires EntriesEncodable(ps) && i < |ps|
    ensures Writable(ps[i]) && |Locals(ps[..i])| < U32_LIMIT
  {
    hide Locals;
    if i < |ps| - 1 {
      EachEncodable(ps[..|ps| - 1], i);
      assert ps[..|ps| - 1][..i] == ps[..i];
    }
  }

  // ---------------------------------------------------------------- the reader on the whole archive

  lemma {:induction false} ReadsCentrals(b: ByteString, at: nat, ps: seq<Prepared>, i: nat)
    requires Lies(b, at, Centrals(ps)) && EntriesEncodable(ps) && i <= |ps|
    requires forall k :: 0 <= k < |ps| ==> ps[k].compression < U16_LIMIT && ps[k].stamp >= 0
    ensures ReadCentral(b, at + |Centrals(ps[..i])|, |ps| - i) == Some((Metas(ps, i), at + |Centrals(ps)|))
    decreases |ps| - i
  {
    hide Lies, Encode, Locals, Centrals, CentralFields, ReadCentralEntry, EntriesEncodable;
    if i == |ps| {
      assert ps[..i] == ps;
    } else {
      var p, offset, here := ps[i], |Locals(ps[..i])|, at + |Centrals(ps[..i])|;
      CentralLies(b, at, ps, i);
      EachEncodable(ps, i);
      OneCentral(b, here, p, offset);
      ReadsCentrals(b, at, ps, i + 1);
    }
  }

  lemma OneCentral(b: ByteString, at: nat, p: Prepared, offset: nat)
    requires Lies(b, at, CentralRecord(p, offset))
    requires Writable(p) && p.compression < U16_LIMIT && offset < U32_LIMIT
    ensures ReadCentralEntry(b, at) == Some((EntryOf(p, offset), at + |CentralRecord(p, offset)|))
  {
    hide Encode, CentralFields, ReadCentralEntry;
    var f := CentralFields(p, offset);
    CentralLayout(p, offset);
    CentralCount(p, offset);
    WholeLength(f);
    LiesSplits(b, at, Encode(f), p.name);
    ReadsCentral(b, at, p, offset);
  }

  lemma CentralCount(p: Prepared, offset: nat)
    ensures |CentralFields(p, offset)| == 16
  {
  }

  lemma ReadsEntry(b: ByteString, ps: seq<Prepared>, i: nat, inflate: ByteString -> Option<ByteString>)
    requires Lies(b, 0, Locals(ps)) && EntriesEncodable(ps) && i < |ps|
    requires Consistent(ps[i], inflate) && ps[i].stamp >= 0
    ensures ReadData(b, Meta(ps, i), inflate) == Some(ps[i].raw)
  {
    hide Encode, Lies, Locals, LocalRecord, EntriesEncodable, ReadStored, Crc;
    LocalLies(b, ps, i);
    EachEncodable(ps, i);
    OneLocal(b, |Locals(ps[..i])|, ps[i]);
  }

  lemma OneLocal(b: ByteString, at: nat, p: Prepared)
    requires Lies(b, at, LocalRecord(p)) && Writable(p) && p.compression < U16_LIMIT
    ensures ReadStored(b, EntryOf(p, at)) == Some(p.stored)
  {
    hide Encode, LocalFields, ReadStored;
    LocalSize(p);
    var header := Encode(LocalFields(p));
    LiesSplits(b, at, header + p.name, p.stored);
    LiesSplits(b, at, header, p.name);
    ReadsLocal(b, at, p);
  }

  function Named(ps: seq<Prepared>): (r: seq<ReadEntry>)
    requires forall k :: 0 <= k < |ps| ==> ps[k].stamp >= 0
    ensures |r| == |ps|
  {
    seq(|ps|, i requires 0 <= i < |ps| =>
      ReadEntry(ps[i].name, ps[i].raw, DosDecode(ps[i].stamp), REGULAR_FILE_MODE / U16_LIMIT, ps[i].compression))
  }

  lemma StampsAreWritten(ps: seq<Prepared>)
    requires EntriesEncodable(ps)
    ensures forall k :: 0 <= k < |ps| ==> ps[k].stamp >= 0
  {
    hide EntriesEncodable;
    forall k | 0 <= k < |ps|
      ensures ps[k].stamp >= 0
    {
      EachEncodable(ps, k);
    }
  }

  lemma {:induction false} ReadsAll(b: ByteString, ps: seq<Prepared>, i: nat, inflate: ByteString -> Option<ByteString>)
    requires Lies(b, 0, Locals(ps)) && EntriesEncodable(ps) && i <= |ps|
    requires forall k :: 0 <= k < |ps| ==> Consistent(ps[k], inflate) && ps[k].stamp >= 0
    ensures ReadAllData(b, Metas(ps, i), inflate) == Some(Named(ps)[i..])
    decreases |ps| - i
  {
    hide Lies, Locals, EntriesEncodable, ReadData, Consistent;
    if i < |ps| {
      ReadsEntry(b, ps, i, inflate);
      ReadsAll(b, ps, i + 1, inflate);
      assert Metas(ps, i)[1..] == Metas(ps, i + 1);
      assert Named(ps)[i..] == [Named(ps)[i]] + Named(ps)[i + 1..];
    } else {
      assert Metas(ps, i) == [] && Named(ps)[i..] == [];
    }
  }

  lemma ArchiveReads(ps: seq<Prepared>, inflate: ByteString -> Option<ByteString>)
    requires Encodable(ps)
    requires forall k :: 0 <= k < |ps| ==> Consistent(ps[k], inflate)
    ensures forall k :: 0 <= k < |ps| ==> ps[k].stamp >= 0
    ensures ReadArchive(Archive(ps), inflate) == Some(Named(ps))
  {
    hide Encode, Locals, Centrals, EntriesEncodable, EndFields, FindEndRecord, ReadCentral, ReadAllData;
    var l, c, b := Locals(ps), Centrals(ps), Archive(ps);
    var f := EndFields(|ps|, |c|, |l|);
    EndLayout(|ps|, |c|, |l|);
    EndCount(|ps|, |c|, |l|);
    WholeLength(f);
    var at := |l| + |c|;
    assert Lies(b, 0, l + c + Encode(f));
    LiesSplits(b, 0, l + c, Encode(f));
    LiesSplits(b, 0, l, c);
    assert b[at..at + EOCD_SIZE] == b[at..];
    ReadsEnd(b, at, |ps|, |c|, |l|);
    NothingBefore(ps);
    StampsAreWritten(ps);
    ReadsCentrals(b, |l|, ps, 0);
    ReadsAll(b, ps, 0, inflate);
  }

  lemma EndCount(count: nat, centralSize: nat, centralOffset: nat)
    ensures |EndFields(count, centralSize, centralOffset)| == 8
  {
  }

  lemma NothingBefore(ps: seq<Prepared>)
    ensures |Centrals(ps[..0])| == 0
  {
  }

  /** The POSIX mode of a regular file that its owner may write and all may read. */
  const MODE_0644 := 8 * 4096 + 6 * 64 + 4 * 8 + 4

  /** What a reader must recover: names with slashes, the data, the date to the even second with the year in seven bits, the
      mode of a regular file, and how it was compressed. */
  function Recovered(entries: seq<Entry>, options: Options): (r: seq<ReadEntry>)
    ensures |r| == |entries|
  {
    var modified := Folded(options.date).(seconds := options.date.seconds / 2 * 2);
    seq(|entries|, i requires 0 <= i < |entries| =>
      ReadEntry(Slashed(entries[i].name), entries[i].data, modified, MODE_0644, if options.compress then 8 else 0))
  }

  /** The round trip: whatever the writer accepts, the standard's reader recovers. */
  lemma ZipRoundTrip(entries: seq<Entry>, options: Options, deflate: ByteString -> ByteString,
                     inflate: ByteString -> Option<ByteString>)
    requires IsDate(options.date)
    requires forall d :: inflate(deflate(d)) == Some(d)
    requires Encodable(PrepareAll(entries, options, deflate))
    ensures ReadArchive(Archive(PrepareAll(entries, options, deflate)), inflate) == Some(Recovered(entries, options))
  {
    hide Encodable, Crc, DosDateTime, DosDecode, Archive, ReadArchive;
    var ps := PrepareAll(entries, options, deflate);
    forall k | 0 <= k < |ps|
      ensures Consistent(ps[k], inflate)
    {
      assert inflate(deflate(entries[k].data)) == Some(entries[k].data);
    }
    ArchiveReads(ps, inflate);
    if |ps| > 0 {
      assert ps[0].stamp == DosDateTime(options.date);
      StampDecodes(options.date);
    }
    assert Named(ps) == Recovered(entries, options);
  }

  /** A reader sees slashes for backslashes and every other byte of a name. */
  lemma NamesHaveSlashes(name: ByteString, i: nat)
    requires i < |name|
    ensures |Slashed(name)| == |name| && Slashed(name)[i] != 0x5C
    ensures Slashed(name)[i] == name[i] <==> name[i] != 0x5C
    ensures name[i] == 0x5C ==> Slashed(name)[i] == 0x2F
  {
  }

  // ---------------------------------------------------------------- what the writer accepts

  function SizeOfLocals(ps: seq<Prepared>): nat {
    if |ps| == 0 then 0
    else SizeOfLocals(ps[..|ps| - 1]) + 30 + |ps[|ps| - 1].name| + |ps[|ps| - 1].stored|
  }

  function SizeOfCentrals(ps: seq<Prepared>): nat {
    if |ps| == 0 then 0 else SizeOfCentrals(ps[..|ps| - 1]) + 46 + |ps[|ps| - 1].name|
  }

  lemma {:induction false} SizesAre(ps: seq<Prepared>)
    ensures |Locals(ps)| == SizeOfLocals(ps) && |Centrals(ps)| == SizeOfCentrals(ps)
  {
    hide Encode, LocalFields, CentralFields;
    if |ps| > 0 {
      var front, last := ps[..|ps| - 1], ps[|ps| - 1];
      SizesAre(front);
      LocalSize(last);
      CentralFieldsSize(last, |Locals(front)|);
    }
  }

  lemma CentralFieldsSize(p: Prepared, offset: nat)
    ensures |Encode(CentralFields(p, offset))| == 46
  {
    hide Encode, CentralFields;
    CentralLayout(p, offset);
    CentralCount(p, offset);
    WholeLength(CentralFields(p, offset));
  }

  lemma {:induction false} EntriesFitIff(ps: seq<Prepared>)
    requires SizeOfLocals(ps) < U32_LIMIT
    ensures EntriesEncodable(ps) <==> forall k :: 0 <= k < |ps| ==> Writable(ps[k])
  {
    hide Writable, Locals;
    if |ps| > 0 {
      var front := ps[..|ps| - 1];
      EntriesFitIff(front);
      SizesAre(front);
      assert forall k :: 0 <= k < |front| ==> front[k] == ps[k];
    }
  }

  predicate Fits(e: Entry, options: Options, deflate: ByteString -> ByteString) {
    && |e.name| < 0x1_0000 && |e.data| < 0x1_0000_0000
    && (options.compress ==> |deflate(e.data)| < 0x1_0000_0000)
  }

  /** The writer accepts exactly this: fewer than 2^16 entries with names shorter than 2^16 and data shorter than 2^32, also
      compressed, that with their headers take less than 2^32 bytes, as does the directory, and, unless there is no entry, a date
      whose year offset has bit 6 clear. */
  lemma AcceptedIff(entries: seq<Entry>, options: Options, deflate: ByteString -> ByteString)
    requires IsDate(options.date)
    ensures var ps, d := PrepareAll(entries, options, deflate), options.date;
      Encodable(ps)
      <==> && |entries| < 0x1_0000
           && (entries == [] || d.year < 1980 || (d.year - 1980) % 128 < 64)
           && (forall k :: 0 <= k < |entries| ==> Fits(entries[k], options, deflate))
           && SizeOfLocals(ps) < 0x1_0000_0000 && SizeOfCentrals(ps) < 0x1_0000_0000
  {
    hide EntriesEncodable, Locals, Centrals, DosDateTime, Crc, SizeOfLocals, SizeOfCentrals;
    var ps := PrepareAll(entries, options, deflate);
    SizesAre(ps);
    StampIsWritable(options.date);
    if SizeOfLocals(ps) < U32_LIMIT {
      EntriesFitIff(ps);
      forall k | 0 <= k < |entries|
        ensures Writable(ps[k]) <==> 0 <= DosDateTime(options.date) && Fits(entries[k], options, deflate)
      {
        CrcIsWord(entries[k].data);
      }
      hide Writable, Fits;
      if forall k :: 0 <= k < |entries| ==> Fits(entries[k], options, deflate) {
        assert EntriesEncodable(ps) <==> (|entries| > 0 ==> Writable(ps[0]));
      } else {
        var k :| 0 <= k < |entries| && !Fits(entries[k], options, deflate);
        assert !Writable(ps[k]);
      }
    }
  }

  lemma CrcIsWord(data: ByteString)
    ensures Crc(data) as int < U32_LIMIT
  {
  }
}
