/** The log with its real checksum: CRC32C on integers, and a log written,
    cut short anywhere, and recovered. */
module LogCrc {
  import opened Coding
  import C = Crc32c
  import opened CrcNumbers
  import opened LogFormat
  import opened LogChecksum
  import opened LogRoundTrip
  import LogWriter
  import LogReader

  lemma CrcExtendConcat(crc: Uint32, a: Bytes, b: Bytes)
    ensures CrcExtend(CrcExtend(crc, a), b) == CrcExtend(crc, a + b)
  {
    hide BitSeq, WordOf, ValueOf, C.ExtendSpec;
    WordOfValue(C.ExtendSpec(WordOf(crc), BitsOf(a)));
    assert BitsOf(a + b) == BitsOf(a) + BitsOf(b);
    C.ExtendConcat(WordOf(crc), BitsOf(a), BitsOf(b));
  }

  lemma CrcExtends()
    ensures Extends(CrcExtend)
  {
    hide CrcExtend;
    forall c: Uint32, a: Bytes, b: Bytes ensures CrcExtend(CrcExtend(c, a), b) == CrcExtend(c, a + b) {
      CrcExtendConcat(c, a, b);
    }
  }

  /** The bytes of a log of records. */
  method WriteLog(records: seq<Bytes>) returns (file: Bytes)
    ensures file == EncodedAll(Masked(CrcExtend), 0, records)
  {
    hide CrcExtend, Encoded, EncodedAll, Masked;
    CrcExtends();
    var writer := new LogWriter.Writer(CrcExtend, []);
    var k := 0;
    assert records[0..] == records;
    assert [] + EncodedAll(Masked(CrcExtend), 0, records) == EncodedAll(Masked(CrcExtend), 0, records);
    while k < |records|
      invariant 0 <= k <= |records| && fresh(writer) && writer.Valid() && writer.extend == CrcExtend
      invariant writer.dest + EncodedAll(Masked(CrcExtend), |writer.dest|, records[k..])
           == EncodedAll(Masked(CrcExtend), 0, records)
    {
      EncodedAllNext(Masked(CrcExtend), writer.dest, records, k);
      writer.AddRecord(records[k]);
      k := k + 1;
    }
    EncodedAllEnd(Masked(CrcExtend), |writer.dest|, records);
    return writer.dest;
  }

  lemma EncodedAllNext(c: Checksum, dest: Bytes, records: seq<Bytes>, k: nat)
    requires k < |records|
    ensures var first := Encoded(c, |dest|, records[k], true);
            dest + EncodedAll(c, |dest|, records[k..]) == dest + first + EncodedAll(c, |dest + first|, records[k + 1..])
  {
    hide Encoded;
    var first := Encoded(c, |dest|, records[k], true);
    assert records[k..][0] == records[k] && records[k..][1..] == records[k + 1..];
    var rest := EncodedAll(c, |dest + first|, records[k + 1..]);
    assert dest + (first + rest) == dest + first + rest;
  }

  lemma EncodedAllEnd(c: Checksum, pos: nat, records: seq<Bytes>)
    ensures EncodedAll(c, pos, records[|records|..]) == []
  {
  }

  /** Reading a log that was cut gives the records wholly before the cut. */
  lemma CutReads(records: seq<Bytes>, source: Source, cut: nat) returns (k: nat)
    requires var file := EncodedAll(Masked(CrcExtend), 0, records);
             source.c == Masked(CrcExtend) && source.file == file[..Cut(file, cut)]
    ensures k <= |records| && ReadAll(source, 0) == (records[..k], [])
    ensures forall j :: 0 <= j <= |records| ==>
              (j <= k <==> |EncodedAll(Masked(CrcExtend), 0, records[..j])|
                             <= Cut(EncodedAll(Masked(CrcExtend), 0, records), cut))
  {
    hide CrcExtend, Masked, WhollyBefore, EncodedAll, ReadAll, Sound;
    var file := EncodedAll(Masked(CrcExtend), 0, records);
    MaskedSound(CrcExtend);
    assert source.file[0..] == source.file <= file;
    PrefixReads(source, 0, records);
    k := WhollyBefore(source.c, 0, records, |source.file|);
    forall j | 0 <= j <= |records|
      ensures j <= k <==> |EncodedAll(Masked(CrcExtend), 0, records[..j])| <= |source.file|
    {
      WhollyBeforeCounts(Masked(CrcExtend), 0, records, |source.file|, j);
    }
  }

  /** A log cut anywhere gives back the records that were wholly written before
      the cut, in order, and reports nothing. */
  method WriteAndRecover(records: seq<Bytes>, cut: nat, checksum: bool)
    returns (recovered: seq<Bytes>, reports: seq<nat>)
    ensures recovered <= records && reports == []
    ensures forall k :: 0 <= k <= |records| ==>
              (k <= |recovered| <==> |EncodedAll(Masked(CrcExtend), 0, records[..k])|
                                       <= Cut(EncodedAll(Masked(CrcExtend), 0, records), cut))
  {
    hide CrcExtend, Masked, EncodedAll, ReadAll;
    var file := WriteLog(records);
    var source := Source(Masked(CrcExtend), checksum, file[..Cut(file, cut)]);
    recovered, reports := LogReader.ReadLog(source);
    ghost var k := CutReads(records, source, cut);
  }

  /** Where a file is cut. */
  function Cut(file: Bytes, cut: nat): nat { if cut < |file| then cut else |file| }
}
