/** The manifest record (db/version_edit.cc): encoding and decoding. */
module VersionEdits {
  import opened Options
  import opened Coding
  import opened DbFormat

  /** Strings whose length a 32-bit prefix holds. */
  type Slice = b: Bytes | |b| < TWO32 witness []

  datatype FileMeta = FileMeta(number: Uint64, fileSize: Uint64, smallest: Slice, largest: Slice)

  /** deletedFiles is a std::set in the order of its iteration. */
  datatype VersionEdit = VersionEdit(
    comparator: Option<Slice>,
    logNumber: Option<Uint64>,
    prevLogNumber: Option<Uint64>,
    nextFileNumber: Option<Uint64>,
    lastSequence: Option<Uint64>,
    compactPointers: seq<(Uint32, Slice)>,
    deletedFiles: seq<(Uint32, Uint64)>,
    newFiles: seq<(Uint32, FileMeta)>)

  function Empty(): VersionEdit { VersionEdit(None, None, None, None, None, [], [], []) }

  predicate PairLess(a: (Uint32, Uint64), b: (Uint32, Uint64)) { a.0 < b.0 || (a.0 == b.0 && a.1 < b.1) }

  ghost predicate SortedSet(s: seq<(Uint32, Uint64)>) {
    forall i, j :: 0 <= i < j < |s| ==> PairLess(s[i], s[j])
  }

  function InsertPair(s: seq<(Uint32, Uint64)>, x: (Uint32, Uint64)): seq<(Uint32, Uint64)> {
    if s == [] || PairLess(x, s[0]) then [x] + s
    else if x == s[0] then s
    else [s[0]] + InsertPair(s[1..], x)
  }

  // ----- tagged fields -----

  datatype Field =
    | Comparator(name: Slice)
    | LogNumber(number: Uint64)
    | NextFileNumber(number: Uint64)
    | LastSequence(number: Uint64)
    | CompactPointer(level: Uint32, key: Slice)
    | DeletedFile(level: Uint32, number: Uint64)
    | NewFile(level: Uint32, file: FileMeta)
    | PrevLogNumber(number: Uint64)

  function Tag(f: Field): Byte {
    match f
    case Comparator(_) => 1
    case LogNumber(_) => 2
    case NextFileNumber(_) => 3
    case LastSequence(_) => 4
    case CompactPointer(_, _) => 5
    case DeletedFile(_, _) => 6
    case NewFile(_, _) => 7
    case PrevLogNumber(_) => 9
  }

  function EncodePayload(f: Field): Bytes {
    match f
    case Comparator(name) => PutLengthPrefixedSlice(name)
    case LogNumber(n) => Varint(n)
    case NextFileNumber(n) => Varint(n)
    case LastSequence(n) => Varint(n)
    case CompactPointer(level, key) => Varint(level) + PutLengthPrefixedSlice(key)
    case DeletedFile(level, n) => Varint(level) + Varint(n)
    case NewFile(level, file) =>
      Varint(level) + (Varint(file.number) + (Varint(file.fileSize) +
        (PutLengthPrefixedSlice(file.smallest) + PutLengthPrefixedSlice(file.largest))))
    case PrevLogNumber(n) => Varint(n)
  }

  function EncodeField(f: Field): Bytes { Varint(Tag(f)) + EncodePayload(f) }

  function EncodeFields(fields: seq<Field>): Bytes {
    if fields == [] then [] else EncodeField(fields[0]) + EncodeFields(fields[1..])
  }

  lemma {:induction false} EncodeFieldsConcat(a: seq<Field>, b: seq<Field>)
    ensures EncodeFields(a + b) == EncodeFields(a) + EncodeFields(b)
  {
    hide EncodeField;
    if a == [] {
      assert a + b == b;
    } else {
      assert (a + b)[1..] == a[1..] + b;
      EncodeFieldsConcat(a[1..], b);
    }
  }

  function GetLevel(input: Bytes): Option<(Uint32, Bytes)> {
    match GetVarint32(input)
    case None => None
    case Some((v, rest)) => if v < NUM_LEVELS then Some((v, rest)) else None
  }

  function GetSlice(input: Bytes): Option<(Slice, Bytes)> {
    match GetLengthPrefixedSlice(input)
    case None => None
    case Some((v, rest)) => if |v| < TWO32 then Some((v, rest)) else None
  }

  function GetInternalKey(input: Bytes): Option<(Slice, Bytes)> {
    match GetSlice(input)
    case None => None
    case Some((v, rest)) => if v != [] then Some((v, rest)) else None
  }

  function DecodeNumber(make: Uint64 -> Field, input: Bytes): Option<(Field, Bytes)> {
    match GetVarint64(input)
    case None => None
    case Some((n, rest)) => Some((make(n), rest))
  }

  /** The field of a tag at the front of the input. */
  function DecodePayload(tag: Uint32, input: Bytes): Option<(Field, Bytes)> {
    match tag
    case 1 =>
      (match GetSlice(input)
       case None => None
       case Some((name, rest)) => Some((Comparator(name), rest)))
    case 2 => DecodeNumber((n: Uint64) => LogNumber(n), input)
    case 3 => DecodeNumber((n: Uint64) => NextFileNumber(n), input)
    case 4 => DecodeNumber((n: Uint64) => LastSequence(n), input)
    case 5 => DecodePointer(input)
    case 6 => DecodeDeleted(input)
    case 7 => DecodeNewFile(input)
    case 9 => DecodeNumber((n: Uint64) => PrevLogNumber(n), input)
    case _ => None
  }

  function DecodePointer(input: Bytes): Option<(Field, Bytes)> {
    match GetLevel(input)
    case None => None
    case Some((level, a)) =>
      match GetInternalKey(a)
      case None => None
      case Some((key, rest)) => Some((CompactPointer(level, key), rest))
  }

  function DecodeDeleted(input: Bytes): Option<(Field, Bytes)> {
    match GetLevel(input)
    case None => None
    case Some((level, a)) =>
      match GetVarint64(a)
      case None => None
      case Some((n, rest)) => Some((DeletedFile(level, n), rest))
  }

  function DecodeNewFile(input: Bytes): Option<(Field, Bytes)> {
    match GetLevel(input)
    case None => None
    case Some((level, a)) =>
      match GetVarint64(a)
      case None => None
      case Some((number, b)) =>
        match GetVarint64(b)
        case None => None
        case Some((size, c)) =>
          match GetInternalKey(c)
          case None => None
          case Some((smallest, d)) =>
            match GetInternalKey(d)
            case None => None
            case Some((largest, rest)) => Some((NewFile(level, FileMeta(number, size, smallest, largest)), rest))
  }

  /** What decoding accepts: a level below seven, and keys that are not empty. */
  predicate Legal(f: Field) {
    match f
    case CompactPointer(level, key) => level < NUM_LEVELS && key != []
    case DeletedFile(level, _) => level < NUM_LEVELS
    case NewFile(level, file) => level < NUM_LEVELS && file.smallest != [] && file.largest != []
    case _ => true
  }

  lemma LevelRead(level: Uint32, rest: Bytes)
    ensures GetLevel(Varint(level) + rest) == if level < NUM_LEVELS then Some((level, rest)) else None
  {
    hide GetVarint32, Varint;
    Varint32RoundTrip(level, rest);
  }

  lemma SliceRead(v: Slice, rest: Bytes)
    ensures GetSlice(PutLengthPrefixedSlice(v) + rest) == Some((v, rest))
    ensures GetInternalKey(PutLengthPrefixedSlice(v) + rest) == if v != [] then Some((v, rest)) else None
  {
    hide GetLengthPrefixedSlice, PutLengthPrefixedSlice;
    SliceRoundTrip(v, rest);
  }

  lemma NewFileRead(level: Uint32, f: FileMeta, rest: Bytes)
    ensures DecodeNewFile(EncodePayload(NewFile(level, f)) + rest)
         == if Legal(NewFile(level, f)) then Some((NewFile(level, f), rest)) else None
  {
    hide GetVarint64, Varint, GetLevel, GetInternalKey, PutLengthPrefixedSlice;
    var d := PutLengthPrefixedSlice(f.largest) + rest;
    var c := PutLengthPrefixedSlice(f.smallest) + d;
    var b := Varint(f.fileSize) + c;
    var a := Varint(f.number) + b;
    assert EncodePayload(NewFile(level, f)) + rest == Varint(level) + a;
    LevelRead(level, a);
    Varint64RoundTrip(f.number, b);
    Varint64RoundTrip(f.fileSize, c);
    SliceRead(f.smallest, d);
    SliceRead(f.largest, rest);
  }

  /** A field comes back exactly when it is legal. */
  lemma PayloadRoundTrip(f: Field, rest: Bytes)
    ensures DecodePayload(Tag(f), EncodePayload(f) + rest) == if Legal(f) then Some((f, rest)) else None
  {
    hide GetVarint64, Varint, GetLevel, GetSlice, GetInternalKey, PutLengthPrefixedSlice, DecodeNewFile;
    match f
    case Comparator(name) => SliceRead(name, rest);
    case LogNumber(n) => Varint64RoundTrip(n, rest);
    case NextFileNumber(n) => Varint64RoundTrip(n, rest);
    case LastSequence(n) => Varint64RoundTrip(n, rest);
    case PrevLogNumber(n) => Varint64RoundTrip(n, rest);
    case CompactPointer(level, key) =>
      assert EncodePayload(f) + rest == Varint(level) + (PutLengthPrefixedSlice(key) + rest);
      LevelRead(level, PutLengthPrefixedSlice(key) + rest);
      SliceRead(key, rest);
    case DeletedFile(level, n) =>
      assert EncodePayload(f) + rest == Varint(level) + (Varint(n) + rest);
      LevelRead(level, Varint(n) + rest);
      Varint64RoundTrip(n, rest);
    case NewFile(level, file) => NewFileRead(level, file, rest);
  }

  // ----- whole edits -----

  function OptionalFields(e: VersionEdit): seq<Field> {
    (if e.comparator.Some? then [Comparator(e.comparator.value)] else [])
    + (if e.logNumber.Some? then [LogNumber(e.logNumber.value)] else [])
    + (if e.prevLogNumber.Some? then [PrevLogNumber(e.prevLogNumber.value)] else [])
    + (if e.nextFileNumber.Some? then [NextFileNumber(e.nextFileNumber.value)] else [])
    + (if e.lastSequence.Some? then [LastSequence(e.lastSequence.value)] else [])
  }

  function PointerFields(p: seq<(Uint32, Slice)>): seq<Field> {
    seq(|p|, i requires 0 <= i < |p| => CompactPointer(p[i].0, p[i].1))
  }

  function DeletedFields(d: seq<(Uint32, Uint64)>): seq<Field> {
    seq(|d|, i requires 0 <= i < |d| => DeletedFile(d[i].0, d[i].1))
  }

  function NewFields(n: seq<(Uint32, FileMeta)>): seq<Field> {
    seq(|n|, i requires 0 <= i < |n| => NewFile(n[i].0, n[i].1))
  }

  /** The fields of an edit in the order they are written. */
  function Fields(e: VersionEdit): seq<Field> {
    OptionalFields(e) + PointerFields(e.compactPointers) + DeletedFields(e.deletedFiles) + NewFields(e.newFiles)
  }

  function Apply(e: VersionEdit, f: Field): VersionEdit {
    match f
    case Comparator(name) => e.(comparator := Some(name))
    case LogNumber(n) => e.(logNumber := Some(n))
    case NextFileNumber(n) => e.(nextFileNumber := Some(n))
    case LastSequence(n) => e.(lastSequence := Some(n))
    case CompactPointer(level, key) => e.(compactPointers := e.compactPointers + [(level, key)])
    case DeletedFile(level, n) => e.(deletedFiles := InsertPair(e.deletedFiles, (level, n)))
    case NewFile(level, file) => e.(newFiles := e.newFiles + [(level, file)])
    case PrevLogNumber(n) => e.(prevLogNumber := Some(n))
  }

  function ApplyAll(e: VersionEdit, fields: seq<Field>): VersionEdit
    decreases |fields|
  {
    if fields == [] then e else ApplyAll(Apply(e, fields[0]), fields[1..])
  }

  lemma {:induction false} ApplyAllConcat(e: VersionEdit, a: seq<Field>, b: seq<Field>)
    ensures ApplyAll(e, a + b) == ApplyAll(ApplyAll(e, a), b)
    decreases |a|
  {
    hide Apply;
    if a == [] {
      assert a + b == b;
    } else {
      assert (a + b)[1..] == a[1..] + b;
      ApplyAllConcat(Apply(e, a[0]), a[1..], b);
    }
  }

  lemma {:induction false} ApplyPointers(e: VersionEdit, p: seq<(Uint32, Slice)>)
    ensures ApplyAll(e, PointerFields(p)) == e.(compactPointers := e.compactPointers + p)
    decreases |p|
  {
    if p == [] {
      assert e.compactPointers + p == e.compactPointers;
    } else {
      assert PointerFields(p)[1..] == PointerFields(p[1..]);
      ApplyPointers(e.(compactPointers := e.compactPointers + [p[0]]), p[1..]);
      assert e.compactPointers + [p[0]] + p[1..] == e.compactPointers + p;
    }
  }

  lemma {:induction false} ApplyNew(e: VersionEdit, n: seq<(Uint32, FileMeta)>)
    ensures ApplyAll(e, NewFields(n)) == e.(newFiles := e.newFiles + n)
    decreases |n|
  {
    if n == [] {
      assert e.newFiles + n == e.newFiles;
    } else {
      assert NewFields(n)[1..] == NewFields(n[1..]);
      ApplyNew(e.(newFiles := e.newFiles + [n[0]]), n[1..]);
      assert e.newFiles + [n[0]] + n[1..] == e.newFiles + n;
    }
  }

  lemma {:induction false} InsertLast(s: seq<(Uint32, Uint64)>, x: (Uint32, Uint64))
    requires forall i :: 0 <= i < |s| ==> PairLess(s[i], x)
    ensures InsertPair(s, x) == s + [x]
  {
    if s != [] {
      assert PairLess(s[0], x);
      InsertLast(s[1..], x);
      assert [s[0]] + (s[1..] + [x]) == s + [x];
    }
  }

  lemma {:induction false} ApplyDeleted(e: VersionEdit, d: seq<(Uint32, Uint64)>)
    requires SortedSet(e.deletedFiles + d)
    ensures ApplyAll(e, DeletedFields(d)) == e.(deletedFiles := e.deletedFiles + d)
    decreases |d|
  {
    var s := e.deletedFiles;
    if d == [] {
      assert s + d == s;
    } else {
      assert DeletedFields(d)[1..] == DeletedFields(d[1..]);
      forall i | 0 <= i < |s| ensures PairLess(s[i], d[0]) {
        assert (s + d)[i] == s[i] && (s + d)[|s|] == d[0];
      }
      InsertLast(s, d[0]);
      assert s + [d[0]] + d[1..] == s + d;
      ApplyDeleted(e.(deletedFiles := s + [d[0]]), d[1..]);
    }
  }

  lemma ApplyOptional(e: VersionEdit)
    ensures ApplyAll(Empty(), OptionalFields(e)) == e.(compactPointers := [], deletedFiles := [], newFiles := [])
  {
    var a := if e.comparator.Some? then [Comparator(e.comparator.value)] else [];
    var b := if e.logNumber.Some? then [LogNumber(e.logNumber.value)] else [];
    var c := if e.prevLogNumber.Some? then [PrevLogNumber(e.prevLogNumber.value)] else [];
    var d := if e.nextFileNumber.Some? then [NextFileNumber(e.nextFileNumber.value)] else [];
    var f := if e.lastSequence.Some? then [LastSequence(e.lastSequence.value)] else [];
    var e1 := Empty().(comparator := e.comparator);
    var e2 := e1.(logNumber := e.logNumber);
    var e3 := e2.(prevLogNumber := e.prevLogNumber);
    var e4 := e3.(nextFileNumber := e.nextFileNumber);
    assert ApplyAll(Empty(), a) == e1;
    assert ApplyAll(e1, b) == e2;
    assert ApplyAll(e2, c) == e3;
    assert ApplyAll(e3, d) == e4;
    assert ApplyAll(e4, f) == e4.(lastSequence := e.lastSequence);
    ApplyAllConcat(Empty(), a, b);
    ApplyAllConcat(Empty(), a + b, c);
    ApplyAllConcat(Empty(), a + b + c, d);
    ApplyAllConcat(Empty(), a + b + c + d, f);
  }

  lemma ApplyFields(e: VersionEdit)
    requires SortedSet(e.deletedFiles)
    ensures ApplyAll(Empty(), Fields(e)) == e
  {
    hide OptionalFields, PointerFields, DeletedFields, NewFields, Apply;
    var o, p, d, n := OptionalFields(e), PointerFields(e.compactPointers), DeletedFields(e.deletedFiles),
      NewFields(e.newFiles);
    var e1 := e.(compactPointers := [], deletedFiles := [], newFiles := []);
    var e2 := e1.(compactPointers := e.compactPointers);
    var e3 := e2.(deletedFiles := e.deletedFiles);
    ApplyOptional(e);
    assert [] + e.compactPointers == e.compactPointers;
    ApplyPointers(e1, e.compactPointers);
    assert [] + e.deletedFiles == e.deletedFiles;
    ApplyDeleted(e2, e.deletedFiles);
    assert [] + e.newFiles == e.newFiles;
    ApplyNew(e3, e.newFiles);
    ApplyAllConcat(Empty(), o, p);
    ApplyAllConcat(Empty(), o + p, d);
    ApplyAllConcat(Empty(), o + p + d, n);
  }

  // ----- decoding a whole record -----

  datatype Decoded = Good(edit: VersionEdit) | Bad(reason: string)

  function Message(tag: Uint32): string {
    match tag
    case 1 => "comparator name"
    case 2 => "log number"
    case 3 => "next file number"
    case 4 => "last sequence number"
    case 5 => "compaction pointer"
    case 6 => "deleted file"
    case 7 => "new-file entry"
    case 9 => "previous log number"
    case _ => "unknown tag"
  }

  lemma KeyShrinks(s: Bytes)
    ensures GetVarint32(s).Some? ==> |GetVarint32(s).value.1| < |s|
    ensures GetVarint64(s).Some? ==> |GetVarint64(s).value.1| < |s|
    ensures GetLevel(s).Some? ==> |GetLevel(s).value.1| < |s|
    ensures GetSlice(s).Some? ==> |GetSlice(s).value.1| < |s|
    ensures GetInternalKey(s).Some? ==> |GetInternalKey(s).value.1| < |s|
  {
    hide ParseVarint;
    ParseShrinks(s, 5);
    ParseShrinks(s, 10);
  }

  lemma NewFileShrinks(s: Bytes)
    ensures DecodeNewFile(s).Some? ==> |DecodeNewFile(s).value.1| < |s|
  {
    hide GetVarint64, GetLevel, GetInternalKey;
    KeyShrinks(s);
    if GetLevel(s).Some? {
      var a := GetLevel(s).value.1;
      KeyShrinks(a);
      if GetVarint64(a).Some? {
        var b := GetVarint64(a).value.1;
        KeyShrinks(b);
        if GetVarint64(b).Some? {
          var c := GetVarint64(b).value.1;
          KeyShrinks(c);
          if GetInternalKey(c).Some? {
            KeyShrinks(GetInternalKey(c).value.1);
          }
        }
      }
    }
  }

  lemma PayloadShrinks(tag: Uint32, s: Bytes)
    ensures DecodePayload(tag, s).Some? ==> |DecodePayload(tag, s).value.1| < |s|
  {
    hide GetVarint64, GetLevel, GetSlice, GetInternalKey, DecodeNewFile;
    KeyShrinks(s);
    NewFileShrinks(s);
    if GetLevel(s).Some? {
      KeyShrinks(GetLevel(s).value.1);
    }
  }

  function DecodeFields(input: Bytes, e: VersionEdit): Decoded
    decreases |input|
  {
    match GetVarint32(input)
    case None => if input == [] then Good(e) else Bad("invalid tag")
    case Some((tag, payload)) =>
      match DecodePayload(tag, payload)
      case None => Bad(Message(tag))
      case Some((f, rest)) =>
        KeyShrinks(input);
        PayloadShrinks(tag, payload);
        DecodeFields(rest, Apply(e, f))
  }

  /** Decoding what was encoded folds the fields, up to the first illegal one. */
  lemma {:induction false} DecodeEncoded(fields: seq<Field>, e: VersionEdit)
    ensures if forall i :: 0 <= i < |fields| ==>
              Legal(fields[i]) then DecodeFields(EncodeFields(fields), e) == Good(ApplyAll(e, fields))
            else DecodeFields(EncodeFields(fields), e).Bad?
    decreases |fields|
  {
    hide GetVarint32, DecodePayload, EncodePayload, Varint, Apply, Legal, Tag;
    if fields == [] {
      NoTag();
    } else {
      var f, rest := fields[0], EncodeFields(fields[1..]);
      assert EncodeFields(fields) == Varint(Tag(f)) + (EncodePayload(f) + rest);
      Varint32RoundTrip(Tag(f), EncodePayload(f) + rest);
      PayloadRoundTrip(f, rest);
      if Legal(f) {
        DecodeEncoded(fields[1..], Apply(e, f));
        if forall i :: 0 <= i < |fields[1..]| ==> Legal(fields[1..][i]) {
          assert forall i :: 0 <= i < |fields| ==> Legal(fields[i]) by {
            assert forall i :: 0 < i < |fields| ==> fields[i] == fields[1..][i - 1];
          }
        } else {
          var i :| 0 <= i < |fields[1..]| && !Legal(fields[1..][i]);
          assert !Legal(fields[i + 1]);
        }
      }
    }
  }

  lemma NoTag()
    ensures GetVarint32([]) == None
  {
  }

  /** An edit is recovered exactly when its levels and keys are legal; otherwise
      decoding reports corruption. */
  lemma EditRoundTrip(e: VersionEdit)
    requires SortedSet(e.deletedFiles)
    ensures DecodeFields(EncodeFields(Fields(e)), Empty()) == Good(e)
            <==> forall i :: 0 <= i < |Fields(e)| ==> Legal(Fields(e)[i])
    ensures DecodeFields(EncodeFields(Fields(e)), Empty()).Good? ==>
              DecodeFields(EncodeFields(Fields(e)), Empty()) == Good(e)
  {
    hide DecodeFields, EncodeFields, Fields, ApplyAll, Legal;
    DecodeEncoded(Fields(e), Empty());
    ApplyFields(e);
  }

  // ----- the loops of the source -----

  method EncodeTo(e: VersionEdit) returns (dst: Bytes)
    ensures dst == EncodeFields(Fields(e))
  {
    hide EncodeField, EncodeFields;
    dst := EncodeOptional(e);
    ghost var done := OptionalFields(e);
    var i := 0;
    while i < |e.compactPointers|
      invariant 0 <= i <= |e.compactPointers|
      invariant dst == EncodeFields(done + PointerFields(e.compactPointers[..i]))
    {
      var f := CompactPointer(e.compactPointers[i].0, e.compactPointers[i].1);
      assert done + PointerFields(e.compactPointers[..i + 1]) == done + PointerFields(e.compactPointers[..i]) + [f];
      EncodeSnoc(done + PointerFields(e.compactPointers[..i]), f);
      dst := dst + EncodeField(f);
      i := i + 1;
    }
    assert e.compactPointers[..i] == e.compactPointers;
    done := done + PointerFields(e.compactPointers);
    i := 0;
    assert done + DeletedFields(e.deletedFiles[..0]) == done;
    while i < |e.deletedFiles|
      invariant 0 <= i <= |e.deletedFiles|
      invariant dst == EncodeFields(done + DeletedFields(e.deletedFiles[..i]))
    {
      var f := DeletedFile(e.deletedFiles[i].0, e.deletedFiles[i].1);
      assert done + DeletedFields(e.deletedFiles[..i + 1]) == done + DeletedFields(e.deletedFiles[..i]) + [f];
      EncodeSnoc(done + DeletedFields(e.deletedFiles[..i]), f);
      dst := dst + EncodeField(f);
      i := i + 1;
    }
    assert e.deletedFiles[..i] == e.deletedFiles;
    done := done + DeletedFields(e.deletedFiles);
    i := 0;
    assert done + NewFields(e.newFiles[..0]) == done;
    while i < |e.newFiles|
      invariant 0 <= i <= |e.newFiles|
      invariant dst == EncodeFields(done + NewFields(e.newFiles[..i]))
    {
      var f := NewFile(e.newFiles[i].0, e.newFiles[i].1);
      assert done + NewFields(e.newFiles[..i + 1]) == done + NewFields(e.newFiles[..i]) + [f];
      EncodeSnoc(done + NewFields(e.newFiles[..i]), f);
      dst := dst + EncodeField(f);
      i := i + 1;
    }
    assert e.newFiles[..i] == e.newFiles;
  }

  lemma EncodeSnoc(fields: seq<Field>, f: Field)
    ensures EncodeFields(fields + [f]) == EncodeFields(fields) + EncodeField(f)
  {
    EncodeFieldsConcat(fields, [f]);
    assert EncodeFields([f]) == EncodeField(f) + EncodeFields([]);
  }

  /** The five optional fields, each written when it is set. */
  method EncodeOptional(e: VersionEdit) returns (dst: Bytes)
    ensures dst == EncodeFields(OptionalFields(e) + PointerFields(e.compactPointers[..0]))
  {
    hide EncodeField, EncodeFields;
    ghost var done: seq<Field> := [];
    dst := [];
    NoFields();
    if e.comparator.Some? {
      var f := Comparator(e.comparator.value);
      EncodeSnoc(done, f);
      dst, done := dst + EncodeField(f), done + [f];
    }
    if e.logNumber.Some? {
      var f := LogNumber(e.logNumber.value);
      EncodeSnoc(done, f);
      dst, done := dst + EncodeField(f), done + [f];
    }
    if e.prevLogNumber.Some? {
      var f := PrevLogNumber(e.prevLogNumber.value);
      EncodeSnoc(done, f);
      dst, done := dst + EncodeField(f), done + [f];
    }
    if e.nextFileNumber.Some? {
      var f := NextFileNumber(e.nextFileNumber.value);
      EncodeSnoc(done, f);
      dst, done := dst + EncodeField(f), done + [f];
    }
    if e.lastSequence.Some? {
      var f := LastSequence(e.lastSequence.value);
      EncodeSnoc(done, f);
      dst, done := dst + EncodeField(f), done + [f];
    }
    assert done == OptionalFields(e) + PointerFields(e.compactPointers[..0]);
  }

  lemma NoFields()
    ensures EncodeFields([]) == []
  {
  }

  method DecodeFrom(src: Bytes) returns (r: Decoded)
    ensures r == DecodeFields(src, Empty())
  {
    hide GetVarint32, DecodePayload, Apply, Message;
    var e, input := Empty(), src;
    while true
      invariant DecodeFields(input, e) == DecodeFields(src, Empty())
      decreases |input|
    {
      KeyShrinks(input);
      var tag := GetVarint32(input);
      if tag == None {
        return if input == [] then Good(e) else Bad("invalid tag");
      }
      PayloadShrinks(tag.value.0, tag.value.1);
      var field := DecodePayload(tag.value.0, tag.value.1);
      if field == None {
        return Bad(Message(tag.value.0));
      }
      e, input := Apply(e, field.value.0), field.value.1;
    }
  }
}
