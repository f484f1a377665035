/** Framing a day's captures into one stream, and the browser's parser of it. */
module SnapshotBundle {
  import opened Wrappers
  import opened Bytes

  datatype Kind = ApView | ClientView | MeshView

  const KINDS: seq<Kind> := [ApView, ClientView, MeshView]

  datatype Key = Key(time: nat, kind: Kind)

  datatype Record = Record(key: Key, body: seq<byte>)

  const NEWLINE: byte := 10
  const SPACE: byte := 32

  /** "ZDSNAPSHOT1" and a newline. */
  const BUNDLE_MAGIC: seq<byte> := [0x5A, 0x44, 0x53, 0x4E, 0x41, 0x50, 0x53, 0x48, 0x4F, 0x54, 0x31, 10]

  function KindName(kind: Kind): seq<byte> {
    match kind
    case ApView => [0x61, 0x70]
    case ClientView => [0x63, 0x6C, 0x69, 0x65, 0x6E, 0x74]
    case MeshView => [0x6D, 0x65, 0x73, 0x68]
  }

  function KindOf(name: seq<byte>): Option<Kind> {
    if name == KindName(ApView) then Some(ApView)
    else if name == KindName(ClientView) then Some(ClientView)
    else if name == KindName(MeshView) then Some(MeshView)
    else None
  }

  // ---------------------------------------------------------------- numerals

  function Decimal(n: nat): (digits: seq<byte>)
    ensures digits != []
    ensures forall d <- digits :: 48 <= d < 58
  {
    (if n < 10 then [] else Decimal(n / 10)) + [48 + n % 10]
  }

  /** JavaScript's `Number` on digit strings and the empty string; other spellings are not integers here. */
  function ParseNumber(text: seq<byte>): (n: Option<nat>) {
    if text == [] then Some(0)
    else
      var front, last := ParseNumber(text[..|text| - 1]), text[|text| - 1];
      if front.None? || last < 48 || last > 57 then None else Some(10 * front.value + (last - 48))
  }

  lemma {:induction false} ParseDecimal(n: nat)
    ensures ParseNumber(Decimal(n)) == Some(n)
  {
    var digits := Decimal(n);
    if n < 10 {
      assert digits[..0] == [];
    } else {
      ParseDecimal(n / 10);
      assert digits[..|digits| - 1] == Decimal(n / 10);
    }
  }

  // ---------------------------------------------------------------- the writer

  function HeaderLine(record: Record): seq<byte> {
    Decimal(record.key.time) + [SPACE] + KindName(record.key.kind) + [SPACE] + Decimal(|record.body|)
  }

  function Framed(record: Record): seq<byte> {
    HeaderLine(record) + [NEWLINE] + record.body + [NEWLINE]
  }

  function Frames(records: seq<Record>): seq<byte> {
    if records == [] then [] else Framed(records[0]) + Frames(records[1..])
  }

  function Stream(records: seq<Record>): seq<byte> {
    BUNDLE_MAGIC + Frames(records)
  }

  // ---------------------------------------------------------------- the parser

  datatype BundleError = InvalidBundle | InvalidHeader | InvalidRecord

  type Bodies = map<Key, seq<byte>>

  /** `bytes.indexOf(value, from)`. */
  function IndexOf(bytes: seq<byte>, value: byte, from: nat): (at: int)
    requires from <= |bytes|
    ensures at == -1 || (from <= at < |bytes| && bytes[at] == value)
    ensures forall k :: from <= k < |bytes| && (at < 0 || k < at) ==> bytes[k] != value
    decreases |bytes| - from
  {
    if from == |bytes| then -1
    else if bytes[from] == value then from
    else IndexOf(bytes, value, from + 1)
  }

  function Split(text: seq<byte>, separator: byte): (parts: seq<seq<byte>>)
    ensures parts != []
  {
    var at := IndexOf(text, separator, 0);
    if at < 0 then [text] else [text[..at]] + Split(text[at + 1..], separator)
  }

  /** The record whose header starts at `offset`, and where the next one starts. */
  function ParseRecord(bytes: seq<byte>, offset: nat): (r: Result<(Record, nat), BundleError>)
    requires offset < |bytes|
    ensures r.Success? ==> offset < r.value.1 <= |bytes|
  {
    var newline := IndexOf(bytes, NEWLINE, offset);
    if newline < 0 then Failure(InvalidHeader)
    else
      var parts := Split(bytes[offset..newline], SPACE);
      if |parts| != 3 then Failure(InvalidRecord)
      else
        var time, kind, size := ParseNumber(parts[0]), KindOf(parts[1]), ParseNumber(parts[2]);
        var start := newline + 1;
        if time.None? || kind.None? || size.None? then Failure(InvalidRecord)
        else if start + size.value >= |bytes| || bytes[start + size.value] != NEWLINE then Failure(InvalidRecord)
        else Success((Record(Key(time.value, kind.value), bytes[start..start + size.value]), start + size.value + 1))
  }

  function ParseFrom(bytes: seq<byte>, offset: nat, files: Bodies): Result<Bodies, BundleError>
    requires offset <= |bytes|
    decreases |bytes| - offset
  {
    if offset == |bytes| then Success(files)
    else
      match ParseRecord(bytes, offset)
      case Failure(e) => Failure(e)
      case Success((record, next)) => ParseFrom(bytes, next, files[record.key := record.body])
  }

  function ParseSpec(bytes: seq<byte>): Result<Bodies, BundleError> {
    if |bytes| < 12 || bytes[..12] != BUNDLE_MAGIC then Failure(InvalidBundle)
    else ParseFrom(bytes, 12, map[])
  }

  /** The loop of `snapshotBundle`: the offset strictly increases, so it ends. */
  method ParseBundle(bytes: seq<byte>) returns (r: Result<Bodies, BundleError>)
    ensures r == ParseSpec(bytes)
  {
    hide ParseRecord;
    if |bytes| < 12 || bytes[..12] != BUNDLE_MAGIC {
      return Failure(InvalidBundle);
    }
    var files: Bodies := map[];
    var offset := 12;
    while offset < |bytes|
      invariant 12 <= offset <= |bytes|
      invariant ParseFrom(bytes, offset, files) == ParseSpec(bytes)
      decreases |bytes| - offset
    {
      var one := NextRecord(bytes, offset);
      if one.Failure? {
        return Failure(one.error);
      }
      files := files[one.value.0.key := one.value.0.body];
      offset := one.value.1;
    }
    return Success(files);
  }

  method NextRecord(bytes: seq<byte>, offset: nat) returns (r: Result<(Record, nat), BundleError>)
    requires offset < |bytes|
    ensures r == ParseRecord(bytes, offset)
  {
    hide Split, ParseNumber, KindOf;
    var newline := IndexOf(bytes, NEWLINE, offset);
    if newline < 0 {
      return Failure(InvalidHeader);
    }
    var parts := Split(bytes[offset..newline], SPACE);
    if |parts| != 3 {
      return Failure(InvalidRecord);
    }
    var time, kind, size := ParseNumber(parts[0]), KindOf(parts[1]), ParseNumber(parts[2]);
    if time.None? || kind.None? || size.None? {
      return Failure(InvalidRecord);
    }
    var start := newline + 1;
    var end := start + size.value;
    if end >= |bytes| || bytes[end] != NEWLINE {
      return Failure(InvalidRecord);
    }
    return Success((Record(Key(time.value, kind.value), bytes[start..end]), end + 1));
  }

  // ---------------------------------------------------------------- round trip

  lemma {:induction false} IndexOfIs(bytes: seq<byte>, value: byte, from: nat, at: nat)
    requires from <= at < |bytes| && bytes[at] == value
    requires forall k :: from <= k < at ==> bytes[k] != value
    ensures IndexOf(bytes, value, from) == at
    decreases at - from
  {
    if from < at {
      IndexOfIs(bytes, value, from + 1, at);
    }
  }

  lemma SplitFirst(a: seq<byte>, rest: seq<byte>, separator: byte)
    requires separator !in a
    ensures Split(a + [separator] + rest, separator) == [a] + Split(rest, separator)
  {
    var text := a + [separator] + rest;
    IndexOfIs(text, separator, 0, |a|);
    assert text[..|a|] == a && text[|a| + 1..] == rest;
  }

  lemma SplitNone(a: seq<byte>, separator: byte)
    requires separator !in a
    ensures Split(a, separator) == [a]
  {
    assert forall k :: 0 <= k < |a| ==> a[k] in a;
  }

  lemma FieldsArePlain(n: nat, kind: Kind)
    ensures SPACE !in Decimal(n) && NEWLINE !in Decimal(n) && SPACE !in KindName(kind) && NEWLINE !in KindName(kind)
  {
  }

  lemma HeaderSplits(record: Record)
    ensures Split(HeaderLine(record), SPACE) ==
            [Decimal(record.key.time), KindName(record.key.kind), Decimal(|record.body|)]
    ensures NEWLINE !in HeaderLine(record)
  {
    hide Decimal, KindName, Split;
    var time, kind, size := Decimal(record.key.time), KindName(record.key.kind), Decimal(|record.body|);
    FieldsArePlain(record.key.time, record.key.kind);
    FieldsArePlain(|record.body|, record.key.kind);
    SplitNone(size, SPACE);
    SplitFirst(kind, size, SPACE);
    SplitFirst(time, kind + [SPACE] + size, SPACE);
    assert time + [SPACE] + (kind + [SPACE] + size) == HeaderLine(record);
  }

  /** A framed record is read back whatever its body holds, newlines included. */
  lemma FramedReadsBack(before: seq<byte>, record: Record, after: seq<byte>)
    ensures var bytes := before + Framed(record) + after;
            |before| < |bytes| && ParseRecord(bytes, |before|) == Success((record, |before| + |Framed(record)|))
  {
    hide HeaderLine, Split, Decimal, IndexOf;
    var bytes, offset, line := before + Framed(record) + after, |before|, HeaderLine(record);
    HeaderSplits(record);
    var newline := offset + |line|;
    FrameParts(before, record, after);
    assert forall k :: offset <= k < newline ==> bytes[k] == line[k - offset] && line[k - offset] in line;
    IndexOfIs(bytes, NEWLINE, offset, newline);
    ParseDecimal(record.key.time);
    ParseDecimal(|record.body|);
  }

  lemma FrameParts(before: seq<byte>, record: Record, after: seq<byte>)
    ensures var bytes, offset, line := before + Framed(record) + after, |before|, HeaderLine(record);
            var newline := offset + |line|;
            && |Framed(record)| == |line| + |record.body| + 2
            && bytes[offset..newline] == line && bytes[newline] == NEWLINE
            && bytes[newline + 1..newline + 1 + |record.body|] == record.body
            && bytes[newline + 1 + |record.body|] == NEWLINE
  {
    hide HeaderLine;
    var line := HeaderLine(record);
    var bytes := before + Framed(record) + after;
    assert bytes == before + line + [NEWLINE] + record.body + [NEWLINE] + after;
  }

  /** What a map holds after the records are stored in order. */
  function Stored(records: seq<Record>, files: Bodies): Bodies {
    if records == [] then files else Stored(records[1..], files[records[0].key := records[0].body])
  }

  lemma {:induction false} FramesReadBack(before: seq<byte>, records: seq<Record>, files: Bodies)
    ensures ParseFrom(before + Frames(records), |before|, files) == Success(Stored(records, files))
    decreases |records|
  {
    hide Framed, ParseRecord;
    if records == [] {
      assert before + Frames(records) == before;
    } else {
      var record, rest := records[0], records[1..];
      FramedReadsBack(before, record, Frames(rest));
      assert before + Frames(records) == before + Framed(record) + Frames(rest);
      FramesReadBack(before + Framed(record), rest, files[record.key := record.body]);
    }
  }

  /** Any list of records is accepted; each key maps to its last body. */
  lemma StreamReadsBack(records: seq<Record>)
    ensures ParseSpec(Stream(records)) == Success(Stored(records, map[]))
  {
    FramesReadBack(BUNDLE_MAGIC, records, map[]);
    assert Stream(records)[..12] == BUNDLE_MAGIC;
  }

  function KeysOf(records: seq<Record>): set<Key> {
    set record <- records :: record.key
  }

  lemma {:induction false} StoredKeys(records: seq<Record>, files: Bodies)
    ensures Stored(records, files).Keys == files.Keys + KeysOf(records)
    decreases |records|
  {
    if records != [] {
      var first, rest := records[0], records[1..];
      StoredKeys(rest, files[first.key := first.body]);
      assert records == [first] + rest;
      assert KeysOf(records) == {first.key} + KeysOf(rest);
    }
  }

  lemma {:induction false} StoredKeeps(records: seq<Record>, files: Bodies, key: Key)
    requires key in files && key !in KeysOf(records)
    ensures key in Stored(records, files) && Stored(records, files)[key] == files[key]
    decreases |records|
  {
    if records != [] {
      assert records[0] in records && forall record <- records[1..] :: record in records;
      StoredKeeps(records[1..], files[records[0].key := records[0].body], key);
    }
  }

  /** The last record of a key decides its body. */
  lemma {:induction false} StoredLast(records: seq<Record>, files: Bodies, i: nat)
    requires i < |records| && forall j :: i < j < |records| ==> records[j].key != records[i].key
    ensures records[i].key in Stored(records, files) && Stored(records, files)[records[i].key] == records[i].body
    decreases |records|
  {
    var rest, next := records[1..], files[records[0].key := records[0].body];
    if i == 0 {
      assert forall record <- rest :: record.key != records[0].key;
      StoredKeeps(rest, next, records[0].key);
    } else {
      assert forall j :: 0 <= j < |rest| ==> rest[j] == records[j + 1];
      StoredLast(rest, next, i - 1);
    }
  }

  /** For distinct keys the parser returns exactly the framed bodies. */
  lemma BundleRoundTrip(records: seq<Record>)
    requires forall i, j :: 0 <= i < j < |records| ==> records[i].key != records[j].key
    ensures ParseSpec(Stream(records)).Success?
    ensures var files := ParseSpec(Stream(records)).value;
            && files.Keys == KeysOf(records)
            && forall record <- records :: files[record.key] == record.body
  {
    hide ParseSpec, Stream;
    StreamReadsBack(records);
    StoredKeys(records, map[]);
    var files := ParseSpec(Stream(records)).value;
    forall record | record in records
      ensures files[record.key] == record.body
    {
      var i :| 0 <= i < |records| && records[i] == record;
      StoredLast(records, map[], i);
    }
  }

  lemma {:induction false} FramesSplit(a: seq<Record>, b: seq<Record>)
    ensures Frames(a + b) == Frames(a) + Frames(b)
    decreases |a|
  {
    hide Framed;
    if a == [] {
      assert a + b == b;
    } else {
      assert (a + b)[1..] == a[1..] + b;
      FramesSplit(a[1..], b);
    }
  }

  lemma FramesOfThree(records: seq<Record>)
    requires |records| == 3
    ensures Frames(records) == Framed(records[0]) + (Framed(records[1]) + (Framed(records[2]) + []))
  {
    hide Framed;
    assert records[1..][0] == records[1] && records[1..][1..] == [records[2]] && [records[2]][1..] == [];
    assert Frames([records[2]]) == Framed(records[2]) + [];
    assert Frames(records[1..]) == Framed(records[1]) + Frames([records[2]]);
  }
}
