/** The text of a bundle: what the parser accepts, and what is written. */
module SnapshotText {
  import opened Wrappers
  import opened Bytes
  import opened SnapshotBundle

  function Ascii(text: string): (bytes: seq<byte>)
    requires forall c <- text :: c < 128 as char
    ensures |bytes| == |text|
  {
    seq(|text|, i requires 0 <= i < |text| => Code(text[i]))
  }

  function Code(c: char): byte {
    if c < 128 as char then c as int else 0
  }

  function Name(kind: Kind): seq<byte> {
    match kind
    case ApView => Ascii("ap")
    case ClientView => Ascii("client")
    case MeshView => Ascii("mesh")
  }

  predicate Digits(text: seq<byte>) {
    forall k :: 0 <= k < |text| ==> '0' as int <= text[k] <= '9' as int
  }

  function Value(digits: seq<byte>): nat
    requires Digits(digits)
  {
    if digits == [] then 0 else 10 * Value(digits[..|digits| - 1]) + (digits[|digits| - 1] - '0' as int)
  }

  /** One record as it is spelled: a time, a kind, a size and as many bytes. */
  datatype Entry = Entry(time: seq<byte>, kind: Kind, size: seq<byte>, body: seq<byte>)
  {
    predicate Valid() { Digits(time) && Digits(size) && Value(size) == |body| }

    function Line(): seq<byte> { time + Ascii(" ") + Name(kind) + Ascii(" ") + size }

    function Text(): seq<byte> { Line() + Ascii("\n") + body + Ascii("\n") }

    function AsKey(): Key
      requires Valid()
    {
      Key(Value(time), kind)
    }
  }

  predicate AllValid(entries: seq<Entry>) {
    forall entry <- entries :: entry.Valid()
  }

  function Texts(entries: seq<Entry>): seq<byte> {
    if entries == [] then [] else entries[0].Text() + Texts(entries[1..])
  }

  /** The bodies by time and kind, a later entry replacing an earlier one. */
  function Filed(entries: seq<Entry>, files: Bodies): Bodies
    requires AllValid(entries)
  {
    if entries == [] then files else Filed(entries[1..], files[entries[0].AsKey() := entries[0].body])
  }

  // ---------------------------------------------------------------- single fields

  lemma Constants()
    ensures Ascii(" ") == [SPACE] && Ascii("\n") == [NEWLINE] && Ascii("ZDSNAPSHOT1\n") == BUNDLE_MAGIC
    ensures forall kind :: Name(kind) == KindName(kind)
  {
  }

  lemma {:induction false} NumberIs(text: seq<byte>)
    ensures ParseNumber(text) == if Digits(text) then Some(Value(text)) else None
  {
    if text != [] {
      var front := text[..|text| - 1];
      NumberIs(front);
      assert Digits(text) <==> Digits(front) && 48 <= text[|text| - 1] <= 57;
    }
  }

  lemma KindIs(name: seq<byte>, kind: Kind)
    ensures KindOf(name) == Some(kind) <==> name == KindName(kind)
  {
    assert |KindName(ApView)| == 2 && |KindName(ClientView)| == 6 && |KindName(MeshView)| == 4;
  }

  lemma SplitCuts(text: seq<byte>)
    ensures var at := IndexOf(text, SPACE, 0);
            if at < 0 then Split(text, SPACE) == [text]
            else
              && text == text[..at] + [SPACE] + text[at + 1..]
              && Split(text, SPACE) == [text[..at]] + Split(text[at + 1..], SPACE)
  {
  }

  /** Three parts are cut out of a text that joins them. */
  lemma ThreeParts(text: seq<byte>)
    requires |Split(text, SPACE)| == 3
    ensures var parts := Split(text, SPACE); text == parts[0] + [SPACE] + parts[1] + [SPACE] + parts[2]
  {
    hide Split;
    SplitCuts(text);
    var a := IndexOf(text, SPACE, 0);
    var rest := text[a + 1..];
    TwoParts(rest);
    assert text == text[..a] + [SPACE] + rest;
  }

  lemma TwoParts(text: seq<byte>)
    requires |Split(text, SPACE)| == 2
    ensures var parts := Split(text, SPACE); text == parts[0] + [SPACE] + parts[1]
  {
    hide Split;
    SplitCuts(text);
    SplitCuts(text[IndexOf(text, SPACE, 0) + 1..]);
  }

  // ---------------------------------------------------------------- one record

  lemma NoSeparators(text: seq<byte>, kind: Kind)
    requires Digits(text)
    ensures SPACE !in text && NEWLINE !in text && SPACE !in KindName(kind) && NEWLINE !in KindName(kind)
  {
  }

  lemma LineSplits(entry: Entry)
    requires entry.Valid()
    ensures Split(entry.Line(), SPACE) == [entry.time, KindName(entry.kind), entry.size]
    ensures NEWLINE !in entry.Line()
  {
    hide KindName, Split, Name, Ascii;
    Constants();
    var name := KindName(entry.kind);
    NoSeparators(entry.time, entry.kind);
    NoSeparators(entry.size, entry.kind);
    SplitNone(entry.size, SPACE);
    SplitFirst(name, entry.size, SPACE);
    SplitFirst(entry.time, name + [SPACE] + entry.size, SPACE);
    assert entry.time + [SPACE] + (name + [SPACE] + entry.size) == entry.Line();
  }

  lemma TextParts(before: seq<byte>, entry: Entry, after: seq<byte>)
    ensures var bytes, offset, line := before + entry.Text() + after, |before|, entry.Line();
            var newline := offset + |line|;
            && |entry.Text()| == |line| + |entry.body| + 2
            && bytes[offset..newline] == line && bytes[newline] == NEWLINE
            && bytes[newline + 1..newline + 1 + |entry.body|] == entry.body
            && bytes[newline + 1 + |entry.body|] == NEWLINE
            && forall k :: 0 <= k < |line| ==> bytes[offset + k] == line[k]
  {
    Constants();
    hide Ascii, Name;
    var line := entry.time + Ascii(" ") + Name(entry.kind) + Ascii(" ") + entry.size;
    var bytes := before + entry.Text() + after;
    assert bytes == before + line + [NEWLINE] + entry.body + [NEWLINE] + after;
  }

  /** A valid entry is read back wherever it stands. */
  lemma EntryReadsBack(before: seq<byte>, entry: Entry, after: seq<byte>)
    requires entry.Valid()
    ensures var bytes := before + entry.Text() + after;
            && |before| < |bytes|
            && ParseRecord(bytes, |before|) ==
               Success((Record(entry.AsKey(), entry.body), |before| + |entry.Text()|))
  {
    hide Split, IndexOf, ParseNumber, KindOf, KindName, Value, Name, Ascii;
    var bytes, offset, line := before + entry.Text() + after, |before|, entry.Line();
    LineSplits(entry);
    TextParts(before, entry, after);
    var newline := offset + |line|;
    forall k | offset <= k < newline
      ensures bytes[k] != NEWLINE
    {
      assert bytes[offset + (k - offset)] == line[k - offset] && line[k - offset] in line;
    }
    IndexOfIs(bytes, NEWLINE, offset, newline);
    NumberIs(entry.time);
    NumberIs(entry.size);
    KindIs(KindName(entry.kind), entry.kind);
  }

  /** Whatever record is accepted is a valid entry. */
  lemma RecordIsEntry(bytes: seq<byte>, offset: nat) returns (entry: Entry)
    requires offset < |bytes| && ParseRecord(bytes, offset).Success?
    ensures var (record, next) := ParseRecord(bytes, offset).value;
            && entry.Valid() && record == Record(entry.AsKey(), entry.body) && bytes[offset..next] == entry.Text()
  {
    hide Split, ParseNumber, KindOf, KindName, Name, Ascii, Value;
    var newline := IndexOf(bytes, NEWLINE, offset);
    var line := bytes[offset..newline];
    var parts := Split(line, SPACE);
    var (record, next) := ParseRecord(bytes, offset).value;
    ThreeParts(line);
    NumberIs(parts[0]);
    NumberIs(parts[2]);
    KindIs(parts[1], record.key.kind);
    Constants();
    entry := Entry(parts[0], record.key.kind, parts[2], record.body);
    assert entry.Line() == line;
    assert bytes[offset..next] == line + [NEWLINE] + record.body + [NEWLINE];
  }

  // ---------------------------------------------------------------- whole bundles

  lemma {:induction false} TextsReadBack(before: seq<byte>, entries: seq<Entry>, files: Bodies)
    requires AllValid(entries)
    ensures ParseFrom(before + Texts(entries), |before|, files) == Success(Filed(entries, files))
    decreases |entries|
  {
    hide ParseRecord, Value;
    if entries == [] {
      assert before + Texts(entries) == before;
    } else {
      var entry, rest := entries[0], entries[1..];
      hide Texts;
      FirstText(before, entries);
      EntryReadsBack(before, entry, Texts(rest));
      TextsReadBack(before + entry.Text(), rest, files[entry.AsKey() := entry.body]);
    }
  }

  lemma FirstText(before: seq<byte>, entries: seq<Entry>)
    requires entries != []
    ensures before + Texts(entries) == before + entries[0].Text() + Texts(entries[1..])
  {
    assert Texts(entries) == entries[0].Text() + Texts(entries[1..]);
  }

  lemma {:induction false} RestIsEntries(bytes: seq<byte>, offset: nat, files: Bodies) returns (entries: seq<Entry>)
    requires offset <= |bytes| && ParseFrom(bytes, offset, files).Success?
    ensures AllValid(entries) && bytes[offset..] == Texts(entries)
    ensures ParseFrom(bytes, offset, files).value == Filed(entries, files)
    decreases |bytes| - offset
  {
    hide ParseRecord, Value;
    entries := [];
    if offset < |bytes| {
      var entry := RecordIsEntry(bytes, offset);
      var (record, next) := ParseRecord(bytes, offset).value;
      var rest := RestIsEntries(bytes, next, files[record.key := record.body]);
      entries := [entry] + rest;
      assert entries[1..] == rest;
      assert bytes[offset..] == bytes[offset..next] + bytes[next..];
    }
  }

  /** The parser accepts exactly the magic line followed by valid entries, and files their bodies. */
  lemma AcceptsExactly(bytes: seq<byte>, files: Bodies)
    ensures ParseSpec(bytes) == Success(files) <==>
            exists entries :: && AllValid(entries) && bytes == Ascii("ZDSNAPSHOT1\n") + Texts(entries)
                              && files == Filed(entries, map[])
  {
    hide ParseFrom, Texts, Filed;
    Constants();
    if ParseSpec(bytes) == Success(files) {
      var entries := RestIsEntries(bytes, 12, map[]);
      assert bytes == bytes[..12] + bytes[12..];
    }
    forall entries | AllValid(entries) && bytes == Ascii("ZDSNAPSHOT1\n") + Texts(entries)
      ensures ParseSpec(bytes) == Success(Filed(entries, map[]))
    {
      TextsReadBack(BUNDLE_MAGIC, entries, map[]);
      assert bytes[..12] == BUNDLE_MAGIC;
    }
  }

  /** A number as it is written: its value in digits, without leading zeros. */
  predicate Writes(text: seq<byte>, n: nat) {
    Digits(text) && Value(text) == n && text != [] && (|text| > 1 ==> text[0] != '0' as int)
  }

  lemma {:induction false} DecimalWrites(n: nat)
    ensures Writes(Decimal(n), n)
    ensures n > 0 ==> Decimal(n)[0] != '0' as int
  {
    hide Decimal;
    var digits := Decimal(n);
    LastDigit(n);
    if n >= 10 {
      DecimalWrites(n / 10);
      assert digits[..|digits| - 1] == Decimal(n / 10) && digits[0] == Decimal(n / 10)[0];
    } else {
      assert digits[..0] == [] && Value(digits[..0]) == 0;
    }
  }

  lemma LastDigit(n: nat)
    ensures Decimal(n) == if n < 10 then [48 + n] else Decimal(n / 10) + [48 + n % 10]
  {
  }

  /** What is written of a record: the entry of its key and size in plain numbers. */
  lemma WritesExactly(record: Record) returns (entry: Entry)
    ensures entry.Valid() && entry.AsKey() == record.key && entry.body == record.body
    ensures Writes(entry.time, record.key.time) && Writes(entry.size, |record.body|)
    ensures Framed(record) == entry.Text()
    ensures Frames([record]) == Framed(record) && Stream([]) == Ascii("ZDSNAPSHOT1\n")
  {
    hide Decimal, Value, Ascii, Name, KindName;
    Constants();
    DecimalWrites(record.key.time);
    DecimalWrites(|record.body|);
    entry := Entry(Decimal(record.key.time), record.key.kind, Decimal(|record.body|), record.body);
    assert entry.Line() == HeaderLine(record);
    assert [record][1..] == [];
  }
}
