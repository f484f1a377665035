/** The exporter and the browser's parser agree on every daily file. */
module DayRoundTrip {
  import opened Wrappers
  import opened Bytes
  import opened Codebook
  import opened MacAddress
  import opened DayFile
  import opened DayParser

  // ---------------------------------------------------------------- sections of a flattened file

  ghost predicate Uniform(rows: seq<seq<byte>>, n: nat) {
    forall i :: 0 <= i < |rows| ==> |rows[i]| == n
  }

  lemma {:induction false} FlattenLength(rows: seq<seq<byte>>, n: nat)
    requires Uniform(rows, n)
    ensures |Flatten(rows)| == |rows| * n
  {
    if rows != [] {
      FlattenLength(rows[..|rows| - 1], n);
      assert |rows| * n == (|rows| - 1) * n + n;
    }
  }

  /** Rows of one length `n` are found at multiples of it. */
  lemma {:induction false} FlattenRowAt(rows: seq<seq<byte>>, n: nat, i: nat, at: nat)
    requires Uniform(rows, n) && i < |rows| && at == Area(i, n)
    ensures at + n <= |Flatten(rows)| && Flatten(rows)[at..at + n] == rows[i]
    decreases |rows|
  {
    var before, last := rows[..|rows| - 1], rows[|rows| - 1];
    if i < |before| {
      FlattenRowAt(before, n, i, at);
      SliceOfPrefix(Flatten(before), last, at, at + n);
    } else {
      FlattenLength(before, n);
      SliceOfLast(Flatten(before), last);
    }
  }

  lemma SliceOfLast(a: seq<byte>, b: seq<byte>)
    ensures (a + b)[|a|..|a| + |b|] == b
  {
  }

  lemma SliceOfPrefix(a: seq<byte>, b: seq<byte>, lo: nat, hi: nat)
    requires lo <= hi <= |a|
    ensures (a + b)[lo..hi] == a[lo..hi]
  {
  }

  lemma {:induction false} FlattenPrefix(parts: seq<seq<byte>>, k: nat)
    requires k <= |parts|
    ensures |Flatten(parts[..k])| <= |Flatten(parts)|
    ensures Flatten(parts)[..|Flatten(parts[..k])|] == Flatten(parts[..k])
    decreases |parts|
  {
    if k == |parts| {
      assert parts[..k] == parts;
    } else {
      var before := parts[..|parts| - 1];
      FlattenPrefix(before, k);
      assert before[..k] == parts[..k];
      assert Flatten(parts) == Flatten(before) + parts[|parts| - 1];
    }
  }

  /** Part `k` lies between the lengths of the first `k` and the first `k + 1` parts. */
  lemma FlattenSlice(parts: seq<seq<byte>>, k: nat)
    requires k < |parts|
    ensures var lo := |Flatten(parts[..k])|;
            lo + |parts[k]| <= |Flatten(parts)| && Flatten(parts)[lo..lo + |parts[k]|] == parts[k]
  {
    FlattenPrefix(parts, k + 1);
    FlattenOne(parts, k);
    var upTo := Flatten(parts[..k + 1]);
    var lo := |Flatten(parts[..k])|;
    assert Flatten(parts)[lo..lo + |parts[k]|] == upTo[lo..];
  }

  /** Every section starts at its declared offset, and the file is as long as declared. */
  ghost predicate SectionsStart(input: DayInput, s: seq<seq<byte>>)
    requires |s| == 14
  {
    var l := InputLayout(input);
    var rounds, targets, aps := |input.rounds|, |input.targets|, |input.aps|;
    && |Flatten(s[..0])| == 0
    && |Flatten(s[..1])| == 132
    && |Flatten(s[..2])| == FILE_HEADER
    && |Flatten(s[..3])| == l.macs
    && |Flatten(s[..4])| == l.macs + targets * 6
    && |Flatten(s[..5])| == l.samples
    && |Flatten(s[..6])| == l.snr
    && |Flatten(s[..7])| == l.state
    && |Flatten(s[..8])| == l.state + targets * rounds
    && |Flatten(s[..9])| == l.apMacs
    && |Flatten(s[..10])| == l.apMacs + aps * 6
    && |Flatten(s[..11])| == l.air24
    && |Flatten(s[..12])| == l.air5
    && |Flatten(s[..13])| == l.mesh
    && |Flatten(s)| == l.end < U32
  }

  lemma SectionLengths(input: DayInput, codebook: seq<u16>)
    requires IsCodebook(codebook) && !InputLayout(input).TooBig()
    ensures var s, l := Sections(input, codebook), InputLayout(input);
            var rounds, targets, aps := |input.rounds|, |input.targets|, |input.aps|;
            && |s[0]| == 132 && |s[1]| == 508 && |s[2]| == rounds * 4 && |s[3]| == targets * 6
            && |s[4]| == l.samples - (l.macs + targets * 6)
            && |s[5]| == targets * rounds && |s[6]| == targets * rounds && |s[7]| == targets * rounds
            && |s[8]| == l.apMacs - (l.state + targets * rounds)
            && |s[9]| == aps * 6 && |s[10]| == l.air24 - (l.apMacs + aps * 6)
            && |s[11]| == aps * rounds && |s[12]| == aps * rounds && |s[13]| == aps * rounds
  {
    hide Sections, Flatten, Header, FillRow;
    SectionsAre(input, codebook);
    var n := |input.rounds|;
    FlattenLength(Words16(codebook), 2);
    FlattenLength(Words32(input.rounds), 4);
    FlattenLength(TargetMacs(input), 6);
    FlattenLength(ApMacs(input), 6);
    FlattenLength(LatencyRows(input, codebook), n);
    FlattenLength(SnrRows(input), n);
    FlattenLength(StateRows(input), n);
    FlattenLength(AirtimeRows(input, false), n);
    FlattenLength(AirtimeRows(input, true), n);
    FlattenLength(MeshRows(input), n);
  }

  lemma SectionsStartAtOffsets(input: DayInput, codebook: seq<u16>)
    requires IsCodebook(codebook) && !InputLayout(input).TooBig()
    ensures SectionsStart(input, Sections(input, codebook))
  {
    hide Sections, Flatten;
    SectionLengths(input, codebook);
    var s := Sections(input, codebook);
    FlattenNone();
    assert s[..0] == [] && s[..14] == s;
    FlattenOne(s, 0);
    FlattenOne(s, 1);
    FlattenOne(s, 2);
    FlattenOne(s, 3);
    FlattenOne(s, 4);
    FlattenOne(s, 5);
    FlattenOne(s, 6);
    FlattenOne(s, 7);
    FlattenOne(s, 8);
    FlattenOne(s, 9);
    FlattenOne(s, 10);
    FlattenOne(s, 11);
    FlattenOne(s, 12);
    FlattenOne(s, 13);
  }

  // ---------------------------------------------------------------- header fields

  lemma SubSlice(s: seq<byte>, at: nat, n: nat, i: nat, j: nat)
    requires at + n <= |s| && i <= j <= n
    ensures s[at + i..at + j] == s[at..at + n][i..j]
  {
    var t := s[at..at + n];
    assert forall k :: 0 <= k < j - i ==> s[at + i..at + j][k] == t[i..j][k];
  }

  lemma FourParts(a: seq<byte>, b: seq<byte>, c: seq<byte>, d: seq<byte>, q: seq<byte>)
    requires |a| == |b| == |c| == |d| == 4 && q == a + b + c + d
    ensures q[0..4] == a && q[4..8] == b && q[8..12] == c && q[12..16] == d
  {
  }

  lemma FiveParts(a: seq<byte>, b: seq<byte>, c: seq<byte>, d: seq<byte>, e: seq<byte>, q: seq<byte>)
    requires |a| == |b| == 2 && |c| == |d| == |e| == 4 && q == a + b + c + d + e
    ensures q[0..2] == a && q[2..4] == b && q[4..8] == c && q[8..12] == d && q[12..16] == e
  {
    var front := a + b + c + d;
    var ab := a + b;
    assert q[..12] == front && q[12..] == e && q[..4] == ab;
    assert q[0..2] == ab[0..2] && q[2..4] == ab[2..4];
    assert q[4..8] == front[4..8] && q[8..12] == front[8..12];
  }

  lemma QuadFields(s: seq<byte>, at: nat, a: u32, b: u32, c: u32, d: u32)
    requires at + 16 <= |s| && s[at..at + 16] == Quad(a, b, c, d)
    ensures ReadLe32(s, at) == a && ReadLe32(s, at + 4) == b && ReadLe32(s, at + 8) == c && ReadLe32(s, at + 12) == d
  {
    hide Le32, ReadLe32;
    var q := s[at..at + 16];
    FourParts(Le32(a), Le32(b), Le32(c), Le32(d), q);
    SubSlice(s, at, 16, 0, 4);
    assert s[at..at + 4] == Le32(a);
    SubSlice(s, at, 16, 4, 8);
    assert s[at + 4..at + 8] == Le32(b);
    SubSlice(s, at, 16, 8, 12);
    assert s[at + 8..at + 12] == Le32(c);
    SubSlice(s, at, 16, 12, 16);
    assert s[at + 12..at + 16] == Le32(d);
    Le32RoundTrip(s, at, a);
    Le32RoundTrip(s, at + 4, b);
    Le32RoundTrip(s, at + 8, c);
    Le32RoundTrip(s, at + 12, d);
  }

  lemma MixedFields(s: seq<byte>, at: nat, a: u16, b: u16, c: u32, d: u32, e: u32)
    requires at + 16 <= |s| && s[at..at + 16] == Le16(a) + Le16(b) + Le32(c) + Le32(d) + Le32(e)
    ensures ReadLe16(s, at) == a && ReadLe16(s, at + 2) == b
    ensures ReadLe32(s, at + 4) == c && ReadLe32(s, at + 8) == d && ReadLe32(s, at + 12) == e
  {
    hide Le32, Le16, ReadLe32, ReadLe16;
    var q := s[at..at + 16];
    FiveParts(Le16(a), Le16(b), Le32(c), Le32(d), Le32(e), q);
    SubSlice(s, at, 16, 0, 2);
    assert s[at..at + 2] == Le16(a);
    SubSlice(s, at, 16, 2, 4);
    assert s[at + 2..at + 4] == Le16(b);
    SubSlice(s, at, 16, 4, 8);
    assert s[at + 4..at + 8] == Le32(c);
    SubSlice(s, at, 16, 8, 12);
    assert s[at + 8..at + 12] == Le32(d);
    SubSlice(s, at, 16, 12, 16);
    assert s[at + 12..at + 16] == Le32(e);
    Le16RoundTrip(s, at, a);
    Le16RoundTrip(s, at + 2, b);
    Le32RoundTrip(s, at + 4, c);
    Le32RoundTrip(s, at + 8, d);
    Le32RoundTrip(s, at + 12, e);
  }

  lemma FirstFields(s: seq<byte>)
    requires 16 <= |s|
    requires s[..16] == FILE_MAGIC + Le16(FORMAT_VERSION) + Le16(FILE_HEADER) + Le32(FLAGS)
    ensures s[..8] == FILE_MAGIC && ReadLe16(s, 8) == 2 && ReadLe16(s, 10) == 640 && ReadLe32(s, 12) == 31
  {
    var q := s[..16];
    assert s[..8] == q[..8] == FILE_MAGIC;
    assert s[8..10] == q[8..10] == Le16(FORMAT_VERSION);
    assert s[10..12] == q[10..12] == Le16(FILE_HEADER);
    assert s[12..16] == q[12..16] == Le32(FLAGS);
    Le16RoundTrip(s, 8, FORMAT_VERSION);
    Le16RoundTrip(s, 10, FILE_HEADER);
    Le32RoundTrip(s, 12, FLAGS);
  }

  lemma SixGroups(a: seq<byte>, b: seq<byte>, c: seq<byte>, d: seq<byte>, e: seq<byte>, f: seq<byte>, g: seq<byte>)
    requires |a| == 16 && |b| == 16 && |c| == 16 && |d| == 16 && |e| == 16 && |f| == 4
    ensures var h := a + b + c + d + e + f + g;
            && h[..16] == a && h[16..32] == b && h[32..48] == c && h[48..64] == d && h[64..80] == e && h[80..84] == f
  {
  }

  /** The frame that the parser reads back from an exported file. */
  function ExportedFrame(input: DayInput): Frame {
    var l := InputLayout(input);
    Frame(FORMAT_VERSION, input.start, input.End(), |input.rounds|, |input.targets|, TIMEOUT_MS,
          FILE_HEADER, l.macs, l.samples, Generation(input),
          l.snr, l.state, |input.aps|, l.apMacs, l.air24, l.air5, l.mesh, l.end)
  }

  lemma HeaderReadsBack(input: DayInput, bytes: seq<byte>)
    requires !InputLayout(input).TooBig()
    requires |bytes| >= 576 && bytes[..132] == Header(input)
    ensures bytes[..8] == FILE_MAGIC && ReadLe16(bytes, 10) == 640 && ReadLe16(bytes, 34) == 254
    ensures ReadLe32(bytes, 12) == 31
    ensures RawFrame(bytes) == ExportedFrame(input)
  {
    hide ReadLe32, ReadLe16, Le32, Le16;
    LayoutAscends(|input.rounds|, |input.targets|, |input.aps|);
    var l, h := InputLayout(input), Header(input);
    SixGroups(FILE_MAGIC + Le16(FORMAT_VERSION) + Le16(FILE_HEADER) + Le32(FLAGS),
              Quad(input.start, input.End(), |input.rounds|, |input.targets|),
              Le16(TIMEOUT_MS) + Le16(CODE_COUNT) + Le32(FILE_HEADER) + Le32(l.macs) + Le32(l.samples),
              Quad(Generation(input), l.snr, l.state, |input.aps|),
              Quad(l.apMacs, l.air24, l.air5, l.mesh), Le32(l.end), Zeros(48));
    HeaderGroups(input);
    assert bytes[..16] == h[..16] && bytes[16..32] == h[16..32] && bytes[32..48] == h[32..48];
    assert bytes[48..64] == h[48..64] && bytes[64..80] == h[64..80] && bytes[80..84] == h[80..84];
    FirstFields(bytes);
    QuadFields(bytes, 16, input.start, input.End(), |input.rounds|, |input.targets|);
    MixedFields(bytes, 32, TIMEOUT_MS, CODE_COUNT, FILE_HEADER, l.macs, l.samples);
    QuadFields(bytes, 48, Generation(input), l.snr, l.state, |input.aps|);
    QuadFields(bytes, 64, l.apMacs, l.air24, l.air5, l.mesh);
    Le32RoundTrip(bytes, 80, l.end);
  }

  /** The header as five groups of sixteen bytes, the end offset and zeros. */
  lemma HeaderGroups(input: DayInput)
    requires !InputLayout(input).TooBig()
    ensures var l := InputLayout(input);
            && l.end < U32 && l.macs < U32 && |input.rounds| < U32 && |input.targets| < U32 && |input.aps| < U32
            && Header(input) ==
               (FILE_MAGIC + Le16(FORMAT_VERSION) + Le16(FILE_HEADER) + Le32(FLAGS))
               + Quad(input.start, input.End(), |input.rounds|, |input.targets|)
               + (Le16(TIMEOUT_MS) + Le16(CODE_COUNT) + Le32(FILE_HEADER) + Le32(l.macs) + Le32(l.samples))
               + Quad(Generation(input), l.snr, l.state, |input.aps|)
               + Quad(l.apMacs, l.air24, l.air5, l.mesh) + Le32(l.end) + Zeros(48)
  {
    hide Le32, Le16, Quad, Zeros;
    LayoutAscends(|input.rounds|, |input.targets|, |input.aps|);
  }

  // ---------------------------------------------------------------- sections of the exported bytes

  ghost predicate Holds(bytes: seq<byte>, at: nat, section: seq<byte>) {
    at + |section| <= |bytes| && bytes[at..at + |section|] == section
  }

  /** Each section of the exported bytes is where the layout puts it. */
  lemma FileSections(input: DayInput, codebook: seq<u16>)
    requires IsCodebook(codebook) && !InputLayout(input).TooBig()
    ensures var bytes, l := EncodeDay(input, codebook), InputLayout(input);
            && |bytes| == l.end < U32
            && Holds(bytes, 0, Header(input)) && Holds(bytes, 132, Flatten(Words16(codebook)))
            && Holds(bytes, FILE_HEADER, Flatten(Words32(input.rounds)))
            && Holds(bytes, l.macs, Flatten(TargetMacs(input)))
            && Holds(bytes, l.samples, Flatten(LatencyRows(input, codebook)))
            && Holds(bytes, l.snr, Flatten(SnrRows(input)))
            && Holds(bytes, l.state, Flatten(StateRows(input)))
            && Holds(bytes, l.apMacs, Flatten(ApMacs(input)))
            && Holds(bytes, l.air24, Flatten(AirtimeRows(input, false)))
            && Holds(bytes, l.air5, Flatten(AirtimeRows(input, true)))
            && Holds(bytes, l.mesh, Flatten(MeshRows(input)))
  {
    hide Sections, Flatten, Header, FillRow, Words16, Words32, TargetMacs, ApMacs;
    hide LatencyRows, SnrRows, StateRows, AirtimeRows, MeshRows;
    SectionsAre(input, codebook);
    SectionsStartAtOffsets(input, codebook);
    var s := Sections(input, codebook);
    FlattenSlice(s, 0);
    FlattenSlice(s, 1);
    FlattenSlice(s, 2);
    FlattenSlice(s, 3);
    FlattenSlice(s, 5);
    FlattenSlice(s, 6);
    FlattenSlice(s, 7);
    FlattenSlice(s, 9);
    FlattenSlice(s, 11);
    FlattenSlice(s, 12);
    FlattenSlice(s, 13);
  }

  /** A held matrix shows row `i` at `i` row lengths from its start. */
  lemma HeldRow(bytes: seq<byte>, at: nat, rows: seq<seq<byte>>, n: nat, i: nat, off: nat)
    requires Uniform(rows, n) && Holds(bytes, at, Flatten(rows)) && i < |rows| && off == Area(i, n)
    ensures at + off + n <= |bytes| && bytes[at + off..at + off + n] == rows[i]
  {
    hide Flatten, Uniform, Area;
    FlattenRowAt(rows, n, i, off);
    HeldPart(bytes, at, Flatten(rows), off, n);
  }

  lemma HeldPart(bytes: seq<byte>, at: nat, all: seq<byte>, off: nat, n: nat)
    requires Holds(bytes, at, all) && off + n <= |all|
    ensures at + off + n <= |bytes| && bytes[at + off..at + off + n] == all[off..off + n]
  {
    SubSlice(bytes, at, |all|, off, off + n);
  }

  lemma CodesReadBack(bytes: seq<byte>, at: nat, codebook: seq<u16>)
    requires |codebook| == CODE_COUNT && Holds(bytes, at, Flatten(Words16(codebook)))
    ensures at + 508 <= |bytes| && Codes(bytes, at) == codebook
  {
    hide Flatten;
    FlattenLength(Words16(codebook), 2);
    forall i | 0 <= i < 254
      ensures Codes(bytes, at)[i] == codebook[i]
    {
      HeldRow(bytes, at, Words16(codebook), 2, i, i * 2);
      Le16RoundTrip(bytes, at + i * 2, codebook[i]);
    }
  }

  lemma TimesReadBack(bytes: seq<byte>, at: nat, rounds: seq<u32>)
    requires Holds(bytes, at, Flatten(Words32(rounds)))
    ensures at + 4 * |rounds| <= |bytes| && Timestamps(bytes, at, |rounds|) == rounds
  {
    hide Flatten, Le32, ReadLe32;
    FlattenLength(Words32(rounds), 4);
    forall i | 0 <= i < |rounds|
      ensures Timestamps(bytes, at, |rounds|)[i] == rounds[i]
    {
      HeldRow(bytes, at, Words32(rounds), 4, i, i * 4);
      Le32RoundTrip(bytes, at + i * 4, rounds[i]);
    }
  }

  function Texts(macs: seq<Mac>): (texts: seq<string>)
    ensures |texts| == |macs|
  {
    seq(|macs|, i requires 0 <= i < |macs| => MacText(macs[i]))
  }

  lemma MacsReadBack(bytes: seq<byte>, at: nat, macs: seq<Mac>)
    requires Holds(bytes, at, Flatten(macs))
    ensures at + 6 * |macs| <= |bytes| && MacTexts(bytes, at, |macs|) == Texts(macs)
  {
    hide Flatten, MacText, Holds;
    FlattenLength(macs, 6);
    HeldLength(bytes, at, Flatten(macs));
    forall i | 0 <= i < |macs|
      ensures MacTexts(bytes, at, |macs|)[i] == Texts(macs)[i]
    {
      HeldRow(bytes, at, macs, 6, i, i * 6);
    }
  }

  lemma HeldLength(bytes: seq<byte>, at: nat, part: seq<byte>)
    requires Holds(bytes, at, part)
    ensures at + |part| <= |bytes|
  {
  }

  // ---------------------------------------------------------------- the round trip

  /** The day that the parser should find in an exported file. */
  function ExportedDay(input: DayInput, codebook: seq<u16>): Day
    requires IsCodebook(codebook) && !InputLayout(input).TooBig()
  {
    Day(ExportedFrame(input), EncodeDay(input, codebook), codebook, input.rounds,
        Texts(TargetMacs(input)), Texts(ApMacs(input)))
  }

  lemma ExportedFrameInOrder(input: DayInput)
    ensures ExportedFrame(input).TelemetryInOrder() && ExportedFrame(input).SectionsInOrder(InputLayout(input).end)
  {
  }

  lemma ExportedFrameAccepted(input: DayInput, codebook: seq<u16>)
    requires IsCodebook(codebook) && !InputLayout(input).TooBig()
    ensures FrameSpec(EncodeDay(input, codebook)) ==
            if input.End() as int - input.start as int == DAY_SECONDS then Success(ExportedFrame(input))
            else Failure(UnsupportedFormat)
  {
    hide EncodeDay, Header, RawFrame, Flatten, InputLayout, LayoutOf, ReadLe16, ReadLe32;
    hide Words16, Words32, TargetMacs, ApMacs, LatencyRows, SnrRows, StateRows, AirtimeRows, MeshRows;
    FileSections(input, codebook);
    LayoutAscends(|input.rounds|, |input.targets|, |input.aps|);
    ExportedFrameInOrder(input);
    LayoutEnd(input);
    HeaderReadsBack(input, EncodeDay(input, codebook));
  }

  lemma LayoutEnd(input: DayInput)
    ensures InputLayout(input).end >= FILE_HEADER
  {
    LayoutAscends(|input.rounds|, |input.targets|, |input.aps|);
  }

  lemma EndFits(input: DayInput)
    ensures input.End() as int - input.start as int == DAY_SECONDS <==> input.start + DAY_SECONDS < U32
  {
  }

  /** The exported bytes parse exactly when the day's end fits 32 bits and the MACs
      of each list ascend, and then to exactly what was exported. */
  lemma ExportParseRoundTrip(input: DayInput, codebook: seq<u16>)
    requires IsCodebook(codebook) && input.Queried() && !InputLayout(input).TooBig()
    ensures ParseDaySpec(EncodeDay(input, codebook)).Success? <==>
            && input.start + DAY_SECONDS < U32
            && InTextOrder(Texts(TargetMacs(input))) && InTextOrder(Texts(ApMacs(input)))
    ensures ParseDaySpec(EncodeDay(input, codebook)).Success? ==>
              ParseDaySpec(EncodeDay(input, codebook)) == Success(ExportedDay(input, codebook))
  {
    hide EncodeDay, Header, FrameSpec, Texts, TargetMacs, ApMacs, InputLayout, Flatten, InTextOrder;
    ExportedFrameAccepted(input, codebook);
    EndFits(input);
    FileSections(input, codebook);
    var bytes, l := EncodeDay(input, codebook), InputLayout(input);
    CodesReadBack(bytes, 132, codebook);
    TimesReadBack(bytes, FILE_HEADER, input.rounds);
    MacsReadBack(bytes, l.macs, TargetMacs(input));
    MacsReadBack(bytes, l.apMacs, ApMacs(input));
    assert GoodCodes(codebook, TIMEOUT_MS) by {
      assert forall i :: 0 < i < CODE_COUNT ==> codebook[i - 1] < codebook[i];
      assert forall i :: 0 <= i < CODE_COUNT - 1 ==> codebook[i] < codebook[CODE_COUNT - 1];
    }
    if input.start + DAY_SECONDS < U32 {
      assert input.End() == input.start + DAY_SECONDS;
      assert forall i :: 0 <= i < |input.rounds| ==> input.rounds[i] in input.rounds;
      assert GoodTimes(input.rounds, input.start, input.End());
    }
  }

  /** The day that starts at 4294944000 is the last to start within 32 bits: with no
      rows at all it is exported, and the parser refuses the file. */
  lemma LastDayIsRefused(codebook: seq<u16>)
    requires IsCodebook(codebook)
    ensures var input := DayInput(4294944000, [], [], []);
            && input.start % DAY_SECONDS == 0 && input.Queried() && !InputLayout(input).TooBig()
            && ParseDaySpec(EncodeDay(input, codebook)).Failure?
  {
    hide EncodeDay, ParseDaySpec;
    var input := DayInput(4294944000, [], [], []);
    EmptyLayout();
    ExportParseRoundTrip(input, codebook);
  }

  lemma EmptyLayout()
    ensures !LayoutOf(0, 0, 0).TooBig()
  {
    assert LayoutOf(0, 0, 0).end == 640;
  }

  lemma {:induction false} TextLessTransitive(a: string, b: string, c: string)
    requires TextLess(a, b) && TextLess(b, c)
    ensures TextLess(a, c)
    decreases |a|
  {
    if a != "" && a[0] == b[0] == c[0] {
      TextLessTransitive(a[1..], b[1..], c[1..]);
    }
  }

  lemma {:induction false} OrderedApart(texts: seq<string>, i: nat, j: nat)
    requires i < j < |texts| && InTextOrder(texts)
    ensures TextLess(texts[i], texts[j])
    decreases j
  {
    assert TextLess(texts[j - 1], texts[j]);
    if i < j - 1 {
      OrderedApart(texts, i, j - 1);
      TextLessTransitive(texts[i], texts[j - 1], texts[j]);
    }
  }

  /** With the order the queries give, "ascending" only asks for distinct addresses. */
  lemma AscendingIsDistinct(texts: seq<string>)
    requires forall i, j :: 0 <= i < j < |texts| ==> !TextLess(texts[j], texts[i])
    ensures InTextOrder(texts) <==> forall i, j :: 0 <= i < j < |texts| ==> texts[i] != texts[j]
  {
    forall i | 0 < i < |texts|
      ensures TextLess(texts[i - 1], texts[i]) <==> texts[i - 1] != texts[i]
    {
      TextLessTotal(texts[i - 1], texts[i]);
    }
    if InTextOrder(texts) {
      forall i, j | 0 <= i < j < |texts|
        ensures texts[i] != texts[j]
      {
        OrderedApart(texts, i, j);
        TextLessTotal(texts[i], texts[j]);
      }
    }
  }

  lemma SameTextIsSameMac(a: Mac, b: Mac)
    ensures MacText(a) == MacText(b) <==> a == b
  {
    hide MacText, IsMacText, HexDigit;
    MacTextReadsBack(a);
    MacTextReadsBack(b);
    if MacText(a) == MacText(b) {
      assert forall i :: 0 <= i < 6 ==> a[i] == b[i];
    }
  }

  /** The queries order their rows by the text of the address. */
  ghost predicate InQueryOrder(macs: seq<Mac>) {
    forall i, j :: 0 <= i < j < |macs| ==> !TextLess(MacText(macs[j]), MacText(macs[i]))
  }

  ghost predicate Distinct(macs: seq<Mac>) {
    forall i, j :: 0 <= i < j < |macs| ==> macs[i] != macs[j]
  }

  lemma AscendingMacs(macs: seq<Mac>)
    requires InQueryOrder(macs)
    ensures InTextOrder(Texts(macs)) <==> Distinct(macs)
  {
    hide MacText, TextLess;
    var texts := Texts(macs);
    AscendingIsDistinct(texts);
    forall i, j | 0 <= i < j < |macs|
      ensures texts[i] == texts[j] <==> macs[i] == macs[j]
    {
      SameTextIsSameMac(macs[i], macs[j]);
    }
  }

  /** A file of query results is accepted exactly when the day's end fits 32 bits and
      no address is there twice. */
  lemma AcceptedExactly(input: DayInput, codebook: seq<u16>)
    requires IsCodebook(codebook) && input.Queried() && !InputLayout(input).TooBig()
    requires InQueryOrder(TargetMacs(input)) && InQueryOrder(ApMacs(input))
    ensures ParseDaySpec(EncodeDay(input, codebook)).Success? <==>
            input.start + DAY_SECONDS < U32 && Distinct(TargetMacs(input)) && Distinct(ApMacs(input))
  {
    hide EncodeDay, ParseDaySpec, InTextOrder, Texts, InQueryOrder, Distinct;
    ExportParseRoundTrip(input, codebook);
    AscendingMacs(TargetMacs(input));
    AscendingMacs(ApMacs(input));
  }

  /** A day with one address on two targets is exported, and the parser refuses the file. */
  lemma SameAddressIsRefused(mac: Mac, codebook: seq<u16>)
    requires IsCodebook(codebook)
    ensures var input := DayInput(0, [], [Target(mac, []), Target(mac, [])], []);
            && input.Queried() && InQueryOrder(TargetMacs(input)) && !InputLayout(input).TooBig()
            && ParseDaySpec(EncodeDay(input, codebook)).Failure?
  {
    hide EncodeDay, ParseDaySpec, MacText;
    var input := DayInput(0, [], [Target(mac, []), Target(mac, [])], []);
    assert LayoutOf(0, 2, 0).end == 652;
    assert TargetMacs(input) == [mac, mac];
    TextLessTotal(MacText(mac), MacText(mac));
    AcceptedExactly(input, codebook);
    assert TargetMacs(input)[0] == TargetMacs(input)[1];
  }

  /** The position of a matrix cell in the file. */
  function CellOffset(at: nat, rounds: nat, i: nat, p: nat): nat {
    at + Area(i, rounds) + p
  }

  lemma HeldCell(bytes: seq<byte>, at: nat, rows: seq<seq<byte>>, n: nat, i: nat, p: nat)
    requires Uniform(rows, n) && Holds(bytes, at, Flatten(rows)) && i < |rows| && p < n
    ensures CellOffset(at, n, i, p) < |bytes| && bytes[CellOffset(at, n, i, p)] == rows[i][p]
  {
    hide Flatten, Holds, Area;
    var off := Area(i, n);
    HeldRow(bytes, at, rows, n, i, off);
    ByteOfRow(bytes, at + off, n, rows[i], p);
  }

  lemma ByteOfRow(bytes: seq<byte>, at: nat, n: nat, row: seq<byte>, p: nat)
    requires at + n <= |bytes| && bytes[at..at + n] == row && p < n
    ensures bytes[at + p] == row[p]
  {
  }

  /** Every target cell of the file is the cell of the filled row it was exported from. */
  lemma TargetCellsReadBack(input: DayInput, codebook: seq<u16>, i: nat, p: nat)
    requires IsCodebook(codebook) && !InputLayout(input).TooBig()
    requires i < |input.targets| && p < |input.rounds|
    ensures var bytes, l, n := EncodeDay(input, codebook), InputLayout(input), |input.rounds|;
            && CellOffset(l.samples, n, i, p) < |bytes| && CellOffset(l.snr, n, i, p) < |bytes|
            && CellOffset(l.state, n, i, p) < |bytes|
            && bytes[CellOffset(l.samples, n, i, p)] ==
                FillRow(input.rounds, LatencyCells(input.targets[i], codebook))[p]
            && bytes[CellOffset(l.snr, n, i, p)] == FillRow(input.rounds, SnrCells(input.targets[i]))[p]
            && bytes[CellOffset(l.state, n, i, p)] == FillRow(input.rounds, StateCells(input.targets[i]))[p]
  {
    hide EncodeDay, Header, Flatten, FillRow, LatencyCells, SnrCells, StateCells, InputLayout, CellOffset;
    FileSections(input, codebook);
    var bytes, l, n := EncodeDay(input, codebook), InputLayout(input), |input.rounds|;
    HeldCell(bytes, l.samples, LatencyRows(input, codebook), n, i, p);
    HeldCell(bytes, l.snr, SnrRows(input), n, i, p);
    HeldCell(bytes, l.state, StateRows(input), n, i, p);
  }

  /** The same for the airtime and mesh cells of an access point. */
  lemma ApCellsReadBack(input: DayInput, codebook: seq<u16>, i: nat, p: nat)
    requires IsCodebook(codebook) && !InputLayout(input).TooBig()
    requires i < |input.aps| && p < |input.rounds|
    ensures var bytes, l, n := EncodeDay(input, codebook), InputLayout(input), |input.rounds|;
            && CellOffset(l.air24, n, i, p) < |bytes| && CellOffset(l.air5, n, i, p) < |bytes|
            && CellOffset(l.mesh, n, i, p) < |bytes|
            && bytes[CellOffset(l.air24, n, i, p)] == FillRow(input.rounds, AirtimeCells(input.aps[i], false))[p]
            && bytes[CellOffset(l.air5, n, i, p)] == FillRow(input.rounds, AirtimeCells(input.aps[i], true))[p]
            && bytes[CellOffset(l.mesh, n, i, p)] == FillRow(input.rounds, MeshCells(input.aps[i]))[p]
  {
    hide EncodeDay, Header, Flatten, FillRow, AirtimeCells, MeshCells, InputLayout, CellOffset;
    FileSections(input, codebook);
    var bytes, l, n := EncodeDay(input, codebook), InputLayout(input), |input.rounds|;
    HeldCell(bytes, l.air24, AirtimeRows(input, false), n, i, p);
    HeldCell(bytes, l.air5, AirtimeRows(input, true), n, i, p);
    HeldCell(bytes, l.mesh, MeshRows(input), n, i, p);
  }
}
