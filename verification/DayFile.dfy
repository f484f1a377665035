/** The rows a day is exported from, the daily file's layout, and the exporter. */
module DayFile {
  import opened Wrappers
  import opened Bytes
  import opened Codebook
  import opened Airtime
  import opened MacAddress

  const FILE_HEADER := 640
  const FORMAT_VERSION := 2
  const FLAGS := 31
  const DAY_SECONDS := 86400
  const FILE_MAGIC: seq<byte> := [0x5A, 0x44, 0x50, 0x4D, 0x44, 0x41, 0x59, 0]

  // ---------------------------------------------------------------- query rows

  /** One ping result of one target; null columns are `None`. */
  datatype PingRow = PingRow(observedAt: u32, rtt: int, responded: bool, state: Option<string>, snr: Option<int>)

  datatype MeshRow = MeshRow(observedAt: u32, snr: Option<int>)

  datatype Target = Target(mac: Mac, rows: seq<PingRow>)

  datatype AccessPoint = AccessPoint(mac: Mac, radios: seq<RadioRow>, mesh: seq<MeshRow>)

  /** What the exporter's queries return for one day. */
  datatype DayInput = DayInput(start: u32, rounds: seq<u32>, targets: seq<Target>, aps: seq<AccessPoint>)
  {
    /** The end of the day in 32-bit arithmetic. */
    function End(): u32 { (start + DAY_SECONDS) % U32 }

    /** The rounds are distinct, ordered and selected by `start <= t < end`. */
    predicate Queried() {
      && Ascending(rounds)
      && forall t <- rounds :: start <= t < End()
    }
  }

  predicate Ascending(s: seq<u32>) {
    forall i, j :: 0 <= i < j < |s| ==> s[i] < s[j]
  }

  // ---------------------------------------------------------------- cell codes

  /** What one row contributes to a matrix row; `None` leaves the cell alone. */
  datatype Cell = Cell(at: u32, code: Option<byte>)

  /** 0 for no attempt, 255 for a timeout, otherwise the latency code. */
  function LatencyCode(row: PingRow, codebook: seq<u16>): byte
    requires IsCodebook(codebook)
  {
    EncodeIsNearest(row.rtt, codebook);
    if row.responded && row.state == Some("ok") then Encode(row.rtt, codebook)
    else if row.state == Some("timeout") then 255
    else 0
  }

  /** Whole decibels from 0 to 100 are kept; anything beyond takes the nearer end. */
  function SnrCode(value: int): (code: byte)
    ensures 1 <= code <= 101
    ensures forall v :: 0 <= v <= 100 ==> Distance(value, code - 1) <= Distance(value, v)
  {
    if value < 0 then 1 else if value > 100 then 101 else value + 1
  }

  /** 0 for no target data, 1 for attempted, 2 for not associated. */
  function StateCode(row: PingRow): byte {
    if row.state == Some("not_associated") then 2
    else if row.state.Some? && row.state.value != "unknown" then 1
    else 0
  }

  /** Tenths of a percent, clamped and rounded half up to whole percents, plus one. */
  function PercentCode(value: int): (code: byte)
    ensures 1 <= code <= 101
    ensures 0 <= value <= 1000 ==> 10 * (code - 1) - 5 <= value < 10 * (code - 1) + 5
    ensures value < 0 ==> code == 1
    ensures value > 1000 ==> code == 101
  {
    ((if value < 0 then 0 else if value > 1000 then 1000 else value) + 5) / 10 + 1
  }

  function LatencyCells(target: Target, codebook: seq<u16>): (cells: seq<Cell>)
    requires IsCodebook(codebook)
    ensures |cells| == |target.rows|
  {
    seq(|target.rows|, i requires 0 <= i < |target.rows| =>
      Cell(target.rows[i].observedAt, Some(LatencyCode(target.rows[i], codebook))))
  }

  function SnrCells(target: Target): seq<Cell> {
    seq(|target.rows|, i requires 0 <= i < |target.rows| =>
      Cell(target.rows[i].observedAt,
           if target.rows[i].snr.None? then None else Some(SnrCode(target.rows[i].snr.value))))
  }

  function StateCells(target: Target): (cells: seq<Cell>)
    ensures |cells| == |target.rows|
  {
    seq(|target.rows|, i requires 0 <= i < |target.rows| =>
      Cell(target.rows[i].observedAt, Some(StateCode(target.rows[i]))))
  }

  function RateCells(rows: seq<RadioRow>, rates: seq<Option<int>>): seq<Cell>
    requires |rates| == |rows|
  {
    seq(|rows|, i requires 0 <= i < |rows| =>
      Cell(rows[i].observedAt, if rates[i].None? then None else Some(PercentCode(rates[i].value))))
  }

  function AirtimeCells(ap: AccessPoint, five: bool): seq<Cell> {
    RateCells(ap.radios, Rates(NoBase, ap.radios, five))
  }

  function MeshCells(ap: AccessPoint): seq<Cell> {
    seq(|ap.mesh|, i requires 0 <= i < |ap.mesh| =>
      Cell(ap.mesh[i].observedAt, if ap.mesh[i].snr.None? then None else Some(SnrCode(ap.mesh[i].snr.value))))
  }

  // ---------------------------------------------------------------- one matrix row

  function RoundIndex(rounds: seq<u32>, t: u32): (p: Option<nat>)
    ensures p.Some? ==> p.value < |rounds| && rounds[p.value] == t
    ensures p.None? ==> t !in rounds
  {
    if rounds == [] then None
    else if rounds[|rounds| - 1] == t then Some(|rounds| - 1)
    else RoundIndex(rounds[..|rounds| - 1], t)
  }

  method FindRound(rounds: seq<u32>, timestamp: u32) returns (position: Option<nat>)
    requires Ascending(rounds)
    ensures position == RoundIndex(rounds, timestamp)
  {
    var low, high := 0, |rounds|;
    while low < high
      invariant 0 <= low <= high <= |rounds|
      invariant forall k :: 0 <= k < low ==> rounds[k] < timestamp
      invariant forall k :: high <= k < |rounds| ==> rounds[k] >= timestamp
    {
      var middle := low + (high - low) / 2;
      if rounds[middle] < timestamp {
        low := middle + 1;
      } else {
        high := middle;
      }
    }
    if low >= |rounds| || rounds[low] != timestamp {
      assert timestamp !in rounds;
      return None;
    }
    return Some(low);
  }

  /** A zeroed row with the cells written in order: a later row of a round wins. */
  function FillRow(rounds: seq<u32>, cells: seq<Cell>): (row: seq<byte>)
    ensures |row| == |rounds|
  {
    if cells == [] then seq(|rounds|, _ => 0)
    else
      var before, last := FillRow(rounds, cells[..|cells| - 1]), cells[|cells| - 1];
      var position := RoundIndex(rounds, last.at);
      if position.Some? && last.code.Some? then before[position.value := last.code.value] else before
  }

  /** The reused row buffer: cleared, then filled from the query rows. */
  method FillRowBuffer(row: array<byte>, rounds: seq<u32>, cells: seq<Cell>)
    requires Ascending(rounds) && row.Length == |rounds|
    modifies row
    ensures row[..] == FillRow(rounds, cells)
  {
    for i := 0 to row.Length
      invariant forall k :: 0 <= k < i ==> row[k] == 0
    {
      row[i] := 0;
    }
    assert row[..] == FillRow(rounds, cells[..0]);
    for i := 0 to |cells|
      invariant row[..] == FillRow(rounds, cells[..i])
    {
      assert cells[..i + 1][..i] == cells[..i];
      var position := FindRound(rounds, cells[i].at);
      if position.Some? && cells[i].code.Some? {
        row[position.value] := cells[i].code.value;
      }
    }
    assert cells[..|cells|] == cells;
  }

  /** `index` is the last cell that writes round `p`. */
  ghost predicate LastWriter(rounds: seq<u32>, cells: seq<Cell>, p: nat, index: nat)
    requires p < |rounds|
  {
    && index < |cells| && cells[index].at == rounds[p] && cells[index].code.Some?
    && forall k :: index < k < |cells| ==> cells[k].at != rounds[p] || cells[k].code.None?
  }

  /** A filled cell is the code of its last writer, or zero without one. */
  lemma {:induction false} FillRowMeaning(rounds: seq<u32>, cells: seq<Cell>, p: nat)
    requires Ascending(rounds) && p < |rounds|
    ensures forall index: nat :: LastWriter(rounds, cells, p, index) ==>
              FillRow(rounds, cells)[p] == cells[index].code.value
    ensures (forall index :: 0 <= index < |cells| ==> cells[index].at != rounds[p] || cells[index].code.None?) ==>
              FillRow(rounds, cells)[p] == 0
  {
    if cells != [] {
      var before, last := cells[..|cells| - 1], cells[|cells| - 1];
      FillRowMeaning(rounds, before, p);
      forall index: nat | LastWriter(rounds, cells, p, index)
        ensures FillRow(rounds, cells)[p] == cells[index].code.value
      {
        if index < |before| {
          assert LastWriter(rounds, before, p, index);
        }
      }
    }
  }

  // ---------------------------------------------------------------- layout

  datatype Layout = Layout(
    macs: nat, samples: nat, snr: nat, state: nat, apMacs: nat, air24: nat, air5: nat, mesh: nat, end: nat)
  {
    /** Some offset does not fit 32 bits. */
    predicate TooBig() {
      || macs >= U32 || samples >= U32 || snr >= U32 || state >= U32 || apMacs >= U32
      || air24 >= U32 || air5 >= U32 || mesh >= U32 || end >= U32
    }
  }

  function Align4(v: nat): (a: nat)
    ensures v <= a < v + 4 && a % 4 == 0
  {
    (v + 3) / 4 * 4
  }

  /** One byte for each row and round. */
  function Area(rows: nat, rounds: nat): nat {
    rows * rounds
  }

  function LayoutOf(rounds: nat, targets: nat, aps: nat): Layout {
    var targetArea: nat, apArea: nat := Area(targets, rounds), Area(aps, rounds);
    var macs := FILE_HEADER + rounds * 4;
    var samples := Align4(macs + targets * 6);
    var snr := samples + targetArea;
    var state := snr + targetArea;
    var apMacs := Align4(state + targetArea);
    var air24 := Align4(apMacs + aps * 6);
    var air5 := air24 + apArea;
    var mesh := air5 + apArea;
    Layout(macs, samples, snr, state, apMacs, air24, air5, mesh, mesh + apArea)
  }

  function InputLayout(input: DayInput): Layout {
    LayoutOf(|input.rounds|, |input.targets|, |input.aps|)
  }

  /** The offsets ascend, so the file fits exactly when its end does. */
  lemma LayoutAscends(rounds: nat, targets: nat, aps: nat)
    ensures var l := LayoutOf(rounds, targets, aps);
            && FILE_HEADER <= l.macs <= l.samples <= l.snr <= l.state <= l.apMacs <= l.air24 <= l.air5 <= l.mesh
                <= l.end
            && (l.TooBig() <==> l.end >= U32)
  {
    hide Area;
  }

  // ---------------------------------------------------------------- the file as a value

  function Flatten(parts: seq<seq<byte>>): seq<byte> {
    if parts == [] then [] else Flatten(parts[..|parts| - 1]) + parts[|parts| - 1]
  }

  function Generation(input: DayInput): u32 {
    if input.rounds == [] then input.start else input.rounds[|input.rounds| - 1]
  }

  function Quad(a: u32, b: u32, c: u32, d: u32): (q: seq<byte>)
    ensures |q| == 16
  {
    Le32(a) + Le32(b) + Le32(c) + Le32(d)
  }

  function Zeros(n: nat): (z: seq<byte>)
    ensures |z| == n
  {
    seq(n, _ => 0)
  }

  function Header(input: DayInput): (h: seq<byte>)
    requires !InputLayout(input).TooBig()
    ensures |h| == 132
  {
    LayoutAscends(|input.rounds|, |input.targets|, |input.aps|);
    var l := InputLayout(input);
    FILE_MAGIC + Le16(FORMAT_VERSION) + Le16(FILE_HEADER) + Le32(FLAGS)
    + Quad(input.start, input.End(), |input.rounds|, |input.targets|)
    + Le16(TIMEOUT_MS) + Le16(CODE_COUNT) + Le32(FILE_HEADER) + Le32(l.macs) + Le32(l.samples)
    + Quad(Generation(input), l.snr, l.state, |input.aps|)
    + Quad(l.apMacs, l.air24, l.air5, l.mesh)
    + Le32(l.end) + Zeros(48)
  }

  function Words16(values: seq<u16>): seq<seq<byte>> {
    seq(|values|, i requires 0 <= i < |values| => Le16(values[i]))
  }

  function Words32(values: seq<u32>): seq<seq<byte>> {
    seq(|values|, i requires 0 <= i < |values| => Le32(values[i]))
  }

  function TargetMacs(input: DayInput): (macs: seq<Mac>)
    ensures |macs| == |input.targets|
  {
    seq(|input.targets|, i requires 0 <= i < |input.targets| => input.targets[i].mac)
  }

  function ApMacs(input: DayInput): (macs: seq<Mac>)
    ensures |macs| == |input.aps|
  {
    seq(|input.aps|, i requires 0 <= i < |input.aps| => input.aps[i].mac)
  }

  function LatencyRows(input: DayInput, codebook: seq<u16>): (rows: seq<seq<byte>>)
    requires IsCodebook(codebook)
    ensures |rows| == |input.targets|
    ensures forall i :: 0 <= i < |rows| ==> rows[i] == FillRow(input.rounds, LatencyCells(input.targets[i], codebook))
  {
    seq(|input.targets|, i requires 0 <= i < |input.targets| =>
      FillRow(input.rounds, LatencyCells(input.targets[i], codebook)))
  }

  function SnrRows(input: DayInput): (rows: seq<seq<byte>>)
    ensures |rows| == |input.targets|
    ensures forall i :: 0 <= i < |rows| ==> rows[i] == FillRow(input.rounds, SnrCells(input.targets[i]))
  {
    seq(|input.targets|, i requires 0 <= i < |input.targets| => FillRow(input.rounds, SnrCells(input.targets[i])))
  }

  function StateRows(input: DayInput): (rows: seq<seq<byte>>)
    ensures |rows| == |input.targets|
    ensures forall i :: 0 <= i < |rows| ==> rows[i] == FillRow(input.rounds, StateCells(input.targets[i]))
  {
    seq(|input.targets|, i requires 0 <= i < |input.targets| => FillRow(input.rounds, StateCells(input.targets[i])))
  }

  function AirtimeRows(input: DayInput, five: bool): (rows: seq<seq<byte>>)
    ensures |rows| == |input.aps|
    ensures forall i :: 0 <= i < |rows| ==> rows[i] == FillRow(input.rounds, AirtimeCells(input.aps[i], five))
  {
    seq(|input.aps|, i requires 0 <= i < |input.aps| => FillRow(input.rounds, AirtimeCells(input.aps[i], five)))
  }

  function MeshRows(input: DayInput): (rows: seq<seq<byte>>)
    ensures |rows| == |input.aps|
    ensures forall i :: 0 <= i < |rows| ==> rows[i] == FillRow(input.rounds, MeshCells(input.aps[i]))
  {
    seq(|input.aps|, i requires 0 <= i < |input.aps| => FillRow(input.rounds, MeshCells(input.aps[i])))
  }

  /** The sections of a file in order, alignment padding included. */
  function Sections(input: DayInput, codebook: seq<u16>): (sections: seq<seq<byte>>)
    requires IsCodebook(codebook) && !InputLayout(input).TooBig()
    ensures |sections| == 14
  {
    LayoutAscends(|input.rounds|, |input.targets|, |input.aps|);
    var l := InputLayout(input);
    [Header(input),
     Flatten(Words16(codebook)),
     Flatten(Words32(input.rounds)),
     Flatten(TargetMacs(input)),
     Zeros(l.samples - (l.macs + |input.targets| * 6)),
     Flatten(LatencyRows(input, codebook)),
     Flatten(SnrRows(input)),
     Flatten(StateRows(input)),
     Zeros(l.apMacs - (l.state + |input.targets| * |input.rounds|)),
     Flatten(ApMacs(input)),
     Zeros(l.air24 - (l.apMacs + |input.aps| * 6)),
     Flatten(AirtimeRows(input, false)),
     Flatten(AirtimeRows(input, true)),
     Flatten(MeshRows(input))]
  }

  function EncodeDay(input: DayInput, codebook: seq<u16>): seq<byte>
    requires IsCodebook(codebook) && !InputLayout(input).TooBig()
  {
    Flatten(Sections(input, codebook))
  }

  // ---------------------------------------------------------------- the exporter

  datatype ExportError = TooBig

  lemma FlattenNone()
    ensures Flatten([]) == []
  {
  }

  lemma FlattenOne(parts: seq<seq<byte>>, i: nat)
    requires i < |parts|
    ensures Flatten(parts[..i + 1]) == Flatten(parts[..i]) + parts[i]
  {
    assert parts[..i + 1][..i] == parts[..i];
  }

  /** Writes the parts one after another to the output. */
  method EmitAll(out: seq<byte>, parts: seq<seq<byte>>) returns (written: seq<byte>)
    ensures written == out + Flatten(parts)
  {
    written := out;
    for i := 0 to |parts|
      invariant written == out + Flatten(parts[..i])
    {
      FlattenOne(parts, i);
      written := written + parts[i];
    }
    assert parts[..|parts|] == parts;
  }

  /** `for(i=from;i<to;i++)putchar(0)`; `from` is a wrapped 32-bit sum in the source. */
  method EmitPadding(out: seq<byte>, from: nat, to: nat) returns (written: seq<byte>)
    requires from <= to
    ensures written == out + Zeros(to - from)
  {
    written := out;
    for i := from to to
      invariant written == out + Zeros(i - from)
    {
      written := written + [0];
    }
  }

  lemma SectionsAre(input: DayInput, codebook: seq<u16>)
    requires IsCodebook(codebook) && !InputLayout(input).TooBig()
    ensures var s, l := Sections(input, codebook), InputLayout(input);
            && l.macs + |input.targets| * 6 <= l.samples < U32
            && l.state + |input.targets| * |input.rounds| <= l.apMacs < U32
            && l.apMacs + |input.aps| * 6 <= l.air24 < U32
            && s[0] == Header(input) && s[1] == Flatten(Words16(codebook)) && s[2] == Flatten(Words32(input.rounds))
            && s[3] == Flatten(TargetMacs(input)) && s[4] == Zeros(l.samples - (l.macs + |input.targets| * 6))
            && s[5] == Flatten(LatencyRows(input, codebook)) && s[6] == Flatten(SnrRows(input))
            && s[7] == Flatten(StateRows(input))
            && s[8] == Zeros(l.apMacs - (l.state + |input.targets| * |input.rounds|))
            && s[9] == Flatten(ApMacs(input)) && s[10] == Zeros(l.air24 - (l.apMacs + |input.aps| * 6))
            && s[11] == Flatten(AirtimeRows(input, false)) && s[12] == Flatten(AirtimeRows(input, true))
            && s[13] == Flatten(MeshRows(input))
  {
    hide Flatten, Header, Zeros, Words16, Words32, TargetMacs, ApMacs, LatencyRows, SnrRows, StateRows, AirtimeRows,
        MeshRows, LayoutOf;
    LayoutHasRoom(|input.rounds|, |input.targets|, |input.aps|);
  }

  lemma LayoutHasRoom(rounds: nat, targets: nat, aps: nat)
    ensures var l := LayoutOf(rounds, targets, aps);
            && l.macs + targets * 6 <= l.samples && l.state + targets * rounds <= l.apMacs
            && l.apMacs + aps * 6 <= l.air24
  {
  }

  /** Emitting section `k` extends the output from the first `k` sections to one more. */
  lemma Emitted(sections: seq<seq<byte>>, k: nat, out: seq<byte>, part: seq<byte>)
    requires k < |sections| && sections[k] == part && out == Flatten(sections[..k])
    ensures out + part == Flatten(sections[..k + 1])
  {
    FlattenOne(sections, k);
  }

  method ExportDay(input: DayInput, codebook: seq<u16>) returns (r: Result<seq<byte>, ExportError>)
    requires IsCodebook(codebook) && input.Queried()
    ensures InputLayout(input).TooBig() ==> r == Failure(TooBig)
    ensures !InputLayout(input).TooBig() ==> r == Success(EncodeDay(input, codebook))
  {
    if InputLayout(input).TooBig() {
      return Failure(TooBig);
    }
    hide Sections, Flatten, InputLayout;
    ghost var s := Sections(input, codebook);
    var out := ExportHead(input, codebook);
    out := ExportTargets(input, codebook, out);
    out := ExportAccessPoints(input, codebook, out);
    assert s[..14] == s;
    return Success(out);
  }

  method ExportHead(input: DayInput, codebook: seq<u16>) returns (out: seq<byte>)
    requires IsCodebook(codebook) && !InputLayout(input).TooBig()
    ensures out == Flatten(Sections(input, codebook)[..5])
  {
    hide Sections, Header, Zeros, Flatten, Words16, Words32, TargetMacs, ApMacs, LatencyRows, SnrRows, StateRows,
        AirtimeRows, MeshRows, InputLayout;
    var l := InputLayout(input);
    SectionsAre(input, codebook);
    ghost var s := Sections(input, codebook);
    out := Header(input);
    assert s[..0] == [];
    FlattenNone();
    Emitted(s, 0, [], out);
    assert [] + out == out;
    Emitted(s, 1, out, Flatten(Words16(codebook)));
    out := EmitAll(out, Words16(codebook));
    Emitted(s, 2, out, Flatten(Words32(input.rounds)));
    out := EmitAll(out, Words32(input.rounds));
    Emitted(s, 3, out, Flatten(TargetMacs(input)));
    out := EmitAll(out, TargetMacs(input));
    Emitted(s, 4, out, Zeros(l.samples - (l.macs + |input.targets| * 6)));
    out := EmitPadding(out, (l.macs + |input.targets| * 6) % U32, l.samples);
  }

  /** The three target-major matrices, each row filled in one reused buffer. */
  method ExportTargets(input: DayInput, codebook: seq<u16>, out: seq<byte>) returns (written: seq<byte>)
    requires IsCodebook(codebook) && input.Queried() && !InputLayout(input).TooBig()
    requires out == Flatten(Sections(input, codebook)[..5])
    ensures written == Flatten(Sections(input, codebook)[..9])
  {
    hide Sections, Header, Zeros, Flatten, Words16, Words32, TargetMacs, ApMacs, LatencyRows, SnrRows, StateRows,
        AirtimeRows, MeshRows, InputLayout;
    var l := InputLayout(input);
    SectionsAre(input, codebook);
    ghost var s := Sections(input, codebook);
    Emitted(s, 5, out, Flatten(LatencyRows(input, codebook)));
    var latency := EmitLatency(input, codebook);
    written := out + latency;
    Emitted(s, 6, written, Flatten(SnrRows(input)));
    var snr := EmitSnr(input);
    written := written + snr;
    Emitted(s, 7, written, Flatten(StateRows(input)));
    var state := EmitState(input);
    written := written + state;
    Emitted(s, 8, written, Zeros(l.apMacs - (l.state + |input.targets| * |input.rounds|)));
    written := EmitPadding(written, (l.state + |input.targets| * |input.rounds|) % U32, l.apMacs);
  }

  method ExportAccessPoints(input: DayInput, codebook: seq<u16>, out: seq<byte>) returns (written: seq<byte>)
    requires IsCodebook(codebook) && input.Queried() && !InputLayout(input).TooBig()
    requires out == Flatten(Sections(input, codebook)[..9])
    ensures written == Flatten(Sections(input, codebook)[..14])
  {
    hide Sections, Header, Zeros, Flatten, Words16, Words32, TargetMacs, ApMacs, LatencyRows, SnrRows, StateRows,
        AirtimeRows, MeshRows, InputLayout;
    var l := InputLayout(input);
    SectionsAre(input, codebook);
    ghost var s := Sections(input, codebook);
    Emitted(s, 9, out, Flatten(ApMacs(input)));
    written := EmitAll(out, ApMacs(input));
    Emitted(s, 10, written, Zeros(l.air24 - (l.apMacs + |input.aps| * 6)));
    written := EmitPadding(written, (l.apMacs + |input.aps| * 6) % U32, l.air24);
    Emitted(s, 11, written, Flatten(AirtimeRows(input, false)));
    var band24 := EmitBand(input, false);
    written := written + band24;
    Emitted(s, 12, written, Flatten(AirtimeRows(input, true)));
    var band5 := EmitBand(input, true);
    written := written + band5;
    Emitted(s, 13, written, Flatten(MeshRows(input)));
    var mesh := EmitMesh(input);
    written := written + mesh;
  }

  method EmitLatency(input: DayInput, codebook: seq<u16>) returns (matrix: seq<byte>)
    requires IsCodebook(codebook) && input.Queried()
    ensures matrix == Flatten(LatencyRows(input, codebook))
  {
    var row := new byte[|input.rounds|](_ => 0);
    matrix := [];
    for i := 0 to |input.targets|
      invariant matrix == Flatten(LatencyRows(input, codebook)[..i])
    {
      FlattenOne(LatencyRows(input, codebook), i);
      FillRowBuffer(row, input.rounds, LatencyCells(input.targets[i], codebook));
      matrix := matrix + row[..];
    }
    assert LatencyRows(input, codebook)[..|input.targets|] == LatencyRows(input, codebook);
  }

  method EmitSnr(input: DayInput) returns (matrix: seq<byte>)
    requires input.Queried()
    ensures matrix == Flatten(SnrRows(input))
  {
    var row := new byte[|input.rounds|](_ => 0);
    matrix := [];
    for i := 0 to |input.targets|
      invariant matrix == Flatten(SnrRows(input)[..i])
    {
      FlattenOne(SnrRows(input), i);
      FillRowBuffer(row, input.rounds, SnrCells(input.targets[i]));
      matrix := matrix + row[..];
    }
    assert SnrRows(input)[..|input.targets|] == SnrRows(input);
  }

  method EmitState(input: DayInput) returns (matrix: seq<byte>)
    requires input.Queried()
    ensures matrix == Flatten(StateRows(input))
  {
    var row := new byte[|input.rounds|](_ => 0);
    matrix := [];
    for i := 0 to |input.targets|
      invariant matrix == Flatten(StateRows(input)[..i])
    {
      FlattenOne(StateRows(input), i);
      FillRowBuffer(row, input.rounds, StateCells(input.targets[i]));
      matrix := matrix + row[..];
    }
    assert StateRows(input)[..|input.targets|] == StateRows(input);
  }

  method EmitBand(input: DayInput, five: bool) returns (matrix: seq<byte>)
    requires input.Queried()
    ensures matrix == Flatten(AirtimeRows(input, five))
  {
    var row := new byte[|input.rounds|](_ => 0);
    matrix := [];
    for i := 0 to |input.aps|
      invariant matrix == Flatten(AirtimeRows(input, five)[..i])
    {
      FlattenOne(AirtimeRows(input, five), i);
      var rates := PublishRates(input.aps[i].radios, five);
      FillRowBuffer(row, input.rounds, RateCells(input.aps[i].radios, rates));
      matrix := matrix + row[..];
    }
    assert AirtimeRows(input, five)[..|input.aps|] == AirtimeRows(input, five);
  }

  method EmitMesh(input: DayInput) returns (matrix: seq<byte>)
    requires input.Queried()
    ensures matrix == Flatten(MeshRows(input))
  {
    var row := new byte[|input.rounds|](_ => 0);
    matrix := [];
    for i := 0 to |input.aps|
      invariant matrix == Flatten(MeshRows(input)[..i])
    {
      FlattenOne(MeshRows(input), i);
      FillRowBuffer(row, input.rounds, MeshCells(input.aps[i]));
      matrix := matrix + row[..];
    }
    assert MeshRows(input)[..|input.aps|] == MeshRows(input);
  }
}
