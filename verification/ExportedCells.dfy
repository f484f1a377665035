/** What an exported file and its chart say about the rows of the queries. */
module ExportedCells {
  import opened Wrappers
  import opened Bytes
  import opened Codebook
  import opened Airtime
  import opened MacAddress
  import opened DayFile
  import opened DayParser
  import opened DayFields
  import opened DayRoundTrip
  import opened History
  import opened HistoryBytes
  import opened HistoryTheorems
  import opened HistorySums
  import opened HistoryCells
  import opened ChartOfExports

  // ---------------------------------------------------------------- the header

  /** The header fields of an accepted export. */
  lemma ExportedHeader(input: DayInput, codebook: seq<u16>)
    requires Exported(input, codebook)
    ensures var bytes := EncodeDay(input, codebook);
            && HeaderFits(bytes) && U16At(bytes, 8) == 2 && U32At(bytes, 16) == input.start && U16At(bytes, 32) == 2000
            && U32At(bytes, 24) == |input.rounds| && U32At(bytes, 28) == |input.targets|
            && U32At(bytes, 60) == |input.aps|
            && U32At(bytes, 48) == if input.rounds == [] then input.start else input.rounds[|input.rounds| - 1]
  {
    hide EncodeDay, ParseDaySpec, FrameSpec, HeaderFits, ListsFit, U16At, U32At, InputLayout, Texts;
    ExportParseRoundTrip(input, codebook);
    ParsesExactly(EncodeDay(input, codebook));
    FramesExactly(EncodeDay(input, codebook));
  }

  // ---------------------------------------------------------------- target cells

  predicate Answered(row: PingRow) { row.responded && row.state == Some("ok") }

  /** The sample and state bytes that stand for a row: a nearest latency exactly for an
      answered probe, 255 for a lost one; the state names a missing association, any other
      known state, or nothing. */
  ghost predicate ShowsRow(row: PingRow, codebook: seq<u16>, sample: byte, state: byte)
    requires IsCodebook(codebook)
  {
    && (1 <= sample <= 254 <==> Answered(row))
    && (Answered(row) ==> IsNearest(row.rtt, codebook, sample))
    && (sample == 255 <==> !Answered(row) && row.state == Some("timeout"))
    && (state == 2 <==> row.state == Some("not_associated"))
    && (state == 1 <==> row.state.Some? && row.state.value != "not_associated" && row.state.value != "unknown")
    && state <= 2
  }

  lemma CodesShowRow(row: PingRow, codebook: seq<u16>)
    requires IsCodebook(codebook)
    ensures ShowsRow(row, codebook, LatencyCode(row, codebook), StateCode(row))
  {
    hide Encode;
    EncodeIsNearest(row.rtt, codebook);
  }

  lemma SameBytes(day: Day, s: nat, r: nat)
    requires ValidDay(day) && s < |day.macs| && r < |day.timestamps|
    ensures SampleCode(day, s, r) == Sample(day, s, r) && StateByte(day, s, r) == State(day, s, r)
    ensures SnrByte(day, s, r) == Signal(day, s, r)
  {
  }

  /** A file's sample and state bytes stand for the last row of their round, or are zero without one. */
  lemma TargetCellShowsRow(input: DayInput, codebook: seq<u16>, s: nat, r: nat)
    requires Exported(input, codebook) && s < |input.targets| && r < |input.rounds|
    ensures var day, target := ParsedExport(input, codebook), input.targets[s];
            && ValidDay(day) && s < |day.macs| && r < |day.timestamps|
            && (forall index: nat :: LastRow(target, input.rounds[r], index) ==>
                 ShowsRow(target.rows[index], codebook, Sample(day, s, r), State(day, s, r)))
            && ((forall k :: 0 <= k < |target.rows| ==> target.rows[k].observedAt != input.rounds[r]) ==>
                 Sample(day, s, r) == 0 && State(day, s, r) == 0)
  {
    hide ParsedExport, ValidDay, SampleCode, StateByte, SnrByte, Sample, State, Signal;
    hide LatencyCode, StateCode, ShowsRow, ParseDaySpec, EncodeDay, InputLayout;
    ParsedCellIsLastRow(input, codebook, s, r);
    var day, target := ParsedExport(input, codebook), input.targets[s];
    SameBytes(day, s, r);
    forall index: nat | LastRow(target, input.rounds[r], index)
      ensures ShowsRow(target.rows[index], codebook, Sample(day, s, r), State(day, s, r))
    {
      CodesShowRow(target.rows[index], codebook);
    }
  }

  // ---------------------------------------------------------------- readings

  /** The last of some readings that was made in a round. */
  ghost predicate LastReading(times: seq<u32>, values: seq<Option<int>>, t: u32, index: nat)
    requires |times| == |values|
  {
    && index < |times| && times[index] == t && values[index].Some?
    && forall k :: index < k < |times| ==> times[k] != t || values[k].None?
  }

  predicate NoReading(times: seq<u32>, values: seq<Option<int>>, t: u32)
    requires |times| == |values|
  {
    forall k :: 0 <= k < |times| ==> times[k] != t || values[k].None?
  }

  /** One more than the whole decibel in 0..100 nearest to a reading. */
  ghost predicate ShowsDecibel(value: int, code: byte) {
    1 <= code <= 101 && forall v :: 0 <= v <= 100 ==> Distance(value, code - 1) <= Distance(value, v)
  }

  /** One more than a rate's whole percents; the rate is in tenths and rounded half up. */
  predicate ShowsPercent(rate: int, code: byte) {
    && 1 <= code <= 101
    && (rate < 0 ==> code == 1)
    && (0 <= rate <= 1000 ==> 10 * (code - 1) - 5 <= rate < 10 * (code - 1) + 5)
    && (rate > 1000 ==> code == 101)
  }

  lemma CellsHoldReadings(rounds: seq<u32>, cells: seq<Cell>, times: seq<u32>, values: seq<Option<int>>, r: nat)
    requires Ascending(rounds) && r < |rounds| && |cells| == |times| == |values|
    requires forall k :: 0 <= k < |cells| ==> cells[k].at == times[k] && (cells[k].code.Some? <==> values[k].Some?)
    ensures forall index: nat :: LastReading(times, values, rounds[r], index) ==>
              cells[index].code.Some? && FillRow(rounds, cells)[r] == cells[index].code.value
    ensures NoReading(times, values, rounds[r]) ==> FillRow(rounds, cells)[r] == 0
  {
    hide FillRow;
    FillRowMeaning(rounds, cells, r);
    forall index: nat | LastReading(times, values, rounds[r], index)
      ensures LastWriter(rounds, cells, r, index)
    {
    }
  }

  function RowTimes(rows: seq<PingRow>): (times: seq<u32>)
    ensures |times| == |rows|
  {
    seq(|rows|, k requires 0 <= k < |rows| => rows[k].observedAt)
  }

  function RowSignals(rows: seq<PingRow>): (values: seq<Option<int>>)
    ensures |values| == |rows|
  {
    seq(|rows|, k requires 0 <= k < |rows| => rows[k].snr)
  }

  lemma SnrCellsShow(target: Target)
    ensures var cells, rows := SnrCells(target), target.rows;
            && |cells| == |rows|
            && forall k :: 0 <= k < |rows| ==>
                 && cells[k].at == RowTimes(rows)[k] && (cells[k].code.Some? <==> RowSignals(rows)[k].Some?)
                 && (rows[k].snr.Some? ==> ShowsDecibel(rows[k].snr.value, cells[k].code.value))
  {
    hide Distance;
  }

  /** A signal byte stands for the last row of its round that has a signal strength. */
  lemma TargetCellShowsSignal(input: DayInput, codebook: seq<u16>, s: nat, r: nat)
    requires Exported(input, codebook) && s < |input.targets| && r < |input.rounds|
    ensures var day, rows := ParsedExport(input, codebook), input.targets[s].rows;
            && ValidDay(day) && s < |day.macs| && r < |day.timestamps|
            && (forall index: nat :: LastReading(RowTimes(rows), RowSignals(rows), input.rounds[r], index) ==>
                 ShowsDecibel(rows[index].snr.value, Signal(day, s, r)))
            && (NoReading(RowTimes(rows), RowSignals(rows), input.rounds[r]) ==> Signal(day, s, r) == 0)
  {
    hide ParsedExport, ValidDay, SampleCode, StateByte, SnrByte, Sample, State, Signal, FillRow, SnrCells;
    hide ShowsDecibel, LatencyCells, StateCells, InputLayout, EncodeDay, ParseDaySpec;
    ParsedCells(input, codebook, s, r);
    SnrCellsShow(input.targets[s]);
    var day, rows := ParsedExport(input, codebook), input.targets[s].rows;
    SameBytes(day, s, r);
    CellsHoldReadings(input.rounds, SnrCells(input.targets[s]), RowTimes(rows), RowSignals(rows), r);
  }

  function MeshTimes(rows: seq<MeshRow>): (times: seq<u32>)
    ensures |times| == |rows|
  {
    seq(|rows|, k requires 0 <= k < |rows| => rows[k].observedAt)
  }

  function MeshSignals(rows: seq<MeshRow>): (values: seq<Option<int>>)
    ensures |values| == |rows|
  {
    seq(|rows|, k requires 0 <= k < |rows| => rows[k].snr)
  }

  function RadioTimes(rows: seq<RadioRow>): (times: seq<u32>)
    ensures |times| == |rows|
  {
    seq(|rows|, k requires 0 <= k < |rows| => rows[k].observedAt)
  }

  lemma ApBytes(input: DayInput, codebook: seq<u16>, job: Job, s: nat, r: nat)
    requires Exported(input, codebook) && s < |input.aps| && r < |input.rounds|
    ensures var day := ParsedExport(input, codebook);
            && ValidDay(day) && day.frame.version == 2 && s < |day.apMacs| && r < |day.timestamps|
            && Air(job, day, s, r) == FillRow(input.rounds, AirtimeCells(input.aps[s], !job.bandG))[r]
            && Mesh(day, s, r) == FillRow(input.rounds, MeshCells(input.aps[s]))[r]
  {
    hide Exported, ParsedExport, FillRow, AirtimeCells, MeshCells;
    ParsedApCells(input, codebook, s, r);
  }

  lemma AirtimeCellsShow(ap: AccessPoint, five: bool)
    ensures var cells, rates := AirtimeCells(ap, five), Rates(NoBase, ap.radios, five);
            && |cells| == |ap.radios|
            && forall k :: 0 <= k < |cells| ==>
                 && cells[k].at == RadioTimes(ap.radios)[k] && (cells[k].code.Some? <==> rates[k].Some?)
                 && (rates[k].Some? ==> ShowsPercent(rates[k].value, cells[k].code.value))
  {
    hide Rates;
  }

  lemma MeshCellsShow(ap: AccessPoint)
    ensures var cells, rows := MeshCells(ap), ap.mesh;
            && |cells| == |rows|
            && forall k :: 0 <= k < |rows| ==>
                 && cells[k].at == MeshTimes(rows)[k] && (cells[k].code.Some? <==> MeshSignals(rows)[k].Some?)
                 && (rows[k].snr.Some? ==> ShowsDecibel(rows[k].snr.value, cells[k].code.value))
  {
    hide Distance;
  }

  /** Airtime bytes stand for the last rate that the band's polls publish in their round. */
  lemma ApCellShowsRate(input: DayInput, codebook: seq<u16>, job: Job, s: nat, r: nat)
    requires Exported(input, codebook) && s < |input.aps| && r < |input.rounds|
    ensures var day, radios := ParsedExport(input, codebook), input.aps[s].radios;
            var rates := Rates(NoBase, radios, !job.bandG);
            && ValidDay(day) && day.frame.version == 2 && s < |day.apMacs| && r < |day.timestamps|
            && (forall index: nat :: LastReading(RadioTimes(radios), rates, input.rounds[r], index) ==>
                 ShowsPercent(rates[index].value, Air(job, day, s, r)))
            && (NoReading(RadioTimes(radios), rates, input.rounds[r]) ==> Air(job, day, s, r) == 0)
  {
    hide ParsedExport, ValidDay, Air, Mesh, FillRow, Rates, AirtimeCells, MeshCells, ShowsPercent;
    hide InputLayout, EncodeDay, ParseDaySpec;
    ApBytes(input, codebook, job, s, r);
    var ap := input.aps[s];
    AirtimeCellsShow(ap, !job.bandG);
    CellsHoldReadings(input.rounds, AirtimeCells(ap, !job.bandG), RadioTimes(ap.radios),
      Rates(NoBase, ap.radios, !job.bandG), r);
  }

  /** And mesh bytes for the last mesh reading. */
  lemma ApCellShowsMesh(input: DayInput, codebook: seq<u16>, job: Job, s: nat, r: nat)
    requires Exported(input, codebook) && s < |input.aps| && r < |input.rounds|
    ensures var day, rows := ParsedExport(input, codebook), input.aps[s].mesh;
            && ValidDay(day) && day.frame.version == 2 && s < |day.apMacs| && r < |day.timestamps|
            && (forall index: nat :: LastReading(MeshTimes(rows), MeshSignals(rows), input.rounds[r], index) ==>
                 ShowsDecibel(rows[index].snr.value, Mesh(day, s, r)))
            && (NoReading(MeshTimes(rows), MeshSignals(rows), input.rounds[r]) ==> Mesh(day, s, r) == 0)
  {
    hide ParsedExport, ValidDay, Air, Mesh, FillRow, AirtimeCells, MeshCells, ShowsDecibel;
    hide InputLayout, EncodeDay, ParseDaySpec;
    ApBytes(input, codebook, job, s, r);
    var ap := input.aps[s];
    MeshCellsShow(ap);
    CellsHoldReadings(input.rounds, MeshCells(ap), MeshTimes(ap.mesh), MeshSignals(ap.mesh), r);
  }

  // ---------------------------------------------------------------- latencies in a chart

  lemma {:induction false} MaximumAndSum(obs: seq<Observation>, cell: nat)
    ensures var t := TallyOf(obs, cell); t.latencyMax <= t.latencySum <= t.latencyMax * t.replies
  {
    if obs != [] {
      var front, last := obs[..|obs| - 1], obs[|obs| - 1];
      hide TallyOf;
      assert obs == front + [last];
      MaximumAndSum(front, cell);
      TallyOneMore(front, last, cell);
      var t, u := TallyOf(front, cell), TallyOf(obs, cell);
      RaisedMaximum(t.latencyMax, u.latencyMax, t.replies);
    } else {
      assert TallyOf(obs, cell) == NOTHING;
    }
  }

  lemma RaisedMaximum(m: nat, higher: nat, n: nat)
    requires m <= higher
    ensures m * n <= higher * n && higher * (n + 1) == higher * n + higher
  {
  }

  lemma TallyOneMore(front: seq<Observation>, last: Observation, cell: nat)
    ensures var t, u := TallyOf(front, cell), TallyOf(front + [last], cell);
            && t.latencyMax <= u.latencyMax
            && (|| (u.replies == t.replies && u.latencySum == t.latencySum && u.latencyMax == t.latencyMax)
                || (u.replies == t.replies + 1
                    && u.latencyMax == Max(t.latencyMax, u.latencySum - t.latencySum) && u.latencySum >= t.latencySum))
  {
    assert (front + [last])[..|front|] == front;
  }

  lemma {:induction false} FindInDay(job: Job, day: Day, counter: Counter, target: nat, bucket: nat, n: nat)
    returns (s: nat, r: nat)
    requires ValidDay(day) && n <= |day.macs| && DayCount(job, day, counter, target, bucket, n) > 0
    ensures s < |day.macs| && r < |day.timestamps| && Counted(job, day, counter, target, bucket, s, r)
  {
    hide ValidDay, Counted;
    var rounds := RoundSet(job, day, counter, target, bucket, n - 1, |day.timestamps|);
    if rounds != {} {
      s := n - 1;
      r :| r in rounds;
    } else {
      s, r := FindInDay(job, day, counter, target, bucket, n - 1);
    }
  }

  lemma {:induction false} FindCounted(job: Job, days: seq<Day>, counter: Counter, target: nat, bucket: nat)
    returns (i: nat, s: nat, r: nat)
    requires AllValid(days) && DaysCount(job, days, counter, target, bucket) > 0
    ensures i < |days| && s < |days[i].macs| && r < |days[i].timestamps|
    ensures Counted(job, days[i], counter, target, bucket, s, r)
  {
    hide ValidDay, Counted, DayCount;
    var last := days[|days| - 1];
    assert last in days;
    if DayCount(job, last, counter, target, bucket, |last.macs|) > 0 {
      i := |days| - 1;
      s, r := FindInDay(job, last, counter, target, bucket, |last.macs|);
    } else {
      i, s, r := FindCounted(job, days[..|days| - 1], counter, target, bucket);
    }
  }

  /** The last row of a target's round is an answered probe, and `v` is an entry of the
      codebook nearest to its latency. */
  ghost predicate AnswersWith(target: Target, t: u32, codebook: seq<u16>, v: nat)
    requires IsCodebook(codebook)
  {
    exists index: nat, code ::
      && LastRow(target, t, index) && Answered(target.rows[index])
      && 1 <= code <= 254 && IsNearest(target.rows[index].rtt, codebook, code) && v == codebook[code - 1]
  }

  /** The last row of a round of an exported file is an answered probe that lands in the
      bucket, and `v` is an entry of the codebook nearest to its latency. */
  ghost predicate RowOffers(job: Job, input: DayInput, codebook: seq<u16>, target: nat, bucket: nat, v: nat) {
    && IsCodebook(codebook)
    && exists s, r ::
         && 0 <= s < |input.targets| && 0 <= r < |input.rounds|
         && LandsAt(job, MacText(input.targets[s].mac), input.rounds[r], target, bucket)
         && AnswersWith(input.targets[s], input.rounds[r], codebook, v)
  }

  ghost predicate RowOffered(job: Job, inputs: seq<DayInput>, codebook: seq<u16>, target: nat, bucket: nat, v: nat) {
    exists i :: 0 <= i < |inputs| && RowOffers(job, inputs[i], codebook, target, bucket, v)
  }

  lemma ExportedLists(input: DayInput, codebook: seq<u16>)
    requires Exported(input, codebook)
    ensures var day := ParsedExport(input, codebook);
            && ValidDay(day) && day.timestamps == input.rounds && day.codebook == codebook
            && |day.macs| == |input.targets|
            && forall s :: 0 <= s < |day.macs| ==> day.macs[s] == MacText(input.targets[s].mac)
  {
    hide EncodeDay, ParseDaySpec, InputLayout, ValidDay, MacText;
    ExportParseRoundTrip(input, codebook);
    ParsedIsValid(EncodeDay(input, codebook));
  }

  lemma PositionOffers(job: Job, input: DayInput, codebook: seq<u16>, target: nat, bucket: nat, s: nat, r: nat, v: nat)
    requires Exported(input, codebook) && s < |input.targets| && r < |input.rounds|
    ensures var day := ParsedExport(input, codebook);
            && ValidDay(day) && s < |day.macs| && r < |day.timestamps|
            && (StationOffers(job, day, LatencyMax, target, bucket, s, r, v) <==>
                 && LandsAt(job, MacText(input.targets[s].mac), input.rounds[r], target, bucket)
                 && AnswersWith(input.targets[s], input.rounds[r], codebook, v))
  {
    hide ParsedExport, ParseDaySpec, EncodeDay, InputLayout, ValidDay, LandsAt, Sample, State, MacText;
    hide IsNearest, Signal, Air, Mesh;
    ExportedLists(input, codebook);
    TargetCellShowsRow(input, codebook, s, r);
    var day, rows := ParsedExport(input, codebook), input.targets[s].rows;
    if exists k :: 0 <= k < |rows| && rows[k].observedAt == input.rounds[r] {
      var index := FindLastRow(input.targets[s], input.rounds[r], |rows|);
      assert ShowsRow(rows[index], codebook, Sample(day, s, r), State(day, s, r));
      forall other: nat | LastRow(input.targets[s], input.rounds[r], other)
        ensures other == index
      {
      }
      if Answered(rows[index]) {
        forall code | 1 <= code <= 254 && IsNearest(rows[index].rtt, codebook, code)
          ensures code == Sample(day, s, r)
        {
          NearestIsUnique(rows[index].rtt, codebook, code, Sample(day, s, r));
        }
      }
    }
  }

  lemma DayOffers(job: Job, input: DayInput, codebook: seq<u16>, target: nat, bucket: nat, v: nat)
    requires Exported(input, codebook)
    ensures ValidDay(ParsedExport(input, codebook))
    ensures Offers(job, ParsedExport(input, codebook), LatencyMax, target, bucket, v) <==>
            RowOffers(job, input, codebook, target, bucket, v)
  {
    hide ParsedExport, ParseDaySpec, EncodeDay, InputLayout, ValidDay, LandsAt, StationOffers, MacText, AnswersWith;
    ExportedLists(input, codebook);
    forall s, r | 0 <= s < |input.targets| && 0 <= r < |input.rounds|
      ensures StationOffers(job, ParsedExport(input, codebook), LatencyMax, target, bucket, s, r, v) <==>
              && LandsAt(job, MacText(input.targets[s].mac), input.rounds[r], target, bucket)
              && AnswersWith(input.targets[s], input.rounds[r], codebook, v)
    {
      PositionOffers(job, input, codebook, target, bucket, s, r, v);
    }
  }

  ghost predicate AllExported(inputs: seq<DayInput>, codebook: seq<u16>, days: seq<Day>) {
    && |days| == |inputs|
    && forall i :: 0 <= i < |inputs| ==> Exported(inputs[i], codebook) && days[i] == ParsedExport(inputs[i], codebook)
  }

  lemma ExportedOffers(job: Job, inputs: seq<DayInput>, codebook: seq<u16>, days: seq<Day>, target: nat, bucket: nat,
                       v: nat)
    requires AllExported(inputs, codebook, days)
    ensures AllValid(days)
    ensures Offered(job, days, LatencyMax, target, bucket, v) <==> RowOffered(job, inputs, codebook, target, bucket, v)
  {
    hide Exported, ParsedExport, ValidDay, Offers, RowOffers;
    forall i | 0 <= i < |days|
      ensures ValidDay(days[i])
      ensures Offers(job, days[i], LatencyMax, target, bucket, v) <==>
              RowOffers(job, inputs[i], codebook, target, bucket, v)
    {
      DayOffers(job, inputs[i], codebook, target, bucket, v);
    }
  }

  /** A counted reply offers a latency of at least a millisecond. */
  lemma ReplyOffers(job: Job, inputs: seq<DayInput>, codebook: seq<u16>, days: seq<Day>, target: nat, bucket: nat)
    returns (v: nat)
    requires AllExported(inputs, codebook, days) && AllValid(days)
    requires DaysCount(job, days, Replies, target, bucket) > 0
    ensures v > 0 && Offered(job, days, LatencyMax, target, bucket, v)
  {
    hide Exported, ParsedExport, ValidDay, Sample, LandsAt, DaysCount;
    var i, s, r := FindCounted(job, days, Replies, target, bucket);
    v := Milliseconds(days[i], s, r);
    assert StationOffers(job, days[i], LatencyMax, target, bucket, s, r, v);
    assert Offers(job, days[i], LatencyMax, target, bucket, v);
    EntriesArePositive(inputs[i], codebook);
  }

  lemma EntriesArePositive(input: DayInput, codebook: seq<u16>)
    requires Exported(input, codebook)
    ensures ParsedExport(input, codebook).codebook == codebook && |codebook| == 254
    ensures forall k :: 0 <= k < 254 ==> codebook[k] > 0
  {
    hide ParsedExport, ParseDaySpec, EncodeDay, InputLayout, ValidDay;
    ExportedLists(input, codebook);
  }

  /** The chart of exported files: the latency maximum of a target's bucket is the highest
      codebook entry nearest to the latency of an answered last row that lands there, and
      zero without replies; with one reply it is the latency sum too. */
  lemma ExportedLatencies(job: Job, inputs: seq<DayInput>, codebook: seq<u16>, days: seq<Day>, target: nat, bucket: nat)
    requires job.Valid() && target < |job.targetMacs| && bucket < job.Buckets()
    requires AllExported(inputs, codebook, days)
    ensures AllValid(days) && CellAt(job, target, bucket) < |Chart(job, days)|
    ensures var bin, replies := Chart(job, days)[CellAt(job, target, bucket)],
                DaysCount(job, days, Replies, target, bucket);
            && (forall v: nat :: RowOffered(job, inputs, codebook, target, bucket, v) ==> v <= bin.latencyMax)
            && (replies > 0 ==> RowOffered(job, inputs, codebook, target, bucket, bin.latencyMax))
            && (replies == 0 ==> bin.latencyMax == bin.latencySum == 0)
            && (replies == 1 ==> bin.latencySum == bin.latencyMax)
  {
    hide AllExported, ValidDay, Offered, RowOffered, DaysSum, DaysCount, CellAt, Chart, DaysTally, TallyOf;
    forall v: nat
      ensures AllValid(days)
      ensures Offered(job, days, LatencyMax, target, bucket, v) <==>
              RowOffered(job, inputs, codebook, target, bucket, v)
    {
      ExportedOffers(job, inputs, codebook, days, target, bucket, v);
    }
    ExportedOffers(job, inputs, codebook, days, target, bucket, 0);
    ChartCell(job, days, target, bucket);
    if DaysCount(job, days, Replies, target, bucket) > 0 {
      var v := ReplyOffers(job, inputs, codebook, days, target, bucket);
    }
    LatencyTotals(job, days, target, bucket);
  }

  lemma LatencyTotals(job: Job, days: seq<Day>, target: nat, bucket: nat)
    requires job.Valid() && AllValid(days) && target < |job.targetMacs| && bucket < job.Buckets()
    ensures CellAt(job, target, bucket) < |Chart(job, days)|
    ensures var bin, replies := Chart(job, days)[CellAt(job, target, bucket)],
                DaysCount(job, days, Replies, target, bucket);
            && (replies == 0 ==> bin.latencyMax == bin.latencySum == 0)
            && (replies == 1 ==> bin.latencySum == bin.latencyMax)
  {
    hide ValidDay, DaysCount, CellAt, Chart, TallyOf, AllObservations;
    var cell := CellAt(job, target, bucket);
    CellIsInside(job, target, bucket);
    ChartIsTally(job, days, cell);
    TotalsAreCounts(job, days, Replies, target, bucket);
    MaximumAndSum(AllObservations(job, days), cell);
  }
}
