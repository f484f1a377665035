/** From query rows through the daily files to the chart. */
module ChartOfExports {
  import opened Bytes
  import opened Codebook
  import opened DayFile
  import opened DayParser
  import opened DayRoundTrip
  import opened History
  import opened HistoryTheorems

  /** The parser accepts the exported file and the round trip's conditions hold. */
  ghost predicate Exported(input: DayInput, codebook: seq<u16>) {
    && IsCodebook(codebook) && input.Queried() && !InputLayout(input).TooBig()
    && ParseDaySpec(EncodeDay(input, codebook)).Success?
  }

  function ParsedExport(input: DayInput, codebook: seq<u16>): Day
    requires Exported(input, codebook)
  {
    ParseDaySpec(EncodeDay(input, codebook)).value
  }

  /** The parsed matrices at a target and round are the exporter's filled rows. */
  lemma ParsedCells(input: DayInput, codebook: seq<u16>, s: nat, r: nat)
    requires Exported(input, codebook) && s < |input.targets| && r < |input.rounds|
    ensures var day := ParsedExport(input, codebook);
            && ValidDay(day) && s < |day.macs| && r < |day.timestamps| && day.timestamps == input.rounds
            && SampleCode(day, s, r) == FillRow(input.rounds, LatencyCells(input.targets[s], codebook))[r]
            && StateByte(day, s, r) == FillRow(input.rounds, StateCells(input.targets[s]))[r]
            && SnrByte(day, s, r) == FillRow(input.rounds, SnrCells(input.targets[s]))[r]
  {
    hide EncodeDay, FillRow, LatencyCells, StateCells, SnrCells, ParseDaySpec, Texts, InputLayout;
    ExportParseRoundTrip(input, codebook);
    ParsedIsValid(EncodeDay(input, codebook));
    TargetCellsReadBack(input, codebook, s, r);
  }

  /** The parsed airtime and mesh bytes of an access point, in either band. */
  lemma ParsedApCells(input: DayInput, codebook: seq<u16>, s: nat, r: nat)
    requires Exported(input, codebook) && s < |input.aps| && r < |input.rounds|
    ensures var day := ParsedExport(input, codebook);
            && ValidDay(day) && day.frame.version == 2 && s < |day.apMacs| && r < |day.timestamps|
            && MatrixByte(day, day.frame.air24Offset, day.frame.apCount, s, r) ==
               FillRow(input.rounds, AirtimeCells(input.aps[s], false))[r]
            && MatrixByte(day, day.frame.air5Offset, day.frame.apCount, s, r) ==
               FillRow(input.rounds, AirtimeCells(input.aps[s], true))[r]
            && MatrixByte(day, day.frame.meshSnrOffset, day.frame.apCount, s, r) ==
               FillRow(input.rounds, MeshCells(input.aps[s]))[r]
  {
    hide EncodeDay, FillRow, AirtimeCells, MeshCells, ParseDaySpec, Texts, InputLayout;
    ExportParseRoundTrip(input, codebook);
    ParsedIsValid(EncodeDay(input, codebook));
    ApCellsReadBack(input, codebook, s, r);
  }

  /** The last row that the query returned for a round. */
  ghost predicate LastRow(target: Target, t: u32, index: nat) {
    && index < |target.rows| && target.rows[index].observedAt == t
    && forall k :: index < k < |target.rows| ==> target.rows[k].observedAt != t
  }

  lemma {:induction false} FindLastRow(target: Target, t: u32, n: nat) returns (index: nat)
    requires n <= |target.rows|
    requires exists k :: 0 <= k < n && target.rows[k].observedAt == t
    requires forall k :: n <= k < |target.rows| ==> target.rows[k].observedAt != t
    ensures LastRow(target, t, index)
  {
    if target.rows[n - 1].observedAt == t {
      index := n - 1;
    } else {
      index := FindLastRow(target, t, n - 1);
    }
  }

  /** A parsed code and state are those of the round's last query row, or zero without one. */
  lemma ParsedCellIsLastRow(input: DayInput, codebook: seq<u16>, s: nat, r: nat)
    requires Exported(input, codebook) && s < |input.targets| && r < |input.rounds|
    ensures var day, target := ParsedExport(input, codebook), input.targets[s];
            && ValidDay(day) && s < |day.macs| && r < |day.timestamps|
            && (forall index: nat :: LastRow(target, input.rounds[r], index) ==>
                 && SampleCode(day, s, r) == LatencyCode(target.rows[index], codebook)
                 && StateByte(day, s, r) == StateCode(target.rows[index]))
            && ((forall k :: 0 <= k < |target.rows| ==> target.rows[k].observedAt != input.rounds[r]) ==>
                 SampleCode(day, s, r) == 0 && StateByte(day, s, r) == 0)
  {
    hide FillRow, EncodeDay, ParseDaySpec, SampleCode, StateByte, SnrByte, ValidDay, LatencyCode, StateCode;
    ParsedCells(input, codebook, s, r);
    var target := input.targets[s];
    var latency, state := LatencyCells(target, codebook), StateCells(target);
    FillRowMeaning(input.rounds, latency, r);
    FillRowMeaning(input.rounds, state, r);
    forall index: nat | LastRow(target, input.rounds[r], index)
      ensures LastWriter(input.rounds, latency, r, index) && LastWriter(input.rounds, state, r, index)
    {
    }
  }

  lemma AttemptedRowIsAssociated(row: PingRow, codebook: seq<u16>)
    requires IsCodebook(codebook) && LatencyCode(row, codebook) != 0
    ensures StateCode(row) == 1
  {
  }

  /** In an exported file every attempt belongs to an associated round. */
  lemma ExportedAttemptsAreAssociated(input: DayInput, codebook: seq<u16>)
    requires Exported(input, codebook)
    ensures ValidDay(ParsedExport(input, codebook)) && AttemptsAreAssociated(ParsedExport(input, codebook))
  {
    hide EncodeDay, ParseDaySpec, LatencyCode, StateCode, SampleCode, StateByte, ValidDay, Texts;
    ExportParseRoundTrip(input, codebook);
    ParsedIsValid(EncodeDay(input, codebook));
    var day := ParsedExport(input, codebook);
    assert |day.macs| == |input.targets| && |day.timestamps| == |input.rounds|;
    forall s, r | 0 <= s < |day.macs| && 0 <= r < |day.timestamps| && SampleCode(day, s, r) != 0
      ensures StateByte(day, s, r) == 1
    {
      ParsedCellIsLastRow(input, codebook, s, r);
      var target := input.targets[s];
      if exists k :: 0 <= k < |target.rows| && target.rows[k].observedAt == input.rounds[r] {
        var index := FindLastRow(target, input.rounds[r], |target.rows|);
        AttemptedRowIsAssociated(target.rows[index], codebook);
      }
    }
  }

  /** Charts of exported files keep `replies <= attempts <= associated <= known` in
      every cell that saw fewer than 65536 known rounds. */
  lemma ExportedChartOrdered(job: Job, inputs: seq<DayInput>, codebook: seq<u16>, days: seq<Day>, cell: nat)
    requires job.Valid() && |days| == |inputs|
    requires forall i :: 0 <= i < |inputs| ==>
               Exported(inputs[i], codebook) && days[i] == ParsedExport(inputs[i], codebook)
    ensures AllValid(days)
    ensures cell < job.Cells() && DaysTally(job, days, cell).known < U16 ==>
              && |Chart(job, days)| == job.Cells()
              && var bin := Chart(job, days)[cell]; bin.replies <= bin.attempts <= bin.associated <= bin.known
  {
    hide Exported, ParsedExport, ValidDay, AttemptsAreAssociated, Chart, TallyOf;
    forall i | 0 <= i < |days|
      ensures ValidDay(days[i]) && AttemptsAreAssociated(days[i])
    {
      ExportedAttemptsAreAssociated(inputs[i], codebook);
    }
    assert AllValid(days);
    if cell < job.Cells() && DaysTally(job, days, cell).known < U16 {
      ChartCountersOrdered(job, days, cell);
    }
  }
}
