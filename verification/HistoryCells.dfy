/** Every array of the chart at a target's bucket, from the bytes of the parsed files. */
module HistoryCells {
  import opened Wrappers
  import opened Bytes
  import opened DayParser
  import opened History
  import opened HistoryBytes
  import opened HistoryTheorems
  import opened HistorySums

  // ---------------------------------------------------------------- the last associated time

  /** The time of the last round, among the first `n` of a source, that lands in the
      bucket and finds the station associated. */
  ghost function RoundsLatest(job: Job, day: Day, target: nat, bucket: nat, s: nat, n: nat): Option<u32>
    requires ValidDay(day) && s < |day.macs| && n <= |day.timestamps|
  {
    if n == 0 then None
    else if LandsAt(job, day.macs[s], day.timestamps[n - 1], target, bucket) && State(day, s, n - 1) == 1
    then Some(day.timestamps[n - 1])
    else RoundsLatest(job, day, target, bucket, s, n - 1)
  }

  function Later(before: Option<u32>, after: Option<u32>): Option<u32> {
    if after.Some? then after else before
  }

  /** A later source counts before an earlier one. */
  ghost function SourcesLatest(job: Job, day: Day, target: nat, bucket: nat, n: nat): Option<u32>
    requires ValidDay(day) && n <= |day.macs|
  {
    if n == 0 then None
    else
      Later(SourcesLatest(job, day, target, bucket, n - 1),
            RoundsLatest(job, day, target, bucket, n - 1, |day.timestamps|))
  }

  /** And a later file before an earlier one. */
  ghost function FilesLatest(job: Job, days: seq<Day>, target: nat, bucket: nat): Option<u32>
    requires AllValid(days)
  {
    if days == [] then None
    else
      var last := days[|days| - 1];
      assert last in days;
      Later(FilesLatest(job, days[..|days| - 1], target, bucket), SourcesLatest(job, last, target, bucket, |last.macs|))
  }

  predicate Associates(o: Observation, cell: nat) { o.cell == cell && o.Station? && o.state == 1 }

  function Latest(obs: seq<Observation>, cell: nat): Option<u32> {
    if obs == [] then None
    else
      var last := obs[|obs| - 1];
      if Associates(last, cell) then Some(last.at) else Latest(obs[..|obs| - 1], cell)
  }

  lemma LatestOneMore(obs: seq<Observation>, o: Observation, cell: nat)
    ensures Latest(obs + [o], cell) == if Associates(o, cell) then Some(o.at) else Latest(obs, cell)
  {
    assert (obs + [o])[..|obs|] == obs;
  }

  lemma {:induction false} LatestJoin(a: seq<Observation>, b: seq<Observation>, cell: nat)
    ensures Latest(a + b, cell) == Later(Latest(a, cell), Latest(b, cell))
    decreases |b|
  {
    if b == [] {
      assert a + b == a;
    } else {
      hide Latest;
      var front, last := b[..|b| - 1], b[|b| - 1];
      assert a + b == (a + front) + [last] && b == front + [last];
      LatestJoin(a, front, cell);
      LatestOneMore(a + front, last, cell);
      LatestOneMore(front, last, cell);
    }
  }

  lemma {:induction false} AppliedLatest(cells: nat, obs: seq<Observation>, cell: nat)
    requires AllInside(obs, cells) && cell < cells
    ensures ApplyAll(seq(cells, _ => EMPTY), obs)[cell].associatedAt ==
            if Latest(obs, cell).Some? then Latest(obs, cell).value else 0
  {
    if obs != [] {
      hide ApplyAll;
      var front, last := obs[..|obs| - 1], obs[|obs| - 1];
      assert obs == front + [last] && last in obs;
      AppliedLatest(cells, front, cell);
      ApplyNext(seq(cells, _ => EMPTY), front, last);
      LatestOneMore(front, last, cell);
    }
  }

  lemma {:induction false} LatestOfRounds(job: Job, day: Day, target: nat, bucket: nat, index: nat, s: nat, n: nat)
    requires job.Valid() && ValidDay(day) && s < |day.macs| && n <= |day.timestamps|
    requires target < |job.targetMacs| && bucket < job.Buckets()
    requires TargetIndex(job.targetMacs, day.macs[s]) == Some(index)
    ensures Latest(StationRounds(job, day, index, s, n), CellAt(job, target, bucket)) ==
            RoundsLatest(job, day, target, bucket, s, n)
  {
    hide LandsAt, CellAt, ValidDay, StationAt, Sample, State, Signal, Milliseconds;
    if n > 0 {
      LatestOfRounds(job, day, target, bucket, index, s, n - 1);
      LandsExactly(job, day.macs[s], day.timestamps[n - 1], target, bucket);
      var before := StationRounds(job, day, index, s, n - 1);
      if job.InRange(day.timestamps[n - 1]) {
        StationBytes(job, day, index, s, n - 1);
        LatestOneMore(before, StationAt(job, day, index, s, n - 1), CellAt(job, target, bucket));
      } else {
        assert before + [] == before;
      }
    }
  }

  lemma {:induction false} NoRoundsLatest(job: Job, day: Day, target: nat, bucket: nat, s: nat, n: nat)
    requires job.Valid() && ValidDay(day) && s < |day.macs| && n <= |day.timestamps|
    requires target < |job.targetMacs| && bucket < job.Buckets()
    requires TargetIndex(job.targetMacs, day.macs[s]).None?
    ensures RoundsLatest(job, day, target, bucket, s, n).None?
  {
    hide ValidDay, LandsAt, State;
    if n > 0 {
      NoRoundsLatest(job, day, target, bucket, s, n - 1);
      LandsExactly(job, day.macs[s], day.timestamps[n - 1], target, bucket);
    }
  }

  lemma {:induction false} LatestOfSources(job: Job, day: Day, target: nat, bucket: nat, n: nat)
    requires job.Valid() && ValidDay(day) && n <= |day.macs|
    requires target < |job.targetMacs| && bucket < job.Buckets()
    ensures Latest(Stations(job, day, n), CellAt(job, target, bucket)) == SourcesLatest(job, day, target, bucket, n)
  {
    hide ValidDay, StationRounds, RoundsLatest, TargetIndex, CellAt;
    if n > 0 {
      LatestOfSources(job, day, target, bucket, n - 1);
      var cell, before := CellAt(job, target, bucket), Stations(job, day, n - 1);
      var index := TargetIndex(job.targetMacs, day.macs[n - 1]);
      if index.Some? {
        LatestOfRounds(job, day, target, bucket, index.value, n - 1, |day.timestamps|);
        LatestJoin(before, StationRounds(job, day, index.value, n - 1, |day.timestamps|), cell);
      } else {
        NoRoundsLatest(job, day, target, bucket, n - 1, |day.timestamps|);
        assert before + [] == before;
      }
    }
  }

  lemma {:induction false} RadiosAssociateNothing(obs: seq<Observation>, cell: nat)
    requires forall o <- obs :: o.Radio?
    ensures Latest(obs, cell).None?
  {
    if obs != [] {
      assert obs[|obs| - 1] in obs;
      RadiosAssociateNothing(obs[..|obs| - 1], cell);
    }
  }

  lemma LatestOfDay(job: Job, day: Day, target: nat, bucket: nat)
    requires job.Valid() && ValidDay(day) && target < |job.targetMacs| && bucket < job.Buckets()
    ensures Latest(DayObservations(job, day), CellAt(job, target, bucket)) ==
            SourcesLatest(job, day, target, bucket, |day.macs|)
  {
    hide ValidDay, Latest, SourcesLatest, Stations, Radios, CellAt;
    var cell, stations := CellAt(job, target, bucket), Stations(job, day, |day.macs|);
    LatestOfSources(job, day, target, bucket, |day.macs|);
    if day.frame.version == 2 {
      var radios := Radios(job, day, |day.apMacs|);
      RadiosAreRadio(job, day, |day.apMacs|);
      RadiosAssociateNothing(radios, cell);
      LatestJoin(stations, radios, cell);
    } else {
      assert stations + [] == stations;
    }
  }

  lemma {:induction false} LatestOfFiles(job: Job, days: seq<Day>, target: nat, bucket: nat)
    requires job.Valid() && AllValid(days) && target < |job.targetMacs| && bucket < job.Buckets()
    ensures Latest(AllObservations(job, days), CellAt(job, target, bucket)) == FilesLatest(job, days, target, bucket)
    decreases |days|
  {
    hide ValidDay, SourcesLatest, DayObservations, CellAt;
    if days != [] {
      var front, last := days[..|days| - 1], days[|days| - 1];
      assert last in days;
      LatestOfFiles(job, front, target, bucket);
      LatestOfDay(job, last, target, bucket);
      LatestJoin(AllObservations(job, front), DayObservations(job, last), CellAt(job, target, bucket));
    }
  }

  // ---------------------------------------------------------------- the chart

  lemma CellIsInside(job: Job, target: nat, bucket: nat)
    requires job.Valid() && target < |job.targetMacs| && bucket < job.Buckets()
    ensures CellAt(job, target, bucket) < job.Cells()
  {
    CellArithmetic(target, bucket, |job.targetMacs|, job.Buckets());
  }

  /** What each array shows at a target's bucket, modulo the width of its elements. */
  lemma ChartCell(job: Job, days: seq<Day>, target: nat, bucket: nat)
    requires job.Valid() && AllValid(days) && target < |job.targetMacs| && bucket < job.Buckets()
    ensures |Chart(job, days)| == |job.targetMacs| * job.Buckets() && CellAt(job, target, bucket) < |Chart(job, days)|
    ensures var bin := Chart(job, days)[CellAt(job, target, bucket)];
            && bin.attempts == DaysCount(job, days, Attempts, target, bucket) % 0x1_0000_0000
            && bin.replies == DaysCount(job, days, Replies, target, bucket) % 0x1_0000_0000
            && bin.known == DaysCount(job, days, KnownRounds, target, bucket) % 0x1_0000
            && bin.associated == DaysCount(job, days, AssociatedRounds, target, bucket) % 0x1_0000
            && bin.snrCount == DaysCount(job, days, SnrReadings, target, bucket) % 0x1_0000
            && bin.latencySum == DaysSum(job, days, LatencySum, target, bucket) % 0x1_0000_0000
            && bin.snrSum == DaysSum(job, days, Sum.SnrSum, target, bucket) % 0x1_0000_0000
            && bin.airtimeSum == DaysSum(job, days, AirtimeSum, target, bucket) % 0x1_0000_0000
            && bin.airtimeCount == DaysSum(job, days, AirtimeReadings, target, bucket) % 0x1_0000
    ensures var bin := Chart(job, days)[CellAt(job, target, bucket)];
            && (forall v: nat :: Offered(job, days, LatencyMax, target, bucket, v) ==> v <= bin.latencyMax)
            && (bin.latencyMax == 0 || Offered(job, days, LatencyMax, target, bucket, bin.latencyMax))
            && (forall v: nat :: Offered(job, days, SnrMin, target, bucket, v) ==> bin.snrMin <= v)
            && (bin.snrMin == 255 || Offered(job, days, SnrMin, target, bucket, bin.snrMin))
            && (forall v: nat :: Offered(job, days, MeshSnrMin, target, bucket, v) ==> bin.meshSnrMin <= v)
            && (bin.meshSnrMin == 255 || Offered(job, days, MeshSnrMin, target, bucket, bin.meshSnrMin))
    ensures Chart(job, days)[CellAt(job, target, bucket)].associatedAt ==
            match FilesLatest(job, days, target, bucket) case Some(at) => at case None => 0
  {
    hide ValidDay, DaysTally, DaysSum, DaysCount, Offered, FilesLatest, CellAt, Chart;
    CellIsInside(job, target, bucket);
    ChartIsTally(job, days, CellAt(job, target, bucket));
    TotalsAreCounts(job, days, Attempts, target, bucket);
    TotalsAreCounts(job, days, Replies, target, bucket);
    TotalsAreCounts(job, days, KnownRounds, target, bucket);
    TotalsAreCounts(job, days, AssociatedRounds, target, bucket);
    TotalsAreCounts(job, days, SnrReadings, target, bucket);
    TotalsAreSums(job, days, LatencySum, target, bucket);
    TotalsAreSums(job, days, Sum.SnrSum, target, bucket);
    TotalsAreSums(job, days, AirtimeSum, target, bucket);
    TotalsAreSums(job, days, AirtimeReadings, target, bucket);
    ExtremesAreReadings(job, days, LatencyMax, target, bucket);
    ExtremesAreReadings(job, days, SnrMin, target, bucket);
    ExtremesAreReadings(job, days, MeshSnrMin, target, bucket);
    LatestOfFiles(job, days, target, bucket);
  }

  lemma ChartIsTally(job: Job, days: seq<Day>, cell: nat)
    requires job.Valid() && AllValid(days) && cell < job.Cells()
    ensures |Chart(job, days)| == job.Cells() && Shows(Chart(job, days)[cell], DaysTally(job, days, cell))
    ensures Chart(job, days)[cell].associatedAt ==
            match Latest(AllObservations(job, days), cell) case Some(at) => at case None => 0
  {
    hide ValidDay, TallyOf, AllObservations;
    ChartShowsTotals(job, days, cell);
    ObservationsInside(job, days);
    AppliedLatest(job.Cells(), AllObservations(job, days), cell);
  }
}
