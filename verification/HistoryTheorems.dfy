/** What the chart means: per-cell totals, independence of the file order, and the
    ordering of the counters for exported files. */
module HistoryTheorems {
  import opened Wrappers
  import opened Bytes
  import opened DayParser
  import opened History
  import opened HistoryBytes

  // ---------------------------------------------------------------- unbounded per-cell totals

  /** The totals of one cell, without the widths of the typed arrays. */
  datatype Tally = Tally(
    attempts: nat, replies: nat, latencySum: nat, latencyMax: nat,
    snrSum: nat, snrCount: nat, snrMin: nat, associated: nat, known: nat,
    airtimeSum: nat, airtimeCount: nat, meshSnrMin: nat)

  const NOTHING := Tally(0, 0, 0, 0, 0, 0, 255, 0, 0, 0, 0, 255)

  function Plus(a: Tally, b: Tally): Tally {
    Tally(a.attempts + b.attempts, a.replies + b.replies, a.latencySum + b.latencySum,
          Max(a.latencyMax, b.latencyMax), a.snrSum + b.snrSum, a.snrCount + b.snrCount,
          Min(a.snrMin, b.snrMin), a.associated + b.associated, a.known + b.known,
          a.airtimeSum + b.airtimeSum, a.airtimeCount + b.airtimeCount, Min(a.meshSnrMin, b.meshSnrMin))
  }

  /** What one observation is worth to one cell. */
  function Share(o: Observation, cell: nat): Tally {
    if o.cell != cell then NOTHING
    else match o
      case Station(_, _, code, latency, state, snr) =>
        Tally(if code != 0 then 1 else 0,
              if Replied(code) then 1 else 0,
              if Replied(code) then latency else 0,
              if Replied(code) then latency else 0,
              if snr != 0 then snr - 1 else 0,
              if snr != 0 then 1 else 0,
              if snr != 0 then snr - 1 else 255,
              if state == 1 then 1 else 0,
              if state != 0 then 1 else 0,
              0, 0, 255)
      case Radio(_, air, mesh) =>
        NOTHING.(airtimeSum := if air != 0 then air - 1 else 0,
                 airtimeCount := if air != 0 then 1 else 0,
                 meshSnrMin := if mesh != 0 then mesh - 1 else 255)
  }

  function TallyOf(obs: seq<Observation>, cell: nat): Tally {
    if obs == [] then NOTHING
    else Plus(TallyOf(obs[..|obs| - 1], cell), Share(obs[|obs| - 1], cell))
  }

  /** A bin holds a tally's totals, each counter modulo the width of its array. */
  predicate Shows(bin: Bin, t: Tally) {
    && bin.attempts == t.attempts % U32
    && bin.replies == t.replies % U32
    && bin.latencySum == t.latencySum % U32
    && bin.latencyMax == t.latencyMax
    && bin.snrSum == t.snrSum % U32
    && bin.snrCount == t.snrCount % U16
    && bin.snrMin == t.snrMin
    && bin.associated == t.associated % U16
    && bin.known == t.known % U16
    && bin.airtimeSum == t.airtimeSum % U32
    && bin.airtimeCount == t.airtimeCount % U16
    && bin.meshSnrMin == t.meshSnrMin
  }

  lemma Wrap32(total: nat, more: nat)
    ensures (total % U32 + more) % U32 == (total + more) % U32
  {
    var q := total / U32;
    assert total + more == (total % U32 + more) + U32 * q;
  }

  lemma Wrap16(total: nat, more: nat)
    ensures (total % U16 + more) % U16 == (total + more) % U16
  {
    var q := total / U16;
    assert total + more == (total % U16 + more) + U16 * q;
  }

  lemma StationShows(bin: Bin, t: Tally, o: Observation)
    requires Shows(bin, t) && o.Station?
    ensures Shows(Update(bin, o), Plus(t, Share(o, o.cell)))
  {
    hide Replied;
    Wrap32(t.attempts, 1);
    Wrap32(t.replies, 1);
    Wrap32(t.latencySum, o.latency);
    if o.snr != 0 { Wrap32(t.snrSum, o.snr - 1); }
    Wrap16(t.snrCount, 1);
    Wrap16(t.associated, 1);
    Wrap16(t.known, 1);
  }

  lemma RadioShows(bin: Bin, t: Tally, o: Observation)
    requires Shows(bin, t) && o.Radio?
    ensures Shows(Update(bin, o), Plus(t, Share(o, o.cell)))
  {
    if o.air != 0 { Wrap32(t.airtimeSum, o.air - 1); }
    Wrap16(t.airtimeCount, 1);
  }

  lemma UpdateShows(bin: Bin, t: Tally, o: Observation)
    requires Shows(bin, t)
    ensures Shows(Update(bin, o), Plus(t, Share(o, o.cell)))
  {
    match o
    case Station(_, _, _, _, _, _) => StationShows(bin, t, o);
    case Radio(_, _, _) => RadioShows(bin, t, o);
  }

  lemma PlusNothing(t: Tally)
    requires t.snrMin <= 255 && t.meshSnrMin <= 255
    ensures Plus(t, NOTHING) == t == Plus(NOTHING, t)
  {
  }

  lemma {:induction false} TallyBounds(obs: seq<Observation>, cell: nat)
    ensures TallyOf(obs, cell).snrMin <= 255 && TallyOf(obs, cell).meshSnrMin <= 255
  {
    if obs != [] {
      TallyBounds(obs[..|obs| - 1], cell);
    }
  }

  lemma {:induction false} AppliedShows(cells: nat, obs: seq<Observation>, cell: nat)
    requires AllInside(obs, cells) && cell < cells
    ensures Shows(ApplyAll(seq(cells, _ => EMPTY), obs)[cell], TallyOf(obs, cell))
  {
    hide Update, Shows;
    if obs == [] {
      EmptyShows();
    } else {
      var before, last := obs[..|obs| - 1], obs[|obs| - 1];
      assert last in obs;
      AppliedShows(cells, before, cell);
      if last.cell == cell {
        UpdateShows(ApplyAll(seq(cells, _ => EMPTY), before)[cell], TallyOf(before, cell), last);
      } else {
        TallyBounds(before, cell);
        PlusNothing(TallyOf(before, cell));
      }
    }
  }

  lemma EmptyShows()
    ensures Shows(EMPTY, NOTHING)
  {
  }

  /** Every chart cell shows the totals of the observations that land in it. */
  lemma ChartShowsTotals(job: Job, days: seq<Day>, cell: nat)
    requires job.Valid() && forall day <- days :: ValidDay(day)
    requires cell < job.Cells()
    ensures |Chart(job, days)| == job.Cells()
    ensures Shows(Chart(job, days)[cell], TallyOf(AllObservations(job, days), cell))
  {
    ObservationsInside(job, days);
    AppliedShows(job.Cells(), AllObservations(job, days), cell);
  }

  // ---------------------------------------------------------------- order of the files

  lemma PlusAssociates(a: Tally, b: Tally, c: Tally)
    ensures Plus(Plus(a, b), c) == Plus(a, Plus(b, c))
    ensures Plus(a, b) == Plus(b, a)
  {
  }

  lemma {:induction false} TallySplit(a: seq<Observation>, b: seq<Observation>, cell: nat)
    ensures TallyOf(a + b, cell) == Plus(TallyOf(a, cell), TallyOf(b, cell))
    decreases |b|
  {
    hide Plus, Share;
    if b == [] {
      assert a + b == a;
      TallyBounds(a, cell);
      PlusNothing(TallyOf(a, cell));
    } else {
      var front := b[..|b| - 1];
      assert (a + b)[..|a + b| - 1] == a + front;
      TallySplit(a, front, cell);
      PlusAssociates(TallyOf(a, cell), TallyOf(front, cell), Share(b[|b| - 1], cell));
    }
  }

  ghost predicate AllValid(days: seq<Day>) {
    forall day <- days :: ValidDay(day)
  }

  ghost function DaysTally(job: Job, days: seq<Day>, cell: nat): Tally
    requires job.Valid() && AllValid(days)
  {
    TallyOf(AllObservations(job, days), cell)
  }

  lemma {:induction false} ObservationsSplit(job: Job, a: seq<Day>, b: seq<Day>)
    requires job.Valid() && AllValid(a) && AllValid(b)
    ensures AllValid(a + b)
    ensures AllObservations(job, a + b) == AllObservations(job, a) + AllObservations(job, b)
    decreases |b|
  {
    hide ValidDay, DayObservations;
    assert AllValid(a + b);
    if b == [] {
      assert a + b == a;
    } else {
      var front, last := b[..|b| - 1], b[|b| - 1];
      assert last in b;
      assert (a + b)[..|a + b| - 1] == a + front;
      ObservationsSplit(job, a, front);
    }
  }

  lemma DaysTallySplit(job: Job, a: seq<Day>, b: seq<Day>, cell: nat)
    requires job.Valid() && AllValid(a) && AllValid(b)
    ensures AllValid(a + b)
    ensures DaysTally(job, a + b, cell) == Plus(DaysTally(job, a, cell), DaysTally(job, b, cell))
  {
    hide ValidDay, Plus, TallyOf;
    ObservationsSplit(job, a, b);
    TallySplit(AllObservations(job, a), AllObservations(job, b), cell);
  }

  /** The totals depend only on which files there are. */
  lemma {:induction false} TotalsIgnoreOrder(job: Job, one: seq<Day>, two: seq<Day>, cell: nat)
    requires job.Valid() && AllValid(one) && AllValid(two) && multiset(one) == multiset(two)
    ensures DaysTally(job, one, cell) == DaysTally(job, two, cell)
    decreases |one|
  {
    hide ValidDay, Plus, TallyOf;
    if one == [] {
      assert two == [] by { assert |multiset(two)| == 0; }
    } else {
      var front, day := one[..|one| - 1], one[|one| - 1];
      assert one == front + [day];
      assert day in multiset(two);
      var k :| 0 <= k < |two| && two[k] == day;
      WithoutOne(front, two, day, k);
      var rest := two[..k] + two[k + 1..];
      TotalsIgnoreOrder(job, front, rest, cell);
      DaysTallySplit(job, front, [day], cell);
      TakeOut(job, two, k, cell);
    }
  }

  lemma WithoutOne(front: seq<Day>, two: seq<Day>, day: Day, k: nat)
    requires k < |two| && two[k] == day && multiset(front + [day]) == multiset(two)
    ensures multiset(front) == multiset(two[..k] + two[k + 1..])
    ensures forall other <- two[..k] + two[k + 1..] :: other in two
  {
    var left, right := two[..k], two[k + 1..];
    assert two == left + [day] + right;
    assert multiset(two) == multiset(left) + multiset{day} + multiset(right);
    assert multiset(left + right) == multiset(left) + multiset(right);
    assert multiset(front) == multiset(two) - multiset{day};
    assert forall other <- left + right :: other in left || other in right;
  }

  lemma TakeOut(job: Job, days: seq<Day>, k: nat, cell: nat)
    requires job.Valid() && AllValid(days) && k < |days|
    ensures AllValid(days[..k] + days[k + 1..]) && AllValid([days[k]])
    ensures DaysTally(job, days, cell) ==
            Plus(DaysTally(job, days[..k] + days[k + 1..], cell), DaysTally(job, [days[k]], cell))
  {
    hide ValidDay, TallyOf, Plus;
    var left, right, day := days[..k], days[k + 1..], [days[k]];
    assert days == left + day + right;
    assert AllValid(left) && AllValid(right) && AllValid(day);
    DaysTallySplit(job, left, right, cell);
    DaysTallySplit(job, left, day, cell);
    DaysTallySplit(job, left + day, right, cell);
    Rearrange(DaysTally(job, left, cell), DaysTally(job, right, cell), DaysTally(job, day, cell));
  }

  lemma Rearrange(left: Tally, right: Tally, middle: Tally)
    ensures Plus(Plus(left, right), middle) == Plus(Plus(left, middle), right)
  {
  }

  /** Every array except `associatedAt` is the same for any order of the files. */
  lemma ChartIgnoresFileOrder(job: Job, one: seq<Day>, two: seq<Day>, cell: nat)
    requires job.Valid() && AllValid(one) && AllValid(two) && multiset(one) == multiset(two)
    requires cell < job.Cells()
    ensures |Chart(job, one)| == |Chart(job, two)| == job.Cells()
    ensures Chart(job, one)[cell].(associatedAt := 0) == Chart(job, two)[cell].(associatedAt := 0)
  {
    hide Chart, ValidDay;
    TotalsIgnoreOrder(job, one, two, cell);
    ChartShowsTotals(job, one, cell);
    ChartShowsTotals(job, two, cell);
  }

  // ---------------------------------------------------------------- counting observations

  datatype Counter = Attempts | Replies | AssociatedRounds | KnownRounds | SnrReadings

  predicate Counts(counter: Counter, o: Observation) {
    o.Station? &&
    match counter
    case Attempts => o.code != 0
    case Replies => Replied(o.code)
    case AssociatedRounds => o.state == 1
    case KnownRounds => o.state != 0
    case SnrReadings => o.snr != 0
  }

  function Total(t: Tally, counter: Counter): nat {
    match counter
    case Attempts => t.attempts
    case Replies => t.replies
    case AssociatedRounds => t.associated
    case KnownRounds => t.known
    case SnrReadings => t.snrCount
  }

  /** Round `r` of source `s` lands in the bucket, and its bytes count. */
  ghost predicate Counted(job: Job, day: Day, counter: Counter, target: nat, bucket: nat, s: nat, r: nat)
    requires ValidDay(day) && s < |day.macs| && r < |day.timestamps|
  {
    && LandsAt(job, day.macs[s], day.timestamps[r], target, bucket)
    && match counter
       case Attempts => Sample(day, s, r) != 0
       case Replies => 1 <= Sample(day, s, r) <= 254
       case AssociatedRounds => State(day, s, r) == 1
       case KnownRounds => State(day, s, r) != 0
       case SnrReadings => Signal(day, s, r) != 0
  }

  lemma CountedExactly(job: Job, day: Day, counter: Counter, target: nat, bucket: nat, s: nat, r: nat)
    requires job.Valid() && ValidDay(day) && s < |day.macs| && r < |day.timestamps|
    requires target < |job.targetMacs| && bucket < job.Buckets()
    ensures var index := TargetIndex(job.targetMacs, day.macs[s]);
            Counted(job, day, counter, target, bucket, s, r) <==>
              && index.Some? && job.InRange(day.timestamps[r])
              && var o := StationAt(job, day, index.value, s, r);
                 o.cell == CellAt(job, target, bucket) && Counts(counter, o)
  {
    hide LandsAt, StationAt, Sample, State, Signal, CellAt, ValidDay;
    var index := TargetIndex(job.targetMacs, day.macs[s]);
    LandsExactly(job, day.macs[s], day.timestamps[r], target, bucket);
    if index.Some? && job.InRange(day.timestamps[r]) { StationBytes(job, day, index.value, s, r); }
  }

  lemma ShareCounts(t: Tally, o: Observation, cell: nat, counter: Counter)
    ensures Total(Plus(t, Share(o, cell)), counter) ==
            Total(t, counter) + if o.cell == cell && Counts(counter, o) then 1 else 0
  {
  }

  /** The counting rounds of one source, below `n`. */
  ghost function RoundSet(job: Job, day: Day, counter: Counter, target: nat, bucket: nat, s: nat, n: nat): set<nat>
    requires ValidDay(day) && s < |day.macs| && n <= |day.timestamps|
  {
    set r: nat | r < n && Counted(job, day, counter, target, bucket, s, r)
  }

  lemma {:induction false} RoundsCounted(job: Job, day: Day, counter: Counter, target: nat, bucket: nat, s: nat, n: nat,
                                         index: nat)
    requires job.Valid() && ValidDay(day) && s < |day.macs| && n <= |day.timestamps|
    requires target < |job.targetMacs| && bucket < job.Buckets()
    requires TargetIndex(job.targetMacs, day.macs[s]) == Some(index)
    ensures Total(TallyOf(StationRounds(job, day, index, s, n), CellAt(job, target, bucket)), counter) ==
            |RoundSet(job, day, counter, target, bucket, s, n)|
  {
    hide ValidDay, StationAt, Counts, Total, Counted, CellAt, RoundSet, TallyOf;
    var cell := CellAt(job, target, bucket);
    if n == 0 {
      NoRounds(job, day, counter, target, bucket, s);
      TotalOfNone(counter, cell);
    } else {
      RoundsCounted(job, day, counter, target, bucket, s, n - 1, index);
      CountedExactly(job, day, counter, target, bucket, s, n - 1);
      OneMoreRound(job, day, counter, target, bucket, s, n - 1);
      var before := StationRounds(job, day, index, s, n - 1);
      if job.InRange(day.timestamps[n - 1]) {
        var o := StationAt(job, day, index, s, n - 1);
        TotalOneMore(before, o, cell, counter);
      } else {
        assert before + [] == before;
      }
    }
  }

  lemma TotalOneMore(obs: seq<Observation>, o: Observation, cell: nat, counter: Counter)
    ensures Total(TallyOf(obs + [o], cell), counter) ==
            Total(TallyOf(obs, cell), counter) + if o.cell == cell && Counts(counter, o) then 1 else 0
  {
    hide Share, Plus, Counts, Total;
    assert (obs + [o])[..|obs|] == obs;
    ShareCounts(TallyOf(obs, cell), o, cell, counter);
  }

  lemma TotalOfNone(counter: Counter, cell: nat)
    ensures Total(TallyOf([], cell), counter) == 0
  {
  }

  lemma NoRounds(job: Job, day: Day, counter: Counter, target: nat, bucket: nat, s: nat)
    requires ValidDay(day) && s < |day.macs|
    ensures |RoundSet(job, day, counter, target, bucket, s, 0)| == 0
  {
    hide ValidDay, Counted;
  }

  lemma OneMoreRound(job: Job, day: Day, counter: Counter, target: nat, bucket: nat, s: nat, n: nat)
    requires ValidDay(day) && s < |day.macs| && n < |day.timestamps|
    ensures |RoundSet(job, day, counter, target, bucket, s, n + 1)| ==
            |RoundSet(job, day, counter, target, bucket, s, n)|
            + if Counted(job, day, counter, target, bucket, s, n) then 1 else 0
  {
    hide ValidDay, Counted;
    var now := RoundSet(job, day, counter, target, bucket, s, n);
    if Counted(job, day, counter, target, bucket, s, n) {
      assert RoundSet(job, day, counter, target, bucket, s, n + 1) == now + {n};
    } else {
      assert RoundSet(job, day, counter, target, bucket, s, n + 1) == now;
    }
  }

  lemma TotalOfNothing(counter: Counter)
    ensures Total(NOTHING, counter) == 0
  {
  }

  /** The counting rounds of a day, summed over its first `n` sources. */
  ghost function DayCount(job: Job, day: Day, counter: Counter, target: nat, bucket: nat, n: nat): nat
    requires ValidDay(day) && n <= |day.macs|
  {
    if n == 0 then 0
    else
      DayCount(job, day, counter, target, bucket, n - 1)
      + |RoundSet(job, day, counter, target, bucket, n - 1, |day.timestamps|)|
  }

  ghost function DaysCount(job: Job, days: seq<Day>, counter: Counter, target: nat, bucket: nat): nat
    requires AllValid(days)
  {
    if days == [] then 0
    else
      assert days[|days| - 1] in days;
      DaysCount(job, days[..|days| - 1], counter, target, bucket)
      + DayCount(job, days[|days| - 1], counter, target, bucket, |days[|days| - 1].macs|)
  }

  lemma TotalAdds(a: Tally, b: Tally, counter: Counter)
    ensures Total(Plus(a, b), counter) == Total(a, counter) + Total(b, counter)
  {
  }

  lemma {:induction false} StationsCounted(job: Job, day: Day, counter: Counter, target: nat, bucket: nat, n: nat)
    requires job.Valid() && ValidDay(day) && n <= |day.macs|
    requires target < |job.targetMacs| && bucket < job.Buckets()
    ensures Total(TallyOf(Stations(job, day, n), CellAt(job, target, bucket)), counter) ==
            DayCount(job, day, counter, target, bucket, n)
  {
    hide ValidDay, Total, Plus, Share, StationRounds, Counted, CellAt, TallyOf, RoundSet;
    var cell := CellAt(job, target, bucket);
    if n == 0 {
      TotalOfNone(counter, cell);
    } else {
      StationsCounted(job, day, counter, target, bucket, n - 1);
      var before := Stations(job, day, n - 1);
      var index := TargetIndex(job.targetMacs, day.macs[n - 1]);
      if index.Some? {
        var rounds := StationRounds(job, day, index.value, n - 1, |day.timestamps|);
        TallySplit(before, rounds, cell);
        TotalAdds(TallyOf(before, cell), TallyOf(rounds, cell), counter);
        RoundsCounted(job, day, counter, target, bucket, n - 1, |day.timestamps|, index.value);
      } else {
        assert before + [] == before;
        NoneCounted(job, day, counter, target, bucket, n - 1);
      }
    }
  }

  lemma NoneCounted(job: Job, day: Day, counter: Counter, target: nat, bucket: nat, s: nat)
    requires job.Valid() && ValidDay(day) && s < |day.macs|
    requires target < |job.targetMacs| && bucket < job.Buckets()
    requires TargetIndex(job.targetMacs, day.macs[s]).None?
    ensures RoundSet(job, day, counter, target, bucket, s, |day.timestamps|) == {}
  {
    hide ValidDay, Counted, StationAt;
    forall r | 0 <= r < |day.timestamps|
      ensures !Counted(job, day, counter, target, bucket, s, r)
    {
      CountedExactly(job, day, counter, target, bucket, s, r);
    }
  }

  lemma {:induction false} RadiosDoNotCount(obs: seq<Observation>, cell: nat, counter: Counter)
    requires forall o <- obs :: o.Radio?
    ensures Total(TallyOf(obs, cell), counter) == 0
  {
    if obs != [] {
      assert obs[|obs| - 1] in obs;
      RadiosDoNotCount(obs[..|obs| - 1], cell, counter);
    }
  }

  lemma {:induction false} RadioRoundsAreRadio(job: Job, day: Day, target: nat, source: nat, n: nat)
    requires job.Valid() && ValidDay(day) && day.frame.version == 2 && source < |day.apMacs| && n <= |day.timestamps|
    ensures forall o <- RadioRounds(job, day, target, source, n) :: o.Radio?
  {
    hide ValidDay;
    if n > 0 {
      RadioRoundsAreRadio(job, day, target, source, n - 1);
    }
  }

  lemma {:induction false} RadiosAreRadio(job: Job, day: Day, n: nat)
    requires job.Valid() && ValidDay(day) && day.frame.version == 2 && n <= |day.apMacs|
    ensures forall o <- Radios(job, day, n) :: o.Radio?
  {
    hide ValidDay;
    if n > 0 {
      RadiosAreRadio(job, day, n - 1);
      var target := TargetIndex(job.targetMacs, day.apMacs[n - 1]);
      if target.Some? { RadioRoundsAreRadio(job, day, target.value, n - 1, |day.timestamps|); }
    }
  }

  lemma DayCounted(job: Job, day: Day, counter: Counter, target: nat, bucket: nat)
    requires job.Valid() && ValidDay(day) && target < |job.targetMacs| && bucket < job.Buckets()
    ensures Total(TallyOf(DayObservations(job, day), CellAt(job, target, bucket)), counter) ==
            DayCount(job, day, counter, target, bucket, |day.macs|)
  {
    hide ValidDay, Total, Plus, TallyOf, Stations, Radios, DayCount, CellAt;
    var stations, cell := Stations(job, day, |day.macs|), CellAt(job, target, bucket);
    StationsCounted(job, day, counter, target, bucket, |day.macs|);
    if day.frame.version == 2 {
      var radios := Radios(job, day, |day.apMacs|);
      RadiosAreRadio(job, day, |day.apMacs|);
      RadiosDoNotCount(radios, cell, counter);
      TallySplit(stations, radios, cell);
      TotalAdds(TallyOf(stations, cell), TallyOf(radios, cell), counter);
    } else {
      assert stations + [] == stations;
    }
  }

  /** A station counter of a target's bucket is the number of (day, source, round)
      positions that land in it and whose bytes count: none is lost and none is counted twice. */
  lemma {:induction false} TotalsAreCounts(job: Job, days: seq<Day>, counter: Counter, target: nat, bucket: nat)
    requires job.Valid() && AllValid(days) && target < |job.targetMacs| && bucket < job.Buckets()
    ensures Total(DaysTally(job, days, CellAt(job, target, bucket)), counter) ==
            DaysCount(job, days, counter, target, bucket)
    decreases |days|
  {
    hide ValidDay, Total, Plus, DayCount, DayObservations, CellAt;
    var cell := CellAt(job, target, bucket);
    if days == [] {
      TotalOfNothing(counter);
    } else {
      var front, last := days[..|days| - 1], days[|days| - 1];
      assert last in days;
      TotalsAreCounts(job, front, counter, target, bucket);
      DayCounted(job, last, counter, target, bucket);
      TallySplit(AllObservations(job, front), DayObservations(job, last), cell);
      TotalAdds(DaysTally(job, front, cell), TallyOf(DayObservations(job, last), cell), counter);
    }
  }

  // ---------------------------------------------------------------- counters of exported files

  /** An attempt is only recorded for an associated target. */
  predicate AttemptsAreAssociated(day: Day)
    requires ValidDay(day)
  {
    forall s, r :: 0 <= s < |day.macs| && 0 <= r < |day.timestamps| && SampleCode(day, s, r) != 0 ==>
      StateByte(day, s, r) == 1
  }

  predicate Ordered(t: Tally) { t.replies <= t.attempts <= t.associated <= t.known }

  lemma {:induction false} OrderedTotals(obs: seq<Observation>, cell: nat)
    requires forall o <- obs :: o.Station? && o.code != 0 ==> o.state == 1
    ensures Ordered(TallyOf(obs, cell))
  {
    if obs != [] {
      assert obs[|obs| - 1] in obs;
      OrderedTotals(obs[..|obs| - 1], cell);
    }
  }

  lemma {:induction false} RoundsAssociated(job: Job, day: Day, target: nat, s: nat, n: nat)
    requires job.Valid() && ValidDay(day) && s < |day.macs| && n <= |day.timestamps| && AttemptsAreAssociated(day)
    ensures forall o <- StationRounds(job, day, target, s, n) :: o.Station? && o.code != 0 ==> o.state == 1
  {
    hide ValidDay, SampleCode, StateByte, SnrByte;
    if n > 0 {
      RoundsAssociated(job, day, target, s, n - 1);
    }
  }

  lemma {:induction false} StationsAssociated(job: Job, day: Day, n: nat)
    requires job.Valid() && ValidDay(day) && n <= |day.macs| && AttemptsAreAssociated(day)
    ensures forall o <- Stations(job, day, n) :: o.Station? && o.code != 0 ==> o.state == 1
  {
    hide ValidDay, AttemptsAreAssociated, StationRounds;
    if n > 0 {
      StationsAssociated(job, day, n - 1);
      var target := TargetIndex(job.targetMacs, day.macs[n - 1]);
      if target.Some? { RoundsAssociated(job, day, target.value, n - 1, |day.timestamps|); }
    }
  }

  lemma {:induction false} AllAssociated(job: Job, days: seq<Day>)
    requires job.Valid() && AllValid(days) && forall day <- days :: AttemptsAreAssociated(day)
    ensures forall o <- AllObservations(job, days) :: o.Station? && o.code != 0 ==> o.state == 1
  {
    hide ValidDay, AttemptsAreAssociated;
    if days != [] {
      var last := days[|days| - 1];
      assert last in days;
      AllAssociated(job, days[..|days| - 1]);
      StationsAssociated(job, last, |last.macs|);
      if last.frame.version == 2 { RadiosAreRadio(job, last, |last.apMacs|); }
    }
  }

  /** As long as a cell saw fewer than 65536 known rounds, its counters are ordered. */
  lemma ChartCountersOrdered(job: Job, days: seq<Day>, cell: nat)
    requires job.Valid() && AllValid(days) && forall day <- days :: AttemptsAreAssociated(day)
    requires cell < job.Cells() && DaysTally(job, days, cell).known < U16
    ensures |Chart(job, days)| == job.Cells()
    ensures var bin := Chart(job, days)[cell];
            bin.replies <= bin.attempts <= bin.associated <= bin.known
  {
    hide Chart, ValidDay, AttemptsAreAssociated, TallyOf;
    ChartShowsTotals(job, days, cell);
    AllAssociated(job, days);
    OrderedTotals(AllObservations(job, days), cell);
  }
}
