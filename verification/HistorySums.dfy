/** The sums and extremes of a chart cell over the file positions that land in it. */
module HistorySums {
  import opened Wrappers
  import opened DayParser
  import opened History
  import opened HistoryBytes
  import opened HistoryTheorems

  // ---------------------------------------------------------------- sums

  datatype Sum = LatencySum | SnrSum | AirtimeSum | AirtimeReadings

  function SumOf(t: Tally, sum: Sum): nat {
    match sum
    case LatencySum => t.latencySum
    case SnrSum => t.snrSum
    case AirtimeSum => t.airtimeSum
    case AirtimeReadings => t.airtimeCount
  }

  /** What the bytes at a station's round add. */
  function StationAmount(day: Day, sum: Sum, s: nat, r: nat): nat
    requires ValidDay(day) && s < |day.macs| && r < |day.timestamps|
  {
    match sum
    case LatencySum => if 1 <= Sample(day, s, r) <= 254 then Milliseconds(day, s, r) else 0
    case SnrSum => if Signal(day, s, r) == 0 then 0 else Signal(day, s, r) - 1
    case _ => 0
  }

  /** And those at an access point's. */
  function RadioAmount(job: Job, day: Day, sum: Sum, s: nat, r: nat): nat
    requires ValidDay(day) && day.frame.version == 2 && s < |day.apMacs| && r < |day.timestamps|
  {
    match sum
    case AirtimeSum => if Air(job, day, s, r) == 0 then 0 else Air(job, day, s, r) - 1
    case AirtimeReadings => if Air(job, day, s, r) == 0 then 0 else 1
    case _ => 0
  }

  ghost function StationRoundSum(job: Job, day: Day, sum: Sum, target: nat, bucket: nat, s: nat, n: nat): nat
    requires ValidDay(day) && s < |day.macs| && n <= |day.timestamps|
  {
    if n == 0 then 0
    else
      StationRoundSum(job, day, sum, target, bucket, s, n - 1)
      + if LandsAt(job, day.macs[s], day.timestamps[n - 1], target, bucket)
        then StationAmount(day, sum, s, n - 1) else 0
  }

  ghost function StationSum(job: Job, day: Day, sum: Sum, target: nat, bucket: nat, n: nat): nat
    requires ValidDay(day) && n <= |day.macs|
  {
    if n == 0 then 0
    else
      StationSum(job, day, sum, target, bucket, n - 1)
      + StationRoundSum(job, day, sum, target, bucket, n - 1, |day.timestamps|)
  }

  ghost function RadioRoundSum(job: Job, day: Day, sum: Sum, target: nat, bucket: nat, s: nat, n: nat): nat
    requires ValidDay(day) && day.frame.version == 2 && s < |day.apMacs| && n <= |day.timestamps|
  {
    if n == 0 then 0
    else
      RadioRoundSum(job, day, sum, target, bucket, s, n - 1)
      + if LandsAt(job, day.apMacs[s], day.timestamps[n - 1], target, bucket)
        then RadioAmount(job, day, sum, s, n - 1) else 0
  }

  ghost function RadioSum(job: Job, day: Day, sum: Sum, target: nat, bucket: nat, n: nat): nat
    requires ValidDay(day) && day.frame.version == 2 && n <= |day.apMacs|
  {
    if n == 0 then 0
    else
      RadioSum(job, day, sum, target, bucket, n - 1)
      + RadioRoundSum(job, day, sum, target, bucket, n - 1, |day.timestamps|)
  }

  /** Over all files, sources and rounds whose time lands in a target's bucket. */
  ghost function DaysSum(job: Job, days: seq<Day>, sum: Sum, target: nat, bucket: nat): nat
    requires AllValid(days)
  {
    if days == [] then 0
    else
      var last := days[|days| - 1];
      assert last in days;
      DaysSum(job, days[..|days| - 1], sum, target, bucket)
      + StationSum(job, last, sum, target, bucket, |last.macs|)
      + if last.frame.version == 2 then RadioSum(job, last, sum, target, bucket, |last.apMacs|) else 0
  }

  /** What one observation adds. */
  function Worth(sum: Sum, o: Observation): nat {
    match (sum, o)
    case (LatencySum, Station(_, _, code, latency, _, _)) => if Replied(code) then latency else 0
    case (SnrSum, Station(_, _, _, _, _, snr)) => if snr != 0 then snr - 1 else 0
    case (AirtimeSum, Radio(_, air, _)) => if air != 0 then air - 1 else 0
    case (AirtimeReadings, Radio(_, air, _)) => if air != 0 then 1 else 0
    case _ => 0
  }

  lemma StationWorth(job: Job, day: Day, sum: Sum, index: nat, s: nat, r: nat)
    requires job.Valid() && ValidDay(day) && s < |day.macs| && r < |day.timestamps| && job.InRange(day.timestamps[r])
    ensures Worth(sum, StationAt(job, day, index, s, r)) == StationAmount(day, sum, s, r)
  {
    hide ValidDay, StationAt, Sample, Signal, State, Milliseconds;
    StationBytes(job, day, index, s, r);
  }

  lemma RadioWorth(job: Job, day: Day, sum: Sum, index: nat, s: nat, r: nat)
    requires job.Valid() && ValidDay(day) && day.frame.version == 2
    requires s < |day.apMacs| && r < |day.timestamps| && job.InRange(day.timestamps[r])
    ensures Worth(sum, RadioAt(job, day, index, s, r)) == RadioAmount(job, day, sum, s, r)
  {
    hide ValidDay, RadioAt, Air, Mesh;
    RadioBytes(job, day, index, s, r);
  }

  lemma SumAdds(a: Tally, b: Tally, sum: Sum)
    ensures SumOf(Plus(a, b), sum) == SumOf(a, sum) + SumOf(b, sum) && SumOf(NOTHING, sum) == 0
  {
  }

  lemma ShareIsWorth(o: Observation, sum: Sum, cell: nat)
    ensures SumOf(Share(o, cell), sum) == if o.cell == cell then Worth(sum, o) else 0
  {
  }

  lemma SumOfOneMore(obs: seq<Observation>, o: Observation, sum: Sum, cell: nat)
    ensures SumOf(TallyOf(obs + [o], cell), sum) ==
            SumOf(TallyOf(obs, cell), sum) + if o.cell == cell then Worth(sum, o) else 0
  {
    hide Plus, Share, SumOf, Worth;
    assert (obs + [o])[..|obs|] == obs;
    SumAdds(TallyOf(obs, cell), Share(o, cell), sum);
    ShareIsWorth(o, sum, cell);
  }

  lemma SumOfJoined(a: seq<Observation>, b: seq<Observation>, sum: Sum, cell: nat)
    ensures SumOf(TallyOf(a + b, cell), sum) == SumOf(TallyOf(a, cell), sum) + SumOf(TallyOf(b, cell), sum)
  {
    hide Plus, SumOf, TallyOf;
    TallySplit(a, b, cell);
    SumAdds(TallyOf(a, cell), TallyOf(b, cell), sum);
  }

  lemma SumOfNone(sum: Sum, cell: nat)
    ensures SumOf(TallyOf([], cell), sum) == 0
  {
  }

  lemma {:induction false} StationRoundsSum(job: Job, day: Day, sum: Sum, target: nat, bucket: nat, index: nat, s: nat,
                                           n: nat)
    requires job.Valid() && ValidDay(day) && s < |day.macs| && n <= |day.timestamps|
    requires target < |job.targetMacs| && bucket < job.Buckets()
    requires TargetIndex(job.targetMacs, day.macs[s]) == Some(index)
    ensures SumOf(TallyOf(StationRounds(job, day, index, s, n), CellAt(job, target, bucket)), sum) ==
            StationRoundSum(job, day, sum, target, bucket, s, n)
  {
    hide LandsAt, CellAt, ValidDay, StationAt, SumOf, TallyOf, Worth, StationAmount;
    var cell := CellAt(job, target, bucket);
    if n == 0 {
      SumOfNone(sum, cell);
    } else {
      StationRoundsSum(job, day, sum, target, bucket, index, s, n - 1);
      LandsExactly(job, day.macs[s], day.timestamps[n - 1], target, bucket);
      var before := StationRounds(job, day, index, s, n - 1);
      if job.InRange(day.timestamps[n - 1]) {
        StationBytes(job, day, index, s, n - 1);
        StationWorth(job, day, sum, index, s, n - 1);
        SumOfOneMore(before, StationAt(job, day, index, s, n - 1), sum, cell);
      } else {
        assert before + [] == before;
      }
    }
  }

  lemma {:induction false} NoStationSum(job: Job, day: Day, sum: Sum, target: nat, bucket: nat, s: nat, n: nat)
    requires job.Valid() && ValidDay(day) && s < |day.macs| && n <= |day.timestamps|
    requires target < |job.targetMacs| && bucket < job.Buckets()
    requires TargetIndex(job.targetMacs, day.macs[s]).None?
    ensures StationRoundSum(job, day, sum, target, bucket, s, n) == 0
  {
    hide ValidDay, LandsAt;
    if n > 0 {
      NoStationSum(job, day, sum, target, bucket, s, n - 1);
      LandsExactly(job, day.macs[s], day.timestamps[n - 1], target, bucket);
    }
  }

  lemma {:induction false} StationsSum(job: Job, day: Day, sum: Sum, target: nat, bucket: nat, n: nat)
    requires job.Valid() && ValidDay(day) && n <= |day.macs|
    requires target < |job.targetMacs| && bucket < job.Buckets()
    ensures SumOf(TallyOf(Stations(job, day, n), CellAt(job, target, bucket)), sum) ==
            StationSum(job, day, sum, target, bucket, n)
  {
    hide ValidDay, SumOf, TallyOf, StationRounds, StationRoundSum, TargetIndex, CellAt;
    var cell := CellAt(job, target, bucket);
    if n == 0 {
      SumOfNone(sum, cell);
    } else {
      StationsSum(job, day, sum, target, bucket, n - 1);
      var before, index := Stations(job, day, n - 1), TargetIndex(job.targetMacs, day.macs[n - 1]);
      if index.Some? {
        StationRoundsSum(job, day, sum, target, bucket, index.value, n - 1, |day.timestamps|);
        SumOfJoined(before, StationRounds(job, day, index.value, n - 1, |day.timestamps|), sum, cell);
      } else {
        NoStationSum(job, day, sum, target, bucket, n - 1, |day.timestamps|);
        assert before + [] == before;
      }
    }
  }

  lemma {:induction false} RadioRoundsSum(job: Job, day: Day, sum: Sum, target: nat, bucket: nat, index: nat, s: nat,
                                           n: nat)
    requires job.Valid() && ValidDay(day) && day.frame.version == 2 && s < |day.apMacs| && n <= |day.timestamps|
    requires target < |job.targetMacs| && bucket < job.Buckets()
    requires TargetIndex(job.targetMacs, day.apMacs[s]) == Some(index)
    ensures SumOf(TallyOf(RadioRounds(job, day, index, s, n), CellAt(job, target, bucket)), sum) ==
            RadioRoundSum(job, day, sum, target, bucket, s, n)
  {
    hide LandsAt, CellAt, ValidDay, RadioAt, SumOf, TallyOf, Worth, RadioAmount;
    var cell := CellAt(job, target, bucket);
    if n == 0 {
      SumOfNone(sum, cell);
    } else {
      RadioRoundsSum(job, day, sum, target, bucket, index, s, n - 1);
      LandsExactly(job, day.apMacs[s], day.timestamps[n - 1], target, bucket);
      var before := RadioRounds(job, day, index, s, n - 1);
      if job.InRange(day.timestamps[n - 1]) {
        RadioBytes(job, day, index, s, n - 1);
        RadioWorth(job, day, sum, index, s, n - 1);
        SumOfOneMore(before, RadioAt(job, day, index, s, n - 1), sum, cell);
      } else {
        assert before + [] == before;
      }
    }
  }

  lemma {:induction false} NoRadioSum(job: Job, day: Day, sum: Sum, target: nat, bucket: nat, s: nat, n: nat)
    requires job.Valid() && ValidDay(day) && day.frame.version == 2 && s < |day.apMacs| && n <= |day.timestamps|
    requires target < |job.targetMacs| && bucket < job.Buckets()
    requires TargetIndex(job.targetMacs, day.apMacs[s]).None?
    ensures RadioRoundSum(job, day, sum, target, bucket, s, n) == 0
  {
    hide ValidDay, LandsAt;
    if n > 0 {
      NoRadioSum(job, day, sum, target, bucket, s, n - 1);
      LandsExactly(job, day.apMacs[s], day.timestamps[n - 1], target, bucket);
    }
  }

  lemma {:induction false} RadiosSum(job: Job, day: Day, sum: Sum, target: nat, bucket: nat, n: nat)
    requires job.Valid() && ValidDay(day) && day.frame.version == 2 && n <= |day.apMacs|
    requires target < |job.targetMacs| && bucket < job.Buckets()
    ensures SumOf(TallyOf(Radios(job, day, n), CellAt(job, target, bucket)), sum) ==
            RadioSum(job, day, sum, target, bucket, n)
  {
    hide ValidDay, SumOf, TallyOf, RadioRounds, RadioRoundSum, TargetIndex, CellAt;
    var cell := CellAt(job, target, bucket);
    if n == 0 {
      SumOfNone(sum, cell);
    } else {
      RadiosSum(job, day, sum, target, bucket, n - 1);
      var before, index := Radios(job, day, n - 1), TargetIndex(job.targetMacs, day.apMacs[n - 1]);
      if index.Some? {
        RadioRoundsSum(job, day, sum, target, bucket, index.value, n - 1, |day.timestamps|);
        SumOfJoined(before, RadioRounds(job, day, index.value, n - 1, |day.timestamps|), sum, cell);
      } else {
        NoRadioSum(job, day, sum, target, bucket, n - 1, |day.timestamps|);
        assert before + [] == before;
      }
    }
  }

  /** Latency, SNR and airtime totals of a target's bucket, and its airtime count, are sums
      over the (file, source, round) positions that land in it. */
  lemma {:induction false} TotalsAreSums(job: Job, days: seq<Day>, sum: Sum, target: nat, bucket: nat)
    requires job.Valid() && AllValid(days) && target < |job.targetMacs| && bucket < job.Buckets()
    ensures SumOf(DaysTally(job, days, CellAt(job, target, bucket)), sum) == DaysSum(job, days, sum, target, bucket)
    decreases |days|
  {
    hide ValidDay, SumOf, TallyOf, Stations, Radios, StationSum, RadioSum, CellAt;
    var cell := CellAt(job, target, bucket);
    if days == [] {
      SumOfNone(sum, cell);
    } else {
      var front, last := days[..|days| - 1], days[|days| - 1];
      assert last in days;
      TotalsAreSums(job, front, sum, target, bucket);
      var stations := Stations(job, last, |last.macs|);
      StationsSum(job, last, sum, target, bucket, |last.macs|);
      SumOfJoined(AllObservations(job, front), DayObservations(job, last), sum, cell);
      if last.frame.version == 2 {
        RadiosSum(job, last, sum, target, bucket, |last.apMacs|);
        SumOfJoined(stations, Radios(job, last, |last.apMacs|), sum, cell);
      } else {
        assert stations + [] == stations;
      }
    }
  }

  // ---------------------------------------------------------------- extremes

  datatype Extreme = LatencyMax | SnrMin | MeshSnrMin

  /** The value that an observation offers. */
  function Reading(e: Extreme, o: Observation): Option<nat> {
    match (e, o)
    case (LatencyMax, Station(_, _, code, latency, _, _)) => if Replied(code) then Some(latency) else None
    case (SnrMin, Station(_, _, _, _, _, snr)) => if snr != 0 then Some(snr - 1) else None
    case (MeshSnrMin, Radio(_, _, mesh)) => if mesh != 0 then Some(mesh - 1) else None
    case _ => None
  }

  function ExtremeOf(t: Tally, e: Extreme): nat {
    match e
    case LatencyMax => t.latencyMax
    case SnrMin => t.snrMin
    case MeshSnrMin => t.meshSnrMin
  }

  /** The value of a cell without readings. */
  function Unread(e: Extreme): nat {
    if e == LatencyMax then 0 else 255
  }

  predicate Beyond(e: Extreme, extreme: nat, v: nat) {
    if e == LatencyMax then v <= extreme else extreme <= v
  }

  /** Round `r` of station source `s`, when it is in range and its address is requested. */
  function StationHere(job: Job, day: Day, s: nat, r: nat): Option<Observation>
    requires job.Valid() && ValidDay(day) && s < |day.macs| && r < |day.timestamps|
  {
    var target := TargetIndex(job.targetMacs, day.macs[s]);
    if target.Some? && job.InRange(day.timestamps[r]) then Some(StationAt(job, day, target.value, s, r)) else None
  }

  /** The same for an access point's radio. */
  function RadioHere(job: Job, day: Day, s: nat, r: nat): Option<Observation>
    requires job.Valid() && ValidDay(day) && day.frame.version == 2 && s < |day.apMacs| && r < |day.timestamps|
  {
    var target := TargetIndex(job.targetMacs, day.apMacs[s]);
    if target.Some? && job.InRange(day.timestamps[r]) then Some(RadioAt(job, day, target.value, s, r)) else None
  }

  /** Some position of some file makes this observation, in this cell. */
  ghost predicate Lands(job: Job, days: seq<Day>, cell: nat, o: Observation)
    requires job.Valid() && AllValid(days)
  {
    o.cell == cell && exists i :: 0 <= i < |days| && OnDay(job, days[i], o)
  }

  ghost predicate OnDay(job: Job, day: Day, o: Observation)
    requires job.Valid() && ValidDay(day)
  {
    || (exists s, r :: 0 <= s < |day.macs| && 0 <= r < |day.timestamps| && StationHere(job, day, s, r) == Some(o))
    || (day.frame.version == 2 &&
        exists s, r :: 0 <= s < |day.apMacs| && 0 <= r < |day.timestamps| && RadioHere(job, day, s, r) == Some(o))
  }

  /** A bound on every reading, and one of them unless there are none. */
  ghost predicate IsExtreme(e: Extreme, v: nat, obs: seq<Observation>, cell: nat) {
    && (forall o <- obs :: o.cell == cell && Reading(e, o).Some? ==> Beyond(e, v, Reading(e, o).value))
    && (v == Unread(e) || exists o <- obs :: o.cell == cell && Reading(e, o) == Some(v))
  }

  lemma {:induction false} TallyIsExtreme(e: Extreme, obs: seq<Observation>, cell: nat)
    ensures IsExtreme(e, ExtremeOf(TallyOf(obs, cell), e), obs, cell)
  {
    if obs != [] {
      var front, last := obs[..|obs| - 1], obs[|obs| - 1];
      assert obs == front + [last];
      TallyIsExtreme(e, front, cell);
      TallyBounds(front, cell);
      var before, after := TallyOf(front, cell), TallyOf(obs, cell);
      OneMoreReading(e, before, last, cell);
      assert last in obs && forall o <- front :: o in obs;
    }
  }

  lemma OneMoreReading(e: Extreme, t: Tally, o: Observation, cell: nat)
    requires t.snrMin <= 255 && t.meshSnrMin <= 255
    ensures var v := ExtremeOf(Plus(t, Share(o, cell)), e);
            && Beyond(e, v, ExtremeOf(t, e))
            && (v == ExtremeOf(t, e) || (o.cell == cell && Reading(e, o) == Some(v)))
            && (o.cell == cell && Reading(e, o).Some? ==> Beyond(e, v, Reading(e, o).value))
  {
  }

  lemma {:induction false} InStationRounds(job: Job, day: Day, target: nat, s: nat, n: nat, o: Observation)
    requires job.Valid() && ValidDay(day) && s < |day.macs| && n <= |day.timestamps|
    requires TargetIndex(job.targetMacs, day.macs[s]) == Some(target)
    ensures o in StationRounds(job, day, target, s, n) <==>
              exists r :: 0 <= r < n && StationHere(job, day, s, r) == Some(o)
  {
    hide ValidDay, StationAt;
    if n > 0 {
      InStationRounds(job, day, target, s, n - 1, o);
      assert o in StationRounds(job, day, target, s, n) <==>
             o in StationRounds(job, day, target, s, n - 1) || StationHere(job, day, s, n - 1) == Some(o);
    }
  }

  lemma {:induction false} InStations(job: Job, day: Day, n: nat, o: Observation)
    requires job.Valid() && ValidDay(day) && n <= |day.macs|
    ensures o in Stations(job, day, n) <==>
            exists s, r :: 0 <= s < n && 0 <= r < |day.timestamps| && StationHere(job, day, s, r) == Some(o)
  {
    hide ValidDay, StationRounds, StationAt, TargetIndex;
    if n > 0 {
      InStations(job, day, n - 1, o);
      var last, target := n - 1, TargetIndex(job.targetMacs, day.macs[n - 1]);
      if target.Some? {
        InStationRounds(job, day, target.value, last, |day.timestamps|, o);
      }
      assert (exists r :: 0 <= r < |day.timestamps| && StationHere(job, day, last, r) == Some(o)) <==>
             target.Some? && o in StationRounds(job, day, target.value, last, |day.timestamps|);
    }
  }

  lemma {:induction false} InRadioRounds(job: Job, day: Day, target: nat, s: nat, n: nat, o: Observation)
    requires job.Valid() && ValidDay(day) && day.frame.version == 2 && s < |day.apMacs| && n <= |day.timestamps|
    requires TargetIndex(job.targetMacs, day.apMacs[s]) == Some(target)
    ensures o in RadioRounds(job, day, target, s, n) <==> exists r :: 0 <= r < n && RadioHere(job, day, s, r) == Some(o)
  {
    hide ValidDay, RadioAt;
    if n > 0 {
      InRadioRounds(job, day, target, s, n - 1, o);
      assert o in RadioRounds(job, day, target, s, n) <==>
             o in RadioRounds(job, day, target, s, n - 1) || RadioHere(job, day, s, n - 1) == Some(o);
    }
  }

  lemma {:induction false} InRadios(job: Job, day: Day, n: nat, o: Observation)
    requires job.Valid() && ValidDay(day) && day.frame.version == 2 && n <= |day.apMacs|
    ensures o in Radios(job, day, n) <==>
            exists s, r :: 0 <= s < n && 0 <= r < |day.timestamps| && RadioHere(job, day, s, r) == Some(o)
  {
    hide ValidDay, RadioRounds, RadioAt, TargetIndex;
    if n > 0 {
      InRadios(job, day, n - 1, o);
      var last, target := n - 1, TargetIndex(job.targetMacs, day.apMacs[n - 1]);
      if target.Some? {
        InRadioRounds(job, day, target.value, last, |day.timestamps|, o);
      }
      assert (exists r :: 0 <= r < |day.timestamps| && RadioHere(job, day, last, r) == Some(o)) <==>
             target.Some? && o in RadioRounds(job, day, target.value, last, |day.timestamps|);
    }
  }

  lemma InDay(job: Job, day: Day, o: Observation)
    requires job.Valid() && ValidDay(day)
    ensures o in DayObservations(job, day) <==> OnDay(job, day, o)
  {
    hide ValidDay, Stations, Radios, StationHere, RadioHere;
    InStations(job, day, |day.macs|, o);
    if day.frame.version == 2 {
      InRadios(job, day, |day.apMacs|, o);
    }
  }

  lemma {:induction false} InAll(job: Job, days: seq<Day>, o: Observation)
    requires job.Valid() && AllValid(days)
    ensures o in AllObservations(job, days) <==> exists i :: 0 <= i < |days| && OnDay(job, days[i], o)
    decreases |days|
  {
    hide ValidDay, DayObservations, OnDay;
    if days != [] {
      var front, last := days[..|days| - 1], days[|days| - 1];
      assert last in days;
      InAll(job, front, o);
      InDay(job, last, o);
      assert forall i :: 0 <= i < |front| ==> front[i] == days[i];
    }
  }

  /** The bytes at a station's round of the day offer `v`, and land in the bucket. */
  ghost predicate StationOffers(job: Job, day: Day, e: Extreme, target: nat, bucket: nat, s: nat, r: nat, v: nat)
    requires ValidDay(day) && s < |day.macs| && r < |day.timestamps|
  {
    && LandsAt(job, day.macs[s], day.timestamps[r], target, bucket)
    && match e
       case LatencyMax => 1 <= Sample(day, s, r) <= 254 && v == Milliseconds(day, s, r)
       case SnrMin => Signal(day, s, r) == v + 1
       case MeshSnrMin => false
  }

  ghost predicate RadioOffers(job: Job, day: Day, e: Extreme, target: nat, bucket: nat, s: nat, r: nat, v: nat)
    requires ValidDay(day) && day.frame.version == 2 && s < |day.apMacs| && r < |day.timestamps|
  {
    e == MeshSnrMin && LandsAt(job, day.apMacs[s], day.timestamps[r], target, bucket) && Mesh(day, s, r) == v + 1
  }

  /** Some position of the day that lands in the bucket offers `v`. */
  ghost predicate Offers(job: Job, day: Day, e: Extreme, target: nat, bucket: nat, v: nat)
    requires ValidDay(day)
  {
    || (exists s, r :: 0 <= s < |day.macs| && 0 <= r < |day.timestamps|
                       && StationOffers(job, day, e, target, bucket, s, r, v))
    || (day.frame.version == 2 &&
        exists s, r :: 0 <= s < |day.apMacs| && 0 <= r < |day.timestamps|
                       && RadioOffers(job, day, e, target, bucket, s, r, v))
  }

  lemma StationReads(job: Job, day: Day, e: Extreme, target: nat, bucket: nat, s: nat, r: nat, v: nat)
    requires job.Valid() && ValidDay(day) && s < |day.macs| && r < |day.timestamps|
    requires target < |job.targetMacs| && bucket < job.Buckets()
    ensures var here := StationHere(job, day, s, r);
            StationOffers(job, day, e, target, bucket, s, r, v) <==>
            here.Some? && here.value.cell == CellAt(job, target, bucket) && Reading(e, here.value) == Some(v)
  {
    hide ValidDay, StationAt, LandsAt, Sample, Signal, State, Milliseconds, CellAt;
    var index := TargetIndex(job.targetMacs, day.macs[s]);
    LandsExactly(job, day.macs[s], day.timestamps[r], target, bucket);
    if index.Some? && job.InRange(day.timestamps[r]) { StationBytes(job, day, index.value, s, r); }
  }

  lemma RadioReads(job: Job, day: Day, e: Extreme, target: nat, bucket: nat, s: nat, r: nat, v: nat)
    requires job.Valid() && ValidDay(day) && day.frame.version == 2 && s < |day.apMacs| && r < |day.timestamps|
    requires target < |job.targetMacs| && bucket < job.Buckets()
    ensures var here := RadioHere(job, day, s, r);
            RadioOffers(job, day, e, target, bucket, s, r, v) <==>
            here.Some? && here.value.cell == CellAt(job, target, bucket) && Reading(e, here.value) == Some(v)
  {
    hide ValidDay, RadioAt, LandsAt, Air, Mesh, CellAt;
    var index := TargetIndex(job.targetMacs, day.apMacs[s]);
    LandsExactly(job, day.apMacs[s], day.timestamps[r], target, bucket);
    if index.Some? && job.InRange(day.timestamps[r]) { RadioBytes(job, day, index.value, s, r); }
  }

  ghost predicate ReadsOnDay(job: Job, day: Day, e: Extreme, cell: nat, v: nat)
    requires job.Valid() && ValidDay(day)
  {
    exists o :: OnDay(job, day, o) && o.cell == cell && Reading(e, o) == Some(v)
  }

  lemma OffersExactly(job: Job, day: Day, e: Extreme, target: nat, bucket: nat, v: nat)
    requires job.Valid() && ValidDay(day) && target < |job.targetMacs| && bucket < job.Buckets()
    ensures Offers(job, day, e, target, bucket, v) <==> ReadsOnDay(job, day, e, CellAt(job, target, bucket), v)
  {
    hide ValidDay, StationHere, RadioHere, StationOffers, RadioOffers, CellAt, Reading;
    forall s, r | 0 <= s < |day.macs| && 0 <= r < |day.timestamps|
      ensures StationOffers(job, day, e, target, bucket, s, r, v) <==>
              var here := StationHere(job, day, s, r);
              here.Some? && here.value.cell == CellAt(job, target, bucket) && Reading(e, here.value) == Some(v)
    {
      StationReads(job, day, e, target, bucket, s, r, v);
    }
    if day.frame.version == 2 {
      forall s, r | 0 <= s < |day.apMacs| && 0 <= r < |day.timestamps|
        ensures RadioOffers(job, day, e, target, bucket, s, r, v) <==>
                var here := RadioHere(job, day, s, r);
                here.Some? && here.value.cell == CellAt(job, target, bucket) && Reading(e, here.value) == Some(v)
      {
        RadioReads(job, day, e, target, bucket, s, r, v);
      }
    }
    if Offers(job, day, e, target, bucket, v) {
      if s, r :| 0 <= s < |day.macs| && 0 <= r < |day.timestamps|
                 && StationOffers(job, day, e, target, bucket, s, r, v) {
        assert OnDay(job, day, StationHere(job, day, s, r).value);
      } else {
        var s, r :| 0 <= s < |day.apMacs| && 0 <= r < |day.timestamps|
                    && RadioOffers(job, day, e, target, bucket, s, r, v);
        assert OnDay(job, day, RadioHere(job, day, s, r).value);
      }
    }
  }

  ghost predicate Offered(job: Job, days: seq<Day>, e: Extreme, target: nat, bucket: nat, v: nat)
    requires AllValid(days)
  {
    exists i :: 0 <= i < |days| && Offers(job, days[i], e, target, bucket, v)
  }

  /** The maximum and minimum arrays of a target's bucket bound every reading of the
      positions that land in it, and are one of these readings unless there are none. */
  lemma ExtremesAreReadings(job: Job, days: seq<Day>, e: Extreme, target: nat, bucket: nat)
    requires job.Valid() && AllValid(days) && target < |job.targetMacs| && bucket < job.Buckets()
    ensures var v := ExtremeOf(DaysTally(job, days, CellAt(job, target, bucket)), e);
            && (forall w :: Offered(job, days, e, target, bucket, w) ==> Beyond(e, v, w))
            && (v == Unread(e) || Offered(job, days, e, target, bucket, v))
  {
    hide ValidDay, OnDay, TallyOf, AllObservations, ExtremeOf, Offers, CellAt, Reading;
    var cell := CellAt(job, target, bucket);
    TallyIsExtreme(e, AllObservations(job, days), cell);
    forall o: Observation
      ensures Lands(job, days, cell, o) <==> o in AllObservations(job, days) && o.cell == cell
    {
      InAll(job, days, o);
    }
    forall w: nat
      ensures Offered(job, days, e, target, bucket, w) <==>
              exists o :: Lands(job, days, cell, o) && Reading(e, o) == Some(w)
    {
      forall i | 0 <= i < |days|
        ensures Offers(job, days[i], e, target, bucket, w) <==> ReadsOnDay(job, days[i], e, cell, w)
      {
        OffersExactly(job, days[i], e, target, bucket, w);
      }
    }
  }
}
