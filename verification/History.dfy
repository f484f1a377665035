/** Aggregating parsed days into chart bins. */
module History {
  import opened Wrappers
  import opened Bytes
  import opened DayParser

  datatype Job = Job(targetMacs: seq<string>, rangeStart: int, rangeEnd: int, bucketSeconds: int, bandG: bool)
  {
    /** The source divides by the bucket length and allocates `buckets` cells a target. */
    predicate Valid() { bucketSeconds > 0 && rangeStart <= rangeEnd }

    function Buckets(): nat
      requires Valid()
    {
      (rangeEnd - rangeStart + bucketSeconds - 1) / bucketSeconds
    }

    predicate InRange(t: int) { rangeStart <= t < rangeEnd }

    function Bucket(t: int): nat
      requires Valid() && InRange(t)
    {
      (t - rangeStart) / bucketSeconds
    }

    function Cells(): nat
      requires Valid()
    {
      |targetMacs| * Buckets()
    }

    function CellOf(target: nat, t: int): nat
      requires Valid() && InRange(t)
    {
      target * Buckets() + Bucket(t)
    }
  }

  /** `new Map(macs.map((mac, index) => [mac, index])).get(mac)`: the last index wins. */
  function TargetIndex(macs: seq<string>, mac: string): (index: Option<nat>)
    ensures index.Some? ==> index.value < |macs| && macs[index.value] == mac
    ensures index.None? ==> mac !in macs
  {
    if macs == [] then None
    else if macs[|macs| - 1] == mac then Some(|macs| - 1)
    else TargetIndex(macs[..|macs| - 1], mac)
  }

  // ---------------------------------------------------------------- bins and observations

  /** One element of each of the parallel typed arrays, with the arrays' widths. */
  datatype Bin = Bin(
    attempts: u32, replies: u32, latencySum: u32, latencyMax: u16,
    snrSum: u32, snrCount: u16, snrMin: byte,
    associated: u16, associatedAt: u32, known: u16,
    airtimeSum: u32, airtimeCount: u16, meshSnrMin: byte)

  const EMPTY := Bin(0, 0, 0, 0, 0, 0, 255, 0, 0, 0, 0, 0, 255)

  /** What one matrix position says about one cell. */
  datatype Observation =
    | Station(cell: nat, at: u32, code: byte, latency: u16, state: byte, snr: byte)
    | Radio(cell: nat, air: byte, mesh: byte)

  function Max(a: int, b: int): int { if a > b then a else b }
  function Min(a: int, b: int): int { if a < b then a else b }

  predicate Replied(code: byte) { code != 0 && code != 255 }

  /** The increments of the inner loops on one cell. */
  function Update(bin: Bin, o: Observation): Bin {
    match o
    case Station(_, at, code, latency, state, snr) =>
      var replied := Replied(code);
      Bin(if code != 0 then (bin.attempts + 1) % U32 else bin.attempts,
          if replied then (bin.replies + 1) % U32 else bin.replies,
          if replied then (bin.latencySum + latency) % U32 else bin.latencySum,
          if replied then Max(bin.latencyMax, latency) else bin.latencyMax,
          if snr != 0 then (bin.snrSum + (snr - 1)) % U32 else bin.snrSum,
          if snr != 0 then (bin.snrCount + 1) % U16 else bin.snrCount,
          if snr != 0 then Min(bin.snrMin, snr - 1) else bin.snrMin,
          if state == 1 then (bin.associated + 1) % U16 else bin.associated,
          if state == 1 then at else bin.associatedAt,
          if state != 0 then (bin.known + 1) % U16 else bin.known,
          bin.airtimeSum, bin.airtimeCount, bin.meshSnrMin)
    case Radio(_, air, mesh) =>
      bin.(airtimeSum := if air != 0 then (bin.airtimeSum + (air - 1)) % U32 else bin.airtimeSum,
           airtimeCount := if air != 0 then (bin.airtimeCount + 1) % U16 else bin.airtimeCount,
           meshSnrMin := if mesh != 0 then Min(bin.meshSnrMin, mesh - 1) else bin.meshSnrMin)
  }

  predicate AllInside(obs: seq<Observation>, cells: nat) {
    forall o <- obs :: o.cell < cells
  }

  function ApplyAll(bins: seq<Bin>, obs: seq<Observation>): (after: seq<Bin>)
    requires AllInside(obs, |bins|)
    ensures |after| == |bins|
  {
    if obs == [] then bins
    else
      var last := obs[|obs| - 1];
      assert last in obs;
      var before := ApplyAll(bins, obs[..|obs| - 1]);
      before[last.cell := Update(before[last.cell], last)]
  }

  // ---------------------------------------------------------------- the observations of a day

  /** What the parser guarantees: every matrix lies inside the buffer. */
  predicate ValidDay(day: Day) {
    var f := day.frame;
    && (f.version == 1 || f.version == 2)
    && |day.timestamps| == f.roundCount && |day.macs| == f.targetCount && |day.codebook| == 254
    && f.samplesOffset + f.MatrixSize() <= |day.bytes|
    && (f.version == 2 ==>
         && |day.apMacs| == f.apCount
         && f.snrOffset + f.MatrixSize() <= |day.bytes| && f.stateOffset + f.MatrixSize() <= |day.bytes|
         && f.air24Offset + f.ApMatrixSize() <= |day.bytes| && f.air5Offset + f.ApMatrixSize() <= |day.bytes|
         && f.meshSnrOffset + f.ApMatrixSize() <= |day.bytes|)
  }

  lemma ParsedIsValid(bytes: seq<byte>)
    requires ParseDaySpec(bytes).Success?
    ensures ValidDay(ParseDaySpec(bytes).value)
  {
    FrameInBounds(bytes);
  }

  lemma Inside(source: nat, round: nat, count: nat, rounds: nat, at: nat, size: nat)
    requires source < count && round < rounds && at + count * rounds <= size
    ensures at + source * rounds + round < size
  {
    assert (source + 1) * rounds <= count * rounds;
    assert (source + 1) * rounds == source * rounds + rounds;
  }

  /** The byte of a target-major matrix. */
  function MatrixByte(day: Day, at: nat, count: nat, source: nat, round: nat): byte
    requires source < count && round < day.frame.roundCount
    requires at + count * day.frame.roundCount <= |day.bytes|
  {
    Inside(source, round, count, day.frame.roundCount, at, |day.bytes|);
    day.bytes[at + source * day.frame.roundCount + round]
  }

  function SampleCode(day: Day, source: nat, round: nat): byte
    requires ValidDay(day) && source < |day.macs| && round < |day.timestamps|
  {
    MatrixByte(day, day.frame.samplesOffset, day.frame.targetCount, source, round)
  }

  function StateByte(day: Day, source: nat, round: nat): byte
    requires ValidDay(day) && source < |day.macs| && round < |day.timestamps|
  {
    if day.frame.version == 1 then (if SampleCode(day, source, round) != 0 then 1 else 0)
    else MatrixByte(day, day.frame.stateOffset, day.frame.targetCount, source, round)
  }

  function SnrByte(day: Day, source: nat, round: nat): byte
    requires ValidDay(day) && source < |day.macs| && round < |day.timestamps|
  {
    if day.frame.version == 1 then 0
    else MatrixByte(day, day.frame.snrOffset, day.frame.targetCount, source, round)
  }

  function LatencyOf(day: Day, code: byte): u16
    requires |day.codebook| == 254
  {
    if Replied(code) then day.codebook[code - 1] else 0
  }

  function StationAt(job: Job, day: Day, target: nat, source: nat, round: nat): Observation
    requires job.Valid() && ValidDay(day) && source < |day.macs| && round < |day.timestamps|
    requires job.InRange(day.timestamps[round])
  {
    var code := SampleCode(day, source, round);
    Station(job.CellOf(target, day.timestamps[round]), day.timestamps[round], code,
            LatencyOf(day, code),
            StateByte(day, source, round), SnrByte(day, source, round))
  }

  function RadioAt(job: Job, day: Day, target: nat, source: nat, round: nat): Observation
    requires job.Valid() && ValidDay(day) && day.frame.version == 2
    requires source < |day.apMacs| && round < |day.timestamps| && job.InRange(day.timestamps[round])
  {
    var f := day.frame;
    Radio(job.CellOf(target, day.timestamps[round]),
          MatrixByte(day, if job.bandG then f.air24Offset else f.air5Offset, f.apCount, source, round),
          MatrixByte(day, f.meshSnrOffset, f.apCount, source, round))
  }

  function StationRounds(job: Job, day: Day, target: nat, source: nat, n: nat): seq<Observation>
    requires job.Valid() && ValidDay(day) && source < |day.macs| && n <= |day.timestamps|
  {
    if n == 0 then []
    else
      StationRounds(job, day, target, source, n - 1)
      + if job.InRange(day.timestamps[n - 1]) then [StationAt(job, day, target, source, n - 1)] else []
  }

  function Stations(job: Job, day: Day, n: nat): seq<Observation>
    requires job.Valid() && ValidDay(day) && n <= |day.macs|
  {
    if n == 0 then []
    else
      var target := TargetIndex(job.targetMacs, day.macs[n - 1]);
      Stations(job, day, n - 1)
      + if target.Some? then StationRounds(job, day, target.value, n - 1, |day.timestamps|) else []
  }

  function RadioRounds(job: Job, day: Day, target: nat, source: nat, n: nat): seq<Observation>
    requires job.Valid() && ValidDay(day) && day.frame.version == 2 && source < |day.apMacs| && n <= |day.timestamps|
  {
    if n == 0 then []
    else
      RadioRounds(job, day, target, source, n - 1)
      + if job.InRange(day.timestamps[n - 1]) then [RadioAt(job, day, target, source, n - 1)] else []
  }

  function Radios(job: Job, day: Day, n: nat): seq<Observation>
    requires job.Valid() && ValidDay(day) && day.frame.version == 2 && n <= |day.apMacs|
  {
    if n == 0 then []
    else
      var target := TargetIndex(job.targetMacs, day.apMacs[n - 1]);
      Radios(job, day, n - 1)
      + if target.Some? then RadioRounds(job, day, target.value, n - 1, |day.timestamps|) else []
  }

  function DayObservations(job: Job, day: Day): seq<Observation>
    requires job.Valid() && ValidDay(day)
  {
    Stations(job, day, |day.macs|) + if day.frame.version == 2 then Radios(job, day, |day.apMacs|) else []
  }

  function AllObservations(job: Job, days: seq<Day>): seq<Observation>
    requires job.Valid() && forall day <- days :: ValidDay(day)
  {
    if days == [] then []
    else
      assert days[|days| - 1] in days;
      AllObservations(job, days[..|days| - 1]) + DayObservations(job, days[|days| - 1])
  }

  // ---------------------------------------------------------------- cells

  /** An in-range time of a requested target has a cell, and only that target's
      times in that bucket share it. */
  lemma CellIsExact(job: Job, target: nat, t: int, other: nat, u: int)
    requires job.Valid() && job.InRange(t) && job.InRange(u)
    requires target < |job.targetMacs| && other < |job.targetMacs|
    ensures job.CellOf(target, t) < job.Cells()
    ensures job.CellOf(target, t) == job.CellOf(other, u) <==> target == other && job.Bucket(t) == job.Bucket(u)
  {
    BucketInRange(job, t);
    BucketInRange(job, u);
    CellArithmetic(target, job.Bucket(t), |job.targetMacs|, job.Buckets());
    if target < other {
      SplitsApart(target, other, job.Bucket(t), job.Bucket(u), job.Buckets());
    } else if other < target {
      SplitsApart(other, target, job.Bucket(u), job.Bucket(t), job.Buckets());
    }
  }

  lemma BucketInRange(job: Job, t: int)
    requires job.Valid() && job.InRange(t)
    ensures job.Bucket(t) < job.Buckets()
  {
    var b, span, offset := job.bucketSeconds, job.rangeEnd - job.rangeStart, t - job.rangeStart;
    DivisionGrows(offset, span, b);
  }

  lemma DivisionGrows(offset: nat, span: nat, b: nat)
    requires b > 0 && offset < span
    ensures offset / b < (span + b - 1) / b
  {
    var q := (span + b - 1) / b;
    assert q * b > span - 1 >= offset by {
      assert span + b - 1 == q * b + (span + b - 1) % b;
    }
    var p := offset / b;
    assert p * b <= offset by { assert offset == p * b + offset % b; }
    assert p >= q ==> p * b >= q * b;
  }

  lemma CellArithmetic(target: nat, bucket: nat, targets: nat, buckets: nat)
    requires target < targets && bucket < buckets
    ensures target * buckets + bucket < targets * buckets
  {
    assert (target + 1) * buckets <= targets * buckets;
    assert (target + 1) * buckets == target * buckets + buckets;
  }

  lemma SplitsApart(a: nat, b: nat, x: nat, y: nat, n: nat)
    requires a < b && x < n && y < n
    ensures a * n + x < b * n + y
  {
    assert (a + 1) * n <= b * n;
    assert (a + 1) * n == a * n + n;
  }

  lemma {:induction false} StationRoundsInside(job: Job, day: Day, target: nat, source: nat, n: nat)
    requires job.Valid() && ValidDay(day) && source < |day.macs| && n <= |day.timestamps| && target < |job.targetMacs|
    ensures forall o <- StationRounds(job, day, target, source, n) :: o.cell < job.Cells()
  {
    if n > 0 {
      StationRoundsInside(job, day, target, source, n - 1);
      var t := day.timestamps[n - 1];
      if job.InRange(t) { CellIsExact(job, target, t, target, t); }
    }
  }

  lemma {:induction false} RadioRoundsInside(job: Job, day: Day, target: nat, source: nat, n: nat)
    requires job.Valid() && ValidDay(day) && day.frame.version == 2 && source < |day.apMacs|
    requires n <= |day.timestamps| && target < |job.targetMacs|
    ensures forall o <- RadioRounds(job, day, target, source, n) :: o.cell < job.Cells()
  {
    if n > 0 {
      RadioRoundsInside(job, day, target, source, n - 1);
      var t := day.timestamps[n - 1];
      if job.InRange(t) { CellIsExact(job, target, t, target, t); }
    }
  }

  lemma {:induction false} StationsInside(job: Job, day: Day, n: nat)
    requires job.Valid() && ValidDay(day) && n <= |day.macs|
    ensures forall o <- Stations(job, day, n) :: o.cell < job.Cells()
  {
    if n > 0 {
      StationsInside(job, day, n - 1);
      var target := TargetIndex(job.targetMacs, day.macs[n - 1]);
      if target.Some? { StationRoundsInside(job, day, target.value, n - 1, |day.timestamps|); }
    }
  }

  lemma {:induction false} RadiosInside(job: Job, day: Day, n: nat)
    requires job.Valid() && ValidDay(day) && day.frame.version == 2 && n <= |day.apMacs|
    ensures forall o <- Radios(job, day, n) :: o.cell < job.Cells()
  {
    if n > 0 {
      RadiosInside(job, day, n - 1);
      var target := TargetIndex(job.targetMacs, day.apMacs[n - 1]);
      if target.Some? { RadioRoundsInside(job, day, target.value, n - 1, |day.timestamps|); }
    }
  }

  /** Every observation lands in a cell of the chart. */
  lemma {:induction false} ObservationsInside(job: Job, days: seq<Day>)
    requires job.Valid() && forall day <- days :: ValidDay(day)
    ensures AllInside(AllObservations(job, days), job.Cells())
  {
    if days != [] {
      var last := days[|days| - 1];
      assert last in days;
      ObservationsInside(job, days[..|days| - 1]);
      StationsInside(job, last, |last.macs|);
      if last.frame.version == 2 { RadiosInside(job, last, |last.apMacs|); }
    }
  }

  // ---------------------------------------------------------------- the aggregation loops

  lemma {:induction false} ApplySplit(bins: seq<Bin>, a: seq<Observation>, b: seq<Observation>)
    requires AllInside(a, |bins|) && AllInside(b, |bins|)
    ensures AllInside(a + b, |bins|)
    ensures ApplyAll(bins, a + b) == ApplyAll(ApplyAll(bins, a), b)
    decreases |b|
  {
    if b == [] {
      assert a + b == a;
    } else {
      hide ApplyAll, Update;
      var front, last := b[..|b| - 1], b[|b| - 1];
      assert front + [last] == b && (a + front) + [last] == a + b;
      assert last in b;
      ApplySplit(bins, a, front);
      ApplyNext(bins, a + front, last);
      ApplyNext(ApplyAll(bins, a), front, last);
    }
  }

  /** Appending one observation is one more cell update. */
  lemma ApplyNext(bins: seq<Bin>, obs: seq<Observation>, o: Observation)
    requires AllInside(obs, |bins|) && o.cell < |bins|
    ensures AllInside(obs + [o], |bins|)
    ensures ApplyAll(bins, obs + [o]) == ApplyAll(bins, obs)[o.cell := Update(ApplyAll(bins, obs)[o.cell], o)]
  {
    assert (obs + [o])[..|obs|] == obs;
  }

  lemma ApplyNone(bins: seq<Bin>)
    ensures AllInside([], |bins|) && ApplyAll(bins, []) == bins
  {
  }

  /** One target's rounds of one day. */
  method AddStationRounds(job: Job, day: Day, target: nat, source: nat, bins: array<Bin>)
    requires job.Valid() && ValidDay(day) && source < |day.macs| && target < |job.targetMacs|
    requires bins.Length == job.Cells()
    modifies bins
    ensures AllInside(StationRounds(job, day, target, source, |day.timestamps|), bins.Length)
    ensures bins[..] == ApplyAll(old(bins[..]), StationRounds(job, day, target, source, |day.timestamps|))
  {
    hide Update, ApplyAll, AllInside, StationAt, StateByte, SnrByte, SampleCode, ValidDay;
    ghost var before := bins[..];
    ApplyNone(before);
    for round := 0 to |day.timestamps|
      invariant AllInside(StationRounds(job, day, target, source, round), bins.Length)
      invariant bins[..] == ApplyAll(before, StationRounds(job, day, target, source, round))
    {
      var timestamp := day.timestamps[round];
      if timestamp < job.rangeStart || timestamp >= job.rangeEnd {
        assert StationRounds(job, day, target, source, round + 1) == StationRounds(job, day, target, source, round);
        continue;
      }
      CellIsExact(job, target, timestamp, target, timestamp);
      StationIs(job, day, target, source, round);
      ApplyNext(before, StationRounds(job, day, target, source, round), StationAt(job, day, target, source, round));
      var cell := job.CellOf(target, timestamp);
      var code := SampleCode(day, source, round);
      bins[cell] := CountStation(bins[cell], timestamp, code, LatencyOf(day, code),
                                 StateByte(day, source, round), SnrByte(day, source, round), cell);
    }
  }

  lemma StationIs(job: Job, day: Day, target: nat, source: nat, round: nat)
    requires job.Valid() && ValidDay(day) && source < |day.macs| && round < |day.timestamps|
    requires job.InRange(day.timestamps[round])
    ensures |day.codebook| == 254
    ensures StationAt(job, day, target, source, round) ==
            Station(job.CellOf(target, day.timestamps[round]), day.timestamps[round],
                    SampleCode(day, source, round), LatencyOf(day, SampleCode(day, source, round)),
                    StateByte(day, source, round), SnrByte(day, source, round))
  {
  }

  /** The increments for one station observation. */
  function CountStation(bin: Bin, at: u32, code: byte, latency: u16, state: byte, snr: byte, ghost cell: nat)
    : (next: Bin)
    ensures next == Update(bin, Station(cell, at, code, latency, state, snr))
  {
    var b1 := if state != 0 then bin.(known := (bin.known + 1) % U16) else bin;
    var b2 := if state == 1 then b1.(associated := (b1.associated + 1) % U16, associatedAt := at) else b1;
    var b3 := if code != 0 then b2.(attempts := (b2.attempts + 1) % U32) else b2;
    var b4 := if code != 0 && code != 255
              then b3.(replies := (b3.replies + 1) % U32, latencySum := (b3.latencySum + latency) % U32,
                       latencyMax := if latency > b3.latencyMax then latency else b3.latencyMax)
              else b3;
    if snr != 0
    then b4.(snrSum := (b4.snrSum + (snr - 1)) % U32, snrCount := (b4.snrCount + 1) % U16,
             snrMin := if snr - 1 < b4.snrMin then snr - 1 else b4.snrMin)
    else b4
  }

  method AddStations(job: Job, day: Day, bins: array<Bin>)
    requires job.Valid() && ValidDay(day) && bins.Length == job.Cells()
    modifies bins
    ensures AllInside(Stations(job, day, |day.macs|), bins.Length)
    ensures bins[..] == ApplyAll(old(bins[..]), Stations(job, day, |day.macs|))
  {
    hide ApplyAll, AllInside, StationRounds, ValidDay, TargetIndex;
    ghost var before := bins[..];
    ApplyNone(before);
    for source := 0 to |day.macs|
      invariant AllInside(Stations(job, day, source), bins.Length)
      invariant bins[..] == ApplyAll(before, Stations(job, day, source))
    {
      var target := TargetIndex(job.targetMacs, day.macs[source]);
      if target.None? {
        assert Stations(job, day, source + 1) == Stations(job, day, source);
        continue;
      }
      AddStationRounds(job, day, target.value, source, bins);
      ApplySplit(before, Stations(job, day, source),
                 StationRounds(job, day, target.value, source, |day.timestamps|));
    }
  }

  method AddRadioRounds(job: Job, day: Day, target: nat, source: nat, bins: array<Bin>)
    requires job.Valid() && ValidDay(day) && day.frame.version == 2 && source < |day.apMacs|
    requires target < |job.targetMacs| && bins.Length == job.Cells()
    modifies bins
    ensures AllInside(RadioRounds(job, day, target, source, |day.timestamps|), bins.Length)
    ensures bins[..] == ApplyAll(old(bins[..]), RadioRounds(job, day, target, source, |day.timestamps|))
  {
    hide Update, ApplyAll, AllInside, RadioAt, ValidDay;
    ghost var before := bins[..];
    ApplyNone(before);
    for round := 0 to |day.timestamps|
      invariant AllInside(RadioRounds(job, day, target, source, round), bins.Length)
      invariant bins[..] == ApplyAll(before, RadioRounds(job, day, target, source, round))
    {
      var timestamp := day.timestamps[round];
      if timestamp < job.rangeStart || timestamp >= job.rangeEnd {
        assert RadioRounds(job, day, target, source, round + 1) == RadioRounds(job, day, target, source, round);
        continue;
      }
      CellIsExact(job, target, timestamp, target, timestamp);
      var o := RadioAt(job, day, target, source, round);
      RadioIs(job, day, target, source, round);
      ApplyNext(before, RadioRounds(job, day, target, source, round), o);
      bins[o.cell] := CountRadio(bins[o.cell], o.air, o.mesh, o.cell);
    }
  }

  lemma RadioIs(job: Job, day: Day, target: nat, source: nat, round: nat)
    requires job.Valid() && ValidDay(day) && day.frame.version == 2
    requires source < |day.apMacs| && round < |day.timestamps| && job.InRange(day.timestamps[round])
    ensures RadioAt(job, day, target, source, round).Radio?
    ensures RadioAt(job, day, target, source, round).cell == job.CellOf(target, day.timestamps[round])
  {
  }

  function CountRadio(bin: Bin, air: byte, mesh: byte, ghost cell: nat): (next: Bin)
    ensures next == Update(bin, Radio(cell, air, mesh))
  {
    var b1 := if air != 0
              then bin.(airtimeSum := (bin.airtimeSum + (air - 1)) % U32, airtimeCount := (bin.airtimeCount + 1) % U16)
              else bin;
    if mesh != 0 && mesh - 1 < b1.meshSnrMin then b1.(meshSnrMin := mesh - 1) else b1
  }

  method AddRadios(job: Job, day: Day, bins: array<Bin>)
    requires job.Valid() && ValidDay(day) && day.frame.version == 2 && bins.Length == job.Cells()
    modifies bins
    ensures AllInside(Radios(job, day, |day.apMacs|), bins.Length)
    ensures bins[..] == ApplyAll(old(bins[..]), Radios(job, day, |day.apMacs|))
  {
    hide ApplyAll, AllInside, RadioRounds, ValidDay, TargetIndex;
    ghost var before := bins[..];
    ApplyNone(before);
    for source := 0 to |day.apMacs|
      invariant AllInside(Radios(job, day, source), bins.Length)
      invariant bins[..] == ApplyAll(before, Radios(job, day, source))
    {
      var target := TargetIndex(job.targetMacs, day.apMacs[source]);
      if target.None? {
        assert Radios(job, day, source + 1) == Radios(job, day, source);
        continue;
      }
      AddRadioRounds(job, day, target.value, source, bins);
      ApplySplit(before, Radios(job, day, source),
                 RadioRounds(job, day, target.value, source, |day.timestamps|));
    }
  }

  /** All bins of a chart from all its days. */
  ghost function Chart(job: Job, days: seq<Day>): (bins: seq<Bin>)
    requires job.Valid() && forall day <- days :: ValidDay(day)
  {
    ObservationsInside(job, days);
    ApplyAll(seq(job.Cells(), _ => EMPTY), AllObservations(job, days))
  }

  method BuildHistory(job: Job, days: seq<Day>) returns (bins: array<Bin>)
    requires job.Valid() && forall day <- days :: ValidDay(day)
    ensures fresh(bins) && bins[..] == Chart(job, days)
  {
    bins := new Bin[job.Cells()](_ => EMPTY);
    hide ApplyAll, AllInside, ValidDay, Stations, Radios;
    ghost var empty := seq(job.Cells(), _ => EMPTY);
    assert bins[..] == empty;
    ApplyNone(empty);
    for i := 0 to |days|
      invariant AllInside(AllObservations(job, days[..i]), bins.Length)
      invariant bins[..] == ApplyAll(empty, AllObservations(job, days[..i]))
    {
      assert days[..i + 1][..i] == days[..i];
      assert days[i] in days;
      ghost var all := AllObservations(job, days[..i]);
      AddDay(job, days[i], bins);
      ApplySplit(empty, all, DayObservations(job, days[i]));
    }
    assert days[..|days|] == days;
  }

  method AddDay(job: Job, day: Day, bins: array<Bin>)
    requires job.Valid() && ValidDay(day) && bins.Length == job.Cells()
    modifies bins
    ensures AllInside(DayObservations(job, day), bins.Length)
    ensures bins[..] == ApplyAll(old(bins[..]), DayObservations(job, day))
  {
    hide ApplyAll, AllInside, ValidDay, Stations, Radios;
    ghost var before, stations := bins[..], Stations(job, day, |day.macs|);
    AddStations(job, day, bins);
    if day.frame.version == 2 {
      AddRadios(job, day, bins);
      ApplySplit(before, stations, Radios(job, day, |day.apMacs|));
    } else {
      assert stations + [] == stations;
    }
  }
}
