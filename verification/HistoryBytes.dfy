/** Where a matrix byte lands in a chart, and what it says, in terms of the buffer. */
module HistoryBytes {
  import opened Wrappers
  import opened Bytes
  import opened DayParser
  import opened History

  // ---------------------------------------------------------------- cells

  /** A time of an address lands in a target's bucket: the target is the last one with that
      address, and the time is in the range and within the bucket's seconds. */
  ghost predicate LandsAt(job: Job, mac: string, t: int, target: nat, bucket: nat) {
    && target < |job.targetMacs| && job.targetMacs[target] == mac
    && (forall later :: target < later < |job.targetMacs| ==> job.targetMacs[later] != mac)
    && job.rangeStart <= t < job.rangeEnd
    && bucket * job.bucketSeconds <= t - job.rangeStart < (bucket + 1) * job.bucketSeconds
  }

  /** The cell of a target's bucket in the flat arrays. */
  function CellAt(job: Job, target: nat, bucket: nat): nat
    requires job.Valid()
  {
    target * job.Buckets() + bucket
  }

  /** There are just enough buckets for the range. */
  lemma BucketsCover(job: Job)
    requires job.Valid()
    ensures (job.Buckets() - 1) * job.bucketSeconds < job.rangeEnd - job.rangeStart
    ensures job.rangeEnd - job.rangeStart <= job.Buckets() * job.bucketSeconds
  {
    var b, span := job.bucketSeconds, job.rangeEnd - job.rangeStart;
    var q := (span + b - 1) / b;
    assert span + b - 1 == b * q + (span + b - 1) % b;
    assert (q - 1) * b == q * b - b;
  }

  lemma BucketMeans(offset: nat, length: nat, bucket: nat)
    requires length > 0
    ensures offset / length == bucket <==> bucket * length <= offset < (bucket + 1) * length
  {
    var q := offset / length;
    assert offset == length * q + offset % length;
    assert (bucket + 1) * length == bucket * length + length;
    if q < bucket {
      assert (q + 1) * length <= bucket * length;
      assert (q + 1) * length == q * length + length;
    } else if q > bucket {
      assert (bucket + 1) * length <= q * length;
    }
  }

  lemma {:induction false} LastIndex(macs: seq<string>, mac: string, target: nat)
    ensures TargetIndex(macs, mac) == Some(target) <==>
              && target < |macs| && macs[target] == mac
              && forall later :: target < later < |macs| ==> macs[later] != mac
  {
    if macs != [] && macs[|macs| - 1] != mac {
      LastIndex(macs[..|macs| - 1], mac, target);
    }
  }

  /** The index arithmetic of the loops says the same. */
  lemma LandsExactly(job: Job, mac: string, t: int, target: nat, bucket: nat)
    requires job.Valid() && target < |job.targetMacs| && bucket < job.Buckets()
    ensures var index := TargetIndex(job.targetMacs, mac);
            LandsAt(job, mac, t, target, bucket) <==>
            index.Some? && job.InRange(t) && job.CellOf(index.value, t) == CellAt(job, target, bucket)
  {
    LastIndex(job.targetMacs, mac, target);
    if job.InRange(t) {
      BucketMeans(t - job.rangeStart, job.bucketSeconds, bucket);
      BucketInRange(job, t);
      var index := TargetIndex(job.targetMacs, mac);
      if index.Some? {
        SameCell(index.value, job.Bucket(t), target, bucket, job.Buckets());
      }
    }
  }

  lemma SameCell(a: nat, x: nat, b: nat, y: nat, n: nat)
    requires x < n && y < n
    ensures a * n + x == b * n + y <==> a == b && x == y
  {
    if a < b {
      SplitsApart(a, b, x, y, n);
    } else if b < a {
      SplitsApart(b, a, y, x, n);
    }
  }

  // ---------------------------------------------------------------- bytes

  /** The byte of a target-major matrix that starts at `offset`. */
  function ByteAt(day: Day, offset: nat, sources: nat, s: nat, r: nat): byte
    requires s < sources && r < |day.timestamps| && offset + sources * |day.timestamps| <= |day.bytes|
  {
    Inside(s, r, sources, |day.timestamps|, offset, |day.bytes|);
    day.bytes[offset + s * |day.timestamps| + r]
  }

  function Sample(day: Day, s: nat, r: nat): byte
    requires ValidDay(day) && s < |day.macs| && r < |day.timestamps|
  {
    ByteAt(day, day.frame.samplesOffset, |day.macs|, s, r)
  }

  /** Files of the first format have no states: an attempt stands for one. */
  function State(day: Day, s: nat, r: nat): byte
    requires ValidDay(day) && s < |day.macs| && r < |day.timestamps|
  {
    if day.frame.version == 2 then ByteAt(day, day.frame.stateOffset, |day.macs|, s, r)
    else if Sample(day, s, r) == 0 then 0
    else 1
  }

  /** And no signal strengths. */
  function Signal(day: Day, s: nat, r: nat): byte
    requires ValidDay(day) && s < |day.macs| && r < |day.timestamps|
  {
    if day.frame.version == 2 then ByteAt(day, day.frame.snrOffset, |day.macs|, s, r) else 0
  }

  function Air(job: Job, day: Day, s: nat, r: nat): byte
    requires ValidDay(day) && day.frame.version == 2 && s < |day.apMacs| && r < |day.timestamps|
  {
    if job.bandG then ByteAt(day, day.frame.air24Offset, |day.apMacs|, s, r)
    else ByteAt(day, day.frame.air5Offset, |day.apMacs|, s, r)
  }

  function Mesh(day: Day, s: nat, r: nat): byte
    requires ValidDay(day) && day.frame.version == 2 && s < |day.apMacs| && r < |day.timestamps|
  {
    ByteAt(day, day.frame.meshSnrOffset, |day.apMacs|, s, r)
  }

  /** A sample byte of a reply names a codebook entry, in milliseconds. */
  function Milliseconds(day: Day, s: nat, r: nat): nat
    requires ValidDay(day) && s < |day.macs| && r < |day.timestamps|
    requires 1 <= Sample(day, s, r) <= 254
  {
    day.codebook[Sample(day, s, r) - 1]
  }

  lemma StationBytes(job: Job, day: Day, target: nat, s: nat, r: nat)
    requires job.Valid() && ValidDay(day) && s < |day.macs| && r < |day.timestamps| && job.InRange(day.timestamps[r])
    ensures var o := StationAt(job, day, target, s, r);
            && o.Station? && o.code == Sample(day, s, r) && o.state == State(day, s, r) && o.snr == Signal(day, s, r)
            && o.at == day.timestamps[r] && o.cell == job.CellOf(target, day.timestamps[r])
            && (1 <= Sample(day, s, r) <= 254 ==> o.latency == Milliseconds(day, s, r))
  {
  }

  lemma RadioBytes(job: Job, day: Day, target: nat, s: nat, r: nat)
    requires job.Valid() && ValidDay(day) && day.frame.version == 2
    requires s < |day.apMacs| && r < |day.timestamps| && job.InRange(day.timestamps[r])
    ensures var o := RadioAt(job, day, target, s, r);
            && o.Radio? && o.air == Air(job, day, s, r) && o.mesh == Mesh(day, s, r)
            && o.cell == job.CellOf(target, day.timestamps[r])
  {
  }
}
