/** Which files the browser accepts, field by field. */
module DayFields {
  import opened Wrappers
  import opened Bytes
  import opened MacAddress
  import opened DayFile
  import opened DayParser

  function U16At(bytes: seq<byte>, at: nat): nat
    requires at + 2 <= |bytes|
  {
    bytes[at] as int + 256 * bytes[at + 1] as int
  }

  function U32At(bytes: seq<byte>, at: nat): nat
    requires at + 4 <= |bytes|
  {
    U16At(bytes, at) + 65536 * U16At(bytes, at + 2)
  }

  /** One text comes before another: where they first differ, it ends or has the lower character. */
  ghost predicate Before(a: string, b: string) {
    exists k :: 0 <= k <= |a| && k < |b| && a[..k] == b[..k] && (k == |a| || a[k] < b[k])
  }

  lemma {:induction false} TextLessExactly(a: string, b: string)
    ensures TextLess(a, b) <==> Before(a, b)
  {
    if b == "" || a == "" {
      assert b != "" ==> a[..0] == b[..0];
    } else {
      TextLessExactly(a[1..], b[1..]);
      if a[0] < b[0] {
        assert a[..0] == b[..0];
      }
      if a[0] == b[0] && Before(a[1..], b[1..]) {
        var k :| 0 <= k <= |a[1..]| && k < |b[1..]| && a[1..][..k] == b[1..][..k]
                 && (k == |a[1..]| || a[1..][k] < b[1..][k]);
        LongerPrefix(a, b, k);
      }
      if k :| 0 < k <= |a| && k < |b| && a[..k] == b[..k] && (k == |a| || a[k] < b[k]) {
        LongerPrefix(a, b, k - 1);
        assert a[0] == a[..k][0] == b[..k][0];
      }
    }
  }

  lemma LongerPrefix(a: string, b: string, k: nat)
    requires a != "" && b != "" && k < |a| && k < |b|
    ensures a[..k + 1] == b[..k + 1] <==> a[0] == b[0] && a[1..][..k] == b[1..][..k]
  {
    assert a[..k + 1] == [a[0]] + a[1..][..k] && b[..k + 1] == [b[0]] + b[1..][..k];
  }

  // ---------------------------------------------------------------- the header

  /** The offsets of the second format's telemetry. */
  predicate TelemetryFits(bytes: seq<byte>)
    requires |bytes| >= 576
  {
    var matrix, apMatrix := U32At(bytes, 24) * U32At(bytes, 28), U32At(bytes, 24) * U32At(bytes, 60);
    && U32At(bytes, 52) == U32At(bytes, 44) + matrix && U32At(bytes, 56) == U32At(bytes, 52) + matrix
    && U32At(bytes, 64) >= U32At(bytes, 56) + matrix && U32At(bytes, 68) >= U32At(bytes, 64) + 6 * U32At(bytes, 60)
    && U32At(bytes, 72) == U32At(bytes, 68) + apMatrix && U32At(bytes, 76) == U32At(bytes, 72) + apMatrix
    && U32At(bytes, 80) == U32At(bytes, 76) + apMatrix && U32At(bytes, 80) == |bytes|
  }

  /** "ZDPMDAY", a format of 1 or 2 with its header size and flags, 254 codes, a day of 86400
      seconds, and sections that follow each other and fill the file. */
  predicate HeaderFits(bytes: seq<byte>) {
    && |bytes| >= 576 && bytes[..8] == [0x5A, 0x44, 0x50, 0x4D, 0x44, 0x41, 0x59, 0]
    && U16At(bytes, 34) == 254 && U32At(bytes, 20) == U32At(bytes, 16) + 86400
    && var size := U16At(bytes, 10);
       && (|| (U16At(bytes, 8) == 1 && size == 576 && U32At(bytes, 12) == 1
               && U32At(bytes, 44) + U32At(bytes, 24) * U32At(bytes, 28) == |bytes|)
           || (U16At(bytes, 8) == 2 && size == 640 && U32At(bytes, 12) == 31 && TelemetryFits(bytes)))
       && U32At(bytes, 36) == size && U32At(bytes, 40) == size + 4 * U32At(bytes, 24)
       && U32At(bytes, 44) >= U32At(bytes, 40) + 6 * U32At(bytes, 28)
  }

  lemma FieldIs(bytes: seq<byte>)
    ensures forall at: nat :: at + 2 <= |bytes| ==> ReadLe16(bytes, at) == U16At(bytes, at)
    ensures forall at: nat :: at + 4 <= |bytes| ==> ReadLe32(bytes, at) == U32At(bytes, at)
  {
  }

  lemma FramesExactly(bytes: seq<byte>)
    ensures FrameSpec(bytes).Success? <==> HeaderFits(bytes)
    ensures HeaderFits(bytes) ==>
              var f := FrameSpec(bytes).value;
              && f.version == U16At(bytes, 8) && f.start == U32At(bytes, 16) && f.end == U32At(bytes, 20)
              && f.roundCount == U32At(bytes, 24) && f.targetCount == U32At(bytes, 28)
              && f.timeout == U16At(bytes, 32) && f.generation == U32At(bytes, 48)
              && f.samplesOffset == U32At(bytes, 44)
              && (f.version == 1 ==>
                   && f.snrOffset == f.stateOffset == f.apCount == f.apMacsOffset == 0
                   && f.air24Offset == f.air5Offset == f.meshSnrOffset == 0)
              && (f.version == 2 ==>
                   && f.snrOffset == U32At(bytes, 52) && f.stateOffset == U32At(bytes, 56)
                   && f.apCount == U32At(bytes, 60) && f.apMacsOffset == U32At(bytes, 64)
                   && f.air24Offset == U32At(bytes, 68) && f.air5Offset == U32At(bytes, 72)
                   && f.meshSnrOffset == U32At(bytes, 76))
  {
    hide ReadLe16, ReadLe32, U16At, U32At;
    FieldIs(bytes);
  }

  // ---------------------------------------------------------------- the lists

  function CodeAt(bytes: seq<byte>, base: nat, i: nat): nat
    requires base + 2 * i + 2 <= |bytes|
  {
    U16At(bytes, base + 2 * i)
  }

  function TimeAt(bytes: seq<byte>, base: nat, i: nat): nat
    requires base + 4 * i + 4 <= |bytes|
  {
    U32At(bytes, base + 4 * i)
  }

  function MacAt(bytes: seq<byte>, base: nat, i: nat): string
    requires base + 6 * i + 6 <= |bytes|
  {
    MacText(bytes[base + 6 * i..base + 6 * i + 6])
  }

  /** Codes strictly ascend from above zero up to a limit. */
  predicate CodesFit(bytes: seq<byte>, base: nat, limit: nat)
    requires base + 508 <= |bytes|
  {
    && (forall i :: 0 <= i < 254 ==> 0 < CodeAt(bytes, base, i) <= limit)
    && forall i :: 0 < i < 254 ==> CodeAt(bytes, base, i - 1) < CodeAt(bytes, base, i)
  }

  /** Times strictly ascend within a period. */
  predicate TimesFit(bytes: seq<byte>, base: nat, count: nat, start: nat, end: nat)
    requires base + 4 * count <= |bytes|
  {
    && (forall i :: 0 <= i < count ==> start <= TimeAt(bytes, base, i) < end)
    && forall i :: 0 < i < count ==> TimeAt(bytes, base, i - 1) < TimeAt(bytes, base, i)
  }

  /** Addresses strictly ascend as texts. */
  ghost predicate MacsFit(bytes: seq<byte>, base: nat, count: nat)
    requires base + 6 * count <= |bytes|
  {
    forall i :: 0 < i < count ==> Before(MacAt(bytes, base, i - 1), MacAt(bytes, base, i))
  }

  lemma ListsInside(bytes: seq<byte>)
    requires HeaderFits(bytes)
    ensures U16At(bytes, 10) + 4 * U32At(bytes, 24) <= |bytes| && 576 <= U16At(bytes, 10)
    ensures U32At(bytes, 40) + 6 * U32At(bytes, 28) <= |bytes|
    ensures U16At(bytes, 8) == 1 || (U16At(bytes, 8) == 2 && 640 <= U16At(bytes, 10))
    ensures U16At(bytes, 8) == 2 ==> U32At(bytes, 64) + 6 * U32At(bytes, 60) <= |bytes|
  {
    hide U16At, U32At;
    assert U32At(bytes, 24) * U32At(bytes, 28) >= 0;
    assert U32At(bytes, 24) * U32At(bytes, 60) >= 0;
  }

  ghost predicate ListsFit(bytes: seq<byte>)
    requires HeaderFits(bytes)
  {
    ListsInside(bytes);
    && CodesFit(bytes, if U16At(bytes, 8) == 1 then 64 else 132, U16At(bytes, 32))
    && TimesFit(bytes, U16At(bytes, 10), U32At(bytes, 24), U32At(bytes, 16), U32At(bytes, 20))
    && MacsFit(bytes, U32At(bytes, 40), U32At(bytes, 28))
    && (U16At(bytes, 8) == 2 ==> MacsFit(bytes, U32At(bytes, 64), U32At(bytes, 60)))
  }

  lemma GoodCodesFit(bytes: seq<byte>, base: nat, limit: u16)
    requires base + 508 <= |bytes|
    ensures GoodCodes(Codes(bytes, base), limit) <==> CodesFit(bytes, base, limit)
    ensures forall i :: 0 <= i < 254 ==> Codes(bytes, base)[i] == CodeAt(bytes, base, i)
  {
    hide ReadLe16, U16At;
    FieldIs(bytes);
    var codes := Codes(bytes, base);
    forall i | 0 <= i < 254
      ensures codes[i] == CodeAt(bytes, base, i)
    {
      assert base + i * 2 == base + 2 * i;
    }
    hide CodeAt, Codes;
    if CodesFit(bytes, base, limit) {
      forall i | 0 <= i < 254
        ensures codes[i] > (if i == 0 then 0 else codes[i - 1]) && codes[i] <= limit
      {
        assert 0 < CodeAt(bytes, base, i) <= limit;
      }
    }
    if GoodCodes(codes, limit) {
      forall i | 0 <= i < 254
        ensures 0 < CodeAt(bytes, base, i) <= limit && (i > 0 ==> CodeAt(bytes, base, i - 1) < CodeAt(bytes, base, i))
      {
        assert codes[i] > (if i == 0 then 0 else codes[i - 1]) && codes[i] <= limit;
      }
    }
  }

  lemma GoodTimesFit(bytes: seq<byte>, base: nat, count: nat, start: u32, end: u32)
    requires base + 4 * count <= |bytes|
    ensures GoodTimes(Timestamps(bytes, base, count), start, end) <==> TimesFit(bytes, base, count, start, end)
    ensures forall i :: 0 <= i < count ==> Timestamps(bytes, base, count)[i] == TimeAt(bytes, base, i)
  {
    hide ReadLe32, U32At;
    FieldIs(bytes);
    var times := Timestamps(bytes, base, count);
    forall i | 0 <= i < count
      ensures times[i] == TimeAt(bytes, base, i)
    {
      assert base + i * 4 == base + 4 * i;
    }
    hide TimeAt, Timestamps;
  }

  lemma OrderedMacsFit(bytes: seq<byte>, base: nat, count: nat)
    requires base + 6 * count <= |bytes|
    ensures InTextOrder(MacTexts(bytes, base, count)) <==> MacsFit(bytes, base, count)
    ensures forall i :: 0 <= i < count ==> MacTexts(bytes, base, count)[i] == MacAt(bytes, base, i)
  {
    hide MacText, TextLess, Before;
    var macs := MacTexts(bytes, base, count);
    forall i | 0 <= i < count
      ensures macs[i] == MacAt(bytes, base, i)
    {
      assert base + i * 6 == base + 6 * i;
    }
    hide MacAt, MacTexts;
    forall i | 0 < i < count
      ensures TextLess(macs[i - 1], macs[i]) <==> Before(MacAt(bytes, base, i - 1), MacAt(bytes, base, i))
    {
      TextLessExactly(macs[i - 1], macs[i]);
    }
  }

  /** A parsed day holds the buffer and the lists it contains. */
  predicate HoldsLists(bytes: seq<byte>, day: Day)
    requires HeaderFits(bytes)
  {
    ListsInside(bytes);
    var rounds, targets := U32At(bytes, 24), U32At(bytes, 28);
    var aps := if U16At(bytes, 8) == 2 then U32At(bytes, 60) else 0;
    && day.bytes == bytes && FrameSpec(bytes) == Success(day.frame)
    && |day.codebook| == 254 && |day.timestamps| == rounds && |day.macs| == targets && |day.apMacs| == aps
    && (forall i :: 0 <= i < 254 ==>
         day.codebook[i] == CodeAt(bytes, if U16At(bytes, 8) == 1 then 64 else 132, i))
    && (forall i :: 0 <= i < rounds ==> day.timestamps[i] == TimeAt(bytes, U16At(bytes, 10), i))
    && (forall i :: 0 <= i < targets ==> day.macs[i] == MacAt(bytes, U32At(bytes, 40), i))
    && (forall i :: 0 <= i < aps ==> day.apMacs[i] == MacAt(bytes, U32At(bytes, 64), i))
  }

  /** The parser accepts exactly the files whose header and lists fit, and yields these lists. */
  lemma ParsesExactly(bytes: seq<byte>)
    ensures ParseDaySpec(bytes).Success? <==> HeaderFits(bytes) && ListsFit(bytes)
    ensures ParseDaySpec(bytes).Success? ==> HeaderFits(bytes) && HoldsLists(bytes, ParseDaySpec(bytes).value)
  {
    hide FrameSpec, HeaderFits, U16At, U32At, GoodCodes, GoodTimes, InTextOrder, Codes, Timestamps, MacTexts;
    hide CodesFit, TimesFit, MacsFit, MacText, CodeAt, TimeAt, MacAt;
    FramesExactly(bytes);
    if HeaderFits(bytes) {
      var f := FrameSpec(bytes).value;
      ListsInside(bytes);
      FrameOffsets(bytes);
      GoodCodesFit(bytes, f.CodebookOffset(), f.timeout);
      GoodTimesFit(bytes, f.timestampsOffset, f.roundCount, f.start, f.end);
      OrderedMacsFit(bytes, f.macsOffset, f.targetCount);
      if f.version == 2 { OrderedMacsFit(bytes, f.apMacsOffset, f.apCount); }
      NothingToOrder();
    }
  }

  lemma NothingToOrder()
    ensures InTextOrder([])
  {
  }

  lemma FrameOffsets(bytes: seq<byte>)
    requires HeaderFits(bytes)
    ensures FrameSpec(bytes).Success?
    ensures var f := FrameSpec(bytes).value;
            && f.CodebookOffset() == (if U16At(bytes, 8) == 1 then 64 else 132) && f.CodebookOffset() + 508 <= |bytes|
            && f.timestampsOffset == U16At(bytes, 10) && f.macsOffset == U32At(bytes, 40)
  {
    hide ReadLe16, ReadLe32, U16At, U32At;
    FieldIs(bytes);
    ListsInside(bytes);
  }
}
