/** Airtime rates from the raw counters of an access point radio. */
module Airtime {
  import opened Wrappers
  import opened Bytes

  /** One stored radio sample; the counters may be null. */
  datatype RadioRow = RadioRow(
    observedAt: u32, radioId: int, radioType: Option<string>, total: Option<int>, samples: Option<int>)

  function Contains(text: string, part: string): bool {
    |part| <= |text| && (part <= text || (text != "" && Contains(text[1..], part)))
  }

  predicate IsFiveGhz(row: RadioRow) {
    || (row.radioType.Some?
        && (Contains(row.radioType.value, "11a") || Contains(row.radioType.value, "ac")
            || Contains(row.radioType.value, "5G")))
    || row.radioId == 1
  }

  predicate Usable(row: RadioRow, five: bool) {
    IsFiveGhz(row) == five && row.total.Some? && row.samples.Some? && row.samples.value > 0
  }

  /** The poll that the next rate is measured against, and the rate last published. */
  datatype Base = NoBase | Base(total: int, samples: int, last: int)

  /** Integer division of C, which truncates toward zero. */
  function TruncDiv(a: int, b: int): int
    requires b > 0
  {
    if a >= 0 then a / b else -((-a) / b)
  }

  predicate Restarts(base: Base, row: RadioRow, five: bool)
    requires Usable(row, five)
  {
    base.NoBase? || row.samples.value < base.samples
  }

  predicate Held(base: Base, row: RadioRow, five: bool) {
    Usable(row, five) && base.Base? && row.samples.value == base.samples
  }

  /** The samples and the counter growth that one row accounts for. */
  function SampleDelta(base: Base, row: RadioRow, five: bool): (d: nat)
    requires Usable(row, five)
    ensures d == 0 <==> Held(base, row, five)
  {
    if Restarts(base, row, five) then row.samples.value else row.samples.value - base.samples
  }

  function TotalDelta(base: Base, row: RadioRow, five: bool): int
    requires Usable(row, five)
  {
    if Restarts(base, row, five) then row.total.value
    else if Held(base, row, five) then 0
    else row.total.value - base.total
  }

  function Rate(base: Base, row: RadioRow, five: bool): int
    requires Usable(row, five)
  {
    if Held(base, row, five) then base.last
    else
      var d := SampleDelta(base, row, five);
      TruncDiv(TotalDelta(base, row, five) + d / 2, d)
  }

  function Advance(base: Base, row: RadioRow, five: bool): Base {
    if !Usable(row, five) || Held(base, row, five) then base
    else Base(row.total.value, row.samples.value, Rate(base, row, five))
  }

  function BaseAfter(base: Base, rows: seq<RadioRow>, five: bool): Base
    decreases |rows|
  {
    if rows == [] then base else BaseAfter(Advance(base, rows[0], five), rows[1..], five)
  }

  function RateOrNone(base: Base, row: RadioRow, five: bool): Option<int> {
    if Usable(row, five) then Some(Rate(base, row, five)) else None
  }

  /** What each row publishes, in order; an unusable row publishes nothing. */
  function Rates(base: Base, rows: seq<RadioRow>, five: bool): (rates: seq<Option<int>>)
    ensures |rates| == |rows|
    decreases |rows|
  {
    if rows == [] then []
    else [RateOrNone(base, rows[0], five)] + Rates(Advance(base, rows[0], five), rows[1..], five)
  }

  lemma {:induction false} RatesSplit(base: Base, a: seq<RadioRow>, b: seq<RadioRow>, five: bool)
    ensures Rates(base, a + b, five) == Rates(base, a, five) + Rates(BaseAfter(base, a, five), b, five)
    ensures BaseAfter(base, a + b, five) == BaseAfter(BaseAfter(base, a, five), b, five)
    decreases |a|
  {
    if a == [] {
      assert a + b == b;
    } else {
      assert (a + b)[1..] == a[1..] + b;
      RatesSplit(Advance(base, a[0], five), a[1..], b, five);
    }
  }

  lemma RatesOneMore(rows: seq<RadioRow>, i: nat, five: bool)
    requires i < |rows|
    ensures Rates(NoBase, rows[..i + 1], five) ==
            Rates(NoBase, rows[..i], five) + [RateOrNone(BaseAfter(NoBase, rows[..i], five), rows[i], five)]
    ensures BaseAfter(NoBase, rows[..i + 1], five) == Advance(BaseAfter(NoBase, rows[..i], five), rows[i], five)
  {
    hide Rate, Usable;
    var one, base := [rows[i]], BaseAfter(NoBase, rows[..i], five);
    assert rows[..i + 1] == rows[..i] + one;
    RatesSplit(NoBase, rows[..i], one, five);
    assert one[1..] == [];
    assert Rates(base, one, five) == [RateOrNone(base, rows[i], five)];
    assert BaseAfter(base, one, five) == Advance(base, rows[i], five);
  }

  /** The loop over the rows of one access point and one band. */
  method PublishRates(rows: seq<RadioRow>, five: bool) returns (rates: seq<Option<int>>)
    ensures rates == Rates(NoBase, rows, five)
  {
    rates := [];
    var haveBase, baseTotal, baseSamples, lastAverage := false, 0, 0, 0;
    for i := 0 to |rows|
      invariant rates == Rates(NoBase, rows[..i], five)
      invariant BaseAfter(NoBase, rows[..i], five) ==
                if haveBase then Base(baseTotal, baseSamples, lastAverage) else NoBase
    {
      RatesOneMore(rows, i, five);
      if IsFiveGhz(rows[i]) != five || rows[i].total.None? || rows[i].samples.None? || rows[i].samples.value <= 0 {
        rates := rates + [None];
      } else {
        var total, samples := rows[i].total.value, rows[i].samples.value;
        var average;
        if !haveBase || samples < baseSamples {
          average := TruncDiv(total + samples / 2, samples);
          baseTotal, baseSamples, haveBase := total, samples, true;
        } else if samples == baseSamples {
          average := lastAverage;
        } else {
          var deltaTotal, deltaSamples := total - baseTotal, samples - baseSamples;
          average := TruncDiv(deltaTotal + deltaSamples / 2, deltaSamples);
          baseTotal, baseSamples := total, samples;
        }
        lastAverage := average;
        rates := rates + [Some(average)];
      }
    }
    assert rows[..|rows|] == rows;
  }

  // ---------------------------------------------------------------- the rate of one poll

  /** A poll of the band with both counters, the sample count being positive; the band is
      5 GHz for the second radio and for types that name it. */
  ghost predicate Polls(row: RadioRow, five: bool) {
    && row.total.Some? && row.samples.Some? && row.samples.value > 0
    && (five <==> row.radioId == 1 || (row.radioType.Some? && Names5GHz(row.radioType.value)))
  }

  ghost predicate Names5GHz(text: string) {
    Occurs("11a", text) || Occurs("ac", text) || Occurs("5G", text)
  }

  ghost predicate Occurs(part: string, text: string) {
    exists k: nat :: OccursAt(part, text, k)
  }

  predicate OccursAt(part: string, text: string, k: nat) {
    k + |part| <= |text| && text[k..k + |part|] == part
  }

  lemma {:induction false} ContainsExactly(text: string, part: string)
    ensures Contains(text, part) <==> Occurs(part, text)
  {
    if part <= text {
      assert OccursAt(part, text, 0);
    } else if text != "" {
      ContainsExactly(text[1..], part);
      if k: nat :| OccursAt(part, text[1..], k) {
        assert OccursAt(part, text, k + 1);
      }
      if k: nat :| OccursAt(part, text, k) {
        assert k > 0 ==> OccursAt(part, text[1..], k - 1);
      }
    }
  }

  lemma UsableIsPoll(row: RadioRow, five: bool)
    ensures Usable(row, five) <==> Polls(row, five)
  {
    hide Contains, Occurs;
    if row.radioType.Some? {
      ContainsExactly(row.radioType.value, "11a");
      ContainsExactly(row.radioType.value, "ac");
      ContainsExactly(row.radioType.value, "5G");
    }
  }

  /** `rate` is `growth / samples` rounded half up when the growth is not negative, and in
      general half of the samples added and the quotient cut off. */
  predicate IsQuotient(rate: int, growth: int, samples: int) {
    var n := growth + samples / 2;
    if n >= 0 then rate * samples <= n < (rate + 1) * samples else (rate - 1) * samples < n <= rate * samples
  }

  lemma QuotientIs(growth: int, samples: int)
    requires samples > 0
    ensures IsQuotient(TruncDiv(growth + samples / 2, samples), growth, samples)
  {
    var n := growth + samples / 2;
    var q := if n >= 0 then n / samples else (-n) / samples;
    var r := if n >= 0 then n % samples else (-n) % samples;
    assert (if n >= 0 then n else -n) == samples * q + r;
    assert (q + 1) * samples == samples * q + samples;
    assert n < 0 ==> (-q - 1) * samples == -(samples * q) - samples;
  }

  /** The last poll before the first `n` rows end. */
  ghost predicate LastPoll(rows: seq<RadioRow>, n: nat, five: bool, p: nat) {
    && p < n <= |rows| && Polls(rows[p], five)
    && forall k :: p < k < n ==> !Polls(rows[k], five)
  }

  ghost predicate NoPoll(rows: seq<RadioRow>, n: nat, five: bool)
    requires n <= |rows|
  {
    forall k :: 0 <= k < n ==> !Polls(rows[k], five)
  }

  /** The poll at which the sample count of poll `p` was first seen. */
  ghost predicate FirstOfTick(rows: seq<RadioRow>, p: nat, five: bool, j: nat)
    requires p < |rows|
  {
    && j <= p && Polls(rows[j], five)
    && (forall k :: j <= k <= p && Polls(rows[k], five) ==> rows[k].samples == rows[p].samples)
    && forall q: nat :: LastPoll(rows, j, five, q) ==> rows[q].samples != rows[j].samples
  }

  /** What the loop carries after `n` rows: nothing before the first poll, and then the
      counters of the tick that the last poll saw. */
  ghost predicate TickAt(rows: seq<RadioRow>, n: nat, five: bool, base: Base, p: nat, j: nat)
    requires n <= |rows|
  {
    if NoPoll(rows, n, five) then base.NoBase?
    else
      && base.Base? && LastPoll(rows, n, five, p) && FirstOfTick(rows, p, five, j)
      && rows[j].total == Some(base.total) && rows[p].samples == Some(base.samples)
  }

  lemma TickRests(rows: seq<RadioRow>, n: nat, five: bool, base: Base, p: nat, j: nat)
    requires n < |rows| && TickAt(rows, n, five, base, p, j) && !Polls(rows[n], five)
    ensures TickAt(rows, n + 1, five, base, p, j)
  {
    hide Polls, FirstOfTick;
    assert NoPoll(rows, n + 1, five) <==> NoPoll(rows, n, five);
  }

  lemma TickIsHeld(rows: seq<RadioRow>, n: nat, five: bool, base: Base, p: nat, j: nat)
    requires n < |rows| && TickAt(rows, n, five, base, p, j) && Polls(rows[n], five)
    requires base.Base? && rows[n].samples == Some(base.samples)
    ensures TickAt(rows, n + 1, five, base, n, j)
  {
    hide Polls;
    assert !NoPoll(rows, n + 1, five);
  }

  lemma TickStarts(rows: seq<RadioRow>, n: nat, five: bool, base: Base, p: nat, j: nat, next: Base)
    requires n < |rows| && TickAt(rows, n, five, base, p, j) && Polls(rows[n], five)
    requires base.Base? ==> rows[n].samples != Some(base.samples)
    requires next.Base? && rows[n].total == Some(next.total) && rows[n].samples == Some(next.samples)
    ensures TickAt(rows, n + 1, five, next, n, n)
  {
    hide Polls;
    assert !NoPoll(rows, n + 1, five);
    forall q: nat | LastPoll(rows, n, five, q)
      ensures rows[q].samples != rows[n].samples
    {
      assert q == p;
    }
  }

  lemma {:induction false} BaseIsTick(rows: seq<RadioRow>, n: nat, five: bool) returns (p: nat, j: nat)
    requires n <= |rows|
    ensures TickAt(rows, n, five, BaseAfter(NoBase, rows[..n], five), p, j)
  {
    hide Rate, Polls, Usable, TickAt, BaseAfter;
    p, j := 0, 0;
    if n > 0 {
      p, j := BaseIsTick(rows, n - 1, five);
      RatesOneMore(rows, n - 1, five);
      UsableIsPoll(rows[n - 1], five);
      var base, next := BaseAfter(NoBase, rows[..n - 1], five), BaseAfter(NoBase, rows[..n], five);
      if !Usable(rows[n - 1], five) {
        TickRests(rows, n - 1, five, base, p, j);
      } else {
        PollCounters(rows[n - 1], five);
        if Held(base, rows[n - 1], five) {
          TickIsHeld(rows, n - 1, five, base, p, j);
          p := n - 1;
        } else {
          TickStarts(rows, n - 1, five, base, p, j, next);
          p, j := n - 1, n - 1;
        }
      }
    } else {
      NothingPolled(rows, five);
    }
  }

  lemma NothingPolled(rows: seq<RadioRow>, five: bool)
    ensures TickAt(rows, 0, five, BaseAfter(NoBase, rows[..0], five), 0, 0)
  {
  }

  lemma PollCounters(row: RadioRow, five: bool)
    requires Usable(row, five)
    ensures row.total.Some? && row.samples.Some? && row.samples.value > 0
  {
  }

  /** Every poll publishes a rate: the first one and one whose sample count fell that of its
      own counters; one with the count of the poll before it that poll's rate; and any other
      that of its growth since the poll at which the count before it was first seen. */
  lemma RateOfPoll(rows: seq<RadioRow>, i: nat, five: bool) returns (p: nat, j: nat)
    requires i < |rows|
    ensures Rates(NoBase, rows, five)[i].Some? <==> Polls(rows[i], five)
    ensures Polls(rows[i], five) ==>
              var rate := Rates(NoBase, rows, five)[i].value;
              var total, samples := rows[i].total.value, rows[i].samples.value;
              if NoPoll(rows, i, five) then IsQuotient(rate, total, samples)
              else
                && LastPoll(rows, i, five, p) && FirstOfTick(rows, p, five, j)
                && rows[p].samples.Some? && rows[j].total.Some?
                && var before := rows[p].samples.value;
                   && (samples < before ==> IsQuotient(rate, total, samples))
                   && (samples == before ==> Rates(NoBase, rows, five)[i] == Rates(NoBase, rows, five)[p])
                   && (samples > before ==> IsQuotient(rate, total - rows[j].total.value, samples - before))
  {
    hide Polls, Usable, Rates, BaseAfter, IsQuotient, TruncDiv, Rate;
    p, j := BaseIsTick(rows, i, five);
    UsableIsPoll(rows[i], five);
    RateAt(rows, i, five);
    var base := BaseAfter(NoBase, rows[..i], five);
    if Usable(rows[i], five) {
      PollCounters(rows[i], five);
      RateIsQuotient(base, rows[i], five);
      if !NoPoll(rows, i, five) {
        UsableIsPoll(rows[p], five);
        UsableIsPoll(rows[j], five);
        PollCounters(rows[p], five);
        PollCounters(rows[j], five);
        if Held(base, rows[i], five) {
          HeldLikeLast(rows, i, p, five);
        }
      }
    }
  }

  lemma RateAt(rows: seq<RadioRow>, i: nat, five: bool)
    requires i < |rows|
    ensures Rates(NoBase, rows, five)[i] == RateOrNone(BaseAfter(NoBase, rows[..i], five), rows[i], five)
  {
    hide Rate, Usable, RateOrNone, BaseAfter, Rates;
    RatesOneMore(rows, i, five);
    assert rows == rows[..i + 1] + rows[i + 1..];
    RatesSplit(NoBase, rows[..i + 1], rows[i + 1..], five);
  }

  lemma RateIsQuotient(base: Base, row: RadioRow, five: bool)
    requires Usable(row, five)
    ensures base.NoBase? || row.samples.value < base.samples ==>
              IsQuotient(Rate(base, row, five), row.total.value, row.samples.value)
    ensures base.Base? && row.samples.value > base.samples ==>
              IsQuotient(Rate(base, row, five), row.total.value - base.total, row.samples.value - base.samples)
  {
    hide IsQuotient, TruncDiv, IsFiveGhz;
    QuotientIs(row.total.value, row.samples.value);
    if base.Base? && row.samples.value > base.samples {
      QuotientIs(row.total.value - base.total, row.samples.value - base.samples);
    }
  }

  lemma HeldRate(base: Base, row: RadioRow, five: bool)
    ensures Held(base, row, five) ==> RateOrNone(base, row, five) == Some(base.last)
  {
  }

  /** A held poll publishes what the poll before it published. */
  lemma HeldLikeLast(rows: seq<RadioRow>, i: nat, p: nat, five: bool)
    requires i < |rows| && LastPoll(rows, i, five, p) && Held(BaseAfter(NoBase, rows[..i], five), rows[i], five)
    ensures Rates(NoBase, rows, five)[i] == Rates(NoBase, rows, five)[p]
  {
    hide Polls, Usable, Rates, BaseAfter, Rate;
    RateAt(rows, i, five);
    RateAt(rows, p, five);
    UsableIsPoll(rows[p], five);
    HeldRate(BaseAfter(NoBase, rows[..p], five), rows[p], five);
    HeldRate(BaseAfter(NoBase, rows[..i], five), rows[i], five);
    RatesOneMore(rows, p, five);
    BaseRests(rows, p + 1, i, five);
  }

  lemma {:induction false} BaseRests(rows: seq<RadioRow>, from: nat, to: nat, five: bool)
    requires from <= to <= |rows| && forall k :: from <= k < to ==> !Polls(rows[k], five)
    ensures BaseAfter(NoBase, rows[..to], five) == BaseAfter(NoBase, rows[..from], five)
  {
    if from < to {
      hide Polls, Usable, Rate, BaseAfter;
      BaseRests(rows, from, to - 1, five);
      RatesOneMore(rows, to - 1, five);
      UsableIsPoll(rows[to - 1], five);
    }
  }

  // ---------------------------------------------------------------- held polls

  function Kept<T>(items: seq<T>, keep: seq<bool>): seq<T>
    requires |items| == |keep|
  {
    if items == [] then []
    else (if keep[0] then [items[0]] else []) + Kept(items[1..], keep[1..])
  }

  /** `keep` drops only rows that repeat the sample count of their base. */
  predicate DropsOnlyHeld(base: Base, rows: seq<RadioRow>, five: bool, keep: seq<bool>)
    requires |rows| == |keep|
    decreases |rows|
  {
    rows == [] ||
    ((keep[0] || Held(base, rows[0], five)) && DropsOnlyHeld(Advance(base, rows[0], five), rows[1..], five, keep[1..]))
  }

  /** Removing any held polls changes no other published rate, nor the final base. */
  lemma {:induction false} HeldPollsAreInvisible(base: Base, rows: seq<RadioRow>, five: bool, keep: seq<bool>)
    requires |rows| == |keep| && DropsOnlyHeld(base, rows, five, keep)
    ensures Rates(base, Kept(rows, keep), five) == Kept(Rates(base, rows, five), keep)
    ensures BaseAfter(base, Kept(rows, keep), five) == BaseAfter(base, rows, five)
    decreases |rows|
  {
    hide Rate, Usable;
    if rows != [] {
      var next, rest := Advance(base, rows[0], five), Kept(rows[1..], keep[1..]);
      HeldPollsAreInvisible(next, rows[1..], five, keep[1..]);
      if keep[0] {
        assert ([rows[0]] + rest)[1..] == rest;
      } else {
        assert [] + rest == rest;
      }
      assert Rates(base, rows, five)[1..] == Rates(next, rows[1..], five);
    }
  }

  /** The last rate that was published. */
  function Latest(rates: seq<Option<int>>): Option<int> {
    if rates == [] then None
    else if rates[|rates| - 1].Some? then rates[|rates| - 1]
    else Latest(rates[..|rates| - 1])
  }

  lemma {:induction false} BaseKeepsLatest(rows: seq<RadioRow>, n: nat, five: bool)
    requires n <= |rows|
    ensures var base := BaseAfter(NoBase, rows[..n], five);
            Latest(Rates(NoBase, rows[..n], five)) == if base.Base? then Some(base.last) else None
  {
    if n > 0 {
      hide Usable;
      BaseKeepsLatest(rows, n - 1, five);
      RatesOneMore(rows, n - 1, five);
      assert Rates(NoBase, rows[..n], five)[..n - 1] == Rates(NoBase, rows[..n - 1], five);
    }
  }

  /** A held poll publishes the last rate published before it, and there is one. */
  lemma HeldRepeatsLast(rows: seq<RadioRow>, i: nat, five: bool)
    requires i < |rows| && Held(BaseAfter(NoBase, rows[..i], five), rows[i], five)
    ensures Rates(NoBase, rows, five)[i].Some?
    ensures Rates(NoBase, rows, five)[i] == Latest(Rates(NoBase, rows, five)[..i])
  {
    hide Usable, Rates, BaseAfter, Latest;
    BaseKeepsLatest(rows, i, five);
    RatesOneMore(rows, i, five);
    assert rows == rows[..i + 1] + rows[i + 1..];
    RatesSplit(NoBase, rows[..i + 1], rows[i + 1..], five);
    assert Rates(NoBase, rows, five)[..i] == Rates(NoBase, rows[..i], five);
  }

  // ---------------------------------------------------------------- conservation

  function Abs(x: int): nat { if x < 0 then -x else x }

  /** The counters never run backwards within a window. */
  predicate Grows(base: Base, rows: seq<RadioRow>, five: bool)
    decreases |rows|
  {
    rows == [] ||
    ((Usable(rows[0], five) ==> TotalDelta(base, rows[0], five) >= 0)
     && Grows(Advance(base, rows[0], five), rows[1..], five))
  }

  function Accounted(base: Base, rows: seq<RadioRow>, five: bool): int
    decreases |rows|
  {
    if rows == [] then 0
    else
      (if Usable(rows[0], five) then Rate(base, rows[0], five) * SampleDelta(base, rows[0], five) else 0)
      + Accounted(Advance(base, rows[0], five), rows[1..], five)
  }

  function TotalGrowth(base: Base, rows: seq<RadioRow>, five: bool): int
    decreases |rows|
  {
    if rows == [] then 0
    else
      (if Usable(rows[0], five) then TotalDelta(base, rows[0], five) else 0)
      + TotalGrowth(Advance(base, rows[0], five), rows[1..], five)
  }

  function SampleGrowth(base: Base, rows: seq<RadioRow>, five: bool): nat
    decreases |rows|
  {
    if rows == [] then 0
    else
      (if Usable(rows[0], five) then SampleDelta(base, rows[0], five) else 0)
      + SampleGrowth(Advance(base, rows[0], five), rows[1..], five)
  }

  lemma RoundedShare(total: nat, d: nat)
    requires d > 0
    ensures 2 * Abs(TruncDiv(total + d / 2, d) * d - total) <= d
  {
    var x := total + d / 2;
    assert x / d * d == x - x % d;
    assert TruncDiv(x, d) * d - total == d / 2 - x % d;
  }

  /** Over any polls, resets included, the published rates weighted by their
      samples account for the counter growth to within half of the samples. */
  lemma {:induction false} RatesAccountForGrowth(base: Base, rows: seq<RadioRow>, five: bool)
    requires Grows(base, rows, five)
    ensures 2 * Abs(Accounted(base, rows, five) - TotalGrowth(base, rows, five)) <= SampleGrowth(base, rows, five)
    decreases |rows|
  {
    hide Usable;
    if rows != [] {
      RatesAccountForGrowth(Advance(base, rows[0], five), rows[1..], five);
      if Usable(rows[0], five) {
        if Held(base, rows[0], five) {
          assert Rate(base, rows[0], five) * SampleDelta(base, rows[0], five) == 0;
        } else {
          RoundedShare(TotalDelta(base, rows[0], five), SampleDelta(base, rows[0], five));
        }
      }
    }
  }

  predicate ResetFree(base: Base, rows: seq<RadioRow>, five: bool)
    decreases |rows|
  {
    rows == [] ||
    ((Usable(rows[0], five) && base.Base? ==> rows[0].samples.value >= base.samples)
     && ResetFree(Advance(base, rows[0], five), rows[1..], five))
  }

  lemma {:induction false} GrowthIsFinalCounter(base: Base, rows: seq<RadioRow>, five: bool)
    requires ResetFree(base, rows, five)
    ensures var start := if base.Base? then base.total else 0;
            var after := BaseAfter(base, rows, five);
            TotalGrowth(base, rows, five) == (if after.Base? then after.total else 0) - start
    ensures var start := if base.Base? then base.samples else 0;
            var after := BaseAfter(base, rows, five);
            SampleGrowth(base, rows, five) == (if after.Base? then after.samples else 0) - start
    decreases |rows|
  {
    hide Usable, Rate;
    if rows != [] {
      GrowthIsFinalCounter(Advance(base, rows[0], five), rows[1..], five);
    }
  }

  /** Within one window the weighted rates, first row included, differ from the
      final counter by at most half the final sample count. */
  lemma WindowIsAccounted(rows: seq<RadioRow>, five: bool)
    requires ResetFree(NoBase, rows, five) && Grows(NoBase, rows, five)
    requires BaseAfter(NoBase, rows, five).Base?
    ensures 2 * Abs(Accounted(NoBase, rows, five) - BaseAfter(NoBase, rows, five).total) <=
            BaseAfter(NoBase, rows, five).samples
  {
    RatesAccountForGrowth(NoBase, rows, five);
    GrowthIsFinalCounter(NoBase, rows, five);
  }
}
