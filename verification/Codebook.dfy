/** The latency codebook: its geometric construction and the nearest-value encoding. */
module Codebook {
  import opened Bytes

  const CODE_COUNT := 254
  const TIMEOUT_MS := 2000

  /** What the encoder and the parser rely on: 254 strictly increasing values from 1 to 2000. */
  predicate IsCodebook(values: seq<u16>) {
    && |values| == CODE_COUNT
    && values[0] == 1
    && values[CODE_COUNT - 1] == TIMEOUT_MS
    && forall i, j :: 0 <= i < j < CODE_COUNT ==> values[i] < values[j]
  }

  // ---------------------------------------------------------------- construction

  function Power(base: real, n: nat): real {
    if n == 0 then 1.0 else base * Power(base, n - 1)
  }

  /** `lround` of a non-negative number. */
  function Round(x: real): int { (x + 0.5).Floor }

  /** Nearest to `x`, halves going up. */
  predicate IsRounded(value: int, x: real) { value as real - 0.5 <= x < value as real + 0.5 }

  /** The exact ratio that the floating-point `pow(2000.0/101.0, 1.0/153.0)` approximates. */
  ghost predicate IsRatio(ratio: real) {
    ratio > 0.0 && 101.0 * Power(ratio, 153) == 2000.0
  }

  function Entry(ratio: real, i: nat): int {
    if i < 100 then i + 1
    else if i == 100 then 101
    else if i == CODE_COUNT - 1 then 2000
    else Round(101.0 * Power(ratio, i - 100))
  }

  lemma Scaled(a: real, product: real, x: real, y: real)
    requires product == x * y
    ensures a * product == a * x * y
  {
  }

  lemma {:induction false} PowerAdd(base: real, m: nat, n: nat)
    ensures Power(base, m + n) == Power(base, m) * Power(base, n)
  {
    if m > 0 {
      PowerAdd(base, m - 1, n);
      Scaled(base, Power(base, m - 1 + n), Power(base, m - 1), Power(base, n));
    }
  }

  lemma Products(a: real, b: real, x: real, y: real)
    requires 0.0 <= a <= b && 0.0 <= x <= y
    ensures 0.0 <= a * x <= b * y
  {
    assert a * x <= b * x;
    assert b * x <= b * y;
  }

  lemma {:induction false} PowerAtLeastOne(base: real, n: nat)
    requires base >= 1.0
    ensures Power(base, n) >= 1.0
  {
    if n > 0 {
      PowerAtLeastOne(base, n - 1);
      Products(1.0, base, 1.0, Power(base, n - 1));
    }
  }

  lemma PowerProduct(base: real, m: nat, n: nat, x: real, y: real)
    requires 0.0 <= Power(base, m) <= x && 0.0 <= Power(base, n) <= y
    ensures 0.0 <= Power(base, m + n) <= x * y
  {
    PowerAdd(base, m, n);
    Products(Power(base, m), x, Power(base, n), y);
  }

  /** A base below 1.01 stays below 5 at the 153rd power. */
  lemma SmallBaseStaysSmall(base: real)
    requires 0.0 <= base <= 1.01
    ensures Power(base, 153) <= 5.0
  {
    assert Power(base, 1) == base * Power(base, 0) == base * 1.0 == base;
    PowerProduct(base, 1, 1, 1.01, 1.01);
    PowerProduct(base, 2, 2, 1.0202, 1.0202);
    PowerProduct(base, 4, 4, 1.0409, 1.0409);
    PowerProduct(base, 8, 8, 1.0835, 1.0835);
    PowerProduct(base, 16, 16, 1.174, 1.174);
    PowerProduct(base, 32, 32, 1.3783, 1.3783);
    PowerProduct(base, 64, 64, 1.8998, 1.8998);
    PowerProduct(base, 8, 1, 1.0835, 1.01);
    PowerProduct(base, 16, 9, 1.174, 1.0944);
    PowerProduct(base, 128, 25, 3.61, 1.285);
  }

  /** The ratio is large enough for consecutive values from 101 on to differ by one. */
  lemma RatioBound(ratio: real)
    requires IsRatio(ratio)
    ensures 101.0 * ratio >= 102.0
  {
    if ratio < 1.01 {
      SmallBaseStaysSmall(ratio);
    }
  }

  lemma StepAtLeastOne(ratio: real, n: nat)
    requires 101.0 * ratio >= 102.0
    ensures 101.0 * Power(ratio, n + 1) >= 101.0 * Power(ratio, n) + 1.0
    ensures Round(101.0 * Power(ratio, n + 1)) > Round(101.0 * Power(ratio, n))
  {
    PowerAtLeastOne(ratio, n);
    var p := Power(ratio, n);
    Products(1.0, p, 1.0, 101.0 * ratio - 101.0);
    assert 101.0 * Power(ratio, n + 1) == 101.0 * p + p * (101.0 * ratio - 101.0);
  }

  lemma EntryRounds(ratio: real, i: nat)
    requires IsRatio(ratio) && 100 <= i < CODE_COUNT
    ensures Entry(ratio, i) == Round(101.0 * Power(ratio, i - 100))
  {
    assert Power(ratio, 0) == 1.0;
  }

  lemma {:induction false} EntriesIncrease(ratio: real, i: nat, j: nat)
    requires IsRatio(ratio) && i < j < CODE_COUNT
    ensures Entry(ratio, i) < Entry(ratio, j)
    decreases j
  {
    if i + 1 < j {
      EntriesIncrease(ratio, i, j - 1);
    }
    if j > 100 {
      RatioBound(ratio);
      EntryRounds(ratio, j - 1);
      EntryRounds(ratio, j);
      StepAtLeastOne(ratio, j - 1 - 100);
    }
  }

  /** The values computed by the construction, as 16-bit numbers. */
  method MakeCodebook(ratio: real) returns (values: seq<u16>)
    requires IsRatio(ratio)
    ensures IsCodebook(values)
    ensures forall i :: 0 <= i < CODE_COUNT ==> values[i] == Entry(ratio, i)
    ensures forall i :: 0 <= i < 101 ==> values[i] == i + 1
    ensures forall i :: 101 <= i < 254 ==> IsRounded(values[i], 101.0 * Power(ratio, i - 100))
  {
    var book := new u16[CODE_COUNT];
    for i := 0 to 100
      invariant forall k :: 0 <= k < i ==> book[k] == Entry(ratio, k)
    {
      book[i] := i + 1;
    }
    for i := 0 to 154
      invariant forall k :: 0 <= k < 100 + i ==> book[k] == Entry(ratio, k)
    {
      EntryRounds(ratio, 100 + i);
      EntryRange(ratio, 100 + i);
      book[100 + i] := Round(101.0 * Power(ratio, i));
    }
    book[100] := 101;
    book[253] := 2000;
    values := book[..];
    forall i | 101 <= i < 254
      ensures IsRounded(values[i], 101.0 * Power(ratio, i - 100))
    {
      EntryRounds(ratio, i);
    }
    forall i, j | 0 <= i < j < CODE_COUNT
      ensures values[i] < values[j]
    {
      EntriesIncrease(ratio, i, j);
    }
  }

  lemma EntryRange(ratio: real, i: nat)
    requires IsRatio(ratio) && i < CODE_COUNT
    ensures 1 <= Entry(ratio, i) <= 2000
  {
    if i > 0 { EntriesIncrease(ratio, 0, i); }
    if i < CODE_COUNT - 1 { EntriesIncrease(ratio, i, CODE_COUNT - 1); }
  }

  // ---------------------------------------------------------------- encoding

  function Clamp(milliseconds: int): int {
    if milliseconds < 1 then 1 else if milliseconds > TIMEOUT_MS then TIMEOUT_MS else milliseconds
  }

  function Distance(a: int, b: int): nat {
    if a < b then b - a else a - b
  }

  /** `code` names the entry nearest to the clamped input, the lower one on a tie. */
  ghost predicate IsNearest(milliseconds: int, codebook: seq<u16>, code: int)
    requires |codebook| == CODE_COUNT
  {
    && 1 <= code <= CODE_COUNT
    && forall k :: 0 <= k < CODE_COUNT ==>
         var best, other := Distance(codebook[code - 1], Clamp(milliseconds)),
             Distance(codebook[k], Clamp(milliseconds));
         best <= other && (k < code - 1 ==> best < other)
  }

  /** The number of entries below `value`, which the binary search finds. */
  function Below(codebook: seq<u16>, value: int): nat {
    if codebook == [] then 0
    else Below(codebook[..|codebook| - 1], value) + if codebook[|codebook| - 1] < value then 1 else 0
  }

  lemma {:induction false} BelowIs(codebook: seq<u16>, value: int, low: nat)
    requires low <= |codebook|
    requires forall k :: 0 <= k < low ==> codebook[k] < value
    requires forall k :: low <= k < |codebook| ==> codebook[k] >= value
    ensures Below(codebook, value) == low
  {
    if codebook != [] {
      BelowIs(codebook[..|codebook| - 1], value, if low == |codebook| then low - 1 else low);
    }
  }

  /** The code as a function; `EncodeLatency` computes it by bisection. */
  function Encode(milliseconds: int, codebook: seq<u16>): int
    requires |codebook| == CODE_COUNT
  {
    var value := if milliseconds < 1 then 1 else milliseconds;
    if value >= TIMEOUT_MS then CODE_COUNT
    else
      var low := Below(codebook, value);
      if low == 0 then 1
      else if low >= CODE_COUNT then CODE_COUNT
      else if value - codebook[low - 1] <= codebook[low] - value then low
      else low + 1
  }

  method EncodeLatency(milliseconds: int, codebook: seq<u16>) returns (code: int)
    requires IsCodebook(codebook)
    ensures code == Encode(milliseconds, codebook)
    ensures IsNearest(milliseconds, codebook, code)
  {
    var low, high := 0, CODE_COUNT;
    var value := if milliseconds < 1 then 1 else milliseconds;
    EncodeIsNearest(milliseconds, codebook);
    if value >= 2000 {
      return CODE_COUNT;
    }
    while low < high
      invariant 0 <= low <= high <= CODE_COUNT
      invariant forall k :: 0 <= k < low ==> codebook[k] < value
      invariant forall k :: high <= k < CODE_COUNT ==> codebook[k] >= value
    {
      var middle := low + (high - low) / 2;
      if codebook[middle] < value {
        low := middle + 1;
      } else {
        high := middle;
      }
    }
    BelowIs(codebook, value, low);
    if low == 0 {
      return 1;
    }
    if low == CODE_COUNT {
      return CODE_COUNT;
    }
    return if value - codebook[low - 1] <= codebook[low] - value then low else low + 1;
  }

  lemma {:induction false} BelowSplits(codebook: seq<u16>, value: int)
    requires forall i, j :: 0 <= i < j < |codebook| ==> codebook[i] < codebook[j]
    ensures Below(codebook, value) <= |codebook|
    ensures forall k :: 0 <= k < |codebook| ==> (k < Below(codebook, value) <==> codebook[k] < value)
  {
    if codebook != [] {
      BelowSplits(codebook[..|codebook| - 1], value);
    }
  }

  /** Every input gets a code in 1..254 of a nearest entry, ties going down. */
  lemma EncodeIsNearest(milliseconds: int, codebook: seq<u16>)
    requires IsCodebook(codebook)
    ensures IsNearest(milliseconds, codebook, Encode(milliseconds, codebook))
  {
    BelowSplits(codebook, Clamp(milliseconds));
  }

  /** The nearest-lower-on-ties code is unique. */
  lemma NearestIsUnique(milliseconds: int, codebook: seq<u16>, a: int, b: int)
    requires |codebook| == CODE_COUNT
    requires IsNearest(milliseconds, codebook, a) && IsNearest(milliseconds, codebook, b)
    ensures a == b
  {
    var x := Distance(codebook[a - 1], Clamp(milliseconds));
    var y := Distance(codebook[b - 1], Clamp(milliseconds));
    assert x <= y && y <= x;
  }

  /** Codes keep the order of the inputs. */
  lemma EncodeIsMonotone(m: int, n: int, codebook: seq<u16>)
    requires IsCodebook(codebook) && m <= n
    ensures Encode(m, codebook) <= Encode(n, codebook)
  {
    EncodeIsNearest(m, codebook);
    EncodeIsNearest(n, codebook);
    var a, b := Encode(m, codebook), Encode(n, codebook);
    if Distance(codebook[a - 1], Clamp(m)) < Distance(codebook[b - 1], Clamp(m)) {
      Crossing(codebook[b - 1], codebook[a - 1], Clamp(m), Clamp(n));
    }
  }

  /** Two values cannot each be strictly nearer, the greater to the smaller target. */
  lemma Crossing(small: int, great: int, m: int, n: int)
    requires m <= n && Distance(great, m) < Distance(small, m) && Distance(small, n) <= Distance(great, n)
    ensures small >= great
  {
  }

  /** A value of the codebook is encoded exactly, so coding a decoded value changes nothing. */
  lemma EncodeIsExact(codebook: seq<u16>, i: nat)
    requires IsCodebook(codebook) && i < CODE_COUNT
    ensures Encode(codebook[i], codebook) == i + 1
  {
    assert i > 0 ==> codebook[0] < codebook[i];
    assert i < CODE_COUNT - 1 ==> codebook[i] < codebook[CODE_COUNT - 1];
    EncodeIsNearest(codebook[i], codebook);
    assert Distance(codebook[i], Clamp(codebook[i])) == 0;
    NearestIsUnique(codebook[i], codebook, Encode(codebook[i], codebook), i + 1);
  }

  /** Latencies up to 101 ms survive the built codebook unchanged. */
  lemma ShortLatenciesAreExact(ratio: real, codebook: seq<u16>, milliseconds: int)
    requires IsRatio(ratio) && IsCodebook(codebook)
    requires forall i :: 0 <= i < CODE_COUNT ==> codebook[i] == Entry(ratio, i)
    requires 1 <= milliseconds <= 101
    ensures codebook[Encode(milliseconds, codebook) - 1] == milliseconds
  {
    EncodeIsNearest(milliseconds, codebook);
    EncodeIsExact(codebook, milliseconds - 1);
    assert codebook[milliseconds - 1] == milliseconds;
  }
}
