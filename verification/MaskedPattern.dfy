/** Masked byte patterns: parsing, matching, the anchored search and pattern overlay. */
module MaskedPattern {
  import opened Wrappers
  import opened Bytes

  /** `exact[i]` says whether byte `i` is required; a wildcard byte has value 0. */
  datatype MaskedBytes = MaskedBytes(values: seq<byte>, exact: seq<bool>)

  type Pattern = p: MaskedBytes | |p.values| == |p.exact| witness MaskedBytes([], [])

  datatype PatternError = EmptyPattern | OddLength | BadToken | OutsideSignature

  // ---------------------------------------------------------------- parsing

  /** The characters that Python's `str.split()` removes. */
  predicate IsSpace(c: char) {
    || '\t' <= c <= '\r'
    || '\U{1c}' <= c <= ' '
    || c == '\U{85}' || c == '\U{a0}' || c == '\U{1680}'
    || '\U{2000}' <= c <= '\U{200a}'
    || c == '\U{2028}' || c == '\U{2029}' || c == '\U{202f}' || c == '\U{205f}' || c == '\U{3000}'
  }

  function Compact(text: string): (compact: string)
    ensures forall c <- compact :: !IsSpace(c)
  {
    if text == "" then ""
    else if IsSpace(text[0]) then Compact(text[1..])
    else [text[0]] + Compact(text[1..])
  }

  /** The zeros of Unicode 14.0's scripts with decimal digits, ASCII left out; the
      nine code points after each zero are that script's other digits. */
  predicate IsForeignZero(n: int) {
    n in {
      0x660, 0x6F0, 0x7C0, 0x966, 0x9E6, 0xA66, 0xAE6, 0xB66, 0xBE6, 0xC66, 0xCE6, 0xD66,
      0xDE6, 0xE50, 0xED0, 0xF20, 0x1040, 0x1090, 0x17E0, 0x1810, 0x1946, 0x19D0, 0x1A80, 0x1A90,
      0x1B50, 0x1BB0, 0x1C40, 0x1C50, 0xA620, 0xA8D0, 0xA900, 0xA9D0, 0xA9F0, 0xAA50, 0xABF0, 0xFF10,
      0x104A0, 0x10D30, 0x11066, 0x110F0, 0x11136, 0x111D0, 0x112F0, 0x11450, 0x114D0, 0x11650, 0x116C0, 0x11730,
      0x118E0, 0x11950, 0x11C50, 0x11D50, 0x11DA0, 0x16A60, 0x16AC0, 0x16B50, 0x1D7CE, 0x1D7D8, 0x1D7E2, 0x1D7EC,
      0x1D7F6, 0x1E140, 0x1E2F0, 0x1E950, 0x1FBF0
    }
  }

  function ForeignDigitFrom(n: int, d: nat): (v: int)
    requires d <= 10
    ensures -1 <= v < 10
    decreases 10 - d
  {
    if d == 10 then -1 else if IsForeignZero(n - d) then d else ForeignDigitFrom(n, d + 1)
  }

  /** The value of a decimal digit outside ASCII, or -1. */
  function ForeignDigit(c: char): (v: int)
    ensures -1 <= v < 10
    ensures v >= 0 ==> c as int >= 0x80
  {
    if c as int < 0x80 then -1 else ForeignDigitFrom(c as int, 0)
  }

  /** A digit as `int(token, 16)` reads it: ASCII hexadecimal, or a decimal digit of any script. */
  function TokenDigit(c: char): (v: int)
    ensures -1 <= v < 16
    ensures HexDigit(c) >= 0 ==> v == HexDigit(c)
    ensures v >= 0 <==> HexDigit(c) >= 0 || ForeignDigit(c) >= 0
  {
    if HexDigit(c) >= 0 then HexDigit(c) else ForeignDigit(c)
  }

  /** `int(token, 16)` followed by the range check of `bytearray.append`; the
      built-in conversion also takes one sign. */
  function TokenValue(hi: char, lo: char): Option<byte> {
    if TokenDigit(lo) < 0 then None
    else if hi == '+' then Some(TokenDigit(lo))
    else if hi == '-' then (if TokenDigit(lo) == 0 then Some(0) else None)
    else if TokenDigit(hi) < 0 then None
    else Some(16 * TokenDigit(hi) + TokenDigit(lo))
  }

  /** A character stands for a hexadecimal digit, or for a decimal one of another script. */
  predicate StandsFor(c: char, d: int) {
    if '0' <= c <= '9' then d == c as int - '0' as int
    else if 'a' <= c <= 'f' then d == c as int - 'a' as int + 10
    else if 'A' <= c <= 'F' then d == c as int - 'A' as int + 10
    else 0 <= d == ForeignDigit(c)
  }

  /** A token has a value exactly if it is two digits, or a digit behind a plus sign, or a
      zero behind a minus sign. */
  lemma TokenExactly(hi: char, lo: char, v: byte)
    ensures TokenValue(hi, lo) == Some(v) <==>
              || (hi == '+' && StandsFor(lo, v))
              || (hi == '-' && StandsFor(lo, 0) && v == 0)
              || (StandsFor(hi, v / 16) && StandsFor(lo, v % 16))
  {
    hide ForeignDigit;
    DigitExactly(hi);
    DigitExactly(lo);
  }

  lemma DigitExactly(c: char)
    ensures forall d: int :: StandsFor(c, d) <==> d >= 0 && TokenDigit(c) == d
    ensures c == '+' || c == '-' ==> TokenDigit(c) < 0
  {
    hide ForeignDigitFrom;
  }

  predicate IsWildcard(compact: string, i: nat)
    requires 2 * i + 1 < |compact|
  {
    compact[2 * i] == '?' && compact[2 * i + 1] == '?'
  }

  predicate GoodToken(compact: string, i: nat)
    requires 2 * i + 1 < |compact|
  {
    IsWildcard(compact, i) || TokenValue(compact[2 * i], compact[2 * i + 1]).Some?
  }

  function TokenByte(compact: string, i: nat): byte
    requires 2 * i + 1 < |compact| && GoodToken(compact, i)
  {
    if IsWildcard(compact, i) then 0 else TokenValue(compact[2 * i], compact[2 * i + 1]).value
  }

  /** What `parse_masked_hex` promises about its text. */
  function ParseSpec(text: string): Result<Pattern, PatternError> {
    var compact := Compact(text);
    var n := |compact| / 2;
    if compact == "" then Failure(EmptyPattern)
    else if |compact| % 2 != 0 then Failure(OddLength)
    else if exists i :: 0 <= i < n && !GoodToken(compact, i) then Failure(BadToken)
    else Success(MaskedBytes(seq(n, i requires 0 <= i < n => TokenByte(compact, i)),
                             seq(n, i requires 0 <= i < n => !IsWildcard(compact, i))))
  }

  method ParseMaskedHex(text: string) returns (r: Result<Pattern, PatternError>)
    ensures r == ParseSpec(text)
  {
    var compact := Compact(text);
    if compact == "" {
      return Failure(EmptyPattern);
    }
    if |compact| % 2 != 0 {
      return Failure(OddLength);
    }
    var values: seq<byte>, exact: seq<bool> := [], [];
    for i := 0 to |compact| / 2
      invariant |values| == |exact| == i
      invariant forall k :: 0 <= k < i ==> GoodToken(compact, k)
      invariant forall k :: 0 <= k < i ==> values[k] == TokenByte(compact, k) && exact[k] == !IsWildcard(compact, k)
    {
      if compact[2 * i] == '?' && compact[2 * i + 1] == '?' {
        values, exact := values + [0], exact + [false];
      } else {
        var value := TokenValue(compact[2 * i], compact[2 * i + 1]);
        if value.None? {
          assert !GoodToken(compact, i);
          return Failure(BadToken);
        }
        values, exact := values + [value.value], exact + [true];
      }
    }
    r := Success(MaskedBytes(values, exact));
    assert values == ParseSpec(text).value.values;
    assert exact == ParseSpec(text).value.exact;
  }

  /** The spelling used in the catalog: two lower-case digits or `??` a byte, blank separated. */
  function Spell(p: Pattern): string
    decreases |p.values|
  {
    if p.values == [] then ""
    else SpellByte(p.values[0], p.exact[0]) + " " + Spell(MaskedBytes(p.values[1..], p.exact[1..]))
  }

  function SpellByte(value: byte, exact: bool): (s: string)
    ensures |s| == 2 && !IsSpace(s[0]) && !IsSpace(s[1])
  {
    if exact then [LowerHex(value / 16), LowerHex(value % 16)] else "??"
  }

  predicate Canonical(p: Pattern) {
    forall i :: 0 <= i < |p.values| && !p.exact[i] ==> p.values[i] == 0
  }

  lemma CompactSplit(a: string, b: string)
    ensures Compact(a + b) == Compact(a) + Compact(b)
  {
    if a == "" {
      assert a + b == b;
    } else {
      assert (a + b)[1..] == a[1..] + b;
      CompactSplit(a[1..], b);
    }
  }

  function Tokens(p: Pattern): string
    decreases |p.values|
  {
    if p.values == [] then ""
    else SpellByte(p.values[0], p.exact[0]) + Tokens(MaskedBytes(p.values[1..], p.exact[1..]))
  }

  lemma {:induction false} TokensAt(p: Pattern)
    ensures |Tokens(p)| == 2 * |p.values|
    ensures forall i :: 0 <= i < |p.values| ==>
              && Tokens(p)[2 * i] == SpellByte(p.values[i], p.exact[i])[0]
              && Tokens(p)[2 * i + 1] == SpellByte(p.values[i], p.exact[i])[1]
    decreases |p.values|
  {
    if p.values != [] {
      var rest := MaskedBytes(p.values[1..], p.exact[1..]);
      TokensAt(rest);
      forall i | 0 < i < |p.values|
        ensures Tokens(p)[2 * i] == SpellByte(p.values[i], p.exact[i])[0]
        ensures Tokens(p)[2 * i + 1] == SpellByte(p.values[i], p.exact[i])[1]
      {
        assert Tokens(p)[2 * i] == Tokens(rest)[2 * (i - 1)];
        assert Tokens(p)[2 * i + 1] == Tokens(rest)[2 * (i - 1) + 1];
        assert p.values[i] == rest.values[i - 1] && p.exact[i] == rest.exact[i - 1];
      }
    }
  }

  lemma CompactSpelledByte(token: string)
    requires |token| == 2 && !IsSpace(token[0]) && !IsSpace(token[1])
    ensures Compact(token + " ") == token
  {
    var text := token + " ";
    assert text[1..] == [token[1], ' '] && text[1..][1..] == " " && " "[1..] == "";
    assert Compact(" ") == "";
    assert Compact(text[1..]) == [token[1]];
  }

  lemma {:induction false} CompactSpell(p: Pattern)
    ensures Compact(Spell(p)) == Tokens(p)
    decreases |p.values|
  {
    if p.values != [] {
      var token, rest := SpellByte(p.values[0], p.exact[0]), MaskedBytes(p.values[1..], p.exact[1..]);
      CompactSplit(token + " ", Spell(rest));
      CompactSpelledByte(token);
      CompactSpell(rest);
    }
  }

  lemma SpelledToken(c: string, i: nat, value: byte, exact: bool)
    requires 2 * i + 1 < |c| && (!exact ==> value == 0)
    requires c[2 * i] == SpellByte(value, exact)[0] && c[2 * i + 1] == SpellByte(value, exact)[1]
    ensures GoodToken(c, i) && TokenByte(c, i) == value && IsWildcard(c, i) == !exact
  {
  }

  /** Every non-empty canonical pattern is recovered from its spelling. */
  lemma ParseSpellRoundTrip(p: Pattern)
    requires p.values != [] && Canonical(p)
    ensures ParseSpec(Spell(p)) == Success(p)
  {
    var c, n := Compact(Spell(p)), |p.values|;
    hide Compact, Spell, Tokens, SpellByte, GoodToken, TokenByte, IsWildcard;
    CompactSpell(p);
    TokensAt(p);
    forall i | 0 <= i < n
      ensures GoodToken(c, i) && TokenByte(c, i) == p.values[i] && IsWildcard(c, i) == !p.exact[i]
    {
      SpelledToken(c, i, p.values[i], p.exact[i]);
    }
    var parsed := ParseSpec(Spell(p)).value;
    assert parsed.values == p.values && parsed.exact == p.exact;
  }

  /** The catalog's grammar for one token: `??` or two hexadecimal digits. */
  predicate CatalogToken(compact: string, i: nat)
    requires 2 * i + 1 < |compact|
  {
    IsWildcard(compact, i) || (HexDigit(compact[2 * i]) >= 0 && HexDigit(compact[2 * i + 1]) >= 0)
  }

  predicate CatalogAccepts(text: string) {
    var compact := Compact(text);
    compact != "" && |compact| % 2 == 0 && forall i :: 0 <= i < |compact| / 2 ==> CatalogToken(compact, i)
  }

  predicate HasSign(text: string) {
    var compact := Compact(text);
    exists i :: 0 <= i < |compact| && i % 2 == 0 && compact[i] in "+-"
  }

  predicate HasForeignDigit(text: string) {
    exists c <- Compact(text) :: ForeignDigit(c) >= 0
  }

  lemma CatalogTokenIsPlain(compact: string, i: nat)
    requires 2 * i + 1 < |compact|
    ensures CatalogToken(compact, i) <==>
            && GoodToken(compact, i) && compact[2 * i] !in "+-"
            && ForeignDigit(compact[2 * i]) < 0 && ForeignDigit(compact[2 * i + 1]) < 0
  {
    hide ForeignDigit;
    HexIsAscii(compact[2 * i]);
    HexIsAscii(compact[2 * i + 1]);
  }

  lemma HexIsAscii(c: char)
    ensures HexDigit(c) >= 0 || c in "?+-" ==> ForeignDigit(c) < 0
  {
  }

  /** The catalog says it duplicates the engine's grammar. It is the engine's
      without signed tokens and without digits outside ASCII. */
  lemma CatalogGrammar(text: string)
    ensures CatalogAccepts(text) <==> ParseSpec(text).Success? && !HasSign(text) && !HasForeignDigit(text)
  {
    hide GoodToken, CatalogToken, ForeignDigit, Compact;
    var c := Compact(text);
    forall i | 0 <= i < |c| / 2
      ensures CatalogToken(c, i) <==>
              && GoodToken(c, i) && c[2 * i] !in "+-"
              && ForeignDigit(c[2 * i]) < 0 && ForeignDigit(c[2 * i + 1]) < 0
    {
      CatalogTokenIsPlain(c, i);
    }
    if CatalogAccepts(text) {
      forall i | 0 <= i < |c|
        ensures ForeignDigit(c[i]) < 0 && (i % 2 == 0 ==> c[i] !in "+-")
      {
        assert CatalogToken(c, i / 2);
        assert i == 2 * (i / 2) || i == 2 * (i / 2) + 1;
      }
    }
    if ParseSpec(text).Success? && !HasSign(text) && !HasForeignDigit(text) {
      forall i | 0 <= i < |c| / 2
        ensures CatalogToken(c, i)
      {
        assert GoodToken(c, i);
        assert (2 * i) % 2 == 0 && c[2 * i] in c && c[2 * i + 1] in c;
      }
    }
  }

  lemma CompactPair(a: char, b: char)
    requires !IsSpace(a) && !IsSpace(b)
    ensures Compact([a, b]) == [a, b]
  {
    assert [a, b][1..] == [b] && [b][1..] == "";
    assert Compact([b]) == [b];
  }

  /** Both differences occur: the engine reads `+a` as 0x0a, and two fullwidth
      digits as 0x12; the catalog refuses both texts. */
  lemma EngineTakesMore()
    ensures ParseSpec("+a") == Success(MaskedBytes([0x0A], [true])) && !CatalogAccepts("+a")
    ensures ParseSpec("\U{ff11}\U{ff12}") == Success(MaskedBytes([0x12], [true]))
    ensures !CatalogAccepts("\U{ff11}\U{ff12}")
  {
    OneToken('+', 'a', 0x0A);
    FullwidthDigits();
    OneToken('\U{ff11}', '\U{ff12}', 0x12);
  }

  lemma FullwidthDigits()
    ensures TokenDigit('\U{ff11}') == 1 && TokenDigit('\U{ff12}') == 2
  {
    assert IsForeignZero(0xFF10) && !IsForeignZero(0xFF11) && !IsForeignZero(0xFF12);
    assert ForeignDigitFrom(0xFF11, 1) == 1;
    assert ForeignDigitFrom(0xFF12, 2) == 2;
    assert ForeignDigitFrom(0xFF12, 1) == 2;
  }

  lemma OneToken(hi: char, lo: char, value: byte)
    requires !IsSpace(hi) && !IsSpace(lo) && hi != '?' && HexDigit(hi) < 0
    requires TokenValue(hi, lo) == Some(value)
    ensures ParseSpec([hi, lo]) == Success(MaskedBytes([value], [true])) && !CatalogAccepts([hi, lo])
  {
    hide IsSpace, TokenValue, HexDigit;
    CompactPair(hi, lo);
    var text := [hi, lo];
    assert GoodToken(text, 0) && !IsWildcard(text, 0) && TokenByte(text, 0) == value;
    assert ParseSpec(text).value.values == [value] && ParseSpec(text).value.exact == [true];
    assert !CatalogToken(text, 0);
  }

  // ---------------------------------------------------------------- matching

  predicate MatchesAt(data: seq<byte>, offset: int, pattern: Pattern) {
    && 0 <= offset
    && offset + |pattern.values| <= |data|
    && forall i :: 0 <= i < |pattern.values| && pattern.exact[i] ==> data[offset + i] == pattern.values[i]
  }

  predicate AllExact(pattern: Pattern, from: int, to: int)
    requires 0 <= from <= to <= |pattern.exact|
  {
    forall i :: from <= i < to ==> pattern.exact[i]
  }

  /** The first of the longest runs of required bytes. */
  method LongestExactAnchor(pattern: Pattern) returns (bestStart: nat, best: seq<byte>)
    ensures bestStart + |best| <= |pattern.values|
    ensures best == pattern.values[bestStart..bestStart + |best|]
    ensures AllExact(pattern, bestStart, bestStart + |best|)
    ensures forall i, j :: 0 <= i <= j <= |pattern.values| && AllExact(pattern, i, j) ==> j - i <= |best|
    ensures forall i, j :: 0 <= i <= j <= |pattern.values| && AllExact(pattern, i, j) && j - i == |best| ==>
              bestStart <= i
  {
    var n := |pattern.values|;
    bestStart, best := 0, [];
    var start := 0;
    while start < n
      invariant 0 <= start <= n + 1
      invariant start == 0 || start - 1 == n || !pattern.exact[start - 1]
      invariant bestStart + |best| <= n && bestStart <= start
      invariant best == pattern.values[bestStart..bestStart + |best|]
      invariant AllExact(pattern, bestStart, bestStart + |best|)
      invariant forall i, j :: 0 <= i < j <= n && i < start && AllExact(pattern, i, j) ==>
                  j - i <= |best| && (j - i == |best| ==> bestStart <= i)
      invariant best == [] ==> bestStart == 0
    {
      ghost var from := start;
      while start < n && !pattern.exact[start]
        invariant from <= start <= n
        invariant forall i :: from <= i < start ==> !pattern.exact[i]
      {
        start := start + 1;
      }
      var end := start;
      while end < n && pattern.exact[end]
        invariant start <= end <= n
        invariant AllExact(pattern, start, end)
      {
        end := end + 1;
      }
      ghost var oldBest, oldStart := best, bestStart;
      if end - start > |best| {
        bestStart, best := start, pattern.values[start..end];
      }
      assert end == n || !pattern.exact[end];
      forall i, j | 0 <= i < j <= n && i < end + 1 && AllExact(pattern, i, j)
        ensures j - i <= |best| && (j - i == |best| ==> bestStart <= i)
      {
        assert pattern.exact[i];
        if i >= from {
          assert start <= i < end;
          assert j <= end;
        }
      }
      start := end + 1;
    }
  }

  predicate Occurs(data: seq<byte>, sub: seq<byte>, at: int) {
    0 <= at && at + |sub| <= |data| && data[at..at + |sub|] == sub
  }

  /** `data.find(sub, from)`: the first occurrence at or after `from`, or -1. */
  function FindFrom(data: seq<byte>, sub: seq<byte>, from: nat): (at: int)
    ensures at == -1 || (from <= at && Occurs(data, sub, at))
    ensures forall k :: from <= k && (at < 0 || k < at) ==> !Occurs(data, sub, k)
    decreases |data| - from
  {
    if from + |sub| > |data| then -1
    else if Occurs(data, sub, from) then from
    else if from == |data| then -1
    else FindFrom(data, sub, from + 1)
  }

  /** The naive scan: every offset below `hi` where the pattern matches, in order. */
  function HitsBelow(data: seq<byte>, pattern: Pattern, hi: nat): seq<nat> {
    if hi == 0 then []
    else HitsBelow(data, pattern, hi - 1) + if MatchesAt(data, hi - 1, pattern) then [hi - 1] else []
  }

  function Hits(data: seq<byte>, pattern: Pattern): seq<nat> {
    HitsBelow(data, pattern, |data| + 1)
  }

  ghost predicate Ascending(s: seq<nat>) {
    forall i, j :: 0 <= i < j < |s| ==> s[i] < s[j]
  }

  lemma {:induction false} HitsBelowExact(data: seq<byte>, pattern: Pattern, hi: nat)
    ensures Ascending(HitsBelow(data, pattern, hi))
    ensures forall k: int :: k in HitsBelow(data, pattern, hi) <==> k < hi && MatchesAt(data, k, pattern)
  {
    if hi > 0 {
      hide MatchesAt;
      HitsBelowExact(data, pattern, hi - 1);
      var before := HitsBelow(data, pattern, hi - 1);
      assert forall i :: 0 <= i < |before| ==> before[i] in before;
    }
  }

  /** The scan is the strictly ascending list of exactly the matching offsets. */
  lemma HitsExact(data: seq<byte>, pattern: Pattern)
    ensures Ascending(Hits(data, pattern))
    ensures forall k: int :: k in Hits(data, pattern) <==> MatchesAt(data, k, pattern)
  {
    HitsBelowExact(data, pattern, |data| + 1);
  }

  lemma {:induction false} HitsSkip(data: seq<byte>, pattern: Pattern, lo: nat, hi: nat)
    requires lo <= hi
    requires forall k :: lo <= k < hi ==> !MatchesAt(data, k, pattern)
    ensures HitsBelow(data, pattern, hi) == HitsBelow(data, pattern, lo)
  {
    if lo < hi {
      HitsSkip(data, pattern, lo, hi - 1);
    }
  }

  lemma {:induction false} HitsAll(data: seq<byte>, pattern: Pattern, hi: nat)
    requires forall k :: 0 <= k < hi ==> MatchesAt(data, k, pattern)
    ensures HitsBelow(data, pattern, hi) == seq(hi, i => i)
  {
    if hi > 0 {
      HitsAll(data, pattern, hi - 1);
    }
  }

  lemma NoHitWithoutAnchor(data: seq<byte>, pattern: Pattern, at: nat, anchor: seq<byte>, c: int)
    requires at + |anchor| <= |pattern.values|
    requires anchor == pattern.values[at..at + |anchor|] && AllExact(pattern, at, at + |anchor|)
    requires MatchesAt(data, c, pattern)
    ensures Occurs(data, anchor, c + at)
  {
    forall i | 0 <= i < |anchor|
      ensures data[c + at..c + at + |anchor|][i] == anchor[i]
    {
      assert pattern.exact[at + i];
      assert data[c + (at + i)] == pattern.values[at + i];
    }
  }

  function Floor0(v: int): nat {
    if v > 0 then v else 0
  }

  /** No match starts between the offsets that two successive anchor hits stand for. */
  lemma HitsBetweenAnchors(data: seq<byte>, pattern: Pattern, at: nat, anchor: seq<byte>, from: nat, hit: nat)
    requires at + |anchor| <= |pattern.values|
    requires anchor == pattern.values[at..at + |anchor|] && AllExact(pattern, at, at + |anchor|)
    requires from <= hit
    requires forall k :: from <= k < hit ==> !Occurs(data, anchor, k)
    ensures HitsBelow(data, pattern, Floor0(hit - at)) == HitsBelow(data, pattern, Floor0(from - at))
  {
    forall k | Floor0(from - at) <= k < Floor0(hit - at)
      ensures !MatchesAt(data, k, pattern)
    {
      if MatchesAt(data, k, pattern) { NoHitWithoutAnchor(data, pattern, at, anchor, k); }
    }
    HitsSkip(data, pattern, Floor0(from - at), Floor0(hit - at));
  }

  /** A pattern of wildcards matches wherever it fits. */
  lemma HitsWithoutExact(data: seq<byte>, pattern: Pattern)
    requires forall i :: 0 <= i < |pattern.exact| ==> !pattern.exact[i]
    ensures Hits(data, pattern) == seq(Floor0(|data| - |pattern.values| + 1), i => i)
  {
    var count := Floor0(|data| - |pattern.values| + 1);
    assert forall k :: 0 <= k < count ==> MatchesAt(data, k, pattern);
    HitsAll(data, pattern, count);
    HitsSkip(data, pattern, count, |data| + 1);
  }

  /** The anchored search refines the naive scan, for every input. */
  method FindMasked(data: seq<byte>, pattern: Pattern) returns (matches: seq<nat>)
    ensures matches == Hits(data, pattern)
    ensures Ascending(matches)
    ensures forall k: int :: k in matches <==> MatchesAt(data, k, pattern)
  {
    matches := AnchoredSearch(data, pattern);
    HitsExact(data, pattern);
  }

  method AnchoredSearch(data: seq<byte>, pattern: Pattern) returns (matches: seq<nat>)
    ensures matches == Hits(data, pattern)
  {
    var anchorOffset, anchor := LongestExactAnchor(pattern);
    if anchor == [] {
      assert forall i :: 0 <= i < |pattern.exact| && pattern.exact[i] ==> AllExact(pattern, i, i + 1);
      HitsWithoutExact(data, pattern);
      return seq(Floor0(|data| - |pattern.values| + 1), i => i);
    }
    matches := [];
    var searchFrom := 0;
    while true
      invariant 0 <= searchFrom <= |data|
      invariant matches == HitsBelow(data, pattern, Floor0(searchFrom - anchorOffset))
      decreases |data| - searchFrom
    {
      var anchorHit := FindFrom(data, anchor, searchFrom);
      if anchorHit < 0 {
        HitsBetweenAnchors(data, pattern, anchorOffset, anchor, searchFrom, |data| + 1 + anchorOffset);
        return;
      }
      HitsBetweenAnchors(data, pattern, anchorOffset, anchor, searchFrom, anchorHit);
      var candidate := anchorHit - anchorOffset;
      if MatchesAt(data, candidate, pattern) {
        matches := matches + [candidate];
      }
      searchFrom := anchorHit + 1;
    }
  }

  // ---------------------------------------------------------------- overlay and rendering

  predicate Fits(signature: Pattern, patchOffset: int, length: nat) {
    0 <= patchOffset && patchOffset + length <= |signature.values|
  }

  /** The signature after a patch: required replacement bytes win; a wildcard
      replacement byte keeps the signature's byte or, when wildcards are not
      preserved, drops the requirement. */
  function OverlaySpec(signature: Pattern, patchOffset: int, replacement: Pattern, preserveWildcards: bool)
    : Result<Pattern, PatternError>
  {
    var n, m := |signature.values|, |replacement.values|;
    if !Fits(signature, patchOffset, m) then Failure(OutsideSignature)
    else Success(MaskedBytes(
                   seq(n, i requires 0 <= i < n =>
                         if patchOffset <= i < patchOffset + m && replacement.exact[i - patchOffset]
                         then replacement.values[i - patchOffset] else signature.values[i]),
                   seq(n, i requires 0 <= i < n =>
                         if !(patchOffset <= i < patchOffset + m) then signature.exact[i]
                         else replacement.exact[i - patchOffset] || (preserveWildcards && signature.exact[i]))))
  }

  method OverlayPattern(signature: Pattern, patchOffset: int, replacement: Pattern, preserveWildcards: bool)
    returns (r: Result<Pattern, PatternError>)
    ensures r == OverlaySpec(signature, patchOffset, replacement, preserveWildcards)
  {
    if patchOffset < 0 || patchOffset + |replacement.values| > |signature.values| {
      return Failure(OutsideSignature);
    }
    var n := |signature.values|;
    var values := new byte[n](i requires 0 <= i < n => signature.values[i]);
    var exact := new bool[n](i requires 0 <= i < n => signature.exact[i]);
    ghost var spec := OverlaySpec(signature, patchOffset, replacement, preserveWildcards).value;
    for index := 0 to |replacement.values|
      invariant forall i :: 0 <= i < n && !(patchOffset + index <= i < patchOffset + |replacement.values|) ==>
                  values[i] == spec.values[i] && exact[i] == spec.exact[i]
      invariant forall i :: patchOffset + index <= i < n ==>
                  values[i] == signature.values[i] && exact[i] == signature.exact[i]
    {
      if replacement.exact[index] {
        values[patchOffset + index] := replacement.values[index];
        exact[patchOffset + index] := true;
      } else if !preserveWildcards {
        exact[patchOffset + index] := false;
      }
    }
    assert values[..] == spec.values && exact[..] == spec.exact;
    r := Success(MaskedBytes(values[..], exact[..]));
  }

  function Render(original: seq<byte>, replacement: Pattern): (rendered: seq<byte>)
    requires |original| == |replacement.values|
    ensures |rendered| == |original|
    ensures forall i :: 0 <= i < |original| ==>
              rendered[i] == if replacement.exact[i] then replacement.values[i] else original[i]
  {
    seq(|original|, i requires 0 <= i < |original| =>
          if replacement.exact[i] then replacement.values[i] else original[i])
  }

  lemma OverlaidBytes(signature: Pattern, patchOffset: int, text: Pattern, preserve: bool)
    requires Fits(signature, patchOffset, |text.values|)
    ensures OverlaySpec(signature, patchOffset, text, preserve).Success?
    ensures var patched, end := OverlaySpec(signature, patchOffset, text, preserve).value,
                patchOffset + |text.values|;
            && |patched.values| == |signature.values|
            && forall i :: 0 <= i < |signature.values| ==>
                 if patchOffset <= i < end && text.exact[i - patchOffset]
                 then patched.exact[i] && patched.values[i] == text.values[i - patchOffset]
                 else && patched.values[i] == signature.values[i]
                      && patched.exact[i] == (signature.exact[i] && (preserve || !(patchOffset <= i < end)))
  {
  }

  lemma WindowBytes(before: seq<byte>, after: seq<byte>, lo: nat, written: Pattern)
    requires |after| == |before| && lo + |written.values| <= |before|
    requires var hi := lo + |written.values|; after[lo..hi] == Render(before[lo..hi], written)
    ensures forall i :: 0 <= i < |written.values| ==>
              after[lo + i] == if written.exact[i] then written.values[i] else before[lo + i]
  {
    var hi := lo + |written.values|;
    forall i | 0 <= i < |written.values|
      ensures after[lo + i] == if written.exact[i] then written.values[i] else before[lo + i]
    {
      assert after[lo + i] == after[lo..hi][i] && before[lo + i] == before[lo..hi][i];
    }
  }

  /** Writing rendered bytes at a hit of the signature makes that place a hit of the
      signature overlaid with a replacement text exactly when the written bytes are
      the text's, as far as the text fixes them. */
  lemma OverlayDescribesWrite(before: seq<byte>, after: seq<byte>, at: int, signature: Pattern,
                              patchOffset: int, text: Pattern, written: Pattern, preserve: bool)
    requires MatchesAt(before, at, signature) && |after| == |before|
    requires Fits(signature, patchOffset, |text.values|) && |written.values| == |text.values|
    requires forall i :: 0 <= i < |text.values| && text.exact[i] ==> written.exact[i]
    requires preserve ==> written == text
    requires var lo, hi := at + patchOffset, at + patchOffset + |text.values|;
             && after[lo..hi] == Render(before[lo..hi], written)
             && forall p :: at <= p < at + |signature.values| && !(lo <= p < hi) ==> after[p] == before[p]
    ensures MatchesAt(after, at, OverlaySpec(signature, patchOffset, text, preserve).value) <==>
            forall i :: 0 <= i < |text.values| && text.exact[i] ==> written.values[i] == text.values[i]
  {
    hide OverlaySpec, Render;
    OverlaidBytes(signature, patchOffset, text, preserve);
    var lo, patched := at + patchOffset, OverlaySpec(signature, patchOffset, text, preserve).value;
    WindowBytes(before, after, lo, written);
    if forall i :: 0 <= i < |text.values| && text.exact[i] ==> written.values[i] == text.values[i] {
      forall i | 0 <= i < |patched.values| && patched.exact[i]
        ensures after[at + i] == patched.values[i]
      {
        if patchOffset <= i < patchOffset + |text.values| {
          assert after[at + i] == after[lo + (i - patchOffset)];
        }
      }
    }
    if MatchesAt(after, at, patched) {
      forall i | 0 <= i < |text.values| && text.exact[i]
        ensures written.values[i] == text.values[i]
      {
        assert patched.exact[patchOffset + i];
        assert after[at + (patchOffset + i)] == after[lo + i];
      }
    }
  }
}
