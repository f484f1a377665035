/** When a rule applies, in terms of its texts and the bytes. */
module PatchRules {
  import opened Wrappers
  import opened Bytes
  import opened MaskedPattern
  import opened PatchEngine

  // ---------------------------------------------------------------- places

  /** The pattern matches at `k` and nowhere else. */
  ghost predicate OnlyAt(data: seq<byte>, pattern: Pattern, k: int) {
    MatchesAt(data, k, pattern) && forall j: int :: MatchesAt(data, j, pattern) ==> j == k
  }

  ghost predicate Nowhere(data: seq<byte>, pattern: Pattern) {
    forall j: int :: !MatchesAt(data, j, pattern)
  }

  /** The signature at `at` as a patched file shows it: the bytes that the replacement text
      fixes, and around them the signature's. Where the text leaves a byte of its window
      open, the signature's byte counts only for rules without a relocated jump. */
  predicate PatchedAt(data: seq<byte>, at: int, signature: Pattern, rule: PatchRule, text: Pattern) {
    && 0 <= at && at + |signature.values| <= |data|
    && forall i :: 0 <= i < |signature.values| ==> PatchedByte(data, at, signature, rule, text, i)
  }

  predicate PatchedByte(data: seq<byte>, at: nat, signature: Pattern, rule: PatchRule, text: Pattern, i: nat)
    requires at + |signature.values| <= |data| && i < |signature.values|
  {
    var inside := rule.patchOffset <= i < rule.patchOffset + |text.values|;
    if inside && text.exact[i - rule.patchOffset] then data[at + i] == text.values[i - rule.patchOffset]
    else signature.exact[i] && (!inside || rule.rel32Exit == 0) ==> data[at + i] == signature.values[i]
  }

  ghost predicate PatchedOnlyAt(data: seq<byte>, k: int, signature: Pattern, rule: PatchRule, text: Pattern) {
    && PatchedAt(data, k, signature, rule, text)
    && forall j: int :: PatchedAt(data, j, signature, rule, text) ==> j == k
  }

  ghost predicate PatchedNowhere(data: seq<byte>, signature: Pattern, rule: PatchRule, text: Pattern) {
    forall j: int :: !PatchedAt(data, j, signature, rule, text)
  }

  predicate WindowFits(signature: Pattern, rule: PatchRule, text: Pattern) {
    0 <= rule.patchOffset && rule.patchOffset + |text.values| <= |signature.values|
  }

  function Overlaid(signature: Pattern, rule: PatchRule, text: Pattern): (patched: Pattern)
    requires WindowFits(signature, rule, text)
    ensures OverlaySpec(signature, rule.patchOffset, text, PreservesWildcards(rule)) == Success(patched)
  {
    OverlaySpec(signature, rule.patchOffset, text, PreservesWildcards(rule)).value
  }

  lemma OverlaidMatches(data: seq<byte>, signature: Pattern, rule: PatchRule, text: Pattern)
    requires WindowFits(signature, rule, text)
    ensures forall at: int ::
              MatchesAt(data, at, Overlaid(signature, rule, text)) <==> PatchedAt(data, at, signature, rule, text)
  {
    hide OverlaySpec;
    OverlaidBytes(signature, rule.patchOffset, text, PreservesWildcards(rule));
    var patched := Overlaid(signature, rule, text);
    forall at: int
      ensures MatchesAt(data, at, patched) <==> PatchedAt(data, at, signature, rule, text)
    {
      if 0 <= at && at + |signature.values| <= |data| {
        forall i | 0 <= i < |signature.values|
          ensures (patched.exact[i] ==> data[at + i] == patched.values[i]) <==>
                  PatchedByte(data, at, signature, rule, text, i)
        {
        }
      }
    }
  }

  lemma OneElement(s: seq<nat>, k: nat)
    requires Ascending(s)
    ensures s == [k] <==> k in s && forall j: nat :: j in s ==> j == k
  {
    assert |s| > 1 ==> s[0] in s && s[1] in s && s[0] < s[1];
    assert s != [] ==> s[0] in s;
    if |s| == 1 { assert s == [s[0]]; }
    if s == [k] { assert s[0] == k; }
  }

  lemma HitsAre(data: seq<byte>, pattern: Pattern)
    ensures forall k: nat :: Hits(data, pattern) == [k] <==> OnlyAt(data, pattern, k)
    ensures Hits(data, pattern) == [] <==> Nowhere(data, pattern)
    ensures |Hits(data, pattern)| == 1 ==> OnlyAt(data, pattern, Hits(data, pattern)[0])
  {
    hide Hits;
    HitsExact(data, pattern);
    var hits := Hits(data, pattern);
    forall k: nat
      ensures hits == [k] <==> OnlyAt(data, pattern, k)
    {
      OneElement(hits, k);
    }
    if hits != [] { assert hits[0] in hits; }
    if |hits| == 1 { assert hits == [hits[0]]; }
  }

  lemma PatchedHitsAre(data: seq<byte>, signature: Pattern, rule: PatchRule, text: Pattern)
    requires WindowFits(signature, rule, text)
    ensures var hits := Hits(data, Overlaid(signature, rule, text));
            && (forall k: nat :: hits == [k] <==> PatchedOnlyAt(data, k, signature, rule, text))
            && (hits == [] <==> PatchedNowhere(data, signature, rule, text))
            && (|hits| == 1 ==> PatchedOnlyAt(data, hits[0], signature, rule, text))
  {
    hide Hits, MatchesAt, PatchedAt, Overlaid;
    OverlaidMatches(data, signature, rule, text);
    HitsAre(data, Overlaid(signature, rule, text));
  }

  // ---------------------------------------------------------------- what a rule asks of the bytes

  /** A rule without replacement holds at `k`. */
  ghost predicate Validates(source: seq<byte>, rule: PatchRule, signature: Pattern, expected: Pattern, k: nat) {
    && rule.patchOffset + |expected.values| <= |signature.values|
    && OnlyAt(source, signature, k) && MatchesAt(source, k + rule.patchOffset, expected)
  }

  ghost predicate SameWindow(rule: PatchRule, signature: Pattern, expected: Pattern, text: Pattern) {
    |expected.values| == |text.values| && WindowFits(signature, rule, text)
  }

  /** A relocated jump is five bytes and begins with 0xE9, and the signature contains
      the five bytes of the exit jump, which begin with 0xE9 too. */
  predicate JumpFits(source: seq<byte>, rule: PatchRule, signature: Pattern, text: Pattern, k: nat)
    requires k + |signature.values| <= |source|
  {
    && |text.values| == 5 && text.values[0] == 0xE9
    && 0 <= rule.rel32Exit && rule.rel32Exit + 5 <= |signature.values|
    && source[k + rule.rel32Exit] == 0xE9
  }

  /** A rule has to be written at `k`. */
  ghost predicate Patches(source: seq<byte>, rule: PatchRule, signature: Pattern, expected: Pattern, text: Pattern,
                          k: nat)
  {
    && SameWindow(rule, signature, expected, text)
    && OnlyAt(source, signature, k) && PatchedNowhere(source, signature, rule, text)
    && MatchesAt(source, k + rule.patchOffset, expected)
    && (rule.rel32Exit != 0 ==> JumpFits(source, rule, signature, text, k))
  }

  /** A rule has been written at `k` before. */
  ghost predicate IsPatched(source: seq<byte>, rule: PatchRule, signature: Pattern, expected: Pattern, text: Pattern,
                            k: nat)
  {
    && SameWindow(rule, signature, expected, text)
    && Nowhere(source, signature) && PatchedOnlyAt(source, k, signature, rule, text)
  }

  predicate TextsParse(rule: PatchRule) {
    && ParseSpec(rule.signatureHex).Success? && ParseSpec(rule.expectedHex).Success?
    && (rule.replacementHex.Some? ==> ParseSpec(rule.replacementHex.value).Success?)
  }

  /** A rule resolves to a state at `k` exactly when its texts parse and the bytes are as
      that state demands; anything else is a value error that names the rule. */
  lemma ResolvesExactly(source: seq<byte>, rule: PatchRule, k: nat, state: RuleState)
    ensures var r := ResolveSpec(source, rule);
            && (r.Success? && r.value.state == state && r.value.matchOffset == k <==>
                 && TextsParse(rule) && (state == Validated <==> rule.replacementHex.None?)
                 && var signature, expected := ParseSpec(rule.signatureHex).value, ParseSpec(rule.expectedHex).value;
                    if rule.replacementHex.None? then Validates(source, rule, signature, expected, k)
                    else
                      var text := ParseSpec(rule.replacementHex.value).value;
                      if state == Patch then Patches(source, rule, signature, expected, text, k)
                      else IsPatched(source, rule, signature, expected, text, k))
            && (r.Failure? ==> r.error.ValueError? && r.error.name == rule.name)
  {
    hide ParseSpec, MatchesAt, Hits, PatchedAt, OverlaySpec, PreservesWildcards, RelocatedJump;
    if TextsParse(rule) {
      var signature, expected := ParseSpec(rule.signatureHex).value, ParseSpec(rule.expectedHex).value;
      HitsAre(source, signature);
      if rule.replacementHex.Some? {
        var text := ParseSpec(rule.replacementHex.value).value;
        ReplacementResolves(source, rule, signature, expected, text, k, state);
      }
    }
  }

  lemma ReplacementResolves(source: seq<byte>, rule: PatchRule, signature: Pattern, expected: Pattern, text: Pattern,
                            k: nat, state: RuleState)
    ensures var r := ResolveReplacement(source, rule, signature, expected, text);
            && (r.Success? && r.value.state == state && r.value.matchOffset == k <==>
                 || (state == Patch && Patches(source, rule, signature, expected, text, k))
                 || (state == Already && IsPatched(source, rule, signature, expected, text, k)))
            && (r.Failure? ==> r.error.ValueError? && r.error.name == rule.name)
  {
    hide MatchesAt, Hits, PatchedAt, RelocatedJump;
    HitsAre(source, signature);
    if SameWindow(rule, signature, expected, text) {
      PatchedHitsAre(source, signature, rule, text);
    }
  }

  /** What a refusal says of a rule without replacement is so. */
  ghost predicate ValidationRefused(source: seq<byte>, rule: PatchRule, signature: Pattern, expected: Pattern,
                                    reason: Reason)
  {
    match reason
    case ValidationCount => forall k: nat :: !OnlyAt(source, signature, k)
    case ValidationMismatch =>
      exists k: nat :: OnlyAt(source, signature, k) && !MatchesAt(source, k + rule.patchOffset, expected)
    case _ => false
  }

  /** The same for a rule with one. */
  ghost predicate ReplacementRefused(source: seq<byte>, rule: PatchRule, signature: Pattern, expected: Pattern,
                                     text: Pattern, reason: Reason)
  {
    match reason
    case LengthMismatch => |expected.values| != |text.values|
    case Malformed(e) => e == OutsideSignature && !WindowFits(signature, rule, text)
    case Ambiguous =>
      && SameWindow(rule, signature, expected, text)
      && forall k: nat ::
           && !(OnlyAt(source, signature, k) && PatchedNowhere(source, signature, rule, text))
           && !(Nowhere(source, signature) && PatchedOnlyAt(source, k, signature, rule, text))
    case _ =>
      exists k: nat ::
        && SameWindow(rule, signature, expected, text)
        && OnlyAt(source, signature, k) && PatchedNowhere(source, signature, rule, text)
        && SiteRefused(source, rule, signature, expected, text, k, reason)
  }

  /** And of the one place where the rule would be written. */
  predicate SiteRefused(source: seq<byte>, rule: PatchRule, signature: Pattern, expected: Pattern, text: Pattern,
                        k: nat, reason: Reason)
  {
    if !MatchesAt(source, k + rule.patchOffset, expected) then reason == ExpectedMismatch
    else
      && rule.rel32Exit != 0
      && match reason
         case NotAJump => |text.values| != 5 || text.values[0] != 0xE9
         case ExitOutside => !(0 <= rule.rel32Exit <= |signature.values| - 5)
         case ExitNotAJump =>
           0 <= rule.rel32Exit && k + rule.rel32Exit < |source| && source[k + rule.rel32Exit] != 0xE9
         case _ => false
  }

  lemma SiteIsRefused(source: seq<byte>, rule: PatchRule, signature: Pattern, expected: Pattern, text: Pattern, k: nat)
    requires k + |signature.values| <= |source| && |expected.values| == |text.values|
    requires ResolvePatch(source, rule, signature, expected, text, k).Failure?
    ensures var reason := ResolvePatch(source, rule, signature, expected, text, k).error.reason;
            SiteRefused(source, rule, signature, expected, text, k, reason)
            && !reason.LengthMismatch? && !reason.Malformed? && !reason.Ambiguous?
  {
    hide MatchesAt;
  }

  lemma ReplacementIsRefused(source: seq<byte>, rule: PatchRule, signature: Pattern, expected: Pattern, text: Pattern)
    requires ResolveReplacement(source, rule, signature, expected, text).Failure?
    ensures ReplacementRefused(source, rule, signature, expected, text,
                ResolveReplacement(source, rule, signature, expected, text).error.reason)
  {
    hide MatchesAt, Hits, PatchedAt, ResolvePatch, SiteRefused;
    HitsAre(source, signature);
    if SameWindow(rule, signature, expected, text) {
      PatchedHitsAre(source, signature, rule, text);
      var hits := Hits(source, signature);
      if |hits| == 1 && PatchedNowhere(source, signature, rule, text) {
        SpanFits(source, hits[0], signature);
        SiteIsRefused(source, rule, signature, expected, text, hits[0]);
      }
    }
  }

  lemma SpanFits(data: seq<byte>, at: int, pattern: Pattern)
    requires MatchesAt(data, at, pattern)
    ensures 0 <= at && at + |pattern.values| <= |data|
  {
  }

  /** Every refusal of a rule whose texts parse gives a reason that holds. */
  lemma RefusalIsJustified(source: seq<byte>, rule: PatchRule)
    requires TextsParse(rule) && ResolveSpec(source, rule).Failure?
    ensures var signature, expected := ParseSpec(rule.signatureHex).value, ParseSpec(rule.expectedHex).value;
            var reason := ResolveSpec(source, rule).error.reason;
            || (reason == ExpectedOutside && rule.patchOffset + |expected.values| > |signature.values|)
            || (if rule.replacementHex.None? then ValidationRefused(source, rule, signature, expected, reason)
                else
                  ReplacementRefused(source, rule, signature, expected, ParseSpec(rule.replacementHex.value).value,
                    reason))
  {
    hide ParseSpec, MatchesAt, Hits, ResolveReplacement, ReplacementRefused;
    var signature, expected := ParseSpec(rule.signatureHex).value, ParseSpec(rule.expectedHex).value;
    HitsAre(source, signature);
    if rule.replacementHex.Some? && rule.patchOffset + |expected.values| <= |signature.values| {
      ReplacementIsRefused(source, rule, signature, expected, ParseSpec(rule.replacementHex.value).value);
    }
  }

  /** The final check of a rule passes exactly when its signature is there once, for a rule
      without replacement, or gone and patched once. It fails with an assertion unless its
      texts are at fault. */
  lemma RechecksExactly(final: seq<byte>, rule: PatchRule)
    requires ParseSpec(rule.signatureHex).Success?
    requires rule.replacementHex.Some? ==>
               && ParseSpec(rule.replacementHex.value).Success?
               && WindowFits(ParseSpec(rule.signatureHex).value, rule, ParseSpec(rule.replacementHex.value).value)
    ensures var signature := ParseSpec(rule.signatureHex).value;
            RecheckSpec(final, rule).None? <==>
              if rule.replacementHex.None? then exists k: nat :: OnlyAt(final, signature, k)
              else
                var text := ParseSpec(rule.replacementHex.value).value;
                Nowhere(final, signature) && exists k: nat :: PatchedOnlyAt(final, k, signature, rule, text)
    ensures RecheckSpec(final, rule).Some? ==> RecheckSpec(final, rule).value.AssertionError?
  {
    hide ParseSpec, MatchesAt, Hits, PatchedAt, OverlaySpec, PreservesWildcards;
    var signature := ParseSpec(rule.signatureHex).value;
    HitsAre(final, signature);
    if rule.replacementHex.Some? {
      PatchedHitsAre(final, signature, rule, ParseSpec(rule.replacementHex.value).value);
    }
  }
}
