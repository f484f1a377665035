/** Applying a list of masked patch rules to one artifact. */
module PatchEngine {
  import opened Wrappers
  import opened Bytes
  import opened MaskedPattern

  datatype PatchRule = PatchRule(
    artifactId: string,
    name: string,
    signatureHex: string,
    patchOffset: int,
    expectedHex: string,
    replacementHex: Option<string>,
    rel32Exit: int)

  datatype RuleState = Validated | Patch | Already

  datatype Resolved = Resolved(
    rule: PatchRule, matchOffset: nat, expected: Pattern, replacement: Option<Pattern>, state: RuleState)
  {
    function Site(): int { matchOffset + rule.patchOffset }

    /** A validation rule and an already patched site are skipped when writing. */
    predicate Writes() { replacement.Some? && state == Patch }

    function End(): int
      requires Writes()
    {
      Site() + |replacement.value.values|
    }

    predicate Covers(p: int) { Writes() && Site() <= p < End() }

    predicate Overlaps(other: Resolved) {
      Writes() && other.Writes() && Site() < other.End() && other.Site() < End()
    }

    predicate InBounds(size: nat) {
      Writes() ==> 0 <= Site() && End() <= size
    }
  }

  datatype Reason =
    | MixedArtifacts
    | Malformed(error: PatternError)
    | ExpectedOutside
    | ValidationCount
    | ValidationMismatch
    | LengthMismatch
    | Ambiguous
    | ExpectedMismatch
    | NotAJump
    | ExitOutside
    | ExitNotAJump
    | PatchOverlap
    | ValidationLost
    | OriginalRemains
    | PatchedNotUnique

  /** The two exception classes, with the rule that was being processed. */
  datatype PatchError = ValueError(name: string, reason: Reason) | AssertionError(name: string, reason: Reason)

  type Outcome = Result<(seq<byte>, bool), PatchError>

  function SignedLe32(s: seq<byte>, at: int): (v: int)
    requires 0 <= at && at + 4 <= |s|
    ensures v % U32 == ReadLe32(s, at) && -0x8000_0000 <= v < 0x8000_0000
  {
    var u := ReadLe32(s, at);
    if u < 0x8000_0000 then u else u - U32
  }

  predicate PreservesWildcards(rule: PatchRule) {
    rule.rel32Exit == 0
  }

  // ---------------------------------------------------------------- specification

  /** The `e9` instruction that, placed at `site`, goes where the jump at `exitSite` goes. */
  function RelocatedJump(source: seq<byte>, site: int, exitSite: int): (jump: Pattern)
    requires 0 <= exitSite && exitSite + 5 <= |source|
    ensures |jump.values| == 5
  {
    var target := exitSite + 5 + SignedLe32(source, exitSite + 1);
    MaskedBytes([0xE9] + Le32((target - (site + 5)) % U32), [true, true, true, true, true])
  }

  function ResolvePatch(source: seq<byte>, rule: PatchRule, signature: Pattern,
                        expected: Pattern, replacement: Pattern, at: nat)
    : Result<Resolved, PatchError>
    requires at + |signature.values| <= |source|
  {
    var site := at + rule.patchOffset;
    var exitSite := at + rule.rel32Exit;
    if !MatchesAt(source, site, expected) then Failure(ValueError(rule.name, ExpectedMismatch))
    else if rule.rel32Exit == 0 then Success(Resolved(rule, at, expected, Some(replacement), Patch))
    else if |replacement.values| != 5 || replacement.values[0] != 0xE9 then Failure(ValueError(rule.name, NotAJump))
    else if exitSite < at || exitSite + 5 > at + |signature.values| then Failure(ValueError(rule.name, ExitOutside))
    else if source[exitSite] != 0xE9 then Failure(ValueError(rule.name, ExitNotAJump))
    else Success(Resolved(rule, at, expected, Some(RelocatedJump(source, site, exitSite)), Patch))
  }

  function ResolveReplacement(source: seq<byte>, rule: PatchRule, signature: Pattern,
                              expected: Pattern, replacement: Pattern)
    : Result<Resolved, PatchError>
  {
    if |expected.values| != |replacement.values| then Failure(ValueError(rule.name, LengthMismatch))
    else
      match OverlaySpec(signature, rule.patchOffset, replacement, PreservesWildcards(rule))
      case Failure(e) => Failure(ValueError(rule.name, Malformed(e)))
      case Success(patched) =>
        var original, already := Hits(source, signature), Hits(source, patched);
        if |original| == 1 && already == [] then
          HitsExact(source, signature);
          assert original[0] in original;
          ResolvePatch(source, rule, signature, expected, replacement, original[0])
        else if original == [] && |already| == 1 then
          Success(Resolved(rule, already[0], expected, Some(replacement), Already))
        else Failure(ValueError(rule.name, Ambiguous))
  }

  /** One rule against the pristine input. */
  function ResolveSpec(source: seq<byte>, rule: PatchRule): Result<Resolved, PatchError> {
    match ParseSpec(rule.signatureHex)
    case Failure(e) => Failure(ValueError(rule.name, Malformed(e)))
    case Success(signature) =>
      match ParseSpec(rule.expectedHex)
      case Failure(e) => Failure(ValueError(rule.name, Malformed(e)))
      case Success(expected) =>
        var hits := Hits(source, signature);
        if rule.patchOffset + |expected.values| > |signature.values| then
          Failure(ValueError(rule.name, ExpectedOutside))
        else if rule.replacementHex.None? then
          if |hits| != 1 then Failure(ValueError(rule.name, ValidationCount))
          else if !MatchesAt(source, hits[0] + rule.patchOffset, expected) then
            Failure(ValueError(rule.name, ValidationMismatch))
          else Success(Resolved(rule, hits[0], expected, None, Validated))
        else
          match ParseSpec(rule.replacementHex.value)
          case Failure(e) => Failure(ValueError(rule.name, Malformed(e)))
          case Success(replacement) => ResolveReplacement(source, rule, signature, expected, replacement)
  }

  function ResolveAll(source: seq<byte>, rules: seq<PatchRule>): (r: Result<seq<Resolved>, PatchError>)
    ensures r.Success? ==> |r.value| == |rules|
  {
    if rules == [] then Success([])
    else
      match ResolveAll(source, rules[..|rules| - 1])
      case Failure(e) => Failure(e)
      case Success(done) =>
        match ResolveSpec(source, rules[|rules| - 1])
        case Failure(e) => Failure(e)
        case Success(last) => Success(done + [last])
  }

  function FirstOverlap(resolved: seq<Resolved>): Option<PatchError> {
    if resolved == [] then None
    else
      var before, last := resolved[..|resolved| - 1], resolved[|resolved| - 1];
      if FirstOverlap(before).Some? then FirstOverlap(before)
      else if exists other <- before :: last.Overlaps(other) then Some(ValueError(last.rule.name, PatchOverlap))
      else None
  }

  /** The bytes after the writes of `resolved`, and whether any write changed a byte. */
  function WriteAll(source: seq<byte>, resolved: seq<Resolved>): (r: (seq<byte>, bool))
    requires forall item <- resolved :: item.InBounds(|source|)
    ensures |r.0| == |source|
  {
    if resolved == [] then (source, false)
    else
      var (data, changed) := WriteAll(source, resolved[..|resolved| - 1]);
      var last := resolved[|resolved| - 1];
      if !last.Writes() then (data, changed)
      else
        assert last in resolved && last.InBounds(|data|);
        var before := data[last.Site()..last.End()];
        var after := Render(before, last.replacement.value);
        (Splice(data, last.Site(), after), changed || before != after)
  }

  /** The final check of one rule; it can only be reached with a rule that resolved. */
  function RecheckSpec(final: seq<byte>, rule: PatchRule): Option<PatchError> {
    match ParseSpec(rule.signatureHex)
    case Failure(e) => Some(ValueError(rule.name, Malformed(e)))
    case Success(signature) =>
      if rule.replacementHex.None? then
        if |Hits(final, signature)| != 1 then Some(AssertionError(rule.name, ValidationLost)) else None
      else
        match ParseSpec(rule.replacementHex.value)
        case Failure(e) => Some(ValueError(rule.name, Malformed(e)))
        case Success(replacement) =>
          match OverlaySpec(signature, rule.patchOffset, replacement, PreservesWildcards(rule))
          case Failure(e) => Some(ValueError(rule.name, Malformed(e)))
          case Success(patched) =>
            if Hits(final, signature) != [] then Some(AssertionError(rule.name, OriginalRemains))
            else if |Hits(final, patched)| != 1 then Some(AssertionError(rule.name, PatchedNotUnique))
            else None
  }

  function RecheckAll(final: seq<byte>, rules: seq<PatchRule>): Option<PatchError> {
    if rules == [] then None
    else
      var before := RecheckAll(final, rules[..|rules| - 1]);
      if before.Some? then before else RecheckSpec(final, rules[|rules| - 1])
  }

  function ArtifactIds(rules: seq<PatchRule>): set<string> {
    set rule <- rules :: rule.artifactId
  }

  /** What `apply_rules` returns, phase by phase. */
  function Apply(source: seq<byte>, rules: seq<PatchRule>): Outcome {
    if |ArtifactIds(rules)| > 1 then Failure(ValueError("", MixedArtifacts))
    else
      match ResolveAll(source, rules)
      case Failure(e) => Failure(e)
      case Success(resolved) =>
        ResolvedInBounds(source, rules);
        var final := WriteAll(source, resolved);
        if FirstOverlap(resolved).Some? then Failure(FirstOverlap(resolved).value)
        else if RecheckAll(final.0, rules).Some? then Failure(RecheckAll(final.0, rules).value)
        else Success(final)
  }

  // ---------------------------------------------------------------- facts about resolution

  /** A resolved write lies inside the match of its signature, hence inside the source. */
  lemma ResolvedFacts(source: seq<byte>, rule: PatchRule)
    requires ResolveSpec(source, rule).Success?
    ensures ResolveSpec(source, rule).value.rule == rule
    ensures ResolveSpec(source, rule).value.InBounds(|source|)
    ensures ResolveSpec(source, rule).value.Writes() ==>
              ResolveSpec(source, rule).value.Site() < ResolveSpec(source, rule).value.End()
  {
    var signature := ParseSpec(rule.signatureHex).value;
    HitsExact(source, signature);
    assert forall k <- Hits(source, signature) :: MatchesAt(source, k, signature);
  }

  lemma ResolveFailsWithValueError(source: seq<byte>, rule: PatchRule)
    ensures ResolveSpec(source, rule).Failure? ==> ResolveSpec(source, rule).error.ValueError?
  {
  }

  lemma {:induction false} ResolveAllItems(source: seq<byte>, rules: seq<PatchRule>)
    requires ResolveAll(source, rules).Success?
    ensures forall i :: 0 <= i < |rules| ==>
              ResolveSpec(source, rules[i]) == Success(ResolveAll(source, rules).value[i])
  {
    hide ResolveSpec;
    if rules != [] {
      var before := rules[..|rules| - 1];
      ResolveAllItems(source, before);
      forall i | 0 <= i < |rules|
        ensures ResolveSpec(source, rules[i]) == Success(ResolveAll(source, rules).value[i])
      {
        if i < |rules| - 1 { assert rules[i] == before[i]; }
      }
    }
  }

  lemma {:induction false} ResolveAllFailure(source: seq<byte>, rules: seq<PatchRule>)
    requires ResolveAll(source, rules).Failure?
    ensures ResolveAll(source, rules).error.ValueError?
    ensures exists rule :: rule in rules && ResolveSpec(source, rule).Failure?
  {
    hide ResolveSpec;
    var before, last := rules[..|rules| - 1], rules[|rules| - 1];
    if ResolveAll(source, before).Failure? {
      ResolveAllFailure(source, before);
      var rule :| rule in before && ResolveSpec(source, rule).Failure?;
      assert rule in rules;
    } else {
      ResolveFailsWithValueError(source, last);
      assert last in rules;
    }
  }

  /** Resolution succeeds exactly when every rule resolves on its own. */
  lemma ResolveAllMeaning(source: seq<byte>, rules: seq<PatchRule>)
    ensures ResolveAll(source, rules).Success? <==> forall rule <- rules :: ResolveSpec(source, rule).Success?
    ensures ResolveAll(source, rules).Success? ==>
              forall i :: 0 <= i < |rules| ==>
                  ResolveSpec(source, rules[i]) == Success(ResolveAll(source, rules).value[i])
    ensures ResolveAll(source, rules).Failure? ==> ResolveAll(source, rules).error.ValueError?
  {
    hide ResolveSpec;
    if ResolveAll(source, rules).Success? {
      ResolveAllItems(source, rules);
    } else {
      ResolveAllFailure(source, rules);
    }
  }

  lemma ResolvedInBounds(source: seq<byte>, rules: seq<PatchRule>)
    requires ResolveAll(source, rules).Success?
    ensures forall item <- ResolveAll(source, rules).value :: item.InBounds(|source|)
  {
    ResolveAllMeaning(source, rules);
    var resolved := ResolveAll(source, rules).value;
    forall i | 0 <= i < |resolved|
      ensures resolved[i].InBounds(|source|)
    {
      ResolvedFacts(source, rules[i]);
    }
  }

  // ---------------------------------------------------------------- the engine

  method ResolveRule(source: seq<byte>, rule: PatchRule) returns (r: Result<Resolved, PatchError>)
    ensures r == ResolveSpec(source, rule)
  {
    hide ParseSpec, Hits, OverlaySpec, ResolvePatch;
    var parsedSignature := ParseMaskedHex(rule.signatureHex);
    if parsedSignature.Failure? {
      return Failure(ValueError(rule.name, Malformed(parsedSignature.error)));
    }
    var signature := parsedSignature.value;
    var parsedExpected := ParseMaskedHex(rule.expectedHex);
    if parsedExpected.Failure? {
      return Failure(ValueError(rule.name, Malformed(parsedExpected.error)));
    }
    var expected := parsedExpected.value;
    if rule.patchOffset + |expected.values| > |signature.values| {
      return Failure(ValueError(rule.name, ExpectedOutside));
    }
    var originalHits := FindMasked(source, signature);
    if rule.replacementHex.None? {
      if |originalHits| != 1 {
        return Failure(ValueError(rule.name, ValidationCount));
      }
      if !MatchesAt(source, originalHits[0] + rule.patchOffset, expected) {
        return Failure(ValueError(rule.name, ValidationMismatch));
      }
      return Success(Resolved(rule, originalHits[0], expected, None, Validated));
    }
    var parsedReplacement := ParseMaskedHex(rule.replacementHex.value);
    if parsedReplacement.Failure? {
      return Failure(ValueError(rule.name, Malformed(parsedReplacement.error)));
    }
    var replacement := parsedReplacement.value;
    if |expected.values| != |replacement.values| {
      return Failure(ValueError(rule.name, LengthMismatch));
    }
    var overlaid := OverlayPattern(signature, rule.patchOffset, replacement, PreservesWildcards(rule));
    if overlaid.Failure? {
      return Failure(ValueError(rule.name, Malformed(overlaid.error)));
    }
    var patchedHits := FindMasked(source, overlaid.value);
    if |originalHits| == 1 && patchedHits == [] {
      assert originalHits[0] in originalHits;
      return ResolvePatch(source, rule, signature, expected, replacement, originalHits[0]);
    }
    if originalHits == [] && |patchedHits| == 1 {
      return Success(Resolved(rule, patchedHits[0], expected, Some(replacement), Already));
    }
    return Failure(ValueError(rule.name, Ambiguous));
  }

  method RecheckRule(final: seq<byte>, rule: PatchRule) returns (r: Option<PatchError>)
    ensures r == RecheckSpec(final, rule)
  {
    var signature := ParseMaskedHex(rule.signatureHex);
    if signature.Failure? {
      return Some(ValueError(rule.name, Malformed(signature.error)));
    }
    var originalHits := FindMasked(final, signature.value);
    if rule.replacementHex.None? {
      return if |originalHits| != 1 then Some(AssertionError(rule.name, ValidationLost)) else None;
    }
    var replacement := ParseMaskedHex(rule.replacementHex.value);
    if replacement.Failure? {
      return Some(ValueError(rule.name, Malformed(replacement.error)));
    }
    var patched := OverlayPattern(signature.value, rule.patchOffset, replacement.value, PreservesWildcards(rule));
    if patched.Failure? {
      return Some(ValueError(rule.name, Malformed(patched.error)));
    }
    if originalHits != [] {
      return Some(AssertionError(rule.name, OriginalRemains));
    }
    var patchedHits := FindMasked(final, patched.value);
    return if |patchedHits| != 1 then Some(AssertionError(rule.name, PatchedNotUnique)) else None;
  }

  lemma NoWindows()
    ensures FirstOverlap([]).None?
  {
  }

  lemma OverlapSoFar(resolved: seq<Resolved>, i: nat)
    requires i < |resolved| && FirstOverlap(resolved[..i]).None?
    ensures FirstOverlap(resolved[..i + 1]) ==
            if exists other <- resolved[..i] :: resolved[i].Overlaps(other)
            then Some(ValueError(resolved[i].rule.name, PatchOverlap)) else None
  {
    assert resolved[..i + 1][..i] == resolved[..i];
  }

  /** Rejects a write window that meets an earlier one. */
  method CheckOverlaps(resolved: seq<Resolved>) returns (r: Option<PatchError>)
    ensures r == FirstOverlap(resolved)
  {
    hide FirstOverlap;
    NoWindows();
    var ranges: seq<(int, int)> := [];
    for i := 0 to |resolved|
      invariant FirstOverlap(resolved[..i]).None?
      invariant forall range <- ranges :: exists other <- resolved[..i] ::
                  other.Writes() && range == (other.Site(), other.End())
      invariant forall other <- resolved[..i] :: other.Writes() ==> (other.Site(), other.End()) in ranges
    {
      OverlapSoFar(resolved, i);
      var item := resolved[i];
      if item.Writes() {
        if exists range <- ranges :: item.Site() < range.1 && range.0 < item.End() {
          var range :| range in ranges && item.Site() < range.1 && range.0 < item.End();
          var other :| other in resolved[..i] && other.Writes() && range == (other.Site(), other.End());
          assert item.Overlaps(other);
          OverlapPersists(resolved, i + 1);
          return Some(ValueError(item.rule.name, PatchOverlap));
        }
        assert forall other <- resolved[..i] :: !item.Overlaps(other);
        ranges := ranges + [(item.Site(), item.End())];
      }
    }
    assert resolved[..|resolved|] == resolved;
    return None;
  }

  lemma {:induction false} OverlapPersists(resolved: seq<Resolved>, n: nat)
    requires n <= |resolved| && FirstOverlap(resolved[..n]).Some?
    ensures FirstOverlap(resolved) == FirstOverlap(resolved[..n])
    decreases |resolved|
  {
    if n == |resolved| {
      assert resolved[..n] == resolved;
    } else {
      var before := resolved[..|resolved| - 1];
      assert before[..n] == resolved[..n];
      OverlapPersists(before, n);
    }
  }

  method ApplyRules(source: seq<byte>, rules: seq<PatchRule>) returns (r: Outcome)
    ensures r == Apply(source, rules)
  {
    hide ResolveSpec, RecheckSpec;
    if |ArtifactIds(rules)| > 1 {
      return Failure(ValueError("", MixedArtifacts));
    }
    var all := ResolveRules(source, rules);
    if all.Failure? {
      return Failure(all.error);
    }
    ResolvedInBounds(source, rules);
    var overlap := CheckOverlaps(all.value);
    if overlap.Some? {
      return Failure(overlap.value);
    }
    var final, changed := WriteResolved(source, all.value);
    var failed := RecheckRules(final, rules);
    if failed.Some? {
      return Failure(failed.value);
    }
    return Success((final, changed));
  }

  /** Resolves every rule against the pristine input before anything is written. */
  method ResolveRules(source: seq<byte>, rules: seq<PatchRule>) returns (r: Result<seq<Resolved>, PatchError>)
    ensures r == ResolveAll(source, rules)
  {
    hide ResolveSpec;
    var resolved: seq<Resolved> := [];
    for i := 0 to |rules|
      invariant ResolveAll(source, rules[..i]) == Success(resolved)
    {
      assert rules[..i + 1][..i] == rules[..i];
      var one := ResolveRule(source, rules[i]);
      if one.Failure? {
        ResolveFailurePersists(source, rules, i + 1);
        return Failure(one.error);
      }
      resolved := resolved + [one.value];
    }
    assert rules[..|rules|] == rules;
    return Success(resolved);
  }

  method RecheckRules(final: seq<byte>, rules: seq<PatchRule>) returns (r: Option<PatchError>)
    ensures r == RecheckAll(final, rules)
  {
    hide RecheckSpec;
    for i := 0 to |rules|
      invariant RecheckAll(final, rules[..i]).None?
    {
      assert rules[..i + 1][..i] == rules[..i];
      var failed := RecheckRule(final, rules[i]);
      if failed.Some? {
        RecheckFailurePersists(final, rules, i + 1);
        return failed;
      }
    }
    assert rules[..|rules|] == rules;
    return None;
  }

  method WriteResolved(source: seq<byte>, resolved: seq<Resolved>) returns (final: seq<byte>, changed: bool)
    requires forall item <- resolved :: item.InBounds(|source|)
    ensures (final, changed) == WriteAll(source, resolved)
  {
    var result := new byte[|source|](i requires 0 <= i < |source| => source[i]);
    assert result[..] == source;
    changed := false;
    for i := 0 to |resolved|
      invariant (result[..], changed) == WriteAll(source, resolved[..i])
    {
      assert resolved[..i + 1][..i] == resolved[..i];
      var item := resolved[i];
      if item.Writes() {
        assert item in resolved && item.InBounds(result.Length);
        var before := result[item.Site()..item.End()];
        assert before == result[..][item.Site()..item.End()];
        var after := Render(before, item.replacement.value);
        WriteBytes(result, item.Site(), after);
        changed := changed || before != after;
      }
    }
    assert resolved[..|resolved|] == resolved;
    final := result[..];
  }

  lemma {:induction false} ResolveFailurePersists(source: seq<byte>, rules: seq<PatchRule>, n: nat)
    requires n <= |rules| && ResolveAll(source, rules[..n]).Failure?
    ensures ResolveAll(source, rules) == ResolveAll(source, rules[..n])
    decreases |rules|
  {
    if n == |rules| {
      assert rules[..n] == rules;
    } else {
      var before := rules[..|rules| - 1];
      assert before[..n] == rules[..n];
      ResolveFailurePersists(source, before, n);
    }
  }

  lemma {:induction false} RecheckFailurePersists(final: seq<byte>, rules: seq<PatchRule>, n: nat)
    requires n <= |rules| && RecheckAll(final, rules[..n]).Some?
    ensures RecheckAll(final, rules) == RecheckAll(final, rules[..n])
    decreases |rules|
  {
    if n == |rules| {
      assert rules[..n] == rules;
    } else {
      var before := rules[..|rules| - 1];
      assert before[..n] == rules[..n];
      RecheckFailurePersists(final, before, n);
    }
  }
}
