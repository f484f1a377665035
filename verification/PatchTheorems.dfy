/** What a successful patch run guarantees: meaning of the writes, order
    independence, idempotence and jump relocation. */
module PatchTheorems {
  import opened Wrappers
  import opened Bytes
  import opened MaskedPattern
  import opened PatchEngine

  // ---------------------------------------------------------------- order-free meaning of the phases

  ghost predicate Disjoint(resolved: seq<Resolved>) {
    forall i, j :: 0 <= i < j < |resolved| ==> !resolved[j].Overlaps(resolved[i])
  }

  lemma {:induction false} FirstOverlapMeaning(resolved: seq<Resolved>)
    ensures FirstOverlap(resolved).None? <==> Disjoint(resolved)
    ensures FirstOverlap(resolved).Some? ==> FirstOverlap(resolved).value.ValueError?
  {
    if resolved != [] {
      var before, last := resolved[..|resolved| - 1], resolved[|resolved| - 1];
      FirstOverlapMeaning(before);
      assert forall i :: 0 <= i < |before| ==> before[i] == resolved[i] && before[i] in before;
    }
  }

  lemma RecheckLast(final: seq<byte>, rules: seq<PatchRule>)
    requires rules != [] && RecheckAll(final, rules).None?
    ensures RecheckAll(final, rules[..|rules| - 1]).None? && RecheckSpec(final, rules[|rules| - 1]).None?
  {
    hide RecheckSpec;
  }

  lemma {:induction false} RecheckAllPasses(final: seq<byte>, rules: seq<PatchRule>)
    requires RecheckAll(final, rules).None?
    ensures forall i :: 0 <= i < |rules| ==> RecheckSpec(final, rules[i]).None?
  {
    if rules != [] {
      hide RecheckSpec, RecheckAll;
      var before := rules[..|rules| - 1];
      RecheckLast(final, rules);
      RecheckAllPasses(final, before);
      forall i | 0 <= i < |rules|
        ensures RecheckSpec(final, rules[i]).None?
      {
        if i < |before| {
          assert rules[i] == before[i];
        }
      }
    }
  }

  /** A failing recheck is that of some rule. */
  lemma {:induction false} RecheckAllFails(final: seq<byte>, rules: seq<PatchRule>) returns (i: nat)
    requires RecheckAll(final, rules).Some?
    ensures i < |rules| && RecheckSpec(final, rules[i]) == RecheckAll(final, rules)
  {
    hide RecheckSpec;
    var before := rules[..|rules| - 1];
    if RecheckAll(final, before).Some? {
      i := RecheckAllFails(final, before);
    } else {
      i := |before|;
    }
  }

  /** The byte that a writing item puts at a position of its window. */
  function WrittenByte(source: seq<byte>, item: Resolved, p: int): byte
    requires 0 <= p < |source| && item.Covers(p)
  {
    var i := p - item.Site();
    if item.replacement.value.exact[i] then item.replacement.value.values[i] else source[p]
  }

  /** `data` holds the bytes of the writing items in their windows and the source elsewhere. */
  ghost predicate HoldsWrites(source: seq<byte>, resolved: seq<Resolved>, data: seq<byte>) {
    && |data| == |source|
    && (forall i, p :: 0 <= i < |resolved| && 0 <= p < |source| && resolved[i].Covers(p) ==>
         data[p] == WrittenByte(source, resolved[i], p))
    && (forall p :: 0 <= p < |source| && (forall i :: 0 <= i < |resolved| ==> !resolved[i].Covers(p)) ==>
         data[p] == source[p])
  }

  /** Disjoint windows make the in-place writes independent of each other, and the
      flag tells whether any byte changed. */
  lemma {:induction false} WriteAllMeaning(source: seq<byte>, resolved: seq<Resolved>)
    requires Disjoint(resolved) && forall item <- resolved :: item.InBounds(|source|)
    ensures HoldsWrites(source, resolved, WriteAll(source, resolved).0)
    ensures WriteAll(source, resolved).1 <==> WriteAll(source, resolved).0 != source
  {
    if resolved != [] {
      var before, last := resolved[..|resolved| - 1], resolved[|resolved| - 1];
      assert forall i :: 0 <= i < |before| ==> before[i] == resolved[i];
      WriteAllMeaning(source, before);
      assert last in resolved && last.InBounds(|source|);
      if last.Writes() {
        WriteOne(source, before, last, WriteAll(source, before).0);
        assert before + [last] == resolved;
      } else {
        SkipOne(source, before, last, WriteAll(source, before).0);
        assert before + [last] == resolved;
      }
    }
  }

  lemma SkipOne(source: seq<byte>, before: seq<Resolved>, last: Resolved, data: seq<byte>)
    requires HoldsWrites(source, before, data) && !last.Writes()
    ensures HoldsWrites(source, before + [last], data)
  {
    assert forall i :: 0 <= i < |before| ==> (before + [last])[i] == before[i];
  }

  /** Before the write of the last item its window holds the pristine bytes. */
  lemma WindowIsPristine(source: seq<byte>, before: seq<Resolved>, last: Resolved, data: seq<byte>, p: int)
    requires HoldsWrites(source, before, data) && 0 <= p < |source| && last.Covers(p)
    requires forall i :: 0 <= i < |before| ==> !last.Overlaps(before[i])
    ensures data[p] == source[p]
  {
    forall i | 0 <= i < |before|
      ensures !before[i].Covers(p)
    {
      assert before[i].Covers(p) ==> last.Overlaps(before[i]);
    }
  }

  lemma WriteOne(source: seq<byte>, before: seq<Resolved>, last: Resolved, data: seq<byte>)
    requires HoldsWrites(source, before, data)
    requires last.Writes() && last.InBounds(|source|)
    requires forall i :: 0 <= i < |before| ==> !last.Overlaps(before[i])
    ensures var was := data[last.Site()..last.End()];
            var now := Render(was, last.replacement.value);
            var after := Splice(data, last.Site(), now);
            HoldsWrites(source, before + [last], after) && ((data != source || was != now) <==> after != source)
  {
    hide HoldsWrites;
    HeldLength(source, before, data);
    var lo, hi := last.Site(), last.End();
    var was := data[lo..hi];
    var now := Render(was, last.replacement.value);
    var after := Splice(data, lo, now);
    forall p | lo <= p < hi
      ensures data[p] == source[p] && last.Covers(p) && after[p] == WrittenByte(source, last, p)
    {
      assert last.Covers(p);
      WindowIsPristine(source, before, last, data, p);
      assert was[p - lo] == data[p] && after[p] == now[p - lo];
    }
    WindowsApart(source, before, last, data, after);
    FlagOfWrite(source, data, lo, now);
  }

  lemma HeldLength(source: seq<byte>, resolved: seq<Resolved>, data: seq<byte>)
    requires HoldsWrites(source, resolved, data)
    ensures |data| == |source|
  {
  }

  /** Writing over pristine bytes leaves the source iff nothing had changed and nothing changes. */
  lemma FlagOfWrite(source: seq<byte>, data: seq<byte>, lo: nat, now: seq<byte>)
    requires |data| == |source| && lo + |now| <= |data|
    requires forall p :: lo <= p < lo + |now| ==> data[p] == source[p]
    ensures (data != source || data[lo..lo + |now|] != now) <==> Splice(data, lo, now) != source
  {
    var was, after := data[lo..lo + |now|], Splice(data, lo, now);
    if was == now {
      SpliceSame(data, lo, now);
    } else {
      var i :| 0 <= i < |was| && was[i] != now[i];
      assert after[lo + i] != source[lo + i];
    }
  }

  lemma WindowsApart(source: seq<byte>, before: seq<Resolved>, last: Resolved, data: seq<byte>, after: seq<byte>)
    requires HoldsWrites(source, before, data) && |after| == |source|
    requires last.Writes() && last.InBounds(|source|)
    requires forall i :: 0 <= i < |before| ==> !last.Overlaps(before[i])
    requires forall p :: 0 <= p < |source| && last.Covers(p) ==> after[p] == WrittenByte(source, last, p)
    requires forall p :: 0 <= p < |source| && !last.Covers(p) ==> after[p] == data[p]
    ensures HoldsWrites(source, before + [last], after)
  {
    var all := before + [last];
    forall i, p | 0 <= i < |all| && 0 <= p < |source| && all[i].Covers(p)
      ensures after[p] == WrittenByte(source, all[i], p)
    {
      if i < |before| {
        assert all[i] == before[i] && !last.Covers(p);
      }
    }
    forall p | 0 <= p < |source| && forall i :: 0 <= i < |all| ==> !all[i].Covers(p)
      ensures after[p] == source[p]
    {
      assert !all[|before|].Covers(p);
      assert forall i :: 0 <= i < |before| ==> before[i] == all[i];
    }
  }

  // ---------------------------------------------------------------- meaning of a whole run

  ghost predicate AllResolve(source: seq<byte>, rules: seq<PatchRule>) {
    forall i :: 0 <= i < |rules| ==> ResolveSpec(source, rules[i]).Success?
  }

  /** A rule as resolved on its own against the pristine source. */
  function Item(source: seq<byte>, rule: PatchRule): Resolved
    requires ResolveSpec(source, rule).Success?
  {
    ResolveSpec(source, rule).value
  }

  ghost function Items(source: seq<byte>, rules: seq<PatchRule>): (items: seq<Resolved>)
    requires AllResolve(source, rules)
    ensures |items| == |rules|
    ensures forall i :: 0 <= i < |rules| ==> items[i] == Item(source, rules[i])
  {
    seq(|rules|, i requires 0 <= i < |rules| => Item(source, rules[i]))
  }

  ghost predicate AllRechecked(final: seq<byte>, rules: seq<PatchRule>) {
    forall i :: 0 <= i < |rules| ==> RecheckSpec(final, rules[i]).None?
  }

  lemma ResolvedIsItems(source: seq<byte>, rules: seq<PatchRule>)
    ensures ResolveAll(source, rules).Success? <==> AllResolve(source, rules)
    ensures AllResolve(source, rules) ==> ResolveAll(source, rules).value == Items(source, rules)
    ensures AllResolve(source, rules) ==> forall item <- Items(source, rules) :: item.InBounds(|source|)
  {
    hide ResolveSpec;
    ResolveAllMeaning(source, rules);
    if AllResolve(source, rules) {
      forall rule | rule in rules
        ensures ResolveSpec(source, rule).Success?
      {
        var i :| 0 <= i < |rules| && rules[i] == rule;
      }
      ResolvedInBounds(source, rules);
    }
  }

  lemma HeldWritesAreUnique(source: seq<byte>, items: seq<Resolved>, one: seq<byte>, two: seq<byte>)
    requires HoldsWrites(source, items, one) && HoldsWrites(source, items, two)
    ensures one == two
  {
    forall p | 0 <= p < |source|
      ensures one[p] == two[p]
    {
      if i :| 0 <= i < |items| && items[i].Covers(p) {
      } else {
        assert one[p] == source[p] == two[p];
      }
    }
  }

  /** A run succeeds exactly when the rules name one artifact, each resolves
      against the pristine source, the write windows are disjoint and every rule
      passes the recheck on the patched bytes; the result is then those bytes. */
  lemma RunMeaning(source: seq<byte>, rules: seq<PatchRule>, final: seq<byte>, changed: bool)
    ensures Apply(source, rules) == Success((final, changed)) <==>
            && |ArtifactIds(rules)| <= 1
            && AllResolve(source, rules)
            && Disjoint(Items(source, rules))
            && HoldsWrites(source, Items(source, rules), final)
            && AllRechecked(final, rules)
            && (changed <==> final != source)
  {
    hide ResolveSpec, RecheckSpec;
    ResolvedIsItems(source, rules);
    if AllResolve(source, rules) {
      var items := Items(source, rules);
      FirstOverlapMeaning(items);
      if Disjoint(items) {
        WriteAllMeaning(source, items);
        var written := WriteAll(source, items);
        if RecheckAll(written.0, rules).None? {
          RecheckAllPasses(written.0, rules);
        } else {
          var i := RecheckAllFails(written.0, rules);
        }
        if HoldsWrites(source, items, final) {
          HeldWritesAreUnique(source, items, final, written.0);
        }
      }
    }
  }

  /** The exception class is fixed by the first phase that fails: only a rule
      that is lost after all writes raises the assertion. */
  lemma FailureClass(source: seq<byte>, rules: seq<PatchRule>)
    requires Apply(source, rules).Failure?
    ensures Apply(source, rules).error.AssertionError? <==>
            |ArtifactIds(rules)| <= 1 && AllResolve(source, rules) && Disjoint(Items(source, rules))
  {
    hide ResolveSpec, RecheckSpec;
    ResolvedIsItems(source, rules);
    ResolveAllMeaning(source, rules);
    if AllResolve(source, rules) {
      var items := Items(source, rules);
      FirstOverlapMeaning(items);
      if Disjoint(items) && |ArtifactIds(rules)| <= 1 {
        var final := WriteAll(source, items).0;
        var i := RecheckAllFails(final, rules);
        RecheckIsAssertion(source, final, rules[i]);
      }
    }
  }

  lemma RecheckIsAssertion(source: seq<byte>, final: seq<byte>, rule: PatchRule)
    requires ResolveSpec(source, rule).Success? && RecheckSpec(final, rule).Some?
    ensures RecheckSpec(final, rule).value.AssertionError?
  {
  }

  // ---------------------------------------------------------------- order independence

  lemma {:induction false} Occurrences<T>(s: seq<T>, x: T)
    ensures x in s <==> multiset(s)[x] >= 1
    ensures multiset(s)[x] >= 2 <==> exists i, j :: 0 <= i < j < |s| && s[i] == x && s[j] == x
  {
    if s != [] {
      var before, last := s[..|s| - 1], s[|s| - 1];
      assert s == before + [last];
      Occurrences(before, x);
      if multiset(s)[x] >= 2 {
        if multiset(before)[x] >= 2 {
          var i, j :| 0 <= i < j < |before| && before[i] == x && before[j] == x;
          assert s[i] == x && s[j] == x;
        } else {
          var i :| 0 <= i < |before| && before[i] == x;
          assert s[i] == x && s[|s| - 1] == x;
        }
      }
      if i, j :| 0 <= i < j < |s| && s[i] == x && s[j] == x {
        assert before[i] == x;
        if j < |before| { assert before[j] == x; }
      }
    }
  }

  lemma SameMembers<T>(a: seq<T>, b: seq<T>)
    requires multiset(a) == multiset(b)
    ensures forall i :: 0 <= i < |a| ==> exists j :: 0 <= j < |b| && b[j] == a[i]
    ensures forall x :: x in a <==> x in b
  {
    forall x
      ensures x in a <==> x in b
    {
      Occurrences(a, x);
      Occurrences(b, x);
    }
    assert forall i :: 0 <= i < |a| ==> a[i] in b;
  }

  /** Two positions of one list have two positions of any permutation of it. */
  lemma PairPermutes<T>(a: seq<T>, b: seq<T>, i: nat, j: nat)
    requires multiset(a) == multiset(b) && i < j < |a|
    ensures exists k, l :: 0 <= k < |b| && 0 <= l < |b| && k != l && b[k] == a[i] && b[l] == a[j]
  {
    Occurrences(a, a[i]);
    Occurrences(b, a[i]);
    SameMembers(a, b);
    if a[i] == a[j] {
      var k, l :| 0 <= k < l < |b| && b[k] == a[i] && b[l] == a[i];
    } else {
      var k :| 0 <= k < |b| && b[k] == a[i];
      var l :| 0 <= l < |b| && b[l] == a[j];
    }
  }

  lemma DisjointPermutes(source: seq<byte>, one: seq<PatchRule>, two: seq<PatchRule>)
    requires multiset(one) == multiset(two)
    requires AllResolve(source, one) && AllResolve(source, two) && Disjoint(Items(source, one))
    ensures Disjoint(Items(source, two))
  {
    hide ResolveSpec;
    var a, b := Items(source, one), Items(source, two);
    forall i, j | 0 <= i < j < |b|
      ensures !b[j].Overlaps(b[i])
    {
      PairPermutes(two, one, i, j);
      var k, l :| 0 <= k < |one| && 0 <= l < |one| && k != l && one[k] == two[i] && one[l] == two[j];
      assert a[k] == b[i] && a[l] == b[j];
    }
  }

  lemma HeldWritesPermute(source: seq<byte>, one: seq<Resolved>, two: seq<Resolved>, data: seq<byte>)
    requires forall item :: item in one <==> item in two
    requires HoldsWrites(source, one, data)
    ensures HoldsWrites(source, two, data)
  {
    forall i, p | 0 <= i < |two| && 0 <= p < |source| && two[i].Covers(p)
      ensures data[p] == WrittenByte(source, two[i], p)
    {
      assert two[i] in one;
    }
    forall p | 0 <= p < |source| && forall i :: 0 <= i < |two| ==> !two[i].Covers(p)
      ensures data[p] == source[p]
    {
      forall i | 0 <= i < |one|
        ensures !one[i].Covers(p)
      {
        assert one[i] in two;
      }
    }
  }

  /** Each phase looks only at which rules there are. */
  lemma RunPermutes(source: seq<byte>, one: seq<PatchRule>, two: seq<PatchRule>, final: seq<byte>)
    requires multiset(one) == multiset(two)
    ensures AllResolve(source, one) ==> AllResolve(source, two)
    ensures ArtifactIds(one) == ArtifactIds(two)
    ensures AllResolve(source, one) && Disjoint(Items(source, one)) ==> Disjoint(Items(source, two))
    ensures AllResolve(source, one) && HoldsWrites(source, Items(source, one), final) ==>
              HoldsWrites(source, Items(source, two), final)
    ensures AllRechecked(final, one) ==> AllRechecked(final, two)
  {
    hide ResolveSpec, RecheckSpec;
    SameMembers(one, two);
    SameMembers(two, one);
    if AllResolve(source, one) {
      assert AllResolve(source, two);
      var a, b := Items(source, one), Items(source, two);
      if Disjoint(a) {
        DisjointPermutes(source, one, two);
      }
      if HoldsWrites(source, a, final) {
        SameItems(source, one, two);
        SameItems(source, two, one);
        HeldWritesPermute(source, a, b, final);
      }
    }
  }

  lemma SameItems(source: seq<byte>, one: seq<PatchRule>, two: seq<PatchRule>)
    requires multiset(one) == multiset(two)
    requires AllResolve(source, one) && AllResolve(source, two)
    ensures forall item :: item in Items(source, one) ==> item in Items(source, two)
  {
    hide ResolveSpec;
    SameMembers(one, two);
    forall item | item in Items(source, one)
      ensures item in Items(source, two)
    {
      var i :| 0 <= i < |one| && Items(source, one)[i] == item;
      var j :| 0 <= j < |two| && two[j] == one[i];
      assert Items(source, two)[j] == item;
    }
  }

  ghost predicate SameOutcome(one: Outcome, two: Outcome) {
    match (one, two)
    case (Success(a), Success(b)) => a == b
    case (Failure(e), Failure(f)) => e.ValueError? <==> f.ValueError?
    case _ => false
  }

  /** The order of the rules changes neither success, nor the bytes, nor the
      flag, nor the class of the exception. */
  lemma OrderDoesNotMatter(source: seq<byte>, one: seq<PatchRule>, two: seq<PatchRule>)
    requires multiset(one) == multiset(two)
    ensures SameOutcome(Apply(source, one), Apply(source, two))
  {
    hide ResolveSpec, RecheckSpec, Apply;
    RunPermutes(source, one, two, source);
    RunPermutes(source, two, one, source);
    match Apply(source, one)
    case Success(a) =>
      RunPermutes(source, one, two, a.0);
      RunMeaning(source, one, a.0, a.1);
      RunMeaning(source, two, a.0, a.1);
    case Failure(_) =>
      FailureClass(source, one);
      match Apply(source, two)
      case Success(b) =>
        RunPermutes(source, two, one, b.0);
        RunMeaning(source, two, b.0, b.1);
        RunMeaning(source, one, b.0, b.1);
      case Failure(_) =>
        FailureClass(source, two);
  }

  // ---------------------------------------------------------------- idempotence

  /** The one test of a validation rule that the final check does not repeat. */
  predicate ExpectedStillThere(data: seq<byte>, rule: PatchRule) {
    rule.replacementHex.None? && ParseSpec(rule.signatureHex).Success? && ParseSpec(rule.expectedHex).Success? ==>
      var hits := Hits(data, ParseSpec(rule.signatureHex).value);
      hits != [] ==> MatchesAt(data, hits[0] + rule.patchOffset, ParseSpec(rule.expectedHex).value)
  }

  lemma ResolveAgain(source: seq<byte>, final: seq<byte>, rule: PatchRule)
    requires ResolveSpec(source, rule).Success? && RecheckSpec(final, rule).None?
    ensures ResolveSpec(final, rule).Success? <==> ExpectedStillThere(final, rule)
    ensures ResolveSpec(final, rule).Success? ==> !Item(final, rule).Writes()
    ensures ResolveSpec(final, rule).Failure? ==>
              ResolveSpec(final, rule).error == ValueError(rule.name, ValidationMismatch)
  {
  }

  /** A second run changes nothing, exactly when the patched bytes still hold the
      expected bytes of every validation rule; otherwise it refuses. */
  lemma IdempotentExactly(source: seq<byte>, rules: seq<PatchRule>, final: seq<byte>, changed: bool)
    requires Apply(source, rules) == Success((final, changed))
    ensures Apply(final, rules) == Success((final, false)) <==> forall rule <- rules :: ExpectedStillThere(final, rule)
    ensures Apply(final, rules) != Success((final, false)) ==>
              Apply(final, rules).Failure? && Apply(final, rules).error.ValueError?
  {
    hide ResolveSpec, RecheckSpec, Apply, ExpectedStillThere;
    RunMeaning(source, rules, final, changed);
    RunMeaning(final, rules, final, false);
    forall i | 0 <= i < |rules|
      ensures ResolveSpec(final, rules[i]).Success? <==> ExpectedStillThere(final, rules[i])
      ensures ResolveSpec(final, rules[i]).Success? ==> !Item(final, rules[i]).Writes()
    {
      ResolveAgain(source, final, rules[i]);
    }
    if AllResolve(final, rules) {
      assert Disjoint(Items(final, rules)) && HoldsWrites(final, Items(final, rules), final);
    } else if Apply(final, rules).Failure? {
      FailureClass(final, rules);
    } else {
      RunMeaning(final, rules, Apply(final, rules).value.0, Apply(final, rules).value.1);
    }
  }

  /** A rule whose signature requires all its expected bytes. */
  predicate SignatureImpliesExpected(rule: PatchRule) {
    ParseSpec(rule.signatureHex).Success? && ParseSpec(rule.expectedHex).Success? ==>
      var signature, expected := ParseSpec(rule.signatureHex).value, ParseSpec(rule.expectedHex).value;
      && Fits(signature, rule.patchOffset, |expected.values|)
      && forall i :: 0 <= i < |expected.values| && expected.exact[i] ==>
           signature.exact[rule.patchOffset + i] && signature.values[rule.patchOffset + i] == expected.values[i]
  }

  /** With such validation rules, any number of interacting rules is idempotent. */
  lemma Idempotent(source: seq<byte>, rules: seq<PatchRule>, final: seq<byte>, changed: bool)
    requires Apply(source, rules) == Success((final, changed))
    requires forall rule <- rules :: rule.replacementHex.None? ==> SignatureImpliesExpected(rule)
    ensures Apply(final, rules) == Success((final, false))
  {
    forall rule | rule in rules
      ensures ExpectedStillThere(final, rule)
    {
      if rule.replacementHex.None? && ParseSpec(rule.signatureHex).Success? && ParseSpec(rule.expectedHex).Success? {
        var signature := ParseSpec(rule.signatureHex).value;
        HitsExact(final, signature);
        var hits := Hits(final, signature);
        if hits != [] {
          assert hits[0] in hits && MatchesAt(final, hits[0], signature);
          ExpectedInsideSignature(final, hits[0], rule);
        }
      }
    }
    IdempotentExactly(source, rules, final, changed);
  }

  lemma ExpectedInsideSignature(data: seq<byte>, at: nat, rule: PatchRule)
    requires ParseSpec(rule.signatureHex).Success? && ParseSpec(rule.expectedHex).Success?
    requires SignatureImpliesExpected(rule) && MatchesAt(data, at, ParseSpec(rule.signatureHex).value)
    ensures MatchesAt(data, at + rule.patchOffset, ParseSpec(rule.expectedHex).value)
  {
    var signature, expected := ParseSpec(rule.signatureHex).value, ParseSpec(rule.expectedHex).value;
    forall i | 0 <= i < |expected.values| && expected.exact[i]
      ensures data[at + rule.patchOffset + i] == expected.values[i]
    {
      assert signature.exact[rule.patchOffset + i];
      assert data[at + (rule.patchOffset + i)] == signature.values[rule.patchOffset + i];
    }
  }

  lemma OnlyHit(data: seq<byte>, pattern: Pattern, at: nat)
    requires MatchesAt(data, at, pattern)
    requires forall k: nat :: k != at ==> !MatchesAt(data, k, pattern)
    ensures Hits(data, pattern) == [at]
  {
    HitsSkip(data, pattern, 0, at);
    HitsSkip(data, pattern, at + 1, |data| + 1);
  }

  /** One validation rule `aa ??` expecting `bb` behind it, and one patch `bb cc`
      to `dd cc`: the run on `aa bb cc` succeeds and the second run refuses. */
  lemma ValidationRuleBreaksIdempotence()
    ensures exists source, rules, final ::
              Apply(source, rules) == Success((final, true)) && Apply(final, rules).Failure?
  {
    hide ParseSpec, Spell, Hits, Apply, ResolveSpec;
    var source: seq<byte>, final: seq<byte> := [0xaa, 0xbb, 0xcc], [0xaa, 0xdd, 0xcc];
    var aa: Pattern := MaskedBytes([0xaa, 0], [true, false]);
    var bb: Pattern := MaskedBytes([0xbb], [true]);
    var bbcc: Pattern := MaskedBytes([0xbb, 0xcc], [true, true]);
    var dd: Pattern := MaskedBytes([0xdd], [true]);
    ParseSpellRoundTrip(aa);
    ParseSpellRoundTrip(bb);
    ParseSpellRoundTrip(bbcc);
    ParseSpellRoundTrip(dd);
    var check := PatchRule("k", "check", Spell(aa), 1, Spell(bb), None, 0);
    var patch := PatchRule("k", "patch", Spell(bbcc), 0, Spell(bb), Some(Spell(dd)), 0);
    var ddcc: Pattern := OverlaySpec(bbcc, 0, dd, true).value;
    assert ddcc.values == [0xdd, 0xcc] && ddcc.exact == [true, true];
    CounterexampleHits(source, final, aa, bbcc, ddcc);
    CounterexampleResolves(source, final, check, patch, aa, bb, bbcc, dd, ddcc);
    CounterexampleRun(source, final, check, patch, bb, dd);
  }

  lemma CounterexampleResolves(source: seq<byte>, final: seq<byte>, check: PatchRule, patch: PatchRule,
                               aa: Pattern, bb: Pattern, bbcc: Pattern, dd: Pattern, ddcc: Pattern)
    requires source == [0xaa, 0xbb, 0xcc] && final == [0xaa, 0xdd, 0xcc]
    requires |aa.values| == |bbcc.values| == 2 && |dd.values| == 1 && bb == MaskedBytes([0xbb], [true])
    requires Hits(source, aa) == [0] && Hits(final, aa) == [0]
    requires Hits(source, bbcc) == [1] && Hits(source, ddcc) == []
    requires Hits(final, bbcc) == [] && Hits(final, ddcc) == [1]
    requires OverlaySpec(bbcc, 0, dd, true) == Success(ddcc)
    requires ParseSpec(check.signatureHex) == Success(aa) && ParseSpec(check.expectedHex) == Success(bb)
    requires check.patchOffset == 1 && check.replacementHex.None?
    requires ParseSpec(patch.signatureHex) == Success(bbcc) && ParseSpec(patch.expectedHex) == Success(bb)
    requires patch.patchOffset == 0 && patch.rel32Exit == 0
    requires patch.replacementHex.Some? && ParseSpec(patch.replacementHex.value) == Success(dd)
    ensures ResolveSpec(source, check) == Success(Resolved(check, 0, bb, None, Validated))
    ensures ResolveSpec(source, patch) == Success(Resolved(patch, 1, bb, Some(dd), Patch))
    ensures RecheckSpec(final, check).None? && RecheckSpec(final, patch).None?
    ensures ResolveSpec(final, check).Failure?
  {
    hide ParseSpec, Hits, OverlaySpec;
    assert bb.exact[0];
    assert MatchesAt(source, 0 + check.patchOffset, bb) && MatchesAt(source, 1 + patch.patchOffset, bb);
    assert !MatchesAt(final, 0 + check.patchOffset, bb);
  }

  lemma CounterexampleRun(source: seq<byte>, final: seq<byte>, check: PatchRule, patch: PatchRule,
                          bb: Pattern, dd: Pattern)
    requires source == [0xaa, 0xbb, 0xcc] && final == [0xaa, 0xdd, 0xcc]
    requires patch.patchOffset == 0 && check.artifactId == patch.artifactId && check.replacementHex.None?
    requires dd == MaskedBytes([0xdd], [true])
    requires ResolveSpec(source, check) == Success(Resolved(check, 0, bb, None, Validated))
    requires ResolveSpec(source, patch) == Success(Resolved(patch, 1, bb, Some(dd), Patch))
    requires RecheckSpec(final, check).None? && RecheckSpec(final, patch).None?
    requires ResolveSpec(final, check).Failure?
    ensures Apply(source, [check, patch]) == Success((final, true)) && Apply(final, [check, patch]).Failure?
  {
    hide ResolveSpec, RecheckSpec, Apply;
    var rules, item := [check, patch], Resolved(patch, 1, bb, Some(dd), Patch);
    assert ArtifactIds(rules) == {patch.artifactId};
    var items := Items(source, rules);
    assert items[1] == item && !items[0].Writes();
    assert forall p :: item.Covers(p) <==> p == 1;
    assert HoldsWrites(source, items, final) by {
      assert items[1].Covers(1) && !items[1].Covers(0) && !items[1].Covers(2);
    }
    RunMeaning(source, rules, final, true);
    assert rules[0] == check && !AllResolve(final, rules);
    if Apply(final, rules).Success? {
      RunMeaning(final, rules, Apply(final, rules).value.0, Apply(final, rules).value.1);
    }
  }

  lemma CounterexampleHits(source: seq<byte>, final: seq<byte>, aa: Pattern, bbcc: Pattern, ddcc: Pattern)
    requires source == [0xaa, 0xbb, 0xcc] && final == [0xaa, 0xdd, 0xcc]
    requires aa == MaskedBytes([0xaa, 0], [true, false])
    requires bbcc == MaskedBytes([0xbb, 0xcc], [true, true])
    requires ddcc == MaskedBytes([0xdd, 0xcc], [true, true])
    ensures Hits(source, aa) == [0] && Hits(final, aa) == [0]
    ensures Hits(source, bbcc) == [1] && Hits(source, ddcc) == []
    ensures Hits(final, bbcc) == [] && Hits(final, ddcc) == [1]
  {
    assert aa.exact[0] && bbcc.exact[0] && ddcc.exact[0];
    OnlyHit(source, aa, 0);
    OnlyHit(final, aa, 0);
    OnlyHit(source, bbcc, 1);
    HitsSkip(source, ddcc, 0, |source| + 1);
    HitsSkip(final, bbcc, 0, |final| + 1);
    OnlyHit(final, ddcc, 1);
  }

  // ---------------------------------------------------------------- frame, rendering and relocation

  /** Length is kept; a byte that differs lies in the window of a writing rule, at
      a required replacement byte; the flag is exact. */
  lemma Frame(source: seq<byte>, rules: seq<PatchRule>, final: seq<byte>, changed: bool)
    requires Apply(source, rules) == Success((final, changed))
    ensures |final| == |source|
    ensures changed <==> final != source
    ensures forall p :: 0 <= p < |source| && final[p] != source[p] ==>
              exists rule :: && rule in rules && ResolveSpec(source, rule).Success?
                             && Item(source, rule).Covers(p)
                             && Item(source, rule).replacement.value.exact[p - Item(source, rule).Site()]
  {
    hide ResolveSpec, RecheckSpec, Apply;
    RunMeaning(source, rules, final, changed);
    forall p | 0 <= p < |source| && final[p] != source[p]
      ensures exists rule :: && rule in rules && ResolveSpec(source, rule).Success?
                             && Item(source, rule).Covers(p)
                             && Item(source, rule).replacement.value.exact[p - Item(source, rule).Site()]
    {
      var items := Items(source, rules);
      var i :| 0 <= i < |items| && items[i].Covers(p);
      assert rules[i] in rules && items[i] == Item(source, rules[i]);
    }
  }

  /** The replacement a writing item carries: the rule's own bytes, or the relocated jump. */
  lemma WritingItem(source: seq<byte>, rule: PatchRule)
    requires ResolveSpec(source, rule).Success? && Item(source, rule).Writes()
    ensures ParseSpec(rule.signatureHex).Success? && rule.replacementHex.Some?
    ensures ParseSpec(rule.replacementHex.value).Success?
    ensures MatchesAt(source, Item(source, rule).matchOffset, ParseSpec(rule.signatureHex).value)
    ensures Fits(ParseSpec(rule.signatureHex).value, rule.patchOffset, |Item(source, rule).replacement.value.values|)
    ensures rule.rel32Exit == 0 ==>
              ParseSpec(rule.replacementHex.value) == Success(Item(source, rule).replacement.value)
    ensures rule.rel32Exit != 0 ==>
              var exitSite := Item(source, rule).matchOffset + rule.rel32Exit;
              && 0 <= exitSite && exitSite + 5 <= |source| && source[exitSite] == 0xE9
              && Item(source, rule).replacement.value == RelocatedJump(source, Item(source, rule).Site(), exitSite)
  {
    var signature := ParseSpec(rule.signatureHex).value;
    HitsExact(source, signature);
    var hits := Hits(source, signature);
    assert |hits| == 1 && hits[0] in hits;
  }

  /** Every rule found unpatched ends with its own replacement rendered over the
      pristine bytes, whatever the other rules are. */
  lemma EachWindowHoldsItsReplacement(source: seq<byte>, rules: seq<PatchRule>, final: seq<byte>, rule: PatchRule)
    requires AllResolve(source, rules) && HoldsWrites(source, Items(source, rules), final)
    requires rule in rules && Item(source, rule).Writes()
    ensures Item(source, rule).InBounds(|source|)
    ensures final[Item(source, rule).Site()..Item(source, rule).End()] ==
            Render(source[Item(source, rule).Site()..Item(source, rule).End()], Item(source, rule).replacement.value)
  {
    hide ResolveSpec, RecheckSpec;
    ResolvedFacts(source, rule);
    var item, items := Item(source, rule), Items(source, rules);
    var i :| 0 <= i < |rules| && rules[i] == rule;
    assert items[i] == item;
    var window := Render(source[item.Site()..item.End()], item.replacement.value);
    forall k | 0 <= k < |window|
      ensures final[item.Site() + k] == window[k]
    {
      assert items[i].Covers(item.Site() + k);
    }
  }

  lemma RelocationArithmetic(distance: int, disp: int, signed: int)
    requires disp == distance % U32 && signed % U32 == disp && -0x8000_0000 <= signed < 0x8000_0000
    ensures (signed - distance) % U32 == 0
    ensures signed == distance <==> -0x8000_0000 <= distance < 0x8000_0000
  {
    var a, b := signed / U32, distance / U32;
    assert signed - distance == U32 * (a - b);
  }

  /** A jump instruction placed at `site` by `RelocatedJump` lands, modulo 2^32, where
      the exit jump went, and exactly there when the distance fits. */
  lemma RelocatedJumpLands(source: seq<byte>, site: int, exitSite: int, final: seq<byte>)
    requires 0 <= exitSite && exitSite + 5 <= |source| && 0 <= site && site + 5 <= |final|
    requires final[site..site + 5] == RelocatedJump(source, site, exitSite).values
    ensures final[site] == 0xE9
    ensures var target, landing := exitSite + 5 + SignedLe32(source, exitSite + 1),
            site + 5 + SignedLe32(final, site + 1);
            && (landing - target) % U32 == 0
            && (landing == target <==> -0x8000_0000 <= target - (site + 5) < 0x8000_0000)
  {
    var distance := exitSite + 5 + SignedLe32(source, exitSite + 1) - (site + 5);
    var jump := final[site..site + 5];
    assert final[site] == jump[0];
    assert final[site + 1..site + 5] == jump[1..] == Le32(distance % U32);
    Le32RoundTrip(final, site + 1, distance % U32);
    RelocationArithmetic(distance, distance % U32, SignedLe32(final, site + 1));
  }

  lemma RenderedJump(original: seq<byte>, source: seq<byte>, site: int, exitSite: int)
    requires 0 <= exitSite && exitSite + 5 <= |source| && |original| == 5
    ensures Render(original, RelocatedJump(source, site, exitSite)) == RelocatedJump(source, site, exitSite).values
  {
  }

  /** A relocated jump goes, modulo 2^32, where the original exit jump went; the
      landing is the same number exactly when the distance fits 32 signed bits. */
  lemma JumpKeepsItsTarget(source: seq<byte>, rules: seq<PatchRule>, final: seq<byte>, changed: bool, rule: PatchRule)
    requires Apply(source, rules) == Success((final, changed))
    requires rule in rules && ResolveSpec(source, rule).Success? && Item(source, rule).Writes()
    requires rule.rel32Exit != 0
    ensures var site, exitSite := Item(source, rule).Site(), Item(source, rule).matchOffset + rule.rel32Exit;
            && |final| == |source| && 0 <= site && site + 5 <= |source| && 0 <= exitSite && exitSite + 5 <= |source|
            && final[site] == 0xE9 == source[exitSite]
            && var target, landing := exitSite + 5 + SignedLe32(source, exitSite + 1),
                site + 5 + SignedLe32(final, site + 1);
               && (landing - target) % U32 == 0
               && (landing == target <==> -0x8000_0000 <= target - (site + 5) < 0x8000_0000)
  {
    hide ResolveSpec, RecheckSpec, Apply, MatchesAt, ParseSpec, SignedLe32, HoldsWrites, Disjoint, AllRechecked;
    hide Render, RelocatedJump;
    RunMeaning(source, rules, final, changed);
    HeldLength(source, Items(source, rules), final);
    EachWindowHoldsItsReplacement(source, rules, final, rule);
    WritingItem(source, rule);
    var item := Item(source, rule);
    var site, exitSite := item.Site(), item.matchOffset + rule.rel32Exit;
    RenderedJump(source[site..site + 5], source, site, exitSite);
    RelocatedJumpLands(source, site, exitSite, final);
  }

  /** No other rule writes inside the signature that a rule matched. */
  ghost predicate SignatureIsItsOwn(source: seq<byte>, rules: seq<PatchRule>, rule: PatchRule)
    requires AllResolve(source, rules) && ResolveSpec(source, rule).Success?
  {
    ParseSpec(rule.signatureHex).Success? ==>
      var at := Item(source, rule).matchOffset;
      var end := at + |ParseSpec(rule.signatureHex).value.values|;
      forall i, p :: 0 <= i < |rules| && at <= p < end && rules[i] != rule ==> !Item(source, rules[i]).Covers(p)
  }

  /** After the write of a rule, its site is a hit of the patched signature that the
      final check looks for exactly when the written bytes are those its replacement
      text fixes: always for a plain rule, and for a relocated jump when the text
      leaves the displacement open or happens to spell it. */
  lemma PatchedHitAppears(source: seq<byte>, rules: seq<PatchRule>, final: seq<byte>, rule: PatchRule)
    requires AllResolve(source, rules) && HoldsWrites(source, Items(source, rules), final)
    requires rule in rules && ResolveSpec(source, rule).Success? && Item(source, rule).Writes()
    requires SignatureIsItsOwn(source, rules, rule)
    ensures && ParseSpec(rule.signatureHex).Success?
            && rule.replacementHex.Some? && ParseSpec(rule.replacementHex.value).Success?
            && var text, written := ParseSpec(rule.replacementHex.value).value, Item(source, rule).replacement.value;
               var patched := OverlaySpec(ParseSpec(rule.signatureHex).value, rule.patchOffset, text,
                   PreservesWildcards(rule));
               && patched.Success? && |written.values| == |text.values|
               && (rule.rel32Exit == 0 ==> written == text)
               && (Item(source, rule).matchOffset in Hits(final, patched.value) <==>
                    forall i :: 0 <= i < |text.values| && text.exact[i] ==> written.values[i] == text.values[i])
  {
    hide ResolveSpec, RecheckSpec, Hits, MatchesAt, OverlaySpec, Render, RelocatedJump;
    EachWindowHoldsItsReplacement(source, rules, final, rule);
    WritingItem(source, rule);
    WrittenFitsText(source, rule);
    ResolvedFacts(source, rule);
    var item, items := Item(source, rule), Items(source, rules);
    var at, signature, written := item.matchOffset, ParseSpec(rule.signatureHex).value, item.replacement.value;
    var text := ParseSpec(rule.replacementHex.value).value;
    var lo, hi := at + rule.patchOffset, at + rule.patchOffset + |text.values|;
    assert lo == item.Site() && hi == item.End();
    forall p | at <= p < at + |signature.values| && !(lo <= p < hi)
      ensures final[p] == source[p]
    {
      SpanInSource(source, at, signature);
      assert forall i :: 0 <= i < |items| ==> items[i] == Item(source, rules[i]) && !items[i].Covers(p);
    }
    OverlayDescribesWrite(source, final, at, signature, rule.patchOffset, text, written, PreservesWildcards(rule));
    HitsExact(final, OverlaySpec(signature, rule.patchOffset, text, PreservesWildcards(rule)).value);
  }

  lemma SpanInSource(data: seq<byte>, at: int, signature: Pattern)
    requires MatchesAt(data, at, signature)
    ensures 0 <= at && at + |signature.values| <= |data|
  {
  }

  /** What is written has the replacement text's length and fixes every byte the text
      fixes; the text fits the signature. */
  lemma WrittenFitsText(source: seq<byte>, rule: PatchRule)
    requires ResolveSpec(source, rule).Success? && Item(source, rule).Writes()
    ensures && ParseSpec(rule.signatureHex).Success?
            && rule.replacementHex.Some? && ParseSpec(rule.replacementHex.value).Success?
            && var signature, text := ParseSpec(rule.signatureHex).value, ParseSpec(rule.replacementHex.value).value;
               var written := Item(source, rule).replacement.value;
               && |written.values| == |text.values|
               && Fits(signature, rule.patchOffset, |text.values|)
               && OverlaySpec(signature, rule.patchOffset, text, PreservesWildcards(rule)).Success?
               && (forall i :: 0 <= i < |text.values| && text.exact[i] ==> written.exact[i])
               && (PreservesWildcards(rule) ==> written == text)
  {
    hide ParseSpec, Hits, MatchesAt;
  }
}
