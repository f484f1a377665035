/** When readers are cut off within a run: the published indexes at every prefix of
    a list of file operations. */
module SnapshotHistory {
  import opened Bytes
  import opened SnapshotBundle
  import opened SnapshotIndex
  import opened SnapshotReader

  /** Some capture has been removed, and its day not been published again since. */
  predicate AwaitsPublish(ops: seq<Operation>, n: nat)
    requires n <= |ops|
  {
    exists r :: 0 <= r < n && ops[r].RemoveCapture? && !Republished(ops, r, n)
  }

  predicate Republished(ops: seq<Operation>, r: nat, n: nat)
    requires r < n <= |ops| && ops[r].RemoveCapture?
  {
    exists j :: r < j < n && ops[j].WriteJson? && ops[j].day == ops[r].key.time / DAY
  }

  /** A stop after any number of the operations leaves every listed time readable
      exactly unless some day awaits its publication; none does at the end. */
  ghost predicate Settled(f: Files, ops: seq<Operation>) {
    (forall n :: 0 <= n <= |ops| ==> SettledAt(f, ops, n)) && !AwaitsPublish(ops, |ops|)
  }

  ghost predicate SettledAt(f: Files, ops: seq<Operation>, n: nat)
    requires n <= |ops|
  {
    AllReadable(After(f, ops[..n])) <==> !AwaitsPublish(ops, n)
  }

  lemma AwaitsInFirst(a: seq<Operation>, b: seq<Operation>, n: nat)
    requires n <= |a|
    ensures AwaitsPublish(a + b, n) <==> AwaitsPublish(a, n)
  {
    var ops := a + b;
    assert forall r :: 0 <= r < n ==> ops[r] == a[r];
    forall r | 0 <= r < n && a[r].RemoveCapture?
      ensures Republished(ops, r, n) <==> Republished(a, r, n)
    {
    }
  }

  lemma AwaitsInSecond(a: seq<Operation>, b: seq<Operation>, n: nat)
    requires n <= |b| && !AwaitsPublish(a, |a|)
    ensures AwaitsPublish(a + b, |a| + n) <==> AwaitsPublish(b, n)
  {
    var ops, m := a + b, |a| + n;
    forall r | 0 <= r < |a| && ops[r].RemoveCapture?
      ensures Republished(ops, r, m)
    {
      assert a[r] == ops[r] && Republished(a, r, |a|);
      var j :| r < j < |a| && a[j].WriteJson? && a[j].day == a[r].key.time / DAY;
      assert ops[j] == a[j];
    }
    forall r | 0 <= r < n && b[r].RemoveCapture?
      ensures Republished(ops, |a| + r, m) <==> Republished(b, r, n)
    {
      ShiftRepublished(a, b, r, n);
    }
    if AwaitsPublish(b, n) {
      var r :| 0 <= r < n && b[r].RemoveCapture? && !Republished(b, r, n);
      assert ops[|a| + r] == b[r] && !Republished(ops, |a| + r, m);
    }
    if AwaitsPublish(ops, m) {
      var r :| 0 <= r < m && ops[r].RemoveCapture? && !Republished(ops, r, m);
      assert b[r - |a|] == ops[r];
    }
  }

  lemma ShiftRepublished(a: seq<Operation>, b: seq<Operation>, r: nat, n: nat)
    requires r < n <= |b| && b[r].RemoveCapture?
    ensures Republished(a + b, |a| + r, |a| + n) <==> Republished(b, r, n)
  {
    var ops := a + b;
    if Republished(b, r, n) {
      var j :| r < j < n && b[j].WriteJson? && b[j].day == b[r].key.time / DAY;
      assert ops[|a| + j] == b[j];
    }
    if Republished(ops, |a| + r, |a| + n) {
      var j :| |a| + r < j < |a| + n && ops[j].WriteJson? && ops[j].day == ops[|a| + r].key.time / DAY;
      assert b[j - |a|] == ops[j];
    }
  }

  /** The states within a joined list are those within its parts. */
  lemma JoinedPrefix(f: Files, a: seq<Operation>, b: seq<Operation>, n: nat)
    requires n <= |a + b| && !AwaitsPublish(a, |a|)
    ensures n <= |a| ==>
              After(f, (a + b)[..n]) == After(f, a[..n]) && (AwaitsPublish(a + b, n) <==> AwaitsPublish(a, n))
    ensures n >= |a| ==>
              && After(f, (a + b)[..n]) == After(After(f, a), b[..n - |a|])
              && (AwaitsPublish(a + b, n) <==> AwaitsPublish(b, n - |a|))
  {
    hide After, AwaitsPublish;
    if n <= |a| {
      assert (a + b)[..n] == a[..n];
      AwaitsInFirst(a, b, n);
    }
    if n >= |a| {
      assert (a + b)[..n] == a + b[..n - |a|];
      AfterJoin(f, a, b[..n - |a|]);
      AwaitsInSecond(a, b, n - |a|);
    }
  }

  lemma SettledAtJoin(f: Files, a: seq<Operation>, b: seq<Operation>, n: nat)
    requires n <= |a + b| && !AwaitsPublish(a, |a|)
    requires if n <= |a| then SettledAt(f, a, n) else SettledAt(After(f, a), b, n - |a|)
    ensures SettledAt(f, a + b, n)
  {
    hide After, AwaitsPublish, AllReadable;
    JoinedPrefix(f, a, b, n);
  }

  lemma SettledJoin(f: Files, a: seq<Operation>, b: seq<Operation>)
    requires Settled(f, a) && Settled(After(f, a), b)
    ensures Settled(f, a + b)
  {
    hide After, AwaitsPublish, SettledAt;
    forall n | 0 <= n <= |a + b|
      ensures SettledAt(f, a + b, n)
    {
      SettledAtJoin(f, a, b, n);
    }
    AwaitsInSecond(a, b, |b|);
  }

  lemma SettledNone(f: Files)
    requires AllReadable(f)
    ensures Settled(f, [])
  {
    assert After(f, [][..0]) == f;
  }

  /** Operations from `from` on, then those past `mid`, are settled together. */
  lemma SettledOn(start: Files, from: nat, mid: seq<Operation>, log: seq<Operation>)
    requires from <= |mid| && mid <= log && start == Replay(mid[..from])
    requires Settled(start, mid[from..]) && Settled(Replay(mid), log[|mid|..])
    ensures Settled(start, log[from..])
  {
    hide Settled, After;
    assert mid == mid[..from] + mid[from..];
    AfterJoin(NO_FILES, mid[..from], mid[from..]);
    SettledJoin(start, mid[from..], log[|mid|..]);
    assert log[from..] == mid[from..] + log[|mid|..];
  }

  /** Appended operations that are settled on their own, seen as the rest of a log. */
  lemma SettledTail(log: seq<Operation>, ops: seq<Operation>)
    requires Settled(Replay(log), ops)
    ensures Settled(Replay(log), (log + ops)[|log|..])
    ensures Replay(log + ops) == After(Replay(log), ops)
  {
    hide Settled;
    assert (log + ops)[|log|..] == ops;
    AfterJoin(NO_FILES, log, ops);
  }

  lemma QuietSettled(f: Files, ops: seq<Operation>)
    requires forall op <- ops :: !op.RemoveCapture?
    requires forall n :: 0 <= n <= |ops| ==> AllReadable(After(f, ops[..n]))
    ensures Settled(f, ops)
  {
    hide After, AllReadable;
    forall n | 0 <= n <= |ops|
      ensures SettledAt(f, ops, n)
    {
      assert AllReadable(After(f, ops[..n]));
    }
  }

  // ---------------------------------------------------------------- listing and pruning

  lemma AppendSettled(f: Files, time: nat)
    requires AllReadable(f)
    ensures After(f, AppendOps(f, time)) == Appended(f, time)
    ensures Settled(f, AppendOps(f, time))
  {
    hide InBundle;
    var ops := AppendOps(f, time);
    assert ops[..0] == [] && ops[..|ops|] == ops;
    if ops != [] {
      AfterOne(f, ops[0]);
      Unlisting(f, Step(f, ops[0]));
    }
    QuietSettled(f, ops);
  }

  lemma PublishSettled(f: Files, day: nat)
    requires AllReadable(f) && AllReadable(PublishedDay(f, day))
    ensures After(f, PublishOps(f, day)) == PublishedDay(f, day)
    ensures Settled(f, PublishOps(f, day))
  {
    hide AllReadable;
    var ops := PublishOps(f, day);
    assert ops[..0] == [] && ops[..|ops|] == ops;
    if ops != [] { AfterOne(f, ops[0]); }
    QuietSettled(f, ops);
  }

  lemma Unlisting(f: Files, g: Files)
    requires AllReadable(f) && g.captures == f.captures
    requires forall d <- g.json :: d in f.json && g.json[d] == f.json[d]
    requires forall d <- g.json ::
               (d in g.bundles <==> d in f.bundles) && (d in g.bundles ==> g.bundles[d] == f.bundles[d])
    ensures AllReadable(g)
  {
    hide Readable;
    forall d, t | d in g.json && t in g.json[d].times
      ensures Readable(g, d, t)
    {
      SameReading(f, g, d, t);
    }
  }

  lemma SameReading(f: Files, g: Files, day: nat, time: nat)
    requires g.captures == f.captures && day in f.json && day in g.json && g.json[day] == f.json[day]
    requires (day in g.bundles <==> day in f.bundles) && (day in g.bundles ==> g.bundles[day] == f.bundles[day])
    ensures Readable(g, day, time) <==> Readable(f, day, time)
  {
    hide InBundle;
    assert forall kind :: Served(g, day, Key(time, kind)) <==> Served(f, day, Key(time, kind));
  }

  lemma PruneSettled(f: Files, cutoff: int, day: nat)
    requires Clean(f) && day in f.index
    ensures Settled(f, PruneOps(f, cutoff, day))
  {
    hide AllReadable, Clean, Recent;
    var ops := PruneOps(f, cutoff, day);
    CleanIsReadable(f);
    assert ops[..0] == [];
    if Expired(day, cutoff) {
      ExpiringReadable(f, cutoff, day);
      QuietSettled(f, ops);
    } else if Straddles(day, cutoff) {
      CuttingReadable(f, cutoff, day);
      QuietSettled(f, ops);
    } else {
      QuietSettled(f, ops);
    }
  }

  lemma ExpiringReadable(f: Files, cutoff: int, day: nat)
    requires AllReadable(f) && day in f.index && Expired(day, cutoff)
    ensures forall n :: 0 <= n <= |PruneOps(f, cutoff, day)| ==> AllReadable(After(f, PruneOps(f, cutoff, day)[..n]))
  {
    hide AllReadable, Recent;
    var ops := PruneOps(f, cutoff, day);
    var one, two, three := Step(f, ops[0]), Step(Step(f, ops[0]), ops[1]), Step(Step(Step(f, ops[0]), ops[1]), ops[2]);
    assert ops[..0] == [] && ops[..1][..0] == [] && ops[..2][..1] == ops[..1];
    assert ops[..3] == ops && ops[..3][..2] == ops[..2];
    assert After(f, ops[..1]) == one;
    assert After(f, ops[..2]) == two;
    assert After(f, ops[..3]) == three;
    Unlisting(f, one);
    Unlisting(f, two);
    Unlisting(f, three);
  }

  lemma CuttingReadable(f: Files, cutoff: int, day: nat)
    requires Clean(f) && day in f.index && !Expired(day, cutoff) && Straddles(day, cutoff)
    ensures forall n :: 0 <= n <= |PruneOps(f, cutoff, day)| ==> AllReadable(After(f, PruneOps(f, cutoff, day)[..n]))
  {
    hide AllReadable, Clean, Recent, Readable;
    var ops := PruneOps(f, cutoff, day);
    var one, two := Step(f, ops[0]), Step(Step(f, ops[0]), ops[1]);
    assert ops[..0] == [] && ops[..1][..0] == [] && ops[..2] == ops && ops[..2][..1] == ops[..1];
    assert After(f, ops[..1]) == one;
    assert After(f, ops[..2]) == two;
    CleanIsReadable(f);
    Unlisting(f, one);
    CutKeepsReadable(f, two, cutoff, day);
  }

  lemma CutKeepsReadable(f: Files, g: Files, cutoff: int, day: nat)
    requires Clean(f) && day in f.index && g.captures == f.captures && g.bundles == f.bundles
    requires g.json == f.json[day := Published(day in f.bundles, Recent(f.index[day], cutoff))]
    ensures AllReadable(g)
  {
    hide InBundle;
    forall d, t | d in g.json && t in g.json[d].times
      ensures Readable(g, d, t)
    {
      assert t in f.index[d] && Readable(f, d, t);
    }
  }

  // ---------------------------------------------------------------- bundling

  /** `g` is `f` after a day's bundle is installed and some of its captures removed. */
  ghost predicate Removing(f: Files, g: Files, day: nat, removed: seq<Operation>)
    requires day in f.index && IntactAll(f.captures, f.index[day])
    requires forall op <- removed :: op.RemoveCapture?
  {
    && g.index == f.index && g.json == f.json && g.bundles == f.bundles[day := BundleOf(f, day)]
    && (forall key :: key in g.captures <==> key in f.captures && RemoveCapture(key) !in removed)
    && forall key <- g.captures :: g.captures[key] == f.captures[key]
  }

  lemma {:induction false} RemovingPrefix(f: Files, day: nat, removed: seq<Operation>)
    requires day in f.index && IntactAll(f.captures, f.index[day])
    requires forall op <- removed :: op.RemoveCapture?
    ensures Removing(f, After(Step(f, WriteBundle(day, BundleOf(f, day))), removed), day, removed)
  {
    hide BundleOf, IntactAll;
    if removed != [] {
      RemovingPrefix(f, day, removed[..|removed| - 1]);
      assert removed == removed[..|removed| - 1] + [removed[|removed| - 1]];
    }
  }

  lemma RemovedHidesDay(f: Files, g: Files, day: nat, removed: seq<Operation>)
    requires Clean(f) && day in f.index && day !in f.bundles && IntactAll(f.captures, f.index[day])
    requires removed <= Removals(f.index[day]) && Removing(f, g, day, removed)
    ensures removed == [] ==> AllReadable(g)
    ensures removed != [] ==> StoppedBeforePublish(g, day, removed[0].key.time) && !AllReadable(g)
  {
    hide InBundle, Removals, Stream, RecordsOf;
    if removed == [] {
      forall d, t | d in g.json && t in g.json[d].times
        ensures Readable(g, d, t)
      {
        assert t in f.index[d] && Readable(f, d, t);
      }
    } else {
      var key := removed[0].key;
      assert removed[0] == Removals(f.index[day])[0] && removed[0] in Removals(f.index[day]);
      assert removed[0] == RemoveCapture(key);
      assert Readable(f, day, key.time);
      forall kind
        ensures InBundle(g.bundles[day], Key(key.time, kind))
      {
        BundleHoldsCaptures(f.captures, f.index[day], key.time, kind);
      }
      assert !IntactCapture(g, Key(key.time, key.kind));
      assert !Readable(g, day, key.time);
    }
  }

  /** The operations of bundling, cut anywhere: before the first removal, among the
      removals, and at the end. */
  lemma BundlePrefix(f: Files, day: nat, n: nat)
    requires day in f.index && IntactAll(f.captures, f.index[day])
    requires 1 <= n < |BundleOps(f, day)|
    ensures var removed := Removals(f.index[day])[..n - 1];
            && BundleOps(f, day)[..n] == [WriteBundle(day, BundleOf(f, day))] + removed
            && Removing(f, After(f, BundleOps(f, day)[..n]), day, removed)
  {
    hide BundleOf, Removals, IntactAll, Removing, Step;
    var install, removed := WriteBundle(day, BundleOf(f, day)), Removals(f.index[day])[..n - 1];
    assert BundleOps(f, day)[..n] == [install] + removed;
    assert forall op <- removed :: op in Removals(f.index[day]);
    AfterJoin(f, [install], removed);
    AfterOne(f, install);
    RemovingPrefix(f, day, removed);
  }

  /** A stop among the removals, or after them and before the day is published
      again, is a state that hides the day from readers. */
  lemma StopBeforePublishOccurs(f: Files, day: nat, n: nat)
    requires Clean(f) && day in f.index && day !in f.bundles && IntactAll(f.captures, f.index[day])
    requires 2 <= n < |BundleOps(f, day)|
    ensures exists time :: StoppedBeforePublish(After(f, BundleOps(f, day)[..n]), day, time)
    ensures !AllReadable(After(f, BundleOps(f, day)[..n]))
  {
    hide BundleOf, IntactAll, Removing, StoppedBeforePublish, AllReadable, Clean, BundleOps;
    BundlePrefix(f, day, n);
    RemovedHidesDay(f, After(f, BundleOps(f, day)[..n]), day, Removals(f.index[day])[..n - 1]);
  }

  lemma BundleAwaits(f: Files, day: nat, n: nat)
    requires day in f.index && IntactAll(f.captures, f.index[day]) && n <= |BundleOps(f, day)|
    requires forall t <- f.index[day] :: t / DAY == day
    ensures AwaitsPublish(BundleOps(f, day), n) <==> 2 <= n < |BundleOps(f, day)|
  {
    hide BundleOf, Removals, IntactAll;
    var ops, removals := BundleOps(f, day), Removals(f.index[day]);
    assert forall i :: 1 <= i < |ops| - 1 ==> ops[i] == removals[i - 1] && removals[i - 1] in removals;
    if 2 <= n < |ops| {
      assert ops[1].RemoveCapture? && !Republished(ops, 1, n);
    }
    if n == |ops| {
      forall r | 0 <= r < n && ops[r].RemoveCapture?
        ensures Republished(ops, r, n)
      {
        assert ops[n - 1].WriteJson? && ops[n - 1].day == ops[r].key.time / DAY;
      }
    }
  }

  lemma BundleSettled(f: Files, day: nat)
    requires Clean(f) && day in f.index && day !in f.bundles && IntactAll(f.captures, f.index[day])
    requires After(f, BundleOps(f, day)) == BundleAll(f, {day})
    ensures Settled(f, BundleOps(f, day))
  {
    hide BundleOf, IntactAll, Removing, AwaitsPublish, AllReadable, BundleAll, After, BundleOps, CleanFrom;
    var ops := BundleOps(f, day);
    CleanDays(f, day);
    CleanIsReadable(f);
    CleanAfterBundling(f, 0, {day});
    CleanIsReadable(BundleAll(f, {day}));
    forall n | 0 <= n <= |ops|
      ensures SettledAt(f, ops, n)
    {
      BundleAwaits(f, day, n);
      if n == 0 {
        assert ops[..0] == [] && After(f, []) == f by { AfterNone(f); }
      } else if n == |ops| {
        assert ops[..n] == ops;
      } else {
        BundlePrefix(f, day, n);
        RemovedHidesDay(f, After(f, ops[..n]), day, Removals(f.index[day])[..n - 1]);
      }
    }
    BundleAwaits(f, day, |ops|);
  }

  lemma AfterNone(f: Files)
    ensures After(f, []) == f
  {
  }

  lemma CleanDays(f: Files, day: nat)
    requires Clean(f) && day in f.index
    ensures forall t <- f.index[day] :: t / DAY == day
  {
  }

  // ---------------------------------------------------------------- within a log

  lemma UnchangedSettled(f: Files, log: seq<Operation>)
    ensures Clean(f) ==> Settled(f, log[|log|..])
  {
    hide CleanFrom, Settled;
    if Clean(f) {
      CleanIsReadable(f);
      SettledNone(f);
      assert log[|log|..] == [];
    }
  }

  lemma SettledGoesOn(start: Files, entry: seq<Operation>, mid: seq<Operation>, log: seq<Operation>)
    requires entry <= mid <= log && start == Replay(entry)
    requires Settled(start, mid[|entry|..]) && Settled(Replay(mid), log[|mid|..])
    ensures Settled(start, log[|entry|..])
  {
    hide Settled, After;
    assert mid[..|entry|] == entry;
    SettledOn(start, |entry|, mid, log);
  }

  lemma BundleOpsAre(f: Files, day: nat, archive: seq<byte>)
    requires day in f.index && IntactAll(f.captures, f.index[day]) && archive == BundleOf(f, day)
    ensures BundleOps(f, day) ==
            [WriteBundle(day, archive)] + Removals(f.index[day]) + [WriteJson(day, Published(true, f.index[day]))]
  {
    hide BundleOf, IntactAll, Removals;
  }

  lemma DaySettled(log: seq<Operation>, f: Files, day: nat, g: Files)
    requires f == Replay(log) && day in f.index && day !in f.bundles && IntactAll(f.captures, f.index[day])
    requires g == BundleAll(f, {day}) && g == Replay(log + BundleOps(f, day))
    ensures Clean(f) ==> Clean(g) && Settled(f, (log + BundleOps(f, day))[|log|..])
  {
    hide BundleAll, BundleOps, Settled, CleanFrom, IntactAll, After;
    if Clean(f) {
      AfterJoin(NO_FILES, log, BundleOps(f, day));
      BundleSettled(f, day);
      SettledTail(log, BundleOps(f, day));
      CleanAfterBundling(f, 0, {day});
    }
  }

  lemma ListingSettled(log: seq<Operation>, f: Files, time: nat)
    requires f == Replay(log) && Clean(f)
    ensures Settled(f, (log + AppendOps(f, time))[|log|..])
  {
    hide Settled, CleanFrom, AppendOps;
    CleanIsReadable(f);
    AppendSettled(f, time);
    SettledTail(log, AppendOps(f, time));
  }

  lemma PublishingSettled(log: seq<Operation>, f: Files, start: Files, time: nat)
    requires f == Replay(log) && f == Appended(start, time) && Clean(start) && Findable(start, time)
    ensures Clean(PublishedDay(f, time / DAY))
    ensures Settled(f, (log + PublishOps(f, time / DAY))[|log|..])
  {
    hide Settled, CleanFrom, Appended, PublishedDay, PublishOps, AppendOps, Findable;
    CleanIsReadable(start);
    AppendSettled(start, time);
    AppendedReadable(start, f, time);
    CleanAfterAppend(start, time, 0);
    CleanIsReadable(PublishedDay(f, time / DAY));
    PublishSettled(f, time / DAY);
    SettledTail(log, PublishOps(f, time / DAY));
  }

  lemma AppendedReadable(f: Files, g: Files, time: nat)
    requires AllReadable(f) && g == Appended(f, time)
    ensures AllReadable(g)
  {
    hide AllReadable;
    Unlisting(f, g);
  }

  lemma ReadableInLog(start: Files, log: seq<Operation>, from: nat)
    requires from <= |log| && start == Replay(log[..from]) && Settled(start, log[from..])
    ensures forall n :: 0 <= n <= |log| - from ==>
              (AllReadable(Replay(log[..from + n])) <==> !AwaitsPublish(log[from..], n))
  {
    hide After, AllReadable, AwaitsPublish;
    forall n | 0 <= n <= |log| - from
      ensures AllReadable(Replay(log[..from + n])) <==> !AwaitsPublish(log[from..], n)
    {
      assert SettledAt(start, log[from..], n);
      assert log[..from + n] == log[..from] + log[from..][..n];
      AfterJoin(NO_FILES, log[..from], log[from..][..n]);
    }
  }
}
