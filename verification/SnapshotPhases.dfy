/** How the phases of `add` compose: bundling and pruning day by day, in any order, is
    bundling and pruning the set of days. */
module SnapshotPhases {
  import opened Bytes
  import opened SnapshotBundle
  import opened SnapshotIndex

  // ---------------------------------------------------------------- phases compose

  lemma TimeInDay(f: Files, day: nat, time: nat)
    requires InDays(f) && day in f.index && time in f.index[day]
    ensures time / DAY == day
  {
    assert Listed(f, day, time);
  }

  ghost predicate Bundleable(f: Files, done: set<nat>) {
    forall day <- done :: day in f.index && IntactAll(f.captures, f.index[day])
  }

  lemma OtherCapturesStay(f: Files, done: set<nat>, day: nat)
    requires InDays(f) && Bundleable(f, done) && day !in done && day in f.index
    ensures var g := BundleAll(f, done);
            forall time, kind :: time in f.index[day] ==>
              && (Key(time, kind) in g.captures <==> Key(time, kind) in f.captures)
              && (Key(time, kind) in f.captures ==> g.captures[Key(time, kind)] == f.captures[Key(time, kind)])
  {
    hide BundleOf;
    forall time | time in f.index[day]
      ensures time / DAY == day
    {
      TimeInDay(f, day, time);
    }
  }

  /** A day's own captures do not depend on which other days were bundled before. */
  lemma BundleUnaffected(f: Files, done: set<nat>, day: nat)
    requires InDays(f) && Bundleable(f, done) && day !in done && day in f.index
    ensures var g := BundleAll(f, done);
            && g.index == f.index
            && (IntactAll(g.captures, g.index[day]) <==> IntactAll(f.captures, f.index[day]))
            && (day in g.bundles <==> day in f.bundles)
            && (IntactAll(f.captures, f.index[day]) ==> BundleOf(g, day) == BundleOf(f, day))
  {
    hide Stream, InDays, RecordsOf;
    OtherCapturesStay(f, done, day);
    var g := BundleAll(f, done);
    if IntactAll(f.captures, f.index[day]) {
      SameRecords(f.captures, g.captures, f.index[day]);
    }
  }

  /** Bundling one more day on top of others. */
  lemma BundleOneMore(f: Files, done: set<nat>, day: nat)
    requires InDays(f) && Bundleable(f, done) && day !in done && day in f.index && IntactAll(f.captures, f.index[day])
    requires var g := BundleAll(f, done);
             g.index == f.index && IntactAll(g.captures, g.index[day]) && BundleOf(g, day) == BundleOf(f, day)
    ensures BundleAll(BundleAll(f, done), {day}) == BundleAll(f, done + {day})
  {
    hide BundleOf, InDays, IntactAll, BundleAll;
    var g := BundleAll(f, done);
    BundleAllIs(f, done);
    BundleAllIs(g, {day});
    BundleAllIs(f, done + {day});
    var h, all := BundleAll(g, {day}), BundleAll(f, done + {day});
    BundledCaptures(f, g, h, all, done, day);
    BundledFiles(f, g, h, all, done, day);
    BundledJson(f, g, h, all, done, day);
  }

  /** `g` is `f` with the days of `done` bundled, one map at a time. */
  ghost predicate CapturesLess(f: Files, g: Files, done: set<nat>)
    requires done <= f.index.Keys
  {
    && (forall key :: key in g.captures <==>
          key in f.captures && !(key.time / DAY in done && key.time in f.index[key.time / DAY]))
    && forall key :: key in g.captures ==> g.captures[key] == f.captures[key]
  }

  ghost predicate BundlesMore(f: Files, g: Files, done: set<nat>)
    requires Bundleable(f, done)
  {
    && (forall d :: d in g.bundles <==> d in f.bundles || d in done)
    && (forall d :: d in g.bundles ==> g.bundles[d] == if d in done then BundleOf(f, d) else f.bundles[d])
  }

  ghost predicate JsonMore(f: Files, g: Files, done: set<nat>)
    requires done <= f.index.Keys
  {
    && (forall d :: d in g.json <==> d in f.json || d in done)
    && (forall d :: d in g.json ==> g.json[d] == if d in done then Published(true, f.index[d]) else f.json[d])
  }

  lemma BundledSameIndex(f: Files, active: nat, verified: set<nat>)
    ensures BundleAll(f, BundledDays(f, active, verified)).index == f.index
  {
    hide BundleOf, IntactAll;
  }

  lemma BundleAllIs(f: Files, done: set<nat>)
    requires Bundleable(f, done)
    ensures BundleAll(f, done).index == f.index
    ensures CapturesLess(f, BundleAll(f, done), done)
    ensures BundlesMore(f, BundleAll(f, done), done) && JsonMore(f, BundleAll(f, done), done)
  {
    hide BundleOf, IntactAll;
  }

  lemma BundledCaptures(f: Files, g: Files, h: Files, all: Files, done: set<nat>, day: nat)
    requires done <= f.index.Keys && day in f.index && g.index == f.index
    requires CapturesLess(f, g, done) && CapturesLess(g, h, {day}) && CapturesLess(f, all, done + {day})
    ensures h.captures == all.captures
  {
  }

  lemma BundledFiles(f: Files, g: Files, h: Files, all: Files, done: set<nat>, day: nat)
    requires Bundleable(f, done) && day in f.index && IntactAll(f.captures, f.index[day]) && day !in done
    requires g.index == f.index && IntactAll(g.captures, g.index[day]) && BundleOf(g, day) == BundleOf(f, day)
    requires BundlesMore(f, g, done) && BundlesMore(g, h, {day}) && BundlesMore(f, all, done + {day})
    ensures h.bundles == all.bundles
  {
    hide BundleOf, IntactAll;
    assert forall d :: d in h.bundles <==> d in all.bundles;
  }

  lemma BundledJson(f: Files, g: Files, h: Files, all: Files, done: set<nat>, day: nat)
    requires done <= f.index.Keys && day in f.index && g.index == f.index
    requires JsonMore(f, g, done) && JsonMore(g, h, {day}) && JsonMore(f, all, done + {day})
    ensures h.json == all.json
  {
    assert forall d :: d in h.json <==> d in all.json;
  }

  lemma {:induction false} SameRecords(a: map<Key, Document>, b: map<Key, Document>, times: seq<nat>)
    requires IntactAll(a, times) && IntactAll(b, times)
    requires forall time, kind :: time in times ==> a[Key(time, kind)] == b[Key(time, kind)]
    ensures RecordsOf(a, times) == RecordsOf(b, times)
  {
    if times != [] {
      assert times[|times| - 1] in times && forall t <- times[..|times| - 1] :: t in times;
      SameRecords(a, b, times[..|times| - 1]);
    }
  }

  /** Pruning one more day on top of others. */
  lemma PruneOneMore(f: Files, cutoff: int, done: set<nat>, day: nat)
    requires done <= f.index.Keys && day in f.index && day !in done
    ensures var g := PruneAll(f, cutoff, done);
            day in g.index && g.index[day] == f.index[day]
                && PruneAll(g, cutoff, {day}) == PruneAll(f, cutoff, done + {day})
  {
    hide Expired, Straddles, Recent;
    PruneOneIndex(f, cutoff, done, day);
    PruneOneBundles(f, cutoff, done, day);
    PruneOneJson(f, cutoff, done, day);
  }

  lemma PruneOneIndex(f: Files, cutoff: int, done: set<nat>, day: nat)
    requires done <= f.index.Keys && day in f.index && day !in done
    ensures var g := PruneAll(f, cutoff, done);
            day in g.index && g.index[day] == f.index[day]
            && PruneAll(g, cutoff, {day}).index == PruneAll(f, cutoff, done + {day}).index
  {
    hide Expired, Straddles, Recent;
  }

  lemma PruneOneBundles(f: Files, cutoff: int, done: set<nat>, day: nat)
    requires done <= f.index.Keys && day in f.index && day !in done
    requires day in PruneAll(f, cutoff, done).index
    ensures PruneAll(PruneAll(f, cutoff, done), cutoff, {day}).bundles == PruneAll(f, cutoff, done + {day}).bundles
  {
    hide Expired, Straddles, Recent;
  }

  lemma PruneOneJson(f: Files, cutoff: int, done: set<nat>, day: nat)
    requires done <= f.index.Keys && day in f.index && day !in done
    requires day in PruneAll(f, cutoff, done).index && PruneAll(f, cutoff, done).index[day] == f.index[day]
    ensures PruneAll(PruneAll(f, cutoff, done), cutoff, {day}).json == PruneAll(f, cutoff, done + {day}).json
  {
    hide Recent, Expired, Straddles, PruneAll;
    var g := PruneAll(f, cutoff, done);
    PruneAllJson(f, cutoff, done);
    PruneAllJson(g, cutoff, {day});
    PruneAllJson(f, cutoff, done + {day});
    var h, all := PruneAll(g, cutoff, {day}).json, PruneAll(f, cutoff, done + {day}).json;
    assert day in g.bundles <==> day in f.bundles by { PruneAllBundle(f, cutoff, done, day); }
    Disjoint(day, cutoff);
    assert h.Keys == all.Keys;
    assert forall d :: d in h ==> h[d] == all[d];
  }

  lemma Disjoint(day: nat, cutoff: int)
    ensures !(Expired(day, cutoff) && Straddles(day, cutoff))
  {
  }

  lemma PruneAllBundle(f: Files, cutoff: int, done: set<nat>, day: nat)
    requires done <= f.index.Keys && day !in done
    ensures day in PruneAll(f, cutoff, done).bundles <==> day in f.bundles
  {
    hide Recent, Expired, Straddles;
  }

  /** The published indexes after pruning, day by day. */
  lemma PruneAllJson(f: Files, cutoff: int, done: set<nat>)
    requires done <= f.index.Keys
    ensures var g := PruneAll(f, cutoff, done);
            && (forall d :: d in g.json <==>
                 (d in f.json && !(d in done && Expired(d, cutoff))) || (d in done && Straddles(d, cutoff)))
            && (forall d :: d in g.json && d in done && Straddles(d, cutoff) ==>
                 g.json[d] == Published(d in f.bundles, Recent(f.index[d], cutoff)))
            && (forall d :: d in g.json && !(d in done && Straddles(d, cutoff)) ==> g.json[d] == f.json[d])
  {
    hide Recent;
  }

  lemma PruneExpired(f: Files, cutoff: int, day: nat)
    requires day in f.index && Expired(day, cutoff)
    ensures PruneAll(f, cutoff, {day}) == Files(f.index - {day}, f.captures, f.bundles - {day}, f.json - {day})
  {
    var spec := PruneAll(f, cutoff, {day});
    assert spec.index == f.index - {day};
    assert spec.bundles == f.bundles - {day};
    assert spec.json == f.json - {day};
  }

  lemma PruneStraddling(f: Files, cutoff: int, day: nat)
    requires day in f.index && Straddles(day, cutoff)
    ensures PruneAll(f, cutoff, {day}) ==
            PublishedDay(f.(index := f.index[day := Recent(f.index[day], cutoff)]), day)
  {
    hide Recent;
    var spec, g := PruneAll(f, cutoff, {day}),
        PublishedDay(f.(index := f.index[day := Recent(f.index[day], cutoff)]), day);
    assert spec.index == g.index;
    assert spec.bundles == g.bundles;
    assert spec.json == g.json;
  }

  lemma PruneKept(f: Files, cutoff: int, day: nat)
    requires day in f.index && !Expired(day, cutoff) && !Straddles(day, cutoff)
    ensures PruneAll(f, cutoff, {day}) == f
  {
    hide Recent;
    var spec := PruneAll(f, cutoff, {day});
    assert spec.index == f.index;
    assert spec.bundles == f.bundles;
    assert spec.json == f.json;
  }

  lemma PruneNone(f: Files, cutoff: int)
    ensures PruneAll(f, cutoff, {}) == f
  {
  }

  lemma BundleNone(f: Files)
    ensures BundleAll(f, {}) == f
  {
  }

  /** The days already visited that were to be bundled. */
  ghost function Visited(f: Files, active: nat, verified: set<nat>, pending: set<nat>): set<nat> {
    set day | day in f.index && day !in pending && Bundled(f, active, verified, day)
  }

  lemma VisitOne(f: Files, active: nat, verified: set<nat>, pending: set<nat>, day: nat)
    requires day in pending && day in f.index
    ensures Bundleable(f, Visited(f, active, verified, pending)) && day !in Visited(f, active, verified, pending)
    ensures Visited(f, active, verified, pending - {day}) ==
            Visited(f, active, verified, pending) + if Bundled(f, active, verified, day) then {day} else {}
  {
    hide IntactAll;
  }

  lemma RemovedIsBundled(before: Files, after: Files, day: nat, archive: seq<byte>)
    requires InDays(before) && day in before.index && day !in before.bundles
             && IntactAll(before.captures, before.index[day])
    requires archive == BundleOf(before, day)
    requires after.index == before.index && after.bundles == before.bundles[day := archive]
    requires after.captures ==
             map key | key in before.captures && key.time !in before.index[day] :: before.captures[key]
    requires after.json == before.json[day := Published(true, before.index[day])]
    ensures after == BundleAll(before, {day})
  {
    hide Stream, RecordsOf, InDays;
    var spec := BundleAll(before, {day});
    forall time | time in before.index[day]
      ensures time / DAY == day
    {
      TimeInDay(before, day, time);
    }
    assert after.captures == spec.captures;
    assert after.bundles == spec.bundles;
    assert after.json == spec.json;
  }
}
