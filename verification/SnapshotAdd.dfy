/** What a completed `add` leaves behind, file by file. */
module SnapshotAdd {
  import opened SnapshotBundle
  import opened SnapshotIndex

  /** A day that the run moves into a bundle: it is over, has no bundle yet, all documents
      of its listed times are there and intact, and the archive built of them verifies. */
  ghost predicate ReadyToBundle(f: Files, time: nat, verified: set<nat>, day: nat) {
    && day in f.index && (day + 1) * 86400 <= time && day !in f.bundles && day in verified
    && forall t, kind :: t in f.index[day] ==> Key(t, kind) in f.captures && f.captures[Key(t, kind)].Intact?
  }

  /** A day that the run indexes and that ended before the thirty days that are kept. */
  ghost predicate Dropped(f: Files, time: nat, now: int, day: nat) {
    (day in f.index || day == time / 86400) && (day + 1) * 86400 <= now - 2592000
  }

  /** The times of a day once the new one is listed. */
  function TimesWith(f: Files, time: nat, day: nat): seq<nat> {
    var listed := if day in f.index then f.index[day] else [];
    if day != time / 86400 || (listed != [] && listed[|listed| - 1] == time) then listed else listed + [time]
  }

  /** Part of the day, and no more, is older than what is kept. */
  predicate Shortened(now: int, day: nat) { day * 86400 < now - 2592000 < (day + 1) * 86400 }

  // ---------------------------------------------------------------- the phases at one day

  ghost function Listing(f: Files, time: nat): Files {
    PublishedDay(Appended(f, time), time / DAY)
  }

  lemma ListedAt(f: Files, time: nat, day: nat)
    ensures var g := Listing(f, time);
            && g.captures == f.captures && g.bundles == f.bundles
            && (day in g.index <==> day in f.index || day == time / 86400)
            && (day in g.index ==> g.index[day] == TimesWith(f, time, day))
            && (day in g.json <==> day in f.json || day == time / 86400)
            && (day == time / 86400 ==> g.json[day] == Published(day in g.bundles, g.index[day]))
            && (day in f.json && day != time / 86400 ==> g.json[day] == f.json[day])
  {
  }

  lemma BundledAt(g: Files, active: nat, verified: set<nat>, day: nat)
    ensures var h := BundleAll(g, BundledDays(g, active, verified));
            && h.index == g.index
            && (day in h.bundles <==> day in g.bundles || Bundled(g, active, verified, day))
            && (Bundled(g, active, verified, day) ==>
                 day in h.json && h.json[day] == Published(true, g.index[day]) && h.bundles[day] == BundleOf(g, day))
            && (!Bundled(g, active, verified, day) ==>
                 && (day in h.json <==> day in g.json) && (day in g.json ==> h.json[day] == g.json[day])
                 && (day in g.bundles ==> h.bundles[day] == g.bundles[day]))
  {
    hide IntactAll, BundleOf;
  }

  lemma CapturesAt(g: Files, active: nat, verified: set<nat>, key: Key)
    ensures var h, day := BundleAll(g, BundledDays(g, active, verified)), key.time / DAY;
            && (key in h.captures <==>
                 key in g.captures && !(Bundled(g, active, verified, day) && key.time in g.index[day]))
            && (key in h.captures ==> h.captures[key] == g.captures[key])
  {
    hide IntactAll, BundleOf;
  }

  lemma PrunedAt(h: Files, cutoff: int, day: nat)
    ensures var g, gone := PruneAll(h, cutoff, h.index.Keys), day in h.index && Expired(day, cutoff);
            && g.captures == h.captures
            && (day in g.index <==> day in h.index && !gone)
            && (day in g.index ==>
                 g.index[day] == if Straddles(day, cutoff) then Recent(h.index[day], cutoff) else h.index[day])
            && (day in g.bundles <==> day in h.bundles && !gone)
            && (day in g.bundles ==> g.bundles[day] == h.bundles[day])
            && var cut := day in h.index && Straddles(day, cutoff);
            && (day in g.json <==> cut || (day in h.json && !gone))
            && (cut ==> day in g.index && g.json[day] == Published(day in h.bundles, g.index[day]))
            && (day in g.json && !cut ==> g.json[day] == h.json[day])
  {
    hide Recent;
  }

  lemma ReadyIsBundled(f: Files, time: nat, verified: set<nat>, day: nat)
    ensures Bundled(Listing(f, time), time / DAY, verified, day) <==> ReadyToBundle(f, time, verified, day)
    ensures ReadyToBundle(f, time, verified, day) ==>
              && day in Listing(f, time).index && Listing(f, time).index[day] == f.index[day]
              && day !in f.bundles && IntactAll(f.captures, f.index[day])
              && BundleOf(Listing(f, time), day) == BundleOf(f, day)
  {
    hide Listing, Stream, RecordsOf;
    ListedAt(f, time, day);
    DayIsOver(day, time);
    if day in f.index { IntactMeans(f.captures, f.index[day]); }
  }

  lemma DayIsOver(day: nat, time: nat)
    ensures (day + 1) * 86400 <= time <==> day < time / 86400
  {
  }

  lemma IntactMeans(captures: map<Key, Document>, times: seq<nat>)
    ensures IntactAll(captures, times) <==>
            forall t, kind :: t in times ==> Key(t, kind) in captures && captures[Key(t, kind)].Intact?
  {
    if forall t, kind :: t in times ==> Key(t, kind) in captures && captures[Key(t, kind)].Intact? {
      assert forall t <- times :: IntactAt(captures, t);
    }
    if IntactAll(captures, times) {
      assert forall t :: t in times ==> IntactAt(captures, t);
    }
  }

  /** A completed run at one day, through its three phases. */
  ghost function Bundling(f: Files, time: nat, verified: set<nat>): Files {
    BundleAll(Listing(f, time), BundledDays(Listing(f, time), time / DAY, verified))
  }

  lemma AddIsPhases(f: Files, time: nat, now: int, verified: set<nat>)
    ensures var h := Bundling(f, time, verified);
            AddSpec(f, time, now, verified) == PruneAll(h, now - 2592000, h.index.Keys)
  {
    hide BundleAll, PruneAll, PublishedDay, Appended;
  }

  // ---------------------------------------------------------------- the files after a run

  /** Which days have a bundle: those that had one and those that were ready for it, unless dropped. */
  lemma AddBundlesExactly(f: Files, time: nat, now: int, verified: set<nat>, day: nat)
    ensures var g := AddSpec(f, time, now, verified);
            && (day in g.bundles <==>
                 (day in f.bundles || ReadyToBundle(f, time, verified, day)) && !Dropped(f, time, now, day))
            && (day in g.bundles && day in f.bundles ==> g.bundles[day] == f.bundles[day])
            && (day in g.bundles && day !in f.bundles ==>
                 && ParseSpec(g.bundles[day]).Success?
                 && forall t, kind :: t in f.index[day] ==>
                      && Key(t, kind) in ParseSpec(g.bundles[day]).value
                      && f.captures[Key(t, kind)] == Intact(ParseSpec(g.bundles[day]).value[Key(t, kind)]))
  {
    hide IntactAll, Bundled, ReadyToBundle, ParseSpec, BundleOf, PruneAll, BundleAll, Listing, Recent, AddSpec;
    AddIsPhases(f, time, now, verified);
    ReadyIsBundled(f, time, verified, day);
    ListedAt(f, time, day);
    BundledAt(Listing(f, time), time / DAY, verified, day);
    PrunedAt(Bundling(f, time, verified), now - 2592000, day);
    if ReadyToBundle(f, time, verified, day) { BundleHolds(f, time, verified, day); }
  }

  lemma BundleHolds(f: Files, time: nat, verified: set<nat>, day: nat)
    requires ReadyToBundle(f, time, verified, day)
    ensures day in f.index && IntactAll(f.captures, f.index[day])
    ensures ParseSpec(BundleOf(f, day)).Success?
    ensures forall t, kind :: t in f.index[day] ==>
              && Key(t, kind) in ParseSpec(BundleOf(f, day)).value
              && f.captures[Key(t, kind)] == Intact(ParseSpec(BundleOf(f, day)).value[Key(t, kind)])
  {
    hide ParseSpec, Stream, RecordsOf;
    StreamReadsBack(RecordsOf(f.captures, f.index[day]));
    forall t, kind | t in f.index[day]
      ensures InBundle(BundleOf(f, day), Key(t, kind))
      ensures f.captures[Key(t, kind)] == Intact(ParseSpec(BundleOf(f, day)).value[Key(t, kind)])
    {
      BundleHoldsCaptures(f.captures, f.index[day], t, kind);
    }
  }

  /** The bundles that are new after a run are those of the days that were ready. */
  lemma AddNewBundles(f: Files, time: nat, now: int, verified: set<nat>)
    ensures forall day: nat ::
              day in AddSpec(f, time, now, verified).bundles && day !in f.bundles <==>
                ReadyToBundle(f, time, verified, day) && !Dropped(f, time, now, day)
  {
    hide AddSpec, ReadyToBundle, Dropped, ParseSpec;
    forall day: nat
      ensures day in AddSpec(f, time, now, verified).bundles && day !in f.bundles <==>
                ReadyToBundle(f, time, verified, day) && !Dropped(f, time, now, day)
    {
      AddBundlesExactly(f, time, now, verified, day);
      if ReadyToBundle(f, time, verified, day) { ReadyIsIndexed(f, time, verified, day); }
    }
  }

  /** And those that are new after the bundling phase. */
  lemma BundlingNewBundles(f: Files, active: nat, verified: set<nat>)
    ensures forall day: nat ::
              day in BundleAll(f, BundledDays(f, active, verified)).bundles && day !in f.bundles <==>
                ReadyToBundle(f, active * 86400, verified, day)
  {
    hide BundleAll, IntactAll;
    forall day: nat
      ensures day in BundleAll(f, BundledDays(f, active, verified)).bundles && day !in f.bundles <==>
                ReadyToBundle(f, active * 86400, verified, day)
    {
      BundledAt(f, active, verified, day);
      if day in f.index { IntactMeans(f.captures, f.index[day]); }
    }
  }

  /** Which captures are left: all but those of the times that moved into a bundle. */
  lemma AddCapturesExactly(f: Files, time: nat, now: int, verified: set<nat>, key: Key)
    ensures var g, day := AddSpec(f, time, now, verified), key.time / 86400;
            && (key in g.captures <==>
                 key in f.captures && !(ReadyToBundle(f, time, verified, day) && key.time in f.index[day]))
            && (key in g.captures ==> g.captures[key] == f.captures[key])
  {
    hide IntactAll, Bundled, ReadyToBundle, BundleOf, PruneAll, BundleAll, Listing, Recent, AddSpec;
    AddIsPhases(f, time, now, verified);
    ReadyIsBundled(f, time, verified, key.time / 86400);
    ListedAt(f, time, key.time / 86400);
    CapturesAt(Listing(f, time), time / DAY, verified, key);
    PrunedAt(Bundling(f, time, verified), now - 2592000, key.time / 86400);
  }

  /** Which days are indexed, and with which times. */
  lemma AddIndexExactly(f: Files, time: nat, now: int, verified: set<nat>, day: nat)
    ensures var g := AddSpec(f, time, now, verified);
            && (day in g.index <==> (day in f.index || day == time / 86400) && !Dropped(f, time, now, day))
            && (day in g.index ==>
                 g.index[day] ==
                 var times := TimesWith(f, time, day);
                 if Shortened(now, day) then Recent(times, now - 2592000) else times)
  {
    hide IntactAll, Bundled, PruneAll, BundleAll, Listing, Recent, AddSpec, TimesWith;
    AddIsPhases(f, time, now, verified);
    ListedAt(f, time, day);
    BundledAt(Listing(f, time), time / DAY, verified, day);
    PrunedAt(Bundling(f, time, verified), now - 2592000, day);
  }

  /** Which published indexes there are: those of the new time's day, of a day that was
      bundled and of a day that was cut are new and mirror the day. */
  lemma AddPublishesExactly(f: Files, time: nat, now: int, verified: set<nat>, day: nat)
    ensures var g := AddSpec(f, time, now, verified);
            var renewed := day == time / 86400 || ReadyToBundle(f, time, verified, day)
                         || (day in f.index && Shortened(now, day));
            && (day in g.json <==> (day in f.json || renewed) && !Dropped(f, time, now, day))
            && (day in g.json && renewed ==> day in g.index && g.json[day] == Published(day in g.bundles, g.index[day]))
            && (day in g.json && !renewed ==> g.json[day] == f.json[day])
  {
    hide IntactAll, Bundled, ReadyToBundle, PruneAll, BundleAll, Listing, Recent, AddSpec, TimesWith, BundleOf;
    AddIsPhases(f, time, now, verified);
    ReadyIsBundled(f, time, verified, day);
    if ReadyToBundle(f, time, verified, day) { ReadyIsIndexed(f, time, verified, day); }
    ListedAt(f, time, day);
    BundledAt(Listing(f, time), time / DAY, verified, day);
    PrunedAt(Bundling(f, time, verified), now - 2592000, day);
  }

  lemma ReadyIsIndexed(f: Files, time: nat, verified: set<nat>, day: nat)
    requires ReadyToBundle(f, time, verified, day)
    ensures day in f.index && day < time / 86400 && day !in f.bundles
  {
  }

  predicate InOrder(times: seq<nat>) {
    forall i, j :: 0 <= i < j < |times| ==> times[i] <= times[j]
  }

  lemma RecentLast(front: seq<nat>, last: nat, cutoff: int)
    ensures Recent(front + [last], cutoff) == Recent(front, cutoff) + if last >= cutoff then [last] else []
  {
    assert (front + [last])[..|front|] == front;
  }

  /** Of ascending times the recent ones are the end of the list. */
  lemma {:induction false} RecentIsSuffix(times: seq<nat>, cutoff: int) returns (k: nat)
    requires InOrder(times)
    ensures k <= |times| && Recent(times, cutoff) == times[k..]
    ensures forall i :: 0 <= i < |times| ==> (i < k <==> times[i] < cutoff)
  {
    if times == [] {
      k := 0;
    } else {
      hide Recent;
      var front, last := times[..|times| - 1], times[|times| - 1];
      assert times == front + [last];
      k := RecentIsSuffix(front, cutoff);
      RecentLast(front, last, cutoff);
      if last >= cutoff {
        assert times[k..] == front[k..] + [last];
      } else {
        assert forall i :: 0 <= i < |times| ==> times[i] <= last;
        k := |times|;
      }
    }
  }
}
