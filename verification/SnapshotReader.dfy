/** What the browser can fetch: it asks the bundle exactly when `day.json` names one. */
module SnapshotReader {
  import opened Wrappers
  import opened Bytes
  import opened SnapshotBundle
  import opened SnapshotIndex

  /** The browser decompresses a capture, so a damaged one does not do. */
  predicate IntactCapture(f: Files, key: Key) {
    key in f.captures && f.captures[key].Intact?
  }

  /** The lookup of one document through its day's published index. */
  predicate Served(f: Files, day: nat, key: Key)
    requires day in f.json
  {
    if f.json[day].bundled then day in f.bundles && InBundle(f.bundles[day], key) else IntactCapture(f, key)
  }

  ghost predicate Readable(f: Files, day: nat, time: nat)
    requires day in f.json
  {
    forall kind :: Served(f, day, Key(time, kind))
  }

  /** Every time that a published index lists can be read through it. */
  ghost predicate AllReadable(f: Files) {
    forall day, time :: day in f.json && time in f.json[day].times ==> Readable(f, day, time)
  }

  /** Every published index mirrors its day: its times, its bundle, and the
      documents of all times from a cutoff on. */
  ghost predicate CleanFrom(f: Files, cutoff: int) {
    && f.json.Keys == f.index.Keys
    && (forall day <- f.index :: f.json[day] == Published(day in f.bundles, f.index[day]))
    && (forall day, time :: day in f.index && time in f.index[day] ==>
         time / DAY == day && (time >= cutoff ==> Readable(f, day, time)))
  }

  ghost predicate Clean(f: Files) {
    CleanFrom(f, 0)
  }

  lemma CleanIsReadable(f: Files)
    requires Clean(f)
    ensures AllReadable(f)
  {
    hide InBundle;
  }

  /** A newly added time is where the reader will look for it: in the bundle of its
      day, if there is one, and else in its captures. */
  ghost predicate Findable(f: Files, time: nat) {
    forall kind ::
      if time / DAY in f.bundles then InBundle(f.bundles[time / DAY], Key(time, kind))
      else IntactCapture(f, Key(time, kind))
  }

  /** Reading depends on the captures, the bundles and whether the index names one. */
  lemma SameWay(f: Files, g: Files, day: nat, time: nat)
    requires g.captures == f.captures && g.bundles == f.bundles && day in f.json && day in g.json
    requires g.json[day].bundled == f.json[day].bundled
    ensures Readable(g, day, time) <==> Readable(f, day, time)
  {
    hide InBundle;
    assert forall kind :: Served(g, day, Key(time, kind)) <==> Served(f, day, Key(time, kind));
  }

  lemma FoundIsReadable(f: Files, time: nat)
    requires time / DAY in f.json && f.json[time / DAY].bundled == (time / DAY in f.bundles)
    ensures Readable(f, time / DAY, time) <==> Findable(f, time)
  {
    hide InBundle;
    assert forall kind :: Served(f, time / DAY, Key(time, kind)) <==>
             if time / DAY in f.bundles then InBundle(f.bundles[time / DAY], Key(time, kind))
             else IntactCapture(f, Key(time, kind));
  }

  /** Listing and publishing change nothing but the new time's day. */
  lemma ListingIs(f: Files, time: nat)
    ensures var g, today := PublishedDay(Appended(f, time), time / DAY), time / DAY;
            && g.captures == f.captures && g.bundles == f.bundles
            && g.index.Keys == f.index.Keys + {today} && g.json.Keys == f.json.Keys + {today}
            && (forall day <- g.index :: day != today ==> g.index[day] == f.index[day])
            && (forall day <- g.json :: day != today ==> g.json[day] == f.json[day])
            && g.json[today] == Published(today in g.bundles, g.index[today])
            && time in g.index[today]
            && (forall t <- g.index[today] :: t == time || (today in f.index && t in f.index[today]))
  {
  }

  lemma CleanAfterAppend(f: Files, time: nat, cutoff: int)
    requires Clean(f) && (time < cutoff || Findable(f, time))
    ensures CleanFrom(PublishedDay(Appended(f, time), time / DAY), cutoff)
  {
    hide Readable, Appended, PublishedDay, Findable;
    var g := PublishedDay(Appended(f, time), time / DAY);
    ListingIs(f, time);
    forall day, t | day in g.index && t in g.index[day]
      ensures t / DAY == day && (t >= cutoff ==> Readable(g, day, t))
    {
      if day != time / DAY || t != time {
        assert t in f.index[day] && Readable(f, day, t);
        SameWay(f, g, day, t);
      } else if t >= cutoff {
        FoundIsReadable(g, time);
        SameLookup(f, g, time);
      }
    }
  }

  /** Where a time's documents are looked for, and what is there. */
  lemma SameLookup(f: Files, g: Files, time: nat)
    requires time / DAY in g.bundles <==> time / DAY in f.bundles
    requires time / DAY in f.bundles ==> g.bundles[time / DAY] == f.bundles[time / DAY]
    requires forall kind :: IntactCapture(g, Key(time, kind)) <==> IntactCapture(f, Key(time, kind))
    ensures Findable(g, time) <==> Findable(f, time)
  {
    hide InBundle, IntactCapture;
  }

  lemma CleanAfterBundling(f: Files, cutoff: int, done: set<nat>)
    requires CleanFrom(f, cutoff)
    requires forall day <- done :: day in f.index && IntactAll(f.captures, f.index[day]) && day !in f.bundles
    ensures CleanFrom(BundleAll(f, done), cutoff)
  {
    hide InBundle, Stream, RecordsOf;
    var g := BundleAll(f, done);
    forall day, t | day in g.index && t in g.index[day]
      ensures t / DAY == day && (t >= cutoff ==> Readable(g, day, t))
    {
      if day in done {
        forall kind
          ensures InBundle(g.bundles[day], Key(t, kind))
        {
          BundleHoldsCaptures(f.captures, f.index[day], t, kind);
        }
      } else if t >= cutoff {
        assert Readable(f, day, t);
      }
    }
  }

  lemma CleanAfterPruning(f: Files, cutoff: int, from: int, done: set<nat>)
    requires CleanFrom(f, from) && done <= f.index.Keys
    ensures CleanFrom(PruneAll(f, cutoff, done), from)
    ensures from == cutoff && done == f.index.Keys ==> Clean(PruneAll(f, cutoff, done))
  {
    hide InBundle, PruneAll;
    var g := PruneAll(f, cutoff, done);
    PrunedKeys(f, cutoff, done);
    forall day | day in g.index
      ensures g.json[day] == Published(day in g.bundles, g.index[day])
    {
      PrunedDay(f, cutoff, done, day);
    }
    forall day, t | day in g.index && t in g.index[day]
      ensures t / DAY == day && (t >= from || (from == cutoff && done == f.index.Keys) ==> Readable(g, day, t))
    {
      PrunedDay(f, cutoff, done, day);
      assert t in f.index[day] && (t >= from ==> Readable(f, day, t));
    }
  }

  lemma PrunedKeys(f: Files, cutoff: int, done: set<nat>)
    requires f.json.Keys == f.index.Keys && done <= f.index.Keys
    ensures var g := PruneAll(f, cutoff, done);
            g.json.Keys == g.index.Keys && g.index.Keys <= f.index.Keys && g.captures == f.captures
  {
    hide Recent;
    var g := PruneAll(f, cutoff, done);
    assert forall day :: day in g.json <==> day in g.index;
  }

  /** A day that pruning leaves keeps its bundle and, once visited, lists no time
      from before the cutoff. */
  lemma PrunedDay(f: Files, cutoff: int, done: set<nat>, day: nat)
    requires done <= f.index.Keys && day in PruneAll(f, cutoff, done).index
    requires day in f.json && f.json[day] == Published(day in f.bundles, f.index[day])
    requires forall t <- f.index[day] :: t / DAY == day
    ensures var g := PruneAll(f, cutoff, done);
            && day in g.json && g.json[day] == Published(day in g.bundles, g.index[day])
            && (day in g.bundles <==> day in f.bundles)
            && (day in g.bundles ==> g.bundles[day] == f.bundles[day])
            && forall t <- g.index[day] :: t in f.index[day] && (day in done ==> t >= cutoff)
  {
  }

  /** A completed `add` keeps every listed time readable through the published
      indexes exactly when the added time is already too old to be listed, or the
      reader will find its documents. */
  lemma CompletedAddKeepsReadable(f: Files, time: nat, now: int, verified: set<nat>)
    requires Clean(f)
    ensures Clean(AddSpec(f, time, now, verified)) <==> time < now - RETENTION || Findable(f, time)
  {
    hide CleanFrom, Appended, PublishedDay, BundleAll, PruneAll, Findable, IntactAll;
    var cutoff := now - RETENTION;
    if time < cutoff || Findable(f, time) {
      CleanAfterAppend(f, time, cutoff);
      var g := PublishedDay(Appended(f, time), time / DAY);
      var done := BundledDays(g, time / DAY, verified);
      CleanAfterBundling(g, cutoff, done);
      var h := BundleAll(g, done);
      CleanAfterPruning(h, cutoff, cutoff, h.index.Keys);
    } else {
      LateTimeIsMissed(f, time, now, verified);
    }
  }

  /** The time is listed and published, and its index says whether its day is bundled. */
  ghost predicate Shown(f: Files, time: nat) {
    var day := time / DAY;
    && day in f.index && time in f.index[day] && day in f.json
    && f.json[day] == Published(day in f.bundles, f.index[day])
  }

  lemma LateAfterBundling(f: Files, done: set<nat>, time: nat)
    requires forall d <- done :: d in f.index && IntactAll(f.captures, f.index[d])
    requires Shown(f, time) && time / DAY !in done
    ensures Shown(BundleAll(f, done), time) && (Findable(BundleAll(f, done), time) <==> Findable(f, time))
  {
    hide BundleOf, IntactAll, Findable;
    var g := BundleAll(f, done);
    assert forall kind :: IntactCapture(g, Key(time, kind)) <==> IntactCapture(f, Key(time, kind));
    SameLookup(f, g, time);
  }

  lemma LateAfterPruning(f: Files, cutoff: int, time: nat)
    requires Shown(f, time) && time >= cutoff
    ensures var g := PruneAll(f, cutoff, f.index.Keys); Shown(g, time) && (Findable(g, time) <==> Findable(f, time))
  {
    hide Findable;
    assert !Expired(time / DAY, cutoff);
    SameLookup(f, PruneAll(f, cutoff, f.index.Keys), time);
  }

  lemma LateTimeIsMissed(f: Files, time: nat, now: int, verified: set<nat>)
    requires time >= now - RETENTION && !Findable(f, time)
    ensures !Clean(AddSpec(f, time, now, verified))
  {
    hide Appended, PublishedDay, BundleAll, PruneAll, Findable, Readable, IntactAll;
    var g := PublishedDay(Appended(f, time), time / DAY);
    ListingIs(f, time);
    SameLookup(f, g, time);
    var h := BundleAll(g, BundledDays(g, time / DAY, verified));
    LateAfterBundling(g, BundledDays(g, time / DAY, verified), time);
    LateAfterPruning(h, now - RETENTION, time);
    FoundIsReadable(AddSpec(f, time, now, verified), time);
  }

  // ---------------------------------------------------------------- a stop before a day is published again

  /** A bundled day whose published index still sends readers to captures, one of
      which is gone for `time`; the bundle has the time's documents. */
  ghost predicate StoppedBeforePublish(f: Files, day: nat, time: nat) {
    && day in f.index && day in f.bundles && time in f.index[day] && time / DAY == day
    && day in f.json && f.json[day] == Published(false, f.index[day])
    && (exists kind :: !IntactCapture(f, Key(time, kind)))
    && forall kind :: InBundle(f.bundles[day], Key(time, kind))
  }

  /** Later completed runs leave such a time unreadable exactly while they neither
      add to its day nor cut or expire it; otherwise it is readable or not listed. */
  lemma StopBeforePublishLasts(f: Files, day: nat, stopped: nat, time: nat, now: int, verified: set<nat>)
    requires StoppedBeforePublish(f, day, stopped)
    ensures var h, cutoff := AddSpec(f, time, now, verified), now - RETENTION;
            && (StoppedBeforePublish(h, day, stopped) <==>
                 time / DAY != day && !Expired(day, cutoff) && !Straddles(day, cutoff))
            && (day in h.json && stopped in h.json[day].times ==>
                 (Readable(h, day, stopped) <==> !StoppedBeforePublish(h, day, stopped)))
  {
    hide Stream, RecordsOf, InBundle, Expired, Straddles, IntactAll;
    var g := PublishedDay(Appended(f, time), time / DAY);
    AfterAppending(f, day, stopped, time);
    var done := BundledDays(g, time / DAY, verified);
    var h, cutoff := BundleAll(g, done), now - RETENTION;
    assert day !in done;
    BundlingLeaves(g, done, day, stopped);
    PruningLeaves(h, cutoff, day, stopped);
  }

  /** How a bundled day appears to readers: what its published index says, and
      whether a time has all its captures. */
  ghost predicate SameFor(f: Files, g: Files, day: nat, time: nat) {
    && day in f.index && day in g.index && f.index[day] == g.index[day]
    && day in f.bundles && day in g.bundles && f.bundles[day] == g.bundles[day]
    && day in f.json && day in g.json && f.json[day] == g.json[day]
    && forall kind :: IntactCapture(f, Key(time, kind)) <==> IntactCapture(g, Key(time, kind))
  }

  lemma AfterAppending(f: Files, day: nat, stopped: nat, time: nat)
    requires StoppedBeforePublish(f, day, stopped)
    ensures var g := PublishedDay(Appended(f, time), time / DAY);
            && day in g.bundles && g.bundles[day] == f.bundles[day] && g.captures == f.captures
            && day in g.index && stopped in g.index[day] && day in g.json
            && (time / DAY != day ==> SameFor(f, g, day, stopped))
            && (time / DAY == day ==> g.json[day] == Published(true, g.index[day]))
  {
    hide InBundle;
  }

  lemma BundlingLeaves(f: Files, done: set<nat>, day: nat, time: nat)
    requires forall d <- done :: d in f.index && IntactAll(f.captures, f.index[d])
    requires day !in done && time / DAY == day && day in f.index && day in f.bundles && day in f.json
    ensures SameFor(f, BundleAll(f, done), day, time)
  {
    hide Stream, RecordsOf, BundleOf, IntactAll;
  }

  lemma PruningLeaves(f: Files, cutoff: int, day: nat, time: nat)
    requires day in f.index && day in f.bundles && day in f.json
    ensures var g := PruneAll(f, cutoff, f.index.Keys);
            && (!Expired(day, cutoff) && !Straddles(day, cutoff) ==> SameFor(f, g, day, time))
            && (Expired(day, cutoff) ==> day !in g.index && day !in g.json)
            && (!Expired(day, cutoff) ==> day in g.bundles && g.bundles[day] == f.bundles[day])
            && (Straddles(day, cutoff) ==> day in g.json && g.json[day].bundled)
  {
    hide Recent;
  }

  // ---------------------------------------------------------------- a stop while a day expires

  /** Every published index and bundle belongs to an indexed day. */
  predicate Tidy(f: Files) {
    f.json.Keys <= f.index.Keys && f.bundles.Keys <= f.index.Keys
  }

  lemma TidyAfterListing(f: Files, time: nat, done: set<nat>)
    requires Tidy(f)
    ensures Tidy(PublishedDay(Appended(f, time), time / DAY))
    ensures (forall day <- done :: day in f.index && IntactAll(f.captures, f.index[day])) ==> Tidy(BundleAll(f, done))
  {
    hide BundleOf, IntactAll;
  }

  lemma TidyAfterPruning(f: Files, cutoff: int, day: nat)
    requires Tidy(f)
    ensures var g := PruneAll(f, cutoff, f.index.Keys);
            Tidy(g) && (Expired(day, cutoff) ==> day !in g.index && day !in g.json && day !in g.bundles)
  {
    hide Recent;
  }

  /** From a tidy state a completed `add` leaves no file of an expired day. */
  lemma AddRemovesExpired(f: Files, time: nat, now: int, verified: set<nat>, day: nat)
    requires Tidy(f)
    ensures var h := AddSpec(f, time, now, verified);
            && Tidy(h)
            && (Expired(day, now - RETENTION) ==> day !in h.index && day !in h.json && day !in h.bundles)
  {
    hide Tidy, Appended, PublishedDay, BundleAll, PruneAll, IntactAll, Expired;
    var g := PublishedDay(Appended(f, time), time / DAY);
    var done := BundledDays(g, time / DAY, verified);
    TidyAfterListing(f, time, {});
    TidyAfterListing(g, time, done);
    TidyAfterPruning(BundleAll(g, done), now - RETENTION, day);
  }

  /** A published index or bundle whose day is no longer indexed. */
  predicate Orphaned(f: Files, day: nat) {
    day !in f.index && (day in f.json || day in f.bundles)
  }

  /** Expiring a day orphans its files if it stops after the timestamps are removed,
      or after `day.json` is. */
  lemma StopInExpiryOrphans(f: Files, cutoff: int, day: nat)
    requires day in f.index && Expired(day, cutoff)
    ensures Orphaned(After(f, PruneOps(f, cutoff, day)[..1]), day) <==> day in f.json || day in f.bundles
    ensures Orphaned(After(f, PruneOps(f, cutoff, day)[..2]), day) <==> day in f.bundles
    ensures !Orphaned(After(f, PruneOps(f, cutoff, day)), day)
  {
    var ops := PruneOps(f, cutoff, day);
    assert ops[..0] == [] && ops[..1][..0] == [] && ops[..2][..1] == ops[..1];
    assert ops[..3] == ops && ops[..3][..2] == ops[..2];
    assert After(f, ops[..1]) == Step(f, ops[0]);
    assert After(f, ops[..2]) == Step(After(f, ops[..1]), ops[1]);
    assert After(f, ops) == Step(After(f, ops[..2]), ops[2]);
  }

  /** Orphaned files stay through later completed runs exactly while none adds a
      time of their day: pruning visits indexed days only. */
  lemma OrphansStay(f: Files, day: nat, time: nat, now: int, verified: set<nat>)
    requires Orphaned(f, day)
    ensures var h := AddSpec(f, time, now, verified);
            && (Orphaned(h, day) <==> time / DAY != day)
            && (time / DAY != day ==> (day in h.json <==> day in f.json) && (day in h.bundles <==> day in f.bundles))
  {
    hide BundleOf, IntactAll, Recent;
  }

  // ---------------------------------------------------------------- what a completed run keeps

  predicate Lists(f: Files, day: nat, t: nat) {
    day in f.index && t in f.index[day]
  }

  lemma PruneLists(f: Files, cutoff: int, day: nat, t: nat)
    requires Lists(f, day, t) ==> t / DAY == day
    ensures Lists(PruneAll(f, cutoff, f.index.Keys), day, t) <==> Lists(f, day, t) && t >= cutoff
  {
  }

  lemma AppendLists(f: Files, time: nat, day: nat, t: nat)
    ensures Lists(PublishedDay(Appended(f, time), time / DAY), day, t) <==>
            Lists(f, day, t) || (day == time / DAY && t == time)
  {
  }

  /** After a completed `add` exactly the earlier times and the new one are listed,
      less those from before the cutoff. */
  lemma AddListsRecentTimes(f: Files, time: nat, now: int, verified: set<nat>, day: nat, t: nat)
    requires InDays(f)
    ensures Lists(AddSpec(f, time, now, verified), day, t) <==>
            (Lists(f, day, t) || (day == time / DAY && t == time)) && t >= now - RETENTION
  {
    hide PruneAll, Appended, PublishedDay, IntactAll, InDays, Lists;
    var g := PublishedDay(Appended(f, time), time / DAY);
    var h := BundleAll(g, BundledDays(g, time / DAY, verified));
    AppendLists(f, time, day, t);
    if Lists(f, day, t) { ListedInDay(f, day, t); }
    assert Lists(h, day, t) <==> Lists(g, day, t) by { SameLists(g, h, day, t); }
    PruneLists(h, now - RETENTION, day, t);
  }

  lemma SameLists(g: Files, h: Files, day: nat, t: nat)
    requires g.index == h.index
    ensures Lists(h, day, t) <==> Lists(g, day, t)
  {
  }

  lemma ListedInDay(f: Files, day: nat, t: nat)
    requires InDays(f) && Lists(f, day, t)
    ensures t / DAY == day
  {
    assert Listed(f, day, t);
  }

  /** The bytes a document holds: the capture's, or else the bundled ones. */
  ghost function BodyOf(f: Files, key: Key): Option<seq<byte>> {
    if key in f.captures then
      if f.captures[key].Intact? then Some(f.captures[key].body) else None
    else if key.time / DAY in f.bundles && InBundle(f.bundles[key.time / DAY], key) then
      Some(ParseSpec(f.bundles[key.time / DAY]).value[key])
    else None
  }

  lemma BodyAfterBundling(f: Files, done: set<nat>, key: Key)
    requires forall day <- done :: day in f.index && IntactAll(f.captures, f.index[day]) && day !in f.bundles
    requires Lists(f, key.time / DAY, key.time)
    ensures BodyOf(BundleAll(f, done), key) == BodyOf(f, key)
  {
    hide InBundle, ParseSpec, Stream, RecordsOf;
    var day := key.time / DAY;
    if day in done && key.time in f.index[day] {
      BundleHoldsCaptures(f.captures, f.index[day], key.time, key.kind);
    }
  }

  lemma BodyAfterPruning(f: Files, cutoff: int, key: Key)
    requires !Expired(key.time / DAY, cutoff)
    ensures BodyOf(PruneAll(f, cutoff, f.index.Keys), key) == BodyOf(f, key)
  {
    hide InBundle, ParseSpec, Recent, Expired;
  }

  /** Whatever a completed `add` moves into bundles, every document of a listed
      time keeps its bytes. */
  lemma AddKeepsBodies(f: Files, time: nat, now: int, verified: set<nat>, day: nat, t: nat, kind: Kind)
    requires InDays(f)
    requires Lists(AddSpec(f, time, now, verified), day, t)
    ensures BodyOf(AddSpec(f, time, now, verified), Key(t, kind)) == BodyOf(f, Key(t, kind))
  {
    hide Appended, PublishedDay, BundleAll, PruneAll, IntactAll, InDays, Lists, BodyOf, InBundle;
    var key, g := Key(t, kind), PublishedDay(Appended(f, time), time / DAY);
    AddListsRecentTimes(f, time, now, verified, day, t);
    if Lists(f, day, t) { ListedInDay(f, day, t); }
    AppendLists(f, time, day, t);
    SameDocuments(f, time, key);
    BodyAfterBundling(g, BundledDays(g, time / DAY, verified), key);
    BodyAfterPruning(BundleAll(g, BundledDays(g, time / DAY, verified)), now - RETENTION, key);
  }

  lemma SameDocuments(f: Files, time: nat, key: Key)
    ensures var g := PublishedDay(Appended(f, time), time / DAY);
            g.captures == f.captures && g.bundles == f.bundles && BodyOf(g, key) == BodyOf(f, key)
  {
    hide InBundle, ParseSpec;
  }
}
