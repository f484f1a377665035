/** The `add` command as file operations on a store, with a log of every operation. */
module SnapshotStore {
  import opened Wrappers
  import opened Bytes
  import opened SnapshotBundle
  import opened SnapshotIndex
  import opened SnapshotReader
  import opened SnapshotLog
  import opened SnapshotHistory
  import opened SnapshotPhases
  import opened SnapshotRuns
  import opened SnapshotAdd

  class Store {
    var index: map<nat, seq<nat>>
    var captures: map<Key, Document>
    var bundles: map<nat, seq<byte>>
    var json: map<nat, Published>

    /** Every file operation so far, in order. */
    var log: seq<Operation>

    function Now(): Files
      reads this
    {
      Files(index, captures, bundles, json)
    }

    /** The files are what the logged operations made them, and each of these was legal
        when it was done. A stop may come between any two, so what is proved of every
        legal log holds after every stop. */
    ghost predicate Logged()
      reads this
    {
      Now() == Replay(log) && LegalLog(log)
    }

    constructor ()
      ensures Now() == NO_FILES && log == []
      ensures Logged()
    {
      index, captures, bundles, json, log := map[], map[], map[], map[], [];
    }

    /** One file operation. */
    method Do(op: Operation)
      requires Logged() && Legal(Now(), op)
      modifies this
      ensures Now() == Step(old(Now()), op) && log == old(log) + [op] && Logged()
    {
      hide LegalLog, Legal, Replay;
      LegalOneMore(log, op);
      ReplayOneMore(log, op);
      match op {
        case WriteCapture(key, document) => captures := captures[key := document];
        case RemoveCapture(key) => captures := captures - {key};
        case WriteIndex(day, times) => index := index[day := times];
        case RemoveIndex(day) => index := index - {day};
        case WriteJson(day, published) => json := json[day := published];
        case RemoveJson(day) => json := json - {day};
        case WriteBundle(day, bundle) => bundles := bundles[day := bundle];
        case RemoveBundle(day) => bundles := bundles - {day};
      }
      log := log + [op];
    }

    method AppendTimestamp(time: nat)
      requires Logged()
      modifies this
      ensures Now() == Appended(old(Now()), time) && Logged()
      ensures log == old(log) + AppendOps(old(Now()), time)
    {
      hide LegalLog, Replay, Legal, Step, Appended, AppendOps;
      var day := time / DAY;
      var listed := if day in index then index[day] else [];
      AppendIsOne(Now(), time, listed);
      if listed == [] || listed[|listed| - 1] != time {
        Do(WriteIndex(day, listed + [time]));
      }
    }

    /** The temporary file is renamed over `day.json`: one step for readers. */
    method PublishDay(day: nat)
      requires Logged()
      modifies this
      ensures Now() == PublishedDay(old(Now()), day) && Logged()
      ensures log == old(log) + PublishOps(old(Now()), day)
    {
      hide LegalLog, Replay;
      if day in index {
        Do(WriteJson(day, Published(day in bundles, index[day])));
      }
    }

    /** Whether every listed capture is readable and passes `gzip -t`. */
    method CheckComplete(times: seq<nat>) returns (complete: bool)
      ensures complete <==> IntactAll(captures, times)
    {
      for i := 0 to |times|
        invariant forall k :: 0 <= k < i ==> IntactAt(captures, times[k])
      {
        for k := 0 to 3
          invariant forall j :: 0 <= j < k ==>
                      Key(times[i], KINDS[j]) in captures && captures[Key(times[i], KINDS[j])].Intact?
        {
          var input := Key(times[i], KINDS[k]);
          if input !in captures || captures[input].Damaged? {
            assert !IntactAt(captures, times[i]) && times[i] in times;
            return false;
          }
        }
        EveryKind(captures, times[i]);
      }
      return true;
    }

    /** Frames every capture of the day into one stream. */
    method BuildArchive(times: seq<nat>) returns (archive: seq<byte>)
      requires IntactAll(captures, times)
      ensures archive == Stream(RecordsOf(captures, times))
    {
      hide Framed;
      archive := BUNDLE_MAGIC;
      assert archive == BUNDLE_MAGIC + Frames(RecordsOf(captures, times[..0]));
      for i := 0 to |times|
        invariant IntactAll(captures, times[..i])
        invariant archive == BUNDLE_MAGIC + Frames(RecordsOf(captures, times[..i]))
      {
        assert times[..i + 1][..i] == times[..i] && times[i] in times;
        assert IntactAll(captures, times[..i + 1]);
        var records := RecordsAt(captures, times[i]);
        FramesSplit(RecordsOf(captures, times[..i]), records);
        assert Frames(records) == Framed(records[0]) + (Framed(records[1]) + (Framed(records[2]) + [])) by {
          FramesOfThree(records);
        }
        archive := archive + (Framed(records[0]) + (Framed(records[1]) + (Framed(records[2]) + [])));
      }
      assert times[..|times|] == times;
    }

    /** Bundles one completed day, or leaves everything alone. */
    method BundleDay(day: nat, archiveVerifies: bool)
      requires Logged() && day in index && day !in bundles
      modifies this
      ensures Logged()
      ensures old(IntactAll(captures, index[day])) && archiveVerifies ==>
                Now() == BundleAll(old(Now()), {day}) && log == old(log) + BundleOps(old(Now()), day)
      ensures !(old(IntactAll(captures, index[day])) && archiveVerifies) ==> Now() == old(Now()) && log == old(log)
      ensures Clean(old(Now())) ==> Clean(Now()) && Settled(old(Now()), log[|old(log)|..])
    {
      hide Replay, LegalLog, InDays, InBundle, Stream, RecordsOf, BundleAll, Removals, Clean, Settled, BundleOps;
      ghost var before := Now();
      LogInDays(log);
      IsUnbundled(before, day);
      UnchangedSettled(before, log);
      var times := index[day];
      var complete := CheckComplete(times);
      if !complete {
        return;
      }
      var archive := BuildArchive(times);
      if !archiveVerifies {
        return;
      }
      forall t, kind | t in times
        ensures InBundle(archive, Key(t, kind))
      {
        BundleHoldsCaptures(captures, times, t, kind);
      }
      Do(WriteBundle(day, archive));
      RemoveCaptures(day, times, before.captures);
      PublishDay(day);
      RemovedIsBundled(before, Now(), day, archive);
      BundleOpsAre(before, day, archive);
      assert log == old(log) + BundleOps(before, day);
      DaySettled(old(log), before, day, Now());
    }

    /** Removes the bundled captures one file at a time. */
    method RemoveCaptures(day: nat, times: seq<nat>, ghost original: map<Key, Document>)
      requires Logged() && day in index && index[day] == times && day in bundles
      requires captures == original && IntactAll(original, times)
      requires bundles[day] == Stream(RecordsOf(original, times)) && (day in json ==> !json[day].bundled)
      modifies this
      ensures log == old(log) + Removals(times) && Logged()
      ensures index == old(index) && bundles == old(bundles) && json == old(json)
      ensures captures == map key | key in original && key.time !in times :: original[key]
    {
      hide Stream, RecordsOf, InBundle, InDays, Replay, LegalLog, RemovalsAt;
      LogInDays(log);
      ghost var start := Now();
      for i := 0 to |times|
        invariant log == old(log) + Removals(times[..i]) && Logged()
        invariant index == old(index) && bundles == old(bundles) && json == old(json)
        invariant captures == map key | key in original && key.time !in times[..i] :: original[key]
      {
        assert times[i] in times;
        forall kind
          ensures InBundle(bundles[day], Key(times[i], kind))
        {
          BundleHoldsCaptures(original, times, times[i], kind);
        }
        TimeInDay(start, day, times[i]);
        RemoveTime(times[i]);
        assert times[..i + 1] == times[..i] + [times[i]];
        assert times[..i + 1][..i] == times[..i];
      }
      assert times[..|times|] == times;
    }

    method RemoveTime(time: nat)
      requires Logged() && time / DAY in bundles && (time / DAY in json ==> !json[time / DAY].bundled)
      requires forall kind :: InBundle(bundles[time / DAY], Key(time, kind))
      modifies this
      ensures log == old(log) + RemovalsAt(time) && Logged()
      ensures index == old(index) && bundles == old(bundles) && json == old(json)
      ensures captures == map key | key in old(captures) && key.time != time :: old(captures)[key]
    {
      hide InBundle, Replay, LegalLog;
      for k := 0 to 3
        invariant log == old(log) + RemovalsAt(time)[..k] && Logged()
        invariant index == old(index) && bundles == old(bundles) && json == old(json)
        invariant captures == map key | key in old(captures) && !(key.time == time && key.kind in KINDS[..k])
                                :: old(captures)[key]
      {
        Do(RemoveCapture(Key(time, KINDS[k])));
        assert RemovalsAt(time)[k] == RemoveCapture(Key(time, KINDS[k]));
      }
      AllKinds();
    }

    /** Visits the indexed days in some order and bundles those before `active`. */
    method BundleCompletedDays(active: nat, verified: set<nat>) returns (ghost order: seq<nat>)
      requires Logged()
      modifies this
      ensures Logged() && EachOnce(order, old(index).Keys)
      ensures log == old(log) + BundlingOps(old(Now()), order, active, verified)
      ensures Now() == BundleAll(old(Now()), BundledDays(old(Now()), active, verified))
      ensures forall day: nat ::
                day in bundles && day !in old(bundles) <==> ReadyToBundle(old(Now()), active * 86400, verified, day)
      ensures Clean(old(Now())) ==> Clean(Now()) && Settled(old(Now()), log[|old(log)|..])
    {
      hide Replay, LegalLog, InDays, BundlingAt, BundleVisited, BundlingOps, BundleAll, EachOnce, Clean, Settled;
      hide ReadyToBundle;
      ghost var start, entry := Now(), log;
      LogInDays(log);
      BundlingStarts(start, log, active, verified);
      var pending := index.Keys;
      order := [];
      while pending != {}
        invariant Logged() && BundlingAt(start, entry, Now(), log, order, pending, active, verified)
        decreases |pending|
      {
        var day :| day in pending;
        ghost var f, before := Now(), log;
        VisitForBundling(day, active, verified);
        BundlingAdvances(start, entry, f, before, Now(), log, order, pending, active, verified, day);
        order, pending := order + [day], pending - {day};
      }
      BundlingEnds(start, entry, Now(), log, order, active, verified);
      BundlingNewBundles(start, active, verified);
    }

    /** One turn of the loop: only a day before the active one and without a bundle. */
    method VisitForBundling(day: nat, active: nat, verified: set<nat>)
      requires Logged()
      modifies this
      ensures Logged() && BundleVisited(old(Now()), old(log), Now(), log, active, verified, day)
    {
      hide Replay, LegalLog, BundleAll, Clean, Settled, BundleOps, IntactAll;
      UnchangedSettled(Now(), log);
      if day in index && day < active && day !in bundles {
        BundleDay(day, day in verified);
      }
    }

    /** Drops what is older than the cutoff, day by day in some order. */
    method PruneIndex(cutoff: int) returns (ghost order: seq<nat>)
      requires Logged()
      modifies this
      ensures Logged() && EachOnce(order, old(index).Keys)
      ensures log == old(log) + PruningOps(old(Now()), order, cutoff)
      ensures Now() == PruneAll(old(Now()), cutoff, old(index).Keys)
      ensures Clean(old(Now())) ==> Clean(Now()) && Settled(old(Now()), log[|old(log)|..])
    {
      hide Replay, LegalLog, PruningAt, PruningOps, PruneOps, PruneAll, EachOnce, Clean, Settled;
      ghost var start, entry := Now(), log;
      PruningStarts(start, log, cutoff);
      var pending := index.Keys;
      order := [];
      while pending != {}
        invariant Logged() && PruningAt(start, entry, Now(), log, order, pending, cutoff)
        decreases |pending|
      {
        var day :| day in pending;
        PruningHasDay(start, entry, Now(), log, order, pending, cutoff, day);
        ghost var f, before := Now(), log;
        PruneDay(day, cutoff);
        PruningAdvances(start, entry, f, before, Now(), log, order, pending, cutoff, day);
        order, pending := order + [day], pending - {day};
      }
      PruningEnds(start, entry, Now(), log, order, cutoff);
    }

    method PruneDay(day: nat, cutoff: int)
      requires Logged() && day in index
      modifies this
      ensures log == old(log) + PruneOps(old(Now()), cutoff, day) && Logged()
      ensures Now() == PruneAll(old(Now()), cutoff, {day})
      ensures Clean(old(Now())) ==> Clean(Now()) && Settled(old(Now()), log[|old(log)|..])
    {
      hide PruneAll, Recent, CleanFrom, Settled, Replay, LegalLog;
      ghost var before := Now();
      if (day + 1) * DAY <= cutoff {
        PruneExpired(before, cutoff, day);
        ExpireDay(day);
      } else if day * DAY < cutoff {
        PruneStraddling(before, cutoff, day);
        Do(WriteIndex(day, Recent(index[day], cutoff)));
        PublishDay(day);
      } else {
        PruneKept(before, cutoff, day);
      }
      if Clean(before) {
        PruneSettled(before, cutoff, day);
        SettledTail(old(log), PruneOps(before, cutoff, day));
        CleanAfterPruning(before, cutoff, 0, {day});
      }
    }

    /** Removes the timestamps, then `day.json`, then the bundle. */
    method ExpireDay(day: nat)
      requires Logged()
      modifies this
      ensures log == old(log) + [RemoveIndex(day), RemoveJson(day), RemoveBundle(day)] && Logged()
      ensures Now() == Files(old(index) - {day}, old(captures), old(bundles) - {day}, old(json) - {day})
    {
      hide Replay, LegalLog;
      Do(RemoveIndex(day));
      Do(RemoveJson(day));
      Do(RemoveBundle(day));
    }

    /** `add TIMESTAMP`. From a clean state, with the new time's documents in place, a
        stop after any number of operations leaves every published time readable
        exactly unless it comes between the first removal of a day's captures and
        that day's publication. */
    method Add(time: nat, now: int, verified: set<nat>) returns (ghost bundling: seq<nat>, ghost pruning: seq<nat>)
      requires Logged()
      modifies this
      ensures Logged() && Now() == AddSpec(old(Now()), time, now, verified)
      ensures AddOrders(old(Now()), time, bundling, pruning)
      ensures log == old(log) + AddOps(old(Now()), time, now, verified, bundling, pruning)
      ensures forall day: nat ::
                day in bundles && day !in old(bundles) <==>
                  ReadyToBundle(old(Now()), time, verified, day) && !Dropped(old(Now()), time, now, day)
      ensures Clean(old(Now())) && Findable(old(Now()), time) ==>
                forall n :: 0 <= n <= |log| - |old(log)| ==>
                  (AllReadable(Replay(log[..|old(log)| + n])) <==> !AwaitsPublish(log[|old(log)|..], n))
    {
      hide LegalLog, Replay, After, Clean, Settled, Findable, AppendOps, PublishOps, BundlingOps, PruningOps;
      hide BundleAll, PruneAll, AwaitsPublish, AllReadable, EachOnce, ReadyToBundle, Dropped;
      ghost var start, from := Now(), |log|;
      ghost var findable := Clean(start) && Findable(start, time);
      assert log[..from] == log;
      AppendTimestamp(time);
      ghost var listed := log;
      if findable { ListingSettled(old(log), start, time); }
      PublishDay(time / DAY);
      assert log[..from] == old(log);
      if findable {
        PublishingSettled(listed, Appended(start, time), start, time);
        SettledGoesOn(start, old(log), listed, log);
      }
      ghost var published := log;
      BundledSameIndex(Now(), time / DAY, verified);
      bundling := BundleCompletedDays(time / DAY, verified);
      if findable { SettledGoesOn(start, old(log), published, log); }
      ghost var bundled := log;
      pruning := PruneIndex(now - RETENTION);
      if findable {
        SettledGoesOn(start, old(log), bundled, log);
        assert log[..from] == old(log);
        ReadableInLog(start, log, from);
      }
      AddNewBundles(start, time, now, verified);
      AddOpsAre(start, old(log), listed, published, bundled, log, time, now, verified, bundling, pruning);
    }

    /** Runs that collect captures and then `add` their time, each stopped after
        any number of file operations: `parts` holds what each run did. */
    method RunAll(script: seq<Run>) returns (ghost parts: seq<seq<Operation>>)
      requires Logged()
      modifies this
      ensures Logged() && |parts| == |script| && log == old(log) + Joined(parts)
      ensures AllRan(old(log), script, parts)
      ensures Complete(script) && (forall key :: !ListedAbsent(old(log), key)) ==>
                forall n :: |old(log)| <= n <= |log| ==> Safe(Replay(log[..n]))
      ensures Timely(script) && old(log) == [] ==> forall key :: !Misplaced(log, key)
    {
      hide Replay, LegalLog, RanFrom, AllRan, ListedAbsent, Misplaced, Safe, Timely, Complete;
      parts := [];
      NothingRan(log, script);
      for i := 0 to |script|
        invariant Logged() && |parts| == i && log == old(log) + Joined(parts) && AllRan(old(log), script, parts)
      {
        ghost var part := RunOnce(script[i], |log| + script[i].stopAfter);
        AllRanOneMore(old(log), script, parts, part);
        parts := parts + [part];
      }
      ScriptIsSafe(old(log), script, parts, log);
      if old(log) == [] {
        assert [] + Joined(parts) == Joined(parts);
        ScriptIsTimely(script, parts, log);
      }
    }

    /** One run of a script: its captures, its `add`, and the stop. */
    method RunOnce(run: Run, count: nat) returns (ghost part: seq<Operation>)
      requires Logged() && count == |log| + run.stopAfter
      modifies this
      ensures Logged() && log == old(log) + part && RanFrom(old(Now()), run, part)
    {
      hide Replay, LegalLog, After, AddOps, CollectOps, Legal;
      ghost var start, entry := Now(), log;
      Collect(run.time, run.documents);
      ghost var collected := log;
      ghost var bundling, pruning := Add(run.time, run.now, run.verified);
      RunOpsAre(start, entry, collected, log, run, bundling, pruning);
      ghost var all := RunOps(start, run, bundling, pruning);
      assert log == entry + all;
      StopAfter(count);
      part := Cut(all, run.stopAfter);
      CutIs(entry, all, count);
      assert log == entry + part;
    }

    /** The collector writes the captures of a time before `add` is called. */
    method Collect(time: nat, documents: Kind -> Option<Document>)
      requires Logged()
      modifies this
      ensures Logged() && log == old(log) + CollectOps(time, documents, 3)
    {
      hide Replay, LegalLog;
      for k := 0 to 3
        invariant Logged() && log == old(log) + CollectOps(time, documents, k)
      {
        var document := documents(KINDS[k]);
        if document.Some? {
          Do(WriteCapture(Key(time, KINDS[k]), document.value));
        }
      }
    }

    /** A stop: operations past the first `count` never happen. */
    method StopAfter(count: nat)
      requires Logged()
      modifies this
      ensures Logged()
      ensures log == old(log)[..if count < |old(log)| then count else |old(log)|]
    {
      hide Replay, LegalLog;
      if count < |log| {
        LegalPrefix(log, count);
        log := log[..count];
        var f := Replay(log);
        index, captures, bundles, json := f.index, f.captures, f.bundles, f.json;
      }
    }
  }
}
