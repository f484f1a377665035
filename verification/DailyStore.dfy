/** The publication scripts on a store of daily files, with a log of every operation. */
module DailyStore {
  import opened Wrappers
  import opened DailyPublish
  import opened DailyLog

  class DailyFiles {
    var current: Option<nat>
    var marker: Option<nat>
    var dated: map<int, int>
    var backfilled: bool

    /** Every file operation so far, in order. */
    var log: seq<Operation>

    function Now(): Daily
      reads this
    {
      Daily(current, marker, dated, backfilled)
    }

    /** The files are what the logged operations made them, and each was legal when it
        was done. */
    ghost predicate Logged()
      reads this
    {
      Now() == Replay(log) && LegalLog(log)
    }

    constructor ()
      ensures Now() == NO_FILES && log == [] && Logged()
    {
      current, marker, dated, backfilled, log := None, None, map[], false, [];
    }

    /** One file operation. */
    method Do(op: Operation)
      requires Logged() && Legal(Now(), op)
      modifies this
      ensures Logged() && Now() == Step(old(Now()), op) && log == old(log) + [op]
      ensures forall n :: 0 <= n <= |old(log)| ==> log[..n] == old(log)[..n]
      ensures Replay(log[..|log|]) == Now()
    {
      hide Replay, LegalLog, Legal;
      LogOneMore(log, op);
      LegalOneMore(log, op);
      match op {
        case RenameCurrent(previous) =>
          if current.Some? {
            dated, current := dated[previous := current.value], None;
          }
        case WriteCurrent(day) => current := Some(day);
        case WriteMarker(day) => marker := Some(day);
        case WriteDated(day) => dated := dated[day := day];
        case RemoveDated(day) => dated := dated - {day};
        case MarkBackfilled => backfilled := true;
      }
      log := log + [op];
    }

    /** Publishes the UTC day of `now`. From good files, a stop at any other point than
        `between`, after the current file is renamed and before the marker is, leaves
        good files. */
    method Publish(now: nat) returns (ghost between: nat, ghost order: seq<nat>)
      requires Logged()
      modifies this
      ensures Logged() && Now() == PublishSpec(old(Now()), now)
      ensures current.Some? && current == marker && IsUtcDay(current.value, now)
      ensures VisitsEach(order, RolledOver(old(Now()), DayOf(now)).dated, {})
      ensures log == old(log) + PublishOps(old(Now()), now, order)
      ensures (exists op <- log[|old(log)|..] :: op.RenameCurrent?) <==>
              old(current).Some? && old(marker).Some? && old(marker).value != current.value
      ensures |old(log)| < between <= |log| && Replay(log[..between]) == BetweenRenames(old(Now()), now)
      ensures Good(old(Now())) ==> forall n :: |old(log)| <= n <= |log| && n != between ==> Good(Replay(log[..n]))
    {
      hide Replay, LegalLog, Legal, Step, Retained, ExpiryOps, VisitsEach, RolledOver, RolloverOps, Good;
      assert log[..|log|] == log;
      var day := DayOf(now);
      RolloverIs(Now(), day);
      if marker.Some? && marker.value != day && current.Some? {
        Do(RenameCurrent(marker.value));
      }
      WritesAre(Now(), day);
      Do(WriteCurrent(day));
      between := |log|;
      Do(WriteMarker(day));
      ghost var middle := log;
      assert middle == old(log) + (RolloverOps(old(Now()), day) + [WriteCurrent(day), WriteMarker(day)]);
      order := RemoveExpired(Cutoff(now));
      assert forall n :: 0 <= n <= |middle| ==> log[..n] == middle[..n];
      OneUtcDay(day, now);
      RenamesExactly(old(Now()), now, order);
      if old(marker).Some? { OneUtcDay(old(marker).value, now); }
      assert log[|old(log)|..] == PublishOps(old(Now()), now, order);
    }

    /** Visits the dated files in some order and removes the expired ones. */
    method RemoveExpired(cutoff: int) returns (ghost order: seq<nat>)
      requires Logged()
      modifies this
      ensures Logged() && Now() == old(Now()).(dated := Retained(old(dated), cutoff))
      ensures VisitsEach(order, old(dated), {}) && log == old(log) + ExpiryOps(order, cutoff)
      ensures Good(old(Now())) ==> GoodSince(log, |old(log)|)
    {
      hide Replay, LegalLog, GoodSince, Left, Retained, ExpiryOps, VisitsEach, Good;
      ghost var start, good := dated, Good(Now());
      if good { GoodFromHere(log); }
      var pending := set d: nat | d in dated.Keys;
      order := [];
      LeftAtEnds(start, pending, cutoff);
      NoVisits(start, pending, cutoff);
      while pending != {}
        invariant Logged() && Now() == old(Now()).(dated := dated)
        invariant dated == Left(start, pending, cutoff)
        invariant VisitsEach(order, start, pending) && log == old(log) + ExpiryOps(order, cutoff)
        invariant forall d <- pending :: d in start
        invariant good ==> Good(Now()) && GoodSince(log, |old(log)|)
        decreases |pending|
      {
        var value :| value in pending;
        LeftNext(start, pending, value, cutoff);
        VisitsOneMore(order, start, pending, value);
        ExpiryOneMore(order, value, cutoff);
        order, pending := order + [value], pending - {value};
        if Expired(value, cutoff) {
          ghost var before, s := log, Now();
          Do(RemoveDated(value));
          if good {
            StaysGood(s, RemoveDated(value));
            GoodOneMore(before, RemoveDated(value), |old(log)|);
          }
        }
      }
    }

    /** Materializes each retained day once. From good files, a stop at any point leaves
        good files. */
    method Backfill(now: nat, observed: set<int>)
      requires Logged()
      modifies this
      ensures Logged() && Now() == BackfillSpec(old(Now()), now, observed)
      ensures log == old(log) + BackfillOps(old(Now()), now, observed)
      ensures Good(old(Now())) ==> GoodSince(log, |old(log)|)
    {
      hide Replay, LegalLog, GoodSince, Good;
      ghost var good := Good(Now());
      if good { GoodFromHere(log); }
      if backfilled {
        return;
      }
      var historical := Cutoff(now);
      while historical < DayOf(now)
        invariant Logged() && Now() == old(Now()).(dated := dated)
        invariant Filled(dated, historical, DayOf(now), observed) ==
                  Filled(old(dated), Cutoff(now), DayOf(now), observed)
        invariant log + FillOps(historical, DayOf(now), observed) ==
                  old(log) + FillOps(Cutoff(now), DayOf(now), observed)
        invariant |old(log)| <= |log|
        invariant good ==> Good(Now()) && GoodSince(log, |old(log)|)
        decreases DayOf(now) - historical
      {
        var op := if historical in observed then WriteDated(historical) else RemoveDated(historical);
        ghost var before, s := log, Now();
        Do(op);
        assert before + ([op] + FillOps(historical + DAY, DayOf(now), observed)) ==
               log + FillOps(historical + DAY, DayOf(now), observed);
        if good {
          StaysGood(s, op);
          GoodOneMore(before, op, |old(log)|);
        }
        historical := historical + DAY;
      }
      assert log + [] == log;
      ghost var before, s := log, Now();
      Do(MarkBackfilled);
      if good {
        StaysGood(s, MarkBackfilled);
        GoodOneMore(before, MarkBackfilled, |old(log)|);
      }
    }

    /** Publish and backfill runs, each stopped after any number of file operations:
        `parts` holds what each run did. The files are good in the end exactly when no
        replaced current file awaits its marker and no day is misfiled. */
    method RunAll(script: seq<Run>) returns (ghost parts: seq<seq<Operation>>)
      requires Logged()
      modifies this
      ensures Logged() && |parts| == |script| && log == old(log) + Joined(parts)
      ensures AllRan(old(log), script, parts)
      ensures Good(Now()) <==> !AwaitsMarker(log) && forall d: int :: !Misfiled(log, d)
    {
      hide Replay, LegalLog, RanFrom, AllRan, Good, AwaitsMarker, Misfiled;
      parts := [];
      NothingRan(log, script);
      for i := 0 to |script|
        invariant Logged() && |parts| == i && log == old(log) + Joined(parts) && AllRan(old(log), script, parts)
      {
        ghost var part := RunOnce(script[i], |log| + script[i].stopAfter);
        AllRanOneMore(old(log), script, parts, part);
        parts := parts + [part];
      }
      GoodExactly(log);
    }

    method RunOnce(run: Run, count: nat) returns (ghost part: seq<Operation>)
      requires Logged() && count == |log| + run.stopAfter
      modifies this
      ensures Logged() && log == old(log) + part && RanFrom(old(Now()), run, part)
    {
      hide Replay, LegalLog, PublishOps, BackfillOps, VisitsEach;
      ghost var entry, all := log, [];
      match run.command {
        case Publish(now) =>
          ghost var between, order := Publish(now);
          all := PublishOps(old(Now()), now, order);
        case Backfill(now, observed) =>
          Backfill(now, observed);
          all := BackfillOps(old(Now()), now, observed);
      }
      StopAfter(count);
      part := Cut(all, run.stopAfter);
      CutIs(entry, all, count);
    }

    /** A stop: operations past the first `count` never happen. */
    method StopAfter(count: nat)
      requires Logged()
      modifies this
      ensures Logged()
      ensures log == old(log)[..if count < |old(log)| then count else |old(log)|]
    {
      hide Replay, LegalLog;
      if count < |log| {
        LegalPrefix(log, count);
        log := log[..count];
        var s := Replay(log);
        current, marker, dated, backfilled := s.current, s.marker, s.dated, s.backfilled;
      }
    }
  }
}
