/** The publication scripts' file operations: what holds after every operation of every
    sequence of runs, however each was stopped. */
module DailyLog {
  import opened Wrappers
  import opened DailyPublish

  // ---------------------------------------------------------------- legal operations

  /** The current file is renamed to the marker's day, and the marker follows the current file. */
  predicate Legal(s: Daily, op: Operation) {
    match op
    case RenameCurrent(previous) => s.current.Some? && s.marker == Some(previous)
    case WriteMarker(day) => s.current == Some(day)
    case _ => true
  }

  ghost predicate LegalLog(log: seq<Operation>) {
    forall n :: 0 <= n < |log| ==> Legal(Replay(log[..n]), log[n])
  }

  /** Stopping after any operation past the first `start` leaves good files. */
  ghost predicate GoodSince(log: seq<Operation>, start: nat) {
    forall n :: start <= n <= |log| ==> Good(Replay(log[..n]))
  }

  lemma LogOneMore(log: seq<Operation>, op: Operation)
    ensures Replay(log + [op]) == Step(Replay(log), op)
    ensures (log + [op])[..|log + [op]|] == log + [op]
    ensures forall n :: 0 <= n <= |log| ==> (log + [op])[..n] == log[..n]
  {
    assert (log + [op])[..|log|] == log;
  }

  lemma GoodOneMore(log: seq<Operation>, op: Operation, start: nat)
    requires start <= |log| && GoodSince(log, start) && Good(Replay(log + [op]))
    ensures GoodSince(log + [op], start)
  {
    hide Replay, Good;
    LogOneMore(log, op);
  }

  lemma GoodFromHere(log: seq<Operation>)
    requires Good(Replay(log))
    ensures GoodSince(log, |log|)
  {
    assert log[..|log|] == log;
  }

  lemma LegalOneMore(log: seq<Operation>, op: Operation)
    requires LegalLog(log) && Legal(Replay(log), op)
    ensures LegalLog(log + [op])
  {
    hide Legal, Replay;
    var more := log + [op];
    assert forall n :: 0 <= n <= |log| ==> more[..n] == log[..n];
  }

  lemma LegalPrefix(log: seq<Operation>, n: nat)
    requires LegalLog(log) && n <= |log|
    ensures LegalLog(log[..n])
  {
    hide Legal, Replay;
    assert forall k :: 0 <= k < n ==> log[..n][..k] == log[..k];
  }

  // ---------------------------------------------------------------- when the files are good

  /** The current file was replaced by another day's than the marker's, and since then
      neither has been written nor the file renamed. */
  ghost predicate AwaitsMarker(log: seq<Operation>) {
    exists r :: 0 <= r < |log| && ReplacesOther(Replay(log[..r]), log[r]) && !Follows(log, r)
  }

  predicate ReplacesOther(s: Daily, op: Operation) {
    op.WriteCurrent? && s.marker.Some? && s.marker.value != op.day
  }

  predicate Follows(log: seq<Operation>, r: nat) {
    exists j :: r < j < |log| && MovesCurrent(log[j])
  }

  predicate MovesCurrent(op: Operation) { op.WriteCurrent? || op.WriteMarker? || op.RenameCurrent? }

  /** A current file was renamed to a day while its marker was still awaited, and that
      day's file has been neither written, renamed to nor removed since. */
  ghost predicate Misfiled(log: seq<Operation>, d: int) {
    exists r :: 0 <= r < |log| && Renames(log[r], d) && AwaitsMarker(log[..r]) && !Replaced(log, r, d)
  }

  predicate Renames(op: Operation, d: int) { op.RenameCurrent? && op.previous == d }

  predicate Replaced(log: seq<Operation>, r: nat, d: int) {
    exists j :: r < j < |log| && TouchesDated(log[j], d)
  }

  predicate TouchesDated(op: Operation, d: int) {
    Renames(op, d) || op == WriteDated(d) || op == RemoveDated(d)
  }

  lemma AwaitsOneMore(log: seq<Operation>, op: Operation)
    ensures AwaitsMarker(log + [op]) <==>
            ReplacesOther(Replay(log), op) || (AwaitsMarker(log) && !MovesCurrent(op))
  {
    hide Replay, ReplacesOther, MovesCurrent;
    var more := log + [op];
    assert more[..|log|] == log && more[|log|] == op && !Follows(more, |log|);
    forall r | 0 <= r < |log|
      ensures more[..r] == log[..r] && more[r] == log[r]
      ensures Follows(more, r) <==> Follows(log, r) || MovesCurrent(op)
    {
      FollowsOneMore(log, op, r);
    }
  }

  lemma FollowsOneMore(log: seq<Operation>, op: Operation, r: nat)
    requires r < |log|
    ensures Follows(log + [op], r) <==> Follows(log, r) || MovesCurrent(op)
  {
    hide MovesCurrent;
    var more := log + [op];
    if Follows(log, r) {
      var j :| r < j < |log| && MovesCurrent(log[j]);
      assert more[j] == log[j];
    }
    if MovesCurrent(op) { assert more[|log|] == op; }
    if Follows(more, r) {
      var j :| r < j < |more| && MovesCurrent(more[j]);
      assert j < |log| ==> log[j] == more[j];
    }
  }

  lemma MisfiledOneMore(log: seq<Operation>, op: Operation, d: int)
    ensures Misfiled(log + [op], d) <==>
            (Renames(op, d) && AwaitsMarker(log)) || (Misfiled(log, d) && !TouchesDated(op, d))
  {
    hide AwaitsMarker, Renames, TouchesDated;
    var more := log + [op];
    assert more[..|log|] == log && more[|log|] == op && !Replaced(more, |log|, d);
    forall r | 0 <= r < |log|
      ensures more[..r] == log[..r] && more[r] == log[r]
      ensures Replaced(more, r, d) <==> Replaced(log, r, d) || TouchesDated(op, d)
    {
      ReplacedOneMore(log, op, r, d);
    }
  }

  lemma ReplacedOneMore(log: seq<Operation>, op: Operation, r: nat, d: int)
    requires r < |log|
    ensures Replaced(log + [op], r, d) <==> Replaced(log, r, d) || TouchesDated(op, d)
  {
    hide TouchesDated;
    var more := log + [op];
    if Replaced(log, r, d) {
      var j :| r < j < |log| && TouchesDated(log[j], d);
      assert more[j] == log[j];
    }
    if TouchesDated(op, d) { assert more[|log|] == op; }
    if Replaced(more, r, d) {
      var j :| r < j < |more| && TouchesDated(more[j], d);
      assert j < |log| ==> log[j] == more[j];
    }
  }

  predicate Crossed(s: Daily) { s.current.Some? && s.marker.Some? && s.current != s.marker }

  predicate Wrong(s: Daily, d: int) { d in s.dated && s.dated[d] != d }

  lemma StepGood(s: Daily, op: Operation, d: int)
    requires Legal(s, op)
    ensures Crossed(Step(s, op)) <==> ReplacesOther(s, op) || (Crossed(s) && !MovesCurrent(op))
    ensures Wrong(Step(s, op), d) <==> (Renames(op, d) && Crossed(s)) || (Wrong(s, d) && !TouchesDated(op, d))
  {
  }

  lemma {:induction false} LogGood(log: seq<Operation>, d: int)
    requires LegalLog(log)
    ensures Crossed(Replay(log)) <==> AwaitsMarker(log)
    ensures Wrong(Replay(log), d) <==> Misfiled(log, d)
  {
    if log != [] {
      hide Legal, Step, Crossed, Wrong, AwaitsMarker, Misfiled, ReplacesOther, MovesCurrent, Renames, TouchesDated;
      var front, op := log[..|log| - 1], log[|log| - 1];
      assert log == front + [op];
      LegalPrefix(log, |front|);
      LogGood(front, d);
      AwaitsOneMore(front, op);
      MisfiledOneMore(front, op, d);
      StepGood(Replay(front), op, d);
    }
  }

  /** Over any runs, stopped anywhere: the files are good exactly when no replaced
      current file awaits its marker and no day is misfiled. */
  lemma GoodExactly(log: seq<Operation>)
    requires LegalLog(log)
    ensures Good(Replay(log)) <==> !AwaitsMarker(log) && forall d: int :: !Misfiled(log, d)
  {
    hide LegalLog, Replay, AwaitsMarker, Misfiled;
    forall d: int
      ensures (Crossed(Replay(log)) <==> AwaitsMarker(log)) && (Wrong(Replay(log), d) <==> Misfiled(log, d))
    {
      LogGood(log, d);
    }
    LogGood(log, 0);
    var s := Replay(log);
    if forall d: int :: !Misfiled(log, d) {
      forall d | d in s.dated
        ensures s.dated[d] == d
      {
        assert !Wrong(s, d);
      }
    }
    if Good(s) {
      forall d: int
        ensures !Misfiled(log, d)
      {
        assert !Wrong(s, d);
      }
    }
  }

  // ---------------------------------------------------------------- runs as operations

  /** The expired ones of the dated files, in the order they are visited. */
  function ExpiryOps(order: seq<nat>, cutoff: int): seq<Operation> {
    if order == [] then []
    else
      var last := order[|order| - 1];
      ExpiryOps(order[..|order| - 1], cutoff) + if Expired(last, cutoff) then [RemoveDated(last)] else []
  }

  function RolloverOps(s: Daily, day: nat): seq<Operation> {
    if s.marker.Some? && s.marker.value != day && s.current.Some? then [RenameCurrent(s.marker.value)] else []
  }

  lemma RolloverIs(s: Daily, day: nat)
    ensures Good(s) ==> Good(RolledOver(s, day))
    ensures if s.marker.Some? && s.marker.value != day && s.current.Some?
            then var op := RenameCurrent(s.marker.value);
              RolloverOps(s, day) == [op] && Legal(s, op) && RolledOver(s, day) == Step(s, op)
            else RolloverOps(s, day) == [] && RolledOver(s, day) == s
    ensures RolledOver(s, day).marker == s.marker && RolledOver(s, day).backfilled == s.backfilled
  {
  }

  /** The two writes of a publication, after a rollover. */
  lemma WritesAre(s: Daily, day: nat)
    ensures Legal(s, WriteCurrent(day)) && Step(s, WriteCurrent(day)) == s.(current := Some(day))
    ensures var t := s.(current := Some(day));
            && Legal(t, WriteMarker(day)) && Step(t, WriteMarker(day)) == t.(marker := Some(day))
            && (Good(s) ==> Good(t.(marker := Some(day))))
  {
  }

  function PublishOps(s: Daily, now: nat, order: seq<nat>): seq<Operation> {
    RolloverOps(s, DayOf(now)) + [WriteCurrent(DayOf(now)), WriteMarker(DayOf(now))] + ExpiryOps(order, Cutoff(now))
  }

  /** A publication renames the current file exactly when the marker is of another UTC day. */
  lemma RenamesExactly(s: Daily, now: nat, order: seq<nat>)
    ensures (exists op <- PublishOps(s, now, order) :: op.RenameCurrent?) <==>
            s.current.Some? && s.marker.Some? && !IsUtcDay(s.marker.value, now)
  {
    hide DayOf;
    if s.marker.Some? { OneUtcDay(s.marker.value, now); }
    NoRenameInExpiry(order, Cutoff(now));
    var ops := PublishOps(s, now, order);
    if s.current.Some? && s.marker.Some? && !IsUtcDay(s.marker.value, now) {
      assert ops[0] == RenameCurrent(s.marker.value);
    }
  }

  lemma {:induction false} NoRenameInExpiry(order: seq<nat>, cutoff: int)
    ensures forall op <- ExpiryOps(order, cutoff) :: op.RemoveDated?
  {
    if order != [] {
      NoRenameInExpiry(order[..|order| - 1], cutoff);
    }
  }

  function FillOps(from: int, until: int, observed: set<int>): seq<Operation>
    decreases until - from
  {
    if from >= until then []
    else [if from in observed then WriteDated(from) else RemoveDated(from)] + FillOps(from + DAY, until, observed)
  }

  function BackfillOps(s: Daily, now: nat, observed: set<int>): seq<Operation> {
    if s.backfilled then [] else FillOps(Cutoff(now), DayOf(now), observed) + [MarkBackfilled]
  }

  /** The dated files whose names are all digits, each once. */
  ghost predicate VisitsEach(order: seq<nat>, dated: map<int, int>, pending: set<nat>) {
    && (forall d: nat :: d in order <==> d in dated && d !in pending)
    && forall i, j :: 0 <= i < j < |order| ==> order[i] != order[j]
  }

  datatype Run = Run(command: Command, stopAfter: nat)

  function Cut(ops: seq<Operation>, n: nat): seq<Operation> {
    if n < |ops| then ops[..n] else ops
  }

  /** `part` is what the run did, from `s` to its stop. */
  ghost predicate RanFrom(s: Daily, run: Run, part: seq<Operation>) {
    match run.command
    case Publish(now) =>
      exists order :: VisitsEach(order, RolledOver(s, DayOf(now)).dated, {})
                      && part == Cut(PublishOps(s, now, order), run.stopAfter)
    case Backfill(now, observed) => part == Cut(BackfillOps(s, now, observed), run.stopAfter)
  }

  function Joined(parts: seq<seq<Operation>>): seq<Operation> {
    if parts == [] then [] else Joined(parts[..|parts| - 1]) + parts[|parts| - 1]
  }

  /** Each part is what its run did from where the parts before it led. */
  ghost predicate AllRan(entry: seq<Operation>, script: seq<Run>, parts: seq<seq<Operation>>)
    requires |parts| <= |script|
  {
    forall i :: 0 <= i < |parts| ==> RanFrom(Replay(entry + Joined(parts[..i])), script[i], parts[i])
  }

  lemma NothingRan(entry: seq<Operation>, script: seq<Run>)
    ensures AllRan(entry, script, []) && entry == entry + Joined([])
  {
  }

  lemma JoinedLast(parts: seq<seq<Operation>>, part: seq<Operation>)
    ensures Joined(parts + [part]) == Joined(parts) + part
  {
    assert (parts + [part])[..|parts|] == parts;
  }

  lemma AllRanOneMore(entry: seq<Operation>, script: seq<Run>, parts: seq<seq<Operation>>, part: seq<Operation>)
    requires |parts| < |script| && RanFrom(Replay(entry + Joined(parts)), script[|parts|], part)
    requires AllRan(entry, script, parts)
    ensures entry + Joined(parts + [part]) == entry + Joined(parts) + part
    ensures AllRan(entry, script, parts + [part])
  {
    hide Replay, RanFrom, Joined;
    var more := parts + [part];
    JoinedLast(parts, part);
    forall j | 0 <= j < |more|
      ensures RanFrom(Replay(entry + Joined(more[..j])), script[j], more[j])
    {
      if j < |parts| {
        assert more[..j] == parts[..j] && more[j] == parts[j];
      } else {
        assert more[..j] == parts;
      }
    }
  }

  lemma CutIs(entry: seq<Operation>, all: seq<Operation>, count: nat)
    requires count >= |entry|
    ensures (entry + all)[..if count < |entry + all| then count else |entry + all|] == entry + Cut(all, count - |entry|)
  {
  }

  /** The dated files when the days of `pending` have not been visited yet. */
  function Left(start: map<int, int>, pending: set<nat>, cutoff: int): map<int, int> {
    map d | d in start && (d in pending || !Expired(d, cutoff)) :: start[d]
  }

  lemma LeftAtEnds(start: map<int, int>, all: set<nat>, cutoff: int)
    requires forall d: nat :: d in start ==> d in all
    ensures Left(start, all, cutoff) == start && Left(start, {}, cutoff) == Retained(start, cutoff)
  {
  }

  lemma LeftNext(start: map<int, int>, pending: set<nat>, value: nat, cutoff: int)
    requires value in pending
    ensures Left(start, pending - {value}, cutoff) ==
            if Expired(value, cutoff) then Left(start, pending, cutoff) - {value} else Left(start, pending, cutoff)
  {
  }

  lemma VisitsOneMore(order: seq<nat>, dated: map<int, int>, pending: set<nat>, value: nat)
    requires VisitsEach(order, dated, pending) && value in pending && value in dated
    ensures VisitsEach(order + [value], dated, pending - {value})
  {
    var more := order + [value];
    assert forall i :: 0 <= i < |order| ==> more[i] == order[i] && order[i] in order;
  }

  lemma ExpiryOneMore(order: seq<nat>, value: nat, cutoff: int)
    ensures ExpiryOps(order + [value], cutoff) ==
            ExpiryOps(order, cutoff) + if Expired(value, cutoff) then [RemoveDated(value)] else []
  {
    assert (order + [value])[..|order|] == order;
  }

  lemma NoVisits(dated: map<int, int>, all: set<nat>, cutoff: int)
    requires forall d: nat :: d in dated ==> d in all
    ensures VisitsEach([], dated, all) && ExpiryOps([], cutoff) == []
  {
  }

  /** Writing a day's own export, removing one and the backfill's mark spoil nothing. */
  lemma StaysGood(s: Daily, op: Operation)
    requires Good(s) && (op.WriteDated? || op.RemoveDated? || op.MarkBackfilled?)
    ensures Good(Step(s, op))
  {
  }
}
