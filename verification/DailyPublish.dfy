/** Publishing the daily files: rollover of the current file, retention and backfill. */
module DailyPublish {
  import opened Wrappers

  const DAY := 86400

  /** The files as readers and later runs see them; an export is named by the day it holds. */
  datatype Daily = Daily(current: Option<nat>, marker: Option<nat>, dated: map<int, int>, backfilled: bool)

  function DayOf(now: nat): nat { now / DAY * DAY }

  function Cutoff(now: nat): int { DayOf(now) - 30 * DAY }

  /** The current file is an export of the marker's day, and every dated file of its own. */
  predicate Good(s: Daily) {
    && (s.current.Some? && s.marker.Some? ==> s.current == s.marker)
    && forall d <- s.dated :: s.dated[d] == d
  }

  /** What one rename, removal or creation does. */
  datatype Operation =
    | RenameCurrent(previous: nat)
    | WriteCurrent(day: nat)
    | WriteMarker(day: nat)
    | WriteDated(period: int)
    | RemoveDated(period: int)
    | MarkBackfilled

  const NO_FILES := Daily(None, None, map[], false)

  function Step(s: Daily, op: Operation): Daily {
    match op
    case RenameCurrent(day) =>
      if s.current.None? then s else s.(current := None, dated := s.dated[day := s.current.value])
    case WriteCurrent(day) => s.(current := Some(day))
    case WriteMarker(day) => s.(marker := Some(day))
    case WriteDated(day) => s.(dated := s.dated[day := day])
    case RemoveDated(day) => s.(dated := s.dated - {day})
    case MarkBackfilled => s.(backfilled := true)
  }

  /** The files after a list of operations on an empty installation. */
  function Replay(log: seq<Operation>): Daily {
    if log == [] then NO_FILES else Step(Replay(log[..|log| - 1]), log[|log| - 1])
  }

  // ---------------------------------------------------------------- one run as a function

  /** The current file of a day that is over becomes that day's dated file. */
  function RolledOver(s: Daily, day: nat): Daily {
    if s.marker.Some? && s.marker.value != day && s.current.Some?
    then s.(current := None, dated := s.dated[s.marker.value := s.current.value])
    else s
  }

  /** A name with anything but digits in it, such as a negative day, is never expired. */
  predicate Expired(d: int, cutoff: int) { 0 <= d < cutoff }

  function Retained(dated: map<int, int>, cutoff: int): map<int, int> {
    map d | d in dated && !Expired(d, cutoff) :: dated[d]
  }

  /** What a completed publication leaves behind. */
  function PublishSpec(s: Daily, now: nat): Daily {
    var day := DayOf(now);
    Daily(Some(day), Some(day), Retained(RolledOver(s, day).dated, Cutoff(now)), s.backfilled)
  }

  /** A stop after the current file is renamed and before the marker is. */
  function BetweenRenames(s: Daily, now: nat): Daily {
    RolledOver(s, DayOf(now)).(current := Some(DayOf(now)))
  }

  /** One backfill run materializes the retained days that hold observations. */
  function BackfillSpec(s: Daily, now: nat, observed: set<int>): Daily {
    if s.backfilled then s
    else Daily(s.current, s.marker, Filled(s.dated, Cutoff(now), DayOf(now), observed), true)
  }

  function Filled(dated: map<int, int>, from: int, until: int, observed: set<int>): map<int, int>
    decreases until - from
  {
    if from >= until then dated
    else Filled(if from in observed then dated[from := from] else dated - {from}, from + DAY, until, observed)
  }

  // ---------------------------------------------------------------- what runs keep

  lemma PublishIsGood(s: Daily, now: nat)
    requires Good(s)
    ensures Good(PublishSpec(s, now))
  {
  }

  lemma {:induction false} FilledIsGood(dated: map<int, int>, from: int, until: int, observed: set<int>)
    requires forall d <- dated :: dated[d] == d
    ensures forall d <- Filled(dated, from, until, observed) :: Filled(dated, from, until, observed)[d] == d
    decreases until - from
  {
    if from < until {
      FilledIsGood(if from in observed then dated[from := from] else dated - {from}, from + DAY, until, observed);
    }
  }

  datatype Command = Publish(now: nat) | Backfill(now: nat, observed: set<int>)

  function RunSpec(s: Daily, command: Command): Daily {
    match command
    case Publish(now) => PublishSpec(s, now)
    case Backfill(now, observed) => BackfillSpec(s, now, observed)
  }

  function RunAll(s: Daily, commands: seq<Command>): Daily {
    if commands == [] then s else RunSpec(RunAll(s, commands[..|commands| - 1]), commands[|commands| - 1])
  }

  /** Over any completed runs, at any times, the files stay good. */
  lemma {:induction false} RunsStayGood(s: Daily, commands: seq<Command>)
    requires Good(s)
    ensures Good(RunAll(s, commands))
  {
    if commands != [] {
      var before, last := RunAll(s, commands[..|commands| - 1]), commands[|commands| - 1];
      RunsStayGood(s, commands[..|commands| - 1]);
      match last
      case Publish(now) => PublishIsGood(before, now);
      case Backfill(now, observed) => FilledIsGood(before.dated, Cutoff(now), DayOf(now), observed);
    }
  }

  /** No day is published twice: every dated day lies before the current one. */
  predicate DatedBeforeCurrent(s: Daily) {
    && s.marker.Some? && s.current.Some?
    && forall d <- s.dated :: d < s.marker.value
  }

  lemma DayOfMonotone(a: nat, b: nat)
    requires a <= b
    ensures DayOf(a) <= DayOf(b)
  {
  }

  lemma OverlapFree(s: Daily, now: nat)
    requires DatedBeforeCurrent(s) && s.marker.value <= DayOf(now)
    ensures DatedBeforeCurrent(PublishSpec(s, now)) && PublishSpec(s, now).marker == Some(DayOf(now))
  {
    var r := RolledOver(s, DayOf(now));
    assert forall d :: d in r.dated ==> d in s.dated || d == s.marker.value;
  }

  /** The publications' times, the first not before a given day, none before the last one. */
  ghost predicate ClockRuns(first: int, nows: seq<nat>) {
    && (forall i :: 0 <= i < |nows| ==> first <= DayOf(nows[i]))
    && forall i, j :: 0 <= i < j < |nows| ==> nows[i] <= nows[j]
  }

  lemma ClockRunsBefore(first: int, nows: seq<nat>)
    requires nows != [] && ClockRuns(first, nows)
    ensures ClockRuns(first, nows[..|nows| - 1]) && first <= DayOf(nows[|nows| - 1])
    ensures |nows| > 1 ==> nows[..|nows| - 1][|nows| - 2] <= nows[|nows| - 1]
  {
    assert forall i :: 0 <= i < |nows| - 1 ==> nows[..|nows| - 1][i] == nows[i];
  }

  /** With the clock never running backwards, the publications after a first one keep
      the dated days before the current day. */
  lemma {:induction false} PublishedPeriodsAreDisjoint(s: Daily, nows: seq<nat>)
    requires DatedBeforeCurrent(s) && ClockRuns(s.marker.value, nows)
    ensures DatedBeforeCurrent(PublishAll(s, nows))
    ensures PublishAll(s, nows).marker == if nows == [] then s.marker else Some(DayOf(nows[|nows| - 1]))
  {
    if nows != [] {
      hide ClockRuns;
      var front, now := nows[..|nows| - 1], nows[|nows| - 1];
      ClockRunsBefore(s.marker.value, nows);
      PublishedPeriodsAreDisjoint(s, front);
      if front != [] { DayOfMonotone(front[|front| - 1], now); }
      OverlapFree(PublishAll(s, front), now);
    }
  }

  lemma PublishedDays(s: Daily, now: nat, d: nat)
    requires DatedBeforeCurrent(s) && s.marker.value <= DayOf(now)
    ensures d in PublishSpec(s, now).dated <==>
            (d in s.dated || d == s.marker.value) && d < DayOf(now) && !Expired(d, Cutoff(now))
  {
  }

  ghost predicate PublishedIn(nows: seq<nat>, d: nat) {
    exists i :: 0 <= i < |nows| && d == DayOf(nows[i])
  }

  lemma PublishedSince(front: seq<nat>, now: nat, d: nat)
    ensures PublishedIn(front + [now], d) <==> d == DayOf(now) || PublishedIn(front, d)
  {
    var nows := front + [now];
    assert nows[|front|] == now && forall i :: 0 <= i < |front| ==> nows[i] == front[i];
  }

  lemma NonePublished(d: nat)
    ensures !PublishedIn([], d)
  {
  }

  /** The last publication's day is published, and none after it. */
  lemma PublishedUpToLast(first: nat, nows: seq<nat>, d: nat)
    requires nows != [] && ClockRuns(first, nows)
    ensures PublishedIn(nows, DayOf(nows[|nows| - 1]))
    ensures PublishedIn(nows, d) ==> d <= DayOf(nows[|nows| - 1])
  {
    var last := nows[|nows| - 1];
    assert forall i :: 0 <= i < |nows| ==> nows[i] <= last;
    if PublishedIn(nows, d) {
      var i :| 0 <= i < |nows| && d == DayOf(nows[i]);
      DayOfMonotone(nows[i], last);
    }
  }

  /** No published day is lost before it expires, and none appears from nowhere:
      the dated days after some publications are the earlier dated days, the first
      marker and all days published since, less the current day and the expired. */
  lemma {:induction false} PublishedDaysAccumulate(s: Daily, nows: seq<nat>, d: nat)
    requires DatedBeforeCurrent(s) && nows != [] && ClockRuns(s.marker.value, nows)
    ensures var last := nows[|nows| - 1];
            d in PublishAll(s, nows).dated <==>
              && (d in s.dated || d == s.marker.value || PublishedIn(nows, d))
              && d < DayOf(last) && !Expired(d, Cutoff(last))
  {
    var front, now := nows[..|nows| - 1], nows[|nows| - 1];
    ClockRunsBefore(s.marker.value, nows);
    PublishedPeriodsAreDisjoint(s, front);
    assert d in s.dated ==> d < s.marker.value;
    hide DatedBeforeCurrent, ClockRuns, PublishSpec, DayOf, PublishedIn;
    PublishedSince(front, now, d);
    assert nows == front + [now];
    PublishedDays(PublishAll(s, front), now, d);
    if front == [] {
      NonePublished(d);
    } else {
      PublishedDaysAccumulate(s, front, d);
      PublishedUpToLast(s.marker.value, front, d);
      DayOfMonotone(front[|front| - 1], now);
    }
  }

  function PublishAll(s: Daily, nows: seq<nat>): Daily {
    if nows == [] then s else PublishSpec(PublishAll(s, nows[..|nows| - 1]), nows[|nows| - 1])
  }

  // ---------------------------------------------------------------- disjoint periods

  /** One of the days that a backfill visits. */
  predicate Visited(d: int, from: int, until: int) {
    from <= d < until && (d - from) % DAY == 0
  }

  /** Backfill leaves a visited day dated exactly when it holds observations, and
      the other days alone. */
  lemma {:induction false} FilledDays(dated: map<int, int>, from: int, until: int, observed: set<int>, d: int)
    ensures d in Filled(dated, from, until, observed) <==> if Visited(d, from, until) then d in observed else d in dated
    decreases until - from
  {
    if from < until {
      FilledDays(if from in observed then dated[from := from] else dated - {from}, from + DAY, until, observed, d);
      NextVisited(d, from, until);
    }
  }

  lemma NextVisited(d: int, from: int, until: int)
    requires from < until
    ensures Visited(d, from, until) <==> d == from || Visited(d, from + DAY, until)
  {
    if from <= d < from + DAY {
      assert (d - from) % DAY == d - from;
    }
  }

  /** No dated file repeats the current day or lies after it. */
  predicate NoOverlap(s: Daily) {
    s.marker.Some? ==> forall d <- s.dated :: d < s.marker.value
  }

  /** The files between completed runs, none of them from after `bound`. */
  predicate CompleteUpTo(s: Daily, bound: nat) {
    && (s.current.Some? <==> s.marker.Some?)
    && (s.marker.Some? ==> s.marker.value <= bound)
    && forall d <- s.dated :: d < bound
  }

  ghost predicate TimesAscend(first: nat, commands: seq<Command>) {
    && (forall i :: 0 <= i < |commands| ==> first <= DayOf(commands[i].now))
    && forall i, j :: 0 <= i < j < |commands| ==> commands[i].now <= commands[j].now
  }

  function LastDay(first: nat, commands: seq<Command>): nat {
    if commands == [] then first else DayOf(commands[|commands| - 1].now)
  }

  lemma TimesAscendBefore(first: nat, commands: seq<Command>)
    requires commands != [] && TimesAscend(first, commands)
    ensures var front := commands[..|commands| - 1];
            TimesAscend(first, front) && LastDay(first, front) <= LastDay(first, commands)
  {
    var front := commands[..|commands| - 1];
    assert forall i :: 0 <= i < |front| ==> front[i] == commands[i];
    if front != [] {
      DayOfMonotone(front[|front| - 1].now, commands[|front|].now);
    }
  }

  /** The day of the last publication among some commands. */
  function MarkerAfter(marker: Option<nat>, commands: seq<Command>): Option<nat> {
    if commands == [] then marker
    else
      var last := commands[|commands| - 1];
      if last.Publish? then Some(DayOf(last.now)) else MarkerAfter(marker, commands[..|commands| - 1])
  }

  function BackfilledAfter(backfilled: bool, commands: seq<Command>): bool {
    backfilled || exists command <- commands :: command.Backfill?
  }

  /** A backfill at `now` materializes the marker's day or one after it. */
  ghost predicate Reaches(marker: Option<nat>, now: nat, observed: set<int>) {
    marker.Some? && exists d <- observed :: Visited(d, Cutoff(now), DayOf(now)) && d >= marker.value
  }

  /** The first backfill of an installation comes after the last publication and
      reaches that publication's day. */
  ghost predicate BackfilledAhead(marker: Option<nat>, backfilled: bool, commands: seq<Command>) {
    commands != [] &&
    var front, last := commands[..|commands| - 1], commands[|commands| - 1];
    match last
    case Publish(_) => false
    case Backfill(now, observed) =>
      if BackfilledAfter(backfilled, front) then BackfilledAhead(marker, backfilled, front)
      else Reaches(MarkerAfter(marker, front), now, observed)
  }

  lemma PublishCompletes(s: Daily, now: nat, bound: nat)
    requires CompleteUpTo(s, bound) && bound <= DayOf(now)
    ensures CompleteUpTo(PublishSpec(s, now), DayOf(now)) && NoOverlap(PublishSpec(s, now))
  {
  }

  lemma BackfillCompletes(s: Daily, now: nat, observed: set<int>, bound: nat)
    requires CompleteUpTo(s, bound) && bound <= DayOf(now) && NoOverlap(s)
    ensures var after := BackfillSpec(s, now, observed);
            && CompleteUpTo(after, DayOf(now))
            && (NoOverlap(after) <==> s.backfilled || !Reaches(s.marker, now, observed))
  {
    var after := BackfillSpec(s, now, observed);
    if !s.backfilled {
      forall d: int
        ensures d in after.dated <==>
                if Visited(d, Cutoff(now), DayOf(now)) then d in observed else d in s.dated
      {
        FilledDays(s.dated, Cutoff(now), DayOf(now), observed, d);
      }
    }
  }

  /** With a clock that never runs back, publish and backfill runs in any order
      leave the periods disjoint exactly unless the backfill that took effect was
      not followed by a publication and reached the day of the one before it. */
  lemma {:induction false} RunsKeepPeriodsDisjoint(s: Daily, first: nat, commands: seq<Command>)
    requires CompleteUpTo(s, first) && NoOverlap(s) && TimesAscend(first, commands)
    ensures NoOverlap(RunAll(s, commands)) <==> !BackfilledAhead(s.marker, s.backfilled, commands)
    ensures CompleteUpTo(RunAll(s, commands), LastDay(first, commands))
    ensures RunAll(s, commands).marker == MarkerAfter(s.marker, commands)
    ensures RunAll(s, commands).backfilled <==> BackfilledAfter(s.backfilled, commands)
  {
    hide TimesAscend, CompleteUpTo, NoOverlap, Reaches, Filled, Retained, RolledOver, DayOf;
    if commands != [] {
      var front, last := commands[..|commands| - 1], commands[|commands| - 1];
      var before := RunAll(s, front);
      TimesAscendBefore(first, commands);
      RunsKeepPeriodsDisjoint(s, first, front);
      assert commands == front + [last];
      match last
      case Publish(now) =>
        PublishCompletes(before, now, LastDay(first, front));
      case Backfill(now, observed) =>
        if before.backfilled {
          BackfilledIsStill(before, now, observed, LastDay(first, front));
        } else {
          NotBackfilledAhead(s.marker, s.backfilled, front);
          BackfillCompletes(before, now, observed, LastDay(first, front));
        }
    }
  }

  lemma BackfilledIsStill(s: Daily, now: nat, observed: set<int>, bound: nat)
    requires s.backfilled && CompleteUpTo(s, bound) && bound <= DayOf(now)
    ensures BackfillSpec(s, now, observed) == s && CompleteUpTo(s, DayOf(now))
  {
  }

  lemma NotBackfilledAhead(marker: Option<nat>, backfilled: bool, commands: seq<Command>)
    requires !BackfilledAfter(backfilled, commands)
    ensures !BackfilledAhead(marker, backfilled, commands)
  {
    assert commands != [] ==> commands[|commands| - 1] in commands;
  }

  /** The exception occurs: day 0 is published, and at the start of day 1 the first
      backfill dates day 0 as well. */
  lemma BackfillDatesCurrentDay()
    ensures var s := RunAll(NO_FILES, [Publish(0), Backfill(DAY, {0})]);
            s.current == Some(0) && 0 in s.dated && Good(s) && !NoOverlap(s)
  {
    var commands := [Publish(0), Backfill(DAY, {0})];
    var published := Daily(Some(0), Some(0), map[], false);
    assert commands[..1] == [Publish(0)] && [Publish(0)][..0] == [];
    assert RunAll(NO_FILES, [Publish(0)]).dated == map[];
    FilledDays(map[], Cutoff(DAY), DAY, {0}, 0);
    assert Visited(0, Cutoff(DAY), DAY);
    RunsStayGood(NO_FILES, commands);
  }

  // ---------------------------------------------------------------- calendar days

  /** `d` is the start, in seconds, of the UTC day that `now` falls in. */
  predicate IsUtcDay(d: int, now: nat) { d % 86400 == 0 && d <= now < d + 86400 }

  lemma OneUtcDay(d: int, now: nat)
    ensures IsUtcDay(d, now) <==> d == DayOf(now)
  {
    if IsUtcDay(d, now) {
      assert d == 86400 * (d / 86400) && d / 86400 == now / 86400;
    }
  }

  /** A completed publication, file by file: the current file and the marker are of the
      UTC day, another marker's day has become dated, and exactly the dated files more
      than thirty days older than the current day are gone. */
  lemma PublishExactly(s: Daily, now: nat, d: int)
    requires IsUtcDay(d, now)
    ensures var g := PublishSpec(s, now);
            && g.current.Some? && g.current == g.marker && g.current.value == d && g.backfilled == s.backfilled
            && forall x: int ::
                 var renamed := s.current.Some? && s.marker.Some? && s.marker.value == x != d;
                 && (x in g.dated <==> (renamed || x in s.dated) && !(0 <= x < d - 2592000))
                 && (x in g.dated ==> g.dated[x] == if renamed then s.current.value else s.dated[x])
  {
    OneUtcDay(d, now);
  }

  /** A completed backfill, file by file: nothing happens twice, and the first time each of
      the thirty days before the current one is dated exactly if it holds observations. */
  lemma BackfillExactly(s: Daily, now: nat, observed: set<int>, d: int, x: int)
    requires IsUtcDay(d, now)
    ensures var g := BackfillSpec(s, now, observed);
            && (s.backfilled ==> g == s)
            && (!s.backfilled ==>
                 && g.current == s.current && g.marker == s.marker && g.backfilled
                 && if x % 86400 == 0 && d - 2592000 <= x < d
                    then (x in g.dated <==> x in observed) && (x in g.dated ==> g.dated[x] == x)
                    else (x in g.dated <==> x in s.dated) && (x in g.dated ==> g.dated[x] == s.dated[x]))
  {
    hide Filled;
    OneUtcDay(d, now);
    FilledDays(s.dated, d - 2592000, d, observed, x);
    DaysApart(x, d);
    if x in Filled(s.dated, d - 2592000, d, observed) { FilledFiles(s.dated, d - 2592000, d, observed, x); }
  }

  lemma DaysApart(x: int, d: int)
    requires d % 86400 == 0
    ensures (x - (d - 2592000)) % DAY == 0 <==> x % 86400 == 0
  {
    assert d == 86400 * (d / 86400);
    assert x - (d - 2592000) == x + 86400 * (30 - d / 86400);
  }

  lemma {:induction false} FilledFiles(dated: map<int, int>, from: int, until: int, observed: set<int>, x: int)
    requires x in Filled(dated, from, until, observed)
    ensures Visited(x, from, until) || x in dated
    ensures Filled(dated, from, until, observed)[x] == if Visited(x, from, until) then x else dated[x]
    decreases until - from
  {
    if from < until {
      FilledFiles(if from in observed then dated[from := from] else dated - {from}, from + DAY, until, observed, x);
      NextVisited(x, from, until);
    }
  }

  // ---------------------------------------------------------------- the one unsafe stop

  /** Stopping between the two renames is harmless for the files as they are exactly
      when the day did not change. */
  lemma StopBetweenRenames(s: Daily, now: nat)
    requires Good(s)
    ensures Good(BetweenRenames(s, now)) <==> s.marker.None? || s.marker.value == DayOf(now)
  {
  }

  /** And the next completed run repairs or hides it exactly in these cases;
      otherwise it files the new day's data under the old day's name. */
  lemma RunAfterUnsafeStop(s: Daily, now: nat, next: nat)
    requires Good(s)
    ensures Good(PublishSpec(BetweenRenames(s, now), next)) <==>
            || s.marker.None? || s.marker.value == DayOf(now)
            || s.marker.value == DayOf(next) || s.marker.value < Cutoff(next)
  {
    var between := BetweenRenames(s, now);
    if s.marker.Some? && s.marker.value != DayOf(now) {
      assert between.marker == s.marker && between.current == Some(DayOf(now));
      var r := RolledOver(between, DayOf(next));
      if s.marker.value != DayOf(next) {
        assert r.dated[s.marker.value] == DayOf(now);
        if s.marker.value >= Cutoff(next) {
          assert PublishSpec(between, next).dated[s.marker.value] == DayOf(now);
        }
      }
    }
  }

  /** How long the wrong file stays: after such a stop, and completed publications by a
      clock that never runs back, the files are good again exactly once the day whose
      marker was left behind has expired. */
  lemma {:induction false} GoodReturns(s: Daily, now: nat, nows: seq<nat>)
    requires Good(s) && s.marker.Some? && s.marker.value < DayOf(now)
    requires nows != [] && ClockRuns(DayOf(now), nows)
    ensures var after, m, last := PublishAll(BetweenRenames(s, now), nows), s.marker.value, nows[|nows| - 1];
            && after.current == after.marker == Some(DayOf(last))
            && (forall d <- after.dated :: d != m ==> after.dated[d] == d)
            && (m in after.dated <==> m >= Cutoff(last)) && (m in after.dated ==> after.dated[m] == DayOf(now))
            && (Good(after) <==> m < Cutoff(last))
  {
    var front, next := nows[..|nows| - 1], nows[|nows| - 1];
    ClockRunsBefore(DayOf(now), nows);
    if front != [] {
      GoodReturns(s, now, front);
      DayOfMonotone(front[|front| - 1], next);
      LaterPublish(PublishAll(BetweenRenames(s, now), front), s.marker.value, DayOf(now), front[|front| - 1], next);
    } else {
      FirstPublish(s, now, next);
      assert PublishAll(BetweenRenames(s, now), nows) == PublishSpec(BetweenRenames(s, now), next);
    }
  }

  /** Only the file dated `m` is wrong: it holds `held`. */
  predicate WrongAt(s: Daily, m: nat, held: int, cutoff: int) {
    && (forall d <- s.dated :: d != m ==> s.dated[d] == d)
    && (m in s.dated <==> m >= cutoff) && (m in s.dated ==> s.dated[m] == held)
  }

  lemma FirstPublish(s: Daily, now: nat, next: nat)
    requires Good(s) && s.marker.Some? && s.marker.value < DayOf(now) <= DayOf(next)
    ensures var after := PublishSpec(BetweenRenames(s, now), next);
            && after.current == after.marker == Some(DayOf(next))
            && WrongAt(after, s.marker.value, DayOf(now), Cutoff(next))
  {
    var between := BetweenRenames(s, now);
    assert between.marker == s.marker && between.current == Some(DayOf(now));
    assert RolledOver(between, DayOf(next)).dated == between.dated[s.marker.value := DayOf(now)];
  }

  lemma LaterPublish(s: Daily, m: nat, held: int, last: nat, next: nat)
    requires s.current == s.marker == Some(DayOf(last)) && m < DayOf(last) <= DayOf(next)
    requires WrongAt(s, m, held, Cutoff(last))
    ensures var after := PublishSpec(s, next);
            after.current == after.marker == Some(DayOf(next)) && WrongAt(after, m, held, Cutoff(next))
  {
    var r := RolledOver(s, DayOf(next));
    assert forall d :: d in r.dated <==> d in s.dated || (DayOf(last) != DayOf(next) && d == DayOf(last));
  }
}
