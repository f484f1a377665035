/** Whole runs as lists of operations: what a run of the collector and of `add` does,
    stopped anywhere, and what a script of such runs leaves. */
module SnapshotRuns {
  import opened Wrappers
  import opened SnapshotBundle
  import opened SnapshotIndex
  import opened SnapshotReader
  import opened SnapshotLog
  import opened SnapshotHistory
  import opened SnapshotPhases

  /** One run: the documents that were collected, the clock, the archives that verify, the stop. */
  datatype Run = Run(
    time: nat, documents: Kind -> Option<Document>, now: int, verified: set<nat>, stopAfter: nat)

  function Collected(f: Files, run: Run): Files {
    After(f, CollectOps(run.time, run.documents, 3))
  }

  /** Both loops visit the days that are indexed once the new time is listed. */
  ghost predicate AddOrders(f: Files, time: nat, bundling: seq<nat>, pruning: seq<nat>) {
    EachOnce(bundling, Appended(f, time).index.Keys) && EachOnce(pruning, Appended(f, time).index.Keys)
  }

  ghost function RunOps(f: Files, run: Run, bundling: seq<nat>, pruning: seq<nat>): seq<Operation> {
    CollectOps(run.time, run.documents, 3)
    + AddOps(Collected(f, run), run.time, run.now, run.verified, bundling, pruning)
  }

  function Cut(ops: seq<Operation>, n: nat): seq<Operation> {
    if n < |ops| then ops[..n] else ops
  }

  /** `part` is what the run did, from `f` to its stop. */
  ghost predicate RanFrom(f: Files, run: Run, part: seq<Operation>) {
    exists bundling, pruning ::
      AddOrders(Collected(f, run), run.time, bundling, pruning)
      && part == Cut(RunOps(f, run, bundling, pruning), run.stopAfter)
  }

  function Joined(parts: seq<seq<Operation>>): seq<Operation> {
    if parts == [] then [] else Joined(parts[..|parts| - 1]) + parts[|parts| - 1]
  }

  /** Every run collected all three documents. */
  ghost predicate Complete(script: seq<Run>) {
    forall i, kind :: 0 <= i < |script| ==> script[i].documents(kind).Some?
  }

  /** Every document was collected intact, and no run's time is of an earlier day than
      a run's before it. */
  ghost predicate Timely(script: seq<Run>) {
    && (forall i, kind :: 0 <= i < |script| ==>
         script[i].documents(kind).Some? && script[i].documents(kind).value.Intact?)
    && forall i, j :: 0 <= i < j < |script| ==> script[i].time / DAY <= script[j].time / DAY
  }

  // ---------------------------------------------------------------- assembling the lists

  lemma BundlingNone(f: Files, active: nat, verified: set<nat>)
    ensures BundlingOps(f, [], active, verified) == []
  {
  }

  lemma PruningNone(f: Files, cutoff: int)
    ensures PruningOps(f, [], cutoff) == []
  {
  }

  lemma OrderOneMore(order: seq<nat>, all: set<nat>, pending: set<nat>, day: nat)
    requires EachOnce(order, all - pending) && day in pending && pending <= all
    ensures EachOnce(order + [day], all - (pending - {day}))
  {
    var more := order + [day];
    assert forall i :: 0 <= i < |order| ==> more[i] == order[i] && order[i] in order;
  }

  /** Where the bundling loop stands when the days of `pending` are still to be visited. */
  ghost predicate BundlingAt(start: Files, entry: seq<Operation>, now: Files, log: seq<Operation>, order: seq<nat>,
                             pending: set<nat>, active: nat, verified: set<nat>)
  {
    && pending <= start.index.Keys && EachOnce(order, start.index.Keys - pending)
    && start == Replay(entry) && log == entry + BundlingOps(start, order, active, verified)
    && Bundleable(start, Visited(start, active, verified, pending))
    && now == BundleAll(start, Visited(start, active, verified, pending)) && now == Replay(log)
    && (Clean(start) ==> Clean(now) && SettledSuffix(start, entry, log))
  }

  ghost predicate SettledSuffix(start: Files, entry: seq<Operation>, log: seq<Operation>) {
    entry <= log && Settled(start, log[|entry|..])
  }

  /** What one visit of the bundling loop does. */
  ghost predicate BundleVisited(f: Files, before: seq<Operation>, g: Files, log: seq<Operation>, active: nat,
                                verified: set<nat>, day: nat)
  {
    && log == before + BundleVisitOps(f, active, verified, day) && g == Replay(log)
    && g == (if Bundled(f, active, verified, day) then BundleAll(f, {day}) else f)
    && (Clean(f) ==> Clean(g) && SettledSuffix(f, before, log))
  }

  lemma BundlingStarts(start: Files, log: seq<Operation>, active: nat, verified: set<nat>)
    requires start == Replay(log)
    ensures BundlingAt(start, log, start, log, [], start.index.Keys, active, verified)
  {
    hide Clean, Settled, After, BundleAll, IntactAll;
    UnchangedSettled(start, log);
    BundlingNone(start, active, verified);
    BundleNone(start);
    assert Visited(start, active, verified, start.index.Keys) == {};
    assert log + [] == log;
  }

  lemma BundlingEnds(start: Files, entry: seq<Operation>, now: Files, log: seq<Operation>, order: seq<nat>,
                     active: nat, verified: set<nat>)
    requires BundlingAt(start, entry, now, log, order, {}, active, verified)
    ensures EachOnce(order, start.index.Keys) && log == entry + BundlingOps(start, order, active, verified)
    ensures now == BundleAll(start, BundledDays(start, active, verified))
    ensures Clean(start) ==> Clean(now) && SettledSuffix(start, entry, log)
  {
    hide Clean, SettledSuffix, After, BundleAll, IntactAll, BundlingOps;
    assert start.index.Keys - {} == start.index.Keys;
    assert Visited(start, active, verified, {}) == BundledDays(start, active, verified);
  }

  lemma BundlingAdvances(start: Files, entry: seq<Operation>, f: Files, before: seq<Operation>, g: Files,
                         log: seq<Operation>, order: seq<nat>, pending: set<nat>, active: nat, verified: set<nat>,
                         day: nat)
    requires InDays(start) && day in pending
    requires BundlingAt(start, entry, f, before, order, pending, active, verified)
    requires BundleVisited(f, before, g, log, active, verified, day)
    ensures BundlingAt(start, entry, g, log, order + [day], pending - {day}, active, verified)
  {
    hide EachOnce, Clean, Settled, After, BundleAll, IntactAll, InDays, BundleVisitOps, BundleOps, Visited;
    var done := Visited(start, active, verified, pending);
    OrderOneMore(order, start.index.Keys, pending, day);
    VisitOne(start, active, verified, pending, day);
    BundleUnaffected(start, done, day);
    if Bundled(start, active, verified, day) { BundleOneMore(start, done, day); }
    assert done + {} == done;
    BundlingOpsOneMore(start, order, active, verified, day);
    AfterJoin(NO_FILES, entry, BundlingOps(start, order, active, verified));
    assert log == entry + BundlingOps(start, order + [day], active, verified);
    if Clean(start) { SettledGoesOn(start, entry, before, log); }
  }

  lemma BundlingOpsOneMore(start: Files, order: seq<nat>, active: nat, verified: set<nat>, day: nat)
    ensures BundlingOps(start, order + [day], active, verified) ==
            BundlingOps(start, order, active, verified)
            + BundleVisitOps(After(start, BundlingOps(start, order, active, verified)), active, verified, day)
  {
    assert (order + [day])[..|order|] == order;
  }

  /** Where the pruning loop stands. */
  ghost predicate PruningAt(start: Files, entry: seq<Operation>, now: Files, log: seq<Operation>, order: seq<nat>,
                            pending: set<nat>, cutoff: int)
  {
    && pending <= start.index.Keys && EachOnce(order, start.index.Keys - pending)
    && start == Replay(entry) && log == entry + PruningOps(start, order, cutoff)
    && now == PruneAll(start, cutoff, start.index.Keys - pending) && now == Replay(log)
    && (Clean(start) ==> Clean(now) && SettledSuffix(start, entry, log))
  }

  ghost predicate PruneVisited(f: Files, before: seq<Operation>, g: Files, log: seq<Operation>, cutoff: int, day: nat) {
    && day in f.index && log == before + PruneOps(f, cutoff, day) && g == Replay(log)
    && g == PruneAll(f, cutoff, {day})
    && (Clean(f) ==> Clean(g) && SettledSuffix(f, before, log))
  }

  lemma PruningStarts(start: Files, log: seq<Operation>, cutoff: int)
    requires start == Replay(log)
    ensures PruningAt(start, log, start, log, [], start.index.Keys, cutoff)
  {
    hide Clean, Settled, After, PruneAll;
    UnchangedSettled(start, log);
    PruningNone(start, cutoff);
    PruneNone(start, cutoff);
    assert start.index.Keys - start.index.Keys == {};
    assert log + [] == log;
  }

  lemma PruningEnds(start: Files, entry: seq<Operation>, now: Files, log: seq<Operation>, order: seq<nat>, cutoff: int)
    requires PruningAt(start, entry, now, log, order, {}, cutoff)
    ensures EachOnce(order, start.index.Keys) && log == entry + PruningOps(start, order, cutoff)
    ensures now == PruneAll(start, cutoff, start.index.Keys)
    ensures Clean(start) ==> Clean(now) && SettledSuffix(start, entry, log)
  {
    hide Clean, SettledSuffix, After, PruneAll, PruningOps;
    assert start.index.Keys - {} == start.index.Keys;
  }

  /** The day that is visited next is still indexed. */
  lemma PruningHasDay(start: Files, entry: seq<Operation>, now: Files, log: seq<Operation>, order: seq<nat>,
                      pending: set<nat>, cutoff: int, day: nat)
    requires PruningAt(start, entry, now, log, order, pending, cutoff) && day in pending
    ensures day in now.index
  {
    hide Clean, SettledSuffix, After, PruneAll, PruningOps;
    PruneOneMore(start, cutoff, start.index.Keys - pending, day);
  }

  lemma PruningAdvances(start: Files, entry: seq<Operation>, f: Files, before: seq<Operation>, g: Files,
                        log: seq<Operation>, order: seq<nat>, pending: set<nat>, cutoff: int, day: nat)
    requires PruningAt(start, entry, f, before, order, pending, cutoff) && day in pending
    requires PruneVisited(f, before, g, log, cutoff, day)
    ensures PruningAt(start, entry, g, log, order + [day], pending - {day}, cutoff)
  {
    hide EachOnce, Clean, Settled, After, PruneAll, PruneOps;
    OrderOneMore(order, start.index.Keys, pending, day);
    PruneOneMore(start, cutoff, start.index.Keys - pending, day);
    assert start.index.Keys - (pending - {day}) == start.index.Keys - pending + {day};
    PruningOpsOneMore(start, order, cutoff, day);
    AfterJoin(NO_FILES, entry, PruningOps(start, order, cutoff));
    assert log == entry + PruningOps(start, order + [day], cutoff);
    if Clean(start) { SettledGoesOn(start, entry, before, log); }
  }

  lemma PruningOpsOneMore(start: Files, order: seq<nat>, cutoff: int, day: nat)
    ensures var ops := PruningOps(start, order, cutoff);
            PruningOps(start, order + [day], cutoff) ==
            ops + if day in After(start, ops).index then PruneOps(After(start, ops), cutoff, day) else []
  {
    assert (order + [day])[..|order|] == order;
  }

  lemma AddOpsAre(start: Files, entry: seq<Operation>, listed: seq<Operation>, published: seq<Operation>,
                  bundled: seq<Operation>, log: seq<Operation>, time: nat, now: int, verified: set<nat>,
                  bundling: seq<nat>, pruning: seq<nat>)
    requires start == Replay(entry) && listed == entry + AppendOps(start, time)
    requires published == listed + PublishOps(Replay(listed), time / DAY)
    requires bundled == published + BundlingOps(Replay(published), bundling, time / DAY, verified)
    requires log == bundled + PruningOps(Replay(bundled), pruning, now - RETENTION)
    ensures log == entry + AddOps(start, time, now, verified, bundling, pruning)
  {
    hide After, AppendOps, PublishOps, BundlingOps, PruningOps;
    var list := AppendOps(start, time);
    AfterJoin(NO_FILES, entry, list);
    var publish := PublishOps(After(start, list), time / DAY);
    AfterJoin(NO_FILES, entry, list + publish);
    assert entry + (list + publish) == published;
    var bundle := BundlingOps(After(start, list + publish), bundling, time / DAY, verified);
    AfterJoin(NO_FILES, entry, list + publish + bundle);
    assert entry + (list + publish + bundle) == bundled;
  }

  lemma RunOpsAre(start: Files, entry: seq<Operation>, collected: seq<Operation>, log: seq<Operation>, run: Run,
                  bundling: seq<nat>, pruning: seq<nat>)
    requires start == Replay(entry) && collected == entry + CollectOps(run.time, run.documents, 3)
    requires log == collected + AddOps(Replay(collected), run.time, run.now, run.verified, bundling, pruning)
    requires AddOrders(Replay(collected), run.time, bundling, pruning)
    ensures log == entry + RunOps(start, run, bundling, pruning)
    ensures AddOrders(Collected(start, run), run.time, bundling, pruning)
  {
    hide After, CollectOps, AddOps, AddOrders;
    AfterJoin(NO_FILES, entry, CollectOps(run.time, run.documents, 3));
  }

  lemma CutIs(entry: seq<Operation>, all: seq<Operation>, count: nat)
    requires count >= |entry|
    ensures (entry + all)[..if count < |entry + all| then count else |entry + all|] == entry + Cut(all, count - |entry|)
  {
  }

  lemma JoinedLast(parts: seq<seq<Operation>>, part: seq<Operation>)
    ensures Joined(parts + [part]) == Joined(parts) + part
  {
    assert (parts + [part])[..|parts|] == parts;
  }

  /** Each part is what its run did from where the parts before it led. */
  ghost predicate AllRan(entry: seq<Operation>, script: seq<Run>, parts: seq<seq<Operation>>)
    requires |parts| <= |script|
  {
    forall i :: 0 <= i < |parts| ==> RanFrom(Replay(entry + Joined(parts[..i])), script[i], parts[i])
  }

  lemma AllRanOneMore(entry: seq<Operation>, script: seq<Run>, parts: seq<seq<Operation>>, part: seq<Operation>)
    requires |parts| < |script| && RanFrom(Replay(entry + Joined(parts)), script[|parts|], part)
    requires AllRan(entry, script, parts)
    ensures entry + Joined(parts + [part]) == entry + Joined(parts) + part
    ensures AllRan(entry, script, parts + [part])
  {
    hide Replay, RanFrom, Joined;
    var more := parts + [part];
    JoinedLast(parts, part);
    forall j | 0 <= j < |more|
      ensures RanFrom(Replay(entry + Joined(more[..j])), script[j], more[j])
    {
      if j < |parts| {
        assert more[..j] == parts[..j] && more[j] == parts[j];
      } else {
        assert more[..j] == parts;
      }
    }
  }

  lemma NothingRan(entry: seq<Operation>, script: seq<Run>)
    ensures AllRan(entry, script, []) && entry == entry + Joined([])
  {
  }

  lemma AllRanBefore(entry: seq<Operation>, script: seq<Run>, parts: seq<seq<Operation>>)
    requires 0 < |parts| <= |script| && AllRan(entry, script, parts)
    ensures var front, last := parts[..|parts| - 1], parts[|parts| - 1];
            && AllRan(entry, script, front)
            && RanFrom(Replay(entry + Joined(front)), script[|front|], last)
            && entry + Joined(parts) == entry + Joined(front) + last
  {
    hide Replay, RanFrom;
    var front := parts[..|parts| - 1];
    forall j | 0 <= j < |front|
      ensures RanFrom(Replay(entry + Joined(front[..j])), script[j], front[j])
    {
      assert front[..j] == parts[..j] && front[j] == parts[j];
    }
  }

  // ---------------------------------------------------------------- what a run lists

  /** The operations list nothing anew and collect nothing. */
  ghost predicate Quiet(f: Files, ops: seq<Operation>, key: Key) {
    forall n :: 0 <= n < |ops| ==> !ops[n].WriteCapture? && !NewlyLists(After(f, ops[..n]), ops[n], key)
  }

  lemma QuietJoin(f: Files, a: seq<Operation>, b: seq<Operation>, key: Key)
    requires Quiet(f, a, key) && Quiet(After(f, a), b, key)
    ensures Quiet(f, a + b, key)
  {
    hide After, NewlyLists;
    var ops := a + b;
    forall n | 0 <= n < |ops|
      ensures !ops[n].WriteCapture? && !NewlyLists(After(f, ops[..n]), ops[n], key)
    {
      if n < |a| {
        assert ops[..n] == a[..n] && ops[n] == a[n];
      } else {
        assert ops[..n] == a + b[..n - |a|] && ops[n] == b[n - |a|];
        AfterJoin(f, a, b[..n - |a|]);
      }
    }
  }

  lemma BundleVisitQuiet(f: Files, active: nat, verified: set<nat>, day: nat, key: Key)
    ensures Quiet(f, BundleVisitOps(f, active, verified, day), key)
    ensures forall op <- BundleVisitOps(f, active, verified, day) :: op.WriteBundle? ==> op.day < active
  {
    hide After, BundleOf, Removals, IntactAll;
    var ops := BundleVisitOps(f, active, verified, day);
    if ops != [] {
      var removals := Removals(f.index[day]);
      assert forall i :: 1 <= i < |ops| - 1 ==> ops[i] == removals[i - 1] && removals[i - 1] in removals;
    }
  }

  lemma PruneQuiet(f: Files, cutoff: int, day: nat, key: Key)
    requires day in f.index
    ensures Quiet(f, PruneOps(f, cutoff, day), key)
    ensures forall op <- PruneOps(f, cutoff, day) :: !op.WriteBundle?
  {
    hide After, Recent;
    var ops := PruneOps(f, cutoff, day);
    assert ops[..0] == [] && After(f, []) == f by { AfterNothing(f); }
  }

  lemma AfterNothing(f: Files)
    ensures After(f, []) == f
  {
  }

  lemma {:induction false} BundlingQuiet(f: Files, days: seq<nat>, active: nat, verified: set<nat>, key: Key)
    ensures Quiet(f, BundlingOps(f, days, active, verified), key)
    ensures forall op <- BundlingOps(f, days, active, verified) :: op.WriteBundle? ==> op.day < active
  {
    hide Quiet, After, BundleVisitOps;
    if days == [] {
      QuietNothing(f, key);
    } else {
      var ops := BundlingOps(f, days[..|days| - 1], active, verified);
      BundlingQuiet(f, days[..|days| - 1], active, verified, key);
      BundleVisitQuiet(After(f, ops), active, verified, days[|days| - 1], key);
      QuietJoin(f, ops, BundleVisitOps(After(f, ops), active, verified, days[|days| - 1]), key);
    }
  }

  lemma {:induction false} PruningQuiet(f: Files, days: seq<nat>, cutoff: int, key: Key)
    ensures Quiet(f, PruningOps(f, days, cutoff), key)
    ensures forall op <- PruningOps(f, days, cutoff) :: !op.WriteBundle?
  {
    hide Quiet, After, PruneOps;
    QuietNothing(f, key);
    if days != [] {
      var ops, day := PruningOps(f, days[..|days| - 1], cutoff), days[|days| - 1];
      PruningQuiet(f, days[..|days| - 1], cutoff, key);
      if day in After(f, ops).index {
        PruneQuiet(After(f, ops), cutoff, day, key);
        QuietJoin(f, ops, PruneOps(After(f, ops), cutoff, day), key);
      } else {
        assert ops + [] == ops;
      }
    }
  }

  lemma QuietNothing(f: Files, key: Key)
    ensures Quiet(f, [], key)
  {
  }

  lemma PublishQuiet(f: Files, day: nat, key: Key)
    ensures Quiet(f, PublishOps(f, day), key)
  {
    hide After;
  }

  /** Past the listing, a completed `add` is quiet. */
  lemma AddQuiet(f: Files, time: nat, now: int, verified: set<nat>, bundling: seq<nat>, pruning: seq<nat>, key: Key)
    ensures var list := AppendOps(f, time);
            && list <= AddOps(f, time, now, verified, bundling, pruning)
            && Quiet(After(f, list), AddOps(f, time, now, verified, bundling, pruning)[|list|..], key)
            && forall op <- AddOps(f, time, now, verified, bundling, pruning) :: op.WriteBundle? ==> op.day < time / DAY
  {
    hide Quiet, After, AppendOps, BundlingOps, PruningOps;
    var list := AppendOps(f, time);
    var publish := PublishOps(After(f, list), time / DAY);
    var bundle := BundlingOps(After(f, list + publish), bundling, time / DAY, verified);
    var prune := PruningOps(After(f, list + publish + bundle), pruning, now - RETENTION);
    var g := After(f, list);
    AfterJoin(f, list, publish);
    AfterJoin(f, list, publish + bundle);
    assert list + (publish + bundle) == list + publish + bundle;
    PublishQuiet(g, time / DAY, key);
    BundlingQuiet(After(g, publish), bundling, time / DAY, verified, key);
    QuietJoin(g, publish, bundle, key);
    PruningQuiet(After(g, publish + bundle), pruning, now - RETENTION, key);
    QuietJoin(g, publish + bundle, prune, key);
    assert AddOps(f, time, now, verified, bundling, pruning) == list + (publish + bundle + prune);
    assert forall op <- list :: !op.WriteBundle? by { ListOnly(f, time); }
  }

  lemma ListOnly(f: Files, time: nat)
    ensures |AppendOps(f, time)| <= 1 && forall op <- AppendOps(f, time) :: op.WriteIndex?
    ensures forall op <- AppendOps(f, time), key: Key :: NewlyLists(f, op, key) ==> key.time == time
  {
  }

  lemma {:induction false} CollectOnly(time: nat, documents: Kind -> Option<Document>, n: nat)
    requires n <= 3
    ensures forall op <- CollectOps(time, documents, n) ::
              && op.WriteCapture? && op.key.time == time && documents(op.key.kind) == Some(op.document)
  {
    if n > 0 {
      CollectOnly(time, documents, n - 1);
    }
  }

  /** A run lists no time but its own, and that when its documents have been collected. */
  lemma RunLists(f: Files, run: Run, bundling: seq<nat>, pruning: seq<nat>, n: nat, key: Key)
    requires n < |RunOps(f, run, bundling, pruning)|
    ensures var ops := RunOps(f, run, bundling, pruning);
            && (NewlyLists(After(f, ops[..n]), ops[n], key) ==>
                 key.time == run.time && After(f, ops[..n]) == Collected(f, run))
            && (ops[n].WriteCapture? ==> run.documents(ops[n].key.kind) == Some(ops[n].document))
            && (ops[n].WriteBundle? ==> ops[n].day < run.time / DAY)
  {
    hide After, AppendOps, AddOps, CollectOps, NewlyLists;
    var ops, collect := RunOps(f, run, bundling, pruning), CollectOps(run.time, run.documents, 3);
    var g := Collected(f, run);
    var add := AddOps(g, run.time, run.now, run.verified, bundling, pruning);
    var list := AppendOps(g, run.time);
    CollectOnly(run.time, run.documents, 3);
    ListOnly(g, run.time);
    AddQuiet(g, run.time, run.now, run.verified, bundling, pruning, key);
    if n < |collect| {
      assert ops[n] == collect[n] && collect[n] in collect;
      assert !NewlyLists(After(f, ops[..n]), ops[n], key) by { NotAnIndex(After(f, ops[..n]), ops[n], key); }
    } else {
      var m := n - |collect|;
      assert ops[n] == add[m] && add[m] in add && ops[..n] == collect + add[..m];
      AfterJoin(f, collect, add[..m]);
      if m < |list| {
        assert add[m] == list[m] && list[m] in list && m == 0 && add[..0] == [];
        AfterNothing(g);
      } else {
        assert add[m] == add[|list|..][m - |list|] && add[..m] == list + add[|list|..][..m - |list|];
        AfterJoin(g, list, add[|list|..][..m - |list|]);
      }
    }
  }

  lemma NotAnIndex(f: Files, op: Operation, key: Key)
    requires op.WriteCapture?
    ensures !NewlyLists(f, op, key)
  {
  }

  // ---------------------------------------------------------------- after a run

  /** Where an operation of a run stands in the log, and from what files it was done. */
  lemma InPart(entry: seq<Operation>, run: Run, part: seq<Operation>, m: nat, key: Key)
    requires RanFrom(Replay(entry), run, part) && |entry| <= m < |entry + part|
    ensures var f, log := Replay(entry), entry + part;
            && (NewlyLists(Replay(log[..m]), log[m], key) ==>
                 key.time == run.time && Replay(log[..m]) == Collected(f, run))
            && (log[m].WriteCapture? ==> run.documents(log[m].key.kind) == Some(log[m].document))
            && (log[m].WriteBundle? ==> log[m].day < run.time / DAY)
  {
    hide After, NewlyLists, RunOps, AddOrders, Collected;
    var f, log, n := Replay(entry), entry + part, m - |entry|;
    var bundling, pruning :| AddOrders(Collected(f, run), run.time, bundling, pruning)
                             && part == Cut(RunOps(f, run, bundling, pruning), run.stopAfter);
    var ops := RunOps(f, run, bundling, pruning);
    assert part[..n] == ops[..n] && part[n] == ops[n] && log[..m] == entry + ops[..n];
    AfterJoin(NO_FILES, entry, ops[..n]);
    RunLists(f, run, bundling, pruning, n, key);
  }

  lemma {:induction false} CollectedHas(f: Files, time: nat, documents: Kind -> Option<Document>, n: nat)
    requires n <= 3
    ensures HasCollected(f, After(f, CollectOps(time, documents, n)), time, documents, n)
  {
    if n > 0 {
      hide After, HasCollected;
      CollectedHas(f, time, documents, n - 1);
      var before := CollectOps(time, documents, n - 1);
      AfterJoin(f, before, CollectOne(Key(time, KINDS[n - 1]), documents(KINDS[n - 1])));
      CollectsOne(f, After(f, before), time, documents, n);
    }
  }

  /** After the first `n` kinds the files differ from `f` in the captures only, and
      hold the documents that arrived. */
  ghost predicate HasCollected(f: Files, g: Files, time: nat, documents: Kind -> Option<Document>, n: nat)
    requires n <= 3
  {
    && g.index == f.index && g.json == f.json && g.bundles == f.bundles
    && forall j :: 0 <= j < n && documents(KINDS[j]).Some? ==>
         Key(time, KINDS[j]) in g.captures && g.captures[Key(time, KINDS[j])] == documents(KINDS[j]).value
  }

  lemma CollectsOne(f: Files, g: Files, time: nat, documents: Kind -> Option<Document>, n: nat)
    requires 0 < n <= 3 && HasCollected(f, g, time, documents, n - 1)
    ensures HasCollected(f, After(g, CollectOne(Key(time, KINDS[n - 1]), documents(KINDS[n - 1]))), time, documents, n)
  {
    hide Step, After;
    var key, document := Key(time, KINDS[n - 1]), documents(KINDS[n - 1]);
    if document.Some? {
      AfterOne(g, WriteCapture(key, document.value));
      Written(g, key, document.value);
    } else {
      AfterNothing(g);
    }
    assert forall j :: 0 <= j < n - 1 ==> KINDS[j] != KINDS[n - 1];
  }

  lemma Written(f: Files, key: Key, document: Document)
    ensures var g := Step(f, WriteCapture(key, document));
            && g.index == f.index && g.json == f.json && g.bundles == f.bundles
            && key in g.captures && g.captures[key] == document
            && forall other :: other != key && other in f.captures ==>
                 other in g.captures && g.captures[other] == f.captures[other]
  {
  }

  lemma CollectedKind(f: Files, run: Run, kind: Kind)
    requires run.documents(kind).Some?
    ensures var g := Collected(f, run);
            && Key(run.time, kind) in g.captures && g.captures[Key(run.time, kind)] == run.documents(kind).value
            && g.bundles == f.bundles
  {
    hide After, CollectOps;
    CollectedHas(f, run.time, run.documents, 3);
    var j := match kind case ApView => 0 case ClientView => 1 case MeshView => 2;
    assert KINDS[j] == kind;
  }

  lemma PartAbsent(entry: seq<Operation>, run: Run, part: seq<Operation>, key: Key)
    requires RanFrom(Replay(entry), run, part) && (forall kind :: run.documents(kind).Some?)
    requires !ListedAbsent(entry, key)
    ensures !ListedAbsent(entry + part, key)
  {
    hide Replay, RanFrom, NewlyLists, Collected, Bundles;
    var log := entry + part;
    forall m | 0 <= m < |log|
      ensures !AbsentAt(Replay(log[..m]), log[m], key)
    {
      if m < |entry| {
        assert log[..m] == entry[..m] && log[m] == entry[m];
      } else {
        InPart(entry, run, part, m, key);
        CollectedKind(Replay(entry), run, key.kind);
      }
    }
  }

  lemma PartMisplaced(entry: seq<Operation>, run: Run, part: seq<Operation>, key: Key)
    requires RanFrom(Replay(entry), run, part) && !Misplaced(entry, key)
    requires forall kind :: run.documents(kind).Some? && run.documents(kind).value.Intact?
    requires forall d <- Replay(entry).bundles :: d < run.time / DAY
    ensures !Misplaced(entry + part, key)
  {
    hide Replay, RanFrom, NewlyLists, Collected, Bundles;
    var log := entry + part;
    forall m | 0 <= m < |log|
      ensures !MisplacedAt(Replay(log[..m]), log[m], key)
    {
      if m < |entry| {
        assert log[..m] == entry[..m] && log[m] == entry[m];
      } else {
        InPart(entry, run, part, m, key);
        CollectedKind(Replay(entry), run, key.kind);
      }
    }
  }

  /** A bundle is there only if it was, or was installed. */
  lemma {:induction false} BundlesCome(f: Files, ops: seq<Operation>, day: nat)
    requires day in After(f, ops).bundles
    ensures day in f.bundles || exists op <- ops :: op.WriteBundle? && op.day == day
  {
    if ops != [] {
      var front, last := ops[..|ops| - 1], ops[|ops| - 1];
      assert last in ops && forall op <- front :: op in ops;
      if day in After(f, front).bundles {
        BundlesCome(f, front, day);
      }
    }
  }

  lemma PartBundles(entry: seq<Operation>, run: Run, part: seq<Operation>)
    requires RanFrom(Replay(entry), run, part) && forall d <- Replay(entry).bundles :: d < run.time / DAY
    ensures forall d <- Replay(entry + part).bundles :: d < run.time / DAY
  {
    hide After, RanFrom, NewlyLists, Collected;
    AfterJoin(NO_FILES, entry, part);
    forall d | d in Replay(entry + part).bundles
      ensures d < run.time / DAY
    {
      BundlesCome(Replay(entry), part, d);
      if d !in Replay(entry).bundles {
        var op :| op in part && op.WriteBundle? && op.day == d;
        var n :| 0 <= n < |part| && part[n] == op;
        assert (entry + part)[|entry| + n] == op;
        InPart(entry, run, part, |entry| + n, Key(run.time, ApView));
      }
    }
  }

  // ---------------------------------------------------------------- after a script

  lemma {:induction false} ScriptAbsent(entry: seq<Operation>, script: seq<Run>, parts: seq<seq<Operation>>, key: Key)
    requires |parts| <= |script| && AllRan(entry, script, parts) && Complete(script) && !ListedAbsent(entry, key)
    ensures !ListedAbsent(entry + Joined(parts), key)
  {
    hide Replay, RanFrom, AllRan, ListedAbsent;
    if parts == [] {
      assert entry + Joined(parts) == entry;
    } else {
      var front := parts[..|parts| - 1];
      AllRanBefore(entry, script, parts);
      ScriptAbsent(entry, script, front, key);
      PartAbsent(entry + Joined(front), script[|front|], parts[|front|], key);
    }
  }

  lemma AbsentInPrefix(log: seq<Operation>, n: nat, key: Key)
    requires n <= |log| && ListedAbsent(log[..n], key)
    ensures ListedAbsent(log, key)
  {
    hide AbsentAt, Replay;
    var m :| 0 <= m < n && AbsentAt(Replay(log[..n][..m]), log[..n][m], key);
    assert log[..n][..m] == log[..m] && log[..n][m] == log[m];
  }

  /** With all documents collected, every stop leaves the listed times safe. */
  lemma ScriptIsSafe(entry: seq<Operation>, script: seq<Run>, parts: seq<seq<Operation>>, log: seq<Operation>)
    requires |parts| == |script| && AllRan(entry, script, parts) && log == entry + Joined(parts) && LegalLog(log)
    ensures Complete(script) && (forall key :: !ListedAbsent(entry, key)) ==>
              forall n :: |entry| <= n <= |log| ==> Safe(Replay(log[..n]))
  {
    hide Replay, AllRan, ListedAbsent, LegalLog, Safe, Complete;
    if Complete(script) && forall key :: !ListedAbsent(entry, key) {
      forall key
        ensures !ListedAbsent(log, key)
      {
        ScriptAbsent(entry, script, parts, key);
      }
      forall n | |entry| <= n <= |log|
        ensures Safe(Replay(log[..n]))
      {
        LegalPrefix(log, n);
        forall key
          ensures !ListedAbsent(log[..n], key)
        {
          if ListedAbsent(log[..n], key) { AbsentInPrefix(log, n, key); }
        }
        SafeUnlessAbsent(log[..n]);
      }
    }
  }

  lemma {:induction false} TimelySoFar(script: seq<Run>, parts: seq<seq<Operation>>, key: Key)
    requires |parts| <= |script| && AllRan([], script, parts) && Timely(script)
    ensures !Misplaced(Joined(parts), key)
    ensures forall d <- Replay(Joined(parts)).bundles :: parts != [] && d < script[|parts| - 1].time / DAY
  {
    hide Replay, RanFrom, AllRan, Misplaced;
    if parts == [] {
      NothingYet(key);
    } else {
      var front := parts[..|parts| - 1];
      var before, run := Joined(front), script[|front|];
      AllRanBefore([], script, parts);
      assert [] + before == before && [] + Joined(parts) == Joined(parts);
      TimelySoFar(script, front, key);
      if front != [] { assert script[|front| - 1].time / DAY <= run.time / DAY; }
      PartMisplaced(before, run, parts[|front|], key);
      PartBundles(before, run, parts[|front|]);
    }
  }

  lemma NothingYet(key: Key)
    ensures !Misplaced([], key) && Replay([]) == NO_FILES
  {
  }

  /** With documents collected intact, and no day returned to, nothing is misplaced. */
  lemma ScriptIsTimely(script: seq<Run>, parts: seq<seq<Operation>>, log: seq<Operation>)
    requires |parts| == |script| && AllRan([], script, parts) && log == Joined(parts)
    ensures Timely(script) ==> forall key :: !Misplaced(log, key)
  {
    hide AllRan, Misplaced, Timely;
    if Timely(script) {
      forall key
        ensures !Misplaced(log, key)
      {
        TimelySoFar(script, parts, key);
      }
    }
  }
}
