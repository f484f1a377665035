/** What holds after every operation of every log that the scripts can leave, however
    its runs were stopped: which documents are kept, which published times can be
    read, and which files are orphaned. */
module SnapshotLog {
  import opened SnapshotBundle
  import opened SnapshotIndex
  import opened SnapshotReader

  // ---------------------------------------------------------------- legal operations

  predicate AppendsTime(f: Files, day: nat, times: seq<nat>) {
    && times != [] && times[|times| - 1] / DAY == day
    && times[..|times| - 1] == if day in f.index then f.index[day] else []
  }

  predicate DropsTimes(f: Files, day: nat, times: seq<nat>) {
    day in f.index && forall t <- times :: t in f.index[day]
  }

  /** What the scripts check or have done before each operation: a capture goes only
      once its day's bundle holds it and is not published yet, a bundle is installed
      only whole and once, an index is published only as it is. */
  ghost predicate Legal(f: Files, op: Operation) {
    match op
    case WriteCapture(_, _) => true
    case RemoveCapture(key) =>
      && key.time / DAY in f.bundles && InBundle(f.bundles[key.time / DAY], key)
      && (key.time / DAY in f.json ==> !f.json[key.time / DAY].bundled)
    case WriteIndex(day, times) => AppendsTime(f, day, times) || DropsTimes(f, day, times)
    case RemoveIndex(_) => true
    case WriteJson(day, published) => day in f.index && published == Published(day in f.bundles, f.index[day])
    case RemoveJson(_) => true
    case WriteBundle(day, bundle) =>
      day in f.index && day !in f.bundles && forall t, kind :: t in f.index[day] ==> InBundle(bundle, Key(t, kind))
    case RemoveBundle(day) => day !in f.index && day !in f.json
  }

  ghost predicate LegalLog(log: seq<Operation>) {
    forall n :: 0 <= n < |log| ==> Legal(Replay(log[..n]), log[n])
  }

  lemma AppendIsOne(f: Files, time: nat, listed: seq<nat>)
    requires listed == if time / DAY in f.index then f.index[time / DAY] else []
    ensures var op := WriteIndex(time / DAY, listed + [time]);
            if listed != [] && listed[|listed| - 1] == time
            then AppendOps(f, time) == [] && Appended(f, time) == f
            else AppendOps(f, time) == [op] && Appended(f, time) == Step(f, op) && Legal(f, op)
  {
    assert (listed + [time])[..|listed|] == listed;
  }

  lemma ReplayOneMore(log: seq<Operation>, op: Operation)
    ensures Replay(log + [op]) == Step(Replay(log), op)
  {
    hide Step;
    AfterJoin(NO_FILES, log, [op]);
    AfterOne(Replay(log), op);
  }

  lemma LegalOneMore(log: seq<Operation>, op: Operation)
    requires LegalLog(log) && Legal(Replay(log), op)
    ensures LegalLog(log + [op])
  {
    hide Legal, Replay;
    var more := log + [op];
    assert forall n :: 0 <= n <= |log| ==> more[..n] == log[..n];
  }

  lemma LegalPrefix(log: seq<Operation>, n: nat)
    requires LegalLog(log) && n <= |log|
    ensures LegalLog(log[..n])
  {
    hide Legal, Replay;
    assert forall k :: 0 <= k < n ==> log[..n][..k] == log[..k];
  }

  /** A legal log is empty, or a legal operation after a legal log. */
  lemma LegalLast(log: seq<Operation>)
    requires LegalLog(log) && log != []
    ensures var front, op := log[..|log| - 1], log[|log| - 1];
            log == front + [op] && LegalLog(front) && Legal(Replay(front), op) && Replay(log) == Step(Replay(front), op)
  {
    hide Legal, Replay, Step;
    var front, op := log[..|log| - 1], log[|log| - 1];
    LegalPrefix(log, |log| - 1);
    assert log == front + [op];
    ReplayOneMore(front, op);
  }

  // ---------------------------------------------------------------- listed days

  lemma StepInDays(f: Files, op: Operation)
    requires InDays(f) && Legal(f, op)
    ensures InDays(Step(f, op))
  {
    hide InBundle;
    var g := Step(f, op);
    forall day: nat, t: nat | Listed(g, day, t)
      ensures t / DAY == day
    {
      if op.WriteIndex? && AppendsTime(f, op.day, op.times) && op.day == day && t in op.times {
        assert op.times == op.times[..|op.times| - 1] + [op.times[|op.times| - 1]];
      }
      assert Listed(f, day, t) || t / DAY == day;
    }
  }

  lemma {:induction false} LogInDays(log: seq<Operation>)
    requires LegalLog(log)
    ensures InDays(Replay(log))
  {
    if log != [] {
      hide Legal, Replay, Step, InDays;
      LegalLast(log);
      LogInDays(log[..|log| - 1]);
      StepInDays(Replay(log[..|log| - 1]), log[|log| - 1]);
    }
  }

  lemma IsUnbundled(f: Files, day: nat)
    requires InDays(f) && day !in f.bundles
    ensures day in f.json ==> !f.json[day].bundled
  {
  }

  // ---------------------------------------------------------------- the fate of one document

  ghost predicate IndexLists(f: Files, key: Key) {
    key.time / DAY in f.index && key.time in f.index[key.time / DAY]
  }

  ghost predicate JsonLists(f: Files, key: Key) {
    key.time / DAY in f.json && key.time in f.json[key.time / DAY].times
  }

  ghost predicate Bundles(f: Files, key: Key) {
    key.time / DAY in f.bundles && InBundle(f.bundles[key.time / DAY], key)
  }

  /** The operation lists the document's time anew. */
  ghost predicate NewlyLists(f: Files, op: Operation, key: Key) {
    op.WriteIndex? && op.day == key.time / DAY && key.time in op.times && !IndexLists(f, key)
  }

  /** The document was nowhere when its time was listed. */
  ghost predicate ListedAbsent(log: seq<Operation>, key: Key) {
    exists n :: 0 <= n < |log| && AbsentAt(Replay(log[..n]), log[n], key)
  }

  ghost predicate AbsentAt(f: Files, op: Operation, key: Key) {
    NewlyLists(f, op, key) && key !in f.captures && !Bundles(f, key)
  }

  /** The document was collected damaged, or was not where readers look when its time
      was listed: no intact capture for a day without a bundle, or late for the bundle. */
  ghost predicate Misplaced(log: seq<Operation>, key: Key) {
    exists n :: 0 <= n < |log| && MisplacedAt(Replay(log[..n]), log[n], key)
  }

  ghost predicate MisplacedAt(f: Files, op: Operation, key: Key) {
    || op == WriteCapture(key, Damaged)
    || (NewlyLists(f, op, key) && if key.time / DAY in f.bundles then !Bundles(f, key) else !IntactCapture(f, key))
  }

  /** Its capture has been removed, and since then neither collected again nor its day published. */
  predicate AwaitsKey(log: seq<Operation>, key: Key) {
    exists r :: 0 <= r < |log| && log[r] == RemoveCapture(key) && !SettledSince(log, r, key)
  }

  predicate SettledSince(log: seq<Operation>, r: nat, key: Key) {
    exists j :: r < j < |log| && Settles(log[j], key)
  }

  predicate Settles(op: Operation, key: Key) {
    (op.WriteCapture? && op.key == key) || (op.WriteJson? && op.day == key.time / DAY)
  }

  lemma AbsentOneMore(log: seq<Operation>, op: Operation, key: Key)
    ensures ListedAbsent(log + [op], key) <==> ListedAbsent(log, key) || AbsentAt(Replay(log), op, key)
  {
    hide AbsentAt, Replay;
    var more := log + [op];
    assert forall n :: 0 <= n < |log| ==> more[..n] == log[..n] && more[n] == log[n];
    assert more[..|log|] == log && more[|log|] == op;
  }

  lemma MisplacedOneMore(log: seq<Operation>, op: Operation, key: Key)
    ensures Misplaced(log + [op], key) <==> Misplaced(log, key) || MisplacedAt(Replay(log), op, key)
  {
    hide MisplacedAt, Replay;
    var more := log + [op];
    assert forall n :: 0 <= n < |log| ==> more[..n] == log[..n] && more[n] == log[n];
    assert more[..|log|] == log && more[|log|] == op;
  }

  lemma AwaitsOneMore(log: seq<Operation>, op: Operation, key: Key)
    ensures AwaitsKey(log + [op], key) <==> op == RemoveCapture(key) || (AwaitsKey(log, key) && !Settles(op, key))
  {
    hide Settles;
    var more := log + [op];
    forall r | 0 <= r < |log|
      ensures SettledSince(more, r, key) <==> SettledSince(log, r, key) || Settles(op, key)
    {
      SettledOneMore(log, op, r, key);
    }
    if AwaitsKey(log, key) && !Settles(op, key) {
      var r :| 0 <= r < |log| && log[r] == RemoveCapture(key) && !SettledSince(log, r, key);
      assert more[r] == log[r];
    }
    if op == RemoveCapture(key) {
      assert more[|log|] == op && !SettledSince(more, |log|, key);
    }
    if AwaitsKey(more, key) && op != RemoveCapture(key) {
      var r :| 0 <= r < |more| && more[r] == RemoveCapture(key) && !SettledSince(more, r, key);
      assert log[r] == more[r];
    }
  }

  lemma SettledOneMore(log: seq<Operation>, op: Operation, r: nat, key: Key)
    requires r < |log|
    ensures SettledSince(log + [op], r, key) <==> SettledSince(log, r, key) || Settles(op, key)
  {
    hide Settles;
    var more := log + [op];
    if SettledSince(log, r, key) {
      var j :| r < j < |log| && Settles(log[j], key);
      assert more[j] == log[j];
    }
    if Settles(op, key) { assert more[|log|] == op; }
    if SettledSince(more, r, key) {
      var j :| r < j < |more| && Settles(more[j], key);
      assert j < |log| ==> log[j] == more[j];
    }
  }

  // ---------------------------------------------------------------- documents are kept

  lemma StepKeeps(f: Files, op: Operation, key: Key)
    requires Legal(f, op) && !AbsentAt(f, op, key)
    requires IndexLists(f, key) || JsonLists(f, key) ==> key in f.captures || Bundles(f, key)
    ensures var g := Step(f, op);
            IndexLists(g, key) || JsonLists(g, key) ==> key in g.captures || Bundles(g, key)
  {
    hide InBundle;
  }

  /** However runs are stopped: a document of a listed time is an individual capture or
      in its day's bundle, unless it was nowhere when its time was listed. */
  lemma {:induction false} KeptUnlessAbsent(log: seq<Operation>, key: Key)
    requires LegalLog(log) && !ListedAbsent(log, key)
    ensures var f := Replay(log); IndexLists(f, key) || JsonLists(f, key) ==> key in f.captures || Bundles(f, key)
  {
    if log != [] {
      hide Legal, Replay, Step, AbsentAt, ListedAbsent, IndexLists, JsonLists, Bundles;
      var front, op := log[..|log| - 1], log[|log| - 1];
      LegalLast(log);
      AbsentOneMore(front, op, key);
      KeptUnlessAbsent(front, key);
      StepKeeps(Replay(front), op, key);
    }
  }

  /** When every document was there as its time was listed, all listed times are safe. */
  lemma SafeUnlessAbsent(log: seq<Operation>)
    requires LegalLog(log) && forall key :: !ListedAbsent(log, key)
    ensures Safe(Replay(log))
  {
    hide Legal, Replay, ListedAbsent, InBundle;
    LogInDays(log);
    var f := Replay(log);
    forall day: nat, t: nat | Listed(f, day, t)
      ensures t / DAY == day && forall kind :: Kept(f, day, Key(t, kind))
    {
      forall kind
        ensures Kept(f, day, Key(t, kind))
      {
        KeptUnlessAbsent(log, Key(t, kind));
      }
    }
  }

  // ---------------------------------------------------------------- published times are readable

  /** What legal operations keep about a document that was never misplaced. */
  ghost predicate Placed(f: Files, awaits: bool, key: Key) {
    var day, captured := key.time / DAY, key in f.captures;
    && (captured ==> f.captures[key].Intact?)
    && (day in f.json && f.json[day].bundled ==> day in f.bundles)
    && (IndexLists(f, key) ==> if day in f.bundles then Bundles(f, key) else captured)
    && (JsonLists(f, key) && f.json[day].bundled ==> Bundles(f, key))
    && (JsonLists(f, key) && !f.json[day].bundled ==> (captured <==> !awaits))
    && (JsonLists(f, key) && !f.json[day].bundled && !captured ==> Bundles(f, key))
    && (awaits ==> !captured && (day in f.json ==> !f.json[day].bundled))
  }

  lemma StepPlaced(f: Files, op: Operation, awaits: bool, key: Key)
    requires Legal(f, op) && !MisplacedAt(f, op, key) && Placed(f, awaits, key)
    ensures Placed(Step(f, op), op == RemoveCapture(key) || (awaits && !Settles(op, key)), key)
  {
    hide InBundle;
  }

  lemma {:induction false} LogPlaced(log: seq<Operation>, key: Key)
    requires LegalLog(log) && !Misplaced(log, key)
    ensures Placed(Replay(log), AwaitsKey(log, key), key)
  {
    if log != [] {
      hide Legal, Replay, Step, MisplacedAt, Misplaced, AwaitsKey, Placed, Settles;
      var front, op := log[..|log| - 1], log[|log| - 1];
      LegalLast(log);
      MisplacedOneMore(front, op, key);
      AwaitsOneMore(front, op, key);
      LogPlaced(front, key);
      StepPlaced(Replay(front), op, AwaitsKey(front, key), key);
    }
  }

  /** Over any runs, stopped anywhere: a document of a published time, never misplaced,
      can be read through the published index exactly unless its capture was removed
      and its day still awaits publication. */
  lemma ServedExactly(log: seq<Operation>, key: Key)
    requires LegalLog(log) && !Misplaced(log, key) && JsonLists(Replay(log), key)
    ensures Served(Replay(log), key.time / DAY, key) <==> !AwaitsKey(log, key)
  {
    hide LegalLog, Replay, Misplaced, AwaitsKey, InBundle;
    LogPlaced(log, key);
  }

  /** The same for a whole published time. */
  lemma ReadableExactly(log: seq<Operation>, day: nat, time: nat)
    requires LegalLog(log) && forall kind :: !Misplaced(log, Key(time, kind))
    requires day in Replay(log).json && time in Replay(log).json[day].times
    ensures Readable(Replay(log), day, time) <==> forall kind :: !AwaitsKey(log, Key(time, kind))
  {
    hide LegalLog, Replay, Misplaced, AwaitsKey, Served;
    LogInDays(log);
    assert Listed(Replay(log), day, time);
    forall kind
      ensures Served(Replay(log), day, Key(time, kind)) <==> !AwaitsKey(log, Key(time, kind))
    {
      ServedExactly(log, Key(time, kind));
    }
  }

  // ---------------------------------------------------------------- orphaned files

  /** The day's timestamps were removed, and since then neither listed again nor, after
      them, the published index. */
  ghost predicate JsonPending(log: seq<Operation>, day: nat) {
    exists r :: 0 <= r < |log| && log[r] == RemoveIndex(day) && day in Replay(log[..r]).json
                && !Mentions(log, r, WritesIndex(day)) && !Mentions(log, r, RemovesJson(day))
  }

  ghost predicate BundlePending(log: seq<Operation>, day: nat) {
    exists r :: 0 <= r < |log| && log[r] == RemoveIndex(day) && day in Replay(log[..r]).bundles
                && !Mentions(log, r, WritesIndex(day)) && !Mentions(log, r, RemovesBundle(day))
  }

  datatype Sort = WritesIndex(day: nat) | RemovesJson(day: nat) | RemovesBundle(day: nat)

  predicate OfSort(op: Operation, sort: Sort) {
    match sort
    case WritesIndex(day) => op.WriteIndex? && op.day == day
    case RemovesJson(day) => op == RemoveJson(day)
    case RemovesBundle(day) => op == RemoveBundle(day)
  }

  /** Some operation after the one at `r` is of this sort. */
  predicate Mentions(log: seq<Operation>, r: nat, sort: Sort) {
    exists j :: r < j < |log| && OfSort(log[j], sort)
  }

  lemma MentionsOneMore(log: seq<Operation>, op: Operation, r: nat, sort: Sort)
    requires r < |log|
    ensures Mentions(log + [op], r, sort) <==> Mentions(log, r, sort) || OfSort(op, sort)
  {
    hide OfSort;
    var more := log + [op];
    if Mentions(log, r, sort) {
      var j :| r < j < |log| && OfSort(log[j], sort);
      assert more[j] == log[j];
    }
    if OfSort(op, sort) { assert more[|log|] == op; }
    if Mentions(more, r, sort) {
      var j :| r < j < |more| && OfSort(more[j], sort);
      assert j < |log| ==> log[j] == more[j];
    }
  }

  lemma JsonPendingOneMore(log: seq<Operation>, op: Operation, day: nat)
    ensures JsonPending(log + [op], day) <==>
            || (op == RemoveIndex(day) && day in Replay(log).json)
            || (JsonPending(log, day) && !OfSort(op, WritesIndex(day)) && !OfSort(op, RemovesJson(day)))
  {
    hide Replay, OfSort, Mentions;
    var more := log + [op];
    assert more[..|log|] == log && more[|log|] == op;
    NothingAfter(more, |log|, WritesIndex(day));
    NothingAfter(more, |log|, RemovesJson(day));
    forall r | 0 <= r < |log|
      ensures more[r] == log[r] && more[..r] == log[..r]
      ensures Mentions(more, r, WritesIndex(day)) <==>
              Mentions(log, r, WritesIndex(day)) || OfSort(op, WritesIndex(day))
      ensures Mentions(more, r, RemovesJson(day)) <==>
              Mentions(log, r, RemovesJson(day)) || OfSort(op, RemovesJson(day))
    {
      MentionsOneMore(log, op, r, WritesIndex(day));
      MentionsOneMore(log, op, r, RemovesJson(day));
    }
  }

  lemma BundlePendingOneMore(log: seq<Operation>, op: Operation, day: nat)
    ensures BundlePending(log + [op], day) <==>
            || (op == RemoveIndex(day) && day in Replay(log).bundles)
            || (BundlePending(log, day) && !OfSort(op, WritesIndex(day)) && !OfSort(op, RemovesBundle(day)))
  {
    hide Replay, OfSort, Mentions;
    var more := log + [op];
    assert more[..|log|] == log && more[|log|] == op;
    NothingAfter(more, |log|, WritesIndex(day));
    NothingAfter(more, |log|, RemovesBundle(day));
    forall r | 0 <= r < |log|
      ensures more[r] == log[r] && more[..r] == log[..r]
      ensures Mentions(more, r, WritesIndex(day)) <==>
              Mentions(log, r, WritesIndex(day)) || OfSort(op, WritesIndex(day))
      ensures Mentions(more, r, RemovesBundle(day)) <==>
              Mentions(log, r, RemovesBundle(day)) || OfSort(op, RemovesBundle(day))
    {
      MentionsOneMore(log, op, r, WritesIndex(day));
      MentionsOneMore(log, op, r, RemovesBundle(day));
    }
  }

  lemma NothingAfter(log: seq<Operation>, r: nat, sort: Sort)
    requires r + 1 == |log|
    ensures !Mentions(log, r, sort)
  {
  }

  lemma StepOrphans(f: Files, op: Operation, day: nat)
    requires Legal(f, op)
    ensures var g := Step(f, op);
            && (day !in g.index && day in g.json <==>
                 || (op == RemoveIndex(day) && day in f.json)
                 || (day !in f.index && day in f.json
                     && !OfSort(op, WritesIndex(day)) && !OfSort(op, RemovesJson(day))))
            && (day !in g.index && day in g.bundles <==>
                 || (op == RemoveIndex(day) && day in f.bundles)
                 || (day !in f.index && day in f.bundles
                     && !OfSort(op, WritesIndex(day)) && !OfSort(op, RemovesBundle(day))))
  {
    hide InBundle, AppendsTime, DropsTimes;
  }

  /** Over any runs, stopped anywhere: files of a day that is not indexed are exactly
      those that an expiry has not come to remove. */
  lemma {:induction false} OrphansExactly(log: seq<Operation>, day: nat)
    requires LegalLog(log)
    ensures var f := Replay(log);
            && (day !in f.index && day in f.json <==> JsonPending(log, day))
            && (day !in f.index && day in f.bundles <==> BundlePending(log, day))
            && (Orphaned(f, day) <==> JsonPending(log, day) || BundlePending(log, day))
  {
    if log != [] {
      hide Replay, JsonPending, BundlePending, OfSort, Legal, Step;
      var front, op := log[..|log| - 1], log[|log| - 1];
      LegalLast(log);
      JsonPendingOneMore(front, op, day);
      BundlePendingOneMore(front, op, day);
      OrphansExactly(front, day);
      StepOrphans(Replay(front), op, day);
    }
  }

  /** So the files are tidy exactly when no expiry is pending. */
  lemma TidyExactly(log: seq<Operation>)
    requires LegalLog(log)
    ensures Tidy(Replay(log)) <==> forall day :: !JsonPending(log, day) && !BundlePending(log, day)
  {
    hide LegalLog, Replay, JsonPending, BundlePending;
    forall day
      ensures Orphaned(Replay(log), day) <==> JsonPending(log, day) || BundlePending(log, day)
    {
      OrphansExactly(log, day);
    }
    var f := Replay(log);
    if forall day :: !Orphaned(f, day) {
      forall d | d in f.json || d in f.bundles
        ensures d in f.index
      {
        assert !Orphaned(f, d);
      }
    }
  }
}
