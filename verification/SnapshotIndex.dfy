/** The snapshot index: file operations of the `add` command and what survives a stop between any two. */
module SnapshotIndex {
  import opened Wrappers
  import opened Bytes
  import opened SnapshotBundle

  const DAY := 86400
  const RETENTION := 30 * 86400

  /** A capture file; a damaged one fails `gzip -t`. */
  datatype Document = Intact(body: seq<byte>) | Damaged

  /** The published `day.json`: whether it names a bundle, and the listed times. */
  datatype Published = Published(bundled: bool, times: seq<nat>)

  /** The files that readers and later runs look at; bundles are kept uncompressed. */
  datatype Files = Files(
    index: map<nat, seq<nat>>,
    captures: map<Key, Document>,
    bundles: map<nat, seq<byte>>,
    json: map<nat, Published>)

  const NO_FILES := Files(map[], map[], map[], map[])

  /** What one rename, append or removal does. */
  datatype Operation =
    | WriteCapture(key: Key, document: Document)
    | RemoveCapture(key: Key)
    | WriteIndex(day: nat, times: seq<nat>)
    | RemoveIndex(day: nat)
    | WriteJson(day: nat, published: Published)
    | RemoveJson(day: nat)
    | WriteBundle(day: nat, bundle: seq<byte>)
    | RemoveBundle(day: nat)

  function Step(f: Files, op: Operation): Files {
    match op
    case WriteCapture(key, document) => f.(captures := f.captures[key := document])
    case RemoveCapture(key) => f.(captures := f.captures - {key})
    case WriteIndex(day, times) => f.(index := f.index[day := times])
    case RemoveIndex(day) => f.(index := f.index - {day})
    case WriteJson(day, published) => f.(json := f.json[day := published])
    case RemoveJson(day) => f.(json := f.json - {day})
    case WriteBundle(day, bundle) => f.(bundles := f.bundles[day := bundle])
    case RemoveBundle(day) => f.(bundles := f.bundles - {day})
  }

  /** The files after a list of operations. */
  function After(f: Files, ops: seq<Operation>): Files {
    if ops == [] then f else Step(After(f, ops[..|ops| - 1]), ops[|ops| - 1])
  }

  /** The files after a list of operations on an empty installation. */
  function Replay(log: seq<Operation>): Files {
    After(NO_FILES, log)
  }

  lemma {:induction false} AfterJoin(f: Files, a: seq<Operation>, b: seq<Operation>)
    ensures After(f, a + b) == After(After(f, a), b)
    decreases |b|
  {
    hide Step;
    if b == [] {
      assert a + b == a;
    } else {
      assert (a + b)[..|a + b| - 1] == a + b[..|b| - 1];
      AfterJoin(f, a, b[..|b| - 1]);
    }
  }

  lemma AfterOne(f: Files, op: Operation)
    ensures After(f, [op]) == Step(f, op)
  {
    hide Step;
    assert [op][..0] == [];
    assert After(f, []) == f;
  }

  // ---------------------------------------------------------------- safety

  predicate InBundle(bundle: seq<byte>, key: Key) {
    ParseSpec(bundle).Success? && key in ParseSpec(bundle).value
  }

  ghost predicate Kept(f: Files, day: nat, key: Key) {
    key in f.captures || (day in f.bundles && InBundle(f.bundles[day], key))
  }

  ghost predicate Listed(f: Files, day: nat, time: nat) {
    (day in f.index && time in f.index[day]) || (day in f.json && time in f.json[day].times)
  }

  /** Every time listed for a day belongs to it and has all three documents, as
      individual captures or inside that day's installed bundle. */
  ghost predicate Safe(f: Files) {
    forall day: nat, time: nat :: Listed(f, day, time) ==>
      time / DAY == day && forall kind :: Kept(f, day, Key(time, kind))
  }

  /** Listed times belong to their day, and a published index that names a bundle has one. */
  ghost predicate InDays(f: Files) {
    && (forall day: nat, t: nat :: Listed(f, day, t) ==> t / DAY == day)
    && (forall day <- f.json :: f.json[day].bundled ==> day in f.bundles)
  }

  // ---------------------------------------------------------------- single operations

  function Appended(f: Files, time: nat): Files {
    var day := time / DAY;
    var listed := if day in f.index then f.index[day] else [];
    if listed != [] && listed[|listed| - 1] == time then f else f.(index := f.index[day := listed + [time]])
  }

  function PublishedDay(f: Files, day: nat): Files {
    if day in f.index then f.(json := f.json[day := Published(day in f.bundles, f.index[day])]) else f
  }

  /** `for kind in ap client mesh`. */
  function RecordsAt(captures: map<Key, Document>, time: nat): seq<Record>
    requires forall kind :: Key(time, kind) in captures && captures[Key(time, kind)].Intact?
  {
    [Record(Key(time, ApView), captures[Key(time, ApView)].body),
     Record(Key(time, ClientView), captures[Key(time, ClientView)].body),
     Record(Key(time, MeshView), captures[Key(time, MeshView)].body)]
  }

  ghost predicate IntactAt(captures: map<Key, Document>, time: nat) {
    forall kind :: Key(time, kind) in captures && captures[Key(time, kind)].Intact?
  }

  ghost predicate IntactAll(captures: map<Key, Document>, times: seq<nat>) {
    forall time <- times :: IntactAt(captures, time)
  }

  lemma EveryKind(captures: map<Key, Document>, time: nat)
    requires forall j :: 0 <= j < 3 ==> Key(time, KINDS[j]) in captures && captures[Key(time, KINDS[j])].Intact?
    ensures IntactAt(captures, time)
  {
    assert KINDS[0] == ApView && KINDS[1] == ClientView && KINDS[2] == MeshView;
    forall kind
      ensures Key(time, kind) in captures && captures[Key(time, kind)].Intact?
    {
      match kind {
        case ApView => assert kind == KINDS[0];
        case ClientView => assert kind == KINDS[1];
        case MeshView => assert kind == KINDS[2];
      }
    }
  }

  lemma AllKinds()
    ensures forall kind :: kind in KINDS[..3]
  {
    assert KINDS[..3] == [ApView, ClientView, MeshView];
    forall kind
      ensures kind in KINDS[..3]
    {
      match kind {
        case ApView => assert KINDS[..3][0] == kind;
        case ClientView => assert KINDS[..3][1] == kind;
        case MeshView => assert KINDS[..3][2] == kind;
      }
    }
  }

  ghost function RecordsOf(captures: map<Key, Document>, times: seq<nat>): seq<Record>
    requires IntactAll(captures, times)
  {
    if times == [] then []
    else
      assert forall time <- times[..|times| - 1] :: time in times;
      assert times[|times| - 1] in times;
      RecordsOf(captures, times[..|times| - 1]) + RecordsAt(captures, times[|times| - 1])
  }

  ghost function BundleOf(f: Files, day: nat): seq<byte>
    requires day in f.index && IntactAll(f.captures, f.index[day])
  {
    Stream(RecordsOf(f.captures, f.index[day]))
  }

  lemma {:induction false} RecordsHoldCaptures(captures: map<Key, Document>, times: seq<nat>)
    requires IntactAll(captures, times)
    ensures forall record <- RecordsOf(captures, times) ::
              record.key in captures && captures[record.key] == Intact(record.body)
    ensures forall time, kind :: time in times ==> Key(time, kind) in KeysOf(RecordsOf(captures, times))
  {
    if times != [] {
      var front, last := times[..|times| - 1], times[|times| - 1];
      assert last in times;
      RecordsHoldCaptures(captures, front);
      var records, more := RecordsOf(captures, times), RecordsAt(captures, last);
      forall time, kind | time in times
        ensures Key(time, kind) in KeysOf(records)
      {
        if time == last {
          var record := Record(Key(time, kind), captures[Key(time, kind)].body);
          match kind {
            case ApView => assert more[0] == record;
            case ClientView => assert more[1] == record;
            case MeshView => assert more[2] == record;
          }
          assert record in more;
          assert records == RecordsOf(captures, front) + more;
          assert record in records;
          assert record.key == Key(time, kind);
        } else {
          assert time in front;
          assert Key(time, kind) in KeysOf(RecordsOf(captures, front));
        }
      }
    }
  }

  /** A built bundle parses to exactly the captured bodies of all its times. */
  lemma BundleHoldsCaptures(captures: map<Key, Document>, times: seq<nat>, time: nat, kind: Kind)
    requires IntactAll(captures, times) && time in times
    ensures InBundle(Stream(RecordsOf(captures, times)), Key(time, kind))
    ensures captures[Key(time, kind)] == Intact(ParseSpec(Stream(RecordsOf(captures, times))).value[Key(time, kind)])
  {
    hide ParseSpec, Stream, Stored, RecordsOf;
    var records := RecordsOf(captures, times);
    RecordsHoldCaptures(captures, times);
    StreamReadsBack(records);
    StoredKeys(records, map[]);
    StoredValue(records, captures, Key(time, kind));
  }

  lemma {:induction false} StoredValue(records: seq<Record>, captures: map<Key, Document>, key: Key)
    requires forall record <- records :: record.key in captures && captures[record.key] == Intact(record.body)
    requires key in KeysOf(records)
    ensures key in Stored(records, map[]) && captures[key] == Intact(Stored(records, map[])[key])
  {
    var i := LastOf(records, key, |records|);
    StoredLast(records, map[], i);
    assert records[i] in records;
  }

  lemma {:induction false} LastOf(records: seq<Record>, key: Key, n: nat) returns (i: nat)
    requires n <= |records| && key in KeysOf(records[..n])
    requires forall j :: n <= j < |records| ==> records[j].key != key
    ensures i < |records| && records[i].key == key && forall j :: i < j < |records| ==> records[j].key != key
  {
    if records[n - 1].key == key {
      i := n - 1;
    } else {
      assert records[..n] == records[..n - 1] + [records[n - 1]];
      i := LastOf(records, key, n - 1);
    }
  }

  // ---------------------------------------------------------------- whole phases as functions

  ghost predicate Bundled(f: Files, active: nat, verified: set<nat>, day: nat) {
    && day in f.index && day < active && day !in f.bundles
    && IntactAll(f.captures, f.index[day]) && day in verified
  }

  /** The files after the days of `done` have been bundled. */
  ghost function BundleAll(f: Files, done: set<nat>): Files
    requires forall day <- done :: day in f.index && IntactAll(f.captures, f.index[day])
  {
    Files(f.index,
          map key | key in f.captures && !(key.time / DAY in done && key.time in f.index[key.time / DAY]) ::
              f.captures[key],
          f.bundles + map day | day in done :: BundleOf(f, day),
          f.json + map day | day in done :: Published(true, f.index[day]))
  }

  ghost function BundledDays(f: Files, active: nat, verified: set<nat>): set<nat> {
    set day | day in f.index && Bundled(f, active, verified, day)
  }

  function Recent(times: seq<nat>, cutoff: int): (recent: seq<nat>)
    ensures forall t :: t in recent <==> t in times && t >= cutoff
  {
    if times == [] then []
    else Recent(times[..|times| - 1], cutoff)
         + if times[|times| - 1] >= cutoff then [times[|times| - 1]] else []
  }

  predicate Expired(day: nat, cutoff: int) { (day + 1) * DAY <= cutoff }

  predicate Straddles(day: nat, cutoff: int) { day * DAY < cutoff < (day + 1) * DAY }

  /** The files after the days of `done` have been pruned. */
  function PruneAll(f: Files, cutoff: int, done: set<nat>): Files
    requires done <= f.index.Keys
  {
    var kept := map day | day in f.index && !(day in done && Expired(day, cutoff)) ::
                  if day in done && Straddles(day, cutoff) then Recent(f.index[day], cutoff) else f.index[day];
    Files(kept,
          f.captures,
          map day | day in f.bundles && !(day in done && Expired(day, cutoff)) :: f.bundles[day],
          (map day | day in f.json && !(day in done && Expired(day, cutoff)) :: f.json[day])
          + (map day | day in done && Straddles(day, cutoff) :: Published(day in f.bundles, kept[day])))
  }

  /** What a completed `add` leaves behind. */
  ghost function AddSpec(f: Files, time: nat, now: int, verified: set<nat>): Files {
    var g := PublishedDay(Appended(f, time), time / DAY);
    var h := BundleAll(g, BundledDays(g, time / DAY, verified));
    PruneAll(h, now - RETENTION, h.index.Keys)
  }

  // ---------------------------------------------------------------- phases as operations

  function AppendOps(f: Files, time: nat): seq<Operation> {
    var day := time / DAY;
    var listed := if day in f.index then f.index[day] else [];
    if listed != [] && listed[|listed| - 1] == time then [] else [WriteIndex(day, listed + [time])]
  }

  function PublishOps(f: Files, day: nat): seq<Operation> {
    if day in f.index then [WriteJson(day, Published(day in f.bundles, f.index[day]))] else []
  }

  function RemovalsAt(time: nat): seq<Operation> {
    [RemoveCapture(Key(time, ApView)), RemoveCapture(Key(time, ClientView)), RemoveCapture(Key(time, MeshView))]
  }

  function Removals(times: seq<nat>): (ops: seq<Operation>)
    ensures ops == [] <==> times == []
    ensures forall op <- ops :: op.RemoveCapture? && op.key.time in times
  {
    if times == [] then []
    else
      assert times[|times| - 1] in times && forall t <- times[..|times| - 1] :: t in times;
      Removals(times[..|times| - 1]) + RemovalsAt(times[|times| - 1])
  }

  /** Install the bundle, remove the captures, publish the day again. */
  ghost function BundleOps(f: Files, day: nat): (ops: seq<Operation>)
    requires day in f.index && IntactAll(f.captures, f.index[day])
    ensures |ops| == |Removals(f.index[day])| + 2
  {
    [WriteBundle(day, BundleOf(f, day))] + Removals(f.index[day]) + [WriteJson(day, Published(true, f.index[day]))]
  }

  function PruneOps(f: Files, cutoff: int, day: nat): seq<Operation>
    requires day in f.index
  {
    if Expired(day, cutoff) then [RemoveIndex(day), RemoveJson(day), RemoveBundle(day)]
    else if Straddles(day, cutoff) then
      var recent := Recent(f.index[day], cutoff);
      [WriteIndex(day, recent), WriteJson(day, Published(day in f.bundles, recent))]
    else []
  }

  /** One indexed day in the bundling loop; `verified` stands for the test of the archive. */
  ghost function BundleVisitOps(f: Files, active: nat, verified: set<nat>, day: nat): seq<Operation> {
    if Bundled(f, active, verified, day) then BundleOps(f, day) else []
  }

  /** The bundling loop over days in some order. */
  ghost function BundlingOps(f: Files, days: seq<nat>, active: nat, verified: set<nat>): seq<Operation> {
    if days == [] then []
    else
      var ops := BundlingOps(f, days[..|days| - 1], active, verified);
      ops + BundleVisitOps(After(f, ops), active, verified, days[|days| - 1])
  }

  /** The pruning loop over days in some order. */
  function PruningOps(f: Files, days: seq<nat>, cutoff: int): seq<Operation> {
    if days == [] then []
    else
      var ops := PruningOps(f, days[..|days| - 1], cutoff);
      var g := After(f, ops);
      ops + if days[|days| - 1] in g.index then PruneOps(g, cutoff, days[|days| - 1]) else []
  }

  /** All operations of `add`: list the time, publish its day, bundle, prune. */
  ghost function AddOps(f: Files, time: nat, now: int, verified: set<nat>, bundling: seq<nat>, pruning: seq<nat>)
    : seq<Operation>
  {
    var list := AppendOps(f, time);
    var publish := PublishOps(After(f, list), time / DAY);
    var bundle := BundlingOps(After(f, list + publish), bundling, time / DAY, verified);
    list + publish + bundle + PruningOps(After(f, list + publish + bundle), pruning, now - RETENTION)
  }

  /** The captures that the collector writes, in the order of the kinds. */
  function CollectOps(time: nat, documents: Kind -> Option<Document>, n: nat): seq<Operation>
    requires n <= 3
  {
    if n == 0 then []
    else CollectOps(time, documents, n - 1) + CollectOne(Key(time, KINDS[n - 1]), documents(KINDS[n - 1]))
  }

  function CollectOne(key: Key, document: Option<Document>): seq<Operation> {
    if document.Some? then [WriteCapture(key, document.value)] else []
  }

  /** Every one of some days, in some order. */
  ghost predicate EachOnce(days: seq<nat>, all: set<nat>) {
    && (forall d :: d in days <==> d in all)
    && forall i, j :: 0 <= i < j < |days| ==> days[i] != days[j]
  }
}
