/** One round of parallel probes: batches, replies and the bookkeeping of pending answers. */
module PingRound {
  import opened Wrappers
  import opened Bytes

  const TIMEOUT_MS := 1000
  const BATCH := 512

  datatype State = Ok | Timeout | NotAssociated | Unknown

  datatype Measurement = Measurement(
    address: u32, pingable: bool, responded: bool, state: State, rtt: int, sentMs: int)

  /** The socket's answer to one probe: when it was sent and whether `sendto` took it. */
  datatype Send = Send(now: int, taken: bool)

  /** A received datagram: the index `ReadDatagram` finds in it, who sent it, and when. */
  datatype Reply = Reply(position: Option<nat>, source: u32, at: int)

  datatype Event = Arrived(reply: Reply) | Interrupted | Quiet

  /** One turn of the wait loop: the clock before `poll`, and what came of it. */
  datatype Poll = Poll(now: int, event: Event)

  // ---------------------------------------------------------------- single items

  function Probed(item: Measurement, send: Send): (probed: Measurement)
    ensures probed.address == item.address && (probed.responded <==> item.responded)
  {
    item.(sentMs := send.now, state := Timeout, rtt := TIMEOUT_MS)
  }

  function Elapsed(ms: int): int {
    if ms < 0 then 0 else if ms > TIMEOUT_MS then TIMEOUT_MS else ms
  }

  function Answered(item: Measurement, at: int): Measurement {
    item.(rtt := Elapsed(at - item.sentMs), responded := true, state := Ok)
  }

  /** A target answered within the window, or it shows the full timeout and no success. */
  predicate Consistent(item: Measurement) {
    && (item.responded ==> item.state == Ok && 0 <= item.rtt <= TIMEOUT_MS)
    && (!item.responded ==> item.state != Ok && item.rtt == TIMEOUT_MS)
  }

  /** An enabled target: its kind, whether the client list names it, its parsed address. */
  datatype TargetRow = TargetRow(isClient: bool, present: bool, address: Option<u32>)

  /** How a target enters the round: probed exactly when it has an address and, for
      a client, a valid client list names it. */
  function Loaded(row: TargetRow, clientsValid: bool): (item: Measurement)
    ensures !item.responded && Consistent(item)
    ensures item.pingable <==> row.address.Some? && (row.isClient ==> clientsValid && row.present)
  {
    var idle := Measurement(0, false, false, Unknown, TIMEOUT_MS, 0);
    if row.isClient && !clientsValid then idle
    else if row.isClient && !row.present then idle.(state := NotAssociated)
    else if row.address.Some? then idle.(address := row.address.value, state := Timeout, pingable := true)
    else idle
  }

  // ---------------------------------------------------------------- the answer of a probe

  predicate Answers(poll: Poll, position: nat, address: u32) {
    poll.event.Arrived? && poll.event.reply.position == Some(position) && poll.event.reply.source == address
  }

  /** The arrival time of the first datagram that answers a probe. */
  function FirstAnswer(polls: seq<Poll>, position: nat, address: u32): Option<int> {
    if polls == [] then None
    else
      var before, last := FirstAnswer(polls[..|polls| - 1], position, address), polls[|polls| - 1];
      if before.Some? then before
      else if Answers(last, position, address) then Some(last.event.reply.at) else None
  }

  /** A probed item after some polls: duplicates and strangers leave no trace. */
  function Outcome(probed: Measurement, polls: seq<Poll>, position: nat): Measurement {
    var answer := FirstAnswer(polls, position, probed.address);
    if answer.Some? then Answered(probed, answer.value) else probed
  }

  predicate IsFirst(polls: seq<Poll>, k: int, position: nat, address: u32) {
    && 0 <= k < |polls| && Answers(polls[k], position, address)
    && forall j :: 0 <= j < k ==> !Answers(polls[j], position, address)
  }

  lemma {:induction false} FirstAnswerIsFirst(polls: seq<Poll>, position: nat, address: u32)
    ensures FirstAnswer(polls, position, address).None? <==>
            forall k :: 0 <= k < |polls| ==> !Answers(polls[k], position, address)
    ensures forall k :: IsFirst(polls, k, position, address) ==>
              FirstAnswer(polls, position, address) == Some(polls[k].event.reply.at)
  {
    if polls != [] {
      var before := polls[..|polls| - 1];
      FirstAnswerIsFirst(before, position, address);
      assert forall k :: 0 <= k < |before| ==> before[k] == polls[k];
      if FirstAnswer(before, position, address).Some? {
        var k :| 0 <= k < |before| && Answers(before[k], position, address);
        assert Answers(polls[k], position, address);
      } else {
        forall k | 0 <= k < |before|
          ensures !Answers(polls[k], position, address)
        {
          assert !Answers(before[k], position, address);
        }
      }
      forall k | IsFirst(polls, k, position, address)
        ensures FirstAnswer(polls, position, address) == Some(polls[k].event.reply.at)
      {
        if k < |before| {
          assert IsFirst(before, k, position, address);
        }
      }
    }
  }

  /** Once a probe is answered, nothing later changes its item. */
  lemma {:induction false} LaterDatagramsChangeNothing(probed: Measurement, polls: seq<Poll>,
                                                       more: seq<Poll>, position: nat)
    requires FirstAnswer(polls, position, probed.address).Some?
    ensures FirstAnswer(polls + more, position, probed.address) == FirstAnswer(polls, position, probed.address)
    ensures Outcome(probed, polls + more, position) == Outcome(probed, polls, position)
    decreases |more|
  {
    if more == [] {
      assert polls + more == polls;
    } else {
      assert (polls + more)[..|polls + more| - 1] == polls + more[..|more| - 1];
      LaterDatagramsChangeNothing(probed, polls, more[..|more| - 1], position);
    }
  }

  lemma OutcomeIsConsistent(item: Measurement, send: Send, polls: seq<Poll>, position: nat)
    requires !item.responded
    ensures Consistent(Outcome(Probed(item, send), polls, position))
  {
  }

  /** The poll brings, from the address probed, a datagram that names the position. */
  predicate Brings(poll: Poll, position: nat, address: u32) {
    match poll.event
    case Arrived(reply) => reply.position == Some(position) && reply.source == address
    case _ => false
  }

  /** What a round shows of one probe: with a first answering datagram the time that it took,
      within 0 and 1000 milliseconds, and otherwise a timeout of 1000. */
  lemma OutcomeExactly(item: Measurement, send: Send, polls: seq<Poll>, position: nat)
    requires !item.responded
    ensures var after := Outcome(Probed(item, send), polls, position);
            && after.address == item.address && after.pingable == item.pingable && after.sentMs == send.now
            && (forall k :: 0 <= k < |polls| && Brings(polls[k], position, item.address)
                            && (forall j :: 0 <= j < k ==> !Brings(polls[j], position, item.address)) ==>
                 && after.responded && after.state == Ok
                 && var took := polls[k].event.reply.at - send.now;
                   && (took <= 0 ==> after.rtt == 0) && (0 <= took <= 1000 ==> after.rtt == took)
                   && (took >= 1000 ==> after.rtt == 1000))
            && ((forall k :: 0 <= k < |polls| ==> !Brings(polls[k], position, item.address)) ==>
                 !after.responded && after.state == Timeout && after.rtt == 1000)
  {
    FirstAnswerIsFirst(polls, position, item.address);
    assert forall k :: 0 <= k < |polls| ==>
             (Brings(polls[k], position, item.address) <==> Answers(polls[k], position, item.address));
    forall k | 0 <= k < |polls| && Brings(polls[k], position, item.address)
               && forall j :: 0 <= j < k ==> !Brings(polls[j], position, item.address)
      ensures IsFirst(polls, k, position, item.address)
    {
    }
  }

  /** What a loaded target shows before the round. */
  lemma LoadedShows(row: TargetRow, clientsValid: bool)
    ensures var item := Loaded(row, clientsValid);
            && item.rtt == 1000
            && (item.pingable ==> item.state == Timeout && Some(item.address) == row.address)
            && (item.state == NotAssociated <==> row.isClient && clientsValid && !row.present)
            && (!item.pingable && item.state != NotAssociated ==> item.state == Unknown)
  {
  }

  // ---------------------------------------------------------------- indices and batches

  function Pingable(items: seq<Measurement>): (indices: seq<nat>)
    ensures forall k :: 0 <= k < |indices| ==> indices[k] < |items| && items[indices[k]].pingable
    ensures forall j, k :: 0 <= j < k < |indices| ==> indices[j] < indices[k]
    ensures forall i :: 0 <= i < |items| && items[i].pingable ==> i in indices
  {
    if items == [] then []
    else
      var before := Pingable(items[..|items| - 1]);
      if items[|items| - 1].pingable then before + [|items| - 1] else before
  }

  predicate Injective(indices: seq<nat>, size: nat) {
    && (forall k :: 0 <= k < |indices| ==> indices[k] < size)
    && forall j, k :: 0 <= j < k < |indices| ==> indices[j] != indices[k]
  }

  ghost function TakenIn(sends: nat -> Send, start: nat, end: nat): set<nat> {
    set p | start <= p < end && sends(p).taken
  }

  ghost function AnsweredIn(items: seq<Measurement>, indices: seq<nat>, polls: seq<Poll>, start: nat, end: nat)
    : set<nat>
    requires Injective(indices, |items|) && end <= |indices|
  {
    set p | start <= p < end && FirstAnswer(polls, p, items[indices[p]].address).Some?
  }

  /** The items of positions `start..end` after the batch's polls; all others as before. */
  ghost predicate BatchDone(before: seq<Measurement>, after: seq<Measurement>, indices: seq<nat>,
                            sends: nat -> Send, polls: seq<Poll>, start: nat, end: nat)
    requires Injective(indices, |before|) && end <= |indices|
  {
    && |after| == |before|
    && (forall p :: start <= p < end ==> after[indices[p]] == Outcome(Probed(before[indices[p]], sends(p)), polls, p))
    && (forall i :: 0 <= i < |before| && (forall p :: start <= p < end ==> indices[p] != i) ==> after[i] == before[i])
  }

  /** A second after the last accepted send, and no earlier than the clock's zero. */
  ghost predicate IsDeadline(sends: nat -> Send, start: nat, end: nat, deadline: int) {
    && 0 <= deadline
    && (forall p :: start <= p < end && sends(p).taken ==> sends(p).now + 1000 <= deadline)
    && (deadline == 0 || exists p :: start <= p < end && sends(p).taken && sends(p).now + 1000 == deadline)
  }

  /** Sends the batch's probes, one each, in order. */
  method SendBatch(items: array<Measurement>, indices: seq<nat>, sends: nat -> Send, start: nat, end: nat)
    returns (pending: int, deadline: int)
    requires Injective(indices, items.Length) && start <= end <= |indices|
    modifies items
    ensures BatchDone(old(items[..]), items[..], indices, sends, [], start, end)
    ensures pending == |TakenIn(sends, start, end)|
    ensures IsDeadline(sends, start, end, deadline)
  {
    pending, deadline := 0, 0;
    ghost var before := items[..];
    for i := start to end
      invariant BatchDone(before, items[..], indices, sends, [], start, i)
      invariant pending == |TakenIn(sends, start, i)|
      invariant IsDeadline(sends, start, i, deadline)
    {
      var send := sends(i);
      assert items[indices[i]] == before[indices[i]];
      items[indices[i]] := items[indices[i]].(sentMs := send.now, state := Timeout, rtt := TIMEOUT_MS);
      TakenGrows(sends, start, i);
      if send.taken {
        var itemDeadline := send.now + TIMEOUT_MS;
        if itemDeadline > deadline {
          deadline := itemDeadline;
        }
        pending := pending + 1;
      }
    }
  }

  lemma TakenGrows(sends: nat -> Send, start: nat, i: nat)
    requires start <= i
    ensures |TakenIn(sends, start, i + 1)| == |TakenIn(sends, start, i)| + if sends(i).taken then 1 else 0
  {
    var now := TakenIn(sends, start, i);
    if sends(i).taken {
      assert TakenIn(sends, start, i + 1) == now + {i};
    } else {
      assert TakenIn(sends, start, i + 1) == now;
    }
  }

  /** The accepted probes less the answered ones after `n` polls. */
  ghost function PendingAfter(items: seq<Measurement>, indices: seq<nat>, sends: nat -> Send, polls: seq<Poll>, n: nat,
                              start: nat, end: nat): int
    requires Injective(indices, |items|) && end <= |indices| && n <= |polls|
  {
    |TakenIn(sends, start, end)| - |AnsweredIn(items, indices, polls[..n], start, end)|
  }

  /** The wait loop ends before poll `n`: nothing is pending, the time is up, or nothing
      more comes. */
  ghost predicate StopsAt(items: seq<Measurement>, indices: seq<nat>, sends: nat -> Send, polls: seq<Poll>, n: nat,
                          start: nat, end: nat, deadline: int)
    requires Injective(indices, |items|) && end <= |indices| && n <= |polls|
  {
    || PendingAfter(items, indices, sends, polls, n, start, end) <= 0
    || n == |polls| || polls[n].now >= deadline || polls[n].event.Quiet?
  }

  /** It takes the polls up to the first such, and no more. */
  ghost predicate WaitsFor(items: seq<Measurement>, indices: seq<nat>, sends: nat -> Send, polls: seq<Poll>, used: nat,
                           start: nat, end: nat, deadline: int)
    requires Injective(indices, |items|) && end <= |indices|
  {
    && used <= |polls| && StopsAt(items, indices, sends, polls, used, start, end, deadline)
    && forall n :: 0 <= n < used ==> !StopsAt(items, indices, sends, polls, n, start, end, deadline)
  }

  /** The unanswered item that a datagram answers, if any. */
  predicate Hits(items: seq<Measurement>, indices: seq<nat>, poll: Poll, start: nat, end: nat)
    requires Injective(indices, |items|) && end <= |indices|
  {
    && poll.event.Arrived? && poll.event.reply.position.Some? && start <= poll.event.reply.position.value < end
    && var item := items[indices[poll.event.reply.position.value]];
       !item.responded && Answers(poll, poll.event.reply.position.value, item.address)
  }

  /** Stores the answer of an unanswered probe of this batch; ignores anything else. */
  method HandleDatagram(items: array<Measurement>, indices: seq<nat>, poll: Poll, start: nat, end: nat)
    returns (answered: bool)
    requires Injective(indices, items.Length) && start <= end <= |indices|
    modifies items
    ensures answered == Hits(old(items[..]), indices, poll, start, end)
    ensures !answered ==> items[..] == old(items[..])
    ensures answered ==> var index := indices[poll.event.reply.position.value];
              items[..] == old(items[..])[index := Answered(old(items[..])[index], poll.event.reply.at)]
  {
    answered := false;
    if poll.event.Arrived? && poll.event.reply.position.Some? && start <= poll.event.reply.position.value < end {
      var reply := poll.event.reply;
      var index := indices[reply.position.value];
      var item := items[index];
      if !item.responded && reply.source == item.address {
        var elapsed := reply.at - item.sentMs;
        if elapsed < 0 { elapsed := 0; }
        if elapsed > TIMEOUT_MS { elapsed := TIMEOUT_MS; }
        items[index] := item.(rtt := elapsed, responded := true, state := Ok);
        answered := true;
      }
    }
  }

  lemma KeepsWaiting(items: seq<Measurement>, indices: seq<nat>, sends: nat -> Send, polls: seq<Poll>, used: nat,
                     start: nat, end: nat, deadline: int)
    requires Injective(indices, |items|) && end <= |indices| && used <= |polls|
    ensures StopsAt(items, indices, sends, polls, used, start, end, deadline) <==>
              || PendingAfter(items, indices, sends, polls, used, start, end) <= 0 || used == |polls|
              || polls[used].now >= deadline || polls[used].event.Quiet?
  {
    hide PendingAfter;
  }

  /** Waits for answers. In every state reached, each item is its outcome on the
      polls so far and `pending` is the taken probes less the answered ones. */
  method AwaitBatch(items: array<Measurement>, indices: seq<nat>, ghost before: seq<Measurement>,
                    ghost sends: nat -> Send, polls: seq<Poll>, start: nat, end: nat, sent: int, deadline: int)
    returns (used: nat, pending: int)
    requires Injective(indices, items.Length) && start <= end <= |indices| && |before| == items.Length
    requires forall p :: start <= p < end ==> !before[indices[p]].responded
    requires BatchDone(before, items[..], indices, sends, [], start, end)
    requires sent == |TakenIn(sends, start, end)|
    modifies items
    ensures used <= |polls| && WaitsFor(before, indices, sends, polls, used, start, end, deadline)
    ensures BatchDone(before, items[..], indices, sends, polls[..used], start, end)
    ensures pending == PendingAfter(before, indices, sends, polls, used, start, end)
    ensures AnsweredIn(before, indices, polls[..used], start, end) <= TakenIn(sends, start, end) ==>
              pending == |TakenIn(sends, start, end) - AnsweredIn(before, indices, polls[..used], start, end)|
  {
    hide BatchDone, Injective, Hits, TakenIn, AnsweredIn, StopsAt, PendingAfter, Answered;
    used, pending := 0, sent;
    NobodyPending(before, indices, sends, polls, start, end);
    while pending > 0 && used < |polls|
      invariant used <= |polls|
      invariant BatchDone(before, items[..], indices, sends, polls[..used], start, end)
      invariant pending == PendingAfter(before, indices, sends, polls, used, start, end)
      invariant forall n :: 0 <= n < used ==> !StopsAt(before, indices, sends, polls, n, start, end, deadline)
      decreases |polls| - used
    {
      var poll := polls[used];
      if poll.now >= deadline || poll.event.Quiet? {
        break;
      }
      KeepsWaiting(before, indices, sends, polls, used, start, end, deadline);
      OneMorePoll(before, items[..], indices, sends, polls, used, start, end);
      var answered := HandleDatagram(items, indices, poll, start, end);
      if answered {
        pending := pending - 1;
      }
      used := used + 1;
    }
    KeepsWaiting(before, indices, sends, polls, used, start, end, deadline);
    PendingMeans(before, indices, sends, polls, used, start, end);
  }

  lemma NobodyPending(items: seq<Measurement>, indices: seq<nat>, sends: nat -> Send, polls: seq<Poll>, start: nat,
                      end: nat)
    requires Injective(indices, |items|) && end <= |indices|
    ensures polls[..0] == []
    ensures PendingAfter(items, indices, sends, polls, 0, start, end) == |TakenIn(sends, start, end)|
  {
    NobodyAnswered(items, indices, start, end);
  }

  lemma PendingMeans(items: seq<Measurement>, indices: seq<nat>, sends: nat -> Send, polls: seq<Poll>, n: nat,
                     start: nat, end: nat)
    requires Injective(indices, |items|) && end <= |indices| && n <= |polls|
    ensures var taken, answered := TakenIn(sends, start, end), AnsweredIn(items, indices, polls[..n], start, end);
            answered <= taken ==> PendingAfter(items, indices, sends, polls, n, start, end) == |taken - answered|
  {
    PendingCounts(TakenIn(sends, start, end), AnsweredIn(items, indices, polls[..n], start, end));
  }

  lemma NobodyAnswered(before: seq<Measurement>, indices: seq<nat>, start: nat, end: nat)
    requires Injective(indices, |before|) && end <= |indices|
    ensures AnsweredIn(before, indices, [], start, end) == {}
  {
  }

  lemma OutcomeStep(probed: Measurement, polls: seq<Poll>, used: nat, p: nat)
    requires used < |polls| && !probed.responded
    ensures var now := Outcome(probed, polls[..used], p);
            && now.address == probed.address
            && (now.responded <==> FirstAnswer(polls[..used], p, probed.address).Some?)
            && Outcome(probed, polls[..used + 1], p) ==
               (if !now.responded && Answers(polls[used], p, now.address) then Answered(now, polls[used].event.reply.at)
                else now)
            && (FirstAnswer(polls[..used + 1], p, probed.address).Some? <==>
                 now.responded || Answers(polls[used], p, probed.address))
  {
    assert polls[..used + 1][..used] == polls[..used];
  }

  /** One poll changes the outcome of at most the one item it first answers. */
  lemma OneMorePoll(before: seq<Measurement>, now: seq<Measurement>, indices: seq<nat>, sends: nat -> Send,
                    polls: seq<Poll>, used: nat, start: nat, end: nat)
    requires Injective(indices, |before|) && start <= end <= |indices| && used < |polls|
    requires forall p :: start <= p < end ==> !before[indices[p]].responded
    requires BatchDone(before, now, indices, sends, polls[..used], start, end)
    ensures |now| == |before|
    ensures var poll := polls[used];
            var left, next := PendingAfter(before, indices, sends, polls, used, start, end),
                              PendingAfter(before, indices, sends, polls, used + 1, start, end);
            if Hits(now, indices, poll, start, end)
            then
              && next == left - 1
              && var index := indices[poll.event.reply.position.value];
                 BatchDone(before, now[index := Answered(now[index], poll.event.reply.at)], indices, sends,
                           polls[..used + 1], start, end)
            else next == left && BatchDone(before, now, indices, sends, polls[..used + 1], start, end)
  {
    hide Outcome, FirstAnswer, Probed, Answered, Answers, AnsweredIn, BatchDone;
    BatchSize(before, now, indices, sends, polls[..used], start, end);
    AnsweredGrows(before, now, indices, sends, polls, used, start, end);
    OutcomesGrow(before, now, indices, sends, polls, used, start, end);
  }

  lemma BatchSize(before: seq<Measurement>, now: seq<Measurement>, indices: seq<nat>, sends: nat -> Send,
                  polls: seq<Poll>, start: nat, end: nat)
    requires Injective(indices, |before|) && end <= |indices|
             && BatchDone(before, now, indices, sends, polls, start, end)
    ensures |now| == |before|
  {
  }

  lemma AnsweredGrows(before: seq<Measurement>, now: seq<Measurement>, indices: seq<nat>, sends: nat -> Send,
                      polls: seq<Poll>, used: nat, start: nat, end: nat)
    requires Injective(indices, |before|) && start <= end <= |indices| && used < |polls|
    requires forall p :: start <= p < end ==> !before[indices[p]].responded
    requires |now| == |before| && BatchDone(before, now, indices, sends, polls[..used], start, end)
    ensures var answered, next := AnsweredIn(before, indices, polls[..used], start, end),
                                  AnsweredIn(before, indices, polls[..used + 1], start, end);
            if Hits(now, indices, polls[used], start, end) then |next| == |answered| + 1 else next == answered
  {
    hide Outcome, FirstAnswer, Probed, Answered;
    var poll := polls[used];
    var answered, next := AnsweredIn(before, indices, polls[..used], start, end),
                          AnsweredIn(before, indices, polls[..used + 1], start, end);
    forall p | start <= p < end
      ensures p in answered <==> now[indices[p]].responded
      ensures p in next <==> now[indices[p]].responded || Answers(poll, p, now[indices[p]].address)
    {
      OutcomeStep(Probed(before[indices[p]], sends(p)), polls, used, p);
    }
    if Hits(now, indices, poll, start, end) {
      assert next == answered + {poll.event.reply.position.value};
    } else {
      assert next == answered;
    }
  }

  lemma OutcomesGrow(before: seq<Measurement>, now: seq<Measurement>, indices: seq<nat>, sends: nat -> Send,
                     polls: seq<Poll>, used: nat, start: nat, end: nat)
    requires Injective(indices, |before|) && start <= end <= |indices| && used < |polls|
    requires forall p :: start <= p < end ==> !before[indices[p]].responded
    requires |now| == |before| && BatchDone(before, now, indices, sends, polls[..used], start, end)
    ensures var poll := polls[used];
            if Hits(now, indices, poll, start, end)
            then
              var index := indices[poll.event.reply.position.value];
              BatchDone(before, now[index := Answered(now[index], poll.event.reply.at)], indices, sends,
                        polls[..used + 1], start, end)
            else BatchDone(before, now, indices, sends, polls[..used + 1], start, end)
  {
    hide Outcome, FirstAnswer, Probed, Answered;
    forall p | start <= p < end
      ensures Outcome(Probed(before[indices[p]], sends(p)), polls[..used + 1], p) ==
              if !now[indices[p]].responded && Answers(polls[used], p, now[indices[p]].address)
              then Answered(now[indices[p]], polls[used].event.reply.at) else now[indices[p]]
    {
      OutcomeStep(Probed(before[indices[p]], sends(p)), polls, used, p);
    }
  }

  /** `pending` is the taken and unanswered probes, less answers to probes never
      taken; so it is exactly the former when only taken probes are answered. */
  lemma PendingCounts(taken: set<nat>, answered: set<nat>)
    ensures |taken| - |answered| == |taken - answered| - |answered - taken|
    ensures answered <= taken ==> |taken| - |answered| == |taken - answered|
  {
    assert taken == (taken - answered) + (taken * answered);
    assert answered == (answered - taken) + (taken * answered);
    assert |taken| == |taken - answered| + |taken * answered|;
    assert |answered| == |answered - taken| + |taken * answered|;
    if answered <= taken { assert answered - taken == {}; }
  }

  // ---------------------------------------------------------------- the round

  function BatchEnd(start: nat, count: nat): nat {
    if start + BATCH > count then count else start + BATCH
  }

  function Min(a: nat, b: nat): nat { if a < b then a else b }

  /** A batch waited for its deadline, and no longer than it had to. */
  ghost predicate WaitedFor(items: seq<Measurement>, indices: seq<nat>, sends: nat -> Send, polls: seq<Poll>, used: nat,
                            start: nat, end: nat)
    requires Injective(indices, |items|) && end <= |indices|
  {
    && used <= |polls|
    && exists deadline ::
         && IsDeadline(sends, start, end, deadline)
         && WaitsFor(items, indices, sends, polls, used, start, end, deadline)
  }

  /** Waiting depends on the addresses only. */
  lemma SameWait(before: seq<Measurement>, here: seq<Measurement>, indices: seq<nat>, sends: nat -> Send,
                 polls: seq<Poll>, used: nat, start: nat, end: nat, deadline: int)
    requires Injective(indices, |before|) && |here| == |before| && end <= |indices|
    requires forall p :: start <= p < end ==> here[indices[p]].address == before[indices[p]].address
    requires WaitsFor(here, indices, sends, polls, used, start, end, deadline)
    requires IsDeadline(sends, start, end, deadline)
    ensures WaitedFor(before, indices, sends, polls, used, start, end)
  {
    hide FirstAnswer, TakenIn;
    forall n | 0 <= n <= |polls|
      ensures StopsAt(before, indices, sends, polls, n, start, end, deadline) <==>
              StopsAt(here, indices, sends, polls, n, start, end, deadline)
    {
      assert AnsweredIn(before, indices, polls[..n], start, end) == AnsweredIn(here, indices, polls[..n], start, end);
    }
  }

  /** Every pingable target is probed exactly once, in its batch; at the end it
      shows its outcome on the polls its batch used, and nothing else changed. */
  method ParallelPing(items: array<Measurement>, sends: nat -> Send, polls: nat -> seq<Poll>)
    returns (attempted: seq<nat>, used: seq<nat>)
    requires forall i :: 0 <= i < items.Length ==> !items[i].responded && Consistent(items[i])
    modifies items
    ensures attempted == Pingable(old(items[..]))
    ensures Injective(attempted, items.Length) && |used| == (|attempted| + 511) / 512
    ensures forall b :: 0 <= b < |used| ==> used[b] <= |polls(b)|
    ensures forall b :: 0 <= b < |used| ==>
              WaitedFor(old(items[..]), attempted, sends, polls(b), used[b], 512 * b, Min(512 * b + 512, |attempted|))
    ensures forall p :: 0 <= p < |attempted| ==>
              && p / 512 < |used|
              && items[attempted[p]] ==
                 Outcome(Probed(old(items[..])[attempted[p]], sends(p)), polls(p / 512)[..used[p / 512]], p)
    ensures forall i :: 0 <= i < items.Length && !old(items[i].pingable) ==> items[i] == old(items[i])
    ensures forall i :: 0 <= i < items.Length ==> Consistent(items[i])
  {
    hide BatchDone, Outcome, Pingable, Injective, RoundAt, Consistent, TakenIn, AnsweredIn, WaitsFor, IsDeadline;
    hide WaitedFor, Probed, Answered, BatchEnd;
    ghost var before := items[..];
    var indices := CollectIndices(items);
    NothingDone(before, indices, sends, polls);
    attempted, used := [], [];
    var start := 0;
    while start < |indices|
      invariant 0 <= start <= |indices| && attempted == indices[..start]
      invariant RoundAt(before, items[..], indices, sends, polls, used, start)
      decreases |indices| - start
    {
      var end := BatchEnd(start, |indices|);
      ghost var here := items[..];
      UntouchedIsFresh(before, here, indices, sends, polls, used, start, end);
      var sent, deadline := SendBatch(items, indices, sends, start, end);
      var count, pending := AwaitBatch(items, indices, here, sends, polls(|used|), start, end, sent, deadline);
      RoundAdvances(before, here, items[..], indices, sends, polls, used, count, start, end, deadline);
      attempted := attempted + indices[start..end];
      used := used + [count];
      start := end;
    }
    assert attempted == indices;
    RoundIsDone(before, items[..], indices, sends, polls, used);
    RoundIsConsistent(before, items[..], indices, sends, polls, used);
  }

  /** Where the round stands before the batch at `start`. */
  ghost predicate RoundAt(before: seq<Measurement>, now: seq<Measurement>, indices: seq<nat>, sends: nat -> Send,
                          polls: nat -> seq<Poll>, used: seq<nat>, start: nat)
    requires Injective(indices, |before|) && start <= |indices|
  {
    && (start == BATCH * |used| || (start == |indices| && |used| == (start + BATCH - 1) / BATCH))
    && (forall b :: 0 <= b < |used| ==> used[b] <= |polls(b)|)
    && RoundSoFar(before, now, indices, sends, polls, used, start)
    && forall b :: 0 <= b < |used| ==>
         WaitedFor(before, indices, sends, polls(b), used[b], 512 * b, Min(512 * b + 512, |indices|))
  }

  lemma RoundAdvances(before: seq<Measurement>, here: seq<Measurement>, now: seq<Measurement>, indices: seq<nat>,
                      sends: nat -> Send, polls: nat -> seq<Poll>, used: seq<nat>, count: nat, start: nat, end: nat,
                      deadline: int)
    requires Injective(indices, |before|) && start < |indices| && end == BatchEnd(start, |indices|)
    requires RoundAt(before, here, indices, sends, polls, used, start) && |here| == |before|
    requires forall p :: start <= p < end ==> here[indices[p]].address == before[indices[p]].address
    requires count <= |polls(|used|)|
    requires BatchDone(here, now, indices, sends, polls(|used|)[..count], start, end)
    requires IsDeadline(sends, start, end, deadline)
    requires WaitsFor(here, indices, sends, polls(|used|), count, start, end, deadline)
    ensures RoundAt(before, now, indices, sends, polls, used + [count], end)
  {
    hide RoundSoFar, BatchDone, WaitsFor, WaitedFor, IsDeadline, Injective;
    RoundGrows(before, here, now, indices, sends, polls, used, count, start, end);
    SameWait(before, here, indices, sends, polls(|used|), count, start, end, deadline);
    assert start == 512 * |used| && end == Min(512 * |used| + 512, |indices|);
  }

  lemma NothingDone(before: seq<Measurement>, indices: seq<nat>, sends: nat -> Send, polls: nat -> seq<Poll>)
    requires Injective(indices, |before|)
    ensures RoundAt(before, before, indices, sends, polls, [], 0)
  {
  }

  lemma RoundIsDone(before: seq<Measurement>, now: seq<Measurement>, indices: seq<nat>, sends: nat -> Send,
                    polls: nat -> seq<Poll>, used: seq<nat>)
    requires Injective(indices, |before|) && RoundAt(before, now, indices, sends, polls, used, |indices|)
    ensures |now| == |before| && |used| == (|indices| + 511) / 512
    ensures forall b :: 0 <= b < |used| ==> used[b] <= |polls(b)|
    ensures forall b :: 0 <= b < |used| ==>
              WaitedFor(before, indices, sends, polls(b), used[b], 512 * b, Min(512 * b + 512, |indices|))
    ensures forall p :: 0 <= p < |indices| ==>
              && p / BATCH < |used| && indices[p] < |before|
              && now[indices[p]] == Outcome(Probed(before[indices[p]], sends(p)),
                  polls(p / BATCH)[..used[p / BATCH]], p)
  {
    hide Outcome, WaitedFor;
  }

  lemma UntouchedIsFresh(before: seq<Measurement>, here: seq<Measurement>, indices: seq<nat>, sends: nat -> Send,
                         polls: nat -> seq<Poll>, used: seq<nat>, start: nat, end: nat)
    requires Injective(indices, |before|) && start < |indices| && end == BatchEnd(start, |indices|)
    requires forall i :: 0 <= i < |before| ==> !before[i].responded
    requires RoundAt(before, here, indices, sends, polls, used, start)
    ensures start < end <= |indices|
    ensures |here| == |before|
    ensures forall p :: start <= p < end ==>
              !here[indices[p]].responded && here[indices[p]].address == before[indices[p]].address
  {
    hide Outcome;
  }

  lemma RoundIsConsistent(before: seq<Measurement>, now: seq<Measurement>, indices: seq<nat>, sends: nat -> Send,
                          polls: nat -> seq<Poll>, used: seq<nat>)
    requires Injective(indices, |before|) && indices == Pingable(before)
    requires forall i :: 0 <= i < |before| ==> !before[i].responded && Consistent(before[i])
    requires RoundAt(before, now, indices, sends, polls, used, |indices|)
    ensures |now| == |before|
    ensures forall i :: 0 <= i < |before| && !before[i].pingable ==> now[i] == before[i]
    ensures forall i :: 0 <= i < |before| ==> Consistent(now[i])
  {
    hide Outcome;
    forall i | 0 <= i < |before|
      ensures Consistent(now[i])
    {
      if i in indices {
        var p :| 0 <= p < |indices| && indices[p] == i;
        OutcomeIsConsistent(before[i], sends(p), polls(p / BATCH)[..used[p / BATCH]], p);
      }
    }
  }

  method CollectIndices(items: array<Measurement>) returns (indices: seq<nat>)
    ensures indices == Pingable(items[..])
    ensures Injective(indices, items.Length)
  {
    indices := [];
    for i := 0 to items.Length
      invariant indices == Pingable(items[..i])
    {
      assert items[..i + 1][..i] == items[..i];
      if items[i].pingable {
        indices := indices + [i];
      }
    }
    assert items[..items.Length] == items[..];
  }

  /** Positions below `start` show their outcome; every other item is untouched. */
  ghost predicate RoundSoFar(before: seq<Measurement>, now: seq<Measurement>, indices: seq<nat>, sends: nat -> Send,
                             polls: nat -> seq<Poll>, used: seq<nat>, start: nat)
    requires Injective(indices, |before|) && start <= |indices|
    requires forall b :: 0 <= b < |used| ==> used[b] <= |polls(b)|
  {
    && |now| == |before|
    && (forall p :: 0 <= p < start ==>
         && p / BATCH < |used|
         && now[indices[p]] == Outcome(Probed(before[indices[p]], sends(p)), polls(p / BATCH)[..used[p / BATCH]], p))
    && (forall i :: 0 <= i < |before| && (forall p :: 0 <= p < start ==> indices[p] != i) ==> now[i] == before[i])
  }

  lemma RoundGrows(before: seq<Measurement>, here: seq<Measurement>, now: seq<Measurement>, indices: seq<nat>,
                   sends: nat -> Send, polls: nat -> seq<Poll>, used: seq<nat>, count: nat, start: nat, end: nat)
    requires Injective(indices, |before|) && start < end <= |indices|
    requires start == BATCH * |used| && end <= start + BATCH
    requires forall b :: 0 <= b < |used| ==> used[b] <= |polls(b)|
    requires count <= |polls(|used|)|
    requires RoundSoFar(before, here, indices, sends, polls, used, start)
    requires BatchDone(here, now, indices, sends, polls(|used|)[..count], start, end)
    ensures RoundSoFar(before, now, indices, sends, polls, used + [count], end)
  {
    var more := used + [count];
    forall p | 0 <= p < end
      ensures p / BATCH < |more|
      ensures now[indices[p]] == Outcome(Probed(before[indices[p]], sends(p)), polls(p / BATCH)[..more[p / BATCH]], p)
    {
      if p < start {
        assert now[indices[p]] == here[indices[p]];
      } else {
        assert p / BATCH == |used|;
        assert here[indices[p]] == before[indices[p]];
      }
    }
    forall i | 0 <= i < |before| && forall p :: 0 <= p < end ==> indices[p] != i
      ensures now[i] == before[i]
    {
      assert forall p :: 0 <= p < start ==> indices[p] != i;
      assert here[i] == before[i];
    }
  }
}
