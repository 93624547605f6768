/**
 * MainService.syncOfflineQueue: replays a snapshot of the offline queue in
 * order, decides for every dispatched item whether it is done, kept for a
 * later run, or stops the run, then dequeues exactly the done items.
 */
module SyncEngine {
  import opened Options
  import opened Entities
  import opened Remote
  import opened SyncItems
  import opened OfflineQueue

  /** What the loop makes of an item after its replay. */
  datatype Disposition =
    | Completed                  // added to the items to dequeue
    | Kept(error: ErrorType)     // stays queued; the run goes on
    | Stopped(error: ErrorType)  // stays queued; the run ends with this error

  /** Every kind of item takes a remote NOT_FOUND as done, except ADD_LINK. */
  predicate ToleratesNotFound(p: Payload) {
    !p.AddLinkItem?
  }

  /**
   * The decision after the catch clauses: a tolerated NOT_FOUND is dropped
   * to null; a null result completes the item; NOT_FOUND_LOCALLY and
   * NEGATIVE_RESPONSE keep it without stopping; every other error stops.
   */
  function Dispose(tolerant: bool, result: Option<ErrorType>): (d: Disposition)
    ensures d.Completed? <==> result.None? || (tolerant && result == Some(NotFound))
    ensures d.Kept? <==> result == Some(NotFoundLocally) || result == Some(NegativeResponse)
    ensures !d.Completed? ==> result.Some? && d.error == result.value
  {
    match result
    case None => Completed
    case Some(e) =>
      if e == NotFound && tolerant then Completed
      else if e == NotFoundLocally || e == NegativeResponse then Kept(e)
      else Stopped(e)
  }

  /** The disposition of an item replayed from `store` with transcript `log`. */
  function Decide(env: Env, step: Step, item: QueueItem): Disposition {
    Dispose(ToleratesNotFound(item.payload), ItemResult(env, step.outcome))
  }

  /** The loop's state: store, transcript, one disposition per dispatched item, upload flag. */
  datatype RunState = RunState(store: Store, log: seq<Exchange>, trace: seq<Disposition>, uploaded: bool)

  predicate NoStop(trace: seq<Disposition>) {
    forall j :: 0 <= j < |trace| ==> !trace[j].Stopped?
  }

  /**
   * The trace of a loop over `n` items: only the last dispatched item may
   * have stopped the run, and items are left undispatched only after a stop.
   */
  predicate FinishedTrace(trace: seq<Disposition>, n: nat) {
    && |trace| <= n
    && (forall j :: 0 <= j < |trace| - 1 ==> !trace[j].Stopped?)
    && (|trace| < n ==> |trace| > 0 && trace[|trace| - 1].Stopped?)
  }

  /** An exchange in `log` from position `from` on uploaded a link. */
  predicate UploadedSince(log: seq<Exchange>, from: nat) {
    exists k :: from <= k < |log| && UploadedLink(log[k])
  }

  /** Every add-article call in `log` from position `from` on carried a non-empty url. */
  predicate LinksNonEmptySince(log: seq<Exchange>, from: nat) {
    forall k :: from <= k < |log| && log[k].call.AddArticle? ==> |log[k].call.url| > 0
  }

  /** Replaying one item, as a function of the store and transcript it starts from. */
  function Dispatcher(env: Env): (Store, seq<Exchange>, QueueItem) -> Step {
    (store: Store, log: seq<Exchange>, item: QueueItem) => Dispatch(env, store, log, item)
  }

  /**
   * From position `from` on, `trace` is what the loop decides for the items
   * of `items` when `dispatch` replays each one from the store and
   * transcript the one before it left, the first of them from `store` and
   * `log`; `endStore` and `endLog` are the state left after the last.
   */
  predicate ChainFrom(env: Env, dispatch: (Store, seq<Exchange>, QueueItem) -> Step, items: seq<QueueItem>,
                      trace: seq<Disposition>, from: nat, store: Store, log: seq<Exchange>,
                      endStore: Store, endLog: seq<Exchange>)
    decreases |trace| - from
  {
    if from >= |trace| then endStore == store && endLog == log
    else
      && from < |items|
      && var step := dispatch(store, log, items[from]);
         && trace[from] == Decide(env, step, items[from])
         && ChainFrom(env, dispatch, items, trace, from + 1, step.store, step.log, endStore, endLog)
  }

  /**
   * What a replay from `st` that ended in `r` promises: the trace and the
   * transcript only grow, the trace is a finished loop's, the upload flag
   * records a link call that returned, every link call carried a url, the
   * store stays valid, and each new disposition is the decision for its item
   * dispatched from the state the item before it left.
   */
  predicate Continues(env: Env, snapshot: seq<QueueItem>, st: RunState, r: RunState) {
    && |st.trace| <= |r.trace| && r.trace[..|st.trace|] == st.trace
    && FinishedTrace(r.trace, |snapshot|)
    && |st.log| <= |r.log| && r.log[..|st.log|] == st.log
    && (r.uploaded <==> st.uploaded || UploadedSince(r.log, |st.log|))
    && LinksNonEmptySince(r.log, |st.log|)
    && (Valid(st.store) ==> Valid(r.store))
    && ChainFrom(env, Dispatcher(env), snapshot, r.trace, |st.trace|, st.store, st.log, r.store, r.log)
  }

  /** The state after dispatching the next item and recording its disposition. */
  function Advance(env: Env, snapshot: seq<QueueItem>, st: RunState): RunState
    requires |st.trace| < |snapshot|
  {
    var item := snapshot[|st.trace|];
    var step := Dispatch(env, st.store, st.log, item);
    RunState(step.store, step.log, st.trace + [Decide(env, step, item)], st.uploaded || step.uploaded)
  }

  /** The for loop of syncOfflineQueue, from the item after the ones `st` has dispatched. */
  function Replay(env: Env, snapshot: seq<QueueItem>, st: RunState): (r: RunState)
    requires |st.trace| <= |snapshot| && NoStop(st.trace)
    ensures |st.trace| <= |r.trace| && r.trace[..|st.trace|] == st.trace
    ensures FinishedTrace(r.trace, |snapshot|)
    ensures |st.log| <= |r.log| && r.log[..|st.log|] == st.log
    ensures r.uploaded <==> st.uploaded || UploadedSince(r.log, |st.log|)
    ensures LinksNonEmptySince(r.log, |st.log|)
    ensures Valid(st.store) ==> Valid(r.store)
    ensures ChainFrom(env, Dispatcher(env), snapshot, r.trace, |st.trace|, st.store, st.log, r.store, r.log)
    decreases |snapshot| - |st.trace|
  {
    if |st.trace| == |snapshot| then
      ReplayDone(env, snapshot, st);
      st
    else
      var next := Advance(env, snapshot, st);
      if next.trace[|st.trace|].Stopped? then
        ReplayStop(env, snapshot, st);
        next
      else
        assert NoStop(next.trace);
        var r := Replay(env, snapshot, next);
        ReplayStep(env, snapshot, st, r);
        r
  }

  /** With every item dispatched, the state itself ends the replay. */
  lemma ReplayDone(env: Env, snapshot: seq<QueueItem>, st: RunState)
    requires |st.trace| == |snapshot| && NoStop(st.trace)
    ensures Continues(env, snapshot, st, st)
  {
  }

  /** An item that stops the run ends the replay right after it. */
  lemma ReplayStop(env: Env, snapshot: seq<QueueItem>, st: RunState)
    requires |st.trace| < |snapshot| && NoStop(st.trace)
    requires Advance(env, snapshot, st).trace[|st.trace|].Stopped?
    ensures Continues(env, snapshot, st, Advance(env, snapshot, st))
  {
    var next := Advance(env, snapshot, st);
    assert next.trace[..|st.trace|] == st.trace;
    assert next.log[..|st.log|] == st.log;
  }

  /** A replay that goes on from the next state keeps every promise for this one. */
  lemma ReplayStep(env: Env, snapshot: seq<QueueItem>, st: RunState, r: RunState)
    requires |st.trace| < |snapshot| && NoStop(st.trace)
    requires Continues(env, snapshot, Advance(env, snapshot, st), r)
    ensures Continues(env, snapshot, st, r)
  {
    var item := snapshot[|st.trace|];
    var step := Dispatch(env, st.store, st.log, item);
    var next := Advance(env, snapshot, st);
    LogSteps(st.log, step.log, r.log);
    TraceSteps(st.trace, Decide(env, step, item), r.trace);
  }

  /** Transcripts that extend one another: what holds from `a` on is what holds up to `b` and from `b` on. */
  lemma LogSteps(a: seq<Exchange>, b: seq<Exchange>, c: seq<Exchange>)
    requires |a| <= |b| <= |c| && b[..|a|] == a && c[..|b|] == b
    ensures c[..|a|] == a
    ensures UploadedSince(c, |a|) <==> UploadedSince(b, |a|) || UploadedSince(c, |b|)
    ensures LinksNonEmptySince(b, |a|) && LinksNonEmptySince(c, |b|) ==> LinksNonEmptySince(c, |a|)
  {
    assert c[..|a|] == c[..|b|][..|a|];
    assert forall k :: |a| <= k < |b| ==> c[k] == b[k] by {
      forall k | |a| <= k < |b| ensures c[k] == b[k] {
        assert c[k] == c[..|b|][k];
      }
    }
  }

  /** A trace that extends `a + [d]` extends `a`, with `d` next. */
  lemma TraceSteps(a: seq<Disposition>, d: Disposition, c: seq<Disposition>)
    requires |a| + 1 <= |c| && c[..|a| + 1] == a + [d]
    ensures c[..|a|] == a && c[|a|] == d
  {
    assert c[..|a|] == c[..|a| + 1][..|a|];
    assert c[|a|] == c[..|a| + 1][|a|];
  }

  /** The snapshot items the loop completed, in snapshot order. */
  function CompletedItems(items: seq<QueueItem>, trace: seq<Disposition>): (c: seq<QueueItem>)
    requires |trace| <= |items|
    ensures |c| <= |trace|
  {
    if trace == [] then []
    else (if trace[0].Completed? then [items[0]] else []) + CompletedItems(items[1..], trace[1..])
  }

  /** The snapshot items the loop did not complete (the undispatched ones included), in snapshot order. */
  function RemainingItems(items: seq<QueueItem>, trace: seq<Disposition>): seq<QueueItem>
    requires |trace| <= |items|
  {
    if trace == [] then items
    else (if trace[0].Completed? then [] else [items[0]]) + RemainingItems(items[1..], trace[1..])
  }

  /** A SyncQueueProgressEvent: (current, total). */
  datatype ProgressEvent = ProgressEvent(current: nat, total: nat)

  /** The progress events as posted: the counter is declared but never advanced. */
  function ProgressAsWritten(total: nat, dispatched: nat): (ps: seq<ProgressEvent>)
    ensures |ps| == dispatched
    ensures forall i :: 0 <= i < dispatched ==> ps[i].total == total && ps[i].current == 0
  {
    seq(dispatched, i => ProgressEvent(0, total))
  }

  /** The progress events as intended: the i-th dispatched item reports index i. */
  function Progress(total: nat, dispatched: nat): (ps: seq<ProgressEvent>)
    requires dispatched <= total
    ensures |ps| == dispatched
    ensures forall i :: 0 <= i < dispatched ==> ps[i].total == total && ps[i].current < total
    ensures forall i, j :: 0 <= i < j < dispatched ==> ps[i].current < ps[j].current
  {
    seq(dispatched, (i: int) requires 0 <= i < dispatched => ProgressEvent(i, total))
  }

  /** The posted events agree with the intended ones in everything but the position, which stays 0. */
  lemma ProgressDiffersOnlyInPosition(total: nat, dispatched: nat)
    requires dispatched <= total
    ensures |ProgressAsWritten(total, dispatched)| == |Progress(total, dispatched)|
    ensures forall i :: 0 <= i < dispatched ==>
      ProgressAsWritten(total, dispatched)[i] == Progress(total, dispatched)[i].(current := 0)
  {
  }

  /** Two dispatched items already show the stalled counter: both report position 0. */
  lemma ProgressAsWrittenStalls(total: nat)
    requires total >= 2
    ensures ProgressAsWritten(total, 2)[0].current == ProgressAsWritten(total, 2)[1].current
    ensures !(forall i, j :: 0 <= i < j < 2 ==> ProgressAsWritten(total, 2)[i].current < ProgressAsWritten(total, 2)[j].current)
  {
    assert ProgressAsWritten(total, 2)[0].current == 0 == ProgressAsWritten(total, 2)[1].current;
  }

  /** What one syncOfflineQueue call produces. */
  datatype SyncReport = SyncReport(
    result: Option<ErrorType>,    // None: success
    length: Option<nat>,          // the queue length returned alongside the result
    queue: seq<QueueItem>,        // the queue afterwards
    store: Store,                 // the local database afterwards
    log: seq<Exchange>,           // every remote exchange, in order
    trace: seq<Disposition>,      // one disposition per dispatched item
    progress: seq<ProgressEvent>, // SyncQueueProgressEvents, as posted
    queueChanged: Option<nat>,    // OfflineQueueChangedEvent after the dequeue
    linkUploaded: bool)           // LinkUploadedEvent

  /**
   * syncOfflineQueue. Offline, it returns NO_NETWORK with a null length and
   * reads nothing. Online, it replays the whole queue as a snapshot, then
   * dequeues the completed items in one transaction (only if there are any)
   * and reports the length after the dequeue, or the snapshot's size.
   */
  function SyncOfflineQueue(env: Env, online: bool, queue: seq<QueueItem>, store: Store): (r: SyncReport)
    ensures !online ==> r == SyncReport(Some(NoNetwork), None, queue, store, [], [], [], None, false)
    ensures online ==> FinishedTrace(r.trace, |queue|)
    ensures online ==> (r.result.None? <==> NoStop(r.trace))
    ensures online && r.result.Some? ==> |r.trace| > 0 && r.trace[|r.trace| - 1] == Stopped(r.result.value)
    ensures online ==> r.length == Some(|r.queue|)
    ensures online ==> (r.queueChanged.Some? <==> CompletedItems(queue, r.trace) != [])
    ensures online && r.queueChanged.Some? ==> r.queueChanged == r.length
    ensures online && CompletedItems(queue, r.trace) == [] ==> r.queue == queue
    ensures online && CompletedItems(queue, r.trace) != [] ==> r.queue == Dequeue(queue, CompletedItems(queue, r.trace))
    ensures online && DistinctIds(queue) ==> r.queue == RemainingItems(queue, r.trace)
    ensures r.linkUploaded <==> UploadedSince(r.log, 0)
    ensures LinksNonEmptySince(r.log, 0)
    ensures online ==> r.progress == ProgressAsWritten(|queue|, |r.trace|)
    ensures Valid(store) ==> Valid(r.store)
    ensures online ==> ChainFrom(env, Dispatcher(env), queue, r.trace, 0, store, [], r.store, r.log)
  {
    if !online then
      SyncReport(Some(NoNetwork), None, queue, store, [], [], [], None, false)
    else
      var run := Replay(env, queue, RunState(store, [], [], false));
      var trace := run.trace;
      StopEndsFinishedTrace(trace, |queue|);
      var result := if |trace| > 0 && trace[|trace| - 1].Stopped? then Some(trace[|trace| - 1].error) else None;
      var completed := CompletedItems(queue, trace);
      var after := if completed == [] then queue else Dequeue(queue, completed);
      QueueAfterRun(queue, trace);
      SyncReport(result, Some(|after|), after, run.store, run.log, trace, ProgressAsWritten(|queue|, |trace|),
                 if completed == [] then None else Some(|after|), run.uploaded)
  }

  /** A finished trace stopped somewhere exactly when its last disposition is a stop. */
  lemma StopEndsFinishedTrace(trace: seq<Disposition>, n: nat)
    requires FinishedTrace(trace, n)
    ensures NoStop(trace) <==> !(|trace| > 0 && trace[|trace| - 1].Stopped?)
  {
    if !NoStop(trace) {
      var j :| 0 <= j < |trace| && trace[j].Stopped?;
      assert j == |trace| - 1;
    }
  }

  /** The queue a run leaves behind is the remaining items when row ids are distinct. */
  lemma QueueAfterRun(queue: seq<QueueItem>, trace: seq<Disposition>)
    requires |trace| <= |queue|
    ensures var completed := CompletedItems(queue, trace);
      DistinctIds(queue) ==>
        (if completed == [] then queue else Dequeue(queue, completed)) == RemainingItems(queue, trace)
  {
    if DistinctIds(queue) {
      DequeueRemovesExactlyCompleted(queue, trace);
      if CompletedItems(queue, trace) == [] {
        NothingCompletedKeepsAll(queue, trace);
      }
    }
  }

  /** `a` is `b` with some elements left out, the rest in their order. */
  predicate SubsequenceOf(a: seq<QueueItem>, b: seq<QueueItem>)
    decreases |b|
  {
    || a == []
    || (b != [] && ((a[0] == b[0] && SubsequenceOf(a[1..], b[1..])) || SubsequenceOf(a, b[1..])))
  }

  /** The completed list is a subsequence of the dispatched part of the snapshot, in snapshot order. */
  lemma {:induction false} CompletedInSnapshotOrder(items: seq<QueueItem>, trace: seq<Disposition>)
    requires |trace| <= |items|
    ensures SubsequenceOf(CompletedItems(items, trace), items[..|trace|])
  {
    if trace != [] {
      CompletedInSnapshotOrder(items[1..], trace[1..]);
      var c := CompletedItems(items[1..], trace[1..]);
      assert items[..|trace|][1..] == items[1..][..|trace| - 1];
      if trace[0].Completed? {
        assert CompletedItems(items, trace) == [items[0]] + c;
        assert ([items[0]] + c)[1..] == c;
      } else {
        assert CompletedItems(items, trace) == c;
      }
    }
  }

  /** Completed and remaining items split the snapshot. */
  lemma {:induction false} CompletedAndRemainingSplit(items: seq<QueueItem>, trace: seq<Disposition>)
    requires |trace| <= |items|
    ensures |CompletedItems(items, trace)| + |RemainingItems(items, trace)| == |items|
    ensures multiset(CompletedItems(items, trace)) + multiset(RemainingItems(items, trace)) == multiset(items)
  {
    if trace != [] {
      CompletedAndRemainingSplit(items[1..], trace[1..]);
      assert items == [items[0]] + items[1..];
    }
  }

  /** A completed item is a snapshot item at a dispatched position. */
  lemma {:induction false} CompletedComeFromPrefix(items: seq<QueueItem>, trace: seq<Disposition>)
    requires |trace| <= |items|
    ensures forall x :: x in CompletedItems(items, trace) ==> x in items[..|trace|]
  {
    if trace != [] {
      CompletedComeFromPrefix(items[1..], trace[1..]);
      forall x | x in CompletedItems(items, trace) ensures x in items[..|trace|] {
        if x != items[0] {
          assert x in CompletedItems(items[1..], trace[1..]);
          assert x in items[1..][..|trace| - 1];
          assert items[1..][..|trace| - 1] == items[1..|trace|];
        }
      }
    }
  }

  /** Dropping ids no row of `q` carries changes nothing. */
  lemma {:induction false} DropForeignIds(q: seq<QueueItem>, ids: set<int>, foreign: set<int>)
    requires forall x :: x in q ==> x.id !in foreign
    ensures DropIds(q, ids + foreign) == DropIds(q, ids)
  {
    if q != [] {
      DropForeignIds(q[1..], ids, foreign);
    }
  }

  /** With distinct row ids, the rows after the first are distinct and none shares the first row's id. */
  lemma DistinctTail(items: seq<QueueItem>)
    requires items != [] && DistinctIds(items)
    ensures DistinctIds(items[1..])
    ensures forall x :: x in items[1..] ==> x.id != items[0].id
  {
    var tail := items[1..];
    forall i, j | 0 <= i < j < |tail| ensures tail[i].id != tail[j].id {
      assert tail[i] == items[i + 1] && tail[j] == items[j + 1];
    }
    forall x | x in tail ensures x.id != items[0].id {
      var j :| 0 <= j < |tail| && tail[j] == x;
      assert items[j + 1] == x;
    }
  }

  /**
   * With distinct row ids, dequeueing the completed items leaves exactly the
   * items that were not completed, in their snapshot order.
   */
  lemma {:induction false} DequeueRemovesExactlyCompleted(items: seq<QueueItem>, trace: seq<Disposition>)
    requires |trace| <= |items| && DistinctIds(items)
    ensures Dequeue(items, CompletedItems(items, trace)) == RemainingItems(items, trace)
  {
    if trace == [] {
      assert IdsOf([]) == {};
      NoIdsDropsNothing(items);
    } else {
      var tail := items[1..];
      DistinctTail(items);
      DequeueRemovesExactlyCompleted(tail, trace[1..]);
      var c := CompletedItems(tail, trace[1..]);
      assert items[0].id !in IdsOf(c) by {
        CompletedComeFromPrefix(tail, trace[1..]);
        forall x | x in c ensures x in tail {
          assert x in tail[..|trace| - 1];
        }
      }
      assert items == [items[0]] + tail;
      if trace[0].Completed? {
        assert CompletedItems(items, trace) == [items[0]] + c;
        assert IdsOf([items[0]] + c) == IdsOf(c) + {items[0].id};
        DropForeignIds(tail, IdsOf(c), {items[0].id});
      } else {
        assert CompletedItems(items, trace) == c;
      }
    }
  }

  /** Dequeueing nothing leaves the queue as it is. */
  lemma {:induction false} NoIdsDropsNothing(q: seq<QueueItem>)
    ensures DropIds(q, {}) == q
  {
    if q != [] {
      NoIdsDropsNothing(q[1..]);
      assert q == [q[0]] + q[1..];
    }
  }

  /** When nothing completed, every snapshot item remains. */
  lemma {:induction false} NothingCompletedKeepsAll(items: seq<QueueItem>, trace: seq<Disposition>)
    requires |trace| <= |items|
    requires CompletedItems(items, trace) == []
    ensures RemainingItems(items, trace) == items
  {
    if trace != [] {
      assert !trace[0].Completed?;
      assert CompletedItems(items[1..], trace[1..]) == [];
      NothingCompletedKeepsAll(items[1..], trace[1..]);
      assert items == [items[0]] + items[1..];
    }
  }

  /** Completions of a run that stopped at its last item come from the items before it. */
  lemma {:induction false} StopCompletesOnlyBefore(items: seq<QueueItem>, trace: seq<Disposition>)
    requires 0 < |trace| <= |items| && trace[|trace| - 1].Stopped?
    ensures CompletedItems(items, trace) == CompletedItems(items[..|trace| - 1], trace[..|trace| - 1])
  {
    var k := |trace| - 1;
    if k == 0 {
      assert CompletedItems(items[1..], trace[1..]) == [];
    } else {
      StopCompletesOnlyBefore(items[1..], trace[1..]);
      assert items[1..][..k - 1] == items[..k][1..];
      assert trace[1..][..k - 1] == trace[..k][1..];
    }
  }

  /** The stopping item and all after it stay queued behind what remains of the items before it. */
  lemma {:induction false} StopRemainsWithSuffix(items: seq<QueueItem>, trace: seq<Disposition>)
    requires 0 < |trace| <= |items| && trace[|trace| - 1].Stopped?
    ensures RemainingItems(items, trace) == RemainingItems(items[..|trace| - 1], trace[..|trace| - 1]) + items[|trace| - 1..]
  {
    var k := |trace| - 1;
    if k == 0 {
      assert RemainingItems(items[1..], trace[1..]) == items[1..];
      assert items == [items[0]] + items[1..];
    } else {
      StopRemainsWithSuffix(items[1..], trace[1..]);
      assert items[1..][..k - 1] == items[..k][1..];
      assert trace[1..][..k - 1] == trace[..k][1..];
      assert items[1..][k - 1..] == items[k..];
    }
  }

  /**
   * A run stopped by item k: only items before k can have completed, and
   * item k and every later item stay queued, in order.
   */
  lemma StopKeepsItemAndSuffix(items: seq<QueueItem>, trace: seq<Disposition>)
    requires 0 < |trace| <= |items| && trace[|trace| - 1].Stopped?
    ensures var k := |trace| - 1;
      && CompletedItems(items, trace) == CompletedItems(items[..k], trace[..k])
      && RemainingItems(items, trace) == RemainingItems(items[..k], trace[..k]) + items[k..]
  {
    StopCompletesOnlyBefore(items, trace);
    StopRemainsWithSuffix(items, trace);
  }

  /** No item is left queued silently: a run that did not stop kept only items whose error was soft. */
  lemma {:induction false} UnstoppedRunKeepsOnlySoftErrors(items: seq<QueueItem>, trace: seq<Disposition>)
    requires |trace| == |items| && NoStop(trace)
    ensures forall x :: x in RemainingItems(items, trace) ==>
      exists j :: 0 <= j < |trace| && items[j] == x && trace[j].Kept?
  {
    if trace != [] {
      var tail := items[1..];
      UnstoppedRunKeepsOnlySoftErrors(tail, trace[1..]);
      forall x | x in RemainingItems(items, trace)
        ensures exists j :: 0 <= j < |trace| && items[j] == x && trace[j].Kept?
      {
        if trace[0].Completed? || x != items[0] || !trace[0].Kept? {
          assert x in RemainingItems(tail, trace[1..]);
          var j :| 0 <= j < |trace[1..]| && tail[j] == x && trace[1..][j].Kept?;
          assert items[j + 1] == x && trace[j + 1].Kept?;
        }
      }
    }
  }

  /** An ADD_LINK item with an empty url makes no call and counts as done. */
  lemma EmptyLinkCompletes(env: Env, store: Store, log: seq<Exchange>, item: QueueItem)
    requires item.payload.AddLinkItem? && item.payload.url == ""
    ensures Dispatch(env, store, log, item).log == log
    ensures Decide(env, Dispatch(env, store, log, item), item) == Completed
  {
  }

  /** ADD_LINK never takes a remote NOT_FOUND as done; every other kind does. */
  lemma NotFoundToleratedExceptAddLink(env: Env, step: Step, item: QueueItem)
    requires ItemResult(env, step.outcome) == Some(NotFound)
    ensures Decide(env, step, item) == (if item.payload.AddLinkItem? then Stopped(NotFound) else Completed)
  {
  }

  /** An exception outside the four caught classes becomes UNKNOWN and stops the run. */
  lemma UncaughtExceptionStops(env: Env, store: Store, log: seq<Exchange>, item: QueueItem)
    ensures Decide(env, Step(store, log, Raised(Unchecked), false), item) == Stopped(Unknown)
  {
  }

  /** The SyncQueueFinishedEvent of onHandleIntent: (result, length). */
  datatype SyncFinished = SyncFinished(result: Option<ErrorType>, length: Option<nat>)

  /**
   * The SYNC_QUEUE branch of onHandleIntent: `run` is None when
   * syncOfflineQueue threw instead of returning, and then the result
   * defaults to UNKNOWN with a null length.
   */
  function FinishSync(run: Option<SyncReport>): (f: SyncFinished)
    ensures run.None? ==> f.result == Some(Unknown) && f.length.None?
    ensures run.Some? ==> f.result == run.value.result && f.length == run.value.length
  {
    match run
    case None => SyncFinished(Some(Unknown), None)
    case Some(report) => SyncFinished(report.result, report.length)
  }

  /**
   * What the SYNC_QUEUE branch reports for a run that returns: offline,
   * NO_NETWORK with a null length; online, success exactly when no item
   * stopped the run, and the length of the queue the run left.
   */
  lemma SyncFinishedReportsRun(env: Env, online: bool, queue: seq<QueueItem>, store: Store)
    ensures var r := SyncOfflineQueue(env, online, queue, store);
      var f := FinishSync(Some(r));
      && (!online ==> f == SyncFinished(Some(NoNetwork), None))
      && (online ==> f.length == Some(|r.queue|) && (f.result.None? <==> NoStop(r.trace)))
      && (online && DistinctIds(queue) ==> f.length == Some(|RemainingItems(queue, r.trace)|))
  {
  }

  /**
   * A server that answers the first call with status 400 and every later
   * call with 500, where processException classifies a 400 as
   * NEGATIVE_RESPONSE and anything else as a server error.
   */
  function RejectThenFail(): Env {
    Env(
      (log: seq<Exchange>) => None,
      (log: seq<Exchange>, c: Call) =>
        if |log| == 0 then Raise(UnsuccessfulResponse(400, "")) else Raise(UnsuccessfulResponse(500, "")),
      (e: Exception) =>
        if e.UnsuccessfulResponse? && e.code == 400 then Some(NegativeResponse) else Some(OtherError(500)))
  }

  /** Two queued deletions of article 7. */
  function TwoDeletions(): seq<QueueItem> {
    [QueueItem(1, Some(7), DeleteArticleItem), QueueItem(2, Some(7), DeleteArticleItem)]
  }

  /** Against that server, the first deletion is kept and the second stops the loop. */
  lemma RejectThenFailReplay(store: Store)
    ensures Replay(RejectThenFail(), TwoDeletions(), RunState(store, [], [], false)).trace
      == [Kept(NegativeResponse), Stopped(OtherError(500))]
  {
    var env := RejectThenFail();
    var queue := TwoDeletions();
    var first := Dispatch(env, store, [], queue[0]);
    assert Decide(env, first, queue[0]) == Kept(NegativeResponse);
    var st := RunState(first.store, first.log, [Kept(NegativeResponse)], false);
    var second := Dispatch(env, st.store, st.log, queue[1]);
    assert Decide(env, second, queue[1]) == Stopped(OtherError(500));
    assert Replay(env, queue, st).trace == [Kept(NegativeResponse), Stopped(OtherError(500))];
    assert Replay(env, queue, RunState(store, [], [], false)) == Replay(env, queue, st);
  }

  /**
   * processException sees the exception's content, so one run can keep an
   * item the server rejected (NEGATIVE_RESPONSE) and then stop on the next
   * item's server error; both items stay queued.
   */
  lemma RejectionThenServerError(store: Store)
    ensures var r := SyncOfflineQueue(RejectThenFail(), true, TwoDeletions(), store);
      && r.trace == [Kept(NegativeResponse), Stopped(OtherError(500))]
      && r.result == Some(OtherError(500))
      && r.queue == TwoDeletions()
  {
    var queue := TwoDeletions();
    var trace := [Kept(NegativeResponse), Stopped(OtherError(500))];
    RejectThenFailReplay(store);
    assert CompletedItems(queue[1..], trace[1..]) == [];
    assert CompletedItems(queue, trace) == [];
  }
}
