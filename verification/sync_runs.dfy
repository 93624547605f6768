/**
 * What one syncOfflineQueue run does with each item, stated through the
 * replies the items get: item j is dispatched from the store and transcript
 * the first j items left, and its reply decides whether it is dequeued,
 * kept for a later run, or stops the run.
 */
module SyncRuns {
  import opened Options
  import opened Entities
  import opened Remote
  import opened SyncItems
  import opened OfflineQueue
  import opened SyncEngine

  /** A point between two items of a run: the local database and the transcript so far. */
  datatype Checkpoint = Checkpoint(store: Store, log: seq<Exchange>)

  /** How one item is replayed from a store and transcript. */
  type Dispatching = (Store, seq<Exchange>, QueueItem) -> Step

  /** The state after `dispatch` replays the first `n` items in order, each from the state the one before left. */
  function After(dispatch: Dispatching, items: seq<QueueItem>, store: Store, log: seq<Exchange>, n: nat): Checkpoint
    requires n <= |items|
    decreases n
  {
    if n == 0 then Checkpoint(store, log)
    else
      var p := After(dispatch, items, store, log, n - 1);
      var step := dispatch(p.store, p.log, items[n - 1]);
      Checkpoint(step.store, step.log)
  }

  /** What item `j` does when it is replayed after the items before it. */
  function ItemStep(dispatch: Dispatching, items: seq<QueueItem>, store: Store, log: seq<Exchange>, j: nat): Step
    requires j < |items|
  {
    var p := After(dispatch, items, store, log, j);
    dispatch(p.store, p.log, items[j])
  }

  /** A chain read from position `from`, which starts at the state after the first `from` items, decides every later item by its own step. */
  lemma {:induction false} ChainDecides(env: Env, dispatch: Dispatching, items: seq<QueueItem>, store: Store, log: seq<Exchange>,
                                        trace: seq<Disposition>, from: nat, endStore: Store, endLog: seq<Exchange>)
    requires from <= |trace| && from <= |items|
    requires var p := After(dispatch, items, store, log, from);
      ChainFrom(env, dispatch, items, trace, from, p.store, p.log, endStore, endLog)
    ensures |trace| <= |items|
    ensures forall j :: from <= j < |trace| ==> trace[j] == Decide(env, ItemStep(dispatch, items, store, log, j), items[j])
    ensures After(dispatch, items, store, log, |trace|) == Checkpoint(endStore, endLog)
    decreases |trace| - from
  {
    if from < |trace| {
      var p := After(dispatch, items, store, log, from);
      var step := dispatch(p.store, p.log, items[from]);
      assert After(dispatch, items, store, log, from + 1) == Checkpoint(step.store, step.log);
      ChainDecides(env, dispatch, items, store, log, trace, from + 1, endStore, endLog);
    }
  }

  /** `result` is the error of the stop that ended `trace`, and nothing when no item stopped. */
  predicate ResultIsLastStop(trace: seq<Disposition>, result: Option<ErrorType>) {
    && (result.None? <==> NoStop(trace))
    && (result.Some? ==> |trace| > 0 && trace[|trace| - 1] == Stopped(result.value))
  }

  /** An online run returns the error of its last stop. */
  lemma RunResultIsLastStop(env: Env, queue: seq<QueueItem>, store: Store)
    ensures var r := SyncOfflineQueue(env, true, queue, store);
      ResultIsLastStop(r.trace, r.result)
  {
  }

  /**
   * The link between a run and the replies: each dispatched item's
   * disposition is the decision for its own step, the run ends in the state
   * its dispatched items left, and a run that stopped returns the stopping
   * item's error.
   */
  lemma RunDecidesEachItem(env: Env, queue: seq<QueueItem>, store: Store)
    ensures var r := SyncOfflineQueue(env, true, queue, store);
      && (forall j :: 0 <= j < |r.trace| ==> r.trace[j] == Decide(env, ItemStep(Dispatcher(env), queue, store, [], j), queue[j]))
      && After(Dispatcher(env), queue, store, [], |r.trace|) == Checkpoint(r.store, r.log)
      && (r.result.Some? ==> r.result == ItemResult(env, ItemStep(Dispatcher(env), queue, store, [], |r.trace| - 1).outcome))
  {
    RunDecidesItems(env, queue, store);
    RunEndsAfterItems(env, queue, store);
    RunFailsWithLastItem(env, queue, store);
  }

  /** The per-item half of the link. */
  lemma RunDecidesItems(env: Env, queue: seq<QueueItem>, store: Store)
    ensures var r := SyncOfflineQueue(env, true, queue, store);
      forall j :: 0 <= j < |r.trace| ==> r.trace[j] == Decide(env, ItemStep(Dispatcher(env), queue, store, [], j), queue[j])
  {
    var r := SyncOfflineQueue(env, true, queue, store);
    ChainDecides(env, Dispatcher(env), queue, store, [], r.trace, 0, r.store, r.log);
  }

  /** The end-state half of the link. */
  lemma RunEndsAfterItems(env: Env, queue: seq<QueueItem>, store: Store)
    ensures var r := SyncOfflineQueue(env, true, queue, store);
      After(Dispatcher(env), queue, store, [], |r.trace|) == Checkpoint(r.store, r.log)
  {
    var r := SyncOfflineQueue(env, true, queue, store);
    ChainDecides(env, Dispatcher(env), queue, store, [], r.trace, 0, r.store, r.log);
  }

  /** The result half of the link. */
  lemma RunFailsWithLastItem(env: Env, queue: seq<QueueItem>, store: Store)
    ensures var r := SyncOfflineQueue(env, true, queue, store);
      r.result.Some? ==> r.result == ItemResult(env, ItemStep(Dispatcher(env), queue, store, [], |r.trace| - 1).outcome)
  {
    var r := SyncOfflineQueue(env, true, queue, store);
    RunResultIsLastStop(env, queue, store);
    ChainResult(env, Dispatcher(env), queue, store, r.trace, r.store, r.log, r.result);
  }

  /** In any chain of replies whose result is its last stop, that result is the stopping item's error. */
  lemma ChainResult(env: Env, dispatch: Dispatching, items: seq<QueueItem>, store: Store,
                    trace: seq<Disposition>, endStore: Store, endLog: seq<Exchange>, result: Option<ErrorType>)
    requires ChainFrom(env, dispatch, items, trace, 0, store, [], endStore, endLog)
    requires ResultIsLastStop(trace, result)
    ensures result.Some? ==>
      && 0 < |trace| <= |items|
      && result == ItemResult(env, ItemStep(dispatch, items, store, [], |trace| - 1).outcome)
  {
    ChainDecides(env, dispatch, items, store, [], trace, 0, endStore, endLog);
  }

  /** A kept or stopped item stays among the remaining ones. */
  lemma {:induction false} UncompletedRemains(items: seq<QueueItem>, trace: seq<Disposition>, j: nat)
    requires j < |trace| <= |items| && !trace[j].Completed?
    ensures items[j] in RemainingItems(items, trace)
  {
    if j > 0 {
      UncompletedRemains(items[1..], trace[1..], j - 1);
    }
  }

  /** A completed item is in the completed list. */
  lemma {:induction false} CompletedAreCollected(items: seq<QueueItem>, trace: seq<Disposition>, j: nat)
    requires j < |trace| <= |items| && trace[j].Completed?
    ensures items[j] in CompletedItems(items, trace)
  {
    if j > 0 {
      CompletedAreCollected(items[1..], trace[1..], j - 1);
    }
  }

  /** The remaining items are items of the snapshot. */
  lemma {:induction false} RemainingAreItems(items: seq<QueueItem>, trace: seq<Disposition>)
    requires |trace| <= |items|
    ensures forall x :: x in RemainingItems(items, trace) ==> x in items
  {
    if trace != [] {
      RemainingAreItems(items[1..], trace[1..]);
      assert forall x :: x in items[1..] ==> x in items;
    }
  }

  /** With distinct row ids, a completed item is not among the remaining ones. */
  lemma {:induction false} CompletedLeaves(items: seq<QueueItem>, trace: seq<Disposition>, j: nat)
    requires j < |trace| <= |items| && trace[j].Completed? && DistinctIds(items)
    ensures items[j] !in RemainingItems(items, trace)
  {
    DistinctTail(items);
    RemainingAreItems(items[1..], trace[1..]);
    if j > 0 {
      CompletedLeaves(items[1..], trace[1..], j - 1);
      assert items[j] == items[1..][j - 1];
      assert items[j].id != items[0].id;
    }
  }

  /** In a finished trace, a stop is the last disposition. */
  lemma StopIsLast(trace: seq<Disposition>, n: nat, j: nat)
    requires FinishedTrace(trace, n) && j < |trace| && trace[j].Stopped?
    ensures |trace| == j + 1
  {
  }

  /** The trace ends with item `j`, which stopped the run with `e`. */
  predicate StopsAt(trace: seq<Disposition>, j: nat, e: ErrorType) {
    |trace| == j + 1 && trace[j] == Stopped(e)
  }

  /** In a finished trace, a stop at `j` ends the trace and leaves item `j` and every later one remaining. */
  lemma StopAtKeepsSuffix(items: seq<QueueItem>, trace: seq<Disposition>, j: nat)
    requires j < |trace| <= |items| && FinishedTrace(trace, |items|) && trace[j].Stopped?
    ensures |trace| == j + 1 && !NoStop(trace)
    ensures RemainingItems(items, trace) == RemainingItems(items[..j], trace[..j]) + items[j..]
  {
    StopIsLast(trace, |items|, j);
    StopKeepsItemAndSuffix(items, trace);
  }

  /** A run that returns the error of its last stop, and nothing when it did not stop, returns the error of the stop at `j`. */
  lemma ResultOfStop(trace: seq<Disposition>, result: Option<ErrorType>, j: nat, e: ErrorType)
    requires StopsAt(trace, j, e) && ResultIsLastStop(trace, result)
    ensures result == Some(e)
  {
  }

  /** In a finished trace, a disposition that is not a stop is followed by the next item's, if there is a next item. */
  lemma GoesOnAfter(trace: seq<Disposition>, n: nat, j: nat)
    requires FinishedTrace(trace, n) && j < |trace| && !trace[j].Stopped? && j + 1 < n
    ensures j + 1 < |trace|
  {
  }

  /**
   * An item of any kind but ADD_LINK whose call the server answers with
   * NOT_FOUND (a null reply) counts as done and is dequeued.
   */
  lemma ToleratedNotFoundIsDequeued(env: Env, queue: seq<QueueItem>, store: Store, j: nat)
    requires j < |SyncOfflineQueue(env, true, queue, store).trace|
    requires !queue[j].payload.AddLinkItem?
    requires ItemResult(env, ItemStep(Dispatcher(env), queue, store, [], j).outcome) == Some(NotFound)
    ensures var r := SyncOfflineQueue(env, true, queue, store);
      && r.trace[j] == Completed
      && queue[j] in CompletedItems(queue, r.trace)
      && (DistinctIds(queue) ==> queue[j] !in r.queue)
  {
    var r := SyncOfflineQueue(env, true, queue, store);
    RunDecidesEachItem(env, queue, store);
    NotFoundToleratedExceptAddLink(env, ItemStep(Dispatcher(env), queue, store, [], j), queue[j]);
    CompletedAreCollected(queue, r.trace, j);
    if DistinctIds(queue) {
      CompletedLeaves(queue, r.trace, j);
    }
  }

  /** In any chain of replies over a queue, an ADD_LINK item answered NOT_FOUND is the stop that ends it. */
  lemma AddLinkNotFoundStopsChain(env: Env, dispatch: Dispatching, queue: seq<QueueItem>, store: Store,
                                  trace: seq<Disposition>, endStore: Store, endLog: seq<Exchange>, j: nat)
    requires FinishedTrace(trace, |queue|) && j < |trace|
    requires ChainFrom(env, dispatch, queue, trace, 0, store, [], endStore, endLog)
    requires queue[j].payload.AddLinkItem?
    requires ItemResult(env, ItemStep(dispatch, queue, store, [], j).outcome) == Some(NotFound)
    ensures StopsAt(trace, j, NotFound) && !NoStop(trace)
    ensures RemainingItems(queue, trace) == RemainingItems(queue[..j], trace[..j]) + queue[j..]
  {
    ChainDecides(env, dispatch, queue, store, [], trace, 0, endStore, endLog);
    NotFoundToleratedExceptAddLink(env, ItemStep(dispatch, queue, store, [], j), queue[j]);
    StopAtKeepsSuffix(queue, trace, j);
  }

  /** The trace half of an ADD_LINK stop. */
  lemma AddLinkNotFoundEndsTrace(env: Env, queue: seq<QueueItem>, store: Store, j: nat)
    requires j < |SyncOfflineQueue(env, true, queue, store).trace|
    requires queue[j].payload.AddLinkItem?
    requires ItemResult(env, ItemStep(Dispatcher(env), queue, store, [], j).outcome) == Some(NotFound)
    ensures StopsAt(SyncOfflineQueue(env, true, queue, store).trace, j, NotFound)
  {
    var r := SyncOfflineQueue(env, true, queue, store);
    AddLinkNotFoundStopsChain(env, Dispatcher(env), queue, store, r.trace, r.store, r.log, j);
  }

  /** The result half of an ADD_LINK stop. */
  lemma AddLinkNotFoundFailsRun(env: Env, queue: seq<QueueItem>, store: Store, j: nat)
    requires j < |SyncOfflineQueue(env, true, queue, store).trace|
    requires queue[j].payload.AddLinkItem?
    requires ItemResult(env, ItemStep(Dispatcher(env), queue, store, [], j).outcome) == Some(NotFound)
    ensures SyncOfflineQueue(env, true, queue, store).result == Some(NotFound)
  {
    var r := SyncOfflineQueue(env, true, queue, store);
    AddLinkNotFoundEndsTrace(env, queue, store, j);
    RunResultIsLastStop(env, queue, store);
    ResultOfStop(r.trace, r.result, j, NotFound);
  }

  /**
   * An ADD_LINK item answered with NOT_FOUND stops the run right there: it
   * is the last item dispatched and the run returns NOT_FOUND.
   */
  lemma AddLinkNotFoundStopsRun(env: Env, queue: seq<QueueItem>, store: Store, j: nat)
    requires j < |SyncOfflineQueue(env, true, queue, store).trace|
    requires queue[j].payload.AddLinkItem?
    requires ItemResult(env, ItemStep(Dispatcher(env), queue, store, [], j).outcome) == Some(NotFound)
    ensures var r := SyncOfflineQueue(env, true, queue, store);
      StopsAt(r.trace, j, NotFound) && r.result == Some(NotFound)
  {
    AddLinkNotFoundEndsTrace(env, queue, store, j);
    AddLinkNotFoundFailsRun(env, queue, store, j);
  }

  /** After such a stop, with distinct row ids, the queue keeps the earlier uncompleted items, the ADD_LINK item and every later one. */
  lemma AddLinkNotFoundKeepsRest(env: Env, queue: seq<QueueItem>, store: Store, j: nat)
    requires j < |SyncOfflineQueue(env, true, queue, store).trace|
    requires queue[j].payload.AddLinkItem?
    requires ItemResult(env, ItemStep(Dispatcher(env), queue, store, [], j).outcome) == Some(NotFound)
    requires DistinctIds(queue)
    ensures var r := SyncOfflineQueue(env, true, queue, store);
      r.queue == RemainingItems(queue[..j], r.trace[..j]) + queue[j..]
  {
    var r := SyncOfflineQueue(env, true, queue, store);
    AddLinkNotFoundStopsChain(env, Dispatcher(env), queue, store, r.trace, r.store, r.log, j);
  }

  /**
   * An item answered NOT_FOUND_LOCALLY or NEGATIVE_RESPONSE is kept with that
   * error, stays queued, and the run goes on to the next item.
   */
  lemma SoftErrorKeepsItemAndGoesOn(env: Env, queue: seq<QueueItem>, store: Store, j: nat)
    requires j < |SyncOfflineQueue(env, true, queue, store).trace|
    requires ItemResult(env, ItemStep(Dispatcher(env), queue, store, [], j).outcome) in {Some(NotFoundLocally), Some(NegativeResponse)}
    ensures var r := SyncOfflineQueue(env, true, queue, store);
      && r.trace[j] == Kept(ItemResult(env, ItemStep(Dispatcher(env), queue, store, [], j).outcome).value)
      && (j + 1 < |queue| ==> j + 1 < |r.trace|)
      && (DistinctIds(queue) ==> queue[j] in r.queue)
  {
    var r := SyncOfflineQueue(env, true, queue, store);
    RunDecidesEachItem(env, queue, store);
    assert r.trace[j].Kept?;
    if j + 1 < |queue| {
      GoesOnAfter(r.trace, |queue|, j);
    }
    UncompletedRemains(queue, r.trace, j);
  }

  /** The one call a deletion item makes. */
  function DeletionCall(item: QueueItem): Call
    requires item.payload.DeleteArticleItem? || item.payload.DeleteAnnotationItem?
  {
    if item.payload.DeleteArticleItem? then DeleteArticle(ArticleIdOf(item))
    else DeleteAnnotation(item.payload.remoteAnnotationId)
  }

  /** A server whose client always builds and whose calls never throw. */
  ghost predicate Obliging(env: Env) {
    && (forall log :: env.connect(log).None?)
    && (forall log, c :: !env.remote(log, c).Raise?)
  }

  /** Against such a server, a deletion sends its one call and is done, whatever the reply. */
  lemma DeletionCompletes(env: Env, store: Store, log: seq<Exchange>, item: QueueItem)
    requires Obliging(env)
    requires item.payload.DeleteArticleItem? || item.payload.DeleteAnnotationItem?
    ensures var step := Dispatch(env, store, log, item);
      && step.log == log + [Exchange(DeletionCall(item), env.remote(log, DeletionCall(item)))]
      && Decide(env, step, item) == Completed
  {
    var step := Dispatch(env, store, log, item);
    assert env.connect(log).None?;
    assert !env.remote(log, DeletionCall(item)).Raise?;
    assert step.log == log + [step.log[|log|]];
  }

  /** Replaying any item of `items`, from any state, appends exactly one exchange: that item's deletion call. */
  ghost predicate SendsItsDeletion(dispatch: Dispatching, items: seq<QueueItem>)
    requires forall i :: 0 <= i < |items| ==> items[i].payload.DeleteArticleItem? || items[i].payload.DeleteAnnotationItem?
  {
    forall st: Store, l: seq<Exchange>, k: nat | k < |items| ::
      && |dispatch(st, l, items[k]).log| == |l| + 1
      && dispatch(st, l, items[k]).log[..|l|] == l
      && dispatch(st, l, items[k]).log[|l|].call == DeletionCall(items[k])
  }

  /** Deletions replayed in order leave one call each in the transcript, in queue order. */
  lemma {:induction false} DeletionsInOrder(dispatch: Dispatching, items: seq<QueueItem>, store: Store, log: seq<Exchange>, n: nat)
    requires n <= |items|
    requires forall i :: 0 <= i < |items| ==> items[i].payload.DeleteArticleItem? || items[i].payload.DeleteAnnotationItem?
    requires SendsItsDeletion(dispatch, items)
    ensures var p := After(dispatch, items, store, log, n);
      && |p.log| == |log| + n && p.log[..|log|] == log
      && forall k :: 0 <= k < n ==> p.log[|log| + k].call == DeletionCall(items[k])
    decreases n
  {
    if n > 0 {
      DeletionsInOrder(dispatch, items, store, log, n - 1);
      var p := After(dispatch, items, store, log, n - 1);
      var q := After(dispatch, items, store, log, n);
      assert q.log == dispatch(p.store, p.log, items[n - 1]).log;
      assert q.log[..|p.log|] == p.log;
      forall k | 0 <= k < n ensures q.log[|log| + k].call == DeletionCall(items[k]) {
        if k < n - 1 {
          assert q.log[|log| + k] == p.log[|log| + k];
        }
      }
      assert q.log[..|log|] == p.log[..|log|];
    }
  }

  /** Replayed from an empty transcript, the deletions are the whole transcript, one call per item in queue order. */
  lemma DeletionsFromStart(dispatch: Dispatching, items: seq<QueueItem>, store: Store)
    requires forall i :: 0 <= i < |items| ==> items[i].payload.DeleteArticleItem? || items[i].payload.DeleteAnnotationItem?
    requires SendsItsDeletion(dispatch, items)
    ensures var p := After(dispatch, items, store, [], |items|);
      && |p.log| == |items|
      && forall k :: 0 <= k < |items| ==> p.log[k].call == DeletionCall(items[k])
  {
    DeletionsInOrder(dispatch, items, store, [], |items|);
  }

  /** When every item completes, every item is in the completed list. */
  lemma {:induction false} AllCompleted(items: seq<QueueItem>, trace: seq<Disposition>)
    requires |trace| == |items|
    requires forall j :: 0 <= j < |trace| ==> trace[j] == Completed
    ensures CompletedItems(items, trace) == items
  {
    if trace != [] {
      AllCompleted(items[1..], trace[1..]);
      assert items == [items[0]] + items[1..];
    }
  }

  /** Dropping rows whose ids are all dropped leaves nothing. */
  lemma {:induction false} DropAllIds(q: seq<QueueItem>, ids: set<int>)
    requires forall x :: x in q ==> x.id in ids
    ensures DropIds(q, ids) == []
  {
    if q != [] {
      assert q[0] in q;
      DropAllIds(q[1..], ids);
    }
  }

  /** Dequeuing every item of a queue empties it. */
  lemma DequeueAll(q: seq<QueueItem>)
    ensures Dequeue(q, q) == []
  {
    DropAllIds(q, IdsOf(q));
  }

  /** Against a server that never throws, every deletion of the queue is replayed and completed. */
  lemma ObligingRunCompletesAll(env: Env, queue: seq<QueueItem>, store: Store)
    requires Obliging(env)
    requires forall i :: 0 <= i < |queue| ==> queue[i].payload.DeleteArticleItem? || queue[i].payload.DeleteAnnotationItem?
    ensures var r := SyncOfflineQueue(env, true, queue, store);
      && |r.trace| == |queue|
      && (forall j :: 0 <= j < |queue| ==> r.trace[j] == Completed)
  {
    var r := SyncOfflineQueue(env, true, queue, store);
    RunDecidesEachItem(env, queue, store);
    forall j | 0 <= j < |r.trace| ensures r.trace[j] == Completed {
      var p := After(Dispatcher(env), queue, store, [], j);
      DeletionCompletes(env, p.store, p.log, queue[j]);
    }
  }

  /** Against a server that never throws, replaying deletions sends each one's call. */
  lemma ObligingSendsDeletions(env: Env, queue: seq<QueueItem>)
    requires Obliging(env)
    requires forall i :: 0 <= i < |queue| ==> queue[i].payload.DeleteArticleItem? || queue[i].payload.DeleteAnnotationItem?
    ensures SendsItsDeletion(Dispatcher(env), queue)
  {
    forall st: Store, l: seq<Exchange>, k: nat | k < |queue|
      ensures && |Dispatcher(env)(st, l, queue[k]).log| == |l| + 1
              && Dispatcher(env)(st, l, queue[k]).log[..|l|] == l
              && Dispatcher(env)(st, l, queue[k]).log[|l|].call == DeletionCall(queue[k])
    {
      DeletionCompletes(env, st, l, queue[k]);
    }
  }

  /**
   * A queue of article and annotation deletions, replayed against a server
   * that never throws: every item is done and the queue ends empty, the run
   * succeeds, and the server receives each deletion exactly once, in queue
   * order, and nothing else.
   */
  lemma ObligingServerClearsDeletions(env: Env, queue: seq<QueueItem>, store: Store)
    requires Obliging(env)
    requires forall i :: 0 <= i < |queue| ==> queue[i].payload.DeleteArticleItem? || queue[i].payload.DeleteAnnotationItem?
    ensures var r := SyncOfflineQueue(env, true, queue, store);
      && |r.trace| == |queue|
      && (forall j :: 0 <= j < |queue| ==> r.trace[j] == Completed)
      && r.result.None?
      && r.queue == []
      && |r.log| == |queue|
      && (forall j :: 0 <= j < |queue| ==> r.log[j].call == DeletionCall(queue[j]))
  {
    var r := SyncOfflineQueue(env, true, queue, store);
    RunDecidesEachItem(env, queue, store);
    ObligingRunCompletesAll(env, queue, store);
    assert NoStop(r.trace);
    assert r.log == After(Dispatcher(env), queue, store, [], |queue|).log;
    ObligingSendsDeletions(env, queue);
    DeletionsFromStart(Dispatcher(env), queue, store);
    AllCompleted(queue, r.trace);
    DequeueAll(queue);
  }
}
