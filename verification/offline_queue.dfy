/**
 * The offline queue store as the core uses it. QueueHelper, which records
 * and coalesces queue rows, is not part of this model: it is an oracle that
 * says whether it changed the queue and returns the queue after the call.
 * Every use runs inside one database transaction, so each use is one step
 * from the queue before to the queue after.
 */
module OfflineQueue {
  import opened Options
  import opened Decimal
  import opened Entities

  /** A QueueHelper call: did it change the queue, and the queue afterwards. */
  type QueueHelper = (seq<QueueItem>, QueueOp) -> (bool, seq<QueueItem>)

  function IdsOf(items: seq<QueueItem>): set<int> {
    set x | x in items :: x.id
  }

  /** The rows of `q` whose ids are not in `ids`, in queue order. */
  function DropIds(q: seq<QueueItem>, ids: set<int>): (r: seq<QueueItem>)
    ensures forall x :: x in r <==> x in q && x.id !in ids
    ensures |r| <= |q|
  {
    if q == [] then []
    else (if q[0].id in ids then [] else [q[0]]) + DropIds(q[1..], ids)
  }

  /**
   * QueueHelper.dequeueItems. Its source is not part of this model; it is
   * ASSUMED to delete exactly the rows with the given items' ids and to keep
   * the others in their order.
   */
  function Dequeue(q: seq<QueueItem>, items: seq<QueueItem>): (r: seq<QueueItem>)
    ensures forall x :: x in r <==> x in q && x.id !in IdsOf(items)
    ensures forall x :: x in items ==> x !in r
    ensures |r| <= |q|
  {
    DropIds(q, IdsOf(items))
  }

  /** The queue after one queueOfflineChange, and the length it posts (None: no event). */
  datatype QueueUpdate = QueueUpdate(queue: seq<QueueItem>, changedLength: Option<nat>)

  /**
   * queueOfflineChange: one transaction runs the queue action; the length is
   * read in that same transaction, and an OfflineQueueChangedEvent is posted
   * with it only when the action says it changed the queue.
   */
  function QueueOfflineChange(helper: QueueHelper, queue: seq<QueueItem>, op: QueueOp): (r: QueueUpdate)
    ensures r.changedLength.Some? <==> helper(queue, op).0
    ensures r.queue == helper(queue, op).1
    ensures r.changedLength.Some? ==> r.changedLength.value == |r.queue|
  {
    var (changed, after) := helper(queue, op);
    QueueUpdate(after, if changed then Some(|after|) else None)
  }

  /** The actions an ActionRequest can carry. */
  datatype Action =
    | ArticleChangeAction | ArticleTagsDeleteAction
    | AnnotationAddAction | AnnotationUpdateAction | AnnotationDeleteAction
    | ArticleDeleteAction | AddLinkAction
    | SyncQueueAction | UpdateArticlesAction | SweepDeletedArticlesAction
    | OtherAction

  datatype ActionRequest = ActionRequest(
    action: Action,
    articleId: Int32,
    extra: Option<string>,
    extra2: Option<string>,
    changeType: ChangeType)

  /** The request action that asks for a queue-store call of this kind. */
  function ActionFor(op: QueueOp): Action {
    match op
    case QueueArticleChange(_, _) => ArticleChangeAction
    case QueueTagsDelete(_, _) => ArticleTagsDeleteAction
    case QueueTagsDeleteText(_, _) => ArticleTagsDeleteAction
    case QueueAnnotationAdd(_, _) => AnnotationAddAction
    case QueueAnnotationUpdate(_, _) => AnnotationUpdateAction
    case QueueAnnotationDelete(_, _) => AnnotationDeleteAction
    case QueueArticleDelete(_) => ArticleDeleteAction
    case QueueLink(_, _) => AddLinkAction
  }

  /** The queue-store call a simple request maps to. */
  datatype SimpleCall = Call(op: QueueOp) | NotImplemented | BadNumber

  /**
   * The switch of serveSimpleRequest: annotation ids arrive as text in
   * `extra` and are parsed (Long for local ids, Integer for remote ids); a
   * text that does not parse throws NumberFormatException (BadNumber).
   */
  function SimpleCallOf(req: ActionRequest): (c: SimpleCall)
    ensures c.BadNumber? <==>
      || (req.action in {AnnotationAddAction, AnnotationUpdateAction} && ParseLong(req.extra).None?)
      || (req.action == AnnotationDeleteAction && ParseIntOrNull(req.extra).None?)
    ensures c.NotImplemented? <==> req.action in {SyncQueueAction, UpdateArticlesAction, SweepDeletedArticlesAction, OtherAction}
    ensures c.Call? ==> ActionFor(c.op) == req.action && !c.op.QueueTagsDelete?
    ensures c.Call? ==> c.op.QueueLink? || c.op.articleId == req.articleId
    ensures c.Call? && c.op.QueueArticleChange? ==> c.op.changeType == req.changeType
    ensures c.Call? && c.op.QueueTagsDeleteText? ==> c.op.tagIdsText == req.extra
    ensures c.Call? && (c.op.QueueAnnotationAdd? || c.op.QueueAnnotationUpdate?) ==>
      ParseLong(req.extra) == Some(c.op.localAnnotationId)
    ensures c.Call? && c.op.QueueAnnotationDelete? ==> ParseIntOrNull(req.extra) == Some(c.op.remoteAnnotationId)
    ensures c.Call? && c.op.QueueLink? ==> c.op.url == req.extra && c.op.origin == req.extra2
  {
    match req.action
    case ArticleChangeAction => Call(QueueArticleChange(req.articleId, req.changeType))
    case ArticleTagsDeleteAction => Call(QueueTagsDeleteText(req.articleId, req.extra))
    case AnnotationAddAction =>
      (match ParseLong(req.extra)
       case Some(id) => Call(QueueAnnotationAdd(req.articleId, id))
       case None => BadNumber)
    case AnnotationUpdateAction =>
      (match ParseLong(req.extra)
       case Some(id) => Call(QueueAnnotationUpdate(req.articleId, id))
       case None => BadNumber)
    case AnnotationDeleteAction =>
      (match ParseIntOrNull(req.extra)
       case Some(id) => Call(QueueAnnotationDelete(req.articleId, id))
       case None => BadNumber)
    case ArticleDeleteAction => Call(QueueArticleDelete(req.articleId))
    case AddLinkAction => Call(QueueLink(req.extra, req.extra2))
    case _ => NotImplemented
  }

  /**
   * The request OperationsHelper's queue calls would be sent as through
   * MainService: ids as decimal text in `extra`. The change type of a
   * request that is not an ARTICLE_CHANGE is not read, and neither is the
   * article id of an ADD_LINK request.
   */
  function RequestFor(op: QueueOp): ActionRequest
    requires !op.QueueTagsDelete?
  {
    match op
    case QueueArticleChange(articleId, changeType) => ActionRequest(ArticleChangeAction, articleId, None, None, changeType)
    case QueueTagsDeleteText(articleId, text) => ActionRequest(ArticleTagsDeleteAction, articleId, text, None, Archive)
    case QueueAnnotationAdd(articleId, id) => ActionRequest(AnnotationAddAction, articleId, Some(IntToString(id)), None, Archive)
    case QueueAnnotationUpdate(articleId, id) => ActionRequest(AnnotationUpdateAction, articleId, Some(IntToString(id)), None, Archive)
    case QueueAnnotationDelete(articleId, id) => ActionRequest(AnnotationDeleteAction, articleId, Some(IntToString(id)), None, Archive)
    case QueueArticleDelete(articleId) => ActionRequest(ArticleDeleteAction, articleId, None, None, Archive)
    case QueueLink(url, origin) => ActionRequest(AddLinkAction, 0, url, origin, Archive)
  }

  /**
   * Every queue call survives the trip through a simple request: serving
   * the request made for it calls the queue store with that very call (local
   * annotation ids within the range of a Java long).
   */
  lemma RequestRoundTrip(op: QueueOp)
    requires !op.QueueTagsDelete?
    requires (op.QueueAnnotationAdd? || op.QueueAnnotationUpdate?) ==>
      -0x8000_0000_0000_0000 <= op.localAnnotationId <= 0x7FFF_FFFF_FFFF_FFFF
    ensures SimpleCallOf(RequestFor(op)) == Call(op)
  {
    match op
    case QueueAnnotationAdd(_, id) => LongRoundTrip(id);
    case QueueAnnotationUpdate(_, id) => LongRoundTrip(id);
    case QueueAnnotationDelete(_, id) => IntRoundTrip(id);
    case _ =>
  }

  /** How serving a simple request ended: the queue and the posted length, or an exception (the transaction rolls back). */
  datatype Served = Served(queue: seq<QueueItem>, changedLength: Option<nat>) | Threw

  /**
   * serveSimpleRequest together with the OfflineQueueChangedEvent that
   * onHandleIntent posts for a non-null length.
   */
  function ServeSimpleRequest(helper: QueueHelper, queue: seq<QueueItem>, req: ActionRequest): (r: Served)
    ensures r.Threw? <==> SimpleCallOf(req).BadNumber?
    ensures SimpleCallOf(req).NotImplemented? ==> r == Served(queue, None)
    ensures r.Served? && r.changedLength.Some? ==> r.changedLength.value == |r.queue|
    ensures r.Served? ==>
      (r.changedLength.Some? <==> SimpleCallOf(req).Call? && helper(queue, SimpleCallOf(req).op).0)
    ensures r.Served? && SimpleCallOf(req).Call? ==> r.queue == helper(queue, SimpleCallOf(req).op).1
  {
    match SimpleCallOf(req)
    case BadNumber => Threw
    case NotImplemented => Served(queue, None)
    case Call(op) =>
      var u := QueueOfflineChange(helper, queue, op);
      Served(u.queue, u.changedLength)
  }
}
