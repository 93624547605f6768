/**
 * Replay of one queue item against the server: the per-kind branches of
 * MainService.syncOfflineQueue and its sync* helpers. Each returns the item
 * result the loop sees (None is the Java `null`, a success) or the exception
 * that escaped, together with the store and the transcript after the item.
 */
module SyncItems {
  import opened Options
  import opened Decimal
  import opened Entities
  import opened Remote

  /** How the replay of one item ended. */
  datatype Outcome = Returned(result: Option<ErrorType>) | Raised(e: Exception)

  /** One item's replay: store and transcript after it, how it ended, and whether a link went up. */
  datatype Step = Step(store: Store, log: seq<Exchange>, outcome: Outcome, uploaded: bool)

  /**
   * getWallabagService() threw before the item's call: its exception escapes,
   * nothing is sent and nothing changes.
   */
  function NoService(env: Env, store: Store, log: seq<Exchange>): Step
    requires env.connect(log).Some?
  {
    Step(store, log, Raised(env.connect(log).value), false)
  }

  /** The common reading of a reply: null means the object is gone from the server. */
  function NullMeansNotFound(resp: Response): (o: Outcome)
    ensures o == Returned(Some(NotFound)) <==> resp.Null?
    ensures o == Returned(None) <==> resp.Value?
    ensures resp.Raise? <==> o.Raised?
    ensures resp.Raise? ==> o.e == resp.e
  {
    match resp
    case Value(_) => Returned(None)
    case Null => Returned(Some(NotFound))
    case Raise(e) => Raised(e)
  }

  /** `m` carries the local value of exactly the fields named in `changes`, and every tag label when tags are named. */
  predicate PushesLocalState(m: ModifyRequest, articleId: Int32, a: Article, changes: set<ChangeType>) {
    && m.articleId == articleId
    && (m.archive.Some? <==> Archive in changes)
    && (m.archive.Some? ==> m.archive.value == a.archive)
    && (m.starred.Some? <==> Favorite in changes)
    && (m.starred.Some? ==> m.starred.value == a.favorite)
    && (m.title.Some? <==> Title in changes)
    && (m.title.Some? ==> m.title.value == a.title)
    && m.tags == (if Tags in changes then Labels(a.tags) else [])
  }

  /** The builder calls syncArticleChange makes for one local article. */
  function ChangeRequest(articleId: Int32, a: Article, changes: set<ChangeType>): ModifyRequest {
    ModifyRequest(
      articleId,
      if Archive in changes then Some(a.archive) else None,
      if Favorite in changes then Some(a.favorite) else None,
      if Title in changes then Some(a.title) else None,
      if Tags in changes then Labels(a.tags) else [])
  }

  /**
   * syncArticleChange: NOT_FOUND_LOCALLY without a call when the article is
   * gone locally; otherwise, once the service client is built, one modify
   * call that pushes the current local state (not a diff), and NOT_FOUND
   * when it returns null.
   */
  function SyncArticleChange(env: Env, store: Store, log: seq<Exchange>, articleId: Int32,
                             changes: set<ChangeType>): (r: Step)
    ensures r.store == store && !r.uploaded
    ensures articleId !in store.articles ==> r.log == log && r.outcome == Returned(Some(NotFoundLocally))
    ensures articleId in store.articles && env.connect(log).Some? ==> r == NoService(env, store, log)
    ensures articleId in store.articles && env.connect(log).None? ==>
      && |r.log| == |log| + 1 && r.log[..|log|] == log
      && r.log[|log|].call.ModifyArticle?
      && PushesLocalState(r.log[|log|].call.request, articleId, store.articles[articleId], changes)
      && r.outcome == NullMeansNotFound(r.log[|log|].response)
  {
    if articleId !in store.articles then
      Step(store, log, Returned(Some(NotFoundLocally)), false)
    else if env.connect(log).Some? then
      NoService(env, store, log)
    else
      var log' := Invoke(env, log, ModifyArticle(ChangeRequest(articleId, store.articles[articleId], changes)));
      Step(store, log', NullMeansNotFound(LastReply(log')), false)
  }

  /**
   * The loop of syncDeleteTagsFromArticle, on a service client already
   * built: every tag id is parsed and sent, in order; a
   * null reply is remembered as NOT_FOUND but the remaining ids are still
   * sent; an exception (a NumberFormatException from the parse included)
   * ends the loop. `anyNull` says whether an earlier reply was null. The
   * result is the exchanges this item added and how it ended.
   */
  function SyncDeleteTags(env: Env, log: seq<Exchange>, articleId: Int32, tagIds: seq<string>,
                          anyNull: bool): (r: (seq<Exchange>, Outcome))
    ensures |r.0| <= |tagIds|
    decreases |tagIds|
  {
    if tagIds == [] then
      ([], Returned(if anyNull then Some(NotFound) else None))
    else
      match ParseInt(tagIds[0])
      case None => ([], Raised(IllegalArgument(tagIds[0])))
      case Some(tagId) =>
        var c := DeleteTag(articleId, tagId);
        var x := Exchange(c, env.remote(log, c));
        match x.response
        case Raise(e) => ([x], Raised(e))
        case _ =>
          var rest := SyncDeleteTags(env, log + [x], articleId, tagIds[1..], anyNull || x.response.Null?);
          ([x] + rest.0, rest.1)
  }

  /**
   * syncDeleteTagsFromArticle: the service client is built once, before the
   * loop (so even an empty id list fails when it cannot be built), then the
   * loop runs.
   */
  function SyncDeleteTagsItem(env: Env, store: Store, log: seq<Exchange>, articleId: Int32,
                              tagIds: seq<string>): (r: Step)
    ensures env.connect(log).Some? ==> r == NoService(env, store, log)
    ensures env.connect(log).None? ==>
      var (sent, outcome) := SyncDeleteTags(env, log, articleId, tagIds, false);
      r == Step(store, log + sent, outcome, false)
    ensures env.connect(log).None? && tagIds == [] ==> r == Step(store, log, Returned(None), false)
  {
    if env.connect(log).Some? then NoService(env, store, log)
    else
      var (sent, outcome) := SyncDeleteTags(env, log, articleId, tagIds, false);
      Step(store, log + sent, outcome, false)
  }

  /** The j-th exchange of `sent` is a deleteTag call for the j-th tag id, as parsed. */
  predicate SentInOrder(sent: seq<Exchange>, articleId: Int32, tagIds: seq<string>) {
    && |sent| <= |tagIds|
    && forall j :: 0 <= j < |sent| ==>
         ParseInt(tagIds[j]).Some? && sent[j].call == DeleteTag(articleId, ParseInt(tagIds[j]).value)
  }

  lemma SentInOrderCons(x: Exchange, rest: seq<Exchange>, articleId: Int32, tagIds: seq<string>)
    requires tagIds != [] && ParseInt(tagIds[0]).Some?
    requires x.call == DeleteTag(articleId, ParseInt(tagIds[0]).value)
    requires SentInOrder(rest, articleId, tagIds[1..])
    ensures SentInOrder([x] + rest, articleId, tagIds)
  {
    var sent := [x] + rest;
    forall j | 0 <= j < |sent|
      ensures ParseInt(tagIds[j]).Some? && sent[j].call == DeleteTag(articleId, ParseInt(tagIds[j]).value)
    {
      if j > 0 {
        assert sent[j] == rest[j - 1];
        assert tagIds[j] == tagIds[1..][j - 1];
      }
    }
  }

  /** The first step of a tag deletion whose first id parses: one exchange, then the rest unless it raised. */
  lemma DeleteTagsUnfold(env: Env, log: seq<Exchange>, articleId: Int32, tagIds: seq<string>, anyNull: bool)
    requires tagIds != [] && ParseInt(tagIds[0]).Some?
    ensures var c := DeleteTag(articleId, ParseInt(tagIds[0]).value);
      var x := Exchange(c, env.remote(log, c));
      var r := SyncDeleteTags(env, log, articleId, tagIds, anyNull);
      && (x.response.Raise? ==> r == ([x], Raised(x.response.e)))
      && (!x.response.Raise? ==>
            var rest := SyncDeleteTags(env, log + [x], articleId, tagIds[1..], anyNull || x.response.Null?);
            r == ([x] + rest.0, rest.1))
  {
  }

  /** Each exchange of a tag deletion is a deleteTag call for the tag id at the same position. */
  lemma {:induction false} DeleteTagsCallsInOrder(env: Env, log: seq<Exchange>, articleId: Int32,
                                                  tagIds: seq<string>, anyNull: bool)
    ensures SentInOrder(SyncDeleteTags(env, log, articleId, tagIds, anyNull).0, articleId, tagIds)
    decreases |tagIds|
  {
    if tagIds != [] && ParseInt(tagIds[0]).Some? {
      var c := DeleteTag(articleId, ParseInt(tagIds[0]).value);
      var x := Exchange(c, env.remote(log, c));
      DeleteTagsUnfold(env, log, articleId, tagIds, anyNull);
      if x.response.Raise? {
        SentInOrderCons(x, [], articleId, tagIds);
        assert [x] + [] == [x];
      } else {
        var flag := anyNull || x.response.Null?;
        DeleteTagsCallsInOrder(env, log + [x], articleId, tagIds[1..], flag);
        SentInOrderCons(x, SyncDeleteTags(env, log + [x], articleId, tagIds[1..], flag).0, articleId, tagIds);
      }
    }
  }

  /** Some exchange in `xs` got a null reply. */
  predicate SomeNullReply(xs: seq<Exchange>) {
    exists j :: 0 <= j < |xs| && xs[j].response.Null?
  }

  /** No exchange in `xs` raised. */
  predicate NoRaisedReply(xs: seq<Exchange>) {
    forall j :: 0 <= j < |xs| ==> !xs[j].response.Raise?
  }

  lemma RepliesCons(x: Exchange, xs: seq<Exchange>)
    ensures SomeNullReply([x] + xs) <==> x.response.Null? || SomeNullReply(xs)
    ensures NoRaisedReply([x] + xs) <==> !x.response.Raise? && NoRaisedReply(xs)
  {
    var ys := [x] + xs;
    assert ys[0] == x;
    assert forall j :: 0 <= j < |xs| ==> ys[j + 1] == xs[j];
    if SomeNullReply(ys) {
      var j :| 0 <= j < |ys| && ys[j].response.Null?;
      if j > 0 {
        assert ys[j] == xs[j - 1];
      }
    }
    if !x.response.Raise? && NoRaisedReply(xs) {
      forall j | 0 <= j < |ys| ensures !ys[j].response.Raise? {
        if j > 0 {
          assert ys[j] == xs[j - 1];
        }
      }
    }
  }

  /** A tag deletion that raises nothing sent every tag id, and got no exception back. */
  lemma {:induction false} DeleteTagsSendsAll(env: Env, log: seq<Exchange>, articleId: Int32,
                                              tagIds: seq<string>, anyNull: bool)
    ensures var r := SyncDeleteTags(env, log, articleId, tagIds, anyNull);
      r.1.Returned? ==> |r.0| == |tagIds| && NoRaisedReply(r.0)
    decreases |tagIds|
  {
    if tagIds != [] && ParseInt(tagIds[0]).Some? {
      var c := DeleteTag(articleId, ParseInt(tagIds[0]).value);
      var x := Exchange(c, env.remote(log, c));
      DeleteTagsUnfold(env, log, articleId, tagIds, anyNull);
      if !x.response.Raise? {
        var flag := anyNull || x.response.Null?;
        DeleteTagsSendsAll(env, log + [x], articleId, tagIds[1..], flag);
        RepliesCons(x, SyncDeleteTags(env, log + [x], articleId, tagIds[1..], flag).0);
      }
    }
  }

  /**
   * A tag deletion that raises nothing ends NOT_FOUND exactly when some reply
   * (or an earlier one) was null, and in success exactly when none was.
   */
  lemma {:induction false} DeleteTagsNotFoundIffNull(env: Env, log: seq<Exchange>, articleId: Int32,
                                                     tagIds: seq<string>, anyNull: bool)
    ensures var r := SyncDeleteTags(env, log, articleId, tagIds, anyNull);
      r.1.Returned? ==>
        && (r.1.result == Some(NotFound) <==> anyNull || SomeNullReply(r.0))
        && (r.1.result.None? <==> !(anyNull || SomeNullReply(r.0)))
    decreases |tagIds|
  {
    if tagIds == [] {
      assert !SomeNullReply([]);
    } else if ParseInt(tagIds[0]).Some? {
      var c := DeleteTag(articleId, ParseInt(tagIds[0]).value);
      var x := Exchange(c, env.remote(log, c));
      DeleteTagsUnfold(env, log, articleId, tagIds, anyNull);
      if !x.response.Raise? {
        var flag := anyNull || x.response.Null?;
        DeleteTagsNotFoundIffNull(env, log + [x], articleId, tagIds[1..], flag);
        RepliesCons(x, SyncDeleteTags(env, log + [x], articleId, tagIds[1..], flag).0);
      }
    }
  }

  /**
   * When every tag id parses, a tag deletion raises only what the server
   * raised: its last exchange carries the exception it ends with.
   */
  lemma {:induction false} DeleteTagsRaisesOnlyFromServer(env: Env, log: seq<Exchange>, articleId: Int32,
                                                          tagIds: seq<string>, anyNull: bool)
    requires forall j :: 0 <= j < |tagIds| ==> ParseInt(tagIds[j]).Some?
    ensures var r := SyncDeleteTags(env, log, articleId, tagIds, anyNull);
      r.1.Raised? ==> r.0 != [] && r.0[|r.0| - 1].response == Raise(r.1.e)
    decreases |tagIds|
  {
    if tagIds != [] {
      assert ParseInt(tagIds[0]).Some?;
      var c := DeleteTag(articleId, ParseInt(tagIds[0]).value);
      var x := Exchange(c, env.remote(log, c));
      DeleteTagsUnfold(env, log, articleId, tagIds, anyNull);
      if !x.response.Raise? {
        var flag := anyNull || x.response.Null?;
        assert forall j :: 0 <= j < |tagIds[1..]| ==> tagIds[1..][j] == tagIds[j + 1];
        DeleteTagsRaisesOnlyFromServer(env, log + [x], articleId, tagIds[1..], flag);
      }
    }
  }

  /**
   * syncAddAnnotationToArticle: NOT_FOUND_LOCALLY when the local annotation
   * is gone; otherwise (once the service client is built) one add call with
   * its ranges, text and quote; a null
   * reply is NOT_FOUND, and a returned annotation's id is stored as the local
   * annotation's remote id.
   */
  function SyncAddAnnotation(env: Env, store: Store, log: seq<Exchange>, articleId: Int32,
                             localId: int): (r: Step)
    ensures !r.uploaded
    ensures Valid(store) ==> Valid(r.store)
    ensures localId !in store.annotations ==>
      r == Step(store, log, Returned(Some(NotFoundLocally)), false)
    ensures localId in store.annotations && env.connect(log).Some? ==> r == NoService(env, store, log)
    ensures localId in store.annotations && env.connect(log).None? ==>
      var a := store.annotations[localId];
      && |r.log| == |log| + 1 && r.log[..|log|] == log
      && r.log[|log|].call == AddAnnotation(articleId, a.ranges, a.text, a.quote)
      && r.outcome == NullMeansNotFound(r.log[|log|].response)
      && (r.log[|log|].response.Value? ==>
            r.store == store.(annotations := store.annotations[localId := a.(remoteId := Some(r.log[|log|].response.id))]))
      && (!r.log[|log|].response.Value? ==> r.store == store)
  {
    if localId !in store.annotations then
      Step(store, log, Returned(Some(NotFoundLocally)), false)
    else if env.connect(log).Some? then
      NoService(env, store, log)
    else
      var a := store.annotations[localId];
      var log' := Invoke(env, log, AddAnnotation(articleId, a.ranges, a.text, a.quote));
      match LastReply(log')
      case Value(remoteId) =>
        var stored := store.(annotations := store.annotations[localId := a.(remoteId := Some(remoteId))]);
        Step(stored, log', Returned(None), false)
      case Null => Step(store, log', Returned(Some(NotFound)), false)
      case Raise(e) => Step(store, log', Raised(e), false)
  }

  /**
   * syncUpdateAnnotationOnArticle: NOT_FOUND_LOCALLY when the local
   * annotation is gone; a success without any call when it has no remote id
   * yet; otherwise (once the service client is built) one update call with
   * its text, NOT_FOUND on null.
   */
  function SyncUpdateAnnotation(env: Env, store: Store, log: seq<Exchange>, localId: int): (r: Step)
    ensures r.store == store && !r.uploaded
    ensures localId !in store.annotations ==>
      r.log == log && r.outcome == Returned(Some(NotFoundLocally))
    ensures localId in store.annotations && store.annotations[localId].remoteId.None? ==>
      r.log == log && r.outcome == Returned(None)
    ensures localId in store.annotations && store.annotations[localId].remoteId.Some? && env.connect(log).Some? ==>
      r == NoService(env, store, log)
    ensures localId in store.annotations && store.annotations[localId].remoteId.Some? && env.connect(log).None? ==>
      var a := store.annotations[localId];
      && |r.log| == |log| + 1 && r.log[..|log|] == log
      && r.log[|log|].call == UpdateAnnotation(a.remoteId.value, a.text)
      && r.outcome == NullMeansNotFound(r.log[|log|].response)
  {
    if localId !in store.annotations then
      Step(store, log, Returned(Some(NotFoundLocally)), false)
    else
      var a := store.annotations[localId];
      match a.remoteId
      case None => Step(store, log, Returned(None), false)
      case Some(remoteId) =>
        if env.connect(log).Some? then NoService(env, store, log)
        else
          var log' := Invoke(env, log, UpdateAnnotation(remoteId, a.text));
          Step(store, log', NullMeansNotFound(LastReply(log')), false)
  }

  /**
   * A call whose only local input is in the queue item (deleteAnnotation,
   * deleteArticle), on a freshly built service client; NOT_FOUND on a null
   * (or false) reply.
   */
  function SyncSingleCall(env: Env, store: Store, log: seq<Exchange>, c: Call): (r: Step)
    ensures r.store == store && !r.uploaded
    ensures env.connect(log).Some? ==> r == NoService(env, store, log)
    ensures env.connect(log).None? ==>
      && |r.log| == |log| + 1 && r.log[..|log|] == log && r.log[|log|].call == c
      && r.outcome == NullMeansNotFound(r.log[|log|].response)
  {
    if env.connect(log).Some? then NoService(env, store, log)
    else
      var log' := Invoke(env, log, c);
      Step(store, log', NullMeansNotFound(LastReply(log')), false)
  }

  /**
   * The ADD_LINK branch: an empty url is skipped without a call and counts as
   * done; otherwise the service client is built and the link is sent, and the upload flag is set once the call
   * returns normally (its value is ignored).
   */
  function SyncAddLink(env: Env, store: Store, log: seq<Exchange>, url: string,
                       origin: Option<string>): (r: Step)
    ensures r.store == store
    ensures |url| == 0 ==> r.log == log && r.outcome == Returned(None) && !r.uploaded
    ensures |url| > 0 && env.connect(log).Some? ==> r == NoService(env, store, log)
    ensures |url| > 0 && env.connect(log).None? ==>
      && |r.log| == |log| + 1 && r.log[..|log|] == log
      && r.log[|log|].call == AddArticle(url, origin)
      && (r.uploaded <==> !r.log[|log|].response.Raise?)
      && (r.log[|log|].response.Raise? ==> r.outcome == Raised(r.log[|log|].response.e))
      && (!r.log[|log|].response.Raise? ==> r.outcome == Returned(None))
  {
    if |url| == 0 then
      Step(store, log, Returned(None), false)
    else if env.connect(log).Some? then
      NoService(env, store, log)
    else
      var log' := Invoke(env, log, AddArticle(url, origin));
      match LastReply(log')
      case Raise(e) => Step(store, log', Raised(e), false)
      case _ => Step(store, log', Returned(None), true)
  }

  /** The article id the loop passes on: a null id becomes -1. */
  function ArticleIdOf(item: QueueItem): (id: Int32)
    ensures item.articleId.Some? ==> id == item.articleId.value
    ensures item.articleId.None? ==> id == -1
  {
    item.articleId.GetOr(-1)
  }

  /** An exchange that uploaded a link: an add-article call that returned normally. */
  predicate UploadedLink(x: Exchange) {
    x.call.AddArticle? && !x.response.Raise?
  }

  /** The switch on the item's kind inside the loop's try block. */
  function Dispatch(env: Env, store: Store, log: seq<Exchange>, item: QueueItem): (r: Step)
    ensures |log| <= |r.log| && r.log[..|log|] == log
    ensures Valid(store) ==> Valid(r.store)
    ensures r.uploaded <==> exists k :: |log| <= k < |r.log| && UploadedLink(r.log[k])
    ensures forall k :: |log| <= k < |r.log| && r.log[k].call.AddArticle? ==>
      item.payload.AddLinkItem? && r.log[k].call.url == item.payload.url && |item.payload.url| > 0
  {
    var articleId := ArticleIdOf(item);
    match item.payload
    case ArticleChangeItem(changes) => SyncArticleChange(env, store, log, articleId, changes)
    case ArticleTagsDeleteItem(tagIds) =>
      DeleteTagsCallsInOrder(env, log, articleId, tagIds, false);
      SyncDeleteTagsItem(env, store, log, articleId, tagIds)
    case AddAnnotationItem(localId) => SyncAddAnnotation(env, store, log, articleId, localId)
    case UpdateAnnotationItem(localId) => SyncUpdateAnnotation(env, store, log, localId)
    case DeleteAnnotationItem(remoteId) => SyncSingleCall(env, store, log, DeleteAnnotation(remoteId))
    case DeleteArticleItem => SyncSingleCall(env, store, log, DeleteArticle(articleId))
    case AddLinkItem(url, origin) => SyncAddLink(env, store, log, url, origin)
  }

  /**
   * The item result after the catch clauses: processException's verdict for
   * the four caught exception classes (its success leaves the result null),
   * UNKNOWN for any other exception.
   */
  function ItemResult(env: Env, o: Outcome): Option<ErrorType> {
    match o
    case Returned(result) => result
    case Raised(e) => if e.Unchecked? then Some(Unknown) else env.process(e)
  }
}
