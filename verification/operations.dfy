/**
 * The local mutations of OperationsHelper. Each runs as one background job
 * that changes the local database, posts article-change notifications and
 * records pending remote changes through queueOfflineChange. A job is a pure
 * function from the store to its Effect; the queue calls it makes are listed
 * in order in `queued`, and Commit feeds them to the queue store.
 */
module Operations {
  import opened Options
  import opened Decimal
  import opened Entities
  import opened TagDiff
  import OfflineQueue

  /** What one job did: the store afterwards, the notifications, the queue calls in order. */
  datatype Effect = Effect(store: Store, notices: seq<Notice>, queued: seq<QueueOp>)

  /** A job either finishes or throws (a RuntimeException or a NullPointerException) before writing anything. */
  datatype JobOutcome = Finished(effect: Effect) | Threw

  /** The effect of a job that found nothing to do. */
  function Nothing(store: Store): Effect {
    Effect(store, [], [])
  }

  /** The store with one article replaced. */
  function WithArticle(store: Store, articleId: Int32, a: Article): (s: Store)
    ensures s.articles.Keys == store.articles.Keys + {articleId}
    ensures articleId in s.articles && s.articles[articleId] == a
    ensures forall id :: id in store.articles && id != articleId ==> s.articles[id] == store.articles[id]
    ensures s.annotations == store.annotations && s.tags == store.tags && s.nextAnnotationId == store.nextAnnotationId
  {
    store.(articles := store.articles[articleId := a])
  }

  /**
   * archiveArticleBG: nothing at all for an unknown article; otherwise the
   * flag is written and ARCHIVED/UNARCHIVED posted only when it differs, and
   * the ARCHIVE change is queued in both cases.
   */
  function ArchiveArticle(store: Store, articleId: Int32, archive: bool): (r: Effect)
    ensures Valid(store) ==> Valid(r.store)
    ensures articleId !in store.articles ==> r == Nothing(store)
    ensures articleId in store.articles ==>
      var a := store.articles[articleId];
      && r.store == WithArticle(store, articleId, a.(archive := archive))
      && r.queued == [QueueArticleChange(articleId, Archive)]
      && (a.archive == archive ==> r.store == store && r.notices == [])
      && (a.archive != archive ==>
            r.notices == [ArticleChanged(articleId, if archive then Archived else Unarchived)])
  {
    if articleId !in store.articles then Nothing(store)
    else
      var a := store.articles[articleId];
      var notices := if a.archive != archive then [ArticleChanged(articleId, if archive then Archived else Unarchived)] else [];
      assert a.archive == archive ==> store.articles[articleId := a.(archive := archive)] == store.articles;
      Effect(WithArticle(store, articleId, a.(archive := archive)), notices, [QueueArticleChange(articleId, Archive)])
  }

  /** favoriteArticleBG: as ArchiveArticle, for the favorite flag and the FAVORITE change. */
  function FavoriteArticle(store: Store, articleId: Int32, favorite: bool): (r: Effect)
    ensures Valid(store) ==> Valid(r.store)
    ensures articleId !in store.articles ==> r == Nothing(store)
    ensures articleId in store.articles ==>
      var a := store.articles[articleId];
      && r.store == WithArticle(store, articleId, a.(favorite := favorite))
      && r.queued == [QueueArticleChange(articleId, Favorite)]
      && (a.favorite == favorite ==> r.store == store && r.notices == [])
      && (a.favorite != favorite ==>
            r.notices == [ArticleChanged(articleId, if favorite then Favorited else Unfavorited)])
  {
    if articleId !in store.articles then Nothing(store)
    else
      var a := store.articles[articleId];
      var notices := if a.favorite != favorite then [ArticleChanged(articleId, if favorite then Favorited else Unfavorited)] else [];
      assert a.favorite == favorite ==> store.articles[articleId := a.(favorite := favorite)] == store.articles;
      Effect(WithArticle(store, articleId, a.(favorite := favorite)), notices, [QueueArticleChange(articleId, Favorite)])
  }

  /** A second identical archive request changes nothing locally and posts nothing, but still queues the change. */
  lemma ArchiveIdempotent(store: Store, articleId: Int32, archive: bool)
    ensures var once := ArchiveArticle(store, articleId, archive);
      var twice := ArchiveArticle(once.store, articleId, archive);
      && twice.store == once.store
      && twice.notices == []
      && twice.queued == once.queued
  {
  }

  /** A second identical favorite request changes nothing locally and posts nothing, but still queues the change. */
  lemma FavoriteIdempotent(store: Store, articleId: Int32, favorite: bool)
    ensures var once := FavoriteArticle(store, articleId, favorite);
      var twice := FavoriteArticle(once.store, articleId, favorite);
      && twice.store == once.store
      && twice.notices == []
      && twice.queued == once.queued
  {
  }

  /**
   * changeArticleTitleBG: nothing for an unknown article; otherwise the
   * title is written, TITLE_CHANGED posted and the TITLE change queued, even
   * when the title is the same.
   */
  function ChangeTitle(store: Store, articleId: Int32, title: string): (r: Effect)
    ensures Valid(store) ==> Valid(r.store)
    ensures articleId !in store.articles ==> r == Nothing(store)
    ensures articleId in store.articles ==>
      && r.store == WithArticle(store, articleId, store.articles[articleId].(title := title))
      && r.notices == [ArticleChanged(articleId, TitleChanged)]
      && r.queued == [QueueArticleChange(articleId, Title)]
  {
    if articleId !in store.articles then Nothing(store)
    else
      var a := store.articles[articleId];
      Effect(WithArticle(store, articleId, a.(title := title)),
             [ArticleChanged(articleId, TitleChanged)],
             [QueueArticleChange(articleId, Title)])
  }

  /**
   * setArticleTagsBG: the article ends with the requested labels; labels not
   * yet in the tag table are inserted there; TAGS_CHANGED is posted and the
   * TAGS change queued exactly when the label bag changed; the removed tags
   * that the server knows are queued for remote deletion first.
   */
  function SetArticleTags(store: Store, articleId: Int32, requested: seq<Tag>): (r: Effect)
    ensures Valid(store) ==> Valid(r.store)
    ensures articleId !in store.articles ==> r == Nothing(store)
    ensures articleId in store.articles ==>
      var a := store.articles[articleId];
      var d := DiffTags(a.tags, requested, store.tags);
      && articleId in r.store.articles
      && Bag(r.store.articles[articleId].tags) == Bag(requested)
      && r.store == WithArticle(store, articleId, a.(tags := d.kept + d.added)).(tags := store.tags + d.inserted)
      && (Bag(a.tags) == Bag(requested) ==> r == Nothing(store))
  {
    if articleId !in store.articles then Nothing(store)
    else
      var a := store.articles[articleId];
      var d := DiffTags(a.tags, requested, store.tags);
      DiffEmptyIffSameBag(a.tags, requested, store.tags);
      var changed := d.inserted != [] || d.removed != [] || d.added != [] || d.remoteDeletes != [];
      var tagged := a.(tags := d.kept + d.added);
      var store' := WithArticle(store, articleId, tagged).(tags := store.tags + d.inserted);
      if !changed then
        assert store' == store by {
          assert tagged == a;
          assert store.articles[articleId := a] == store.articles;
          assert store.tags + d.inserted == store.tags;
        }
        Nothing(store)
      else
        Effect(store', [ArticleChanged(articleId, TagsChanged)], TagsQueued(articleId, true, d.remoteDeletes))
  }

  /** The diff is empty in every part exactly when the label bags agree, and then the article keeps its tags. */
  lemma DiffEmptyIffSameBag(current: seq<Tag>, requested: seq<Tag>, table: seq<Tag>)
    ensures var d := DiffTags(current, requested, table);
      && ((d.inserted != [] || d.removed != [] || d.added != [] || d.remoteDeletes != [])
            <==> Bag(current) != Bag(requested))
      && (Bag(current) == Bag(requested) ==> d.kept + d.added == current && d.inserted == [])
  {
    var d := DiffTags(current, requested, table);
    assert d.removed == [] ==> d.remoteDeletes == [];
  }

  /**
   * What setArticleTagsBG reports: TAGS_CHANGED and the TAGS change exactly
   * when the label bag changed, and before them a deletion record exactly
   * when a removed tag is known to the server.
   */
  lemma SetArticleTagsReports(store: Store, articleId: Int32, requested: seq<Tag>)
    requires articleId in store.articles
    ensures var r := SetArticleTags(store, articleId, requested);
      var a := store.articles[articleId];
      var d := DiffTags(a.tags, requested, store.tags);
      var changed := Bag(a.tags) != Bag(requested);
      && r.notices == (if changed then [ArticleChanged(articleId, TagsChanged)] else [])
      && (QueueArticleChange(articleId, Tags) in r.queued <==> changed)
      && (QueueTagsDelete(articleId, d.remoteDeletes) in r.queued <==> d.remoteDeletes != [])
      && (d.remoteDeletes != [] ==> r.queued[0] == QueueTagsDelete(articleId, d.remoteDeletes))
      && |r.queued| <= 2
  {
    var a := store.articles[articleId];
    var d := DiffTags(a.tags, requested, store.tags);
    DiffEmptyIffSameBag(a.tags, requested, store.tags);
    var r := SetArticleTags(store, articleId, requested);
    var changed := Bag(a.tags) != Bag(requested);
    assert r.queued == TagsQueued(articleId, changed, d.remoteDeletes);
    TagsQueuedShape(articleId, changed, d.remoteDeletes);
  }

  /** The queue calls of setArticleTagsBG: a deletion record for known removed tags, then the TAGS change; none if nothing changed. */
  function TagsQueued(articleId: Int32, changed: bool, remoteDeletes: seq<string>): seq<QueueOp> {
    if !changed then []
    else (if remoteDeletes != [] then [QueueTagsDelete(articleId, remoteDeletes)] else []) + [QueueArticleChange(articleId, Tags)]
  }

  /** Which calls that list holds, and that a deletion record comes first. */
  lemma TagsQueuedShape(articleId: Int32, changed: bool, remoteDeletes: seq<string>)
    requires !changed ==> remoteDeletes == []
    ensures var q := TagsQueued(articleId, changed, remoteDeletes);
      && (QueueArticleChange(articleId, Tags) in q <==> changed)
      && (QueueTagsDelete(articleId, remoteDeletes) in q <==> remoteDeletes != [])
      && (remoteDeletes != [] ==> q[0] == QueueTagsDelete(articleId, remoteDeletes))
      && |q| <= 2
  {
  }

  /**
   * addAnnotationBG. An annotation without a local id is inserted under the
   * next row id, which is free in a valid store, attached to the article's
   * local row; that throws when the article is unknown. ANNOTATIONS_CHANGED
   * is posted when the article is known, and the add is queued with the
   * annotation's local id in every case that does not throw.
   */
  function AddAnnotation(store: Store, articleId: Int32, annotation: Annotation): (r: JobOutcome)
    requires Valid(store)
    ensures r.Finished? ==> Valid(r.effect.store)
    ensures r.Threw? <==> annotation.id.None? && articleId !in store.articles
    ensures r.Finished? && annotation.id.Some? ==>
      && r.effect.store == store
      && r.effect.queued == [QueueAnnotationAdd(articleId, annotation.id.value)]
    ensures r.Finished? && annotation.id.None? ==>
      var id := store.nextAnnotationId;
      var a := store.articles[articleId];
      && id !in store.annotations
      && r.effect.store.annotations
           == store.annotations[id := annotation.(id := Some(id), articleLocalId := Some(a.localId))]
      && r.effect.store.nextAnnotationId > id
      && r.effect.store.articles == store.articles && r.effect.store.tags == store.tags
      && r.effect.queued == [QueueAnnotationAdd(articleId, id)]
    ensures r.Finished? ==>
      r.effect.notices == (if articleId in store.articles then [ArticleChanged(articleId, AnnotationsChanged)] else [])
  {
    var notices := if articleId in store.articles then [ArticleChanged(articleId, AnnotationsChanged)] else [];
    match annotation.id
    case Some(id) => Finished(Effect(store, notices, [QueueAnnotationAdd(articleId, id)]))
    case None =>
      if articleId !in store.articles then Threw
      else
        var id := store.nextAnnotationId;
        var stored := annotation.(id := Some(id), articleLocalId := Some(store.articles[articleId].localId));
        var store' := store.(annotations := store.annotations[id := stored], nextAnnotationId := id + 1);
        Finished(Effect(store', notices, [QueueAnnotationAdd(articleId, id)]))
  }

  /**
   * updateAnnotationBG: throws for an annotation that was never inserted
   * and (on the stored row's text) when its row is gone; an unchanged text
   * does nothing; otherwise the stored text is replaced, ANNOTATIONS_CHANGED
   * posted when the article is known, and the update queued.
   */
  function UpdateAnnotation(store: Store, articleId: Int32, annotation: Annotation): (r: JobOutcome)
    ensures r.Finished? && Valid(store) ==> Valid(r.effect.store)
    ensures r.Threw? <==> annotation.id.None? || annotation.id.value !in store.annotations
    ensures r.Finished? ==>
      var id := annotation.id.value;
      var before := store.annotations[id];
      && (before.text == annotation.text ==> r.effect == Nothing(store))
      && (before.text != annotation.text ==>
            && r.effect.store == store.(annotations := store.annotations[id := before.(text := annotation.text)])
            && r.effect.notices == (if articleId in store.articles then [ArticleChanged(articleId, AnnotationsChanged)] else [])
            && r.effect.queued == [QueueAnnotationUpdate(articleId, id)])
  {
    match annotation.id
    case None => Threw
    case Some(id) =>
      if id !in store.annotations then Threw
      else
        var stored := store.annotations[id];
        if stored.text == annotation.text then Finished(Nothing(store))
        else
          var notices := if articleId in store.articles then [ArticleChanged(articleId, AnnotationsChanged)] else [];
          Finished(Effect(store.(annotations := store.annotations[id := stored.(text := annotation.text)]),
                          notices, [QueueAnnotationUpdate(articleId, id)]))
  }

  /**
   * deleteAnnotationBG: the local row (if the annotation has one) is
   * removed, ANNOTATIONS_CHANGED is posted when the article is known, and a
   * remote delete is queued only when the server knows the annotation.
   */
  function DeleteAnnotation(store: Store, articleId: Int32, annotation: Annotation): (r: Effect)
    ensures Valid(store) ==> Valid(r.store)
    ensures annotation.id.Some? ==> annotation.id.value !in r.store.annotations
    ensures forall id :: id in store.annotations && Some(id) != annotation.id ==>
      id in r.store.annotations && r.store.annotations[id] == store.annotations[id]
    ensures r.store.annotations.Keys <= store.annotations.Keys
    ensures r.store.articles == store.articles && r.store.tags == store.tags
    ensures r.notices == (if articleId in store.articles then [ArticleChanged(articleId, AnnotationsChanged)] else [])
    ensures annotation.remoteId.None? <==> r.queued == []
    ensures annotation.remoteId.Some? ==> r.queued == [QueueAnnotationDelete(articleId, annotation.remoteId.value)]
  {
    var store' := match annotation.id
      case Some(id) => store.(annotations := store.annotations - {id})
      case None => store;
    var notices := if articleId in store.articles then [ArticleChanged(articleId, AnnotationsChanged)] else [];
    var queued := match annotation.remoteId
      case Some(remoteId) => [QueueAnnotationDelete(articleId, remoteId)]
      case None => [];
    Effect(store', notices, queued)
  }

  /**
   * Deleting an annotation that addAnnotationBG has just inserted (as the
   * job left it, with its new local id) gives back the annotation table
   * as it was before the insert.
   */
  lemma DeleteUndoesAdd(store: Store, articleId: Int32, annotation: Annotation)
    requires Valid(store) && annotation.id.None? && articleId in store.articles
    ensures var added := AddAnnotation(store, articleId, annotation);
      var id := store.nextAnnotationId;
      && added.Finished? && id in added.effect.store.annotations
      && var deleted := DeleteAnnotation(added.effect.store, articleId, added.effect.store.annotations[id]);
         && deleted.store.annotations == store.annotations
         && deleted.store.articles == store.articles && deleted.store.tags == store.tags
  {
    var added := AddAnnotation(store, articleId, annotation).effect;
    var id := store.nextAnnotationId;
    assert added.store.annotations - {id} == store.annotations;
  }

  /** The annotations attached to local article row `localId`. */
  function AnnotationsOf(store: Store, localId: int): set<int> {
    set id | id in store.annotations && store.annotations[id].articleLocalId == Some(localId)
  }

  /**
   * deleteArticleBG: nothing for an unknown article; otherwise the article
   * (with its tag joins) and every annotation attached to it are removed,
   * DELETED is posted and the remote delete queued. The tag table stays.
   */
  function DeleteArticle(store: Store, articleId: Int32): (r: Effect)
    ensures Valid(store) ==> Valid(r.store)
    ensures articleId !in store.articles ==> r == Nothing(store)
    ensures articleId in store.articles ==>
      var localId := store.articles[articleId].localId;
      && r.store.articles == store.articles - {articleId}
      && (forall id :: id in r.store.annotations <==>
            id in store.annotations && store.annotations[id].articleLocalId != Some(localId))
      && (forall id :: id in r.store.annotations ==> r.store.annotations[id] == store.annotations[id])
      && r.store.tags == store.tags
      && r.notices == [ArticleChanged(articleId, Deleted)]
      && r.queued == [QueueArticleDelete(articleId)]
  {
    if articleId !in store.articles then Nothing(store)
    else
      var localId := store.articles[articleId].localId;
      var store' := store.(articles := store.articles - {articleId},
                           annotations := store.annotations - AnnotationsOf(store, localId));
      Effect(store', [ArticleChanged(articleId, Deleted)], [QueueArticleDelete(articleId)])
  }

  /** The queue after a job's queue calls, one queueOfflineChange each, and the lengths they posted. */
  datatype Committed = Committed(queue: seq<QueueItem>, posted: seq<nat>)

  /**
   * Feeding a job's queue calls to the queue store in order. Every call is
   * its own transaction; each posted length is the queue length right after
   * that call, so the last one posted is never stale.
   */
  function Commit(helper: OfflineQueue.QueueHelper, queue: seq<QueueItem>, ops: seq<QueueOp>): (r: Committed)
    ensures |r.posted| <= |ops|
    ensures ops == [] ==> r == Committed(queue, [])
    ensures |ops| == 1 ==>
      && r.queue == helper(queue, ops[0]).1
      && (r.posted != [] <==> helper(queue, ops[0]).0)
    decreases |ops|
  {
    if ops == [] then Committed(queue, [])
    else
      var u := OfflineQueue.QueueOfflineChange(helper, queue, ops[0]);
      var rest := Commit(helper, u.queue, ops[1..]);
      Committed(rest.queue, (if u.changedLength.Some? then [u.changedLength.value] else []) + rest.posted)
  }

  /**
   * Every queue call is its own transaction: committing two batches one after
   * the other is committing them together, with the posted lengths in order.
   */
  lemma {:induction false} CommitSplits(helper: OfflineQueue.QueueHelper, queue: seq<QueueItem>, first: seq<QueueOp>, second: seq<QueueOp>)
    ensures var a := Commit(helper, queue, first);
      var b := Commit(helper, a.queue, second);
      Commit(helper, queue, first + second) == Committed(b.queue, a.posted + b.posted)
    decreases |first|
  {
    if first == [] {
      assert first + second == second;
    } else {
      var u := OfflineQueue.QueueOfflineChange(helper, queue, first[0]);
      assert (first + second)[0] == first[0];
      assert (first + second)[1..] == first[1..] + second;
      CommitSplits(helper, u.queue, first[1..], second);
    }
  }

  /** When the last queue call posts a length, it is the length of the final queue. */
  lemma {:induction false} LastPostedIsFinalLength(helper: OfflineQueue.QueueHelper, queue: seq<QueueItem>, ops: seq<QueueOp>)
    requires ops != [] && helper(Commit(helper, queue, ops[..|ops| - 1]).queue, ops[|ops| - 1]).0
    ensures var r := Commit(helper, queue, ops);
      r.posted != [] && r.posted[|r.posted| - 1] == |r.queue|
    decreases |ops|
  {
    var u := OfflineQueue.QueueOfflineChange(helper, queue, ops[0]);
    if |ops| > 1 {
      assert ops[1..][..|ops[1..]| - 1] == ops[..|ops| - 1][1..];
      assert Commit(helper, queue, ops[..|ops| - 1]).queue == Commit(helper, u.queue, ops[1..][..|ops[1..]| - 1]).queue;
      assert ops[1..][|ops[1..]| - 1] == ops[|ops| - 1];
      LastPostedIsFinalLength(helper, u.queue, ops[1..]);
    }
  }
}
