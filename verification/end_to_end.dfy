/**
 * A local edit and its later replay. Each OperationsHelper job records what
 * changed; when the queue is synced, the matching MainService helper reads
 * the local state again and pushes it. These lemmas follow one edit through
 * to the call the server receives, whenever the service client can be
 * built at that point of the replay. (Which queue row the record becomes is
 * up to QueueHelper, which is not part of this model.)
 */
module EndToEnd {
  import opened Options
  import opened Decimal
  import opened Entities
  import opened Remote
  import opened SyncItems
  import opened TagDiff
  import opened Operations
  import SyncEngine

  /** The label list an article sends carries the same labels as its tag list. */
  lemma {:induction false} LabelsCountLikeBag(ts: seq<Tag>)
    ensures multiset(Labels(ts)) == Bag(ts)
  {
    if ts != [] {
      LabelsCountLikeBag(ts[1..]);
      assert Labels(ts) == [ts[0].name] + Labels(ts[1..]);
    }
  }

  /** After archiveArticleBG, replaying an ARCHIVE change sends the archive flag that was set. */
  lemma ArchiveReachesServer(env: Env, store: Store, log: seq<Exchange>, articleId: Int32,
                             archive: bool, changes: set<ChangeType>)
    requires articleId in store.articles && Archive in changes
    ensures var r := SyncArticleChange(env, ArchiveArticle(store, articleId, archive).store, log, articleId, changes);
      env.connect(log).None? ==>
        |r.log| == |log| + 1 && r.log[|log|].call.ModifyArticle?
        && r.log[|log|].call.request.archive == Some(archive)
  {
  }

  /** After favoriteArticleBG, replaying a FAVORITE change sends the starred flag that was set. */
  lemma FavoriteReachesServer(env: Env, store: Store, log: seq<Exchange>, articleId: Int32,
                              favorite: bool, changes: set<ChangeType>)
    requires articleId in store.articles && Favorite in changes
    ensures var r := SyncArticleChange(env, FavoriteArticle(store, articleId, favorite).store, log, articleId, changes);
      env.connect(log).None? ==>
        |r.log| == |log| + 1 && r.log[|log|].call.ModifyArticle?
        && r.log[|log|].call.request.starred == Some(favorite)
  {
  }

  /** After changeArticleTitleBG, replaying a TITLE change sends the new title. */
  lemma TitleReachesServer(env: Env, store: Store, log: seq<Exchange>, articleId: Int32,
                           title: string, changes: set<ChangeType>)
    requires articleId in store.articles && Title in changes
    ensures var r := SyncArticleChange(env, ChangeTitle(store, articleId, title).store, log, articleId, changes);
      env.connect(log).None? ==>
        |r.log| == |log| + 1 && r.log[|log|].call.ModifyArticle?
        && r.log[|log|].call.request.title == Some(title)
  {
  }

  /** After setArticleTagsBG, replaying a TAGS change sends exactly the requested labels, counted. */
  lemma TagsReachServer(env: Env, store: Store, log: seq<Exchange>, articleId: Int32,
                        requested: seq<Tag>, changes: set<ChangeType>)
    requires articleId in store.articles && Tags in changes
    ensures var r := SyncArticleChange(env, SetArticleTags(store, articleId, requested).store, log, articleId, changes);
      env.connect(log).None? ==>
        |r.log| == |log| + 1 && r.log[|log|].call.ModifyArticle?
        && multiset(r.log[|log|].call.request.tags) == Bag(requested)
  {
    var after := SetArticleTags(store, articleId, requested).store;
    LabelsCountLikeBag(after.articles[articleId].tags);
  }

  /**
   * A deletion record as setArticleTagsBG writes it (the remote ids of its
   * removed tags, as text), when synced, asks the server to delete those
   * remote ids in order, and can only stop on an exception the server
   * raised, never on a malformed id.
   */
  lemma TagDeletionsReachServer(env: Env, log: seq<Exchange>, articleId: Int32, removed: seq<Tag>)
    ensures var r := SyncDeleteTags(env, log, articleId, RemoteIdTexts(removed), false);
      && |r.0| <= |RemoteIds(removed)|
      && (forall j :: 0 <= j < |r.0| ==> r.0[j].call == DeleteTag(articleId, RemoteIds(removed)[j]))
      && (r.1.Raised? ==> r.0 != [] && r.0[|r.0| - 1].response == Raise(r.1.e))
  {
    var ids, texts := RemoteIds(removed), RemoteIdTexts(removed);
    RemoteIdTextsParse(removed);
    var r := SyncDeleteTags(env, log, articleId, texts, false);
    DeleteTagsCallsInOrder(env, log, articleId, texts, false);
    forall j | 0 <= j < |r.0|
      ensures r.0[j].call == DeleteTag(articleId, ids[j])
    {
      assert ParseInt(texts[j]) == Some(ids[j]);
    }
    DeleteTagsRaisesOnlyFromServer(env, log, articleId, texts, false);
  }

  /** A newly inserted annotation, replayed, is sent with its ranges, text and quote. */
  lemma AddedAnnotationReachesServer(env: Env, store: Store, log: seq<Exchange>, articleId: Int32,
                                     annotation: Annotation)
    requires Valid(store) && annotation.id.None? && articleId in store.articles
    ensures var job := Operations.AddAnnotation(store, articleId, annotation);
      && job.Finished?
      && job.effect.queued == [QueueAnnotationAdd(articleId, store.nextAnnotationId)]
      && var r := SyncAddAnnotation(env, job.effect.store, log, articleId, store.nextAnnotationId);
         env.connect(log).None? ==>
         |r.log| == |log| + 1
         && r.log[|log|].call == Remote.AddAnnotation(articleId, annotation.ranges, annotation.text, annotation.quote)
  {
  }

  /** An edited annotation the server knows, replayed, is sent with its new text. */
  lemma UpdatedTextReachesServer(env: Env, store: Store, log: seq<Exchange>, articleId: Int32,
                                 annotation: Annotation)
    requires annotation.id.Some? && annotation.id.value in store.annotations
    requires store.annotations[annotation.id.value].remoteId.Some?
    ensures var job := Operations.UpdateAnnotation(store, articleId, annotation);
      var id := annotation.id.value;
      && job.Finished?
      && var r := SyncUpdateAnnotation(env, job.effect.store, log, id);
         env.connect(log).None? ==>
         |r.log| == |log| + 1
         && r.log[|log|].call == Remote.UpdateAnnotation(store.annotations[id].remoteId.value, annotation.text)
  {
  }

  /**
   * An annotation the server knows, deleted locally: the job queues its
   * remote id, and the replayed item asks the server to delete exactly that
   * id. Any reply but an exception (a null one too: already gone) completes
   * the item.
   */
  lemma DeletedAnnotationReachesServer(env: Env, store: Store, log: seq<Exchange>, articleId: Int32,
                                       annotation: Annotation, rowId: int)
    requires annotation.remoteId.Some?
    ensures var job := Operations.DeleteAnnotation(store, articleId, annotation);
      var c := Remote.DeleteAnnotation(annotation.remoteId.value);
      && job.queued == [QueueAnnotationDelete(articleId, annotation.remoteId.value)]
      && var item := QueueItem(rowId, Some(articleId), DeleteAnnotationItem(job.queued[0].remoteAnnotationId));
         var step := Dispatch(env, job.store, log, item);
         env.connect(log).None? ==>
           && step.log == log + [Exchange(c, env.remote(log, c))]
           && (!env.remote(log, c).Raise? ==> SyncEngine.Decide(env, step, item) == SyncEngine.Completed)
  {
  }

  /**
   * An article deleted locally: the job queues its deletion, and the
   * replayed item asks the server to delete that article. Any reply but an
   * exception (`false`, already gone, too) completes the item.
   */
  lemma DeletedArticleReachesServer(env: Env, store: Store, log: seq<Exchange>, articleId: Int32, rowId: int)
    requires articleId in store.articles
    ensures var job := Operations.DeleteArticle(store, articleId);
      var c := Remote.DeleteArticle(articleId);
      && job.queued == [QueueArticleDelete(articleId)]
      && var item := QueueItem(rowId, Some(job.queued[0].articleId), DeleteArticleItem);
         var step := Dispatch(env, job.store, log, item);
         env.connect(log).None? ==>
           && step.log == log + [Exchange(c, env.remote(log, c))]
           && (!env.remote(log, c).Raise? ==> SyncEngine.Decide(env, step, item) == SyncEngine.Completed)
  {
  }
}
