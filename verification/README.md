# Offline queue of the wallabag Android client, in Dafny

The client lets a reader change articles and annotations without a
connection. Every local change is applied to the local database at once, and
a record of it goes into an offline queue. Later, `MainService` replays the
queue against the wallabag server. This project models both halves:

- the local jobs of `OperationsHelper`: archive, favorite, retitle,
  re-tag, add/update/delete annotation, delete article. Each job changes the
  store, posts notifications and records queue changes;
- the replay `syncOfflineQueue` and its per-kind helpers. It walks a
  snapshot of the queue in order, decides for each item whether it is done,
  kept for later, or stops the run, and then dequeues exactly the done items;
- the thin entry points `serveSimpleRequest` and `queueOfflineChange`,
  which hand one change to the queue store in one transaction. Also the
  SYNC_QUEUE branch of `onHandleIntent`, which defaults a missing result
  to UNKNOWN.

The model is pure. The local database is a `Store` value, and each
transaction is one step from a store to a store. Event-bus posts are
returned as values (`Notice`, `ProgressEvent`, posted queue lengths).
The wallabag server is an oracle `Env.remote` that answers a call given
the transcript of earlier exchanges. `processException` is an oracle
`Env.process`. The queue store `QueueHelper` is an oracle of type
`OfflineQueue.QueueHelper`.

Modules:
- `Options`
- `Decimal`: Java `Integer.toString`, `Integer.parseInt`, `Long.parseLong` over ASCII digits.
- `Entities`
- `Remote`
- `SyncItems`: the per-kind sync helpers.
- `SyncEngine`: the loop, dequeue and finish.
- `SyncRuns`: what one run does with each item, stated through the reply that item got.
- `OfflineQueue`
- `TagDiff`: the label diff of `setArticleTagsBG`.
- `Operations`: the local jobs.
- `EndToEnd`: a local edit followed through to the call the server receives.

## Model

| member | source | states |
|---|---|---|
| Decimal.IntRoundTrip | app/src/main/java/fr/gaulupeau/apps/Poche/data/OperationsHelper.java:224 | A tag id written with `Integer.toString` parses back with `Integer.parseInt` to the same 32-bit value, for every int. |
| Decimal.LongRoundTrip | app/src/main/java/fr/gaulupeau/apps/Poche/service/MainService.java:173-185 | A local annotation id written as decimal text parses back with `Long.parseLong` to the same 64-bit value, for every long. |
| SyncItems.NullMeansNotFound | app/src/main/java/fr/gaulupeau/apps/Poche/service/MainService.java:418-422 | A null reply is NOT_FOUND, a non-null reply is success, and an exception propagates, in both directions. |
| SyncItems.SyncArticleChange | app/src/main/java/fr/gaulupeau/apps/Poche/service/MainService.java:379-425 | A locally missing article gives NOT_FOUND_LOCALLY without any call. If the service client cannot be built, its exception escapes and nothing is sent. Otherwise exactly one modify call is made. It carries the current local value of exactly the named fields (all tag labels for TAGS), and a null reply is NOT_FOUND. The store is untouched. |
| SyncItems.SyncDeleteTags | app/src/main/java/fr/gaulupeau/apps/Poche/service/MainService.java:427-441 | Never sends more delete calls than there are tag ids. |
| SyncItems.SyncDeleteTagsItem | app/src/main/java/fr/gaulupeau/apps/Poche/service/MainService.java:427-441 | The service client is built once, before the loop: when that fails, even an empty id list ends with its exception and nothing is sent. Otherwise the loop runs, and an empty id list succeeds without a call. |
| SyncItems.DeleteTagsCallsInOrder | app/src/main/java/fr/gaulupeau/apps/Poche/service/MainService.java:431-436 | The j-th exchange is a delete of the j-th tag id as parsed, for this article. |
| SyncItems.DeleteTagsSendsAll | app/src/main/java/fr/gaulupeau/apps/Poche/service/MainService.java:431-438 | A null reply does not end the loop: if no exception occurs, every id is sent and no reply raised. |
| SyncItems.DeleteTagsNotFoundIffNull | app/src/main/java/fr/gaulupeau/apps/Poche/service/MainService.java:431-438 | When no exception occurs, the result is NOT_FOUND exactly when some reply was null, and success exactly when none was. |
| SyncItems.DeleteTagsRaisesOnlyFromServer | app/src/main/java/fr/gaulupeau/apps/Poche/service/MainService.java:431-436 | On a service client already built, when every id parses, the loop can only end with an exception that a delete call raised, and that exception is the last reply. |
| SyncItems.SyncAddAnnotation | app/src/main/java/fr/gaulupeau/apps/Poche/service/MainService.java:443-486 | A missing local annotation gives NOT_FOUND_LOCALLY without any call. If the service client cannot be built, its exception escapes and nothing changes. Otherwise one add call is made with its ranges, text and quote. A null reply is NOT_FOUND. A returned annotation's id becomes the local remote id, nothing else in the store changes, and the store stays valid. |
| SyncItems.SyncUpdateAnnotation | app/src/main/java/fr/gaulupeau/apps/Poche/service/MainService.java:488-511 | A missing local annotation gives NOT_FOUND_LOCALLY. An annotation without a remote id succeeds with no call. If the service client cannot be built, its exception escapes. Otherwise one update call is made with the stored text, and a null reply is NOT_FOUND. |
| SyncItems.SyncSingleCall | app/src/main/java/fr/gaulupeau/apps/Poche/service/MainService.java:513-522 | If the service client cannot be built, its exception escapes and nothing is sent. Otherwise annotation and article deletion make exactly the one call and map a null (false) reply to NOT_FOUND. |
| SyncItems.SyncAddLink | app/src/main/java/fr/gaulupeau/apps/Poche/service/MainService.java:282-299 | An empty url makes no call and succeeds. Otherwise, once the service client is built, the link and origin are sent. The upload flag is set exactly when the call returned normally; its value is ignored. |
| SyncItems.ArticleIdOf | app/src/main/java/fr/gaulupeau/apps/Poche/service/MainService.java:243-249 | A null article id is passed on as -1, and any other id unchanged. |
| SyncItems.Dispatch | app/src/main/java/fr/gaulupeau/apps/Poche/service/MainService.java:253-305 | Dispatching an item only appends to the transcript and keeps the store valid. The upload flag is set exactly when a link call in this item returned normally. A link call comes only from an ADD_LINK item with a non-empty url, and carries that url. |
| SyncEngine.Dispose | app/src/main/java/fr/gaulupeau/apps/Poche/service/MainService.java:316-347 | An item is done exactly when its result is null or a tolerated NOT_FOUND. It is kept exactly on NOT_FOUND_LOCALLY or NEGATIVE_RESPONSE. Any other error stops the run with that error. |
| SyncEngine.Replay | app/src/main/java/fr/gaulupeau/apps/Poche/service/MainService.java:239-347 | The loop only extends the trace and the transcript, and keeps the store valid. Only the last dispatched item may stop, and items stay undispatched only after a stop. The upload flag is set exactly when some link call returned normally. Each item's disposition is the decision for the reply it got when dispatched from the store and transcript the items before it left, and the run ends in the state the last dispatched item left. |
| SyncEngine.SyncOfflineQueue | app/src/main/java/fr/gaulupeau/apps/Poche/service/MainService.java:220-377 | Offline: NO_NETWORK, a null length, and nothing read or changed. Online: success exactly when no item stopped; otherwise the result is the stopping item's error. The returned length is the queue length after the run. A queue-changed event is posted exactly when some item completed, with that length. With distinct row ids the queue ends as exactly the items not completed, in order. A LinkUploadedEvent is posted exactly when a link was uploaded. One progress event is posted per dispatched item, all at position 0 as written. The store stays valid. Each dispatched item's disposition is the decision for its own reply, dispatched from the state the items before it left. |
| SyncRuns.ChainDecides | app/src/main/java/fr/gaulupeau/apps/Poche/service/MainService.java:239-347 | In any replay of the loop, the disposition of item j is the decision for the step that dispatches it from the store and transcript the first j items left, and the replay ends in the state after its last item. |
| SyncRuns.RunDecidesEachItem | app/src/main/java/fr/gaulupeau/apps/Poche/service/MainService.java:239-347 | In an online run, item j's disposition is decided by the reply it got when dispatched after the first j items. The run ends in the state its dispatched items left. A run that stopped returns the last dispatched item's error. |
| SyncRuns.ToleratedNotFoundIsDequeued | app/src/main/java/fr/gaulupeau/apps/Poche/service/MainService.java:316-323 | An item of any kind but ADD_LINK whose reply is NOT_FOUND counts as done. It is in the completed list, and with distinct row ids it leaves the queue. |
| SyncRuns.AddLinkNotFoundStopsRun | app/src/main/java/fr/gaulupeau/apps/Poche/service/MainService.java:316-341 | An ADD_LINK item whose reply is NOT_FOUND is the last item dispatched: it stops the run, and the run returns NOT_FOUND. |
| SyncRuns.AddLinkNotFoundKeepsRest | app/src/main/java/fr/gaulupeau/apps/Poche/service/MainService.java:337-356 | After such a stop, with distinct row ids, the queue holds the earlier items that were not done, then the ADD_LINK item and every item after it. |
| SyncRuns.SoftErrorKeepsItemAndGoesOn | app/src/main/java/fr/gaulupeau/apps/Poche/service/MainService.java:329-335 | An item answered NOT_FOUND_LOCALLY or NEGATIVE_RESPONSE is kept with that error. The run goes on to the next item if there is one, and with distinct row ids the item stays queued. |
| SyncRuns.DeletionCompletes | app/src/main/java/fr/gaulupeau/apps/Poche/service/MainService.java:272-280 | Against a server whose client builds and whose calls do not throw, an article or annotation deletion sends exactly its one delete call and is done, whatever the reply. |
| SyncRuns.DeletionsInOrder | app/src/main/java/fr/gaulupeau/apps/Poche/service/MainService.java:239-347 | Deletions replayed in order append one call each to the transcript, in queue order. |
| SyncRuns.ObligingServerClearsDeletions | app/src/main/java/fr/gaulupeau/apps/Poche/service/MainService.java:239-369 | A queue of deletions replayed against such a server: every item is done, the run succeeds, the queue ends empty, and the transcript is exactly one delete call per item, in queue order. |
| SyncRuns.CompletedLeaves | app/src/main/java/fr/gaulupeau/apps/Poche/service/MainService.java:322-356 | With distinct row ids, an item that was done is not among the items left queued. |
| SyncEngine.QueueAfterRun | app/src/main/java/fr/gaulupeau/apps/Poche/service/MainService.java:349-369 | With distinct row ids, the queue after the run (the snapshot if nothing completed, else the dequeued queue) is the snapshot minus the completed items. |
| SyncEngine.CompletedInSnapshotOrder | app/src/main/java/fr/gaulupeau/apps/Poche/service/MainService.java:322-323 | The completed list is a subsequence of the dispatched part of the snapshot, in snapshot order. |
| SyncEngine.CompletedAndRemainingSplit | app/src/main/java/fr/gaulupeau/apps/Poche/service/MainService.java:322-323 | Completed and remaining items partition the snapshot, as multisets and in total length. |
| SyncEngine.DequeueRemovesExactlyCompleted | app/src/main/java/fr/gaulupeau/apps/Poche/service/MainService.java:353-356 | With distinct row ids, dequeueing the completed items leaves exactly the remaining items, in order. |
| SyncEngine.NothingCompletedKeepsAll | app/src/main/java/fr/gaulupeau/apps/Poche/service/MainService.java:349-369 | When no item completed, the whole snapshot remains queued. |
| SyncEngine.StopKeepsItemAndSuffix | app/src/main/java/fr/gaulupeau/apps/Poche/service/MainService.java:337-341 | After a stop at item k, completions come only from items before k. Item k and every later item remain queued, in order. |
| SyncEngine.StopCompletesOnlyBefore | app/src/main/java/fr/gaulupeau/apps/Poche/service/MainService.java:337-341 | After a stop at item k, every completed item is one of the items before k. |
| SyncEngine.StopRemainsWithSuffix | app/src/main/java/fr/gaulupeau/apps/Poche/service/MainService.java:337-341 | After a stop at item k, the remaining items end with item k and every later item, in order. |
| SyncEngine.UnstoppedRunKeepsOnlySoftErrors | app/src/main/java/fr/gaulupeau/apps/Poche/service/MainService.java:329-335 | In a run that did not stop, every remaining item was kept for a soft error (NOT_FOUND_LOCALLY or NEGATIVE_RESPONSE). |
| SyncEngine.EmptyLinkCompletes | app/src/main/java/fr/gaulupeau/apps/Poche/service/MainService.java:291-299 | An ADD_LINK item with an empty url makes no call and is done. |
| SyncEngine.NotFoundToleratedExceptAddLink | app/src/main/java/fr/gaulupeau/apps/Poche/service/MainService.java:251-320 | NOT_FOUND completes every kind of item except ADD_LINK, where it stops the run. |
| SyncEngine.UncaughtExceptionStops | app/src/main/java/fr/gaulupeau/apps/Poche/service/MainService.java:310-313 | An exception outside the four caught classes becomes UNKNOWN and stops the run. |
| SyncEngine.RejectionThenServerError | app/src/main/java/fr/gaulupeau/apps/Poche/service/MainService.java:306-341 | processException sees what an exception carries: in one run, a first deletion answered 400 and classified NEGATIVE_RESPONSE is kept, and a second answered 500 stops the run with its error. Both items stay queued. |
| SyncEngine.ProgressAsWrittenStalls | app/src/main/java/fr/gaulupeau/apps/Poche/service/MainService.java:238-241 | As written, two dispatched items both report progress position 0, so the positions do not increase. |
| SyncEngine.Progress | app/src/main/java/fr/gaulupeau/apps/Poche/service/MainService.java:238-241 | Corrected progress: one event per dispatched item, positions strictly increasing and below the total. |
| SyncEngine.ProgressDiffersOnlyInPosition | app/src/main/java/fr/gaulupeau/apps/Poche/service/MainService.java:238-241 | The posted progress events agree with the intended ones in count and total, and differ only in the position, which stays 0. |
| SyncEngine.FinishSync | app/src/main/java/fr/gaulupeau/apps/Poche/service/MainService.java:90-103 | When syncOfflineQueue throws, the finished event carries UNKNOWN and a null length. Otherwise it carries the returned result and length. |
| SyncEngine.SyncFinishedReportsRun | app/src/main/java/fr/gaulupeau/apps/Poche/service/MainService.java:90-103 | For a run that returns, the finished event carries NO_NETWORK and a null length offline. Online it carries success exactly when no item stopped, and the length of the queue the run left (the remaining items, with distinct row ids). |
| OfflineQueue.Dequeue | app/src/main/java/fr/gaulupeau/apps/Poche/service/MainService.java:353-356 | Assumed dequeue: a row remains exactly when its id is not among the given items' ids. No given item remains. |
| OfflineQueue.QueueOfflineChange | app/src/main/java/fr/gaulupeau/apps/Poche/data/OperationsHelper.java:502-523 | A length is posted exactly when the queue action reports a change. The posted length is the length of the queue that the same transaction left. |
| OfflineQueue.SimpleCallOf | app/src/main/java/fr/gaulupeau/apps/Poche/service/MainService.java:143-211 | A request throws exactly when its annotation id text does not parse (as a long for add/update, an int for delete). It is not implemented exactly for the non-queue actions. Otherwise the queue call is the one for the request's action, on the request's article, with its change type, its tag-id text, its parsed annotation id, or its url and origin. |
| OfflineQueue.ServeSimpleRequest | app/src/main/java/fr/gaulupeau/apps/Poche/service/MainService.java:143-218 | Serving throws exactly on an unparsable id. Non-queue actions change nothing. Otherwise the queue is what the queue call left. A length is posted exactly when the queue call reported a change, and it is the new queue length. |
| OfflineQueue.RequestRoundTrip | app/src/main/java/fr/gaulupeau/apps/Poche/service/MainService.java:158-209 | Every queue call that goes through a simple request (all but the tag-deletion list written by the tag job) comes out of serving the request made for it as that very call. Annotation ids survive their decimal text. |
| TagDiff.FindLabel | app/src/main/java/fr/gaulupeau/apps/Poche/data/OperationsHelper.java:215-220 | Finds the first tag with the label: it matches, no earlier tag does, and none is found exactly when the label is absent. |
| TagDiff.MatchCurrent | app/src/main/java/fr/gaulupeau/apps/Poche/data/OperationsHelper.java:211-234 | Each current tag is either kept or removed: kept and removed together are the article's tags, as a multiset. Removed tags come from the article, and unmatched tags from the request. With nothing removed, the article's tags are kept unchanged. |
| TagDiff.MatchCurrentBags | app/src/main/java/fr/gaulupeau/apps/Poche/data/OperationsHelper.java:211-234 | Counted by label: kept plus removed is the article's tags, kept plus unmatched is the request, and no label is both removed and unmatched. |
| TagDiff.LinkRequested | app/src/main/java/fr/gaulupeau/apps/Poche/data/OperationsHelper.java:237-257 | Every unmatched label is linked, in order. A label already in the tag table reuses the first table tag with it. Otherwise the requested tag itself is used, and it is inserted exactly in that case. |
| TagDiff.LinkRequestedKeepsLabels | app/src/main/java/fr/gaulupeau/apps/Poche/data/OperationsHelper.java:237-257 | Linking keeps the labels: the linked tags carry exactly the unmatched labels, counted. |
| TagDiff.RemoteIdTextsParse | app/src/main/java/fr/gaulupeau/apps/Poche/data/OperationsHelper.java:224 | Every id text in a tag-deletion record parses back to the remote id of the removed tag it was written from. |
| TagDiff.DiffTags | app/src/main/java/fr/gaulupeau/apps/Poche/data/OperationsHelper.java:202-257 | As label multisets: kept is the intersection of current and requested, removed is current minus requested, added is requested minus current, and the article ends with exactly the requested labels. Inserted tags are requested and new to the table. The remote deletions are the removed tags' remote ids. The diff is empty exactly when the label bags agree. |
| TagDiff.DiffTagsShape | app/src/main/java/fr/gaulupeau/apps/Poche/data/OperationsHelper.java:211-257 | Kept and removed tags together are the article's tags. The unmatched requested tags are the request beyond the article, by label. Each added tag is its unmatched tag resolved against the table, in request order. Exactly the unmatched tags whose label the table lacks are inserted. |
| Operations.ArchiveArticle | app/src/main/java/fr/gaulupeau/apps/Poche/data/OperationsHelper.java:62-91 | An unknown article gives no effect at all. Otherwise the flag ends as requested. ARCHIVED/UNARCHIVED is posted only when it changed, and the ARCHIVE change is queued in both cases. |
| Operations.FavoriteArticle | app/src/main/java/fr/gaulupeau/apps/Poche/data/OperationsHelper.java:99-128 | As for archive, with the favorite flag, FAVORITED/UNFAVORITED and the FAVORITE change. |
| Operations.ArchiveIdempotent | app/src/main/java/fr/gaulupeau/apps/Poche/data/OperationsHelper.java:75-90 | Repeating an archive request changes nothing and posts nothing, but queues the change again. |
| Operations.FavoriteIdempotent | app/src/main/java/fr/gaulupeau/apps/Poche/data/OperationsHelper.java:112-127 | Repeating a favorite request changes nothing and posts nothing, but queues the change again. |
| Operations.ChangeTitle | app/src/main/java/fr/gaulupeau/apps/Poche/data/OperationsHelper.java:136-155 | An unknown article gives no effect. Otherwise the title is set, TITLE_CHANGED is posted and TITLE is queued, even when the title is unchanged. |
| Operations.SetArticleTags | app/src/main/java/fr/gaulupeau/apps/Poche/data/OperationsHelper.java:187-299 | An unknown article gives no effect. Otherwise the article's tag list becomes the kept tags in their order, followed by the resolved table or requested tag for each unmatched label; so it holds exactly the requested labels, counted. New labels join the tag table. Only this article and the tag table change, and identical label bags change nothing. |
| Operations.SetArticleTagsReports | app/src/main/java/fr/gaulupeau/apps/Poche/data/OperationsHelper.java:282-297 | TAGS_CHANGED is posted and TAGS queued exactly when the label bag changed. A tag-deletion record is queued, first, exactly when a removed tag has a remote id. |
| Operations.DiffEmptyIffSameBag | app/src/main/java/fr/gaulupeau/apps/Poche/data/OperationsHelper.java:259-290 | The "tags changed" flag is set exactly when the label bags differ. Equal bags leave the article's tag list as it was and insert nothing. |
| Operations.AddAnnotation | app/src/main/java/fr/gaulupeau/apps/Poche/data/OperationsHelper.java:306-347 | In a valid store, the job throws exactly when the annotation is unsaved and the article unknown. An unsaved annotation is stored under a fresh id (one no row holds) on the article's row; every other annotation stays, and the store stays valid. ANNOTATIONS_CHANGED is posted when the article is known. The add is queued with the annotation's local id whenever the job does not throw. |
| Operations.UpdateAnnotation | app/src/main/java/fr/gaulupeau/apps/Poche/data/OperationsHelper.java:353-389 | The job throws exactly when the annotation is unsaved or its row is gone. Identical text does nothing. Otherwise only the stored text changes, and the update is queued. |
| Operations.DeleteAnnotation | app/src/main/java/fr/gaulupeau/apps/Poche/data/OperationsHelper.java:395-425 | The annotation's local row is removed and no other row changes. A remote delete is queued exactly when the annotation has a remote id. |
| Operations.DeleteUndoesAdd | app/src/main/java/fr/gaulupeau/apps/Poche/data/OperationsHelper.java:306-425 | Deleting an annotation just inserted by addAnnotationBG gives back the annotation table, articles and tag table as they were before the insert. |
| Operations.DeleteArticle | app/src/main/java/fr/gaulupeau/apps/Poche/data/OperationsHelper.java:431-472 | An unknown article gives no effect. Otherwise the article and exactly its annotations are removed, other annotations and the tag table stay, DELETED is posted and the delete queued. |
| Operations.Commit | app/src/main/java/fr/gaulupeau/apps/Poche/data/OperationsHelper.java:502-523 | A job's queue calls run one transaction each. At most one length is posted per call, and none for no calls. |
| Operations.CommitSplits | app/src/main/java/fr/gaulupeau/apps/Poche/data/OperationsHelper.java:502-523 | Each queue call is its own transaction: committing two batches in turn equals committing them as one, with the posted lengths in call order. |
| Operations.LastPostedIsFinalLength | app/src/main/java/fr/gaulupeau/apps/Poche/data/OperationsHelper.java:502-523 | When the last queue call reports a change, the last posted length is the final queue length. |
| EndToEnd.ArchiveReachesServer | app/src/main/java/fr/gaulupeau/apps/Poche/service/MainService.java:394-396 | After an archive edit, replaying an ARCHIVE change on a built service client sends the flag that was set. |
| EndToEnd.FavoriteReachesServer | app/src/main/java/fr/gaulupeau/apps/Poche/service/MainService.java:398-400 | After a favorite edit, replaying a FAVORITE change on a built service client sends the flag that was set. |
| EndToEnd.TitleReachesServer | app/src/main/java/fr/gaulupeau/apps/Poche/service/MainService.java:402-404 | After a title edit, replaying a TITLE change on a built service client sends the new title. |
| EndToEnd.TagsReachServer | app/src/main/java/fr/gaulupeau/apps/Poche/service/MainService.java:406-411 | After a tag edit, replaying a TAGS change on a built service client sends exactly the requested labels, counted. |
| EndToEnd.TagDeletionsReachServer | app/src/main/java/fr/gaulupeau/apps/Poche/service/MainService.java:431-436 | A tag-deletion record as written by the tag edit, replayed on a built service client, sends deletes for the removed tags' remote ids, in order. It can stop only on an exception a delete call raised, never on a malformed id. |
| EndToEnd.AddedAnnotationReachesServer | app/src/main/java/fr/gaulupeau/apps/Poche/service/MainService.java:443-472 | An annotation newly added to a valid store, replayed on a built service client, is sent with its ranges, text and quote. |
| EndToEnd.UpdatedTextReachesServer | app/src/main/java/fr/gaulupeau/apps/Poche/service/MainService.java:500-501 | An edited annotation that the server knows, replayed on a built service client, is sent with its new text. |
| EndToEnd.DeletedAnnotationReachesServer | app/src/main/java/fr/gaulupeau/apps/Poche/service/MainService.java:513-522 | A locally deleted annotation that the server knows is queued with its remote id. Replayed with a built service client, it sends a delete of exactly that id, and any reply but an exception (null included) completes the item. |
| EndToEnd.DeletedArticleReachesServer | app/src/main/java/fr/gaulupeau/apps/Poche/service/MainService.java:276-279 | A locally deleted article is queued for deletion. Replayed with a built service client, it sends a delete of that article, and any reply but an exception (false included) completes the item. |

## Left out

- SQLite and greenDAO: each transaction is one pure step. Row caching and lazy-loaded lists (`article.getAnnotations()`, `resetTags`) are not modelled. An article's tag list stands for its join rows.
- Tag row ids: tags are compared by label and remote id only. Join-row ids (`joinsToDelete`, `joinsToCreate`) are folded into the article's tag list, and the ids the tag table hands out on insert are not modelled.
- Operations.SetArticleTags: when the article's tag list holds the same tag twice, the model does not follow the source. A request that names one existing label twice produces such a list in both (two joins, OperationsHelper.java:249-252). On a later re-tag that no longer names that label as often, the source drops every copy: `currentTags.removeAll` (OperationsHelper.java:233) removes all equal entries, and the join delete (OperationsHelper.java:272-276) removes every join to that tag id. The model drops only the copies left unmatched and keeps the matched ones.
- Operations.SetArticleTags: the article's new tag list is in request order, as `currentTags` is built (OperationsHelper.java:250, 254). The join rows the source writes put the joins to tags already in the table (OperationsHelper.java:251) before the joins to newly inserted tags (OperationsHelper.java:264-266). The order of join rows is not modelled.
- `setArticleTagsBG` removes the paired tags from the caller's own `newTags` list (OperationsHelper.java:228). The model passes the requested tags by value, so that change to the caller's list is not modelled.
- Entities.Valid (annotation row ids lie below the next id handed out) stands for the primary key of the annotation table. It is an invariant every job and every replay step keeps; `addAnnotationBG` is modelled on valid stores only.
- `QueueHelper` (its coalescing of changes, the row shape it writes, `getQueueItems`, `getQueueLength`) is an oracle. `OfflineQueue.Dequeue` is an assumption about `dequeueItems`, not a model of its code.
- `WallabagService` and `processException` are oracles (`Env.remote`, `Env.process`). `processException` sees the exception and what it carries (status code and body of an unsuccessful response, messages of the others), not the rest of the service state. `getWallabagService()` is the oracle `Env.connect`, asked where each helper builds the client (once before the tag-deletion loop). Whether it throws depends only on the transcript so far, so two attempts with no call between them fail alike.
- `ActionResult.updateWith` and the classifications processException can produce are opaque. The result is modelled as the stopping item's error type; further kinds are `OtherError`.
- The "errorType is not present" branch (MainService.java:342-344) cannot occur, because a result here always carries its error type.
- The IllegalStateException for an unknown ArticleChangeType and the IllegalArgumentException for an unknown queue action are not modelled, because the four change types and seven item kinds are exhaustive here.
- `Integer.parseInt` and `Long.parseLong` accept ASCII digits only. Other Unicode decimal digits are not modelled.
- `TextUtils.equals` on nullable strings: annotation texts are non-null strings here.
- `updateArticles`, `sweepDeletedArticles`, `setArticleProgressBG`, `wipeDB`, `addArticleBG`, `TaskService`, `EditAddedArticleActivity`: outside the offline-queue core. `addArticleBG` only hands a link to the queue store, which is an oracle here.
- Logging, thread priority and the sticky start event of SYNC_QUEUE are not modelled.
- SyncEngine.SyncOfflineQueue: the run is modelled with no job interleaved between reading the queue (MainService.java:234) and the dequeue transaction (MainService.java:351-363). One `queue` value is both the replayed snapshot and the queue that `dequeueItems` and `getQueueLength` act on. In the source the sync runs on MainService's IntentService thread (`onHandleIntent`, MainService.java:68), while the jobs call `queueOfflineChange` from TaskService's own thread (TaskService.java:75, 134-150). So a job can add or coalesce a row in the middle of a run. The posted length would then count rows the run never saw, and a row coalesced after its replay could still be dequeued. The model's promises about the queue after a run hold only for runs that no job interleaves: "exactly the items not completed", the returned length, SyncEngine.QueueAfterRun and SyncEngine.DequeueRemovesExactlyCompleted. The coalescing in `QueueHelper` is an oracle here, so the possible lost update is not modelled.
- SyncItems.SyncDeleteTags: its own contract only bounds the number of calls. The order of calls, the NOT_FOUND rule and the exception rule are in the lemmas that follow it (DeleteTagsCallsInOrder, DeleteTagsSendsAll, DeleteTagsNotFoundIffNull, DeleteTagsRaisesOnlyFromServer).

## Findings

| source | as written | input that shows it | evidently intended | confidence | as-written member | corrected member |
|---|---|---|---|---|---|---|
| app/src/main/java/fr/gaulupeau/apps/Poche/service/MainService.java:238-241 | `counter` is initialised to 0 and never incremented, so every SyncQueueProgressEvent reports position 0 | a queue of two items: both events are (0, 2) | the i-th dispatched item reports position i | not executed | SyncEngine.ProgressAsWrittenStalls | SyncEngine.Progress |

`SyncEngine.SyncOfflineQueue` reports the progress events as the code posts them (`ProgressAsWritten`). `SyncEngine.Progress` is the intended sequence, and `SyncEngine.ProgressDiffersOnlyInPosition` relates the two.
