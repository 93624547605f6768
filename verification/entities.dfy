/**
 * The local records the offline queue works on: articles, tags and
 * annotations of the local database, the queue items that describe pending
 * remote mutations, the calls made on the queue store, and the notifications
 * posted on the event bus (as values instead of posts).
 */
module Entities {
  import opened Options
  import opened Decimal

  /** ActionResult's error type; a result that carries none is a success. */
  datatype ErrorType =
    | NoNetwork
    | NotFound
    | NotFoundLocally
    | NegativeResponse
    | Unknown
      /** Any further classification that processException may produce. */
    | OtherError(code: nat)

  /** The article fields an ARTICLE_CHANGE queue item can name. */
  datatype ChangeType = Archive | Favorite | Title | Tags

  /** A tag: its label (`name`) and, once the server knows it, the server's tag id. */
  datatype Tag = Tag(name: string, remoteId: Option<Int32>)

  /** A local article; `tags` is the article's list of joined tags. */
  datatype Article = Article(
    localId: int,
    title: string,
    archive: bool,
    favorite: bool,
    tags: seq<Tag>)

  datatype AnnotationRange = AnnotationRange(start: string, end: string, startOffset: int, endOffset: int)

  /** An annotation; `id` is the local row id (None until inserted), `remoteId` the server's id. */
  datatype Annotation = Annotation(
    id: Option<int>,
    articleLocalId: Option<int>,
    remoteId: Option<Int32>,
    text: string,
    quote: string,
    ranges: seq<AnnotationRange>)

  /**
   * The local database: articles keyed by their server-side article id,
   * annotations keyed by local id, the tag table, and the next row id the
   * annotation table will hand out.
   */
  datatype Store = Store(
    articles: map<Int32, Article>,
    annotations: map<int, Annotation>,
    tags: seq<Tag>,
    nextAnnotationId: int)

  /**
   * The annotation table's key: every row id it holds lies below the next
   * id it will hand out, so an insert never lands on an existing row.
   */
  predicate Valid(store: Store) {
    forall id :: id in store.annotations ==> id < store.nextAnnotationId
  }

  /** What a queue item asks the server to do. */
  datatype Payload =
    | ArticleChangeItem(changes: set<ChangeType>)
    | ArticleTagsDeleteItem(tagIds: seq<string>)
    | AddAnnotationItem(localAnnotationId: int)
    | UpdateAnnotationItem(localAnnotationId: int)
    | DeleteAnnotationItem(remoteAnnotationId: Int32)
    | DeleteArticleItem
    | AddLinkItem(url: string, origin: Option<string>)

  /** One row of the offline queue: its row id, the (nullable) article id, the payload. */
  datatype QueueItem = QueueItem(id: int, articleId: Option<Int32>, payload: Payload)

  /** A call on the queue store (QueueHelper), which records or coalesces a pending change. */
  datatype QueueOp =
    | QueueArticleChange(articleId: Int32, changeType: ChangeType)
    | QueueTagsDelete(articleId: Int32, tagIds: seq<string>)
    | QueueTagsDeleteText(articleId: Int32, tagIdsText: Option<string>)
    | QueueAnnotationAdd(articleId: Int32, localAnnotationId: int)
    | QueueAnnotationUpdate(articleId: Int32, localAnnotationId: int)
    | QueueAnnotationDelete(articleId: Int32, remoteAnnotationId: Int32)
    | QueueArticleDelete(articleId: Int32)
    | QueueLink(url: Option<string>, origin: Option<string>)

  /** The kinds of ArticlesChangedEvent a local mutation posts. */
  datatype ArticleChange =
    | Archived | Unarchived | Favorited | Unfavorited
    | TitleChanged | TagsChanged | AnnotationsChanged | Deleted

  datatype Notice = ArticleChanged(articleId: Int32, change: ArticleChange)

  /** The labels of a list of tags, in order. */
  function Labels(ts: seq<Tag>): (ls: seq<string>)
    ensures |ls| == |ts|
    ensures forall i :: 0 <= i < |ts| ==> ls[i] == ts[i].name
  {
    seq(|ts|, i requires 0 <= i < |ts| => ts[i].name)
  }

  /** The queue store's primary key: no two rows share an id. */
  predicate DistinctIds(q: seq<QueueItem>) {
    forall i, j :: 0 <= i < j < |q| ==> q[i].id != q[j].id
  }
}
