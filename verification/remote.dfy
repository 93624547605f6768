/**
 * The server as the sync loop sees it. The remote client and the exception
 * classifier are not part of this model: both are oracles in an `Env`. The
 * server's reply may depend on everything sent to it earlier in the same run,
 * so every run keeps a transcript of exchanges.
 */
module Remote {
  import opened Options
  import opened Decimal
  import opened Entities

  /**
   * Exceptions a remote call can raise, with what they carry. The first four
   * are the classes the sync loop hands to processException, which may look
   * at that content (an UnsuccessfulResponseException's status code and
   * body, say); `Unchecked` is any other exception.
   */
  datatype Exception =
    | IncorrectConfiguration(message: string)
    | UnsuccessfulResponse(code: int, body: string)
    | IOFailure(message: string)
    | IllegalArgument(message: string)  // NumberFormatException included
    | Unchecked

  /** The fields a ModifyArticleBuilder was given before `execute()`. */
  datatype ModifyRequest = ModifyRequest(
    articleId: Int32,
    archive: Option<bool>,
    starred: Option<bool>,
    title: Option<string>,
    tags: seq<string>)

  /** Calls on the remote service. */
  datatype Call =
    | ModifyArticle(request: ModifyRequest)
    | DeleteArticle(articleId: Int32)
    | DeleteTag(articleId: Int32, tagId: Int32)
    | AddAnnotation(articleId: Int32, ranges: seq<AnnotationRange>, text: string, quote: string)
    | UpdateAnnotation(remoteId: Int32, text: string)
    | DeleteAnnotation(remoteId: Int32)
    | AddArticle(url: string, origin: Option<string>)

  /**
   * A reply: a non-null value (with the id it carries, where the call returns
   * one; `true` for deleteArticle), null (`false` for deleteArticle), or an exception.
   */
  datatype Response = Value(id: Int32) | Null | Raise(e: Exception)

  datatype Exchange = Exchange(call: Call, response: Response)

  /**
   * The server, getWallabagService() and processException, as oracles.
   * `connect` says whether building the service client throws (for
   * instance on an incorrect configuration) before any call is sent.
   */
  datatype Env = Env(
    connect: seq<Exchange> -> Option<Exception>,
    remote: (seq<Exchange>, Call) -> Response,
    process: Exception -> Option<ErrorType>)

  /** Sends `c` and appends the exchange to the transcript. */
  function Invoke(env: Env, log: seq<Exchange>, c: Call): (log': seq<Exchange>)
    ensures |log'| == |log| + 1 && log'[..|log|] == log
    ensures log'[|log|] == Exchange(c, env.remote(log, c))
  {
    log + [Exchange(c, env.remote(log, c))]
  }

  /** The reply to the last call of a transcript. */
  function LastReply(log: seq<Exchange>): Response
    requires |log| > 0
  {
    log[|log| - 1].response
  }
}
