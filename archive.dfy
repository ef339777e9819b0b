/** The remote archive of historical comments and submissions, as a fixed value.
    Each of the three HTTP endpoints the pipeline calls becomes a map from the
    query id to the reply; an id the archive has nothing for answers with an empty
    `data` list. */
module Archive {
  import opened Text

  /** One archived comment, as decoded from JSON; a key the record lacks is `None`. */
  datatype Comment = Comment(body: Option<string>, parentId: Option<string>, linkId: Option<string>)

  /** One archived submission, restricted by the query to its `selftext` and `title`. */
  datatype Submission = Submission(selftext: Option<string>, title: Option<string>)

  /** What one `requests.get(...)` yields as the code uses it: `Raised` when the request
      itself or the decoding of its JSON body throws, otherwise the status code and the
      `data` list of the body (empty when the body has no `data`). */
  datatype Reply<T> = Raised | Answer(status: int, data: seq<T>)

  datatype Archive = Archive(
    /** `GET /comment/search?ids=<id>` */
    commentSearch: map<string, Reply<Comment>>,
    /** `GET /search?ids=<id>`, the endpoint the ancestor walk uses */
    search: map<string, Reply<Comment>>,
    /** `GET /search/submission/?ids=<id>&fields=selftext,title` */
    submissionSearch: map<string, Reply<Submission>>)

  function CommentSearch(a: Archive, id: string): (r: Reply<Comment>)
    ensures r.Raised? || (r.Answer? && r.data != []) ==> id in a.commentSearch
    ensures id !in a.commentSearch ==> r == Answer(200, [])
  {
    if id in a.commentSearch then a.commentSearch[id] else Answer(200, [])
  }

  function Search(a: Archive, id: string): (r: Reply<Comment>)
    ensures r.Raised? || (r.Answer? && r.data != []) ==> id in a.search
    ensures id !in a.search ==> r == Answer(200, [])
  {
    if id in a.search then a.search[id] else Answer(200, [])
  }

  function SubmissionSearch(a: Archive, id: string): (r: Reply<Submission>)
    ensures r.Raised? || (r.Answer? && r.data != []) ==> id in a.submissionSearch
    ensures id !in a.submissionSearch ==> r == Answer(200, [])
  {
    if id in a.submissionSearch then a.submissionSearch[id] else Answer(200, [])
  }
}
