/** One input row becomes one training record: `parse_and_process_entry` gathers the
    row's fields and its thread, then lines 144-165 build the context from the thread
    and sanitize both context and response. */
module Records {
  import opened Text
  import opened Archive
  import opened ThreadWalker
  import opened Sanitizer

  /** A row of the input CSV, restricted to the columns the pipeline reads. */
  datatype Row = Row(id: string, body: string, date: string, link: string, parent: string, subreddit: string)

  /** The `entry` dictionary of lines 79-103; a key the code never set is `None`. */
  datatype Entry = Entry(
    date: string,
    messageId: string,
    link: string,
    myComment: string,
    subreddit: string,
    parentId: Option<string>,
    parentComment: Option<string>,
    submissionText: Option<string>)

  /** The restructured record of lines 158-165, one line of the output file. */
  datatype Record = Record(date: string, messageId: string, subreddit: string, author: string, context: string, response: string)

  /** What joins the parent bodies (line 91) and what splits them again (line 144). */
  const JoinMarker := " ||||||||| "
  const SplitMarker := "||||||||| "

  /** A call that either returns a value or never returns, because the thread walk it
      depends on loops forever. */
  datatype Outcome<T> = Hangs | Returns(value: T)

  /** A submission dictionary is truthy (line 99) when it holds at least one key. */
  predicate HasText(s: Submission)
    ensures HasText(s) <==> s != Submission(None, None)
  {
    s.selftext.Some? || s.title.Some?
  }

  /** `selftext + " " + title`, line 102; never empty, whatever the submission. */
  function SubmissionText(s: Submission): (r: string)
    ensures |r| > |OrEmpty(s.selftext)| && r[|OrEmpty(s.selftext)|] == ' '
  {
    OrEmpty(s.selftext) + " " + OrEmpty(s.title)
  }

  /** Line 90: each comment's body, or `""` when it has none, with newlines replaced. */
  function Bodies(comments: seq<Comment>): (r: seq<string>)
    ensures |r| == |comments|
    ensures forall i :: 0 <= i < |r| ==> r[i] == ReplaceNewlines(OrEmpty(comments[i].body))
  {
    seq(|comments|, i requires 0 <= i < |comments| => ReplaceNewlines(OrEmpty(comments[i].body)))
  }

  /** Lines 77-85: the fields every entry has. */
  function NewEntry(row: Row): (e: Entry)
    ensures e.messageId == row.id && e.date == row.date && e.link == row.link && e.subreddit == row.subreddit
    ensures |e.myComment| == |row.body| && '\n' !in e.myComment
    ensures e.parentId.None? && e.parentComment.None? && e.submissionText.None?
  {
    Entry(row.date, row.id, row.link, ReplaceNewlines(row.body), row.subreddit, None, None, None)
  }

  /** Lines 89-103: a non-empty thread adds the parent reference and the joined bodies,
      a truthy submission adds its text; neither touches the other fields. */
  function WithThread(e: Entry, parent: string, t: ThreadData): (r: Entry)
    ensures r.(parentId := e.parentId, parentComment := e.parentComment, submissionText := e.submissionText) == e
    ensures r.parentComment.Some? <==> t.comments != [] || e.parentComment.Some?
    ensures t.comments != [] ==> r.parentId == Some(parent) && r.parentComment == Some(Join(JoinMarker, Bodies(t.comments)))
    ensures t.submission.Some? && HasText(t.submission.value) ==> r.submissionText == Some(SubmissionText(t.submission.value))
    ensures !(t.submission.Some? && HasText(t.submission.value)) ==> r.submissionText == e.submissionText
    ensures t.comments == [] ==> r.parentId == e.parentId && r.parentComment == e.parentComment
  {
    var withComments :=
      if t.comments != [] then e.(parentId := Some(parent), parentComment := Some(Join(JoinMarker, Bodies(t.comments))))
      else e;
    if t.submission.Some? && HasText(t.submission.value) then withComments.(submissionText := Some(SubmissionText(t.submission.value)))
    else withComments
  }

  /** `parse_and_process_entry(row)`, lines 76-107: an empty `parent` skips the lookup,
      a lookup that gives `None` leaves the entry as it was, and a lookup that never
      returns makes the whole call never return. */
  function EntryOf(a: Archive, row: Row): (r: Outcome<Entry>)
    ensures r.Hangs? <==> row.parent != "" && ThreadOf(a, row.parent).Diverges?
    ensures r.Returns? ==> r.value.messageId == row.id && r.value.myComment == ReplaceNewlines(row.body)
    ensures r.Returns? && r.value.parentId.Some? ==> r.value.parentId == Some(row.parent)
    ensures r.Returns? && (row.parent == "" || ThreadOf(a, row.parent).Nothing?) ==> r.value == NewEntry(row)
  {
    if row.parent == "" then Returns(NewEntry(row))
    else
      match ThreadOf(a, row.parent)
      case Diverges => Hangs
      case Nothing => Returns(NewEntry(row))
      case Found(t) => Returns(WithThread(NewEntry(row), row.parent, t))
  }

  /** `parse_and_process_entry(row)`, lines 76-107, running the ancestor walk. */
  method ParseAndProcessEntry(a: Archive, row: Row) returns (r: Outcome<Entry>)
    ensures r == EntryOf(a, row)
  {
    var entry := NewEntry(row);
    if row.parent == "" {
      return Returns(entry);
    }
    var parentData := GetParentCommentData(a, row.parent);
    match parentData
    case Diverges =>
      return Hangs;
    case Nothing =>
      return Returns(entry);
    case Found(t) =>
      return Returns(WithThread(entry, row.parent, t));
  }

  /** `reversed_thread[0]` of line 144: the joined parent bodies up to the first split
      marker, `""` when the entry has none. */
  function FirstSegment(e: Entry): (r: string)
    ensures e.parentComment.None? ==> r == ""
    ensures StartsWith(OrEmpty(e.parentComment), r)
  {
    FirstField(OrEmpty(e.parentComment), SplitMarker)
  }

  /** Lines 144-153. The fallback of lines 148-151 asks `get_submission_data`, which
      never answers, so an entry without submission text gets the first segment alone. */
  function Context(a: Archive, e: Entry): (r: string)
    ensures e.submissionText.Some? && e.submissionText.value != "" ==> r == e.submissionText.value + " " + FirstSegment(e)
    ensures !(e.submissionText.Some? && e.submissionText.value != "") ==> r == FirstSegment(e)
  {
    var head := FirstSegment(e);
    if e.submissionText.Some? && e.submissionText.value != "" then e.submissionText.value + " " + head
    else
      match GetSubmissionData(a, e.messageId)
      case Some(s) => OrEmpty(s.title) + " " + OrEmpty(s.selftext) + " " + head
      case None => head
  }

  /** Lines 155-165. */
  function RecordOf(a: Archive, e: Entry): (r: Record)
    ensures r.messageId == e.messageId && r.date == e.date && r.subreddit == e.subreddit && r.author == ""
    ensures |r.context| <= |Context(a, e)| && |r.response| <= |e.myComment|
  {
    Record(e.date, e.messageId, e.subreddit, "", RemoveUnwanted(Context(a, e)), RemoveUnwanted(e.myComment))
  }

  /** Lines 142-165 for one row: the record keeps the row's id, date and subreddit, has
      an empty author, and its response is the row's body with newlines replaced, then
      sanitized. It is missing only when the thread walk never returns. */
  function RecordFor(a: Archive, row: Row): (r: Outcome<Record>)
    ensures r.Hangs? <==> row.parent != "" && ThreadOf(a, row.parent).Diverges?
    ensures r.Returns? ==>
      && r.value.messageId == row.id
      && r.value.date == row.date
      && r.value.subreddit == row.subreddit
      && r.value.author == ""
      && r.value.response == RemoveUnwanted(ReplaceNewlines(row.body))
  {
    match EntryOf(a, row)
    case Hangs => Hangs
    case Returns(e) => Returns(RecordOf(a, e))
  }

  /** Lines 142-165 for one row, running the ancestor walk. */
  method ProcessRow(a: Archive, row: Row) returns (r: Outcome<Record>)
    ensures r == RecordFor(a, row)
  {
    var entry := ParseAndProcessEntry(a, row);
    match entry
    case Hangs =>
      return Hangs;
    case Returns(e) =>
      return Returns(RecordOf(a, e));
  }

  /** A row without a parent still gives a record, with an empty context. */
  lemma EmptyParentGivesEmptyContext(a: Archive, row: Row)
    requires row.parent == ""
    ensures RecordFor(a, row) == Returns(Record(row.date, row.id, row.subreddit, "", "", RemoveUnwanted(ReplaceNewlines(row.body))))
  {
    assert RemoveUnwanted("") == "";
  }

  /** A failed thread lookup gives a record too, again with an empty context: the
      partial chain is dropped. */
  lemma FailedLookupGivesEmptyContext(a: Archive, row: Row)
    requires row.parent != "" && ThreadOf(a, row.parent).Nothing?
    ensures RecordFor(a, row) == Returns(Record(row.date, row.id, row.subreddit, "", "", RemoveUnwanted(ReplaceNewlines(row.body))))
  {
    assert RemoveUnwanted("") == "";
  }

  /** With a truthy submission the context is its text, a space and the first segment;
      without one it is the first segment alone. */
  lemma ContextOfThread(a: Archive, row: Row)
    requires row.parent != "" && ThreadOf(a, row.parent).Found?
    ensures var t := ThreadOf(a, row.parent).thread;
      var head := if t.comments == [] then "" else FirstField(Join(JoinMarker, Bodies(t.comments)), SplitMarker);
      RecordFor(a, row).Returns? &&
      RecordFor(a, row).value.context ==
        RemoveUnwanted(
          if t.submission.Some? && HasText(t.submission.value) then SubmissionText(t.submission.value) + " " + head
          else head)
  {
  }

  /** In a string that starts with `p` and then the split marker, where `p` ends with a
      space and holds no split marker, no occurrence of the marker starts inside `p`:
      one lying wholly inside `p` is excluded, and one reaching past its end would
      have to put one of its leading bars on that space. */
  lemma {:induction false} NoMarkerBefore(s: string, p: string)
    requires StartsWith(s, p + SplitMarker)
    requires |p| > 0 && p[|p| - 1] == ' ' && !Contains(p, SplitMarker)
    ensures forall j :: 0 <= j < |p| ==> !OccursAt(s, SplitMarker, j)
  {
    var q := p + SplitMarker;
    assert s[..|q|] == q;
    forall j | 0 <= j < |p|
      ensures !OccursAt(s, SplitMarker, j)
    {
      if j + |SplitMarker| <= |p| {
        assert forall k :: j <= k < j + |SplitMarker| ==> s[k] == q[k] == p[k];
        assert s[j..j + |SplitMarker|] == p[j..j + |SplitMarker|];
        assert !OccursAt(p, SplitMarker, j);
      } else {
        var k := |p| - 1 - j;
        assert s[j..j + |SplitMarker|][k] == s[|p| - 1] == q[|p| - 1] == ' ';
        assert SplitMarker[k] == '|';
      }
    }
  }

  /** The join-then-split round trip of lines 90-92 and 144 keeps the nearest parent's
      body, plus one space when there are further parents (the join marker is one space
      longer than the split marker), as long as that body followed by a space holds no
      split marker. */
  lemma {:induction false} FirstSegmentOfChain(bodies: seq<string>)
    requires bodies != []
    requires !Contains(bodies[0] + " ", SplitMarker)
    ensures FirstField(Join(JoinMarker, bodies), SplitMarker) == bodies[0] + (if |bodies| >= 2 then " " else "")
  {
    var s := Join(JoinMarker, bodies);
    var p := bodies[0] + " ";
    if |bodies| == 1 {
      forall i | 0 <= i
        ensures !OccursAt(s, SplitMarker, i)
      {
        if i + |SplitMarker| <= |s| {
          assert forall k :: i <= k < i + |SplitMarker| ==> s[k] == p[k];
          assert s[i..i + |SplitMarker|] == p[i..i + |SplitMarker|];
          assert !OccursAt(p, SplitMarker, i);
        }
      }
    } else {
      assert s == p + SplitMarker + Join(JoinMarker, bodies[1..]);
      assert StartsWith(s, p + SplitMarker);
      NoMarkerBefore(s, p);
      assert s[|p|..|p| + |SplitMarker|] == SplitMarker;
      assert OccursAt(s, SplitMarker, |p|);
    }
  }

  /** No body on its own need hold the split marker for the round trip to lose text:
      a first body ending in nine bars meets the space of the join marker. */
  lemma MarkerAcrossBodies()
    ensures FirstField(Join(JoinMarker, ["a|||||||||", "b"]), SplitMarker) == "a"
    ensures !Contains("a|||||||||", SplitMarker) && !Contains("b", SplitMarker)
  {
    var s := Join(JoinMarker, ["a|||||||||", "b"]);
    assert s == "a||||||||| ||||||||| b";
    assert s[0..10][0] == 'a';
    assert s[1..11] == SplitMarker;
    assert Find(s, SplitMarker, 0) == Some(1);
  }
}
