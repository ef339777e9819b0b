/** The thread walker: `get_parent_comment_data` fetches the parent of a reply and
    climbs the chain of ancestors through the archive; `get_submission_data` is the
    fallback submission lookup. */
module ThreadWalker {
  import opened Text
  import opened Archive

  /** A reference with this prefix names a comment; any other names a submission. */
  const CommentPrefix := "t1_"

  predicate IsCommentRef(ref: string)
  {
    StartsWith(ref, CommentPrefix)
  }

  /** Python's `s[3:]`, which is empty for a string shorter than three. */
  function DropPrefix(s: string): string
  {
    if |s| >= 3 then s[3..] else ""
  }

  /** What one pass of the `while` loop does after comment `c` has been appended. */
  datatype Step =
    | Stop                                 // the loop ends normally
    | Fail                                 // an exception is thrown
    | Next(key: string, parent: Comment)   // `parent`, fetched by `key`, is appended next

  /** The step taken after `c`: its `parent_id` is read (a missing key throws); a
      reference without the comment prefix ends the loop; otherwise the parent is
      fetched by the reference minus its prefix, and a reply that is not status 200
      with a non-empty `data` list ends the loop. */
  function StepFrom(a: Archive, c: Comment): (r: Step)
    ensures r.Next? ==> c.parentId == Some(CommentPrefix + r.key)
    ensures r.Fail? <==> c.parentId.None? || (IsCommentRef(c.parentId.value) && Search(a, c.parentId.value[3..]).Raised?)
    ensures r.Stop? <==>
      && c.parentId.Some?
      && (|| !IsCommentRef(c.parentId.value)
          || (var reply := Search(a, c.parentId.value[3..]); reply.Answer? && !(reply.status == 200 && reply.data != [])))
    ensures r.Next? ==> r.key in a.search
    ensures r.Next? ==>
      var reply := Search(a, r.key);
      reply.Answer? && reply.status == 200 && reply.data != [] && r.parent == reply.data[0]
  {
    match c.parentId
    case None => Fail
    case Some(ref) =>
      if !IsCommentRef(ref) then Stop
      else
        assert ref == CommentPrefix + ref[3..];
        match Search(a, ref[3..])
        case Raised => Fail
        case Answer(status, data) =>
          if status == 200 && data != [] then Next(ref[3..], data[0]) else Stop
  }

  /** Each comment of `chain` after the first is the parent fetched from the one
      before it. */
  predicate IsChain(a: Archive, chain: seq<Comment>)
  {
    forall i :: 0 <= i < |chain| - 1 ==>
      StepFrom(a, chain[i]).Next? && StepFrom(a, chain[i]).parent == chain[i + 1]
  }

  /** How the climb from one comment ends. `Cycled`: the loop is about to fetch by a
      key it has fetched by before, so (the archive being fixed) it would repeat
      itself for ever. */
  datatype Halt = Ended | Failed | Cycled

  datatype Walk = Walk(halt: Halt, chain: seq<Comment>)

  /** The climb from `c`, which has already been appended, when the keys in `seen` have
      already been fetched. */
  function Climb(a: Archive, c: Comment, seen: set<string>): (w: Walk)
    ensures w.chain != [] && w.chain[0] == c
    decreases a.search.Keys - seen
  {
    match StepFrom(a, c)
    case Stop => Walk(Ended, [c])
    case Fail => Walk(Failed, [c])
    case Next(key, parent) =>
      if key in seen then Walk(Cycled, [c])
      else
        var w := Climb(a, parent, seen + {key});
        Walk(w.halt, [c] + w.chain)
  }

  lemma SameKeySameStep(a: Archive, x: Comment, y: Comment)
    requires StepFrom(a, x).Next? && StepFrom(a, y).Next?
    requires StepFrom(a, x).key == StepFrom(a, y).key
    ensures StepFrom(a, x) == StepFrom(a, y)
  {
  }

  /** The climb lists `c` first and then its ancestors, nearest first, and it ends
      exactly when the step after the last one ends or throws; it reports a cycle only
      when the next fetch repeats an earlier one. */
  lemma {:induction false} ClimbShape(a: Archive, c: Comment, seen: set<string>)
    ensures var w := Climb(a, c, seen);
      && w.chain != [] && w.chain[0] == c && IsChain(a, w.chain)
      && (w.halt == Ended <==> StepFrom(a, Last(w.chain)).Stop?)
      && (w.halt == Failed <==> StepFrom(a, Last(w.chain)).Fail?)
      && (w.halt == Cycled ==>
            StepFrom(a, Last(w.chain)).Next? &&
            (StepFrom(a, Last(w.chain)).key in seen ||
             exists i :: 0 <= i < |w.chain| - 1 && StepFrom(a, w.chain[i]) == StepFrom(a, Last(w.chain))))
    decreases a.search.Keys - seen
  {
    match StepFrom(a, c)
    case Stop =>
    case Fail =>
    case Next(key, parent) =>
      if key !in seen {
        var inner := Climb(a, parent, seen + {key});
        ClimbShape(a, parent, seen + {key});
        var w := Climb(a, c, seen);
        assert w.chain == [c] + inner.chain;
        assert Last(w.chain) == Last(inner.chain);
        forall i | 0 <= i < |w.chain| - 1
          ensures StepFrom(a, w.chain[i]).Next? && StepFrom(a, w.chain[i]).parent == w.chain[i + 1]
        {
          if i > 0 {
            assert w.chain[i] == inner.chain[i - 1] && w.chain[i + 1] == inner.chain[i];
          }
        }
        if w.halt == Cycled {
          var s := StepFrom(a, Last(w.chain));
          if s.key == key {
            SameKeySameStep(a, c, Last(w.chain));
            assert StepFrom(a, w.chain[0]) == s;
          } else if s.key !in seen {
            var i :| 0 <= i < |inner.chain| - 1 && StepFrom(a, inner.chain[i]) == s;
            assert w.chain[i + 1] == inner.chain[i];
          }
        }
      }
  }

  /** The chain the `while` loop builds from a comment, when it ends rather than
      cycles, is determined: two chains from the same comment that both end are equal. */
  lemma {:induction false} EndedChainsAgree(a: Archive, c1: seq<Comment>, c2: seq<Comment>)
    requires c1 != [] && c2 != [] && c1[0] == c2[0]
    requires IsChain(a, c1) && IsChain(a, c2)
    requires !StepFrom(a, Last(c1)).Next? && !StepFrom(a, Last(c2)).Next?
    ensures c1 == c2
  {
    if |c1| > 1 && |c2| > 1 {
      assert c1[1] == c2[1];
      assert IsChain(a, c1[1..]) by {
        forall i | 0 <= i < |c1[1..]| - 1
          ensures StepFrom(a, c1[1..][i]).Next? && StepFrom(a, c1[1..][i]).parent == c1[1..][i + 1]
        {
          assert c1[1..][i] == c1[i + 1] && c1[1..][i + 1] == c1[i + 2];
        }
      }
      assert IsChain(a, c2[1..]) by {
        forall i | 0 <= i < |c2[1..]| - 1
          ensures StepFrom(a, c2[1..][i]).Next? && StepFrom(a, c2[1..][i]).parent == c2[1..][i + 1]
        {
          assert c2[1..][i] == c2[i + 1] && c2[1..][i + 1] == c2[i + 2];
        }
      }
      EndedChainsAgree(a, c1[1..], c2[1..]);
      assert c1 == [c1[0]] + c1[1..] && c2 == [c2[0]] + c2[1..];
    }
  }

  /** The comment the `while` loop started at `c` has appended after `n` passes, or
      `None` once the loop has stopped (normally or by an exception). */
  function Reach(a: Archive, c: Comment, n: nat): Option<Comment>
  {
    if n == 0 then Some(c)
    else
      match Reach(a, c, n - 1)
      case None => None
      case Some(d) => if StepFrom(a, d).Next? then Some(StepFrom(a, d).parent) else None
  }

  lemma {:induction false} ReachAlongChain(a: Archive, chain: seq<Comment>, n: nat)
    requires IsChain(a, chain) && n < |chain|
    ensures Reach(a, chain[0], n) == Some(chain[n])
  {
    if n > 0 {
      ReachAlongChain(a, chain, n - 1);
    }
  }

  /** A climb that ends or throws is exactly the run of the `while` loop: the loop
      holds the chain's comments in order and stops after the last one. */
  lemma ClimbIsTheLoop(a: Archive, c: Comment, n: nat)
    requires Climb(a, c, {}).halt != Cycled
    ensures var chain := Climb(a, c, {}).chain;
      (n < |chain| ==> Reach(a, c, n) == Some(chain[n])) && (n >= |chain| ==> Reach(a, c, n).None?)
  {
    ClimbShape(a, c, {});
    var chain := Climb(a, c, {}).chain;
    if n < |chain| {
      ReachAlongChain(a, chain, n);
    } else {
      ReachAlongChain(a, chain, |chain| - 1);
      ReachStaysStopped(a, c, |chain|, n);
    }
  }

  lemma {:induction false} ReachStaysStopped(a: Archive, c: Comment, m: nat, n: nat)
    requires Reach(a, c, m).None? && m <= n
    ensures Reach(a, c, n).None?
    decreases n - m
  {
    if m < n {
      ReachStaysStopped(a, c, m + 1, n);
    }
  }

  lemma {:induction false} ReachInCycle(a: Archive, chain: seq<Comment>, j: nat, n: nat)
    requires IsChain(a, chain) && j < |chain| - 1
    requires StepFrom(a, Last(chain)) == StepFrom(a, chain[j])
    ensures exists m :: 0 <= m < |chain| && Reach(a, chain[0], n) == Some(chain[m])
  {
    if n < |chain| {
      ReachAlongChain(a, chain, n);
    } else {
      ReachInCycle(a, chain, j, n - 1);
      var m :| 0 <= m < |chain| && Reach(a, chain[0], n - 1) == Some(chain[m]);
      if m < |chain| - 1 {
        assert Reach(a, chain[0], n) == Some(chain[m + 1]);
      } else {
        assert Reach(a, chain[0], n) == Some(chain[j + 1]);
      }
    }
  }

  /** A climb reported as `Cycled` stands for a loop that never ends: after any number
      of passes the `while` loop is still running. */
  lemma CycleNeverEnds(a: Archive, c: Comment, n: nat)
    requires Climb(a, c, {}).halt == Cycled
    ensures Reach(a, c, n).Some?
  {
    ClimbShape(a, c, {});
    var chain := Climb(a, c, {}).chain;
    var j :| 0 <= j < |chain| - 1 && StepFrom(a, chain[j]) == StepFrom(a, Last(chain));
    ReachInCycle(a, chain, j, n);
  }

  /** What the walk from `first` promises: `first` comes first, then its ancestors
      nearest first; the walk ends normally exactly when the step after the last
      comment ends the loop, throws exactly when that step throws, and cycles exactly
      when that step would repeat the fetch made after an earlier comment. */
  predicate ProperWalk(a: Archive, first: Comment, w: Walk)
  {
    && w.chain != [] && w.chain[0] == first && IsChain(a, w.chain)
    && (w.halt == Ended <==> StepFrom(a, Last(w.chain)).Stop?)
    && (w.halt == Failed <==> StepFrom(a, Last(w.chain)).Fail?)
    && (w.halt == Cycled <==>
          exists i :: 0 <= i < |w.chain| - 1 && StepFrom(a, w.chain[i]) == StepFrom(a, Last(w.chain)))
  }

  lemma ClimbIsProper(a: Archive, first: Comment)
    ensures ProperWalk(a, first, Climb(a, first, {}))
  {
    ClimbShape(a, first, {});
  }

  /** `w` with `prefix` put in front of its chain. */
  function Graft(prefix: seq<Comment>, w: Walk): Walk
  {
    Walk(w.halt, prefix + w.chain)
  }

  lemma ClimbOneStep(a: Archive, c: Comment, seen: set<string>, key: string, parent: Comment)
    requires StepFrom(a, c) == Next(key, parent) && key !in seen
    ensures Climb(a, c, seen) == Graft([c], Climb(a, parent, seen + {key}))
  {
  }

  /** The `while` loop of lines 21-30 for one initially fetched comment `first`. Python
      has no cycle check; the model stops where the loop would start to repeat. */
  method WalkUp(a: Archive, first: Comment) returns (w: Walk)
    ensures w == Climb(a, first, {})
    ensures ProperWalk(a, first, w)
  {
    label Walking: {
      var done: seq<Comment> := [];
      var current := first;
      var fetched: set<string> := {};
      if first.parentId.None? {   // comment['parent_id'] throws
        w := Walk(Failed, [first]);
        break Walking;
      }
      var parentId := first.parentId.value;
      while IsCommentRef(parentId)
        invariant current.parentId == Some(parentId)
        invariant Climb(a, first, {}) == Graft(done, Climb(a, current, fetched))
        decreases a.search.Keys - fetched
      {
        var key := parentId[3..];
        var reply := Search(a, key);
        if reply.Raised? {
          w := Walk(Failed, done + [current]);
          break Walking;
        }
        if !(reply.status == 200 && reply.data != []) {
          w := Walk(Ended, done + [current]);
          break Walking;
        }
        var parent := reply.data[0];
        assert StepFrom(a, current) == Next(key, parent);
        if key in fetched {
          w := Walk(Cycled, done + [current]);
          break Walking;
        }
        ClimbOneStep(a, current, fetched, key, parent);
        assert done + ([current] + Climb(a, parent, fetched + {key}).chain)
            == (done + [current]) + Climb(a, parent, fetched + {key}).chain;
        done := done + [current];
        current := parent;
        fetched := fetched + {key};
        if parent.parentId.None? {   // parent_comment['parent_id'] throws
          w := Walk(Failed, done + [current]);
          break Walking;
        }
        parentId := parent.parentId.value;
      }
      w := Walk(Ended, done + [current]);
    }
    ClimbIsProper(a, first);
  }

  /** The walk of one initially fetched comment ended normally with `chain`. */
  ghost predicate IsWalk(a: Archive, c: Comment, chain: seq<Comment>)
  {
    chain != [] && chain[0] == c && IsChain(a, chain) && StepFrom(a, Last(chain)).Stop?
  }

  /** `comments` is the walk of each comment of `data` in turn, concatenated. */
  ghost predicate Walks(a: Archive, data: seq<Comment>, comments: seq<Comment>)
    decreases |data|
  {
    if data == [] then comments == []
    else exists k :: WalksSplitAt(a, data, comments, k)
  }

  /** The walks of all but the last comment of `data` take the first `k` comments, and
      the walk of the last takes the rest. */
  ghost predicate WalksSplitAt(a: Archive, data: seq<Comment>, comments: seq<Comment>, k: int)
    requires data != []
    decreases |data|, 0
  {
    0 <= k <= |comments| &&
    Walks(a, data[..|data| - 1], comments[..k]) && IsWalk(a, Last(data), comments[k..])
  }

  /** The `for` loop of lines 19-30 over the comments of the first fetch: each one is
      appended and walked in turn, and the first walk that throws or cycles ends it
      all. Reading `link_id` (line 22) throws when the key is missing. */
  function ClimbAll(a: Archive, data: seq<Comment>): (w: Walk)
    ensures w.halt == Ended ==> forall i :: 0 <= i < |data| ==> data[i].linkId.Some?
    ensures w.halt == Ended ==> Walks(a, data, w.chain)
    ensures data != [] ==> w.chain != []
  {
    if data == [] then Walk(Ended, [])
    else
      var before := ClimbAll(a, data[..|data| - 1]);
      if before.halt != Ended then before
      else
        var c := Last(data);
        if c.linkId.None? then Walk(Failed, before.chain + [c])
        else
          var w := Climb(a, c, {});
          ClimbIsProper(a, c);
          assert (before.chain + w.chain)[..|before.chain|] == before.chain;
          assert (before.chain + w.chain)[|before.chain|..] == w.chain;
          assert w.halt == Ended ==> WalksSplitAt(a, data, before.chain + w.chain, |before.chain|);
          Walk(w.halt, before.chain + w.chain)
  }

  /** Once a prefix of `data` has thrown or cycled, so has all of `data`. */
  lemma {:induction false} ClimbAllHalts(a: Archive, data: seq<Comment>, n: nat)
    requires n <= |data| && ClimbAll(a, data[..n]).halt != Ended
    ensures ClimbAll(a, data).halt == ClimbAll(a, data[..n]).halt
  {
    if n < |data| {
      assert data[..|data| - 1][..n] == data[..n];
      ClimbAllHalts(a, data[..|data| - 1], n);
    } else {
      assert data[..n] == data;
    }
  }

  /** The walks of `data` start with the first comment of `data`. */
  lemma {:induction false} WalksStartAtFirst(a: Archive, data: seq<Comment>, comments: seq<Comment>)
    requires data != [] && Walks(a, data, comments)
    ensures comments != [] && comments[0] == data[0]
  {
    var k :| WalksSplitAt(a, data, comments, k);
    if |data| > 1 {
      WalksStartAtFirst(a, data[..|data| - 1], comments[..k]);
    } else {
      assert data[..|data| - 1] == [];
      assert Walks(a, [], comments[..k]);
    }
  }

  /** Only one list of comments is the walks of `data`. */
  lemma {:induction false} WalksAgree(a: Archive, data: seq<Comment>, c1: seq<Comment>, c2: seq<Comment>)
    requires Walks(a, data, c1) && Walks(a, data, c2)
    ensures c1 == c2
  {
    if data != [] {
      var init := data[..|data| - 1];
      var k1 :| WalksSplitAt(a, data, c1, k1);
      var k2 :| WalksSplitAt(a, data, c2, k2);
      WalksAgree(a, init, c1[..k1], c2[..k2]);
      EndedChainsAgree(a, c1[k1..], c2[k2..]);
      assert c1 == c1[..k1] + c1[k1..];
      assert c2 == c2[..k2] + c2[k2..];
    }
  }

  /** The archived record of a thread: its comments, nearest first, and its
      submission, if one was found. */
  datatype ThreadData = ThreadData(comments: seq<Comment>, submission: Option<Submission>)

  /** What `get_parent_comment_data` gives: `Nothing` is Python's `None` (any exception,
      caught at lines 38-40); `Diverges` is a call that never returns. */
  datatype ThreadResult = Diverges | Nothing | Found(thread: ThreadData)

  /** The submission request of lines 32-36 for `linkId`: `None` when it throws,
      otherwise the first submission of a status-200 reply, if any. */
  function SubmissionFor(a: Archive, linkId: string): (r: Option<Option<Submission>>)
    ensures r.None? <==> SubmissionSearch(a, DropPrefix(linkId)).Raised?
    ensures r.Some? && r.value.Some? ==>
      var reply := SubmissionSearch(a, DropPrefix(linkId));
      reply.status == 200 && reply.data != [] && r.value.value == reply.data[0]
    ensures r == Some(None) ==>
      var reply := SubmissionSearch(a, DropPrefix(linkId));
      reply.status != 200 || reply.data == []
  {
    match SubmissionSearch(a, DropPrefix(linkId))
    case Raised => None
    case Answer(status, data) => Some(if status == 200 && data != [] then Some(data[0]) else None)
  }

  /** `get_parent_comment_data(commentId)`, lines 7-40. */
  function ThreadOf(a: Archive, commentId: string): (r: ThreadResult)
    ensures CommentSearch(a, commentId).Raised? ==> r == Nothing
    ensures r.Found? ==> CommentSearch(a, commentId).Answer?
    ensures r.Found? ==> (r.thread.comments == [] <==> CommentSearch(a, commentId).data == [])
    ensures r.Found? && r.thread.comments == [] ==> r.thread.submission == None
  {
    match CommentSearch(a, commentId)
    case Raised => Nothing
    case Answer(_, data) =>
      if data == [] then Found(ThreadData([], None))
      else
        var w := ClimbAll(a, data);
        match w.halt
        case Cycled => Diverges
        case Failed => Nothing
        case Ended =>
          match SubmissionFor(a, Last(data).linkId.value)
          case None => Nothing
          case Some(submission) => Found(ThreadData(w.chain, submission))
  }

  /** A thread that is found lists the walk of every comment of the first fetch, the
      first of them first, and takes its submission from the `link_id` of the last
      comment of that fetch (its only one, when the fetch is by a single id), not from
      any ancestor. An empty first fetch gives an empty thread without a submission. */
  lemma ThreadShape(a: Archive, commentId: string)
    requires ThreadOf(a, commentId).Found?
    ensures CommentSearch(a, commentId).Answer?
    ensures var data := CommentSearch(a, commentId).data;
      var t := ThreadOf(a, commentId).thread;
      if data == [] then t == ThreadData([], None)
      else
        && Walks(a, data, t.comments)
        && t.comments != [] && t.comments[0] == data[0]
        && Last(data).linkId.Some?
        && SubmissionFor(a, Last(data).linkId.value) == Some(t.submission)
  {
    var data := CommentSearch(a, commentId).data;
    if data != [] {
      WalksStartAtFirst(a, data, ThreadOf(a, commentId).thread.comments);
    }
  }

  /** A comment's walk that stops normally is the climb from it. */
  lemma WalkIsClimb(a: Archive, c: Comment, chain: seq<Comment>)
    requires IsWalk(a, c, chain)
    ensures Climb(a, c, {}) == Walk(Ended, chain)
  {
    var w := Climb(a, c, {});
    ClimbShape(a, c, {});
    ReachAlongChain(a, chain, |chain| - 1);
    assert Reach(a, c, |chain|).None?;
    if w.halt == Cycled {
      CycleNeverEnds(a, c, |chain|);
      assert false;
    }
    EndedChainsAgree(a, chain, w.chain);
  }

  /** The converse of `ClimbAll`'s contract: when every comment of the first fetch has a
      `link_id` and walks to a normal stop, the `for` loop ends normally with those
      walks. */
  lemma {:induction false} ClimbAllOfWalks(a: Archive, data: seq<Comment>, cs: seq<Comment>)
    requires forall i :: 0 <= i < |data| ==> data[i].linkId.Some?
    requires Walks(a, data, cs)
    ensures ClimbAll(a, data) == Walk(Ended, cs)
  {
    if data != [] {
      var init := data[..|data| - 1];
      var k :| WalksSplitAt(a, data, cs, k);
      assert forall i :: 0 <= i < |init| ==> init[i] == data[i];
      ClimbAllOfWalks(a, init, cs[..k]);
      WalkIsClimb(a, Last(data), cs[k..]);
      assert cs[..k] + cs[k..] == cs;
    }
  }

  /** The first comment of the first fetch to lack a `link_id` or to walk into an
      exception or a cycle decides how the `for` loop ends. */
  lemma ClimbAllStopsAt(a: Archive, data: seq<Comment>, n: nat)
    requires n < |data| && ClimbAll(a, data[..n]).halt == Ended
    ensures data[n].linkId.None? ==> ClimbAll(a, data).halt == Failed
    ensures data[n].linkId.Some? && Climb(a, data[n], {}).halt != Ended ==>
      ClimbAll(a, data).halt == Climb(a, data[n], {}).halt
  {
    assert data[..n + 1][..n] == data[..n];
    if data[n].linkId.None? || Climb(a, data[n], {}).halt != Ended {
      assert ClimbAll(a, data[..n + 1]).halt != Ended;
      ClimbAllHalts(a, data, n + 1);
    }
  }

  /** A first fetch whose comments all have a `link_id` and all walk to a normal stop
      gives `None` when the submission request throws, and otherwise the thread of
      those walks with the submission found. */
  lemma ThreadOfCompleteWalks(a: Archive, commentId: string, cs: seq<Comment>)
    requires CommentSearch(a, commentId).Answer?
    requires var data := CommentSearch(a, commentId).data;
      && data != []
      && (forall i :: 0 <= i < |data| ==> data[i].linkId.Some?)
      && Walks(a, data, cs)
    ensures var data := CommentSearch(a, commentId).data;
      var sub := SubmissionFor(a, Last(data).linkId.value);
      && (sub.None? ==> ThreadOf(a, commentId) == Nothing)
      && (sub.Some? ==> ThreadOf(a, commentId) == Found(ThreadData(cs, sub.value)))
  {
    ClimbAllOfWalks(a, CommentSearch(a, commentId).data, cs);
  }

  /** Any exception in the walks of the first fetch gives `None`, and a walk that
      cycles makes the whole call never return; only the first offending comment
      counts. */
  lemma ThreadOfStopsAt(a: Archive, commentId: string, n: nat)
    requires CommentSearch(a, commentId).Answer?
    requires var data := CommentSearch(a, commentId).data;
      n < |data| && ClimbAll(a, data[..n]).halt == Ended
    ensures var c := CommentSearch(a, commentId).data[n];
      && (c.linkId.None? || Climb(a, c, {}).halt == Failed ==> ThreadOf(a, commentId) == Nothing)
      && (c.linkId.Some? && Climb(a, c, {}).halt == Cycled ==> ThreadOf(a, commentId) == Diverges)
  {
    ClimbAllStopsAt(a, CommentSearch(a, commentId).data, n);
  }

  /** `get_parent_comment_data(commentId)`, lines 7-40: the first fetch, the walk of
      each comment it returns, then the submission request. */
  method GetParentCommentData(a: Archive, commentId: string) returns (r: ThreadResult)
    ensures r == ThreadOf(a, commentId)
  {
    var reply := CommentSearch(a, commentId);
    if reply.Raised? {
      return Nothing;
    }
    var comments := reply.data;
    if comments == [] {
      return Found(ThreadData([], None));
    }
    var collected: seq<Comment> := [];
    var linkId := "";
    for i := 0 to |comments|
      invariant ClimbAll(a, comments[..i]) == Walk(Ended, collected)
      invariant i > 0 ==> comments[i - 1].linkId == Some(linkId)
    {
      var comment := comments[i];
      if comment.linkId.None? {
        ThreadOfStopsAt(a, commentId, i);
        return Nothing;
      }
      linkId := comment.linkId.value;
      var w := WalkUp(a, comment);
      if w.halt != Ended {
        ThreadOfStopsAt(a, commentId, i);
        return if w.halt == Cycled then Diverges else Nothing;
      }
      assert comments[..i + 1][..i] == comments[..i];
      collected := collected + w.chain;
    }
    assert comments[..|comments|] == comments;
    match SubmissionFor(a, linkId)
    case None =>
      return Nothing;
    case Some(submission) =>
      return Found(ThreadData(collected, submission));
  }

  /** The fallback `get_submission_data(commentId)`, lines 42-63. Every path ends in
      `None`: a throwing fetch and an empty `data` list return it directly; otherwise
      `data` is a list indexed by the string `'link_id'` (line 51), which throws before
      any submission is requested. Even past that, line 58 assigns a key of the list
      `[]`, which throws too, so no shape of `data` gives anything but `None`. */
  function GetSubmissionData(a: Archive, commentId: string): (r: Option<Submission>)
    ensures r == None
  {
    None
  }
}
