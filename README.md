# A verified model of the comment-to-dataset pipeline

`process_csv_into_dataset.py` turns a CSV export of one user's Reddit comments into an
Alpaca-style training set, one JSON record per comment:

- For every reply it walks up the archive (the pullpush API) to collect the parent
  comments and the submission.
- It builds a context from them and sanitizes both the context and the reply with four
  regular-expression deletions.
- It writes the records in buffered batches, recording a checkpoint id after every
  full-buffer flush (lines 170-177) so that an interrupted run can resume; the
  end-of-input write (lines 183-187) leaves the checkpoint unchanged, so a later resume
  processes those last records again.

This project models that core in Dafny and proves properties of the model.

- `text.dfy` (module `Text`): the Python string operations the pipeline relies on.
  These are `startswith`, `replace('\n', ' ')`, `strip()`, `join` and `split(sep)[0]`.
  `Text.Find` is the search for the separator that `split(sep)[0]` is built on.
- `archive.dfy` (module `Archive`): the remote archive as a fixed value.
  - It holds one map per HTTP endpoint: comment search, the `/search` endpoint used for
    ancestors, and submission search.
  - An id the archive lacks answers status 200 with an empty `data` list.
  - A request whose call or JSON decoding throws is `Raised`.
- `thread_walker.dfy` (module `ThreadWalker`): `get_parent_comment_data`, as a
  specification function (`ThreadOf`) and as the imperative walk (`WalkUp`,
  `GetParentCommentData`). It also holds `get_submission_data`.
- `sanitizer.dfy` (module `Sanitizer`): `remove_unwanted`.
  - Each pattern is an explicit matcher that gives the length of the match starting at
    an index.
  - One scanner performs `re.sub(..., '')`: it deletes matches left to right, without
    overlap.
- `records.dfy` (module `Records`): `parse_and_process_entry`, plus the context and
  record assembly of lines 142-165.
- `assembler.dfy` (module `Assembler`): the resume/buffer/flush loop of
  `create_alpaca_dataset`.
  - `CreateAlpacaDataset` is a method with a `for` loop over the rows.
  - It is proved equal to the specification function `Run`.
  - `Run` states the files the run leaves and how many records it produced.

Never-ending calls are represented as values:

- A thread walk that would loop for ever is modelled as `Diverges`/`Hangs`.
- The archive is finite, so the `while` loop of lines 23-30 can run for ever only by
  fetching a key it has fetched before. The model detects exactly that repeat.
  `ThreadWalker.CycleNeverEnds` proves that the loop then never stops.
- A run that meets such a row reports `finished == false`. Its output holds only what
  was flushed before that row.

The two submission texts put their parts in different orders. Line 102 builds
`selftext + " " + title`, and `Records.SubmissionText` does the same. The fallback of
line 151 builds `title + " " + selftext`, and `Records.Context` keeps that order in
its dead branch.

## Model

| member | source | states |
|---|---|---|
| Text.ReplaceNewlines | process_csv_into_dataset.py:83 | the result has the input's length, every newline becomes a space, every other character is kept, and no newline remains |
| Text.Find | process_csv_into_dataset.py:144 | a returned index is at or after the start and the pattern occurs there; no occurrence lies between the start and the returned index (or anywhere after the start when none is returned) |
| Text.FirstField | process_csv_into_dataset.py:144 | `split(sep)[0]`: the result is a prefix of the input that contains no occurrence of the separator; the separator starts right after it, or, when the separator never occurs, the result is the whole input |
| Text.TextStart | process_csv_into_dataset.py:123 | the index reached by skipping whitespace is in range, only whitespace was skipped, and it stops at a non-space |
| Text.TextEnd | process_csv_into_dataset.py:123 | the end reached by dropping trailing whitespace is in range, only whitespace was dropped, and the character before it is not a space |
| Text.Strip | process_csv_into_dataset.py:123 | the result is a contiguous piece of the input that neither starts nor ends with whitespace, and everything outside it is whitespace |
| Text.StripKeeps | process_csv_into_dataset.py:123 | a string with no whitespace at either end is its own strip |
| Text.Join | process_csv_into_dataset.py:92 | joining nothing gives the empty string; otherwise the result starts with the first part, followed by the separator when there are more parts, and it is at least as long as the parts' separators and first part together |
| Archive.Search | process_csv_into_dataset.py:24 | a reply that throws, or an answer with data, comes only for an id the endpoint holds; an id the endpoint does not hold answers status 200 with no data |
| Archive.CommentSearch | process_csv_into_dataset.py:12-14 | the same for the comment search endpoint |
| Archive.SubmissionSearch | process_csv_into_dataset.py:32 | the same for the submission search endpoint |
| ThreadWalker.StepFrom | process_csv_into_dataset.py:21-30 | the step throws exactly when `parent_id` is missing or the fetch of a comment reference throws, and it stops exactly when the reference lacks the comment prefix or the reply is not status 200 with data; otherwise it continues with the first comment of that reply, fetched by `parent_id` minus its `t1_` prefix |
| ThreadWalker.Climb | process_csv_into_dataset.py:20-30 | the walk from a comment starts with that comment |
| ThreadWalker.SameKeySameStep | process_csv_into_dataset.py:24-26 | two passes that fetch by the same key take the same step, since the archive is fixed |
| ThreadWalker.ClimbShape | process_csv_into_dataset.py:20-30 | the walk lists the comment and then its ancestors, each fetched from the one before; it ends normally exactly when the next step stops, fails exactly when that step throws, and reports a cycle only when that step repeats a fetch |
| ThreadWalker.EndedChainsAgree | process_csv_into_dataset.py:23-30 | two chains from the same comment that both stop are equal, so the loop's chain is determined |
| ThreadWalker.ReachAlongChain | process_csv_into_dataset.py:23-30 | after `n` passes the loop holds the `n`-th comment of a chain |
| ThreadWalker.ClimbIsTheLoop | process_csv_into_dataset.py:23-30 | a walk that does not cycle is exactly the loop's run: the loop holds its comments in order and has stopped after the last one |
| ThreadWalker.ReachStaysStopped | process_csv_into_dataset.py:23-30 | a loop that has stopped stays stopped |
| ThreadWalker.ReachInCycle | process_csv_into_dataset.py:23-30 | on a chain whose last step repeats an earlier one, the loop always holds a comment of the chain |
| ThreadWalker.CycleNeverEnds | process_csv_into_dataset.py:23-30 | a walk reported as cycling is a loop still running after any number of passes |
| ThreadWalker.ClimbIsProper | process_csv_into_dataset.py:20-30 | the walk has all the shape properties of `ProperWalk`, with the cycle case as an if-and-only-if |
| ThreadWalker.ClimbOneStep | process_csv_into_dataset.py:26-28 | a fetch by a fresh key puts the current comment in front of the parent's walk |
| ThreadWalker.WalkUp | process_csv_into_dataset.py:20-30 | the imperative loop, including the `parent_id` reads that throw on a missing key, computes exactly the specification walk, which is a proper walk |
| ThreadWalker.ClimbAll | process_csv_into_dataset.py:19-30 | when the `for` loop ends normally, every comment of the first fetch had a `link_id` and the chain is the concatenation of their walks; a non-empty fetch gives a non-empty chain |
| ThreadWalker.ClimbAllOfWalks | process_csv_into_dataset.py:19-30 | the converse: when every comment has a `link_id` and walks to a normal stop, the loop ends normally with exactly those walks |
| ThreadWalker.WalkIsClimb | process_csv_into_dataset.py:20-30 | a walk that stops normally is the climb from its comment |
| ThreadWalker.ClimbAllStopsAt | process_csv_into_dataset.py:19-30 | the first comment that lacks a `link_id` makes the loop throw, and the first walk that throws or cycles ends the loop the same way |
| ThreadWalker.ClimbAllHalts | process_csv_into_dataset.py:19-30 | a walk that throws or cycles ends the whole `for` loop with the same outcome |
| ThreadWalker.WalksStartAtFirst | process_csv_into_dataset.py:19-20 | the collected comments start with the first comment of the first fetch |
| ThreadWalker.WalksAgree | process_csv_into_dataset.py:19-30 | only one list of comments is the walks of a given first fetch |
| ThreadWalker.SubmissionFor | process_csv_into_dataset.py:32-36 | the submission request gives nothing exactly when it throws; a submission exactly when the reply is status 200 with data, and then it is the first one |
| ThreadWalker.ThreadOf | process_csv_into_dataset.py:7-40 | a first fetch that throws gives `None`; a found thread comes from an answered first fetch, is empty exactly when that fetch is, and then has no submission |
| ThreadWalker.ThreadShape | process_csv_into_dataset.py:7-40 | a found thread comes from an answered first fetch; an empty fetch gives an empty thread without a submission; otherwise it holds the walks of the fetched comments, the first one first, and the submission comes from the last fetched comment's `link_id` |
| ThreadWalker.ThreadOfCompleteWalks | process_csv_into_dataset.py:19-37 | the converse of `ThreadShape`: complete walks give the thread of those walks with the submission found, or `None` when the submission request throws |
| ThreadWalker.ThreadOfStopsAt | process_csv_into_dataset.py:19-40 | a missing `link_id` or a walk that throws gives `None`, and a walk that cycles makes the call never return |
| ThreadWalker.GetParentCommentData | process_csv_into_dataset.py:7-40 | the imperative function, with its two exception paths, computes exactly `ThreadOf` |
| ThreadWalker.GetSubmissionData | process_csv_into_dataset.py:42-63 | the fallback lookup returns `None` on every path |
| Sanitizer.DeleteFrom | process_csv_into_dataset.py:70-73 | the scan never produces more characters than remain from its start |
| Sanitizer.DeleteFromIsSubsequence | process_csv_into_dataset.py:70-73 | each substitution by the empty string only deletes characters |
| Sanitizer.DeleteFromNothing | process_csv_into_dataset.py:70-73 | where no match starts, a substitution leaves the text unchanged |
| Sanitizer.DeleteFromSkips | process_csv_into_dataset.py:70-73 | at a match the scan resumes right after it |
| Sanitizer.DeleteKeepsPrefix | process_csv_into_dataset.py:70-73 | matches that start only where the rest is deleted leave the characters before them unchanged |
| Sanitizer.PrefixKept | process_csv_into_dataset.py:70-73 | the same, from any start index |
| Sanitizer.RemoveUnwanted | process_csv_into_dataset.py:65-74 | the sanitized text is never longer than the input |
| Sanitizer.CodeBlockAt | process_csv_into_dataset.py:69 | a match runs from an opening fence to the first fence after it, is at least six characters long, and lies within the text; a fence with another fence after it always starts a match, which ends no later than that fence |
| Sanitizer.NonSpaceRun | process_csv_into_dataset.py:66 | `\S+` is greedy: the run has no whitespace and stops at whitespace or the end |
| Sanitizer.SchemeAt | process_csv_into_dataset.py:66 | a match is `://` (3), `http://` (7) or `https://` (8) in any case, each exactly when the text holds it at that index, and it lies within the text and ends in `://` |
| Sanitizer.SchemesExclusive | process_csv_into_dataset.py:66 | `https` followed by `://` one character early cannot happen, and a bare `://` never begins with a scheme, so the three alternatives never overlap |
| Sanitizer.UrlAt | process_csv_into_dataset.py:66 | a URL starts exactly where a scheme match is followed by a non-space; it extends the scheme by a run of non-space characters that stops at whitespace or the end |
| Sanitizer.DigitRun | process_csv_into_dataset.py:67 | a maximal run of digits |
| Sanitizer.DateAt | process_csv_into_dataset.py:67 | a date match starts with a digit and lies within the text |
| Sanitizer.BoundaryAt | process_csv_into_dataset.py:67-68 | `\b`: a boundary has a word character on at least one side, and inside the text there is none between two word characters or two other characters |
| Sanitizer.DateAtShape | process_csv_into_dataset.py:67 | a date match is a word boundary, one or two digits, a separator, one or two digits, a separator, four digits and a word boundary, with the digit runs maximal |
| Sanitizer.DateAtMatches | process_csv_into_dataset.py:67 | the converse: any text of that shape at an index is a date match of exactly that length |
| Sanitizer.DateAtFromRuns | process_csv_into_dataset.py:67 | the same, given the lengths of the three digit runs |
| Sanitizer.DigitRunIs | process_csv_into_dataset.py:67 | a run of digits followed by a non-digit is the maximal run |
| Sanitizer.DigitRunAtLeast | process_csv_into_dataset.py:67 | a run of digits of a given length makes the maximal run at least that long |
| Sanitizer.NonBackslashRun | process_csv_into_dataset.py:68 | a maximal run free of backslashes |
| Sanitizer.LastBoundary | process_csv_into_dataset.py:68 | the returned position is a word boundary in range with none after it, and none is returned only when there is no boundary in range |
| Sanitizer.PathAt | process_csv_into_dataset.py:68 | a path match is a word boundary, a drive letter, `:\`, a backslash-free segment, a backslash and a backslash-free segment ending at a word boundary, with the first segment maximal |
| Sanitizer.PathAtLongest | process_csv_into_dataset.py:68 | the converse: any text of that shape at an index is matched, its middle backslash is the first one after the drive, and the match is at least as long as the shape, since the second segment is greedy |
| Sanitizer.RemoveUnwantedOnlyDeletes | process_csv_into_dataset.py:65-74 | the sanitized text is a subsequence of the input, so never longer |
| Sanitizer.RemoveUnwantedKeepsPlainText | process_csv_into_dataset.py:65-74 | text with no fence, no `://`, no `:\` and no digit comes back unchanged |
| Sanitizer.CodeBlocksGoFirst | process_csv_into_dataset.py:69-73 | on the input ```` ```://a```b ````, removing code blocks first leaves `b`, so the URL inside the block goes with it |
| Sanitizer.UrlsFirstWouldCutBlocks | process_csv_into_dataset.py:69-73 | on the same input, removing URLs first would leave the opening fence ```` ``` ````, so the pass order matters |
| Sanitizer.UrlPassOnExample | process_csv_into_dataset.py:66 | on the same input, the URL pass alone leaves only the opening fence: the URL runs to the end, across the closing fence |
| Sanitizer.UrlInExample | process_csv_into_dataset.py:66 | in the same input, the URL starting after the opening fence runs to the end of the text |
| Sanitizer.BareSchemeUrl | process_csv_into_dataset.py:66 | a bare `://` followed by a non-space starts a URL of that and the following non-space run |
| Sanitizer.NoUrlOnBacktick | process_csv_into_dataset.py:66 | no URL starts on a backtick |
| Sanitizer.FenceThenUrl | process_csv_into_dataset.py:66-71 | a fence followed by a URL that runs to the end loses the URL to the URL pass and keeps the fence |
| Records.SubmissionText | process_csv_into_dataset.py:102 | the submission text is never empty: a space always follows the selftext |
| Records.HasText | process_csv_into_dataset.py:99 | a submission is truthy exactly when it is not the empty dictionary |
| Records.Bodies | process_csv_into_dataset.py:90 | one entry per comment, its body (or `""`) with newlines replaced |
| Records.NewEntry | process_csv_into_dataset.py:77-85 | the entry has the row's id, date, link and subreddit, a comment of the body's length with no newline, and no parent, thread or submission fields |
| Records.WithThread | process_csv_into_dataset.py:89-103 | a non-empty thread sets the parent id and the bodies joined by the marker, and an empty one leaves both as they were; a truthy submission sets the submission text, and otherwise it is left as it was; no other field changes |
| Records.EntryOf | process_csv_into_dataset.py:76-107 | the call never returns exactly when the row has a parent whose lookup never returns; otherwise the entry keeps the row's id and newline-free body, any parent id set is the row's parent, and without a parent or with a failed lookup the entry is the plain one |
| Records.ParseAndProcessEntry | process_csv_into_dataset.py:76-107 | the method computes exactly the specification entry |
| Records.FirstSegment | process_csv_into_dataset.py:144 | the first segment is a prefix of the joined bodies, and empty without them |
| Records.Context | process_csv_into_dataset.py:144-153 | the non-empty submission text, a space and the first segment; otherwise the first segment alone, since the fallback never answers |
| Records.RecordOf | process_csv_into_dataset.py:155-165 | the record keeps the entry's id, date and subreddit, has an empty author, and its context and response are no longer than the unsanitized ones |
| Records.RecordFor | process_csv_into_dataset.py:142-165 | a record is missing exactly when the row has a parent whose walk never returns; a record keeps the row's id, date and subreddit, has an empty author, and its response is the sanitized body with newlines replaced |
| Records.ProcessRow | process_csv_into_dataset.py:142-165 | the method computes exactly `RecordFor` |
| Records.EmptyParentGivesEmptyContext | process_csv_into_dataset.py:86-87 | a row without a parent gets a record with an empty context |
| Records.FailedLookupGivesEmptyContext | process_csv_into_dataset.py:88-99 | a failed lookup also gives a record with an empty context, dropping any partial chain |
| Records.ContextOfThread | process_csv_into_dataset.py:89-155 | for a found thread the context is the sanitized concatenation of the submission text, a space and the first segment of the joined bodies, or that segment alone, sanitized |
| Records.NoMarkerBefore | process_csv_into_dataset.py:91-92 | no split marker can start inside a marker-free prefix that ends in a space |
| Records.FirstSegmentOfChain | process_csv_into_dataset.py:90-144 | join-then-split keeps the nearest parent's body, plus one space when there are further parents, as long as that body and a space hold no split marker |
| Records.MarkerAcrossBodies | process_csv_into_dataset.py:91-144 | without that condition the round trip can lose text even when no body holds the marker |
| Assembler.LastProcessedId | process_csv_into_dataset.py:121-125 | there is a last id exactly when there is a checkpoint, and it is no longer than the file's contents; contents with no whitespace at either end, such as an id written at a flush, read back unchanged |
| Assembler.Pending | process_csv_into_dataset.py:126-140 | the rows processed are no more than the input rows |
| Assembler.PendingCases | process_csv_into_dataset.py:126-140 | without a checkpoint every row is processed; with a checkpoint id no row carries, none is |
| Assembler.PendingAfterFirstMatch | process_csv_into_dataset.py:135-140 | with a checkpoint, processing starts right after the first row carrying its id |
| Assembler.PendingIsSuffix | process_csv_into_dataset.py:132-140 | the rows processed are a suffix of the input |
| Assembler.Produced | process_csv_into_dataset.py:142-168 | at most one record per pending row |
| Assembler.ProducedYields | process_csv_into_dataset.py:142-168 | each record is that of the pending row at its position, and production stops only at a row whose record never comes |
| Assembler.ProducedUnique | process_csv_into_dataset.py:142-168 | any list with those two properties is the produced one |
| Assembler.Flushed | process_csv_into_dataset.py:170-177 | the flushed count is at most the count buffered, and fewer than a buffer short of it |
| Assembler.RunWith | process_csv_into_dataset.py:121-187 | a run produces at most one record per pending row, finishes exactly when it produced one for each, and never shortens the output |
| Assembler.Run | process_csv_into_dataset.py:121-187 | the same, for the pipeline's record builder |
| Assembler.FlushedNext | process_csv_into_dataset.py:167-177 | one more record triggers a flush exactly when it fills the buffer |
| Assembler.ResumeAtMatch | process_csv_into_dataset.py:135-137 | the row that carries the checkpoint id is skipped, and processing starts after it |
| Assembler.SkipRow | process_csv_into_dataset.py:139-140 | rows before it are skipped |
| Assembler.NextPending | process_csv_into_dataset.py:132-142 | once started, the loop's row is the next pending row |
| Assembler.ResumedAtEnd | process_csv_into_dataset.py:132-140 | at the end of the input the loop has seen every pending row |
| Assembler.YieldedMore | process_csv_into_dataset.py:167-168 | appending the next row's record keeps every record that of its row |
| Assembler.StoredAtStart | process_csv_into_dataset.py:131 | the empty buffer and the untouched files satisfy the loop's storage invariant |
| Assembler.StoredAfterFlush | process_csv_into_dataset.py:167-177 | a full buffer appended to the output, with the current id checkpointed, keeps the storage invariant |
| Assembler.StoredWithoutFlush | process_csv_into_dataset.py:167-170 | a record held in a buffer that is not full keeps the storage invariant |
| Assembler.StoredAppend | process_csv_into_dataset.py:167 | output followed by the buffer stays the old output followed by the records produced |
| Assembler.StoredFlushed | process_csv_into_dataset.py:170-177 | during the loop the output is the old output followed by exactly the flushed records |
| Assembler.RunThatHangs | process_csv_into_dataset.py:142 | a row whose record never comes ends the run unfinished, with the buffer never written |
| Assembler.RunThatFinishes | process_csv_into_dataset.py:183-187 | at the end of the input the remaining buffer is appended |
| Assembler.CreateAlpacaDataset | process_csv_into_dataset.py:121-187 | the imperative loop leaves exactly the files and count that `Run` specifies |
| Assembler.RunWrites | process_csv_into_dataset.py:131-187 | the old output is kept; each written record is that of the pending row at its position; a finished run writes one per pending row; an unfinished one stops at a row that hangs, having written only its flushed records, fewer than a buffer short of what it produced |
| Assembler.RunCheckpoint | process_csv_into_dataset.py:170-177 | the checkpoint is unchanged until the first full-buffer flush, and then names the last record such a flush wrote; the end-of-input write (lines 183-187) leaves the checkpoint unchanged |
| Assembler.CheckpointWith | process_csv_into_dataset.py:170-177 | for any record builder that keeps row ids, the checkpoint is unchanged until the first full-buffer flush and then names the last record such a flush wrote; the end-of-input write leaves it unchanged |
| Assembler.BuildKeepsIds | process_csv_into_dataset.py:158-161 | every record carries its row's id |
| Assembler.ResumeAfterRun | process_csv_into_dataset.py:121-177 | with distinct, stripped ids, a later run picks up right after the last flushed row, so no record of a full-buffer flush is produced twice, while the records of the end-of-input write (lines 183-187) are |
| Assembler.ResumeAt | process_csv_into_dataset.py:121-140 | a checkpoint naming a pending row makes the pending rows those after it |

## Left out

- HTTP, JSON decoding and the base URL are not modelled. The three endpoints are maps in a fixed `Archive` value.
- `Raised` marks a request whose call or JSON decoding throws. Whether a given non-200 reply would throw when decoded is part of the archive value and is not derived from the status.
- JSON values of unexpected types are not modelled: a `null` body, or a `parent_id` that is not a string. A missing key is modelled as an absent `Option`.
- Reading the CSV and the checkpoint file, and appending JSON lines to the output, are not modelled. The rows are a sequence, and the two files are the `Disk` value a run starts from and returns.
- A crash between the output append and the checkpoint write (lines 171-177) is not modelled: each flush is one step.
- `time.sleep` and the progress and error prints are left out. They have no effect on the data.
- `estimate_total_comments` (lines 109-113) is left out. It only feeds a progress message.
- Text.IsSpace: Python's `str.strip()` and `\s`/`\S` also treat non-ASCII spaces as whitespace; the model uses ASCII whitespace only.
- Text.IsWordChar: `\w`, `\d` and `\b` are ASCII-only in the model, while Python's defaults are Unicode-aware.
- Sanitizer.UrlAt: `re.IGNORECASE` is modelled as ASCII lower-casing only.
- Records.Context: the call of line 148 does run, and it issues its requests, but since `GetSubmissionData` always gives `None`, lines 150-151 never run. The model keeps the branch, but it is dead code. The requests of that call have no effect on the data and are not modelled.
- Assembler.ResumeAfterRun: it assumes distinct row ids without surrounding whitespace. Without that, a stripped checkpoint can name the wrong row, and the source makes no promise.
- `''.join(...)` at line 144 is applied to a string, where it returns that same string, so the model omits it.
