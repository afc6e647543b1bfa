/** The logic of src/lib/adapters/supabase/comment-repository.ts that runs after
    its queries: row normalisation, heart counting, the viewer's hearted set,
    the composition of `listByThread`, `createDraft` and `persistComment`. Query
    results are inputs: a `Result` holding the rows, or the error message of a
    failed query. */
module CommentRepository {
  import opened Wrappers
  import opened Comments

  /** A row of the `comments` table; `created_at` is an integer timestamp. */
  datatype CommentRow = CommentRow(
    id: string,
    threadId: string,
    authorId: string,
    parentId: Option<string>,
    content: string,
    createdAt: int)

  /** A row of a `reactions` query that selects `comment_id`. */
  datatype HeartRow = HeartRow(commentId: string)

  /** `CreateCommentInput`; `parentId` is optional and nullable: `None` is a
      missing property, `Some(None)` an explicit null. */
  datatype CreateCommentInput = CreateCommentInput(
    threadId: string,
    authorId: string,
    parentId: Option<Option<string>>,
    content: string)

  /** `CommentDraft`; `createdAt` is an integer timestamp. */
  datatype CommentDraft = CommentDraft(
    id: string,
    threadId: string,
    authorId: string,
    parentId: Option<string>,
    content: string,
    createdAt: int)

  /** The message `persistComment` throws when the insert returns no row. */
  const SAVE_FAILED: string := "댓글 저장 실패"

  // ---------------------------------------------------------------------------
  // normalizeComment
  // ---------------------------------------------------------------------------

  /** `normalizeComment`: the row's fields, the heart count recorded for its
      id (0 when none is), and whether the viewer's hearted set holds the id. */
  function NormalizeComment(row: CommentRow, heartCounts: map<string, nat>, viewerHearted: set<string>): (c: Comment)
    ensures c.id == row.id && c.threadId == row.threadId && c.authorId == row.authorId
    ensures c.parentId == row.parentId && c.content == row.content && c.createdAt == row.createdAt
    ensures c.heartCount == if row.id in heartCounts then heartCounts[row.id] else 0
    ensures c.viewerHasHearted <==> row.id in viewerHearted
  {
    Comment(row.id, row.threadId, row.authorId, row.parentId, row.content, row.createdAt,
            if row.id in heartCounts then heartCounts[row.id] else 0,
            row.id in viewerHearted)
  }

  // ---------------------------------------------------------------------------
  // Heart counting
  // ---------------------------------------------------------------------------

  /** The `comment_id` of each row, in order. */
  function CommentIdsOf(rows: seq<HeartRow>): (ids: seq<string>)
    ensures |ids| == |rows| && forall i :: 0 <= i < |rows| ==> ids[i] == rows[i].commentId
  {
    seq(|rows|, i requires 0 <= i < |rows| => rows[i].commentId)
  }

  /** The map the counting `forEach` leaves: one more for each row with a
      truthy `comment_id`. */
  function CountsOf(rows: seq<HeartRow>): map<string, nat>
    decreases |rows|
  {
    if rows == [] then map[]
    else
      var counts := CountsOf(rows[..|rows| - 1]);
      var k := rows[|rows| - 1].commentId;
      if k == "" then counts
      else counts[k := (if k in counts then counts[k] else 0) + 1]
  }

  /** The counting loop of `fetchHeartCounts`. */
  method CountHearts(rows: seq<HeartRow>) returns (counts: map<string, nat>)
    ensures counts == CountsOf(rows)
  {
    counts := map[];
    var i := 0;
    while i < |rows|
      invariant 0 <= i <= |rows|
      invariant counts == CountsOf(rows[..i])
    {
      assert rows[..i + 1][..i] == rows[..i];
      var row := rows[i];
      if row.commentId != "" {
        counts := counts[row.commentId := (if row.commentId in counts then counts[row.commentId] else 0) + 1];
      }
      i := i + 1;
    }
    assert rows[..i] == rows;
  }

  /** Each non-empty id is counted exactly as often as it occurs among the
      rows, and is a key exactly when it occurs; rows with an empty
      `comment_id` are skipped. */
  lemma {:induction false} CountsOfSpec(rows: seq<HeartRow>, k: string)
    ensures "" !in CountsOf(rows)
    ensures k != "" ==> (k in CountsOf(rows) <==> k in CommentIdsOf(rows))
    ensures k in CountsOf(rows) ==> CountsOf(rows)[k] == multiset(CommentIdsOf(rows))[k]
    decreases |rows|
  {
    if rows != [] {
      var init := rows[..|rows| - 1];
      CountsOfSpec(init, k);
      assert CommentIdsOf(rows) == CommentIdsOf(init) + [rows[|rows| - 1].commentId];
      assert k in CommentIdsOf(init) <==> multiset(CommentIdsOf(init))[k] > 0;
    }
  }

  /** `fetchHeartCounts` given the ids and the query's outcome: no query and
      an empty map for no ids, the query's error, or the counts. */
  function FetchHeartCounts(commentIds: seq<string>, response: Result<seq<HeartRow>, string>)
    : (r: Result<map<string, nat>, string>)
    ensures commentIds == [] ==> r == Ok(map[])
    ensures commentIds != [] && response.Err? ==> r == Err(response.error)
    ensures commentIds != [] && response.Ok? ==> r == Ok(CountsOf(response.value))
  {
    if |commentIds| == 0 then Ok(map[])
    else if response.Err? then Err(response.error)
    else Ok(CountsOf(response.value))
  }

  /** `safeFetchHeartCounts`: a failure becomes an empty map. */
  function SafeFetchHeartCounts(commentIds: seq<string>, response: Result<seq<HeartRow>, string>): (counts: map<string, nat>)
    ensures commentIds == [] || response.Err? ==> counts == map[]
    ensures commentIds != [] && response.Ok? ==> counts == CountsOf(response.value)
  {
    match FetchHeartCounts(commentIds, response)
    case Err(_) => map[]
    case Ok(counts) => counts
  }

  // ---------------------------------------------------------------------------
  // The viewer's hearted comments
  // ---------------------------------------------------------------------------

  /** The non-empty `comment_id`s of the rows. */
  function HeartedIds(rows: seq<HeartRow>): set<string> {
    set i | 0 <= i < |rows| && rows[i].commentId != "" :: rows[i].commentId
  }

  /** The `forEach` of `fetchViewerHeartedCommentIds` that fills the set. */
  method CollectHeartedIds(rows: seq<HeartRow>) returns (ids: set<string>)
    ensures ids == HeartedIds(rows)
  {
    ids := {};
    var i := 0;
    while i < |rows|
      invariant 0 <= i <= |rows|
      invariant ids == HeartedIds(rows[..i])
    {
      var row := rows[i];
      assert HeartedIds(rows[..i + 1]) == HeartedIds(rows[..i]) + (if row.commentId != "" then {row.commentId} else {}) by {
        assert forall j :: 0 <= j < i ==> rows[..i + 1][j] == rows[..i][j];
        assert rows[..i + 1][i] == row;
      }
      if row.commentId != "" {
        ids := ids + {row.commentId};
      }
      i := i + 1;
    }
    assert rows[..i] == rows;
  }

  /** `safeFetchViewerHeartedCommentIds`: a failed query becomes the empty set. */
  function SafeFetchViewerHearted(response: Result<seq<HeartRow>, string>): (ids: set<string>)
    ensures response.Err? ==> ids == {}
    ensures response.Ok? ==> forall k :: k in ids <==> k != "" && k in CommentIdsOf(response.value)
  {
    if response.Err? then {}
    else
      var rows := response.value;
      assert forall k :: k in CommentIdsOf(rows) <==> exists i :: 0 <= i < |rows| && rows[i].commentId == k;
      HeartedIds(rows)
  }

  // ---------------------------------------------------------------------------
  // The repository's operations
  // ---------------------------------------------------------------------------

  /** `listByThread` given the outcome of its three queries: the thread's rows
      (a failure reads as no rows), the heart rows of those comments and the
      viewer's hearted rows in the thread (asked only for a truthy viewer).
      No rows give none; otherwise one normalised comment per row, in row
      order, with its heart count and whether the viewer hearted it. */
  method ListByThread(
    viewerId: string,
    selected: Result<seq<CommentRow>, string>,
    heartRows: Result<seq<HeartRow>, string>,
    viewerHeartRows: Result<seq<HeartRow>, string>)
    returns (comments: seq<Comment>)
    ensures selected.Err? || selected.value == [] ==> comments == []
    ensures selected.Ok? ==> |comments| == |selected.value|
    ensures selected.Ok? ==> forall i :: 0 <= i < |comments| ==>
              var row, c := selected.value[i], comments[i];
              && c.id == row.id && c.threadId == row.threadId && c.authorId == row.authorId
              && c.parentId == row.parentId && c.content == row.content && c.createdAt == row.createdAt
              && c.heartCount == (if heartRows.Err? || row.id == "" then 0 else multiset(CommentIdsOf(heartRows.value))[row.id])
              && (c.viewerHasHearted <==>
                    viewerId != "" && viewerHeartRows.Ok? && row.id != "" && row.id in CommentIdsOf(viewerHeartRows.value))
  {
    var rows := if selected.Err? then [] else selected.value;
    if |rows| == 0 {
      return [];
    }
    var commentIds := seq(|rows|, i requires 0 <= i < |rows| => rows[i].id);
    var heartCounts := SafeFetchHeartCounts(commentIds, heartRows);
    var viewerHearted := if viewerId != "" then SafeFetchViewerHearted(viewerHeartRows) else {};
    comments := [];
    var i := 0;
    while i < |rows|
      invariant 0 <= i <= |rows|
      invariant comments == seq(i, j requires 0 <= j < i => NormalizeComment(rows[j], heartCounts, viewerHearted))
    {
      comments := comments + [NormalizeComment(rows[i], heartCounts, viewerHearted)];
      i := i + 1;
    }
    forall j | 0 <= j < |rows| && heartRows.Ok?
      ensures NormalizeComment(rows[j], heartCounts, viewerHearted).heartCount ==
              (if rows[j].id == "" then 0 else multiset(CommentIdsOf(heartRows.value))[rows[j].id])
    {
      CountsOfSpec(heartRows.value, rows[j].id);
      assert rows[j].id in CommentIdsOf(heartRows.value) <==> multiset(CommentIdsOf(heartRows.value))[rows[j].id] > 0;
    }
  }

  /** `createDraft` with the supplied fresh id and clock: a missing or null
      `parentId` becomes null, every other field is copied. */
  function CreateDraft(input: CreateCommentInput, id: string, now: int): (d: CommentDraft)
    ensures d.id == id && d.createdAt == now
    ensures d.threadId == input.threadId && d.authorId == input.authorId && d.content == input.content
    ensures input.parentId.None? ==> d.parentId.None?
    ensures input.parentId.Some? ==> d.parentId == input.parentId.value
  {
    CommentDraft(id, input.threadId, input.authorId, if input.parentId.Some? then input.parentId.value else None,
                 input.content, now)
  }

  /** `persistComment` given the insert's outcome: the error's message, the
      fixed message when no row came back, or the saved row normalised with no
      hearts. */
  function PersistComment(draft: CommentDraft, response: Result<Option<CommentRow>, string>): (r: Result<Comment, string>)
    ensures response.Err? ==> r == Err(response.error)
    ensures response == Ok(None) ==> r == Err(SAVE_FAILED)
    ensures response.Ok? && response.value.Some? ==>
              var row := response.value.value;
              r.Ok? && r.value.id == row.id && r.value.threadId == row.threadId && r.value.authorId == row.authorId &&
              r.value.parentId == row.parentId && r.value.content == row.content && r.value.createdAt == row.createdAt &&
              r.value.heartCount == 0 && !r.value.viewerHasHearted
  {
    match response
    case Err(message) => Err(message)
    case Ok(None) => Err(SAVE_FAILED)
    case Ok(Some(row)) => Ok(NormalizeComment(row, map[], {}))
  }
}
