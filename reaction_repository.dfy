/** The reaction kernel of src/lib/adapters/supabase/reaction-repository.ts and the
    reaction types of src/lib/reactions/types.ts. The database queries are not
    modelled: their result rows are inputs, and a failed query is an `Err`
    carrying its message. `toggleHeart` runs against an in-memory reactions
    table that stands in for the database. */
module Reactions {
  import opened Wrappers

  /** `ReactionToggleResult`. */
  datatype ReactionToggleResult = ReactionToggleResult(commentId: string, reactorId: string, isActive: bool, total: nat)

  /** `MutualLikeBanner`; `activatedAt` is an integer timestamp. */
  datatype MutualLikeBanner = MutualLikeBanner(
    viewerId: string,
    targetId: string,
    commentId: string,
    partnerCommentId: string,
    activatedAt: int)

  // ---------------------------------------------------------------------------
  // The mutual-like match
  // ---------------------------------------------------------------------------

  /** The joined comment of a reaction row, `{ id, author_id } | null`. */
  datatype JoinedComment = JoinedComment(id: string, authorId: string)

  /** A heart the viewer gave: the comment it is on and that comment's author. */
  datatype ViewerLikeRow = ViewerLikeRow(commentId: string, comments: Option<JoinedComment>)

  /** A heart on one of the viewer's comments: the comment and who gave it. */
  datatype ViewerCommentLikeRow = ViewerCommentLikeRow(commentId: string, reactorId: string, comments: Option<JoinedComment>)

  /** The author a liked row names, the empty string standing for a missing join. */
  function AuthorOf(row: ViewerLikeRow): string {
    if row.comments.Some? then row.comments.value.authorId else ""
  }

  /** A row that `likedTargets.set` records: a truthy author other than the viewer. */
  predicate LikesOther(row: ViewerLikeRow, viewerId: string) {
    AuthorOf(row) != "" && AuthorOf(row) != viewerId
  }

  /** `likedTargets` after the `forEach` over the viewer's likes: each author
      the viewer liked, other than the viewer, mapped to a liked comment. */
  function LikedTargets(rows: seq<ViewerLikeRow>, viewerId: string): map<string, string>
    decreases |rows|
  {
    if rows == [] then map[]
    else
      var init, last := rows[..|rows| - 1], rows[|rows| - 1];
      if LikesOther(last, viewerId) then LikedTargets(init, viewerId)[AuthorOf(last) := last.commentId]
      else LikedTargets(init, viewerId)
  }

  /** The `forEach` that fills `likedTargets`. */
  method BuildLikedTargets(rows: seq<ViewerLikeRow>, viewerId: string) returns (likedTargets: map<string, string>)
    ensures likedTargets == LikedTargets(rows, viewerId)
  {
    likedTargets := map[];
    var i := 0;
    while i < |rows|
      invariant 0 <= i <= |rows|
      invariant likedTargets == LikedTargets(rows[..i], viewerId)
    {
      assert rows[..i + 1][..i] == rows[..i];
      var row := rows[i];
      var targetId := if row.comments.Some? then row.comments.value.authorId else "";
      if targetId != "" && targetId != viewerId {
        likedTargets := likedTargets[targetId := row.commentId];
      }
      i := i + 1;
    }
    assert rows[..i] == rows;
  }

  /** An author is a key exactly when some row likes a comment of theirs and
      they are not the viewer; the key holds the comment id of the LAST such
      row. */
  lemma {:induction false} LikedTargetsLastWins(rows: seq<ViewerLikeRow>, viewerId: string, author: string)
    ensures author in LikedTargets(rows, viewerId) <==>
            exists i :: 0 <= i < |rows| && LikesOther(rows[i], viewerId) && AuthorOf(rows[i]) == author
    ensures author in LikedTargets(rows, viewerId) ==>
            exists i :: 0 <= i < |rows| && LikesOther(rows[i], viewerId) && AuthorOf(rows[i]) == author &&
                        LikedTargets(rows, viewerId)[author] == rows[i].commentId &&
                        forall j :: i < j < |rows| ==> !(LikesOther(rows[j], viewerId) && AuthorOf(rows[j]) == author)
    decreases |rows|
  {
    if rows != [] {
      var n := |rows|;
      var init, last := rows[..n - 1], rows[n - 1];
      LikedTargetsLastWins(init, viewerId, author);
      if LikesOther(last, viewerId) && AuthorOf(last) == author {
        // The last row wins.
      } else {
        if exists i :: 0 <= i < n && LikesOther(rows[i], viewerId) && AuthorOf(rows[i]) == author {
          var i :| 0 <= i < n && LikesOther(rows[i], viewerId) && AuthorOf(rows[i]) == author;
          assert init[i] == rows[i];
        }
        if author in LikedTargets(init, viewerId) {
          var i :| 0 <= i < n - 1 && LikesOther(init[i], viewerId) && AuthorOf(init[i]) == author &&
                   LikedTargets(init, viewerId)[author] == init[i].commentId &&
                   forall j :: i < j < n - 1 ==> !(LikesOther(init[j], viewerId) && AuthorOf(init[j]) == author);
          assert rows[i] == init[i];
          assert forall j :: i < j < n ==> !(LikesOther(rows[j], viewerId) && AuthorOf(rows[j]) == author) by {
            forall j | i < j < n ensures !(LikesOther(rows[j], viewerId) && AuthorOf(rows[j]) == author) {
              if j < n - 1 {
                assert rows[j] == init[j];
              }
            }
          }
        }
      }
    }
  }

  /** The `.find` predicate: a truthy reactor other than the viewer whom the
      viewer liked back. */
  predicate IsMutual(row: ViewerCommentLikeRow, viewerId: string, likedTargets: map<string, string>) {
    row.reactorId != "" && row.reactorId != viewerId && row.reactorId in likedTargets
  }

  /** `Array.prototype.find`: the first mutual row. */
  function FindMutual(rows: seq<ViewerCommentLikeRow>, viewerId: string, likedTargets: map<string, string>)
    : (r: Option<ViewerCommentLikeRow>)
    ensures r.None? <==> forall i :: 0 <= i < |rows| ==> !IsMutual(rows[i], viewerId, likedTargets)
    ensures r.Some? ==> exists i :: 0 <= i < |rows| && rows[i] == r.value && IsMutual(r.value, viewerId, likedTargets) &&
                                    forall j :: 0 <= j < i ==> !IsMutual(rows[j], viewerId, likedTargets)
    decreases |rows|
  {
    if rows == [] then None
    else if IsMutual(rows[0], viewerId, likedTargets) then Some(rows[0])
    else
      var r := FindMutual(rows[1..], viewerId, likedTargets);
      assert forall i :: 0 < i < |rows| ==> rows[i] == rows[1..][i - 1];
      r
  }

  /** Lines 114-145 of `fetchMutualLikeBanner`, after both queries succeeded:
      the first heart on the viewer's comments from someone the viewer liked
      back, with the comment the viewer liked of theirs. */
  function MatchBanner(viewerId: string, viewerLikes: seq<ViewerLikeRow>, viewerCommentLikes: seq<ViewerCommentLikeRow>, now: int)
    : (r: Option<MutualLikeBanner>)
    ensures r.Some? ==> r.value.viewerId == viewerId && r.value.activatedAt == now &&
                        r.value.targetId != "" && r.value.targetId != viewerId && r.value.commentId != ""
  {
    var likedTargets := LikedTargets(viewerLikes, viewerId);
    match FindMutual(viewerCommentLikes, viewerId, likedTargets)
    case None => None
    case Some(mutual) =>
      var targetCommentId := likedTargets[mutual.reactorId];
      if targetCommentId == "" then None
      else Some(MutualLikeBanner(viewerId, mutual.reactorId, targetCommentId, mutual.commentId, now))
  }

  /** The banner is absent exactly when no heart on the viewer's comments comes
      from someone else the viewer liked (or the comment id recorded for that
      partner is empty). Present, it names the viewer, the partner of the first
      such heart in row order, the comment of the partner the viewer liked
      last, and the viewer's comment that the partner liked. Self-likes count
      on neither side. */
  lemma MatchBannerSpec(viewerId: string, viewerLikes: seq<ViewerLikeRow>, viewerCommentLikes: seq<ViewerCommentLikeRow>, now: int)
    ensures var b := MatchBanner(viewerId, viewerLikes, viewerCommentLikes, now);
            var liked := LikedTargets(viewerLikes, viewerId);
            && ((forall i :: 0 <= i < |viewerCommentLikes| ==> !IsMutual(viewerCommentLikes[i], viewerId, liked)) ==> b.None?)
            && (b.None? ==> forall i :: 0 <= i < |viewerCommentLikes| && IsMutual(viewerCommentLikes[i], viewerId, liked) ==>
                              exists j :: 0 <= j <= i && IsMutual(viewerCommentLikes[j], viewerId, liked) &&
                                          liked[viewerCommentLikes[j].reactorId] == "")
            && (b.Some? ==>
                  && b.value.viewerId == viewerId && b.value.activatedAt == now
                  && b.value.targetId != viewerId && b.value.targetId != ""
                  && b.value.targetId in liked && b.value.commentId == liked[b.value.targetId]
                  && exists i :: 0 <= i < |viewerCommentLikes| &&
                                 viewerCommentLikes[i].reactorId == b.value.targetId &&
                                 viewerCommentLikes[i].commentId == b.value.partnerCommentId &&
                                 IsMutual(viewerCommentLikes[i], viewerId, liked) &&
                                 forall j :: 0 <= j < i ==> !IsMutual(viewerCommentLikes[j], viewerId, liked))
  {
    var liked := LikedTargets(viewerLikes, viewerId);
    var found := FindMutual(viewerCommentLikes, viewerId, liked);
    if found.Some? {
      var k :| 0 <= k < |viewerCommentLikes| && viewerCommentLikes[k] == found.value && IsMutual(found.value, viewerId, liked) &&
               forall j :: 0 <= j < k ==> !IsMutual(viewerCommentLikes[j], viewerId, liked);
      forall i | 0 <= i < |viewerCommentLikes| && IsMutual(viewerCommentLikes[i], viewerId, liked)
        ensures k <= i
      {
      }
    }
  }

  /** `fetchMutualLikeBanner`: a failed query throws its message; otherwise the
      match above. */
  function FetchMutualLikeBanner(
    viewerId: string,
    viewerLikes: Result<seq<ViewerLikeRow>, string>,
    viewerCommentLikes: Result<seq<ViewerCommentLikeRow>, string>,
    now: int): (r: Result<Option<MutualLikeBanner>, string>)
    ensures viewerLikes.Err? ==> r == Err(viewerLikes.error)
    ensures viewerLikes.Ok? && viewerCommentLikes.Err? ==> r == Err(viewerCommentLikes.error)
    ensures viewerLikes.Ok? && viewerCommentLikes.Ok? ==>
              r == Ok(MatchBanner(viewerId, viewerLikes.value, viewerCommentLikes.value, now))
  {
    if viewerLikes.Err? then Err(viewerLikes.error)
    else if viewerCommentLikes.Err? then Err(viewerCommentLikes.error)
    else Ok(MatchBanner(viewerId, viewerLikes.value, viewerCommentLikes.value, now))
  }

  /** `getMutualLikeBanner`: null for an empty viewer id, and any failure of
      the fetch turned into null. */
  function GetMutualLikeBanner(
    viewerId: string,
    viewerLikes: Result<seq<ViewerLikeRow>, string>,
    viewerCommentLikes: Result<seq<ViewerCommentLikeRow>, string>,
    now: int): (r: Option<MutualLikeBanner>)
    ensures viewerId == "" ==> r.None?
    ensures viewerLikes.Err? || viewerCommentLikes.Err? ==> r.None?
    ensures viewerId != "" && viewerLikes.Ok? && viewerCommentLikes.Ok? ==>
              r == MatchBanner(viewerId, viewerLikes.value, viewerCommentLikes.value, now)
  {
    if viewerId == "" then None
    else
      match FetchMutualLikeBanner(viewerId, viewerLikes, viewerCommentLikes, now)
      case Err(_) => None
      case Ok(banner) => banner
  }

  /** Two users who hearted each other's comments, and nobody else: the banner
      pairs the two comments. */
  lemma MatchBannerExample()
    ensures MatchBanner("me", [ViewerLikeRow("c-you", Some(JoinedComment("c-you", "you")))],
                        [ViewerCommentLikeRow("c-me", "me", Some(JoinedComment("c-me", "me"))),
                         ViewerCommentLikeRow("c-me", "you", Some(JoinedComment("c-me", "me")))], 7)
            == Some(MutualLikeBanner("me", "you", "c-you", "c-me", 7))
  {
    var likes := [ViewerLikeRow("c-you", Some(JoinedComment("c-you", "you")))];
    assert likes[..0] == [];
    assert LikedTargets(likes, "me") == map["you" := "c-you"];
  }

  // ---------------------------------------------------------------------------
  // toggleHeart
  // ---------------------------------------------------------------------------

  /** A row of the `reactions` table; every row here is a heart. */
  datatype Reaction = Reaction(id: string, commentId: string, reactorId: string)

  /** The number of rows on comment `c`: what `fetchReactionCount` counts. */
  function CountFor(rows: seq<Reaction>, c: string): nat
    decreases |rows|
  {
    if rows == [] then 0 else (if rows[0].commentId == c then 1 else 0) + CountFor(rows[1..], c)
  }

  /** Some row is `reactor`'s heart on comment `c`. */
  predicate Has(rows: seq<Reaction>, c: string, reactor: string) {
    exists i :: 0 <= i < |rows| && rows[i].commentId == c && rows[i].reactorId == reactor
  }

  /** `fetchExistingReaction`: the id of the row for the pair, if any. */
  function Lookup(rows: seq<Reaction>, c: string, reactor: string): (r: Option<string>)
    ensures r.None? <==> !Has(rows, c, reactor)
    ensures r.Some? ==> exists i :: 0 <= i < |rows| && rows[i] == Reaction(r.value, c, reactor)
    decreases |rows|
  {
    if rows == [] then None
    else if rows[0].commentId == c && rows[0].reactorId == reactor then Some(rows[0].id)
    else
      var r := Lookup(rows[1..], c, reactor);
      assert forall i :: 0 < i < |rows| ==> rows[i] == rows[1..][i - 1];
      assert Has(rows, c, reactor) ==> Has(rows[1..], c, reactor) by {
        if Has(rows, c, reactor) {
          var i :| 0 <= i < |rows| && rows[i].commentId == c && rows[i].reactorId == reactor;
          assert rows[1..][i - 1] == rows[i];
        }
      }
      r
  }

  /** `.delete().eq('id', id)`: the rows without that id. */
  function RemoveId(rows: seq<Reaction>, id: string): (r: seq<Reaction>)
    ensures forall x :: x in r <==> x in rows && x.id != id
    decreases |rows|
  {
    if rows == [] then []
    else
      assert forall x :: x in rows <==> x == rows[0] || x in rows[1..];
      (if rows[0].id == id then [] else [rows[0]]) + RemoveId(rows[1..], id)
  }

  /** No two rows share an id or a (comment, reactor) pair. */
  ghost predicate TableValid(rows: seq<Reaction>) {
    forall i, j :: 0 <= i < j < |rows| ==>
      rows[i].id != rows[j].id && (rows[i].commentId, rows[i].reactorId) != (rows[j].commentId, rows[j].reactorId)
  }

  /** Appending a row adds one to its comment's count. */
  lemma {:induction false} CountAppend(rows: seq<Reaction>, x: Reaction, c: string)
    ensures CountFor(rows + [x], c) == CountFor(rows, c) + (if x.commentId == c then 1 else 0)
    decreases |rows|
  {
    if rows != [] {
      assert (rows + [x])[1..] == rows[1..] + [x];
      CountAppend(rows[1..], x, c);
    }
  }

  /** Deleting the one row with id `rows[i].id` takes one off its comment's count. */
  lemma {:induction false} CountRemove(rows: seq<Reaction>, i: nat, c: string)
    requires i < |rows| && forall j :: 0 <= j < |rows| && j != i ==> rows[j].id != rows[i].id
    ensures CountFor(RemoveId(rows, rows[i].id), c) == CountFor(rows, c) - (if rows[i].commentId == c then 1 else 0)
    decreases |rows|
  {
    var id := rows[i].id;
    if i == 0 {
      forall j | 0 <= j < |rows[1..]| ensures rows[1..][j].id != id {
        assert rows[1..][j] == rows[j + 1];
      }
      RemoveAbsentId(rows[1..], id);
      assert RemoveId(rows, id) == [] + RemoveId(rows[1..], id) == rows[1..];
      assert CountFor(rows, c) == (if rows[0].commentId == c then 1 else 0) + CountFor(rows[1..], c);
    } else {
      assert rows[1..][i - 1] == rows[i];
      CountRemove(rows[1..], i - 1, c);
    }
  }

  /** Deleting an id no row has changes nothing. */
  lemma {:induction false} RemoveAbsentId(rows: seq<Reaction>, id: string)
    requires forall j :: 0 <= j < |rows| ==> rows[j].id != id
    ensures RemoveId(rows, id) == rows
    decreases |rows|
  {
    if rows != [] {
      RemoveAbsentId(rows[1..], id);
    }
  }

  /** The reactions table, as far as `toggleHeart` sees it. */
  class ReactionStore {
    var rows: seq<Reaction>

    ghost predicate Valid()
      reads this
    {
      TableValid(rows)
    }

    constructor(rows: seq<Reaction>)
      requires TableValid(rows)
      ensures Valid() && this.rows == rows
    {
      this.rows := rows;
    }

    /** `upsertReaction`: deletes the existing row and answers false, or
        inserts a heart for the pair under the fresh id `newId` and answers
        true. */
    method UpsertReaction(existing: Option<string>, commentId: string, reactorId: string, newId: string)
      returns (isActive: bool)
      modifies this`rows
      ensures isActive <==> existing.None?
      ensures rows == if existing.Some? then RemoveId(old(rows), existing.value)
                      else old(rows) + [Reaction(newId, commentId, reactorId)]
    {
      if existing.Some? {
        rows := RemoveId(rows, existing.value);
        return false;
      }
      rows := rows + [Reaction(newId, commentId, reactorId)];
      return true;
    }

    /** `toggleHeart`: looks the pair up, deletes or inserts, then counts the
        comment's hearts. The heart is active afterwards exactly when it was
        not before; the count moves by one; no other pair changes. */
    method ToggleHeart(commentId: string, reactorId: string, newId: string) returns (r: ReactionToggleResult)
      requires Valid()
      requires forall x :: x in rows ==> x.id != newId
      modifies this`rows
      ensures Valid()
      ensures r.commentId == commentId && r.reactorId == reactorId
      ensures r.isActive <==> !old(Has(rows, commentId, reactorId))
      ensures Has(rows, commentId, reactorId) <==> r.isActive
      ensures r.total == CountFor(rows, commentId)
      ensures r.total == if r.isActive then old(CountFor(rows, commentId)) + 1 else old(CountFor(rows, commentId)) - 1
      ensures forall c, x :: (c, x) != (commentId, reactorId) ==> (Has(rows, c, x) <==> old(Has(rows, c, x)))
    {
      var existing := Lookup(rows, commentId, reactorId);
      ghost var before := rows;
      var isActive := UpsertReaction(existing, commentId, reactorId, newId);
      if existing.Some? {
        ghost var i :| 0 <= i < |before| && before[i] == Reaction(existing.value, commentId, reactorId);
        CountRemove(before, i, commentId);
        RemovedPair(before, i);
      } else {
        CountAppend(before, Reaction(newId, commentId, reactorId), commentId);
        AddedPair(before, Reaction(newId, commentId, reactorId));
      }
      var total := CountFor(rows, commentId);
      r := ReactionToggleResult(commentId, reactorId, isActive, total);
    }
  }

  /** Deleting the row of one pair from a valid table keeps it valid and
      removes that pair alone. */
  lemma RemovedPair(rows: seq<Reaction>, i: nat)
    requires TableValid(rows) && i < |rows|
    ensures TableValid(RemoveId(rows, rows[i].id))
    ensures forall c, x :: Has(RemoveId(rows, rows[i].id), c, x) <==>
                           Has(rows, c, x) && (c, x) != (rows[i].commentId, rows[i].reactorId)
  {
    SubsequenceValid(rows, rows[i].id);
    forall c, x ensures Has(RemoveId(rows, rows[i].id), c, x) <==> Has(rows, c, x) && (c, x) != (rows[i].commentId, rows[i].reactorId) {
      if Has(RemoveId(rows, rows[i].id), c, x) {
        RemovedRowWasOther(rows, i, c, x);
      }
      if Has(rows, c, x) && (c, x) != (rows[i].commentId, rows[i].reactorId) {
        OtherRowKept(rows, i, c, x);
      }
    }
  }

  /** A pair left after the deletion was in the table and is not the deleted one. */
  lemma RemovedRowWasOther(rows: seq<Reaction>, i: nat, c: string, x: string)
    requires TableValid(rows) && i < |rows|
    requires Has(RemoveId(rows, rows[i].id), c, x)
    ensures Has(rows, c, x) && (c, x) != (rows[i].commentId, rows[i].reactorId)
  {
    var after := RemoveId(rows, rows[i].id);
    var k :| 0 <= k < |after| && after[k].commentId == c && after[k].reactorId == x;
    assert after[k] in rows && after[k].id != rows[i].id;
    var m :| 0 <= m < |rows| && rows[m] == after[k];
    assert m != i;
  }

  /** A pair other than the deleted one survives the deletion. */
  lemma OtherRowKept(rows: seq<Reaction>, i: nat, c: string, x: string)
    requires TableValid(rows) && i < |rows|
    requires Has(rows, c, x) && (c, x) != (rows[i].commentId, rows[i].reactorId)
    ensures Has(RemoveId(rows, rows[i].id), c, x)
  {
    var after := RemoveId(rows, rows[i].id);
    var m :| 0 <= m < |rows| && rows[m].commentId == c && rows[m].reactorId == x;
    assert m != i;
    assert rows[m].id != rows[i].id;
    assert rows[m] in after;
    var k :| 0 <= k < |after| && after[k] == rows[m];
  }

  /** Deleting rows by id from a valid table keeps it valid. */
  lemma {:induction false} SubsequenceValid(rows: seq<Reaction>, id: string)
    requires TableValid(rows)
    ensures TableValid(RemoveId(rows, id))
    decreases |rows|
  {
    if rows != [] {
      SubsequenceValid(rows[1..], id);
      var rest := RemoveId(rows[1..], id);
      if rows[0].id != id {
        var r := [rows[0]] + rest;
        forall j | 0 < j < |r| ensures r[0].id != r[j].id && (r[0].commentId, r[0].reactorId) != (r[j].commentId, r[j].reactorId) {
          assert r[j] in rest;
          var m :| 0 <= m < |rows[1..]| && rows[1..][m] == r[j];
          assert rows[m + 1] == r[j];
        }
      }
    }
  }

  /** Inserting a row for a new pair under a fresh id keeps the table valid and
      adds that pair alone. */
  lemma AddedPair(rows: seq<Reaction>, x: Reaction)
    requires TableValid(rows) && !Has(rows, x.commentId, x.reactorId)
    requires forall y :: y in rows ==> y.id != x.id
    ensures TableValid(rows + [x])
    ensures forall c, r :: Has(rows + [x], c, r) <==> Has(rows, c, r) || (c, r) == (x.commentId, x.reactorId)
  {
    var after := rows + [x];
    forall i, j | 0 <= i < j < |after|
      ensures after[i].id != after[j].id && (after[i].commentId, after[i].reactorId) != (after[j].commentId, after[j].reactorId)
    {
      if j == |rows| {
        assert after[i] == rows[i];
      }
    }
    forall c, r ensures Has(after, c, r) <==> Has(rows, c, r) || (c, r) == (x.commentId, x.reactorId) {
      if Has(rows, c, r) {
        var k :| 0 <= k < |rows| && rows[k].commentId == c && rows[k].reactorId == r;
        assert after[k] == rows[k];
      }
      if (c, r) == (x.commentId, x.reactorId) {
        assert after[|rows|] == x;
      }
    }
  }
}
