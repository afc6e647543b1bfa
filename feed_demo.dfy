/** The in-memory demo feed of src/lib/demo/feed-demo.ts: a thread and its
    comments, each holding the set of users who hearted it, from which the
    comment forest shown to the viewer is built. */
module FeedDemo {
  import opened Wrappers
  import opened Comments
  import Seqs
  import StableSort
  import opened CommentArena
  import opened Reactions

  /** A stored demo comment; `createdAt` is an integer timestamp. */
  datatype DemoComment = DemoComment(
    id: string,
    threadId: string,
    authorId: string,
    parentId: Option<string>,
    content: string,
    createdAt: int,
    hearts: set<string>)

  /** `Thread` of src/lib/threads/types.ts; `publishedAt` is an integer timestamp. */
  datatype Thread = Thread(id: string, title: string, body: string, publishedAt: int, isActive: bool)

  datatype DemoError = CommentNotFound

  /** What `toggleDemoHeart` returns; the demo never reports a mutual like. */
  datatype ToggleOutcome = ToggleOutcome(reaction: ReactionToggleResult, mutualLikeBanner: Option<MutualLikeBanner>)

  const MINUTE: int := 1000 * 60
  const THREAD_ID: string := "demo-thread"

  /** The seeded thread, published an hour before `now`. */
  function SeedThread(now: int): Thread {
    Thread(THREAD_ID, "THE SSOM 데모 쓰레드", "가상의 유저로 댓글과 공감 하트를 마음껏 테스트해 보세요.", now - 60 * MINUTE, true)
  }

  /** The two seeded comments: a top-level one from thirty minutes before `now`
      and a reply to it from twenty minutes before, each hearted by the partner. */
  function SeedComments(now: int): seq<DemoComment> {
    [ DemoComment("demo-comment-1", THREAD_ID, "demo-partner", None,
                  "안녕! 여기다 댓글을 달면 바로 아래에서 볼 수 있어요.", now - 30 * MINUTE, {"demo-partner"}),
      DemoComment("demo-comment-2", THREAD_ID, "demo-viewer", Some("demo-comment-1"),
                  "대댓글도 가능하니 한번 테스트해 보세요!", now - 20 * MINUTE, {"demo-partner"}) ]
  }

  function DemoIds(cs: seq<DemoComment>): (ids: seq<string>)
    ensures |ids| == |cs| && forall i :: 0 <= i < |cs| ==> ids[i] == cs[i].id
  {
    seq(|cs|, i requires 0 <= i < |cs| => cs[i].id)
  }

  ghost predicate DistinctIds(cs: seq<DemoComment>) {
    forall i, j :: 0 <= i < j < |cs| ==> cs[i].id != cs[j].id
  }

  /** The first stored comment with id `k`, as `Array.prototype.find` picks it. */
  function ById(cs: seq<DemoComment>, k: string): (c: DemoComment)
    requires k in DemoIds(cs)
    ensures c in cs && c.id == k
  {
    cs[Seqs.IndexOf(DemoIds(cs), k)]
  }

  lemma ByIdAt(cs: seq<DemoComment>, i: nat)
    requires DistinctIds(cs) && i < |cs|
    ensures cs[i].id in DemoIds(cs) && ById(cs, cs[i].id) == cs[i]
  {
    assert DemoIds(cs)[i] == cs[i].id;
  }

  /** The parent a stored comment names, when `parentId` is truthy. */
  function Parent(c: DemoComment): Option<string> {
    if c.parentId.Some? && c.parentId.value != "" then c.parentId else None
  }

  /** The node fields `buildCommentNodes` derives from a stored comment for `viewer`. */
  function View(c: DemoComment, viewer: string): Comment {
    Comment(c.id, c.threadId, c.authorId, c.parentId, c.content, c.createdAt, |c.hearts|, viewer in c.hearts)
  }

  lemma ViewParent(c: DemoComment, viewer: string)
    ensures ParentOf(View(c, viewer)) == Parent(c)
  {
  }

  // ---------------------------------------------------------------- hearts

  /** The heart set after `reactor` toggles their heart. */
  function Toggled(hearts: set<string>, reactor: string): (h: set<string>)
    ensures reactor in h <==> reactor !in hearts
    ensures forall x :: x != reactor ==> (x in h <==> x in hearts)
    ensures |h| == if reactor in hearts then |hearts| - 1 else |hearts| + 1
  {
    if reactor in hearts then hearts - {reactor} else hearts + {reactor}
  }

  lemma ToggledTwice(hearts: set<string>, reactor: string)
    ensures Toggled(Toggled(hearts, reactor), reactor) == hearts
  {
  }

  /** `toggleDemoHeart` on the comment list `cs`: the new list and the reaction,
      or `CommentNotFound`. */
  function ToggleIn(cs: seq<DemoComment>, commentId: string, reactor: string): (r: Result<(seq<DemoComment>, ReactionToggleResult), DemoError>)
    ensures r.Err? <==> commentId !in DemoIds(cs)
    ensures r.Ok? ==>
      var i := Seqs.IndexOf(DemoIds(cs), commentId);
      var (next, reaction) := r.value;
      && |next| == |cs| && DemoIds(next) == DemoIds(cs)
      && (forall j :: 0 <= j < |cs| && j != i ==> next[j] == cs[j])
      && next[i].hearts == Toggled(cs[i].hearts, reactor)
      && next[i] == cs[i].(hearts := next[i].hearts)
      && reaction.commentId == commentId && reaction.reactorId == reactor
      && (reaction.isActive <==> reactor in next[i].hearts)
      && reaction.total == |next[i].hearts|
  {
    var i := Seqs.IndexOf(DemoIds(cs), commentId);
    if i < 0 then Err(CommentNotFound)
    else
      var target := cs[i];
      var had := reactor in target.hearts;
      var hearts := Toggled(target.hearts, reactor);
      var next := cs[i := target.(hearts := hearts)];
      assert DemoIds(next) == DemoIds(cs);
      Ok((next, ReactionToggleResult(target.id, reactor, !had, |hearts|)))
  }

  /** Toggling the same heart twice restores the comments, the second reaction
      reporting the opposite state. */
  lemma ToggleTwiceRestores(cs: seq<DemoComment>, commentId: string, reactor: string)
    requires ToggleIn(cs, commentId, reactor).Ok?
    ensures var (next, first) := ToggleIn(cs, commentId, reactor).value;
      ToggleIn(next, commentId, reactor).Ok?
      && ToggleIn(next, commentId, reactor).value.0 == cs
      && ToggleIn(next, commentId, reactor).value.1.isActive == !first.isActive
  {
    var (next, first) := ToggleIn(cs, commentId, reactor).value;
    var i := Seqs.IndexOf(DemoIds(cs), commentId);
    ToggledTwice(cs[i].hearts, reactor);
    var (back, _) := ToggleIn(next, commentId, reactor).value;
    assert back == cs;
  }

  // ---------------------------------------------------------------- the forest

  /** The ids of the comments naming `parent` (none for `None`), in list order. */
  function IdsWhere(cs: seq<DemoComment>, parent: Option<string>): (ids: seq<string>)
    ensures forall k :: k in ids ==> k in DemoIds(cs)
    decreases |cs|
  {
    if cs == [] then []
    else
      var init := cs[..|cs| - 1];
      var last := cs[|cs| - 1];
      assert forall k :: k in DemoIds(init) ==> k in DemoIds(cs) by {
        forall k | k in DemoIds(init) ensures k in DemoIds(cs) {
          var j :| 0 <= j < |init| && DemoIds(init)[j] == k;
          assert DemoIds(cs)[j] == k;
        }
      }
      assert DemoIds(cs)[|cs| - 1] == last.id;
      IdsWhere(init, parent) + (if Parent(last) == parent then [last.id] else [])
  }

  lemma {:induction false} IdsWhereParent(cs: seq<DemoComment>, parent: Option<string>, k: string)
    requires DistinctIds(cs) && k in IdsWhere(cs, parent)
    ensures Parent(ById(cs, k)) == parent
    decreases |cs|
  {
    var init := cs[..|cs| - 1];
    var last := cs[|cs| - 1];
    if k in IdsWhere(init, parent) {
      IdsWhereParent(init, parent, k);
      var j := Seqs.IndexOf(DemoIds(init), k);
      assert DemoIds(init)[j] == k && init[j] == cs[j];
      ByIdAt(init, j);
      ByIdAt(cs, j);
    } else {
      ByIdAt(cs, |cs| - 1);
    }
  }

  /** The node map `buildCommentNodes` has filled in once both of its loops
      are done: every comment's node, with its children in list order. */
  ghost function DemoArena(cs: seq<DemoComment>, viewer: string): Arena {
    map k | k in DemoIds(cs) :: Entry(View(ById(cs, k), viewer), IdsWhere(cs, Some(k)))
  }

  lemma DemoArenaLinked(cs: seq<DemoComment>, viewer: string)
    requires DistinctIds(cs)
    ensures Linked(DemoArena(cs, viewer))
    ensures forall k :: k in IdsWhere(cs, None) ==> Unattached(DemoArena(cs, viewer), k)
  {
    var a := DemoArena(cs, viewer);
    forall k, r | k in a && r in a[k].replies ensures r in a && ParentOf(a[r].comment) == Some(k) {
      IdsWhereParent(cs, Some(k), r);
    }
    forall k | k in IdsWhere(cs, None) ensures Unattached(a, k) {
      IdsWhereParent(cs, None, k);
    }
  }

  /** The roots `buildCommentNodes` picks, with the replies the node map links
      below them, before `sortTree`. */
  ghost function Unsorted(cs: seq<DemoComment>, viewer: string): (f: seq<CommentNode>)
    requires DistinctIds(cs)
    ensures IdsOf(f) == IdsWhere(cs, None) && WellFormedForest(f)
    ensures forall n :: n in f ==> Shows(DemoArena(cs, viewer), n)
  {
    DemoArenaLinked(cs, viewer);
    ForestShows(DemoArena(cs, viewer), [], IdsWhere(cs, None));
    Materialize(DemoArena(cs, viewer), IdsWhere(cs, None))
  }

  /** The forest `buildCommentNodes` returns. */
  ghost function Feed(cs: seq<DemoComment>, viewer: string): seq<CommentNode>
    requires DistinctIds(cs)
  {
    SortTree(Unsorted(cs, viewer))
  }

  // ---------------------------------------------------------------- sortTree

  /** Siblings by ascending `createdAt`, stably, each node's replies sorted
      likewise. The replies are sorted before the siblings are; the order of
      the two steps does not matter (`SortTreeAsWritten`). */
  function SortTree(ns: seq<CommentNode>): (r: seq<CommentNode>)
    requires WellFormedForest(ns)
    decreases ns, 1
  {
    StableSort.SortBy(SortEach(ns), NodeCreatedAt)
  }

  /** Each node with its replies sorted. */
  function SortEach(ns: seq<CommentNode>): (r: seq<CommentNode>)
    requires WellFormedForest(ns)
    ensures |r| == |ns| && forall i :: 0 <= i < |ns| ==> r[i].comment == ns[i].comment
    decreases ns, 0
  {
    if ns == [] then [] else [SortNode(ns[0])] + SortEach(ns[1..])
  }

  function SortNode(n: CommentNode): CommentNode
    requires WellFormed(n)
    decreases n, 2
  {
    CommentNode(n.comment, Present(SortTree(n.replies.nodes)))
  }

  lemma {:induction false} WellFormedMembers(ns: seq<CommentNode>)
    ensures WellFormedForest(ns) <==> forall n :: n in ns ==> WellFormed(n)
    decreases |ns|
  {
    if ns != [] {
      WellFormedMembers(ns[1..]);
      if WellFormedForest(ns) {
        forall n | n in ns ensures WellFormed(n) {
          if n != ns[0] {
            assert n in ns[1..];
          }
        }
      } else if WellFormed(ns[0]) {
        assert !WellFormedForest(ns[1..]);
        var n :| n in ns[1..] && !WellFormed(n);
        assert n in ns && !WellFormed(n);
      } else {
        assert ns[0] in ns;
      }
    }
  }

  /** Position by position, `SortEach` sorts each node's replies. */
  lemma {:induction false} SortEachAt(ns: seq<CommentNode>, i: nat)
    requires WellFormedForest(ns) && i < |ns|
    ensures WellFormed(ns[i]) && SortEach(ns)[i] == SortNode(ns[i])
    decreases i
  {
    if i > 0 {
      SortEachAt(ns[1..], i - 1);
    }
  }

  /** Adding a node to a list keeps it well formed exactly when the node is. */
  lemma ConsWellFormed(x: CommentNode, s: seq<CommentNode>)
    ensures WellFormedForest([x] + s) <==> WellFormed(x) && WellFormedForest(s)
  {
    assert ([x] + s)[0] == x && ([x] + s)[1..] == s;
  }

  /** Sorting a node's replies commutes with inserting it among siblings, since
      neither changes the `createdAt` the insertion compares. */
  lemma {:induction false} InsertSortNodeCommutes(x: CommentNode, s: seq<CommentNode>)
    requires WellFormed(x) && WellFormedForest(s)
    ensures WellFormedForest(StableSort.InsertBy(x, s, NodeCreatedAt))
    ensures StableSort.InsertBy(SortNode(x), SortEach(s), NodeCreatedAt) ==
            SortEach(StableSort.InsertBy(x, s, NodeCreatedAt))
    decreases |s|
  {
    var ins := StableSort.InsertBy(x, s, NodeCreatedAt);
    if s == [] || x.comment.createdAt <= s[0].comment.createdAt {
      assert ins == [x] + s;
      ConsWellFormed(x, s);
      assert SortEach(ins) == [SortNode(x)] + SortEach(s) by {
        assert ins[1..] == s;
      }
    } else {
      var tail := StableSort.InsertBy(x, s[1..], NodeCreatedAt);
      assert ins == [s[0]] + tail;
      InsertSortNodeCommutes(x, s[1..]);
      ConsWellFormed(s[0], tail);
      assert SortEach(s)[1..] == SortEach(s[1..]);
      assert SortEach(ins) == [SortNode(s[0])] + SortEach(tail) by {
        assert ins[1..] == tail;
      }
    }
  }

  /** `sortTree` as written sorts the siblings first and then each node's
      replies; `SortTree` does the two steps the other way round, to the same
      result. */
  lemma {:induction false} SortTreeAsWritten(ns: seq<CommentNode>)
    requires WellFormedForest(ns)
    ensures WellFormedForest(StableSort.SortBy(ns, NodeCreatedAt))
    ensures SortTree(ns) == SortEach(StableSort.SortBy(ns, NodeCreatedAt))
    decreases |ns|
  {
    if ns != [] {
      SortTreeAsWritten(ns[1..]);
      var sortedTail := StableSort.SortBy(ns[1..], NodeCreatedAt);
      InsertSortNodeCommutes(ns[0], sortedTail);
      assert SortEach(ns) == [SortNode(ns[0])] + SortEach(ns[1..]);
      assert SortEach(ns)[1..] == SortEach(ns[1..]);
    }
  }

  /** A node of `SortEach(ns)` is a node of `ns` with its replies sorted. */
  lemma SortEachMember(ns: seq<CommentNode>, m: CommentNode)
    requires WellFormedForest(ns) && m in SortEach(ns)
    ensures exists i :: 0 <= i < |ns| && WellFormed(ns[i]) && m == SortNode(ns[i])
  {
    var i :| 0 <= i < |SortEach(ns)| && SortEach(ns)[i] == m;
    SortEachAt(ns, i);
  }

  /** After `sortTree`, the siblings at every depth are in ascending `createdAt`. */
  lemma {:induction false} SortTreeSorted(ns: seq<CommentNode>)
    requires WellFormedForest(ns)
    ensures AllSorted(SortTree(ns))
    decreases ns, 1
  {
    StableSort.SortBySortedPermutation(SortEach(ns), NodeCreatedAt);
    forall n | n in SortTree(ns) ensures NodeSorted(n) {
      assert n in multiset(SortEach(ns));
      SortEachMember(ns, n);
      var i :| 0 <= i < |ns| && WellFormed(ns[i]) && n == SortNode(ns[i]);
      SortNodeSorted(ns[i]);
    }
  }

  lemma {:induction false} SortNodeSorted(n: CommentNode)
    requires WellFormed(n)
    ensures NodeSorted(SortNode(n))
    decreases n, 2
  {
    SortTreeSorted(n.replies.nodes);
  }

  /** Inserting a node adds its subtree's comments to those of the list. */
  lemma {:induction false} InsertListing(x: CommentNode, s: seq<CommentNode>)
    ensures multiset(Listing(StableSort.InsertBy(x, s, NodeCreatedAt))) ==
            multiset(ListingNode(x)) + multiset(Listing(s))
    decreases |s|
  {
    var ins := StableSort.InsertBy(x, s, NodeCreatedAt);
    if s != [] {
      ListingCons(s);
    }
    if s == [] || x.comment.createdAt <= s[0].comment.createdAt {
      ListingCons(ins);
      assert ins[0] == x && ins[1..] == s;
    } else {
      InsertListing(x, s[1..]);
      ListingCons(ins);
      assert ins[0] == s[0] && ins[1..] == StableSort.InsertBy(x, s[1..], NodeCreatedAt);
    }
  }

  /** Sorting siblings keeps the comments of the forest. */
  lemma {:induction false} SortByListing(s: seq<CommentNode>)
    ensures multiset(Listing(StableSort.SortBy(s, NodeCreatedAt))) == multiset(Listing(s))
    decreases |s|
  {
    if s != [] {
      SortByListing(s[1..]);
      InsertListing(s[0], StableSort.SortBy(s[1..], NodeCreatedAt));
      ListingCons(s);
    }
  }

  /** `sortTree` keeps every comment of the forest, each as often as before:
      it reorders nodes and adds or drops none. */
  lemma {:induction false} SortTreeKeepsComments(ns: seq<CommentNode>)
    requires WellFormedForest(ns)
    ensures multiset(Listing(SortTree(ns))) == multiset(Listing(ns))
    decreases ns, 1
  {
    SortByListing(SortEach(ns));
    SortEachKeepsComments(ns);
  }

  lemma {:induction false} SortEachKeepsComments(ns: seq<CommentNode>)
    requires WellFormedForest(ns)
    ensures multiset(Listing(SortEach(ns))) == multiset(Listing(ns))
    decreases ns, 0
  {
    if ns != [] {
      SortEachKeepsComments(ns[1..]);
      SortNodeKeepsComments(ns[0]);
      ListingCons(ns);
      ListingCons(SortEach(ns));
      assert SortEach(ns)[0] == SortNode(ns[0]) && SortEach(ns)[1..] == SortEach(ns[1..]);
    }
  }

  lemma {:induction false} SortNodeKeepsComments(n: CommentNode)
    requires WellFormed(n)
    ensures multiset(ListingNode(SortNode(n))) == multiset(ListingNode(n))
    decreases n, 2
  {
    SortTreeKeepsComments(n.replies.nodes);
    ListingOfNode(n);
    ListingOfNode(SortNode(n));
  }

  // ---------------------------------------------------------------- what the forest shows

  /** An id is listed for `parent` exactly when some comment with that id names it. */
  lemma {:induction false} IdsWhereMembers(cs: seq<DemoComment>, parent: Option<string>, k: string)
    ensures k in IdsWhere(cs, parent) <==> exists i :: 0 <= i < |cs| && cs[i].id == k && Parent(cs[i]) == parent
    decreases |cs|
  {
    if cs != [] {
      var init := cs[..|cs| - 1];
      IdsWhereMembers(init, parent, k);
      if k in IdsWhere(init, parent) {
        var i :| 0 <= i < |init| && init[i].id == k && Parent(init[i]) == parent;
        assert cs[i] == init[i];
      }
      if exists i :: 0 <= i < |cs| && cs[i].id == k && Parent(cs[i]) == parent {
        var i :| 0 <= i < |cs| && cs[i].id == k && Parent(cs[i]) == parent;
        if i < |cs| - 1 {
          assert init[i] == cs[i];
        }
      }
    }
  }

  /** One more comment visited: it joins the list of the parent it names. */
  lemma IdsWhereStep(cs: seq<DemoComment>, i: nat, parent: Option<string>)
    requires i < |cs|
    ensures IdsWhere(cs[..i + 1], parent) ==
            IdsWhere(cs[..i], parent) + (if Parent(cs[i]) == parent then [cs[i].id] else [])
  {
    assert cs[..i + 1][..i] == cs[..i];
  }

  /** Inserting a node adds its id to the top-level ids. */
  lemma {:induction false} InsertRootIds(x: CommentNode, s: seq<CommentNode>)
    ensures multiset(IdsOf(StableSort.InsertBy(x, s, NodeCreatedAt))) == multiset{x.comment.id} + multiset(IdsOf(s))
    decreases |s|
  {
    var ins := StableSort.InsertBy(x, s, NodeCreatedAt);
    if s == [] || x.comment.createdAt <= s[0].comment.createdAt {
      assert IdsOf(ins) == [x.comment.id] + IdsOf(s);
    } else {
      InsertRootIds(x, s[1..]);
      assert IdsOf(ins) == [s[0].comment.id] + IdsOf(StableSort.InsertBy(x, s[1..], NodeCreatedAt));
      assert IdsOf(s) == [s[0].comment.id] + IdsOf(s[1..]);
    }
  }

  /** Sorting siblings keeps their ids. */
  lemma {:induction false} SortRootIds(s: seq<CommentNode>)
    ensures multiset(IdsOf(StableSort.SortBy(s, NodeCreatedAt))) == multiset(IdsOf(s))
    decreases |s|
  {
    if s != [] {
      SortRootIds(s[1..]);
      InsertRootIds(s[0], StableSort.SortBy(s[1..], NodeCreatedAt));
      assert IdsOf(s) == [s[0].comment.id] + IdsOf(s[1..]);
    }
  }

  /** `sortTree` keeps the top-level ids and sorts every sibling list. */
  lemma SortTreeRoots(f: seq<CommentNode>)
    requires WellFormedForest(f)
    ensures multiset(IdsOf(SortTree(f))) == multiset(IdsOf(f))
    ensures AllSorted(SortTree(f))
  {
    assert IdsOf(SortEach(f)) == IdsOf(f);
    SortRootIds(SortEach(f));
    SortTreeSorted(f);
  }

  /** Sorting moves nodes among their siblings only: a forest whose nodes show
      their map entries still does after `sortTree`. */
  lemma {:induction false} SortTreeShows(a: Arena, ns: seq<CommentNode>)
    requires WellFormedForest(ns) && forall n :: n in ns ==> Shows(a, n)
    ensures forall n :: n in SortTree(ns) ==> Shows(a, n)
    decreases ns, 1
  {
    StableSort.SortBySortedPermutation(SortEach(ns), NodeCreatedAt);
    forall n | n in SortTree(ns) ensures Shows(a, n) {
      assert n in multiset(SortEach(ns));
      SortEachMember(ns, n);
      var i :| 0 <= i < |ns| && WellFormed(ns[i]) && n == SortNode(ns[i]);
      assert ns[i] in ns;
      SortNodeShows(a, ns[i]);
    }
  }

  lemma {:induction false} SortNodeShows(a: Arena, n: CommentNode)
    requires WellFormed(n) && Shows(a, n)
    ensures Shows(a, SortNode(n))
    decreases n, 0
  {
    var kids := n.replies.nodes;
    SortTreeShows(a, kids);
    SortTreeRoots(kids);
  }

  /** The forest `buildCommentNodes` returns hangs every comment, at every
      depth, below the comment it names: each node shows its stored entry, and
      its replies are, in some order, the comments naming it. */
  lemma FeedShows(cs: seq<DemoComment>, viewer: string)
    requires DistinctIds(cs)
    ensures forall n :: n in Feed(cs, viewer) ==> Shows(DemoArena(cs, viewer), n)
    ensures forall m :: m in Flatten(Feed(cs, viewer)) ==>
              Shows(DemoArena(cs, viewer), m) && multiset(IdsOf(m.replies.nodes)) == multiset(IdsWhere(cs, Some(m.comment.id)))
  {
    var a, f := DemoArena(cs, viewer), Feed(cs, viewer);
    DemoArenaLinked(cs, viewer);
    SortTreeShows(a, Unsorted(cs, viewer));
    forall m | m in Flatten(f)
      ensures Shows(a, m) && multiset(IdsOf(m.replies.nodes)) == multiset(IdsWhere(cs, Some(m.comment.id)))
    {
      BelowShows(a, f, m);
    }
  }

  /** The top-level nodes of the forest are the comments without a parent, each
      once, in ascending `createdAt` at every depth. */
  lemma FeedRoots(cs: seq<DemoComment>, viewer: string)
    requires DistinctIds(cs)
    ensures multiset(IdsOf(Feed(cs, viewer))) == multiset(IdsWhere(cs, None))
    ensures forall k :: k in IdsOf(Feed(cs, viewer)) <==> exists i :: 0 <= i < |cs| && cs[i].id == k && Parent(cs[i]) == None
    ensures AllSorted(Feed(cs, viewer))
  {
    var f := Unsorted(cs, viewer);
    SortTreeRoots(f);
    forall k ensures k in IdsOf(Feed(cs, viewer)) <==> exists i :: 0 <= i < |cs| && cs[i].id == k && Parent(cs[i]) == None {
      assert k in IdsOf(Feed(cs, viewer)) <==> k in multiset(IdsOf(Feed(cs, viewer)));
      assert k in IdsWhere(cs, None) <==> k in multiset(IdsWhere(cs, None));
      IdsWhereMembers(cs, None, k);
    }
  }

  /** The top-level nodes before sorting name no parent. */
  lemma UnsortedRootsTopLevel(cs: seq<DemoComment>, viewer: string)
    requires DistinctIds(cs)
    ensures forall n :: n in Unsorted(cs, viewer) ==> ParentOf(n.comment) == None
  {
    var f := Unsorted(cs, viewer);
    forall n | n in f ensures ParentOf(n.comment) == None {
      var j :| 0 <= j < |f| && f[j] == n;
      assert IdsOf(f)[j] == n.comment.id;
      IdsWhereParent(cs, None, n.comment.id);
      ViewParent(ById(cs, n.comment.id), viewer);
    }
  }

  /** A comment listed in the forest is the view of the stored comment with its
      id, whose parent is absent or stored. */
  lemma FeedNodeShowsStored(cs: seq<DemoComment>, viewer: string, m: Comment)
    requires DistinctIds(cs) && m in Listing(Feed(cs, viewer))
    ensures m.id in DemoIds(cs) && m == View(ById(cs, m.id), viewer)
    ensures Parent(ById(cs, m.id)).None? || Parent(ById(cs, m.id)).value in DemoIds(cs)
  {
    var f := Unsorted(cs, viewer);
    DemoArenaLinked(cs, viewer);
    UnsortedRootsTopLevel(cs, viewer);
    SortTreeKeepsComments(f);
    assert m in multiset(Listing(f));
    var j :| 0 <= j < |Flatten(f)| && CommentsOf(Flatten(f))[j] == m;
    BelowHasParent(DemoArena(cs, viewer), f, None, Flatten(f)[j]);
    ViewParent(ById(cs, m.id), viewer);
  }

  /** Every node of the forest, at any depth, shows the stored comment with its
      id: its heart count is the size of the heart set, `viewerHasHearted` says
      whether the viewer is in it, and it has no parent or a parent that is
      stored. So a comment whose parent is missing is dropped: it is neither
      attached nor made a root. */
  lemma FeedNodes(cs: seq<DemoComment>, viewer: string)
    requires DistinctIds(cs)
    ensures forall m :: m in Listing(Feed(cs, viewer)) ==>
              && m.id in DemoIds(cs)
              && m == View(ById(cs, m.id), viewer)
              && m.heartCount == |ById(cs, m.id).hearts|
              && (m.viewerHasHearted <==> viewer in ById(cs, m.id).hearts)
              && (Parent(ById(cs, m.id)).None? || Parent(ById(cs, m.id)).value in DemoIds(cs))
    ensures forall i :: 0 <= i < |cs| && Parent(cs[i]).Some? && Parent(cs[i]).value !in DemoIds(cs) ==>
              forall m :: m in Listing(Feed(cs, viewer)) ==> m.id != cs[i].id
  {
    forall m | m in Listing(Feed(cs, viewer))
      ensures m.id in DemoIds(cs) && m == View(ById(cs, m.id), viewer)
      ensures Parent(ById(cs, m.id)).None? || Parent(ById(cs, m.id)).value in DemoIds(cs)
    {
      FeedNodeShowsStored(cs, viewer, m);
    }
    forall i, m | 0 <= i < |cs| && Parent(cs[i]).Some? && Parent(cs[i]).value !in DemoIds(cs) && m in Listing(Feed(cs, viewer))
      ensures m.id != cs[i].id
    {
      ByIdAt(cs, i);
    }
  }

  // ---------------------------------------------------------------- buildCommentNodes' loops

  /** The first `forEach`: a node without replies for every stored comment. */
  method EnterNodes(cs: seq<DemoComment>, viewer: string) returns (nodeMap: Arena)
    requires DistinctIds(cs)
    ensures forall k :: k in nodeMap <==> k in DemoIds(cs)
    ensures forall k :: k in nodeMap ==> nodeMap[k] == Entry(View(ById(cs, k), viewer), [])
  {
    nodeMap := map[];
    var i := 0;
    while i < |cs|
      invariant 0 <= i <= |cs|
      invariant forall k :: k in nodeMap <==> k in DemoIds(cs[..i])
      invariant forall k :: k in nodeMap ==> k in DemoIds(cs) && nodeMap[k] == Entry(View(ById(cs, k), viewer), [])
    {
      var comment := cs[i];
      ByIdAt(cs, i);
      assert DemoIds(cs[..i + 1]) == DemoIds(cs[..i]) + [comment.id];
      nodeMap := nodeMap[comment.id := Entry(View(comment, viewer), [])];
      i := i + 1;
    }
    assert cs[..i] == cs;
  }

  /** The second `forEach`: each comment with a truthy `parentId` naming a
      stored comment is appended to that node's replies. */
  method LinkReplies(cs: seq<DemoComment>, viewer: string, nodes0: Arena) returns (nodeMap: Arena)
    requires forall k :: k in nodes0 <==> k in DemoIds(cs)
    requires forall k :: k in nodes0 ==> nodes0[k] == Entry(View(ById(cs, k), viewer), [])
    ensures forall k :: k in nodeMap <==> k in DemoIds(cs)
    ensures forall k :: k in nodeMap ==> nodeMap[k] == Entry(View(ById(cs, k), viewer), IdsWhere(cs, Some(k)))
  {
    nodeMap := nodes0;
    var i := 0;
    LinkedAtStart(cs, viewer, nodes0);
    while i < |cs|
      invariant 0 <= i <= |cs|
      invariant LinkedSoFar(cs, viewer, i, nodeMap)
    {
      nodeMap := LinkOne(cs, viewer, i, nodeMap);
      i := i + 1;
    }
    LinkedAtEnd(cs, viewer, nodeMap);
  }

  /** Before any comment is visited, no node has replies. */
  lemma LinkedAtStart(cs: seq<DemoComment>, viewer: string, nodeMap: Arena)
    requires forall k :: k in nodeMap <==> k in DemoIds(cs)
    requires forall k :: k in nodeMap ==> nodeMap[k] == Entry(View(ById(cs, k), viewer), [])
    ensures LinkedSoFar(cs, viewer, 0, nodeMap)
  {
    assert cs[..0] == [];
  }

  /** Once every comment is visited, each node's replies are all the comments
      naming it. */
  lemma LinkedAtEnd(cs: seq<DemoComment>, viewer: string, nodeMap: Arena)
    requires LinkedSoFar(cs, viewer, |cs|, nodeMap)
    ensures forall k :: k in nodeMap <==> k in DemoIds(cs)
    ensures forall k :: k in nodeMap ==> nodeMap[k] == Entry(View(ById(cs, k), viewer), IdsWhere(cs, Some(k)))
  {
    assert cs[..|cs|] == cs;
  }

  /** After the first `i` comments are visited: one node per stored id, whose
      replies are the visited comments that name it as their parent. */
  ghost predicate LinkedSoFar(cs: seq<DemoComment>, viewer: string, i: nat, nodeMap: Arena)
    requires i <= |cs|
  {
    && (forall k :: k in nodeMap <==> k in DemoIds(cs))
    && (forall k :: k in nodeMap ==> nodeMap[k] == Entry(View(ById(cs, k), viewer), IdsWhere(cs[..i], Some(k))))
  }

  /** The callback of the second `forEach`, for the `i`-th comment. */
  method LinkOne(cs: seq<DemoComment>, viewer: string, i: nat, nodes0: Arena) returns (nodeMap: Arena)
    requires i < |cs|
    requires LinkedSoFar(cs, viewer, i, nodes0)
    ensures LinkedSoFar(cs, viewer, i + 1, nodeMap)
  {
    nodeMap := nodes0;
    var comment := cs[i];
    assert DemoIds(cs)[i] == comment.id;
    if comment.parentId.Some? && comment.parentId.value != "" {
      var p := comment.parentId.value;
      if p in nodeMap && comment.id in nodeMap {
        nodeMap := nodeMap[p := nodeMap[p].(replies := nodeMap[p].replies + [comment.id])];
      }
    }
    LinkedOneMore(cs, viewer, i, nodes0, nodeMap);
  }

  /** The map after one more comment is linked. */
  lemma LinkedOneMore(cs: seq<DemoComment>, viewer: string, i: nat, before: Arena, after: Arena)
    requires i < |cs|
    requires LinkedSoFar(cs, viewer, i, before)
    requires var p := Parent(cs[i]);
             after == if p.Some? && p.value in before then before[p.value := before[p.value].(replies := before[p.value].replies + [cs[i].id])]
                      else before
    ensures LinkedSoFar(cs, viewer, i + 1, after)
  {
    forall k | k in after
      ensures after[k] == Entry(View(ById(cs, k), viewer), IdsWhere(cs[..i + 1], Some(k)))
    {
      IdsWhereStep(cs, i, Some(k));
    }
  }

  /** The roots: the nodes of the comments without a truthy `parentId`, in
      list order. */
  method PickRoots(cs: seq<DemoComment>, nodeMap: Arena) returns (roots: seq<string>)
    requires forall k :: k in nodeMap <==> k in DemoIds(cs)
    ensures roots == IdsWhere(cs, None)
  {
    roots := [];
    var i := 0;
    while i < |cs|
      invariant 0 <= i <= |cs|
      invariant roots == IdsWhere(cs[..i], None)
    {
      var comment := cs[i];
      IdsWhereStep(cs, i, None);
      assert DemoIds(cs)[i] == comment.id;
      if !(comment.parentId.Some? && comment.parentId.value != "") && comment.id in nodeMap {
        roots := roots + [comment.id];
      }
      i := i + 1;
    }
    assert cs[..i] == cs;
  }

  // ---------------------------------------------------------------- the demo state

  /** `DemoState`, the one store the demo keeps for the whole process. The
      clock and the id source are parameters of the operations that use them;
      ids handed to `SubmitDemoComment` are fresh, as `randomUUID` ones are. */
  class DemoState {
    var viewerId: string
    var thread: Thread
    var comments: seq<DemoComment>

    ghost predicate Valid()
      reads this
    {
      DistinctIds(comments)
    }

    /** `initializeState`: the seeded thread and its two comments, for the
        configured viewer (`demo-viewer` unless the environment names one). */
    constructor(now: int, viewerId: string)
      ensures Valid()
      ensures this.viewerId == viewerId && thread == SeedThread(now) && comments == SeedComments(now)
    {
      this.viewerId := viewerId;
      thread := SeedThread(now);
      comments := SeedComments(now);
    }

    /** `buildCommentNodes`: one node per stored comment in an id-keyed map,
        each comment with a truthy `parentId` naming a stored comment appended
        to that node's replies, then the comments without a parent as roots,
        sorted by `sortTree`. */
    method BuildCommentNodes() returns (nodes: seq<CommentNode>)
      requires Valid()
      ensures nodes == Feed(comments, viewerId)
    {
      var nodeMap := EnterNodes(comments, viewerId);
      nodeMap := LinkReplies(comments, viewerId, nodeMap);
      var roots := PickRoots(comments, nodeMap);
      assert nodeMap == DemoArena(comments, viewerId);
      DemoArenaLinked(comments, viewerId);
      ForestShows(nodeMap, [], roots);
      nodes := SortTree(Materialize(nodeMap, roots));
    }

    /** `loadDemoFeedData`: the thread, the forest, no banner, and the viewer. */
    method LoadDemoFeedData() returns (t: Thread, nodes: seq<CommentNode>, banner: Option<MutualLikeBanner>, viewer: string)
      requires Valid()
      ensures t == thread && nodes == Feed(comments, viewerId) && banner == None && viewer == viewerId
    {
      nodes := BuildCommentNodes();
      t, banner, viewer := thread, None, viewerId;
    }

    /** `submitDemoComment`: appends one comment without hearts, created at
        `now` under the fresh id `id`, and returns its node. */
    method SubmitDemoComment(threadId: string, content: string, parentId: Option<string>, authorId: string, id: string, now: int)
      returns (node: CommentNode)
      requires Valid() && id !in DemoIds(comments)
      modifies this`comments
      ensures Valid()
      ensures comments == old(comments) + [DemoComment(id, threadId, authorId, parentId, content, now, {})]
      ensures node.comment == View(comments[|comments| - 1], viewerId) && node.replies == Present([])
      ensures node.comment.heartCount == 0 && !node.comment.viewerHasHearted
    {
      var newComment := DemoComment(id, threadId, authorId, parentId, content, now, {});
      comments := comments + [newComment];
      assert DemoIds(comments) == DemoIds(old(comments)) + [id];
      node := CommentNode(Comment(newComment.id, newComment.threadId, newComment.authorId, newComment.parentId,
                                  newComment.content, newComment.createdAt, 0, false), Present([]));
    }

    /** `toggleDemoHeart`: fails with `COMMENT_NOT_FOUND` and changes nothing
        for an unknown comment; otherwise toggles the reactor's heart on the
        first comment with that id and reports the new state and heart count. */
    method ToggleDemoHeart(commentId: string, reactorId: string) returns (r: Result<ToggleOutcome, DemoError>)
      requires Valid()
      modifies this`comments
      ensures Valid()
      ensures match ToggleIn(old(comments), commentId, reactorId)
              case Err(e) => r == Err(e) && comments == old(comments)
              case Ok(toggled) => r == Ok(ToggleOutcome(toggled.1, None)) && comments == toggled.0
    {
      var i := Seqs.IndexOf(DemoIds(comments), commentId);
      if i < 0 {
        return Err(CommentNotFound);
      }
      var target := comments[i];
      var hasHeart := reactorId in target.hearts;
      var hearts := if hasHeart then target.hearts - {reactorId} else target.hearts + {reactorId};
      comments := comments[i := target.(hearts := hearts)];
      assert DemoIds(comments) == DemoIds(old(comments));
      var reaction := ReactionToggleResult(target.id, reactorId, !hasHeart, |hearts|);
      r := Ok(ToggleOutcome(reaction, None));
    }
  }
}
