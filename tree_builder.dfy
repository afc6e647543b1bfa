/** The default comment-tree builder of src/lib/comments/tree-builder.ts: the
    comments are ordered by creation time, entered into an id-keyed map (a later
    comment with the same id replacing the earlier node, its key keeping its
    first place), and then each node in map order is pushed onto its parent's
    replies, or onto the roots when it has no parent in the map.

    The map's node objects are modelled as map entries; a node pushed onto a
    parent's replies is recorded by its id, so, as with the shared objects of the
    source, a reply pushed onto a node is seen wherever that node is reached.
    The returned forest is the one those objects form below the roots. */
module TreeBuilder {
  import opened Wrappers
  import opened Comments
  import opened CommentArena
  import Seqs
  import StableSort

  // ---------------------------------------------------------------------------
  // The sort by `createdAt`
  // ---------------------------------------------------------------------------

  function CreatedAtOf(c: Comment): int {
    c.createdAt
  }

  /** `comments.sort((a, b) => createdAt(a) - createdAt(b))`. */
  function SortByCreatedAt(s: seq<Comment>): seq<Comment> {
    StableSort.SortBy(s, CreatedAtOf)
  }

  // ---------------------------------------------------------------------------
  // The id map
  // ---------------------------------------------------------------------------

  /** The ids of a list of comments, position by position. */
  function CommentIds(cs: seq<Comment>): (ids: seq<string>)
    ensures |ids| == |cs|
  {
    seq(|cs|, i requires 0 <= i < |cs| => cs[i].id)
  }

  /** The comment each id is mapped to after `map.set` for every comment in turn. */
  function Entries(cs: seq<Comment>): (e: map<string, Comment>)
    ensures forall k :: k in e <==> k in CommentIds(cs)
  {
    if cs == [] then map[]
    else
      var init := cs[..|cs| - 1];
      assert CommentIds(cs) == CommentIds(init) + [cs[|cs| - 1].id];
      Entries(init)[cs[|cs| - 1].id := cs[|cs| - 1]]
  }

  /** A later comment with the same id replaces the earlier one: an id is mapped
      to its last comment. */
  lemma {:induction false} LastCommentWins(cs: seq<Comment>, i: nat)
    requires i < |cs|
    requires forall j :: i < j < |cs| ==> cs[j].id != cs[i].id
    ensures cs[i].id in Entries(cs) && Entries(cs)[cs[i].id] == cs[i]
    decreases |cs|
  {
    var init := cs[..|cs| - 1];
    if i < |cs| - 1 {
      assert init[i] == cs[i];
      LastCommentWins(init, i);
    }
  }

  /** The node an id first entered keeps its place in the map's iteration order. */
  function MapOrder(cs: seq<Comment>): seq<string> {
    Seqs.Dedup(CommentIds(cs))
  }

  /** The parent a map entry is pushed under: its `parentId` when that is truthy
      and has a node in the map, else none (the node is a root). */
  function AttachedTo(e: map<string, Comment>, k: string): Option<string>
    requires k in e
  {
    if HasParent(e[k]) && e[k].parentId.value in e then Some(e[k].parentId.value) else None
  }

  /** The keys of `ks`, in order, that are attached to `where` (`None`: roots). */
  function Select(ks: seq<string>, e: map<string, Comment>, where: Option<string>): (r: seq<string>)
    requires forall k :: k in ks ==> k in e
    ensures forall k :: k in r ==> k in ks
  {
    if ks == [] then []
    else
      var last := ks[|ks| - 1];
      Select(ks[..|ks| - 1], e, where) + (if AttachedTo(e, last) == where then [last] else [])
  }

  // ---------------------------------------------------------------------------
  // buildTree
  // ---------------------------------------------------------------------------

  /** The map's keys in iteration order, the map itself, and the roots. */
  datatype Built = Built(order: seq<string>, nodes: Arena, roots: seq<string>)

  /** `buildTree`. The map holds one node per distinct id, carrying the last
      comment with that id in creation order; each node's replies are the keys
      attached to it and the roots are the unattached keys, both in map order. */
  method BuildTree(comments: seq<Comment>) returns (b: Built)
    ensures var sorted := SortByCreatedAt(comments);
            var e := Entries(sorted);
            b.order == MapOrder(sorted) &&
            (forall k :: k in b.nodes <==> k in e) &&
            (forall k :: k in b.nodes ==> b.nodes[k] == Entry(e[k], Select(b.order, e, Some(k)))) &&
            b.roots == Select(b.order, e, None)
    ensures b.nodes == Nodes(comments) && b.roots == Roots(comments)
    ensures Linked(b.nodes) && (forall r :: r in b.roots ==> Unattached(b.nodes, r))
    ensures Materialize(b.nodes, b.roots) == BuiltForest(comments)
  {
    var sorted := SortByCreatedAt(comments);
    var order, nodes := EnterAll(sorted);
    var attached, roots := AttachAll(order, nodes, Entries(sorted));
    b := Built(order, attached, roots);
    IsNodes(comments, attached);
    BuiltLinked(comments);
  }

  /** The first `forEach`: one node without replies per distinct id, holding the
      last comment with that id; keys in order of first appearance. */
  method EnterAll(sorted: seq<Comment>) returns (order: seq<string>, nodes: Arena)
    ensures order == MapOrder(sorted)
    ensures forall k :: k in nodes <==> k in Entries(sorted)
    ensures forall k :: k in nodes ==> nodes[k] == Entry(Entries(sorted)[k], [])
  {
    order, nodes := [], map[];
    var i := 0;
    while i < |sorted|
      invariant 0 <= i <= |sorted|
      invariant order == MapOrder(sorted[..i])
      invariant forall k :: k in nodes <==> k in Entries(sorted[..i])
      invariant forall k :: k in nodes ==> nodes[k] == Entry(Entries(sorted[..i])[k], [])
    {
      var c := sorted[i];
      EnterStep(sorted, i);
      FreshEntriesStep(nodes, Entries(sorted[..i]), c, nodes[c.id := Entry(c, [])], Entries(sorted[..i + 1]));
      if c.id !in nodes {
        order := order + [c.id];
      }
      nodes := nodes[c.id := Entry(c, [])];
      i := i + 1;
    }
    assert sorted[..i] == sorted;
  }

  /** Entering one comment keeps the map in step with `Entries`: the same keys,
      each holding its comment with no replies yet. */
  lemma FreshEntriesStep(nodes: Arena, e: map<string, Comment>, c: Comment,
                         nodes': Arena, e': map<string, Comment>)
    requires forall k :: k in nodes <==> k in e
    requires forall k :: k in nodes ==> nodes[k] == Entry(e[k], [])
    requires nodes' == nodes[c.id := Entry(c, [])] && e' == e[c.id := c]
    ensures forall k :: k in nodes' <==> k in e'
    ensures forall k :: k in nodes' ==> nodes'[k] == Entry(e'[k], [])
  {
  }

  /** One more comment entered: the map gains its id (at the end of the order
      when new) and the id now maps to it. */
  lemma EnterStep(sorted: seq<Comment>, i: nat)
    requires i < |sorted|
    ensures var c := sorted[i];
            MapOrder(sorted[..i + 1]) ==
              (if c.id in Entries(sorted[..i]) then MapOrder(sorted[..i]) else MapOrder(sorted[..i]) + [c.id]) &&
            Entries(sorted[..i + 1]) == Entries(sorted[..i])[c.id := c]
  {
    assert sorted[..i + 1][..i] == sorted[..i];
    assert CommentIds(sorted[..i + 1]) == CommentIds(sorted[..i]) + [sorted[i].id];
  }

  /** The second `forEach`: in map order, each node is pushed onto the replies of
      the node it is attached to, or onto the roots. */
  method AttachAll(order: seq<string>, nodes0: Arena, e: map<string, Comment>)
    returns (nodes: Arena, roots: seq<string>)
    requires forall k :: k in order ==> k in e
    requires forall k :: k in nodes0 <==> k in e
    requires forall k :: k in nodes0 ==> nodes0[k] == Entry(e[k], [])
    ensures forall k :: k in nodes <==> k in e
    ensures forall k :: k in nodes ==> nodes[k] == Entry(e[k], Select(order, e, Some(k)))
    ensures roots == Select(order, e, None)
  {
    nodes, roots := nodes0, [];
    var j := 0;
    while j < |order|
      invariant 0 <= j <= |order|
      invariant AttachedSoFar(order[..j], e, nodes)
      invariant roots == Select(order[..j], e, None)
    {
      nodes, roots := AttachOne(order, e, j, nodes, roots);
      j := j + 1;
    }
    assert order[..j] == order;
  }

  /** The callback of the second `forEach`, for the `j`-th key: the node is
      pushed onto the replies of its parent's node when `parentId` is truthy
      and names a node, and onto the roots otherwise. */
  method AttachOne(order: seq<string>, e: map<string, Comment>, j: nat,
                   nodes0: Arena, roots0: seq<string>)
    returns (nodes: Arena, roots: seq<string>)
    requires forall k :: k in order ==> k in e
    requires j < |order|
    requires AttachedSoFar(order[..j], e, nodes0)
    requires roots0 == Select(order[..j], e, None)
    ensures AttachedSoFar(order[..j + 1], e, nodes)
    ensures roots == Select(order[..j + 1], e, None)
  {
    nodes, roots := nodes0, roots0;
    var k := order[j];
    SelectStepAt(order, e, j, None);
    var node := nodes[k].comment;
    if node.parentId.Some? && node.parentId.value != "" && node.parentId.value in nodes {
      var p := node.parentId.value;
      nodes := nodes[p := nodes[p].(replies := nodes[p].replies + [k])];
    } else {
      roots := roots + [k];
    }
    AttachStep(order, e, j, nodes0, nodes);
  }

  /** After the keys `done` have been visited: one node per comment, whose
      replies are the visited keys attached to it. */
  ghost predicate AttachedSoFar(done: seq<string>, e: map<string, Comment>, nodes: Arena)
    requires forall k :: k in done ==> k in e
  {
    && (forall k :: k in nodes <==> k in e)
    && (forall k :: k in nodes ==> nodes[k] == Entry(e[k], Select(done, e, Some(k))))
  }

  /** Visiting one key keeps every node's replies equal to the selection so far:
      only the node the key is attached to (if any) gains it. */
  lemma AttachStep(order: seq<string>, e: map<string, Comment>, j: nat,
                   nodes: Arena, nodes': Arena)
    requires forall k :: k in order ==> k in e
    requires j < |order|
    requires AttachedSoFar(order[..j], e, nodes)
    requires AttachedTo(e, order[j]).None? ==> nodes' == nodes
    requires AttachedTo(e, order[j]).Some? ==>
               var p := AttachedTo(e, order[j]).value;
               p in nodes && nodes' == nodes[p := nodes[p].(replies := nodes[p].replies + [order[j]])]
    ensures AttachedSoFar(order[..j + 1], e, nodes')
  {
    SelectStep(order, e, j);
  }

  /** One more key visited, seen from one place. */
  lemma SelectStepAt(ks: seq<string>, e: map<string, Comment>, j: nat, where: Option<string>)
    requires forall k :: k in ks ==> k in e
    requires j < |ks|
    ensures Select(ks[..j + 1], e, where) ==
            Select(ks[..j], e, where) + (if AttachedTo(e, ks[j]) == where then [ks[j]] else [])
  {
    assert ks[..j + 1][..j] == ks[..j];
  }

  /** One more key visited: it joins the selection of the place it is attached to. */
  lemma SelectStep(ks: seq<string>, e: map<string, Comment>, j: nat)
    requires forall k :: k in ks ==> k in e
    requires j < |ks|
    ensures forall where :: Select(ks[..j + 1], e, where) ==
                            Select(ks[..j], e, where) + (if AttachedTo(e, ks[j]) == where then [ks[j]] else [])
  {
    assert ks[..j + 1][..j] == ks[..j];
  }

  // ---------------------------------------------------------------------------
  // What the built map promises
  // ---------------------------------------------------------------------------

  /** A key is selected for `where` exactly when it is attached there. */
  lemma {:induction false} SelectMembers(ks: seq<string>, e: map<string, Comment>, where: Option<string>, k: string)
    requires forall k :: k in ks ==> k in e
    ensures k in Select(ks, e, where) <==> k in ks && AttachedTo(e, k) == where
    decreases |ks|
  {
    if ks != [] {
      var init := ks[..|ks| - 1];
      assert ks == init + [ks[|ks| - 1]];
      SelectMembers(init, e, where, k);
    }
  }

  /** Selecting from keys without repeats gives keys without repeats. */
  lemma {:induction false} SelectOnce(ks: seq<string>, e: map<string, Comment>, where: Option<string>, k: string)
    requires forall k :: k in ks ==> k in e
    requires multiset(ks)[k] <= 1
    ensures multiset(Select(ks, e, where))[k] <= 1
    decreases |ks|
  {
    if ks != [] {
      var init := ks[..|ks| - 1];
      var last := ks[|ks| - 1];
      assert ks == init + [last];
      assert multiset(ks) == multiset(init) + multiset{last};
      SelectOnce(init, e, where, k);
      if last == k {
        SelectMembers(init, e, where, k);
      }
    }
  }

  /** A sequence without repeats has each element once. */
  lemma {:induction false} NoDuplicatesCount<T>(s: seq<T>, x: T)
    requires Seqs.NoDuplicates(s)
    ensures multiset(s)[x] <= 1
    decreases |s|
  {
    if s != [] {
      assert s == [s[0]] + s[1..];
      NoDuplicatesCount(s[1..], x);
    }
  }

  /** Every comment's id has a node; the node is a root exactly when its comment
      has no truthy `parentId` or no node carries that id, and a reply of the node
      of `p` exactly when `p` is its parent; either way it is listed there once. */
  lemma EachCommentPlacedOnce(comments: seq<Comment>, k: string)
    ensures var sorted := SortByCreatedAt(comments);
            var e := Entries(sorted);
            var order := MapOrder(sorted);
            (k in e <==> k in CommentIds(comments)) &&
            (k in e ==>
               (k in Select(order, e, None) <==> !(HasParent(e[k]) && e[k].parentId.value in e)) &&
               (forall p :: k in Select(order, e, Some(p)) <==> HasParent(e[k]) && e[k].parentId == Some(p) && p in e) &&
               multiset(Select(order, e, AttachedTo(e, k)))[k] == 1)
  {
    var sorted := SortByCreatedAt(comments);
    var e := Entries(sorted);
    var order := MapOrder(sorted);
    StableSort.SortBySortedPermutation(comments, CreatedAtOf);
    assert k in CommentIds(sorted) <==> k in CommentIds(comments) by {
      SameIds(comments, sorted, k);
    }
    if k in e {
      SelectMembers(order, e, None, k);
      forall p ensures k in Select(order, e, Some(p)) <==> HasParent(e[k]) && e[k].parentId == Some(p) && p in e {
        SelectMembers(order, e, Some(p), k);
      }
      SelectMembers(order, e, AttachedTo(e, k), k);
      NoDuplicatesCount(order, k);
      SelectOnce(order, e, AttachedTo(e, k), k);
    }
  }

  /** Two lists holding the same comments hold the same ids. */
  lemma SameIds(a: seq<Comment>, b: seq<Comment>, k: string)
    requires multiset(a) == multiset(b)
    ensures k in CommentIds(a) <==> k in CommentIds(b)
  {
    if k in CommentIds(a) {
      var i :| 0 <= i < |a| && a[i].id == k;
      assert a[i] in multiset(b);
      var j :| 0 <= j < |b| && b[j] == a[i];
      assert CommentIds(b)[j] == k;
    }
    if k in CommentIds(b) {
      var i :| 0 <= i < |b| && b[i].id == k;
      assert b[i] in multiset(a);
      var j :| 0 <= j < |a| && a[j] == b[i];
      assert CommentIds(a)[j] == k;
    }
  }

  // ---------------------------------------------------------------------------
  // The returned forest
  // ---------------------------------------------------------------------------

  /** Each comment is filed under its own id. */
  lemma {:induction false} EntriesIds(cs: seq<Comment>)
    ensures forall k :: k in Entries(cs) ==> Entries(cs)[k].id == k
    decreases |cs|
  {
    if cs != [] {
      EntriesIds(cs[..|cs| - 1]);
    }
  }

  /** The map after the second `forEach` over the keys `order`. */
  function AttachedNodes(order: seq<string>, e: map<string, Comment>): Arena
    requires forall k :: k in order ==> k in e
  {
    map k | k in e :: Entry(e[k], Select(order, e, Some(k)))
  }

  /** The map `buildTree` fills in. */
  function Nodes(comments: seq<Comment>): Arena {
    var sorted := SortByCreatedAt(comments);
    AttachedNodes(MapOrder(sorted), Entries(sorted))
  }

  /** The ids of the nodes `buildTree` pushes onto its roots. */
  function Roots(comments: seq<Comment>): seq<string> {
    var sorted := SortByCreatedAt(comments);
    Select(MapOrder(sorted), Entries(sorted), None)
  }

  /** The map links each reply below the node its comment names, the roots are
      exactly its unattached nodes, and no node is pushed twice. */
  lemma AttachedLinked(order: seq<string>, e: map<string, Comment>)
    requires forall k :: k in order ==> k in e
    requires forall k :: k in e ==> k in order && e[k].id == k
    requires Seqs.NoDuplicates(order)
    ensures var a, roots := AttachedNodes(order, e), Select(order, e, None);
            && Linked(a) && (forall r :: r in roots ==> Unattached(a, r))
            && Complete(a, roots) && Once(roots) && RepliesOnce(a)
  {
    var a, roots := AttachedNodes(order, e), Select(order, e, None);
    forall k | k in a ensures Up(a, k, 1) == AttachedTo(e, k) {
      if HasParent(e[k]) {
        assert Up(a, k, 1) == Up(a, e[k].parentId.value, 0);
      }
    }
    forall k, r | k in a && r in a[k].replies ensures r in a && ParentOf(a[r].comment) == Some(k) {
      SelectMembers(order, e, Some(k), r);
    }
    forall k ensures Unattached(a, k) <==> k in roots {
      SelectMembers(order, e, None, k);
      UnattachedUp(a, k);
    }
    forall k | k in a && Up(a, k, 1).Some? ensures k in a[Up(a, k, 1).value].replies {
      SelectMembers(order, e, Up(a, k, 1), k);
    }
    forall x ensures multiset(roots)[x] <= 1 {
      NoDuplicatesCount(order, x);
      SelectOnce(order, e, None, x);
    }
    forall k, x | k in a ensures multiset(a[k].replies)[x] <= 1 {
      NoDuplicatesCount(order, x);
      SelectOnce(order, e, Some(k), x);
    }
  }

  /** A map with the keys and the nodes `BuildTree` promises is `Nodes`. */
  lemma IsNodes(comments: seq<Comment>, nodes: Arena)
    requires var sorted := SortByCreatedAt(comments);
             var e := Entries(sorted);
             (forall k :: k in nodes <==> k in e) &&
             (forall k :: k in nodes ==> nodes[k] == Entry(e[k], Select(MapOrder(sorted), e, Some(k))))
    ensures nodes == Nodes(comments)
  {
    var sorted := SortByCreatedAt(comments);
    assert forall k :: k in nodes ==> nodes[k] == AttachedNodes(MapOrder(sorted), Entries(sorted))[k];
  }

  /** `AttachedLinked` for the map and the roots `buildTree` builds. */
  lemma BuiltLinked(comments: seq<Comment>)
    ensures var a, roots := Nodes(comments), Roots(comments);
            && Linked(a) && (forall r :: r in roots ==> Unattached(a, r))
            && Complete(a, roots) && Once(roots) && RepliesOnce(a)
  {
    var sorted := SortByCreatedAt(comments);
    EntriesIds(sorted);
    AttachedLinked(MapOrder(sorted), Entries(sorted));
  }

  /** The forest `buildTree` returns: its roots, with the replies pushed onto
      the shared node objects below them. */
  ghost function BuiltForest(comments: seq<Comment>): (f: seq<CommentNode>)
    ensures WellFormedForest(f) && IdsOf(f) == Roots(comments)
    ensures forall n :: n in f ==> Shows(Nodes(comments), n)
    ensures forall n :: n in f ==> ShowsInOrder(Nodes(comments), n)
  {
    BuiltLinked(comments);
    ForestShows(Nodes(comments), [], Roots(comments));
    ForestShowsInOrder(Nodes(comments), [], Roots(comments));
    Materialize(Nodes(comments), Roots(comments))
  }

  /** Whatever the parent links, the forest holds a node for an id exactly
      when some comment has that id and following `parentId` up from it
      through the map ends at a node that names no parent in the map: the
      comments of a parent cycle, and those below one, are in no tree. */
  lemma BuiltForestHolds(comments: seq<Comment>, k: string)
    ensures k in Ids(BuiltForest(comments)) <==> k in CommentIds(comments) && ReachesRoot(Nodes(comments), k)
  {
    BuiltLinked(comments);
    MaterializeHolds(Nodes(comments), Roots(comments), k);
    EachCommentPlacedOnce(comments, k);
  }

  /** Without a parent cycle, every id of the input is in the forest exactly
      once (a repeated id once, with its last comment). */
  lemma BuiltForestEachOnce(comments: seq<Comment>)
    requires Acyclic(Nodes(comments))
    ensures forall k :: multiset(Ids(BuiltForest(comments)))[k] == if k in CommentIds(comments) then 1 else 0
  {
    BuiltLinked(comments);
    MaterializeEachOnce(Nodes(comments), Roots(comments));
    forall k ensures k in Nodes(comments) <==> k in CommentIds(comments) {
      EachCommentPlacedOnce(comments, k);
    }
  }

  /** With unique ids and no parent cycle, the forest holds exactly the input's
      comments' ids. */
  lemma BuiltForestIds(comments: seq<Comment>)
    requires UniqueIds(comments) && Acyclic(Nodes(comments))
    ensures multiset(Ids(BuiltForest(comments))) == multiset(CommentIds(comments))
  {
    BuiltForestEachOnce(comments);
    var ids := CommentIds(comments);
    forall k ensures multiset(Ids(BuiltForest(comments)))[k] == multiset(ids)[k] {
      assert k in ids <==> k in multiset(ids);
    }
  }

  // ---------------------------------------------------------------------------
  // Ordering
  // ---------------------------------------------------------------------------

  /** No two comments share an id. */
  ghost predicate UniqueIds(cs: seq<Comment>) {
    forall k :: multiset(CommentIds(cs))[k] <= 1
  }

  /** Keys listed in ascending `createdAt` of their nodes. */
  predicate Ascending(ks: seq<string>, e: map<string, Comment>)
    requires forall k :: k in ks ==> k in e
  {
    forall i, j :: 0 <= i < j < |ks| ==> e[ks[i]].createdAt <= e[ks[j]].createdAt
  }

  /** With unique ids, the roots and the replies of every node are listed in
      ascending creation time, because the map iterates in insertion order and
      the comments were entered sorted. */
  lemma RootsAndRepliesAscending(comments: seq<Comment>, where: Option<string>)
    requires UniqueIds(comments)
    ensures var sorted := SortByCreatedAt(comments);
            Ascending(Select(MapOrder(sorted), Entries(sorted), where), Entries(sorted))
  {
    var sorted := SortByCreatedAt(comments);
    StableSort.SortBySortedPermutation(comments, CreatedAtOf);
    SortKeepsIds(comments);
    OrderAscending(sorted);
    SelectAscending(MapOrder(sorted), Entries(sorted), where);
  }

  /** Sorting keeps the ids, with their multiplicities. */
  lemma {:induction false} SortKeepsIds(s: seq<Comment>)
    ensures multiset(CommentIds(SortByCreatedAt(s))) == multiset(CommentIds(s))
  {
    if s != [] {
      SortKeepsIds(s[1..]);
      InsertKeepsIds(s[0], SortByCreatedAt(s[1..]));
      assert CommentIds(s) == [s[0].id] + CommentIds(s[1..]);
    }
  }

  lemma {:induction false} InsertKeepsIds(x: Comment, s: seq<Comment>)
    ensures multiset(CommentIds(StableSort.InsertBy(x, s, CreatedAtOf))) == multiset{x.id} + multiset(CommentIds(s))
  {
    var r := StableSort.InsertBy(x, s, CreatedAtOf);
    if s == [] || x.createdAt <= s[0].createdAt {
      assert CommentIds(r) == [x.id] + CommentIds(s);
    } else {
      InsertKeepsIds(x, s[1..]);
      assert CommentIds(r) == [s[0].id] + CommentIds(StableSort.InsertBy(x, s[1..], CreatedAtOf));
      assert CommentIds(s) == [s[0].id] + CommentIds(s[1..]);
    }
  }

  /** With unique ids, each comment is the one its id maps to. */
  lemma EntryOfUnique(sorted: seq<Comment>, i: nat)
    requires UniqueIds(sorted) && i < |sorted|
    ensures sorted[i].id in Entries(sorted) && Entries(sorted)[sorted[i].id] == sorted[i]
  {
    var ids := CommentIds(sorted);
    forall j | i < j < |sorted|
      ensures sorted[j].id != sorted[i].id
    {
      if sorted[j].id == sorted[i].id {
        Seqs.TwoOccurrences(ids, i, j);
        assert false;
      }
    }
    LastCommentWins(sorted, i);
  }

  /** Entered in ascending creation time with unique ids, the map's keys are
      ascending. */
  lemma OrderAscending(sorted: seq<Comment>)
    requires StableSort.SortedBy(sorted, CreatedAtOf) && UniqueIds(sorted)
    ensures Ascending(MapOrder(sorted), Entries(sorted))
  {
    var ids, order, e := CommentIds(sorted), MapOrder(sorted), Entries(sorted);
    forall a, b | 0 <= a < b < |order|
      ensures e[order[a]].createdAt <= e[order[b]].createdAt
    {
      var ia, ib := Seqs.IndexOf(ids, order[a]), Seqs.IndexOf(ids, order[b]);
      EntryOfUnique(sorted, ia);
      EntryOfUnique(sorted, ib);
    }
  }

  /** With unique ids, every reply list of the map is in ascending creation
      time. */
  lemma BuiltRepliesAscending(comments: seq<Comment>)
    requires UniqueIds(comments)
    ensures RepliesAscending(Nodes(comments))
  {
    var sorted := SortByCreatedAt(comments);
    var a, e := Nodes(comments), Entries(sorted);
    forall k, i, j | k in a && 0 <= i < j < |a[k].replies| && a[k].replies[i] in a && a[k].replies[j] in a
      ensures a[a[k].replies[i]].comment.createdAt <= a[a[k].replies[j]].comment.createdAt
    {
      RootsAndRepliesAscending(comments, Some(k));
    }
  }

  /** With unique ids, the forest `buildTree` returns has its roots and the
      replies of every node, at every depth, in ascending creation time. */
  lemma BuiltForestSorted(comments: seq<Comment>)
    requires UniqueIds(comments)
    ensures AllSorted(BuiltForest(comments))
  {
    var f, a := BuiltForest(comments), Nodes(comments);
    BuiltRepliesAscending(comments);
    forall n | n in f ensures NodeSorted(n) {
      InOrderSorted(a, n);
    }
    RootsAndRepliesAscending(comments, None);
    forall i, j | 0 <= i < j < |f| ensures NodeCreatedAt(f[i]) <= NodeCreatedAt(f[j]) {
      assert f[i] in f && f[j] in f;
      assert IdsOf(f)[i] == f[i].comment.id && IdsOf(f)[j] == f[j].comment.id;
    }
  }

  /** Selecting keeps ascending keys ascending. */
  lemma {:induction false} SelectAscending(ks: seq<string>, e: map<string, Comment>, where: Option<string>)
    requires forall k :: k in ks ==> k in e
    requires Ascending(ks, e)
    ensures Ascending(Select(ks, e, where), e)
    decreases |ks|
  {
    if ks != [] {
      var init, last := ks[..|ks| - 1], ks[|ks| - 1];
      var sel := Select(init, e, where);
      SelectAscending(init, e, where);
      forall a | 0 <= a < |sel|
        ensures e[sel[a]].createdAt <= e[last].createdAt
      {
        SelectMembers(init, e, where, sel[a]);
        var m :| 0 <= m < |init| && init[m] == sel[a];
        assert ks[m] == sel[a];
      }
    }
  }
}
