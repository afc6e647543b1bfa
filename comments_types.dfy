/** The comment entities (src/lib/comments/types.ts) and the pre-order views of a
    comment forest that the tree operations are specified against. */
module Comments {
  import opened Wrappers
  import Seqs
  import StableSort

  /** A flat comment. `createdAt` is an integer timestamp; `parentId` is
      `string | null`. */
  datatype Comment = Comment(
    id: string,
    threadId: string,
    authorId: string,
    parentId: Option<string>,
    content: string,
    createdAt: int,
    heartCount: int,
    viewerHasHearted: bool)

  /** A node's `replies`, which a node built elsewhere may lack altogether. */
  datatype Replies = Absent | Present(nodes: seq<CommentNode>)

  /** `CommentNode = Comment & { replies }`. */
  datatype CommentNode = CommentNode(comment: Comment, replies: Replies)

  /** JavaScript truthiness of `parentId`: present and not the empty string. */
  predicate HasParent(c: Comment) {
    c.parentId.Some? && c.parentId.value != ""
  }

  /** The number of direct replies, a missing list counting as none. */
  function Arity(n: CommentNode): nat {
    match n.replies
    case Absent => 0
    case Present(kids) => |kids|
  }

  /** The declared type of `CommentNode`: every node carries a replies array. */
  predicate WellFormed(n: CommentNode)
    decreases n
  {
    match n.replies
    case Absent => false
    case Present(kids) => WellFormedForest(kids)
  }

  predicate WellFormedForest(ns: seq<CommentNode>)
    decreases ns
  {
    ns == [] || (WellFormed(ns[0]) && WellFormedForest(ns[1..]))
  }

  /** All nodes of a forest in pre-order: each node, then its replies, then its
      later siblings. */
  function Flatten(ns: seq<CommentNode>): (s: seq<CommentNode>)
    ensures |s| >= |ns|
    decreases ns
  {
    if ns == [] then [] else FlattenNode(ns[0]) + Flatten(ns[1..])
  }

  function FlattenNode(n: CommentNode): (s: seq<CommentNode>)
    ensures |s| >= 1 && s[0] == n
    decreases n
  {
    [n] + match n.replies
          case Absent => []
          case Present(kids) => Flatten(kids)
  }

  function NodeCreatedAt(n: CommentNode): int {
    n.comment.createdAt
  }

  /** The siblings at every level are in ascending `createdAt`. */
  ghost predicate AllSorted(ns: seq<CommentNode>) {
    StableSort.SortedBy(ns, NodeCreatedAt) && forall n :: n in ns ==> NodeSorted(n)
  }

  ghost predicate NodeSorted(n: CommentNode)
    decreases n
  {
    n.replies.Present?
    && StableSort.SortedBy(n.replies.nodes, NodeCreatedAt)
    && forall m :: m in n.replies.nodes ==> NodeSorted(m)
  }

  /** The ids of a node sequence, position by position. */
  function IdsOf(s: seq<CommentNode>): (ids: seq<string>)
    ensures |ids| == |s|
  {
    seq(|s|, i requires 0 <= i < |s| => s[i].comment.id)
  }

  /** The comments of a node sequence, position by position. */
  function CommentsOf(s: seq<CommentNode>): (cs: seq<Comment>)
    ensures |cs| == |s|
  {
    seq(|s|, i requires 0 <= i < |s| => s[i].comment)
  }

  lemma CommentsOfConcat(a: seq<CommentNode>, b: seq<CommentNode>)
    ensures CommentsOf(a + b) == CommentsOf(a) + CommentsOf(b)
  {
  }

  /** Every id in a forest, in pre-order. */
  function Ids(ns: seq<CommentNode>): seq<string> {
    IdsOf(Flatten(ns))
  }

  /** The ids of the top-level nodes, in order. */
  function RootIds(ns: seq<CommentNode>): seq<string> {
    IdsOf(ns)
  }

  /** Each node's comment with its number of replies, in pre-order; it pins down
      the shape of the forest. */
  function Shape(s: seq<CommentNode>): (r: seq<(Comment, nat)>)
    ensures |r| == |s|
    ensures forall i :: 0 <= i < |s| ==> r[i] == (s[i].comment, Arity(s[i]))
  {
    seq(|s|, i requires 0 <= i < |s| => (s[i].comment, Arity(s[i])))
  }

  /** Each comment of a forest paired with its depth, in pre-order, the top
      level being at depth `d`. Unlike the comments alone, it records where
      every node hangs: `OutlineDetermines` shows it fixes the whole forest.
      The recursion is `Entries`; this name for it does not recurse, so that
      forests known to be equal have outlines known to be equal without
      unfolding it. */
  function Outline(ns: seq<CommentNode>, d: nat): seq<(Comment, nat)> {
    Entries(ns, d)
  }

  /** The outline of one tree whose root is at depth `d`. */
  function OutlineNode(n: CommentNode, d: nat): seq<(Comment, nat)> {
    EntriesNode(n, d)
  }

  function Entries(ns: seq<CommentNode>, d: nat): seq<(Comment, nat)>
    decreases ns
  {
    if ns == [] then [] else EntriesNode(ns[0], d) + Entries(ns[1..], d)
  }

  function EntriesNode(n: CommentNode, d: nat): seq<(Comment, nat)>
    decreases n
  {
    [(n.comment, d)] + match n.replies
                       case Absent => []
                       case Present(kids) => Entries(kids, d + 1)
  }

  /** All comments of a forest, in pre-order. */
  function Listing(ns: seq<CommentNode>): seq<Comment> {
    CommentsOf(Flatten(ns))
  }

  /** All comments of a tree, in pre-order. */
  function ListingNode(n: CommentNode): seq<Comment> {
    CommentsOf(FlattenNode(n))
  }

  /** The number of nodes of a tree. */
  function Size(n: CommentNode): nat {
    |FlattenNode(n)|
  }

  /** The pre-order position of the first node with id `p`. */
  function At(f: seq<CommentNode>, p: string): (k: nat)
    requires p in IdsOf(f)
    ensures k < |f| && f[k].comment.id == p
  {
    Seqs.IndexOf(IdsOf(f), p)
  }

  /** The position just past the subtree of the first node with id `p`. */
  function After(f: seq<CommentNode>, p: string): nat
    requires p in IdsOf(f)
  {
    At(f, p) + Size(f[At(f, p)])
  }

  lemma ListingCons(ns: seq<CommentNode>)
    requires ns != []
    ensures Listing(ns) == ListingNode(ns[0]) + Listing(ns[1..])
  {
    CommentsOfConcat(FlattenNode(ns[0]), Flatten(ns[1..]));
  }

  lemma ListingOfNode(n: CommentNode)
    ensures ListingNode(n) ==
            [n.comment] + match n.replies case Absent => [] case Present(kids) => Listing(kids)
  {
    match n.replies
    case Absent =>
    case Present(kids) => CommentsOfConcat([n], Flatten(kids));
  }

  lemma IdsOfConcat(a: seq<CommentNode>, b: seq<CommentNode>)
    ensures IdsOf(a + b) == IdsOf(a) + IdsOf(b)
  {
  }

  lemma ShapeConcat(a: seq<CommentNode>, b: seq<CommentNode>)
    ensures Shape(a + b) == Shape(a) + Shape(b)
  {
  }

  /** The pre-order ids of a forest split into those of its first tree and of
      the rest. */
  lemma IdsCons(ns: seq<CommentNode>)
    requires ns != []
    ensures Ids(ns) == IdsOf(FlattenNode(ns[0])) + Ids(ns[1..])
  {
    IdsOfConcat(FlattenNode(ns[0]), Flatten(ns[1..]));
  }

  /** A tree's ids: its own, then those of its replies. */
  lemma IdsNode(n: CommentNode)
    ensures IdsOf(FlattenNode(n)) ==
            [n.comment.id] + match n.replies case Absent => [] case Present(kids) => Ids(kids)
  {
    match n.replies
    case Absent =>
    case Present(kids) => IdsOfConcat([n], Flatten(kids));
  }

  /** Positions in a forest: those inside the first tree, then those of the
      later trees shifted past it. */
  lemma PositionCons(ns: seq<CommentNode>, p: string)
    requires ns != [] && p in Ids(ns)
    ensures var fh := FlattenNode(ns[0]);
            if p in IdsOf(fh) then
              At(Flatten(ns), p) == At(fh, p) && After(Flatten(ns), p) == After(fh, p)
            else
              p in Ids(ns[1..]) &&
              At(Flatten(ns), p) == |fh| + At(Flatten(ns[1..]), p) &&
              After(Flatten(ns), p) == |fh| + After(Flatten(ns[1..]), p)
  {
    var fh, ft := FlattenNode(ns[0]), Flatten(ns[1..]);
    IdsCons(ns);
    Seqs.IndexOfConcat(IdsOf(fh), Ids(ns[1..]), p);
    assert Flatten(ns) == fh + ft;
    if p in IdsOf(fh) {
      assert Flatten(ns)[At(fh, p)] == fh[At(fh, p)];
    } else {
      assert Flatten(ns)[|fh| + At(ft, p)] == ft[At(ft, p)];
    }
  }

  /** Positions in a tree: the root at 0, then those of its replies shifted by one. */
  lemma PositionNode(n: CommentNode, p: string)
    requires n.replies.Present? && p in IdsOf(FlattenNode(n))
    ensures var fk := Flatten(n.replies.nodes);
            if n.comment.id == p then At(FlattenNode(n), p) == 0
            else
              p in Ids(n.replies.nodes) &&
              At(FlattenNode(n), p) == 1 + At(fk, p) &&
              After(FlattenNode(n), p) == 1 + After(fk, p)
  {
    var kids := n.replies.nodes;
    var f, fk := FlattenNode(n), Flatten(kids);
    IdsNode(n);
    Seqs.IndexOfConcat([n.comment.id], Ids(kids), p);
    if n.comment.id != p {
      assert f[1 + At(fk, p)] == fk[At(fk, p)];
    }
  }

  /** How often an id occurs in a forest: in its first tree plus in the rest. */
  lemma CountCons(ns: seq<CommentNode>, p: string)
    requires ns != []
    ensures multiset(Ids(ns))[p] == multiset(IdsOf(FlattenNode(ns[0])))[p] + multiset(Ids(ns[1..]))[p]
  {
    IdsCons(ns);
    assert multiset(Ids(ns)) == multiset(IdsOf(FlattenNode(ns[0]))) + multiset(Ids(ns[1..]));
  }

  /** How often an id occurs in a tree: at its root plus in its replies. */
  lemma CountNode(n: CommentNode, p: string)
    requires n.replies.Present?
    ensures multiset(IdsOf(FlattenNode(n)))[p] == (if n.comment.id == p then 1 else 0) + multiset(Ids(n.replies.nodes))[p]
  {
    IdsNode(n);
    assert multiset(IdsOf(FlattenNode(n))) == multiset([n.comment.id]) + multiset(Ids(n.replies.nodes));
  }

  lemma {:induction false} FlattenAppend(a: seq<CommentNode>, b: seq<CommentNode>)
    ensures Flatten(a + b) == Flatten(a) + Flatten(b)
    decreases a
  {
    if a == [] {
      assert a + b == b;
    } else {
      assert (a + b)[0] == a[0];
      assert (a + b)[1..] == a[1..] + b;
      FlattenAppend(a[1..], b);
    }
  }

  lemma IdsAppend(a: seq<CommentNode>, b: seq<CommentNode>)
    ensures Ids(a + b) == Ids(a) + Ids(b)
  {
    FlattenAppend(a, b);
    IdsOfConcat(Flatten(a), Flatten(b));
  }

  /** A top-level node is among the flattened nodes. */
  lemma {:induction false} TopInFlatten(ns: seq<CommentNode>, n: CommentNode)
    requires n in ns
    ensures n in Flatten(ns)
    decreases ns
  {
    if n != ns[0] {
      assert n in ns[1..];
      TopInFlatten(ns[1..], n);
    }
  }

  /** The nodes below a flattened node are flattened too. */
  lemma {:induction false} SubtreeInFlatten(ns: seq<CommentNode>, m: CommentNode, x: CommentNode)
    requires m in Flatten(ns) && x in FlattenNode(m)
    ensures x in Flatten(ns)
    decreases ns, 1
  {
    if m in FlattenNode(ns[0]) {
      SubtreeInNode(ns[0], m, x);
    } else {
      SubtreeInFlatten(ns[1..], m, x);
    }
  }

  lemma {:induction false} SubtreeInNode(n: CommentNode, m: CommentNode, x: CommentNode)
    requires m in FlattenNode(n) && x in FlattenNode(m)
    ensures x in FlattenNode(n)
    decreases n, 0
  {
    if m != n {
      SubtreeInFlatten(n.replies.nodes, m, x);
    }
  }

  /** Appending a tree to a forest appends its outline. */
  lemma {:induction false} OutlineSnoc(kids: seq<CommentNode>, x: CommentNode, d: nat)
    ensures Outline(kids + [x], d) == Outline(kids, d) + OutlineNode(x, d)
    decreases kids
  {
    if kids == [] {
      assert [x][1..] == [];
    } else {
      assert (kids + [x])[0] == kids[0];
      assert (kids + [x])[1..] == kids[1..] + [x];
      OutlineSnoc(kids[1..], x, d);
    }
  }

  /** An outline has one entry per node. */
  lemma {:induction false} OutlineLength(ns: seq<CommentNode>, d: nat)
    ensures |Outline(ns, d)| == |Flatten(ns)|
    decreases ns
  {
    if ns != [] {
      OutlineNodeLength(ns[0], d);
      OutlineLength(ns[1..], d);
    }
  }

  lemma {:induction false} OutlineNodeLength(n: CommentNode, d: nat)
    ensures |OutlineNode(n, d)| == |FlattenNode(n)|
    decreases n
  {
    match n.replies
    case Absent =>
    case Present(kids) => OutlineLength(kids, d + 1);
  }

  /** The outline pairs each node of the pre-order with its depth. */
  lemma {:induction false} OutlineComments(ns: seq<CommentNode>, d: nat)
    ensures forall i :: 0 <= i < |ns| ==> ns[i] in Flatten(ns)
    ensures |Outline(ns, d)| == |Flatten(ns)|
    ensures forall i :: 0 <= i < |Flatten(ns)| ==> Outline(ns, d)[i].0 == Flatten(ns)[i].comment
    decreases ns
  {
    OutlineLength(ns, d);
    if ns != [] {
      var fh := FlattenNode(ns[0]);
      OutlineNodeComments(ns[0], d);
      OutlineComments(ns[1..], d);
      assert Flatten(ns) == fh + Flatten(ns[1..]);
      forall i | 0 <= i < |ns| ensures ns[i] in Flatten(ns) {
        if i > 0 {
          assert ns[i] == ns[1..][i - 1];
        }
      }
    }
  }

  lemma {:induction false} OutlineNodeComments(n: CommentNode, d: nat)
    ensures |OutlineNode(n, d)| == |FlattenNode(n)|
    ensures forall i :: 0 <= i < |FlattenNode(n)| ==> OutlineNode(n, d)[i].0 == FlattenNode(n)[i].comment
    decreases n
  {
    OutlineNodeLength(n, d);
    match n.replies
    case Absent =>
    case Present(kids) =>
      OutlineComments(kids, d + 1);
      assert FlattenNode(n) == [n] + Flatten(kids);
  }

  /** Every entry of a forest's outline is at its top depth or deeper. */
  lemma {:induction false} OutlineDepths(ns: seq<CommentNode>, d: nat)
    ensures forall e :: e in Outline(ns, d) ==> e.1 >= d
    decreases ns
  {
    if ns != [] {
      OutlineNodeDepths(ns[0], d);
      OutlineDepths(ns[1..], d);
    }
  }

  /** Below its root, every entry of a tree's outline is deeper than the root. */
  lemma {:induction false} OutlineNodeDepths(n: CommentNode, d: nat)
    ensures forall i :: 1 <= i < |OutlineNode(n, d)| ==> OutlineNode(n, d)[i].1 > d
    ensures forall e :: e in OutlineNode(n, d) ==> e.1 >= d
    decreases n
  {
    match n.replies
    case Absent =>
    case Present(kids) =>
      OutlineDepths(kids, d + 1);
      var o := OutlineNode(n, d);
      forall i | 1 <= i < |o| ensures o[i].1 > d {
        assert o[i] == Outline(kids, d + 1)[i - 1];
      }
  }

  /** A forest's outline is empty exactly when the forest is; otherwise it
      starts with the first root at the top depth. */
  lemma OutlineStart(ns: seq<CommentNode>, d: nat)
    ensures Outline(ns, d) == [] <==> ns == []
    ensures ns != [] ==> Outline(ns, d)[0] == (ns[0].comment, d)
  {
    if ns != [] {
      assert OutlineNode(ns[0], d)[0] == (ns[0].comment, d);
    }
  }

  /** Two well-formed forests with the same outline are the same forest. */
  lemma {:induction false} OutlineDetermines(a: seq<CommentNode>, b: seq<CommentNode>, d: nat)
    requires WellFormedForest(a) && WellFormedForest(b)
    requires Outline(a, d) == Outline(b, d)
    ensures a == b
    decreases a
  {
    OutlineStart(a, d);
    OutlineStart(b, d);
    if a != [] && b != [] {
      var oa, ob := OutlineNode(a[0], d), OutlineNode(b[0], d);
      var o := Outline(a, d);
      assert o == oa + Outline(a[1..], d) == ob + Outline(b[1..], d);
      OutlineNodeDepths(a[0], d);
      OutlineNodeDepths(b[0], d);
      OutlineStart(a[1..], d);
      OutlineStart(b[1..], d);
      TopEndIsTree(oa, Outline(a[1..], d), d, 1);
      TopEndIsTree(ob, Outline(b[1..], d), d, 1);
      assert oa == o[..|oa|] == ob;
      assert Outline(a[1..], d) == o[|oa|..] == Outline(b[1..], d);
      OutlineNodeDetermines(a[0], b[0], d);
      OutlineDetermines(a[1..], b[1..], d);
      assert a == [a[0]] + a[1..];
      assert b == [b[0]] + b[1..];
    }
  }

  /** The first position from `i` on that holds an entry at depth `d`, or the end. */
  function TopEnd(s: seq<(Comment, nat)>, d: nat, i: nat): nat
    requires i <= |s|
    decreases |s| - i
  {
    if i == |s| || s[i].1 == d then i else TopEnd(s, d, i + 1)
  }

  /** In an outline, a tree ends where the next entry at the top depth starts. */
  lemma {:induction false} TopEndIsTree(o: seq<(Comment, nat)>, r: seq<(Comment, nat)>, d: nat, i: nat)
    requires 1 <= i <= |o|
    requires forall j :: 1 <= j < |o| ==> o[j].1 > d
    requires r != [] ==> r[0].1 == d
    ensures TopEnd(o + r, d, i) == |o|
    decreases |o| - i
  {
    if i < |o| {
      assert (o + r)[i] == o[i];
      TopEndIsTree(o, r, d, i + 1);
    } else if r != [] {
      assert (o + r)[i] == r[0];
    }
  }

  lemma {:induction false} OutlineNodeDetermines(a: CommentNode, b: CommentNode, d: nat)
    requires WellFormed(a) && WellFormed(b)
    requires OutlineNode(a, d) == OutlineNode(b, d)
    ensures a == b
    decreases a
  {
    var ka, kb := a.replies.nodes, b.replies.nodes;
    assert OutlineNode(a, d)[0] == (a.comment, d) && OutlineNode(b, d)[0] == (b.comment, d);
    assert Outline(ka, d + 1) == OutlineNode(a, d)[1..] == OutlineNode(b, d)[1..] == Outline(kb, d + 1);
    OutlineDetermines(ka, kb, d + 1);
  }

  /** The depth of the first node with id `p` in a forest whose top level is at `d`. */
  function DepthOf(ns: seq<CommentNode>, p: string, d: nat): nat
    requires p in Ids(ns)
  {
    OutlineLength(ns, d);
    Outline(ns, d)[At(Flatten(ns), p)].1
  }

  /** The depth of the first node with id `p` in a tree whose root is at `d`. */
  function DepthIn(n: CommentNode, p: string, d: nat): nat
    requires p in IdsOf(FlattenNode(n))
  {
    OutlineNodeLength(n, d);
    OutlineNode(n, d)[At(FlattenNode(n), p)].1
  }

  /** The outline of a rebuilt node: its comment, then its new replies one level down. */
  lemma OutlineRebuilt(c: Comment, kids: seq<CommentNode>, d: nat)
    ensures OutlineNode(CommentNode(c, Present(kids)), d) == [(c, d)] + Outline(kids, d + 1)
  {
  }

  /** An id occurring once in a forest, inside its first tree: its position,
      subtree and depth are those it has in that tree. */
  lemma InHead(ns: seq<CommentNode>, p: string, d: nat)
    requires ns != [] && multiset(Ids(ns))[p] == 1 && p in IdsOf(FlattenNode(ns[0]))
    ensures var fh := FlattenNode(ns[0]);
            multiset(IdsOf(fh))[p] == 1 && p !in Ids(ns[1..]) &&
            Outline(ns, d) == OutlineNode(ns[0], d) + Outline(ns[1..], d) &&
            |OutlineNode(ns[0], d)| == |fh| && |Outline(ns[1..], d)| == |Flatten(ns[1..])| &&
            |Flatten(ns)| == |fh| + |Flatten(ns[1..])| &&
            At(Flatten(ns), p) == At(fh, p) && After(Flatten(ns), p) == After(fh, p) &&
            Flatten(ns)[At(Flatten(ns), p)] == fh[At(fh, p)] &&
            DepthOf(ns, p, d) == DepthIn(ns[0], p, d)
  {
    var fh, ft := FlattenNode(ns[0]), Flatten(ns[1..]);
    OutlineNodeLength(ns[0], d);
    OutlineLength(ns[1..], d);
    CountCons(ns, p);
    PositionCons(ns, p);
    assert Flatten(ns) == fh + ft;
    assert (fh + ft)[At(fh, p)] == fh[At(fh, p)];
    assert (OutlineNode(ns[0], d) + Outline(ns[1..], d))[At(fh, p)] == OutlineNode(ns[0], d)[At(fh, p)];
  }

  /** An id occurring once in a forest, after its first tree: it occurs once
      in the later trees, at a position shifted by the first tree's size. */
  lemma InTailPlace(ns: seq<CommentNode>, p: string)
    requires ns != [] && multiset(Ids(ns))[p] == 1 && p !in IdsOf(FlattenNode(ns[0]))
    ensures var fh, ft := FlattenNode(ns[0]), Flatten(ns[1..]);
            p in Ids(ns[1..]) && multiset(Ids(ns[1..]))[p] == 1 &&
            |Flatten(ns)| == |fh| + |ft| &&
            At(Flatten(ns), p) == |fh| + At(ft, p) && After(Flatten(ns), p) == |fh| + After(ft, p) &&
            Flatten(ns)[At(Flatten(ns), p)] == ft[At(ft, p)]
  {
    var fh, ft := FlattenNode(ns[0]), Flatten(ns[1..]);
    assert Flatten(ns) == fh + ft;
    assert multiset(Ids(ns[1..]))[p] == 1 by {
      CountCons(ns, p);
    }
    AtConcatRight(fh, ft, p);
  }

  /** Positions in two pre-orders laid end to end, for an id only in the second. */
  lemma AtConcatRight(a: seq<CommentNode>, b: seq<CommentNode>, p: string)
    requires p !in IdsOf(a) && p in IdsOf(b)
    ensures p in IdsOf(a + b)
    ensures At(a + b, p) == |a| + At(b, p) && After(a + b, p) == |a| + After(b, p)
    ensures (a + b)[At(a + b, p)] == b[At(b, p)]
  {
    IdsOfConcat(a, b);
    Seqs.IndexOfConcat(IdsOf(a), IdsOf(b), p);
    assert (a + b)[|a| + At(b, p)] == b[At(b, p)];
  }

  /** An id occurring once in a forest, after its first tree: the outline is
      the first tree's followed by the later trees', and the id's depth is the
      one it has in the later trees. */
  lemma InTail(ns: seq<CommentNode>, p: string, d: nat)
    requires ns != [] && multiset(Ids(ns))[p] == 1 && p !in IdsOf(FlattenNode(ns[0]))
    ensures p in Ids(ns[1..])
    ensures Outline(ns, d) == OutlineNode(ns[0], d) + Outline(ns[1..], d)
    ensures |OutlineNode(ns[0], d)| == |FlattenNode(ns[0])| && |Outline(ns[1..], d)| == |Flatten(ns[1..])|
    ensures DepthOf(ns, p, d) == DepthOf(ns[1..], p, d)
  {
    InTailPlace(ns, p);
    var oh, ot := OutlineNode(ns[0], d), Outline(ns[1..], d);
    assert |oh| == |FlattenNode(ns[0])| && |ot| == |Flatten(ns[1..])| by {
      OutlineNodeLength(ns[0], d);
      OutlineLength(ns[1..], d);
    }
    assert Outline(ns, d) == oh + ot;
    var i := At(Flatten(ns[1..]), p);
    assert Outline(ns, d)[|oh| + i] == ot[i];
  }

  /** An id occurring once in a tree, below its root: its position is shifted
      by one; its subtree is the one it has among the replies, one level down. */
  lemma InReplies(n: CommentNode, p: string, d: nat)
    requires n.replies.Present? && multiset(IdsOf(FlattenNode(n)))[p] == 1 && n.comment.id != p
    ensures var kids := n.replies.nodes;
            var fk := Flatten(kids);
            p in Ids(kids) && multiset(Ids(kids))[p] == 1 &&
            OutlineNode(n, d) == [(n.comment, d)] + Outline(kids, d + 1) &&
            |Outline(kids, d + 1)| == |fk| &&
            |FlattenNode(n)| == 1 + |fk| &&
            At(FlattenNode(n), p) == 1 + At(fk, p) && After(FlattenNode(n), p) == 1 + After(fk, p) &&
            FlattenNode(n)[At(FlattenNode(n), p)] == fk[At(fk, p)] &&
            DepthIn(n, p, d) == DepthOf(kids, p, d + 1)
  {
    var kids := n.replies.nodes;
    var fk := Flatten(kids);
    OutlineLength(kids, d + 1);
    IdsNode(n);
    CountNode(n, p);
    PositionNode(n, p);
    assert FlattenNode(n) == [n] + fk;
    assert ([n] + fk)[1 + At(fk, p)] == fk[At(fk, p)];
    var ok := Outline(kids, d + 1);
    assert ([(n.comment, d)] + ok)[1 + At(fk, p)] == ok[At(fk, p)];
  }
}
