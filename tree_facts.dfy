/** What the comment-forest operations of TreeOps guarantee: well-formedness,
    idempotence, pre-order search, and each edit described as a splice of the
    forest's pre-order listing. */
module TreeFacts {
  import opened Wrappers
  import opened Comments
  import opened TreeOps
  import Seqs

  /** Normalising yields a well-formed node. */
  lemma {:induction false} NormalizeWellFormed(n: CommentNode)
    ensures WellFormed(NormalizeCommentNode(n))
    decreases n
  {
    match n.replies
    case Absent =>
    case Present(kids) => NormalizeTreeWellFormed(kids);
  }

  lemma {:induction false} NormalizeTreeWellFormed(ns: seq<CommentNode>)
    ensures WellFormedForest(NormalizeCommentTree(ns))
    decreases ns
  {
    if ns != [] {
      NormalizeWellFormed(ns[0]);
      NormalizeTreeWellFormed(ns[1..]);
    }
  }

  /** A node that is already well formed is left as it is. */
  lemma {:induction false} NormalizeKeepsWellFormed(n: CommentNode)
    requires WellFormed(n)
    ensures NormalizeCommentNode(n) == n
    decreases n
  {
    NormalizeTreeKeepsWellFormed(n.replies.nodes);
  }

  lemma {:induction false} NormalizeTreeKeepsWellFormed(ns: seq<CommentNode>)
    requires WellFormedForest(ns)
    ensures NormalizeCommentTree(ns) == ns
    decreases ns
  {
    if ns != [] {
      NormalizeKeepsWellFormed(ns[0]);
      NormalizeTreeKeepsWellFormed(ns[1..]);
    }
  }

  /** Normalising twice is normalising once. */
  lemma NormalizeIdempotent(n: CommentNode)
    ensures NormalizeCommentNode(NormalizeCommentNode(n)) == NormalizeCommentNode(n)
  {
    NormalizeWellFormed(n);
    NormalizeKeepsWellFormed(NormalizeCommentNode(n));
  }

  lemma NormalizeTreeIdempotent(ns: seq<CommentNode>)
    ensures NormalizeCommentTree(NormalizeCommentTree(ns)) == NormalizeCommentTree(ns)
  {
    NormalizeTreeWellFormed(ns);
    NormalizeTreeKeepsWellFormed(NormalizeCommentTree(ns));
  }

  /** Normalising keeps every comment, its number of replies and the pre-order
      position of each node. */
  lemma {:induction false} NormalizeKeepsShape(n: CommentNode)
    ensures Shape(FlattenNode(NormalizeCommentNode(n))) == Shape(FlattenNode(n))
    decreases n
  {
    var r := NormalizeCommentNode(n);
    match n.replies
    case Absent =>
    case Present(kids) =>
      NormalizeTreeKeepsShape(kids);
      ShapeConcat([r], Flatten(NormalizeCommentTree(kids)));
      ShapeConcat([n], Flatten(kids));
  }

  lemma {:induction false} NormalizeTreeKeepsShape(ns: seq<CommentNode>)
    ensures Shape(Flatten(NormalizeCommentTree(ns))) == Shape(Flatten(ns))
    decreases ns
  {
    if ns != [] {
      var r := NormalizeCommentTree(ns);
      assert r[0] == NormalizeCommentNode(ns[0]) && r[1..] == NormalizeCommentTree(ns[1..]);
      NormalizeKeepsShape(ns[0]);
      NormalizeTreeKeepsShape(ns[1..]);
      ShapeConcat(FlattenNode(r[0]), Flatten(r[1..]));
      ShapeConcat(FlattenNode(ns[0]), Flatten(ns[1..]));
    }
  }

  /** The search returns the normalised first node in pre-order carrying the id,
      and nothing exactly when no node carries it. */
  lemma {:induction false} FindIsFirstInPreorder(ns: seq<CommentNode>, id: string)
    requires WellFormedForest(ns)
    ensures FindCommentNode(ns, id) ==
            if id in Ids(ns) then Some(NormalizeCommentNode(Flatten(ns)[Seqs.IndexOf(Ids(ns), id)])) else None
    decreases ns
  {
    if ns != [] {
      var h := FlattenNode(ns[0]);
      IdsCons(ns);
      Seqs.IndexOfConcat(IdsOf(h), Ids(ns[1..]), id);
      FindInNodeIsFirst(ns[0], id);
      FindIsFirstInPreorder(ns[1..], id);
      if id in IdsOf(h) {
        var k := Seqs.IndexOf(IdsOf(h), id);
        assert Flatten(ns)[k] == h[k];
      } else if id in Ids(ns[1..]) {
        var k := Seqs.IndexOf(Ids(ns[1..]), id);
        assert Flatten(ns)[|h| + k] == Flatten(ns[1..])[k];
      }
    }
  }

  lemma {:induction false} FindInNodeIsFirst(n: CommentNode, id: string)
    requires WellFormed(n)
    ensures FindInNode(n, id) ==
            if id in IdsOf(FlattenNode(n)) then
              Some(NormalizeCommentNode(FlattenNode(n)[Seqs.IndexOf(IdsOf(FlattenNode(n)), id)]))
            else None
    decreases n
  {
    var f := FlattenNode(n);
    IdsNode(n);
    if n.comment.id == id {
      assert IdsOf(f)[0] == id && f[0] == n;
    } else {
      match n.replies
      case Absent =>
      case Present(kids) =>
        FindIsFirstInPreorder(kids, id);
        Seqs.IndexOfConcat([n.comment.id], Ids(kids), id);
        if id in Ids(kids) {
          var k := Seqs.IndexOf(Ids(kids), id);
          assert f == [n] + Flatten(kids);
          assert f[1 + k] == Flatten(kids)[k];
        }
    }
  }

  /** Corollary: a search succeeds exactly when the id occurs, and then finds a
      node with that id. */
  lemma FindSucceedsIff(ns: seq<CommentNode>, id: string)
    requires WellFormedForest(ns)
    ensures FindCommentNode(ns, id).Some? <==> id in Ids(ns)
    ensures FindCommentNode(ns, id).Some? ==> FindCommentNode(ns, id).value.comment.id == id
  {
    FindIsFirstInPreorder(ns, id);
  }

  /** Something changes exactly when the parent occurs; nothing changes
      otherwise; the number of siblings is kept; well-formedness is kept. */
  lemma {:induction false} InsertEachBasics(ns: seq<CommentNode>, x: CommentNode)
    requires WellFormedForest(ns)
    ensures InsertEach(ns, x).changed <==> ParentIn(x, Ids(ns))
    ensures !InsertEach(ns, x).changed ==> InsertEach(ns, x).nodes == ns
    ensures |InsertEach(ns, x).nodes| == |ns|
    ensures WellFormed(x) ==> WellFormedForest(InsertEach(ns, x).nodes)
    decreases ns, 0
  {
    if ns != [] {
      IdsCons(ns);
      InsertAtBasics(ns[0], x);
      InsertEachBasics(ns[1..], x);
      assert InsertEach(ns, x).nodes[1..] == InsertEach(ns[1..], x).nodes;
    }
  }

  lemma {:induction false} InsertAtBasics(n: CommentNode, x: CommentNode)
    requires WellFormed(n)
    ensures InsertAt(n, x).0 <==> ParentIn(x, IdsOf(FlattenNode(n)))
    ensures !InsertAt(n, x).0 ==> InsertAt(n, x).1 == n
    ensures InsertAt(n, x).1.comment == n.comment
    ensures WellFormed(x) ==> WellFormed(InsertAt(n, x).1)
    decreases n, 0
  {
    var kids := n.replies.nodes;
    IdsNode(n);
    InsertEachBasics(kids, x);
    if WellFormed(x) {
      WellFormedAppend(kids, [x]);
    }
  }

  /** Well-formedness of a concatenation of forests. */
  lemma {:induction false} WellFormedAppend(a: seq<CommentNode>, b: seq<CommentNode>)
    requires WellFormedForest(a) && WellFormedForest(b)
    ensures WellFormedForest(a + b)
    decreases a
  {
    if a == [] {
      assert a + b == b;
    } else {
      assert (a + b)[0] == a[0];
      assert (a + b)[1..] == a[1..] + b;
      WellFormedAppend(a[1..], b);
    }
  }

  /** The siblings seen by the callbacks are the result of `insertInto`. */
  lemma InsertIntoIsEach(ns: seq<CommentNode>, x: CommentNode)
    requires WellFormedForest(ns)
    ensures InsertInto(ns, x) == InsertEach(ns, x)
  {
    InsertEachBasics(ns, x);
  }

  /** At the parent itself, the new subtree, one level down, follows the
      parent's whole subtree. */
  lemma InsertAtParent(n: CommentNode, x: CommentNode, d: nat)
    requires WellFormed(n)
    requires x.comment.parentId == Some(n.comment.id)
    ensures OutlineNode(InsertAt(n, x).1, d) == OutlineNode(n, d) + OutlineNode(x, d + 1)
  {
    var kids := n.replies.nodes;
    assert InsertAt(n, x).1 == CommentNode(n.comment, Present(kids + [x]));
    OutlineRebuilt(n.comment, kids + [x], d);
    OutlineSnoc(kids, x, d + 1);
    assert OutlineNode(n, d) == [(n.comment, d)] + Outline(kids, d + 1);
    assert [(n.comment, d)] + (Outline(kids, d + 1) + OutlineNode(x, d + 1)) ==
           ([(n.comment, d)] + Outline(kids, d + 1)) + OutlineNode(x, d + 1);
  }

  /** With the parent occurring once, the new subtree enters the outline right
      after the parent's subtree, one level below the parent, and every other
      entry keeps its comment, its depth and its relative place. */
  lemma {:induction false} InsertEachSplice(ns: seq<CommentNode>, x: CommentNode, p: string, d: nat, e: nat)
    requires WellFormedForest(ns)
    requires x.comment.parentId == Some(p)
    requires multiset(Ids(ns))[p] == 1
    requires p in Ids(ns) && e == DepthOf(ns, p, d) + 1
    ensures After(Flatten(ns), p) <= |Outline(ns, d)|
    ensures Outline(InsertEach(ns, x).nodes, d) ==
            Seqs.Splice(Outline(ns, d), After(Flatten(ns), p), 0, OutlineNode(x, e))
    decreases ns, 1
  {
    if p in IdsOf(FlattenNode(ns[0])) {
      InsertSpliceInHead(ns, x, p, d, e);
    } else {
      InsertSpliceInTail(ns, x, p, d, e);
    }
  }

  /** The parent is in the first tree: only that tree changes. */
  lemma {:induction false} InsertSpliceInHead(ns: seq<CommentNode>, x: CommentNode, p: string, d: nat, e: nat)
    requires WellFormedForest(ns) && ns != []
    requires x.comment.parentId == Some(p)
    requires multiset(Ids(ns))[p] == 1
    requires p in IdsOf(FlattenNode(ns[0]))
    requires p in Ids(ns) && e == DepthOf(ns, p, d) + 1
    ensures After(Flatten(ns), p) <= |Outline(ns, d)|
    ensures Outline(InsertEach(ns, x).nodes, d) ==
            Seqs.Splice(Outline(ns, d), After(Flatten(ns), p), 0, OutlineNode(x, e))
    decreases ns, 0
  {
    InHead(ns, p, d);
    var h, t := ns[0], ns[1..];
    var r := InsertEach(ns, x).nodes;
    var oh := OutlineNode(h, d);
    var ox := OutlineNode(x, e);
    var a := After(FlattenNode(h), p);
    assert a <= |oh| && Outline(r, d) == Seqs.Splice(oh, a, 0, ox) + Outline(t, d) by {
      assert r[0] == InsertAt(h, x).1 && r[1..] == InsertEach(t, x).nodes;
      InsertEachBasics(t, x);
      InsertAtSplice(h, x, p, d, e);
    }
    Seqs.SpliceLeft(oh, Outline(t, d), a, 0, ox, Outline(ns, d), Outline(r, d));
  }

  /** The parent is in a later tree: the first tree stays as it was. */
  lemma {:induction false} InsertSpliceInTail(ns: seq<CommentNode>, x: CommentNode, p: string, d: nat, e: nat)
    requires WellFormedForest(ns) && ns != []
    requires x.comment.parentId == Some(p)
    requires multiset(Ids(ns))[p] == 1
    requires p !in IdsOf(FlattenNode(ns[0]))
    requires p in Ids(ns) && e == DepthOf(ns, p, d) + 1
    ensures After(Flatten(ns), p) <= |Outline(ns, d)|
    ensures Outline(InsertEach(ns, x).nodes, d) ==
            Seqs.Splice(Outline(ns, d), After(Flatten(ns), p), 0, OutlineNode(x, e))
    decreases ns, 0
  {
    InTailPlace(ns, p);
    InTail(ns, p, d);
    var h, t := ns[0], ns[1..];
    var r := InsertEach(ns, x).nodes;
    var oh := OutlineNode(h, d);
    var ox := OutlineNode(x, e);
    var a := After(Flatten(t), p);
    assert a <= |Outline(t, d)| && Outline(r, d) == oh + Seqs.Splice(Outline(t, d), a, 0, ox) by {
      assert r[0] == InsertAt(h, x).1 && r[1..] == InsertEach(t, x).nodes;
      InsertAtBasics(h, x);
      InsertEachSplice(t, x, p, d, e);
    }
    Seqs.SpliceRight(oh, Outline(t, d), a, 0, ox, Outline(ns, d), Outline(r, d), After(Flatten(ns), p));
  }

  lemma {:induction false} InsertAtSplice(n: CommentNode, x: CommentNode, p: string, d: nat, e: nat)
    requires WellFormed(n)
    requires x.comment.parentId == Some(p)
    requires multiset(IdsOf(FlattenNode(n)))[p] == 1
    requires p in IdsOf(FlattenNode(n)) && e == DepthIn(n, p, d) + 1
    ensures After(FlattenNode(n), p) <= |OutlineNode(n, d)|
    ensures OutlineNode(InsertAt(n, x).1, d) ==
            Seqs.Splice(OutlineNode(n, d), After(FlattenNode(n), p), 0, OutlineNode(x, e))
    decreases n, 1
  {
    if n.comment.id == p {
      var on, ox := OutlineNode(n, d), OutlineNode(x, d + 1);
      OutlineNodeLength(n, d);
      PositionNode(n, p);
      assert DepthIn(n, p, d) == d && After(FlattenNode(n), p) == |on|;
      InsertAtParent(n, x, d);
      Seqs.SpliceAtEnd(on, ox);
    } else {
      InsertSpliceBelow(n, x, p, d, e);
    }
  }

  /** The parent is strictly below the node: the node is rebuilt around the
      changed replies. */
  lemma {:induction false} InsertSpliceBelow(n: CommentNode, x: CommentNode, p: string, d: nat, e: nat)
    requires WellFormed(n)
    requires x.comment.parentId == Some(p)
    requires multiset(IdsOf(FlattenNode(n)))[p] == 1
    requires n.comment.id != p
    requires p in IdsOf(FlattenNode(n)) && e == DepthIn(n, p, d) + 1
    ensures After(FlattenNode(n), p) <= |OutlineNode(n, d)|
    ensures OutlineNode(InsertAt(n, x).1, d) ==
            Seqs.Splice(OutlineNode(n, d), After(FlattenNode(n), p), 0, OutlineNode(x, e))
    decreases n, 0
  {
    InReplies(n, p, d);
    var kids := n.replies.nodes;
    var ok := Outline(kids, d + 1);
    var ox := OutlineNode(x, e);
    var a := After(Flatten(kids), p);
    var m, rk := InsertAt(n, x).1, InsertEach(kids, x).nodes;
    assert a <= |ok| && OutlineNode(m, d) == [(n.comment, d)] + Seqs.Splice(ok, a, 0, ox) by {
      assert a <= |ok| && Outline(rk, d + 1) == Seqs.Splice(ok, a, 0, ox) by {
        InsertEachSplice(kids, x, p, d + 1, e);
      }
      assert m == CommentNode(n.comment, Present(rk)) by {
        InsertEachBasics(kids, x);
        InsertIntoIsEach(kids, x);
      }
      OutlineRebuilt(n.comment, rk, d);
    }
    Seqs.SpliceRight([(n.comment, d)], ok, a, 0, ox, OutlineNode(n, d), OutlineNode(m, d), After(FlattenNode(n), p));
  }

  /** `insertCommentNode`: a node with no truthy parent id becomes the last root;
      one whose parent is missing leaves the forest unchanged; one whose parent
      occurs exactly once enters the outline right after the parent's subtree,
      one level below the parent, so it is the parent's last reply, and every
      other comment keeps its depth and relative place (by `OutlineDetermines`
      this fixes the whole result). The outline may start at any depth `d`, the
      page's being 0. The result is always well formed. */
  lemma InsertCommentNodeSpec(ns: seq<CommentNode>, newNode: CommentNode, d: nat)
    requires WellFormedForest(ns)
    ensures var x := NormalizeCommentNode(newNode);
            var r := InsertCommentNode(ns, newNode);
            WellFormedForest(r) &&
            (!HasParent(x.comment) ==> r == ns + [x]) &&
            (HasParent(x.comment) && x.comment.parentId.value !in Ids(ns) ==> r == ns) &&
            (HasParent(x.comment) && multiset(Ids(ns))[x.comment.parentId.value] == 1 ==>
               var p := x.comment.parentId.value;
               After(Flatten(ns), p) <= |Outline(ns, d)| &&
               Outline(r, d) == Seqs.Splice(Outline(ns, d), After(Flatten(ns), p), 0, OutlineNode(x, DepthOf(ns, p, d) + 1)))
  {
    var x := NormalizeCommentNode(newNode);
    var r := InsertCommentNode(ns, newNode);
    NormalizeWellFormed(newNode);
    if !HasParent(x.comment) {
      WellFormedAppend(ns, [x]);
    } else {
      var p := x.comment.parentId.value;
      assert r == InsertEach(ns, x).nodes && WellFormedForest(r) && (p !in Ids(ns) ==> r == ns) by {
        InsertEachBasics(ns, x);
        InsertIntoIsEach(ns, x);
      }
      if multiset(Ids(ns))[p] == 1 {
        InsertEachSplice(ns, x, p, d, DepthOf(ns, p, d) + 1);
      }
    }
  }

  /** With a parent that occurs exactly once, the inserted node can be found in
      the result and the forest grows by exactly the nodes of its subtree (one,
      for a node without replies). */
  lemma InsertThenFind(ns: seq<CommentNode>, newNode: CommentNode)
    requires WellFormedForest(ns)
    requires HasParent(newNode.comment) && multiset(Ids(ns))[newNode.comment.parentId.value] == 1
    ensures var r := InsertCommentNode(ns, newNode);
            WellFormedForest(r) &&
            FindCommentNode(r, newNode.comment.id).Some? &&
            |Flatten(r)| == |Flatten(ns)| + Size(NormalizeCommentNode(newNode))
  {
    var x := NormalizeCommentNode(newNode);
    var r := InsertCommentNode(ns, newNode);
    var p := x.comment.parentId.value;
    var k := After(Flatten(ns), p);
    // The outline may be taken from any top depth; none is singled out.
    var d: nat :| true;
    var e := DepthOf(ns, p, d) + 1;
    var ox := OutlineNode(x, e);
    var o, or := Outline(ns, d), Outline(r, d);
    assert WellFormedForest(r) && k <= |o| && or == o[..k] + ox + o[k..] by {
      InsertCommentNodeSpec(ns, newNode, d);
    }
    assert |ox| == Size(x) && ox[0].0 == x.comment by {
      OutlineNodeLength(x, e);
    }
    assert |Flatten(r)| == |Flatten(ns)| + Size(x) && Flatten(r)[k].comment == x.comment by {
      OutlineComments(r, d);
      OutlineLength(ns, d);
      assert or[k] == ox[0];
    }
    assert newNode.comment.id in Ids(r) by {
      assert Ids(r)[k] == x.comment.id;
    }
    assert FindCommentNode(r, newNode.comment.id).Some? by {
      FindSucceedsIff(r, newNode.comment.id);
    }
  }
}
