/** What replacing, removing and updating a comment in a forest guarantee: which
    calls change anything, that the target is gone afterwards, and, when the
    target id occurs once, the edit as a splice of the outline. */
module TreeEditFacts {
  import opened Wrappers
  import opened Comments
  import opened TreeOps
  import opened TreeFacts
  import Seqs

  // ---------------------------------------------------------------------------
  // replace
  // ---------------------------------------------------------------------------

  /** Something changes exactly when the target occurs; nothing changes
      otherwise; the number of siblings and well-formedness are kept; and when the
      replacement does not itself carry the id, no node with the id is left. */
  lemma {:induction false} ReplaceEachBasics(ns: seq<CommentNode>, t: string, r: CommentNode)
    requires WellFormedForest(ns)
    ensures ReplaceEach(ns, t, r).changed <==> t in Ids(ns)
    ensures !ReplaceEach(ns, t, r).changed ==> ReplaceEach(ns, t, r).nodes == ns
    ensures |ReplaceEach(ns, t, r).nodes| == |ns|
    ensures WellFormed(r) ==> WellFormedForest(ReplaceEach(ns, t, r).nodes)
    ensures t !in IdsOf(FlattenNode(r)) ==> t !in Ids(ReplaceEach(ns, t, r).nodes)
    decreases ns, 0
  {
    if ns != [] {
      var res := ReplaceEach(ns, t, r).nodes;
      IdsCons(ns);
      ReplaceAtBasics(ns[0], t, r);
      ReplaceEachBasics(ns[1..], t, r);
      assert res[0] == ReplaceAt(ns[0], t, r).1 && res[1..] == ReplaceEach(ns[1..], t, r).nodes;
      IdsCons(res);
    }
  }

  lemma {:induction false} ReplaceAtBasics(n: CommentNode, t: string, r: CommentNode)
    requires WellFormed(n)
    ensures ReplaceAt(n, t, r).0 <==> t in IdsOf(FlattenNode(n))
    ensures !ReplaceAt(n, t, r).0 ==> ReplaceAt(n, t, r).1 == n
    ensures n.comment.id != t ==> ReplaceAt(n, t, r).1.comment == n.comment
    ensures WellFormed(r) ==> WellFormed(ReplaceAt(n, t, r).1)
    ensures t !in IdsOf(FlattenNode(r)) ==> t !in IdsOf(FlattenNode(ReplaceAt(n, t, r).1))
    decreases n, 0
  {
    var kids := n.replies.nodes;
    IdsNode(n);
    ReplaceEachBasics(kids, t, r);
    if n.comment.id != t {
      IdsNode(CommentNode(n.comment, Present(ReplaceEach(kids, t, r).nodes)));
    }
  }

  /** With the target occurring once, its subtree's entries in the outline are
      replaced by those of the replacement, rooted at the target's depth, and
      every other entry keeps its comment, its depth and its relative place. */
  lemma {:induction false} ReplaceEachSplice(ns: seq<CommentNode>, t: string, r: CommentNode, d: nat)
    requires WellFormedForest(ns)
    requires multiset(Ids(ns))[t] == 1
    ensures After(Flatten(ns), t) <= |Outline(ns, d)|
    ensures Outline(ReplaceEach(ns, t, r).nodes, d) ==
            Seqs.Splice(Outline(ns, d), At(Flatten(ns), t), Size(Flatten(ns)[At(Flatten(ns), t)]), OutlineNode(r, DepthOf(ns, t, d)))
    decreases ns, 1
  {
    if t in IdsOf(FlattenNode(ns[0])) {
      ReplaceSpliceInHead(ns, t, r, d);
    } else {
      ReplaceSpliceInTail(ns, t, r, d);
    }
  }

  /** The target is in the first tree: only that tree changes. */
  lemma {:induction false} ReplaceSpliceInHead(ns: seq<CommentNode>, t: string, r: CommentNode, d: nat)
    requires WellFormedForest(ns) && ns != []
    requires multiset(Ids(ns))[t] == 1
    requires t in IdsOf(FlattenNode(ns[0]))
    ensures After(Flatten(ns), t) <= |Outline(ns, d)|
    ensures Outline(ReplaceEach(ns, t, r).nodes, d) ==
            Seqs.Splice(Outline(ns, d), At(Flatten(ns), t), Size(Flatten(ns)[At(Flatten(ns), t)]), OutlineNode(r, DepthOf(ns, t, d)))
    decreases ns, 0
  {
    InHead(ns, t, d);
    var h, tl := ns[0], ns[1..];
    var fh := FlattenNode(h);
    var res := ReplaceEach(ns, t, r).nodes;
    var oh := OutlineNode(h, d);
    var i, k := At(fh, t), Size(fh[At(fh, t)]);
    var or := OutlineNode(r, DepthOf(ns, t, d));
    assert i + k <= |oh| && Outline(res, d) == Seqs.Splice(oh, i, k, or) + Outline(tl, d) by {
      assert res[0] == ReplaceAt(h, t, r).1 && res[1..] == ReplaceEach(tl, t, r).nodes;
      ReplaceEachBasics(tl, t, r);
      ReplaceAtSplice(h, t, r, d);
    }
    Seqs.SpliceLeft(oh, Outline(tl, d), i, k, or, Outline(ns, d), Outline(res, d));
  }

  /** The target is in a later tree: the first tree stays as it was. */
  lemma {:induction false} ReplaceSpliceInTail(ns: seq<CommentNode>, t: string, r: CommentNode, d: nat)
    requires WellFormedForest(ns) && ns != []
    requires multiset(Ids(ns))[t] == 1
    requires t !in IdsOf(FlattenNode(ns[0]))
    ensures After(Flatten(ns), t) <= |Outline(ns, d)|
    ensures Outline(ReplaceEach(ns, t, r).nodes, d) ==
            Seqs.Splice(Outline(ns, d), At(Flatten(ns), t), Size(Flatten(ns)[At(Flatten(ns), t)]), OutlineNode(r, DepthOf(ns, t, d)))
    decreases ns, 0
  {
    InTailPlace(ns, t);
    InTail(ns, t, d);
    var h, tl := ns[0], ns[1..];
    var ft := Flatten(tl);
    var res := ReplaceEach(ns, t, r).nodes;
    var oh := OutlineNode(h, d);
    var i, k := At(ft, t), Size(ft[At(ft, t)]);
    var or := OutlineNode(r, DepthOf(ns, t, d));
    assert i + k <= |Outline(tl, d)| && Outline(res, d) == oh + Seqs.Splice(Outline(tl, d), i, k, or) by {
      assert res[0] == ReplaceAt(h, t, r).1 && res[1..] == ReplaceEach(tl, t, r).nodes;
      ReplaceAtBasics(h, t, r);
      ReplaceEachSplice(tl, t, r, d);
    }
    Seqs.SpliceRight(oh, Outline(tl, d), i, k, or, Outline(ns, d), Outline(res, d), At(Flatten(ns), t));
  }

  lemma {:induction false} ReplaceAtSplice(n: CommentNode, t: string, r: CommentNode, d: nat)
    requires WellFormed(n)
    requires multiset(IdsOf(FlattenNode(n)))[t] == 1
    ensures After(FlattenNode(n), t) <= |OutlineNode(n, d)|
    ensures OutlineNode(ReplaceAt(n, t, r).1, d) ==
            Seqs.Splice(OutlineNode(n, d), At(FlattenNode(n), t), Size(FlattenNode(n)[At(FlattenNode(n), t)]), OutlineNode(r, DepthIn(n, t, d)))
    decreases n, 1
  {
    if n.comment.id == t {
      var on := OutlineNode(n, d);
      OutlineNodeLength(n, d);
      PositionNode(n, t);
      assert DepthIn(n, t, d) == d && Size(FlattenNode(n)[0]) == |on|;
      Seqs.SpliceAll(on, OutlineNode(r, d));
    } else {
      ReplaceSpliceBelow(n, t, r, d);
    }
  }

  /** The target is strictly below the node: the node is rebuilt around the
      changed replies. */
  lemma {:induction false} ReplaceSpliceBelow(n: CommentNode, t: string, r: CommentNode, d: nat)
    requires WellFormed(n)
    requires multiset(IdsOf(FlattenNode(n)))[t] == 1
    requires n.comment.id != t
    ensures After(FlattenNode(n), t) <= |OutlineNode(n, d)|
    ensures OutlineNode(ReplaceAt(n, t, r).1, d) ==
            Seqs.Splice(OutlineNode(n, d), At(FlattenNode(n), t), Size(FlattenNode(n)[At(FlattenNode(n), t)]), OutlineNode(r, DepthIn(n, t, d)))
    decreases n, 0
  {
    InReplies(n, t, d);
    var kids := n.replies.nodes;
    var fk := Flatten(kids);
    var ok := Outline(kids, d + 1);
    var i, k := At(fk, t), Size(fk[At(fk, t)]);
    var or := OutlineNode(r, DepthIn(n, t, d));
    assert i + k <= |ok| &&
           OutlineNode(ReplaceAt(n, t, r).1, d) == [(n.comment, d)] + Seqs.Splice(ok, i, k, or) by {
      ReplaceEachSplice(kids, t, r, d + 1);
      ReplaceEachBasics(kids, t, r);
      OutlineRebuilt(n.comment, ReplaceEach(kids, t, r).nodes, d);
    }
    Seqs.SpliceRight([(n.comment, d)], ok, i, k, or, OutlineNode(n, d),
                     OutlineNode(ReplaceAt(n, t, r).1, d), At(FlattenNode(n), t));
  }

  /** `replaceCommentNode`: an id that is nowhere leaves the forest unchanged;
      one that occurs once has its subtree's entries in the outline replaced by
      those of the normalised replacement, rooted at the target's depth, every
      other comment keeping its depth and relative place (by `OutlineDetermines`
      this fixes the whole result); the result is well formed, and carries the
      id no more when the replacement does not carry it. */
  lemma ReplaceCommentNodeSpec(ns: seq<CommentNode>, t: string, replacement: CommentNode, d: nat)
    requires WellFormedForest(ns)
    ensures var rep := NormalizeCommentNode(replacement);
            var res := ReplaceCommentNode(ns, t, replacement);
            WellFormedForest(res) &&
            (t !in Ids(ns) ==> res == ns) &&
            (t !in IdsOf(FlattenNode(rep)) ==> t !in Ids(res)) &&
            (multiset(Ids(ns))[t] == 1 ==>
               After(Flatten(ns), t) <= |Outline(ns, d)| &&
               Outline(res, d) == Seqs.Splice(Outline(ns, d), At(Flatten(ns), t), Size(Flatten(ns)[At(Flatten(ns), t)]),
                                              OutlineNode(rep, DepthOf(ns, t, d))))
  {
    var rep := NormalizeCommentNode(replacement);
    NormalizeWellFormed(replacement);
    ReplaceEachBasics(ns, t, rep);
    if multiset(Ids(ns))[t] == 1 {
      ReplaceEachSplice(ns, t, rep, d);
    }
  }

  // ---------------------------------------------------------------------------
  // remove
  // ---------------------------------------------------------------------------

  /** Something changes exactly when the target occurs; nothing changes
      otherwise; no node with the id is left, and well-formedness is kept. */
  lemma {:induction false} RemoveEachBasics(ns: seq<CommentNode>, t: string)
    requires WellFormedForest(ns)
    ensures RemoveEach(ns, t).changed <==> t in Ids(ns)
    ensures !RemoveEach(ns, t).changed ==> RemoveEach(ns, t).nodes == ns
    ensures WellFormedForest(RemoveEach(ns, t).nodes)
    ensures t !in Ids(RemoveEach(ns, t).nodes)
    decreases ns, 0
  {
    if ns != [] {
      var res := RemoveEach(ns, t).nodes;
      IdsCons(ns);
      RemoveEachBasics(ns[1..], t);
      IdsNode(ns[0]);
      if ns[0].comment.id != t {
        RemoveBelowBasics(ns[0], t);
        assert res[0] == RemoveBelow(ns[0], t).1 && res[1..] == RemoveEach(ns[1..], t).nodes;
        IdsCons(res);
      }
    }
  }

  lemma {:induction false} RemoveBelowBasics(n: CommentNode, t: string)
    requires WellFormed(n)
    ensures RemoveBelow(n, t).0 <==> t in Ids(n.replies.nodes)
    ensures !RemoveBelow(n, t).0 ==> RemoveBelow(n, t).1 == n
    ensures RemoveBelow(n, t).1.comment == n.comment
    ensures WellFormed(RemoveBelow(n, t).1)
    ensures n.comment.id != t ==> t !in IdsOf(FlattenNode(RemoveBelow(n, t).1))
    decreases n, 0
  {
    var kids := n.replies.nodes;
    IdsNode(n);
    RemoveEachBasics(kids, t);
    IdsNode(CommentNode(n.comment, Present(RemoveEach(kids, t).nodes)));
  }

  /** The top-level ids after a removal: those of the input without the target. */
  lemma {:induction false} RemoveEachRoots(ns: seq<CommentNode>, t: string)
    requires WellFormedForest(ns)
    ensures RootIds(RemoveEach(ns, t).nodes) == Seqs.Without(RootIds(ns), t)
    decreases ns
  {
    if ns != [] {
      var res := RemoveEach(ns, t).nodes;
      RemoveEachRoots(ns[1..], t);
      assert ns == [ns[0]] + ns[1..];
      IdsOfConcat([ns[0]], ns[1..]);
      if ns[0].comment.id != t {
        RemoveBelowBasics(ns[0], t);
        assert res == [RemoveBelow(ns[0], t).1] + RemoveEach(ns[1..], t).nodes;
        IdsOfConcat([RemoveBelow(ns[0], t).1], RemoveEach(ns[1..], t).nodes);
      }
    }
  }

  /** With the target occurring once, exactly its subtree's entries leave the
      outline; every other entry keeps its comment, its depth and its relative
      place. */
  lemma {:induction false} RemoveEachSplice(ns: seq<CommentNode>, t: string, d: nat)
    requires WellFormedForest(ns)
    requires multiset(Ids(ns))[t] == 1
    ensures After(Flatten(ns), t) <= |Outline(ns, d)|
    ensures Outline(RemoveEach(ns, t).nodes, d) ==
            Seqs.Splice(Outline(ns, d), At(Flatten(ns), t), Size(Flatten(ns)[At(Flatten(ns), t)]), [])
    decreases ns, 1
  {
    if ns[0].comment.id == t {
      RemoveSpliceDrop(ns, t, d);
    } else if t in IdsOf(FlattenNode(ns[0])) {
      RemoveSpliceInHead(ns, t, d);
    } else {
      RemoveSpliceInTail(ns, t, d);
    }
  }

  /** The target is the first tree's root: that tree goes, the rest stays. */
  lemma RemoveSpliceDrop(ns: seq<CommentNode>, t: string, d: nat)
    requires WellFormedForest(ns) && ns != []
    requires multiset(Ids(ns))[t] == 1
    requires ns[0].comment.id == t
    ensures After(Flatten(ns), t) <= |Outline(ns, d)|
    ensures Outline(RemoveEach(ns, t).nodes, d) ==
            Seqs.Splice(Outline(ns, d), At(Flatten(ns), t), Size(Flatten(ns)[At(Flatten(ns), t)]), [])
  {
    var h, tl := ns[0], ns[1..];
    var oh := OutlineNode(h, d);
    IdsNode(h);
    InHead(ns, t, d);
    assert At(FlattenNode(h), t) == 0 by {
      PositionNode(h, t);
    }
    assert RemoveEach(ns, t).nodes == tl by {
      RemoveEachBasics(tl, t);
    }
    Seqs.SpliceAll(oh, []);
    Seqs.SpliceLeft(oh, Outline(tl, d), 0, |oh|, [], Outline(ns, d), Outline(tl, d));
  }

  /** The target is strictly inside the first tree: only that tree changes. */
  lemma {:induction false} RemoveSpliceInHead(ns: seq<CommentNode>, t: string, d: nat)
    requires WellFormedForest(ns) && ns != []
    requires multiset(Ids(ns))[t] == 1
    requires ns[0].comment.id != t && t in IdsOf(FlattenNode(ns[0]))
    ensures After(Flatten(ns), t) <= |Outline(ns, d)|
    ensures Outline(RemoveEach(ns, t).nodes, d) ==
            Seqs.Splice(Outline(ns, d), At(Flatten(ns), t), Size(Flatten(ns)[At(Flatten(ns), t)]), [])
    decreases ns, 0
  {
    InHead(ns, t, d);
    var h, tl := ns[0], ns[1..];
    var fh := FlattenNode(h);
    var res := RemoveEach(ns, t).nodes;
    var oh := OutlineNode(h, d);
    var i, k := At(fh, t), Size(fh[At(fh, t)]);
    assert i + k <= |oh| && Outline(res, d) == Seqs.Splice(oh, i, k, []) + Outline(tl, d) by {
      assert res[0] == RemoveBelow(h, t).1 && res[1..] == RemoveEach(tl, t).nodes;
      RemoveEachBasics(tl, t);
      RemoveBelowSplice(h, t, d);
    }
    Seqs.SpliceLeft(oh, Outline(tl, d), i, k, [], Outline(ns, d), Outline(res, d));
  }

  /** The target is in a later tree: the first tree stays as it was. */
  lemma {:induction false} RemoveSpliceInTail(ns: seq<CommentNode>, t: string, d: nat)
    requires WellFormedForest(ns) && ns != []
    requires multiset(Ids(ns))[t] == 1
    requires t !in IdsOf(FlattenNode(ns[0]))
    ensures After(Flatten(ns), t) <= |Outline(ns, d)|
    ensures Outline(RemoveEach(ns, t).nodes, d) ==
            Seqs.Splice(Outline(ns, d), At(Flatten(ns), t), Size(Flatten(ns)[At(Flatten(ns), t)]), [])
    decreases ns, 0
  {
    InTailPlace(ns, t);
    InTail(ns, t, d);
    var h, tl := ns[0], ns[1..];
    var ft := Flatten(tl);
    var res := RemoveEach(ns, t).nodes;
    var oh := OutlineNode(h, d);
    var i, k := At(ft, t), Size(ft[At(ft, t)]);
    assert i + k <= |Outline(tl, d)| && Outline(res, d) == oh + Seqs.Splice(Outline(tl, d), i, k, []) by {
      IdsNode(h);
      RemoveBelowBasics(h, t);
      assert res[0] == RemoveBelow(h, t).1 && res[1..] == RemoveEach(tl, t).nodes;
      RemoveEachSplice(tl, t, d);
    }
    Seqs.SpliceRight(oh, Outline(tl, d), i, k, [], Outline(ns, d), Outline(res, d), At(Flatten(ns), t));
  }

  /** Below a kept node holding the target: the node is rebuilt around its
      changed replies. */
  lemma {:induction false} RemoveBelowSplice(n: CommentNode, t: string, d: nat)
    requires WellFormed(n)
    requires multiset(IdsOf(FlattenNode(n)))[t] == 1
    requires n.comment.id != t
    ensures After(FlattenNode(n), t) <= |OutlineNode(n, d)|
    ensures OutlineNode(RemoveBelow(n, t).1, d) ==
            Seqs.Splice(OutlineNode(n, d), At(FlattenNode(n), t), Size(FlattenNode(n)[At(FlattenNode(n), t)]), [])
    decreases n, 1
  {
    InReplies(n, t, d);
    var kids := n.replies.nodes;
    var fk := Flatten(kids);
    var ok := Outline(kids, d + 1);
    var i, k := At(fk, t), Size(fk[At(fk, t)]);
    assert i + k <= |ok| &&
           OutlineNode(RemoveBelow(n, t).1, d) == [(n.comment, d)] + Seqs.Splice(ok, i, k, []) by {
      RemoveEachSplice(kids, t, d + 1);
      RemoveEachBasics(kids, t);
      OutlineRebuilt(n.comment, RemoveEach(kids, t).nodes, d);
    }
    Seqs.SpliceRight([(n.comment, d)], ok, i, k, [], OutlineNode(n, d),
                     OutlineNode(RemoveBelow(n, t).1, d), At(FlattenNode(n), t));
  }

  /** `removeCommentNode`: the result is well formed and carries the id nowhere;
      an id that is nowhere leaves the forest unchanged; the top level loses
      exactly its nodes with the id; and an id that occurs once loses exactly its
      subtree from the outline, every other comment keeping its depth and
      relative place (by `OutlineDetermines` this fixes the whole result). */
  lemma RemoveCommentNodeSpec(ns: seq<CommentNode>, t: string, d: nat)
    requires WellFormedForest(ns)
    ensures var res := RemoveCommentNode(ns, t);
            WellFormedForest(res) &&
            t !in Ids(res) &&
            (t !in Ids(ns) ==> res == ns) &&
            RootIds(res) == Seqs.Without(RootIds(ns), t) &&
            (multiset(Ids(ns))[t] == 1 ==>
               After(Flatten(ns), t) <= |Outline(ns, d)| &&
               Outline(res, d) == Seqs.Splice(Outline(ns, d), At(Flatten(ns), t), Size(Flatten(ns)[At(Flatten(ns), t)]), []))
  {
    RemoveEachBasics(ns, t);
    RemoveEachRoots(ns, t);
    if multiset(Ids(ns))[t] == 1 {
      RemoveEachSplice(ns, t, d);
    }
  }

  // ---------------------------------------------------------------------------
  // update
  // ---------------------------------------------------------------------------

  /** Something changes exactly when the id occurs; nothing changes otherwise;
      the number of siblings and well-formedness are kept. */
  lemma {:induction false} UpdateEachBasics(ns: seq<CommentNode>, id: string, f: CommentNode -> CommentNode)
    requires WellFormedForest(ns)
    ensures UpdateEach(ns, id, f).changed <==> id in Ids(ns)
    ensures !UpdateEach(ns, id, f).changed ==> UpdateEach(ns, id, f).nodes == ns
    ensures |UpdateEach(ns, id, f).nodes| == |ns|
    ensures WellFormedForest(UpdateEach(ns, id, f).nodes)
    decreases ns, 0
  {
    if ns != [] {
      IdsCons(ns);
      UpdateAtBasics(ns[0], id, f);
      UpdateEachBasics(ns[1..], id, f);
      assert UpdateEach(ns, id, f).nodes[1..] == UpdateEach(ns[1..], id, f).nodes;
    }
  }

  lemma {:induction false} UpdateAtBasics(n: CommentNode, id: string, f: CommentNode -> CommentNode)
    requires WellFormed(n)
    ensures UpdateAt(n, id, f).0 <==> id in IdsOf(FlattenNode(n))
    ensures !UpdateAt(n, id, f).0 ==> UpdateAt(n, id, f).1 == n
    ensures WellFormed(UpdateAt(n, id, f).1)
    decreases n, 0
  {
    IdsNode(n);
    UpdateEachBasics(n.replies.nodes, id, f);
    NormalizeWellFormed(f(NormalizeCommentNode(n)));
  }

  /** With the id occurring once, updating is replacing that node by the
      updater's output for the node the search finds. */
  lemma {:induction false} UpdateEachIsReplace(ns: seq<CommentNode>, id: string, f: CommentNode -> CommentNode, m: CommentNode)
    requires WellFormedForest(ns)
    requires multiset(Ids(ns))[id] == 1
    requires FindCommentNode(ns, id) == Some(m)
    ensures UpdateEach(ns, id, f) == ReplaceEach(ns, id, NormalizeCommentNode(f(m)))
    decreases ns, 1
  {
    var h, tl := ns[0], ns[1..];
    var r := NormalizeCommentNode(f(m));
    CountCons(ns, id);
    IdsCons(ns);
    FindInNodeIsFirst(h, id);
    if id in IdsOf(FlattenNode(h)) {
      UpdateEachBasics(tl, id, f);
      ReplaceEachBasics(tl, id, r);
      UpdateAtIsReplace(h, id, f, m);
    } else {
      UpdateAtBasics(h, id, f);
      ReplaceAtBasics(h, id, r);
      UpdateEachIsReplace(tl, id, f, m);
    }
  }

  lemma {:induction false} UpdateAtIsReplace(n: CommentNode, id: string, f: CommentNode -> CommentNode, m: CommentNode)
    requires WellFormed(n)
    requires multiset(IdsOf(FlattenNode(n)))[id] == 1
    requires FindInNode(n, id) == Some(m)
    ensures UpdateAt(n, id, f) == ReplaceAt(n, id, NormalizeCommentNode(f(m)))
    decreases n, 0
  {
    if n.comment.id != id {
      var kids := n.replies.nodes;
      CountNode(n, id);
      IdsNode(n);
      UpdateEachIsReplace(kids, id, f, m);
    }
  }

  /** `updateCommentNode`: an id that is nowhere leaves the forest unchanged;
      the result is well formed; and with the id occurring once, the update is
      `replaceCommentNode` with the updater's output for the node that
      `findCommentNode` returns. */
  lemma UpdateCommentNodeSpec(ns: seq<CommentNode>, id: string, f: CommentNode -> CommentNode)
    requires WellFormedForest(ns)
    ensures WellFormedForest(UpdateCommentNode(ns, id, f))
    ensures id !in Ids(ns) ==> UpdateCommentNode(ns, id, f) == ns
    ensures multiset(Ids(ns))[id] == 1 ==>
              FindCommentNode(ns, id).Some? &&
              UpdateCommentNode(ns, id, f) == ReplaceCommentNode(ns, id, f(FindCommentNode(ns, id).value))
  {
    UpdateEachBasics(ns, id, f);
    if multiset(Ids(ns))[id] == 1 {
      FindSucceedsIff(ns, id);
      UpdateEachIsReplace(ns, id, f, FindCommentNode(ns, id).value);
    }
  }
}
