/** The node map that tree-builder.ts and feed-demo.ts fill in: a map from
    comment id to a node whose `replies` array is appended to while other
    nodes are attached. In the source the arrays hold references to the very
    node objects the map holds, so a reply attached to a node appears, with
    all replies attached to it later, wherever that node is reachable. The
    model records replies by id and materialises the forest that the shared
    objects form by following the ids from a sequence of root ids. */
module CommentArena {
  import opened Wrappers
  import opened Comments
  import Seqs

  /** A node of the map: its comment and the ids of its replies, in the order
      they were attached. */
  datatype Entry = Entry(comment: Comment, replies: seq<string>)

  type Arena = map<string, Entry>

  /** The parent a comment names, when `parentId` is truthy. */
  function ParentOf(c: Comment): (p: Option<string>)
    ensures p.Some? <==> HasParent(c)
    ensures p.Some? ==> c.parentId == p
  {
    if HasParent(c) then c.parentId else None
  }

  /** The node with id `k` exists and names no parent that is in the map. */
  predicate Unattached(a: Arena, k: string) {
    k in a && (ParentOf(a[k].comment).None? || ParentOf(a[k].comment).value !in a)
  }

  /** Each node is filed under its comment's id, and every recorded reply is a
      node whose comment names the replied-to node as its parent: the only
      attachments the two builders make. */
  ghost predicate Linked(a: Arena) {
    && (forall k :: k in a ==> a[k].comment.id == k)
    && (forall k, r :: k in a && r in a[k].replies ==> r in a && ParentOf(a[r].comment) == Some(k))
  }

  /** `path` leads from an unattached node down recorded replies. */
  ghost predicate Chain(a: Arena, path: seq<string>) {
    (forall i :: 0 <= i < |path| ==> path[i] in a)
    && (path != [] ==> Unattached(a, path[0]))
    && (forall i :: 0 < i < |path| ==> path[i] in a[path[i - 1]].replies)
  }

  /** `r` may extend `path`: an unattached node at the top, a recorded reply of
      the last node below it. */
  ghost predicate Extends(a: Arena, path: seq<string>, r: string) {
    if path == [] then Unattached(a, r) else path[|path| - 1] in a && r in a[path[|path| - 1]].replies
  }

  lemma ChainExtend(a: Arena, path: seq<string>, r: string)
    requires Linked(a) && Chain(a, path) && Extends(a, path, r)
    ensures Chain(a, path + [r])
  {
  }

  /** A chain visits no node twice: each node has one parent, and the chain
      starts at a node without one in the map. */
  lemma {:induction false} ChainDistinctAt(a: Arena, path: seq<string>, i: nat, j: nat)
    requires Linked(a) && Chain(a, path) && i < j < |path|
    ensures path[i] != path[j]
    decreases i
  {
    assert path[j] in a[path[j - 1]].replies;
    if i > 0 {
      assert path[i] in a[path[i - 1]].replies;
      ChainDistinctAt(a, path, i - 1, j - 1);
    }
  }

  /** So a chain is no longer than the map is large; this bounds the depth of
      materialisation even when parent links form a cycle. */
  lemma ChainFits(a: Arena, path: seq<string>)
    requires Linked(a) && Chain(a, path)
    ensures |path| <= |a|
  {
    assert Seqs.NoDuplicates(path) by {
      forall i, j | 0 <= i < j < |path| ensures path[i] != path[j] {
        ChainDistinctAt(a, path, i, j);
      }
    }
    DistinctFits(path, a.Keys);
  }

  lemma {:induction false} DistinctFits<T>(s: seq<T>, keys: set<T>)
    requires Seqs.NoDuplicates(s)
    requires forall i :: 0 <= i < |s| ==> s[i] in keys
    ensures |s| <= |keys|
  {
    if s != [] {
      var rest := keys - {s[0]};
      assert keys == rest + {s[0]} && s[0] !in rest;
      assert forall i :: 0 <= i < |s| - 1 ==> s[1..][i] == s[i + 1] && s[i + 1] != s[0];
      DistinctFits(s[1..], rest);
    }
  }

  /** The node at the end of `path`, with its replies as the shared objects
      show them. */
  function Tree(a: Arena, path: seq<string>): CommentNode
    requires Linked(a) && path != [] && Chain(a, path)
    decreases |a| - |path|, 1, 0
  {
    ChainFits(a, path);
    var k := path[|path| - 1];
    CommentNode(a[k].comment, Present(Forest(a, path, a[k].replies)))
  }

  /** The nodes `kids`, each reached from `path`. */
  function Forest(a: Arena, path: seq<string>, kids: seq<string>): (f: seq<CommentNode>)
    requires Linked(a) && Chain(a, path)
    requires forall r :: r in kids ==> Extends(a, path, r)
    ensures |f| == |kids|
    decreases |a| - |path|, 0, |kids|
  {
    if kids == [] then []
    else
      ChainExtend(a, path, kids[0]);
      ChainFits(a, path + [kids[0]]);
      [Tree(a, path + [kids[0]])] + Forest(a, path, kids[1..])
  }

  /** The forest that the map's objects form below the nodes `roots`. */
  function Materialize(a: Arena, roots: seq<string>): seq<CommentNode>
    requires Linked(a)
    requires forall r :: r in roots ==> Unattached(a, r)
  {
    Forest(a, [], roots)
  }

  /** A node shows its map entry: its comment, and the entry's replies in some
      order, each of which shows its own entry. */
  ghost predicate Shows(a: Arena, n: CommentNode)
    decreases n
  {
    && n.replies.Present?
    && n.comment.id in a
    && a[n.comment.id].comment == n.comment
    && multiset(IdsOf(n.replies.nodes)) == multiset(a[n.comment.id].replies)
    && forall m :: m in n.replies.nodes ==> Shows(a, m)
  }

  /** Materialising gives nodes with the requested ids, in the requested order,
      each of which shows its entry (`ForestShowsInOrder` adds that the
      replies keep their recorded order). */
  lemma {:induction false} ForestShows(a: Arena, path: seq<string>, kids: seq<string>)
    requires Linked(a) && Chain(a, path)
    requires forall r :: r in kids ==> Extends(a, path, r)
    ensures IdsOf(Forest(a, path, kids)) == kids
    ensures WellFormedForest(Forest(a, path, kids))
    ensures forall n :: n in Forest(a, path, kids) ==> Shows(a, n)
    decreases |a| - |path|, 0, |kids|
  {
    if kids != [] {
      ChainExtend(a, path, kids[0]);
      ChainFits(a, path + [kids[0]]);
      TreeShows(a, path + [kids[0]]);
      ForestShows(a, path, kids[1..]);
      var f := Forest(a, path, kids);
      assert IdsOf(f) == [kids[0]] + IdsOf(f[1..]) by {
        assert f[1..] == Forest(a, path, kids[1..]);
      }
    }
  }

  lemma {:induction false} TreeShows(a: Arena, path: seq<string>)
    requires Linked(a) && path != [] && Chain(a, path)
    ensures Tree(a, path).comment == a[path[|path| - 1]].comment
    ensures WellFormed(Tree(a, path)) && Shows(a, Tree(a, path))
    decreases |a| - |path|, 1, 0
  {
    ChainFits(a, path);
    ForestShows(a, path, a[path[|path| - 1]].replies);
  }

  /** A node shows its map entry with the replies in their recorded order, and
      so does each of its replies. */
  ghost predicate ShowsInOrder(a: Arena, n: CommentNode)
    decreases n
  {
    && n.replies.Present?
    && n.comment.id in a
    && a[n.comment.id].comment == n.comment
    && IdsOf(n.replies.nodes) == a[n.comment.id].replies
    && forall m :: m in n.replies.nodes ==> ShowsInOrder(a, m)
  }

  /** Materialising keeps every recorded reply list in its order, at every
      depth. */
  lemma {:induction false} ForestShowsInOrder(a: Arena, path: seq<string>, kids: seq<string>)
    requires Linked(a) && Chain(a, path)
    requires forall r :: r in kids ==> Extends(a, path, r)
    ensures forall n :: n in Forest(a, path, kids) ==> ShowsInOrder(a, n)
    decreases |a| - |path|, 0, |kids|
  {
    if kids != [] {
      ChainExtend(a, path, kids[0]);
      ChainFits(a, path + [kids[0]]);
      TreeShowsInOrder(a, path + [kids[0]]);
      ForestShowsInOrder(a, path, kids[1..]);
      var f := Forest(a, path, kids);
      assert f == [Tree(a, path + [kids[0]])] + Forest(a, path, kids[1..]);
    }
  }

  lemma {:induction false} TreeShowsInOrder(a: Arena, path: seq<string>)
    requires Linked(a) && path != [] && Chain(a, path)
    ensures ShowsInOrder(a, Tree(a, path))
    decreases |a| - |path|, 1, 0
  {
    ChainFits(a, path);
    TreeShows(a, path);
    ForestShows(a, path, a[path[|path| - 1]].replies);
    ForestShowsInOrder(a, path, a[path[|path| - 1]].replies);
  }

  /** Every recorded reply list is in ascending `createdAt` of its nodes. */
  ghost predicate RepliesAscending(a: Arena) {
    forall k, i, j :: k in a && 0 <= i < j < |a[k].replies| && a[k].replies[i] in a && a[k].replies[j] in a ==>
      a[a[k].replies[i]].comment.createdAt <= a[a[k].replies[j]].comment.createdAt
  }

  /** A node that shows its entry in order, in a map whose reply lists are
      ascending, has ascending siblings at every depth. */
  lemma {:induction false} InOrderSorted(a: Arena, n: CommentNode)
    requires RepliesAscending(a) && ShowsInOrder(a, n)
    ensures NodeSorted(n)
    decreases n
  {
    var kids := n.replies.nodes;
    forall m | m in kids ensures NodeSorted(m) {
      InOrderSorted(a, m);
    }
    forall i, j | 0 <= i < j < |kids| ensures NodeCreatedAt(kids[i]) <= NodeCreatedAt(kids[j]) {
      assert kids[i] in kids && kids[j] in kids;
      assert IdsOf(kids)[i] == kids[i].comment.id && IdsOf(kids)[j] == kids[j].comment.id;
    }
  }

  /** A node reached below nodes that show their entries is filed under its
      id, and names the top nodes' parent or a node of the map as its own. */
  lemma {:induction false} BelowHasParent(a: Arena, ns: seq<CommentNode>, parent: Option<string>, m: CommentNode)
    requires Linked(a)
    requires forall n :: n in ns ==> Shows(a, n) && ParentOf(n.comment) == parent
    requires m in Flatten(ns)
    ensures m.comment.id in a && a[m.comment.id].comment == m.comment
    ensures ParentOf(m.comment) == parent || (ParentOf(m.comment).Some? && ParentOf(m.comment).value in a)
    decreases ns, 1
  {
    if m in FlattenNode(ns[0]) {
      BelowNodeHasParent(a, ns[0], parent, m);
    } else {
      BelowHasParent(a, ns[1..], parent, m);
    }
  }

  lemma {:induction false} BelowNodeHasParent(a: Arena, n: CommentNode, parent: Option<string>, m: CommentNode)
    requires Linked(a) && Shows(a, n) && ParentOf(n.comment) == parent
    requires m in FlattenNode(n)
    ensures m.comment.id in a && a[m.comment.id].comment == m.comment
    ensures ParentOf(m.comment) == parent || (ParentOf(m.comment).Some? && ParentOf(m.comment).value in a)
    decreases n, 0
  {
    if m != n {
      RepliesNameParent(a, n);
      BelowHasParent(a, n.replies.nodes, Some(n.comment.id), m);
    }
  }

  /** The replies of a node that shows its entry name that node as parent. */
  lemma RepliesNameParent(a: Arena, n: CommentNode)
    requires Linked(a) && Shows(a, n)
    ensures forall k :: k in n.replies.nodes ==> Shows(a, k) && ParentOf(k.comment) == Some(n.comment.id)
  {
    var kids := n.replies.nodes;
    forall k | k in kids ensures Shows(a, k) && ParentOf(k.comment) == Some(n.comment.id) {
      var i :| 0 <= i < |kids| && kids[i] == k;
      assert IdsOf(kids)[i] == k.comment.id;
      assert k.comment.id in multiset(IdsOf(kids));
      assert k.comment.id in a[n.comment.id].replies;
    }
  }

  // ---------------------------------------------------------------------------
  // Which nodes the materialised forest holds
  // ---------------------------------------------------------------------------

  /** The node `n` parent links above `k`, while the links stay in the map. */
  function Up(a: Arena, k: string, n: nat): (u: Option<string>)
    ensures u.Some? ==> u.value in a
    decreases n
  {
    if k !in a then None
    else if n == 0 then Some(k)
    else match ParentOf(a[k].comment)
      case None => None
      case Some(p) => Up(a, p, n - 1)
  }

  /** Walking up `i` links and then `j` more is walking up `i + j`. */
  lemma {:induction false} UpAdd(a: Arena, k: string, i: nat, j: nat)
    ensures Up(a, k, i + j) == if Up(a, k, i).Some? then Up(a, Up(a, k, i).value, j) else None
    decreases i
  {
    if k in a && i > 0 && ParentOf(a[k].comment).Some? {
      UpAdd(a, ParentOf(a[k].comment).value, i - 1, j);
    }
  }

  /** No node is its own ancestor. */
  ghost predicate Acyclic(a: Arena) {
    forall k, n: nat :: 0 < n && k in a ==> Up(a, k, n) != Some(k)
  }

  /** The walk up from `k` ends at an unattached node. */
  ghost predicate ReachesRoot(a: Arena, k: string) {
    exists n: nat :: Up(a, k, n).Some? && Unattached(a, Up(a, k, n).value)
  }

  /** Each element at most once. */
  ghost predicate Once(ids: seq<string>) {
    forall x :: multiset(ids)[x] <= 1
  }

  /** Each node records a reply at most once. */
  ghost predicate RepliesOnce(a: Arena) {
    forall k :: k in a ==> Once(a[k].replies)
  }

  /** Every unattached node is among `roots`, and every node whose parent is in
      the map is among that parent's replies. */
  ghost predicate Complete(a: Arena, roots: seq<string>) {
    && (forall k :: Unattached(a, k) ==> k in roots)
    && (forall k :: k in a && Up(a, k, 1).Some? ==> k in a[Up(a, k, 1).value].replies)
  }

  /** A node is unattached exactly when it is in the map and has no parent
      one link up. */
  lemma UnattachedUp(a: Arena, k: string)
    ensures Unattached(a, k) <==> k in a && Up(a, k, 1).None?
  {
  }

  /** A walk that leaves the map has passed an unattached node. */
  lemma {:induction false} LastOnWalk(a: Arena, k: string, n: nat)
    requires k in a && Up(a, k, n).None?
    ensures ReachesRoot(a, k)
    decreases n
  {
    assert Up(a, k, 0) == Some(k);
    var x := Up(a, k, n - 1);
    if x.Some? {
      UpAdd(a, k, n - 1, 1);
      assert Unattached(a, x.value);
    } else {
      LastOnWalk(a, k, n - 1);
    }
  }

  /** Without cycles every walk up ends at an unattached node: a walk of
      `|a| + 1` nodes that stays in the map repeats one of them. */
  lemma AcyclicReachesRoot(a: Arena, k: string)
    requires Acyclic(a) && k in a
    ensures ReachesRoot(a, k)
  {
    if forall n: nat :: n <= |a| ==> Up(a, k, n).Some? {
      var walk := seq(|a| + 1, n requires 0 <= n <= |a| => Up(a, k, n).value);
      forall i, j | 0 <= i < j < |walk| ensures walk[i] != walk[j] {
        UpAdd(a, k, i, j - i);
      }
      DistinctFits(walk, a.Keys);
      assert false;
    }
    var n: nat :| n <= |a| && Up(a, k, n).None?;
    LastOnWalk(a, k, n);
  }

  /** A node reached below nodes that show their entries shows its own entry,
      and one of those nodes is its ancestor. */
  lemma {:induction false} BelowShows(a: Arena, ns: seq<CommentNode>, m: CommentNode)
    requires Linked(a)
    requires forall n :: n in ns ==> Shows(a, n)
    requires m in Flatten(ns)
    ensures Shows(a, m)
    ensures exists i: nat, j: nat :: i < |ns| && Up(a, m.comment.id, j) == Some(ns[i].comment.id)
    decreases ns, 1
  {
    if m in FlattenNode(ns[0]) {
      BelowNodeShows(a, ns[0], m);
      var j: nat :| Up(a, m.comment.id, j) == Some(ns[0].comment.id);
    } else {
      BelowShows(a, ns[1..], m);
      var i: nat, j: nat :| i < |ns| - 1 && Up(a, m.comment.id, j) == Some(ns[1..][i].comment.id);
      assert ns[1..][i] == ns[i + 1];
    }
  }

  lemma {:induction false} BelowNodeShows(a: Arena, n: CommentNode, m: CommentNode)
    requires Linked(a) && Shows(a, n) && m in FlattenNode(n)
    ensures Shows(a, m)
    ensures exists j: nat :: Up(a, m.comment.id, j) == Some(n.comment.id)
    decreases n, 0
  {
    if m == n {
      assert Up(a, m.comment.id, 0) == Some(n.comment.id);
    } else {
      var kids := n.replies.nodes;
      RepliesNameParent(a, n);
      BelowShows(a, kids, m);
      var i: nat, j: nat :| i < |kids| && Up(a, m.comment.id, j) == Some(kids[i].comment.id);
      UpAdd(a, m.comment.id, j, 1);
      assert Up(a, kids[i].comment.id, 1) == Some(n.comment.id);
    }
  }

  /** Two ancestors of one node that hang from the same place (`q`: the same
      parent, or none in the map) are the same node. */
  lemma SameLevelSame(a: Arena, x: string, j1: nat, j2: nat, r1: string, r2: string, q: Option<string>)
    requires Acyclic(a)
    requires Up(a, x, j1) == Some(r1) && Up(a, x, j2) == Some(r2)
    requires Up(a, r1, 1) == q && Up(a, r2, 1) == q
    ensures r1 == r2
  {
    if j1 < j2 {
      AboveSameLevel(a, x, j1, j2, r1, r2, q);
      assert false;
    } else if j2 < j1 {
      AboveSameLevel(a, x, j2, j1, r2, r1, q);
      assert false;
    }
  }

  /** An ancestor of a node, and one further up, hang from the same place
      only when that place is a node on a cycle. */
  lemma AboveSameLevel(a: Arena, x: string, lo: nat, hi: nat, rlo: string, rhi: string, q: Option<string>)
    requires lo < hi
    requires Up(a, x, lo) == Some(rlo) && Up(a, x, hi) == Some(rhi) && Up(a, rhi, 1) == q
    ensures Up(a, rlo, 1) == q ==> q.Some? && Up(a, q.value, hi - lo) == q
  {
    var d: nat := hi - lo;
    UpAdd(a, x, lo, d);
    UpAdd(a, rlo, 1, d - 1);
    if Up(a, rlo, 1) == q && q.Some? {
      UpAdd(a, q.value, d - 1, 1);
    }
  }

  /** Without cycles, the nodes below nodes that show their entries repeat no
      id, when those nodes have distinct ids and hang from the same place. */
  lemma {:induction false} FlattenOnce(a: Arena, ns: seq<CommentNode>, q: Option<string>)
    requires Linked(a) && Acyclic(a) && RepliesOnce(a)
    requires forall n :: n in ns ==> Shows(a, n) && Up(a, n.comment.id, 1) == q
    requires Once(IdsOf(ns))
    ensures Once(Ids(ns))
    decreases ns, 1
  {
    if ns != [] {
      var head, rest := IdsOf(FlattenNode(ns[0])), Ids(ns[1..]);
      assert Once(IdsOf(ns[1..])) by {
        assert IdsOf(ns) == [ns[0].comment.id] + IdsOf(ns[1..]);
        forall x ensures multiset(IdsOf(ns[1..]))[x] <= 1 {
          assert multiset(IdsOf(ns))[x] <= 1;
        }
      }
      NodeOnce(a, ns[0]);
      FlattenOnce(a, ns[1..], q);
      forall x ensures multiset(head + rest)[x] <= 1 {
        if x in head {
          FirstTreeApart(a, ns, q, x);
          assert x !in multiset(rest);
        }
      }
      IdsCons(ns);
    }
  }

  /** No id below the first node is also below a later one. */
  lemma FirstTreeApart(a: Arena, ns: seq<CommentNode>, q: Option<string>, x: string)
    requires Linked(a) && Acyclic(a)
    requires forall n :: n in ns ==> Shows(a, n) && Up(a, n.comment.id, 1) == q
    requires Once(IdsOf(ns))
    requires ns != [] && x in IdsOf(FlattenNode(ns[0]))
    ensures x !in Ids(ns[1..])
  {
    if x in Ids(ns[1..]) {
      var j1, i, j2 := BelowFirstAndLater(a, ns, x);
      assert Shows(a, ns[i + 1]) && Up(a, ns[i + 1].comment.id, 1) == q;
      SameLevelSame(a, x, j1, j2, ns[0].comment.id, ns[i + 1].comment.id, q);
      Seqs.TwoOccurrences(IdsOf(ns), 0, i + 1);
      assert false;
    }
  }

  /** An id below the first node and below a later one has both as ancestors. */
  lemma BelowFirstAndLater(a: Arena, ns: seq<CommentNode>, x: string) returns (j1: nat, i: nat, j2: nat)
    requires Linked(a) && forall n :: n in ns ==> Shows(a, n)
    requires ns != [] && x in IdsOf(FlattenNode(ns[0])) && x in Ids(ns[1..])
    ensures i < |ns| - 1 && Up(a, x, j1) == Some(ns[0].comment.id) && Up(a, x, j2) == Some(ns[i + 1].comment.id)
  {
    var head, rest := IdsOf(FlattenNode(ns[0])), Ids(ns[1..]);
    var i1 :| 0 <= i1 < |head| && head[i1] == x;
    var i2 :| 0 <= i2 < |rest| && rest[i2] == x;
    BelowNodeShows(a, ns[0], FlattenNode(ns[0])[i1]);
    BelowShows(a, ns[1..], Flatten(ns[1..])[i2]);
    j1 :| Up(a, x, j1) == Some(ns[0].comment.id);
    i, j2 :| i < |ns| - 1 && Up(a, x, j2) == Some(ns[1..][i].comment.id);
  }

  lemma {:induction false} NodeOnce(a: Arena, n: CommentNode)
    requires Linked(a) && Acyclic(a) && RepliesOnce(a) && Shows(a, n)
    ensures Once(IdsOf(FlattenNode(n)))
    decreases n, 0
  {
    var kids := n.replies.nodes;
    IdsNode(n);
    RepliesNameParent(a, n);
    FlattenOnce(a, kids, Some(n.comment.id));
    if n.comment.id in Ids(kids) {
      var i :| 0 <= i < |Flatten(kids)| && Ids(kids)[i] == n.comment.id;
      BelowShows(a, kids, Flatten(kids)[i]);
      var c: nat, j: nat :| c < |kids| && Up(a, n.comment.id, j) == Some(kids[c].comment.id);
      UpAdd(a, n.comment.id, j, 1);
      assert false;
    }
  }

  /** A recorded reply of a node of a forest whose nodes show their entries is
      in the forest too. */
  lemma ReplyInForest(a: Arena, f: seq<CommentNode>, p: string, k: string)
    requires Linked(a) && forall n :: n in f ==> Shows(a, n)
    requires p in Ids(f) && p in a && k in a[p].replies
    ensures k in Ids(f)
  {
    var t :| 0 <= t < |Flatten(f)| && Ids(f)[t] == p;
    var mp := Flatten(f)[t];
    BelowShows(a, f, mp);
    var kids := mp.replies.nodes;
    assert k in multiset(a[p].replies);
    assert k in multiset(IdsOf(kids));
    var c :| 0 <= c < |kids| && IdsOf(kids)[c] == k;
    TopInFlatten(kids, kids[c]);
    SubtreeInFlatten(f, mp, kids[c]);
    var u :| 0 <= u < |Flatten(f)| && Flatten(f)[u] == kids[c];
    assert Ids(f)[u] == k;
  }

  /** A node whose walk up ends, after `n` links, at an unattached node is in
      a forest that holds every unattached node and every recorded reply of its
      nodes. */
  lemma {:induction false} ReachedInForest(a: Arena, f: seq<CommentNode>, k: string, n: nat)
    requires Linked(a) && (forall n :: n in f ==> Shows(a, n)) && Complete(a, IdsOf(f))
    requires Up(a, k, n).Some? && Unattached(a, Up(a, k, n).value)
    ensures k in Ids(f)
    decreases n
  {
    if n == 0 {
      var i :| 0 <= i < |f| && IdsOf(f)[i] == k;
      TopInFlatten(f, f[i]);
      var t :| 0 <= t < |Flatten(f)| && Flatten(f)[t] == f[i];
      assert Ids(f)[t] == k;
    } else {
      UpAdd(a, k, 1, n - 1);
      var p := Up(a, k, 1).value;
      ReachedInForest(a, f, p, n - 1);
      ReplyInForest(a, f, p, k);
    }
  }

  /** The forest holds a node for `k` exactly when `k` is in the map and its
      walk up ends at an unattached node: the nodes of a parent cycle, and
      those below one, are in no tree. */
  lemma MaterializeHolds(a: Arena, roots: seq<string>, k: string)
    requires Linked(a) && (forall r :: r in roots ==> Unattached(a, r)) && Complete(a, roots)
    ensures k in Ids(Materialize(a, roots)) <==> k in a && ReachesRoot(a, k)
  {
    var f := Materialize(a, roots);
    ForestShows(a, [], roots);
    if k in Ids(f) {
      var t :| 0 <= t < |Flatten(f)| && Ids(f)[t] == k;
      BelowShows(a, f, Flatten(f)[t]);
      var i: nat, j: nat :| i < |f| && Up(a, k, j) == Some(f[i].comment.id);
      assert IdsOf(f)[i] == roots[i];
    }
    if k in a && ReachesRoot(a, k) {
      var n: nat :| Up(a, k, n).Some? && Unattached(a, Up(a, k, n).value);
      ReachedInForest(a, f, k, n);
    }
  }

  /** Without cycles, and with roots and replies recorded once, the forest
      holds every node of the map exactly once. */
  lemma MaterializeEachOnce(a: Arena, roots: seq<string>)
    requires Linked(a) && (forall r :: r in roots ==> Unattached(a, r)) && Complete(a, roots)
    requires Once(roots) && RepliesOnce(a) && Acyclic(a)
    ensures forall k :: multiset(Ids(Materialize(a, roots)))[k] == if k in a then 1 else 0
  {
    var f := Materialize(a, roots);
    ForestShows(a, [], roots);
    forall n | n in f ensures Shows(a, n) && Up(a, n.comment.id, 1) == None {
      var i :| 0 <= i < |f| && f[i] == n;
      assert IdsOf(f)[i] == roots[i];
      UnattachedUp(a, roots[i]);
    }
    FlattenOnce(a, f, None);
    forall k ensures multiset(Ids(f))[k] == if k in a then 1 else 0 {
      MaterializeHolds(a, roots, k);
      if k in a {
        AcyclicReachesRoot(a, k);
      }
    }
  }
}
