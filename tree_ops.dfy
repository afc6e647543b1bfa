/** The immutable comment-forest operations of src/lib/comments/tree-ops.ts.
    Every operation returns a new forest and never changes its input, so each is
    a function; the `map`/`forEach` over siblings is a recursion over the list. */
module TreeOps {

  import opened Wrappers
  import opened Comments
  import Seqs

  /** `TreeResult`: whether some node matched, and the resulting forest. */
  datatype TreeResult = TreeResult(changed: bool, nodes: seq<CommentNode>)

  // ---------------------------------------------------------------------------
  // normalizeCommentNode / normalizeCommentTree
  // ---------------------------------------------------------------------------

  /** A copy of the node whose replies, at every depth, are arrays: a missing
      `replies` becomes `[]`. */
  function NormalizeCommentNode(n: CommentNode): (r: CommentNode)
    ensures r.comment == n.comment && Arity(r) == Arity(n)
    ensures n.replies.Absent? ==> r.replies == Present([])
    decreases n
  {
    CommentNode(n.comment, Present(match n.replies
                                   case Absent => []
                                   case Present(kids) => NormalizeCommentTree(kids)))
  }

  /** The `map` of `normalizeCommentNode`: node by node, in order. */
  function NormalizeCommentTree(ns: seq<CommentNode>): (r: seq<CommentNode>)
    ensures |r| == |ns|
    decreases ns
  {
    if ns == [] then [] else [NormalizeCommentNode(ns[0])] + NormalizeCommentTree(ns[1..])
  }

  // ---------------------------------------------------------------------------
  // findCommentNode
  // ---------------------------------------------------------------------------

  /** `findCommentNode`: a depth-first search over the siblings in order; what
      it finds carries the id it was asked for. */
  function FindCommentNode(ns: seq<CommentNode>, id: string): (r: Option<CommentNode>)
    requires WellFormedForest(ns)
    ensures r.Some? ==> r.value.comment.id == id
    decreases ns
  {
    if ns == [] then None
    else
      var found := FindInNode(ns[0], id);
      if found.Some? then found else FindCommentNode(ns[1..], id)
  }

  /** One iteration of the search: the node itself, else its replies. */
  function FindInNode(n: CommentNode, id: string): (r: Option<CommentNode>)
    requires WellFormed(n)
    ensures r.Some? ==> r.value.comment.id == id
    decreases n
  {
    if n.comment.id == id then Some(NormalizeCommentNode(n))
    else if |n.replies.nodes| > 0 then FindCommentNode(n.replies.nodes, id)
    else None
  }

  // ---------------------------------------------------------------------------
  // insertCommentNode / insertInto
  // ---------------------------------------------------------------------------

  /** `insertCommentNode`: a node without a parent id becomes the last root;
      otherwise it is added under its parent, and a parent that is nowhere in the
      forest leaves the forest as it was. */
  function InsertCommentNode(ns: seq<CommentNode>, newNode: CommentNode): seq<CommentNode>
    requires WellFormedForest(ns)
  {
    var x := NormalizeCommentNode(newNode);
    if !HasParent(x.comment) then ns + [x]
    else
      var res := InsertInto(ns, x);
      if res.changed then res.nodes else ns
  }

  /** `insertInto`: the mapped siblings if some node matched, else the input. */
  function InsertInto(ns: seq<CommentNode>, x: CommentNode): TreeResult
    requires WellFormedForest(ns)
    decreases ns, 1
  {
    var next := InsertEach(ns, x);
    TreeResult(next.changed, if next.changed then next.nodes else ns)
  }

  /** The `map` of `insertInto` over the siblings, with the `changed` flag set by
      any callback. */
  function InsertEach(ns: seq<CommentNode>, x: CommentNode): TreeResult
    requires WellFormedForest(ns)
    decreases ns, 0
  {
    if ns == [] then TreeResult(false, [])
    else
      var head := InsertAt(ns[0], x);
      var rest := InsertEach(ns[1..], x);
      TreeResult(head.0 || rest.changed, [head.1] + rest.nodes)
  }

  /** The callback: the parent gets the node as its last reply (its replies are
      not searched further); any other node is rebuilt only if its replies
      changed. */
  function InsertAt(n: CommentNode, x: CommentNode): (bool, CommentNode)
    requires WellFormed(n)
    decreases n, 0
  {
    if x.comment.parentId == Some(n.comment.id) then
      (true, CommentNode(n.comment, Present(n.replies.nodes + [x])))
    else if |n.replies.nodes| > 0 then
      var child := InsertInto(n.replies.nodes, x);
      if child.changed then (true, CommentNode(n.comment, Present(child.nodes))) else (false, n)
    else (false, n)
  }

  /** Whether `x` names a parent that occurs in the given ids. */
  predicate ParentIn(x: CommentNode, ids: seq<string>) {
    x.comment.parentId.Some? && x.comment.parentId.value in ids
  }

  // ---------------------------------------------------------------------------
  // replaceCommentNode / replaceInTree
  // ---------------------------------------------------------------------------

  /** `replaceCommentNode`: every node carrying the id is swapped for the
      normalised replacement; an id that is nowhere leaves the forest as it was. */
  function ReplaceCommentNode(ns: seq<CommentNode>, targetId: string, replacement: CommentNode): seq<CommentNode>
    requires WellFormedForest(ns)
  {
    var res := ReplaceInTree(ns, targetId, NormalizeCommentNode(replacement));
    if res.changed then res.nodes else ns
  }

  /** `replaceInTree`: the mapped siblings if some node matched, else the input. */
  function ReplaceInTree(ns: seq<CommentNode>, t: string, r: CommentNode): TreeResult
    requires WellFormedForest(ns)
    decreases ns, 1
  {
    var next := ReplaceEach(ns, t, r);
    TreeResult(next.changed, if next.changed then next.nodes else ns)
  }

  /** The `map` of `replaceInTree` over the siblings. */
  function ReplaceEach(ns: seq<CommentNode>, t: string, r: CommentNode): TreeResult
    requires WellFormedForest(ns)
    decreases ns, 0
  {
    if ns == [] then TreeResult(false, [])
    else
      var head := ReplaceAt(ns[0], t, r);
      var rest := ReplaceEach(ns[1..], t, r);
      TreeResult(head.0 || rest.changed, [head.1] + rest.nodes)
  }

  /** The callback: a matching node is swapped whole (its replies are not
      searched); any other node is rebuilt only if its replies changed. */
  function ReplaceAt(n: CommentNode, t: string, r: CommentNode): (bool, CommentNode)
    requires WellFormed(n)
    decreases n, 0
  {
    if n.comment.id == t then (true, r)
    else if |n.replies.nodes| > 0 then
      var child := ReplaceInTree(n.replies.nodes, t, r);
      if child.changed then (true, CommentNode(n.comment, Present(child.nodes))) else (false, n)
    else (false, n)
  }

  // ---------------------------------------------------------------------------
  // removeCommentNode
  // ---------------------------------------------------------------------------

  /** `removeCommentNode`: every node carrying the id is dropped together with
      its replies. */
  function RemoveCommentNode(ns: seq<CommentNode>, targetId: string): seq<CommentNode>
    requires WellFormedForest(ns)
  {
    RemoveInTree(ns, targetId).nodes
  }

  /** The result of `removeCommentNode`, with `changed` telling whether it is a
      new array rather than the input itself (the source's `!==` test). */
  function RemoveInTree(ns: seq<CommentNode>, t: string): TreeResult
    requires WellFormedForest(ns)
    decreases ns, 1
  {
    var next := RemoveEach(ns, t);
    TreeResult(next.changed, if next.changed then next.nodes else ns)
  }

  /** The `forEach` of `removeCommentNode`: the nodes pushed onto `next`, and
      whether anything changed. */
  function RemoveEach(ns: seq<CommentNode>, t: string): TreeResult
    requires WellFormedForest(ns)
    decreases ns, 0
  {
    if ns == [] then TreeResult(false, [])
    else
      var rest := RemoveEach(ns[1..], t);
      if ns[0].comment.id == t then TreeResult(true, rest.nodes)
      else
        var kept := RemoveBelow(ns[0], t);
        TreeResult(kept.0 || rest.changed, [kept.1] + rest.nodes)
  }

  /** A node that is kept: rebuilt when removal inside its replies produced a new
      array, otherwise the node itself. */
  function RemoveBelow(n: CommentNode, t: string): (bool, CommentNode)
    requires WellFormed(n)
    decreases n, 0
  {
    if |n.replies.nodes| > 0 then
      var updated := RemoveInTree(n.replies.nodes, t);
      if updated.changed then (true, CommentNode(n.comment, Present(updated.nodes))) else (false, n)
    else (false, n)
  }

  // ---------------------------------------------------------------------------
  // updateCommentNode / updateTree
  // ---------------------------------------------------------------------------

  /** `updateCommentNode`: every node carrying the id is replaced by the
      normalised result of the updater applied to its normalised self. */
  function UpdateCommentNode(ns: seq<CommentNode>, commentId: string, updater: CommentNode -> CommentNode): seq<CommentNode>
    requires WellFormedForest(ns)
  {
    var res := UpdateTree(ns, commentId, updater);
    if res.changed then res.nodes else ns
  }

  /** `updateTree`: the mapped siblings if some node matched, else the input. */
  function UpdateTree(ns: seq<CommentNode>, id: string, f: CommentNode -> CommentNode): TreeResult
    requires WellFormedForest(ns)
    decreases ns, 1
  {
    var next := UpdateEach(ns, id, f);
    TreeResult(next.changed, if next.changed then next.nodes else ns)
  }

  /** The `map` of `updateTree` over the siblings. */
  function UpdateEach(ns: seq<CommentNode>, id: string, f: CommentNode -> CommentNode): TreeResult
    requires WellFormedForest(ns)
    decreases ns, 0
  {
    if ns == [] then TreeResult(false, [])
    else
      var head := UpdateAt(ns[0], id, f);
      var rest := UpdateEach(ns[1..], id, f);
      TreeResult(head.0 || rest.changed, [head.1] + rest.nodes)
  }

  /** The callback: a matching node is updated (its replies are not searched
      further); any other node is rebuilt only if its replies changed. */
  function UpdateAt(n: CommentNode, id: string, f: CommentNode -> CommentNode): (bool, CommentNode)
    requires WellFormed(n)
    decreases n, 0
  {
    if n.comment.id == id then (true, NormalizeCommentNode(f(NormalizeCommentNode(n))))
    else if |n.replies.nodes| > 0 then
      var child := UpdateTree(n.replies.nodes, id, f);
      if child.changed then (true, CommentNode(n.comment, Present(child.nodes))) else (false, n)
    else (false, n)
  }
}
