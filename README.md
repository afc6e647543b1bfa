# SSOM core in Dafny

A model of the sequential core of SSOM, a comment feed with level-gated profiles. It has four parts:

- **The level engine.** Four levels `L1 < L2 < L3 < L4`. The unlock decision lists every reason an unlock is refused, without duplicates. Progress toward the next level is interpolated and clamped. A profile snapshot reveals a tier only when both the viewer and the target have reached it. A level service decides unlocks, saves successful ones and logs each view together with the level it exposed.
- **The comment forest.** The tree operations find, insert, replace, remove, update and normalise comments in a forest of `CommentNode`s. The default tree builder sorts comments by creation time, enters them into an id map and attaches each one to its parent or to the roots.
- **The in-memory demo feed.** A single store holds a thread and its comments, each with a set of users who hearted it. It supports toggling a heart, appending a comment and building the viewer's forest. Comments whose parent is missing are dropped from that forest.
- **The logic of the two database adapters that runs after their queries.** On the reaction side: the mutual-like banner match and the heart toggle. On the comment side: heart counting, the viewer's hearted set, row normalisation, `listByThread`, `createDraft` and `persistComment`.

Modelling conventions:

- Timestamps are integers, and `percent` is a `real`.
- The clock and the random id source are parameters.
- A query result is an input: a `Result` holding the rows, or the error message of a failed query.
- An object the source updates in place is a `class`: the demo store, the level repositories and the reactions table. The one in-place update that is not so modelled is the sort `buildTree` applies to its caller's array (see "Left out").
- A loop that updates variables step by step is a method with loop invariants: the reason and `likedTargets` builders, the payload and heart-count loops, the collection of hearted ids, and the two passes of `buildTree` and of the demo's `buildCommentNodes`. Each such method is proved equal to a specification function, and the properties are proved as lemmas about that function.
- A traversal that recurses into replies, or stops at the first match, and changes nothing is a recursive function, as in the source: the tree operations of `tree-ops.ts`, the demo's `sortTree` and the `find` of the mutual-like match.
- A comment forest is pinned down by its outline: each comment paired with its depth, in pre-order (`Comments.Outline`). Two well-formed forests with the same outline are equal, so an edit of the forest is specified as the splice it makes in the outline.

Files:

| file | module | models |
|---|---|---|
| `wrappers.dfy` | `Wrappers`, `Seqs` | `Option`, `Result`; first index, splice, `Array.from(new Set(...))` |
| `levels_utils.dfy` | `LevelOrder` | `src/lib/levels/utils.ts` |
| `levels_service.dfy` | `LevelEngine` | `src/lib/levels/service.ts` |
| `levels_domain.dfy` | `LevelDomain` | `src/lib/levels/domain-service.ts` over in-memory repositories |
| `comments_types.dfy` | `Comments` | `Comment`, `CommentNode`; pre-order views of a forest |
| `tree_ops.dfy` | `TreeOps` | `src/lib/comments/tree-ops.ts` |
| `tree_facts.dfy`, `tree_edit_facts.dfy` | `TreeFacts`, `TreeEditFacts` | what the tree operations guarantee |
| `sorting.dfy` | `StableSort` | the stable sort by creation time |
| `tree_builder.dfy` | `TreeBuilder` | `src/lib/comments/tree-builder.ts` |
| `arena.dfy` | `CommentArena` | an id-keyed node map and the forest read out of it |
| `feed_demo.dfy` | `FeedDemo` | `src/lib/demo/feed-demo.ts` |
| `reaction_repository.dfy` | `Reactions` | the match and toggle kernels of `reaction-repository.ts` |
| `comment_repository.dfy` | `CommentRepository` | the kernels of `comment-repository.ts` |

## Model

| member | source | states |
|---|---|---|
| LevelOrder.Index | src/lib/levels/utils.ts:3-9 | the index is the level's position in `LEVEL_ORDER`, 0 to 3; the unknown-level throw cannot happen |
| LevelOrder.IndexIsPosition | src/lib/levels/utils.ts:3-9 | `LEVEL_ORDER.indexOf(level)` is the level's index |
| LevelOrder.IndexInjective | src/lib/levels/utils.ts:3-9 | two levels have the same index exactly when they are equal |
| LevelOrder.Compare | src/lib/levels/utils.ts:11-13 | zero iff the levels are equal; negative or positive exactly as the first is below or above the second |
| LevelOrder.CompareAntisymmetric | src/lib/levels/utils.ts:11-13 | `compareLevels(a, b) == -compareLevels(b, a)` |
| LevelOrder.Next | src/lib/levels/utils.ts:15-18 | no next level exactly at L4; otherwise the level one index up |
| LevelOrder.NextIsAbove | src/lib/levels/utils.ts:15-18 | the next level always compares above its argument |
| LevelOrder.MinLevel | src/lib/levels/utils.ts:20-22 | returns one of its arguments, at or below both |
| LevelOrder.MaxLevel | src/lib/levels/utils.ts:24-26 | returns one of its arguments, at or above both |
| LevelOrder.MinMaxCommute | src/lib/levels/utils.ts:20-26 | min and max are commutative and together are exactly `{a, b}` |
| Seqs.Dedup | src/lib/levels/service.ts:38 | `Array.from(new Set(s))`: the same members, no duplicates, in order of first occurrence |
| LevelEngine.PendingRequirements | src/lib/levels/service.ts:25-27 | an action is pending exactly when it is required and not completed |
| LevelEngine.PendingReasons | src/lib/levels/service.ts:30 | one `pending:` reason per pending action, position by position |
| LevelEngine.FilterPending | src/lib/levels/service.ts:25-27 | the filter loop computes the pending actions in order, duplicates kept |
| LevelEngine.PushPending | src/lib/levels/service.ts:29-31 | the push appends the pending reasons after the earlier ones |
| LevelEngine.DistinctInOrder | src/lib/levels/service.ts:37-39 | the set-based pass yields the deduplicated reasons |
| LevelEngine.EvaluateUnlock | src/lib/levels/service.ts:14-42 | the pushes and the dedup compute the decision `Evaluated`, whose properties the next lemmas state |
| LevelEngine.CodeInjective | src/lib/levels/service.ts:17-35 | distinct reasons have distinct string codes, so deduplicating codes is deduplicating reasons |
| LevelEngine.RawReasonMembers | src/lib/levels/service.ts:17-35 | each rule's reason is pushed exactly when its condition holds; `pending:x` exactly for required, uncompleted `x` |
| LevelEngine.OrderReasonMembers | src/lib/levels/service.ts:17-23 | the ordering rules push only their own two reasons: `target-not-above-current` iff the target is not above the current level, `sequential-only` iff it is not the next level |
| LevelEngine.UnlockSucceedsIff | src/lib/levels/service.ts:17-41 | success iff the target is the next level and every required action is completed; flipping `isBoosted` never changes success |
| LevelEngine.ResultShape | src/lib/levels/service.ts:37-41 | success unlocks the target with no reasons; failure unlocks nothing and lists at least one reason |
| LevelEngine.BlockedByReasons | src/lib/levels/service.ts:17-39 | `blockedBy` holds each rule's reason iff it fires, `target-not-above-current` implies `sequential-only`, it has no duplicates and keeps first-push order |
| LevelEngine.UnlockTestCases | src/lib/levels/service.test.ts:4-35 | the unlock cases of the test file hold of the model |
| LevelEngine.Clamp | src/lib/levels/service.ts:112-114 | the result lies within `[min, max]`; inside the range it is the value, outside it the nearer bound |
| LevelEngine.ProgressRange | src/lib/levels/service.ts:62 | the divisor is at least 1 and at least the threshold gap, so there is no division by zero |
| LevelEngine.CalculateProgress | src/lib/levels/service.ts:48-72 | at L4, 100 percent and no next level; below L4, a missing next threshold is the error and otherwise the next level, no actions and `0 <= percent <= 99.99` |
| LevelEngine.ProgressMonotone | src/lib/levels/service.ts:55-71 | more xp never gives less percent, and never turns success into failure or back |
| LevelEngine.MissingCurrentThresholdIsZero | src/lib/levels/service.ts:55 | a missing current threshold behaves as 0 |
| LevelEngine.ProgressSaturates | src/lib/levels/service.ts:62-64 | xp at or past the next threshold reads 99.99; xp at or below the current threshold reads 0 |
| LevelEngine.ProgressTestCases | src/lib/levels/service.test.ts:37-56 | 150 xp at L2 with thresholds 0/100/250/500 is a third of the way; L4 reads 100 percent |
| LevelEngine.ResolveReciprocalLevel | src/lib/levels/service.ts:44-46 | one of the two levels, at or below both |
| LevelEngine.ComputeLockedLevels | src/lib/levels/service.ts:74-77 | exactly the levels strictly above the reciprocal level, ascending |
| LevelEngine.Gated | src/lib/levels/service.ts:103-105 | a field is shown iff the reciprocal level reaches its gate and the field exists, and then unchanged |
| LevelEngine.BuildProfileSnapshot | src/lib/levels/service.ts:86-110 | the reciprocal level is the lower one; basic fields and progress pass through; vibe, trust and intent are shown iff reciprocal reaches L2, L3, L4 and they exist; locked levels are those above |
| LevelEngine.SnapshotSymmetric | src/lib/levels/service.ts:93-96 | swapping viewer and target gives the same snapshot |
| LevelEngine.DisclosureBoundedByBothParties | src/lib/levels/service.ts:101-106 | a gated field is shown only when both parties reached its level |
| LevelEngine.SnapshotMasksAboveReciprocal | src/lib/levels/service.test.ts:66-86 | for any profile, an L1 viewer of an L3 profile sees only the basic fields; L2 to L4 are locked |
| LevelEngine.SnapshotRevealsUpToReciprocal | src/lib/levels/service.test.ts:88-107 | for any profile, an L3 viewer of an L4 profile sees up to trust; only L4 is locked |
| LevelDomain.RecordsToFields | src/lib/levels/domain-service.ts:48-76 | the loop over the records computes the payload `FieldsFromRecords` |
| LevelDomain.ApplyRecordFrame | src/lib/levels/domain-service.ts:56-73 | a record writes the field of its own level and no other |
| LevelDomain.LastRecordWins | src/lib/levels/domain-service.ts:56-73 | when records share a level, the last one's data is the field |
| LevelDomain.NoRecordNoField | src/lib/levels/domain-service.ts:49-54 | with no record for a level, basic is `{}` and the other fields are absent |
| LevelDomain.ComposeSnapshot | src/lib/levels/domain-service.ts:22-35 | the snapshot is built from the target's progress, computed from the target's own xp, thresholds and level; a throwing progress is the error |
| LevelDomain.ComposedSnapshotDiscloses | src/lib/levels/domain-service.ts:22-35 | the exposed level is the lower of the two; a filled-in tier is shown exactly when both parties reached it |
| LevelDomain.SnapshotDiscloses | src/lib/levels/service.ts:93-106 | for any fields and progress, a tier the profile has filled in is shown exactly when both the viewer's and the target's levels reach it |
| LevelDomain.LevelService.constructor | src/lib/levels/domain-service.ts:5 | the repositories hold the given data and empty unlock and view logs |
| LevelDomain.LevelService.GetProfileLevel | src/lib/levels/ports.ts:11 | the stored level, or a rejection for an unknown profile |
| LevelDomain.LevelService.GetProfileLevels | src/lib/levels/ports.ts:12 | the stored records, none for an unknown profile |
| LevelDomain.LevelService.GetProgress | src/lib/levels/ports.ts:25 | the stored xp and thresholds, or a rejection |
| LevelDomain.LevelService.SaveUnlock | src/lib/levels/ports.ts:13 | appends exactly one saved unlock |
| LevelDomain.LevelService.RecordView | src/lib/levels/ports.ts:17-21 | appends exactly one view record |
| LevelDomain.LevelService.Unlock | src/lib/levels/domain-service.ts:7-13 | returns `evaluateUnlock(attempt)` and saves it exactly once iff it succeeds, otherwise saves nothing |
| LevelDomain.LevelService.ViewOutcomeCases | src/lib/levels/domain-service.ts:15-27 | the first failing read, in argument order, is the error; on success the exposed level is the lower one and the progress is at the target's level |
| LevelDomain.LevelService.ViewSnapshot | src/lib/levels/domain-service.ts:14-44 | returns the composed outcome and appends one view record carrying the exposed level iff it succeeds |
| TreeOps.NormalizeCommentNode | src/lib/comments/tree-ops.ts:12-15 | keeps the comment and the number of replies; a missing `replies` becomes `[]` |
| TreeFacts.NormalizeWellFormed | src/lib/comments/tree-ops.ts:12-15 | a normalised node has a replies array at every depth |
| TreeFacts.NormalizeTreeWellFormed | src/lib/comments/tree-ops.ts:17-18 | a forest normalised by `TreeOps.NormalizeCommentTree` has a replies array at every depth |
| TreeFacts.NormalizeKeepsWellFormed | src/lib/comments/tree-ops.ts:12-15 | normalising a node that already has replies arrays changes nothing |
| TreeFacts.NormalizeTreeKeepsWellFormed | src/lib/comments/tree-ops.ts:17-18 | normalising a forest that already has replies arrays changes nothing |
| TreeFacts.NormalizeIdempotent | src/lib/comments/tree-ops.ts:12-15 | normalising twice is normalising once |
| TreeFacts.NormalizeTreeIdempotent | src/lib/comments/tree-ops.ts:17-18 | the same for a forest |
| TreeFacts.NormalizeKeepsShape | src/lib/comments/tree-ops.ts:12-15 | every comment and its number of replies, in pre-order, is kept |
| TreeFacts.NormalizeTreeKeepsShape | src/lib/comments/tree-ops.ts:17-18 | the same for a forest |
| Comments.OutlineLength | src/lib/comments/types.ts:12-14 | the outline has exactly one entry per node of the pre-order |
| Comments.OutlineComments | src/lib/comments/types.ts:12-14 | the outline's entries carry the pre-order's comments, position by position; every root is in the pre-order |
| Comments.OutlineSnoc | src/lib/comments/types.ts:12-14 | appending a tree to a sibling list appends its outline at the same depth |
| Comments.OutlineDepths | src/lib/comments/types.ts:12-14 | every entry of a forest's outline is at its top depth or deeper |
| Comments.OutlineNodeDepths | src/lib/comments/types.ts:12-14 | below its root, every entry of a tree's outline is strictly deeper than the root |
| Comments.OutlineDetermines | src/lib/comments/types.ts:12-14 | two well-formed forests with the same outline are the same forest, so an outline fixes the nesting and not only the order |
| TreeOps.FindCommentNode | src/lib/comments/tree-ops.ts:136-149 | a node that is found carries the id asked for |
| TreeFacts.FindIsFirstInPreorder | src/lib/comments/tree-ops.ts:136-149 | the result is the normalised first node with the id in pre-order, or null when no node has it |
| TreeFacts.FindSucceedsIff | src/lib/comments/tree-ops.ts:136-149 | non-null iff some node has the id, and then the found node has it |
| TreeFacts.InsertCommentNodeSpec | src/lib/comments/tree-ops.ts:20-46 | of `TreeOps.InsertCommentNode`: the result is well formed; a node without a parent becomes the last root; a missing parent leaves the input; for a parent that occurs once, the outline (from any top depth) gains the normalised node's outline right after the parent's subtree, one level below the parent, so the node is the parent's last reply, and every other comment keeps its depth and relative place |
| TreeFacts.InsertThenFind | src/lib/comments/tree-ops.ts:20-46 | after inserting under a parent that occurs once, the new node is found and the forest grows by exactly its subtree |
| TreeEditFacts.ReplaceCommentNodeSpec | src/lib/comments/tree-ops.ts:48-79 | of `TreeOps.ReplaceCommentNode`: the result is well formed; an absent target leaves the input; the id is gone when the replacement does not carry it; for a target that occurs once, the target's subtree in the outline is replaced by the normalised replacement's outline at the target's depth, and every other comment keeps its depth and relative place |
| TreeEditFacts.RemoveCommentNodeSpec | src/lib/comments/tree-ops.ts:81-102 | of `TreeOps.RemoveCommentNode`: the result is well formed and no node carries the id; an absent id leaves the input; the top level loses exactly its nodes with the id; for a target that occurs once, exactly the target's subtree leaves the outline, and every other comment keeps its depth and relative place |
| TreeEditFacts.UpdateEachIsReplace | src/lib/comments/tree-ops.ts:113-134 | updating is replacing the matched node with the updater's output on the normalised node |
| TreeEditFacts.UpdateCommentNodeSpec | src/lib/comments/tree-ops.ts:104-134 | of `TreeOps.UpdateCommentNode`: the result is well formed; an absent id leaves the input; for a unique id, the update is `replaceCommentNode` with `updater(normalize(node))` for the node `findCommentNode` returns, so the outline splice above applies |
| StableSort.SortBySortedPermutation | src/lib/comments/tree-builder.ts:9-10 | the sort by `createdAt` is ascending and a permutation of its input |
| StableSort.SortByStable | src/lib/comments/tree-builder.ts:9-10 | comments with equal `createdAt` keep their relative order |
| TreeBuilder.LastCommentWins | src/lib/comments/tree-builder.ts:11-13 | with duplicated ids, the id maps to its last comment in sorted order |
| TreeBuilder.EnterAll | src/lib/comments/tree-builder.ts:11-13 | the first loop leaves one reply-less node per distinct id, holding its last comment, keys in first-entry order |
| TreeBuilder.AttachAll | src/lib/comments/tree-builder.ts:15-21 | the second loop gives each node the keys attached to it, and the roots the unattached keys, in map order |
| TreeBuilder.AttachOne | src/lib/comments/tree-builder.ts:15-21 | one callback of the second loop keeps the loop's invariant: after one more key, every node's replies are the visited keys attached to it and the roots are the visited unattached keys |
| TreeBuilder.EachCommentPlacedOnce | src/lib/comments/tree-builder.ts:12-21 | every comment's id has a node; it is a root iff its parent is falsy or has no node, a reply of `p` iff `p` is its parent, and listed there once |
| TreeBuilder.RootsAndRepliesAscending | src/lib/comments/tree-builder.ts:9-21 | with unique ids, roots and each node's replies are in ascending `createdAt` |
| TreeBuilder.BuildTree | src/lib/comments/tree-builder.ts:5-24 | one node per distinct id, holding its last comment in creation order; each node's replies and the roots are the keys attached there, in map order; every reply names its node as parent, every root names no parent in the map, and the forest returned is `BuiltForest` |
| TreeBuilder.AttachedLinked | src/lib/comments/tree-builder.ts:15-21 | after the second loop every reply names its node as parent, the roots are exactly the unattached nodes, and no node is pushed twice |
| TreeBuilder.BuiltForest | src/lib/comments/tree-builder.ts:15-23 | the returned forest has a replies array at every depth, its top-level ids are the roots in order, and at every depth each node carries its map entry's comment with its replies in the order they were pushed |
| TreeBuilder.BuiltForestHolds | src/lib/comments/tree-builder.ts:15-23 | an id is in the forest iff some comment has it and its `parentId` chain through the map ends at a node with no parent in the map; comments on or below a parent cycle are dropped |
| TreeBuilder.BuiltForestEachOnce | src/lib/comments/tree-builder.ts:9-23 | without a parent cycle, every input id is in the forest exactly once and no other id is |
| TreeBuilder.BuiltForestIds | src/lib/comments/tree-builder.ts:9-23 | with unique ids and no parent cycle, the forest's ids are exactly the input's ids, as multisets |
| TreeBuilder.BuiltRepliesAscending | src/lib/comments/tree-builder.ts:9-21 | with unique ids, every reply list of the map is in ascending `createdAt` |
| TreeBuilder.BuiltForestSorted | src/lib/comments/tree-builder.ts:9-23 | with unique ids, the roots and every node's replies in the returned forest, at every depth, are in ascending `createdAt` |
| CommentArena.AcyclicReachesRoot | src/lib/comments/tree-builder.ts:15-21 | when no node is its own ancestor, following parents from any node ends at an unattached node |
| CommentArena.MaterializeHolds | src/lib/comments/tree-builder.ts:15-23 | a forest read out of a map holds a node exactly when its parent chain ends at an unattached node |
| CommentArena.MaterializeEachOnce | src/lib/comments/tree-builder.ts:15-23 | without cycles, with roots and replies recorded once, the forest read out of a map holds every key exactly once |
| CommentArena.ForestShowsInOrder | src/lib/comments/tree-builder.ts:15-23 | the forest read out of a map keeps every recorded reply list in its order, at every depth |
| CommentArena.InOrderSorted | src/lib/comments/tree-builder.ts:15-23 | when every recorded reply list is ascending, a node read out in order has ascending siblings at every depth |
| FeedDemo.DemoState.constructor | src/lib/demo/feed-demo.ts:25-59 | the seeded thread and its two comments, each hearted by the partner, for the configured viewer |
| FeedDemo.ById | src/lib/demo/feed-demo.ts:167 | `find` returns a stored comment with the id |
| FeedDemo.Toggled | src/lib/demo/feed-demo.ts:173-178 | the reactor's membership flips, nobody else's changes, and the size moves by one |
| FeedDemo.ToggledTwice | src/lib/demo/feed-demo.ts:173-178 | toggling twice restores the heart set |
| FeedDemo.ToggleIn | src/lib/demo/feed-demo.ts:162-188 | an unknown comment is `COMMENT_NOT_FOUND`; otherwise only the first comment with the id changes, by toggling its hearts, and `isActive` and `total` report the new heart set |
| FeedDemo.ToggleTwiceRestores | src/lib/demo/feed-demo.ts:162-188 | toggling the same heart twice restores all comments, the second reaction reporting the opposite state |
| FeedDemo.DemoState.ToggleDemoHeart | src/lib/demo/feed-demo.ts:162-188 | the error changes nothing; otherwise the comments and the reaction are those of `ToggleIn`, with no banner |
| FeedDemo.DemoState.SubmitDemoComment | src/lib/demo/feed-demo.ts:129-160 | appends exactly one comment without hearts at the end and returns its node with 0 hearts, not hearted, no replies |
| FeedDemo.EnterNodes | src/lib/demo/feed-demo.ts:81-93 | the first loop gives every stored comment a node with its fields, `|hearts|` as count and whether the viewer is in `hearts` |
| FeedDemo.LinkReplies | src/lib/demo/feed-demo.ts:95-104 | the second loop gives each node the comments naming it as parent, in list order |
| FeedDemo.LinkOne | src/lib/demo/feed-demo.ts:95-104 | one callback of the second loop keeps the invariant: after one more comment, every node's replies are the visited comments naming it as parent |
| FeedDemo.PickRoots | src/lib/demo/feed-demo.ts:106-109 | the roots are the comments without a truthy parent, in list order |
| FeedDemo.DemoState.BuildCommentNodes | src/lib/demo/feed-demo.ts:78-112 | the result is the forest `Feed` of the stored comments, whose properties the next lemmas state (`FeedShows`: placement; `FeedRoots`: roots and order; `FeedNodes`: node contents) |
| FeedDemo.FeedRoots | src/lib/demo/feed-demo.ts:106-111 | the top-level nodes are exactly the comments without a parent, each once, sorted at every depth |
| FeedDemo.FeedNodes | src/lib/demo/feed-demo.ts:81-109 | every node shows its stored comment, with `heartCount == |hearts|` and hearted iff the viewer is in `hearts`; a comment with a missing parent appears nowhere |
| FeedDemo.FeedShows | src/lib/demo/feed-demo.ts:95-111 | at every depth of the returned forest, each node carries its stored comment and its replies are, as a multiset, exactly the comments naming it as parent |
| FeedDemo.DemoState.LoadDemoFeedData | src/lib/demo/feed-demo.ts:114-127 | the thread, the built forest, no banner and the viewer id |
| FeedDemo.SortEach | src/lib/demo/feed-demo.ts:72-75 | one node per input node, in place, carrying the same comment |
| FeedDemo.SortTreeAsWritten | src/lib/demo/feed-demo.ts:69-76 | sorting the siblings first and the replies after gives the same forest |
| FeedDemo.SortTreeSorted | src/lib/demo/feed-demo.ts:69-76 | in the result of `FeedDemo.SortTree`, every sibling list, at every depth, is in ascending `createdAt` |
| FeedDemo.SortTreeKeepsComments | src/lib/demo/feed-demo.ts:69-76 | every comment of the forest is kept, as often as before |
| FeedDemo.SortTreeRoots | src/lib/demo/feed-demo.ts:69-71 | the top-level ids are kept with their multiplicities |
| FeedDemo.SortTreeShows | src/lib/demo/feed-demo.ts:69-76 | a forest whose nodes show their map entries still does after `FeedDemo.SortTree`: the sort only reorders siblings |
| Reactions.BuildLikedTargets | src/lib/adapters/supabase/reaction-repository.ts:114-120 | the loop computes the map `LikedTargets` |
| Reactions.LikedTargetsLastWins | src/lib/adapters/supabase/reaction-repository.ts:114-120 | an author is a key iff the viewer liked one of their comments and is not that author; the value is the last such comment id |
| Reactions.FindMutual | src/lib/adapters/supabase/reaction-repository.ts:122-127 | null iff no row is from a truthy reactor other than the viewer who is in `likedTargets`; otherwise the first such row |
| Reactions.MatchBanner | src/lib/adapters/supabase/reaction-repository.ts:114-145 | a banner names the viewer and carries the clock's time; its partner is neither empty nor the viewer, and the viewer's liked comment id is not empty |
| Reactions.MatchBannerSpec | src/lib/adapters/supabase/reaction-repository.ts:114-145 | no mutual row means no banner; a banner names the viewer, the first mutual reactor, the comment the viewer liked of theirs and the comment they liked |
| Reactions.MatchBannerExample | src/lib/adapters/supabase/reaction-repository.ts:114-145 | two users hearting each other's comments get the banner pairing those comments; a self-like is ignored |
| Reactions.FetchMutualLikeBanner | src/lib/adapters/supabase/reaction-repository.ts:90-146 | a failed query throws its message, the first query's failure first; otherwise the match |
| Reactions.GetMutualLikeBanner | src/lib/adapters/supabase/reaction-repository.ts:163-175 | null for an empty viewer id or any failure; otherwise the match |
| Reactions.Lookup | src/lib/adapters/supabase/reaction-repository.ts:31-48 | the id of a row for the comment and reactor, or null iff there is none |
| Reactions.CountAppend | src/lib/adapters/supabase/reaction-repository.ts:76-88 | an inserted heart raises its comment's count by one and no other count |
| Reactions.CountRemove | src/lib/adapters/supabase/reaction-repository.ts:76-88 | a deleted heart lowers its comment's count by one and no other count |
| Reactions.ReactionStore.UpsertReaction | src/lib/adapters/supabase/reaction-repository.ts:50-74 | an existing row is deleted and the answer is false; otherwise one heart is inserted and the answer is true |
| Reactions.ReactionStore.ToggleHeart | src/lib/adapters/supabase/reaction-repository.ts:154-161 | active afterwards iff it was not before; `total` is the new count, one more or one less; no other pair changes; the table stays valid |
| CommentRepository.NormalizeComment | src/lib/adapters/supabase/comment-repository.ts:30-45 | a comment with the row's fields, the recorded heart count or 0, hearted iff the id is in the viewer's set |
| CommentRepository.CountHearts | src/lib/adapters/supabase/comment-repository.ts:109-116 | the counting loop computes the map `CountsOf` |
| CommentRepository.CountsOfSpec | src/lib/adapters/supabase/comment-repository.ts:109-116 | an id's count is the number of rows carrying it; an id is a key iff it occurs; empty ids are skipped |
| CommentRepository.FetchHeartCounts | src/lib/adapters/supabase/comment-repository.ts:91-117 | no ids give an empty map without a query; a failed query throws its message; otherwise the counts |
| CommentRepository.SafeFetchHeartCounts | src/lib/adapters/supabase/comment-repository.ts:119-129 | a failure becomes the empty map |
| CommentRepository.CollectHeartedIds | src/lib/adapters/supabase/comment-repository.ts:82-88 | the loop collects exactly the non-empty comment ids of the rows |
| CommentRepository.SafeFetchViewerHearted | src/lib/adapters/supabase/comment-repository.ts:66-89 | a failed query gives the empty set; otherwise exactly the non-empty comment ids of the rows |
| CommentRepository.ListByThread | src/lib/adapters/supabase/comment-repository.ts:150-164 | no rows or a failed select give `[]`; otherwise one comment per row in row order, with the row's fields, its count among the heart rows, and hearted iff a truthy viewer's rows hold its id |
| CommentRepository.CreateDraft | src/lib/adapters/supabase/comment-repository.ts:166-175 | the supplied id and clock; a missing parent becomes null; the other fields are copied |
| CommentRepository.PersistComment | src/lib/adapters/supabase/comment-repository.ts:177-196 | an error throws its message and no row throws the save-failed message; otherwise the saved row with 0 hearts, not hearted |

## Left out

- The database clients, query construction and error logging are not part of this model. Query results are inputs: rows, or the message of a failed query. A `null` result set is read as no rows.
- The four reads of `viewSnapshot` run under `Promise.all` in the source. The model reads them one after the other, and when several reads fail it reports the first in argument order.
- Floating point: `percent` is a `real`, so IEEE rounding is not modelled.
- ISO date strings are integer timestamps. `Date.now`, `new Date()` and `randomUUID` are parameters; a supplied id is required to be fresh, as a random UUID is taken to be.
- The `globalThis` singleton of the demo store is one `DemoState` instance. `DEMO_VIEWER_ID` is a constructor parameter.
- `Reactions.ReactionStore.ToggleHeart` does not model the failure paths of its three database calls. The table is assumed to hold at most one heart per comment and reactor, so `maybeSingle` never fails.
- `TreeBuilder.BuildTree` sorts a copy of its input. The source's `comments.sort` also reorders the caller's array in place; the model does not show that side effect.
- `TreeBuilder.BuildTree` returns the id map, each node's reply ids and the root ids. The nested `CommentNode` values it hands back are `TreeBuilder.BuiltForest`, read out of the map by following reply ids down from the roots. That those nodes are objects shared with the map, so a later change to one shows in both, is not modelled. The comments of a parent cycle, and those below one, are never roots and never below a root, so they are dropped from the forest; this does not stop the forest from being built.
- `TreeEditFacts.ReplaceCommentNodeSpec`, `TreeEditFacts.RemoveCommentNodeSpec`, `TreeEditFacts.UpdateCommentNodeSpec` and `TreeFacts.InsertCommentNodeSpec` state the exact resulting outline only for an id that occurs once. When an id occurs several times, only the absent-id, id-gone and well-formedness parts are stated. The source edits every match.
- `TreeOps.FindCommentNode`, `TreeOps.InsertCommentNode`, `TreeOps.ReplaceCommentNode`, `TreeOps.RemoveCommentNode`, `TreeOps.UpdateCommentNode` and the lemmas about them require a forest whose nodes all carry a replies array, as the declared type demands. A node without one can make the source throw where it reads `.replies` of a node it does not match. The requirement also excludes some inputs the source accepts: an insert whose new node names no parent never reads `.replies` (src/lib/comments/tree-ops.ts:22-23); a matched node's own replies are not read by replace, remove, update or find (65-67, 86-88, 120-122, 138-139); and find reads no node after its first match.
- The CSS padding table of `tree-ops.ts` is presentation.
- The thread, profile and profile-level repositories and the delegating services are not part of this model.
- Conflicting concurrent unlocks are not modelled; the source does nothing about them.
- `LevelDomain.LevelService.SaveUnlock` and `LevelDomain.LevelService.RecordView` always succeed, as in-memory repositories. A rejected `saveUnlock` or `recordView` would make `unlock` or `viewSnapshot` reject after the decision or snapshot was computed (src/lib/levels/domain-service.ts:10 and 37-41); that failure path is not modelled.
- `CreateCommentInput` and `CommentDraft` are declared without `authorId` in the types, but the code reads and writes that field. The model follows the code.
- `Reactions.MatchBannerSpec`: as in the code, a mutual partner whose recorded comment id is empty yields no banner, even though a match was found.
