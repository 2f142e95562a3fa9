# Per-channel pagination cache of post ids

This project models `postsInChannel`, the reducer that keeps, for each
channel, the posts a client has loaded. The posts are kept as a list of
*blocks*. A block is a contiguous run of post ids, newest first, together with
two boundary ids:

- `next_post_id` is the post just after the run. It is `''` when the run holds
  the newest post of the channel; such a block is the *head* block.
- `prev_post_id` is the post just before the run. It is `''` when the run
  starts at the channel's oldest post.

The model covers:

- the reducer's arms for a new post, a received page of posts, a deleted
  post, logout, and every other action;
- `mergeIds`, which joins two id lists without repeating shared ids;
- `iteratePostIds`, the walk over every id a channel's blocks hold, and the
  two locators built on it, `findPostIndicesForDelete` and
  `findPostIndicesForRemove`;
- `removePostsFromBlock` and `removePostsFromBlocks`, which cut the located
  positions out of the blocks.

The modules follow the source:

- `Blocks` (`blocks.dfy`) holds the data model: `Block`, the state as a map
  from channel id to blocks, and `Pos`, a position inside a block. `Pos`
  replaces the reserved indices `PREV_POST_INDEX = -1` and
  `NEXT_POST_INDEX = -2`. This module also holds the counting of head blocks
  and of ids.
- `Merge` (`merge_ids.dfy`) holds `mergeIds`.
- `Locator` (`locator.dfy`) holds the walk and the two locators.
- `Compaction` (`compaction.dfy`) holds the two removal functions.
- `Reducer` (`reducer.dfy`) holds the reducer's arms.
- `Removal` (`removal.dfy`) relates the locators to compaction.

Each loop of the source is a method. The method works on local `seq` and `map`
values, the way the source works on fresh copies, and it is proved equal to a
pure function. The properties are lemmas about that function. Nothing in the
source updates an object's fields in place apart from freshly made copies, so
there are no classes.

## Model

| member | source | states |
|---|---|---|
| Merge.MergeIds | new_post_reducer.js:174-187 | The loop returns `left` followed by the ids of `right` that are not in `left`, in `right`'s order (`Merged`). |
| Merge.UnseenMembers | new_post_reducer.js:177-184 | The ids pushed after `left` are exactly the ids of `right` that are not in the set built from `left`. |
| Merge.MergedShape | new_post_reducer.js:160-187 | `left` is a prefix of the result. The result's length lies between `|left|` and `|left| + |right|`. Its ids are the union of both inputs' ids. |
| Merge.MergedSelf | new_post_reducer.js:174-187 | Merging a list with itself returns that list. |
| Merge.MergedEmpty | new_post_reducer.js:174-187 | Merging into an empty list, or merging an empty list in, returns the other list. |
| Merge.MergedNoDuplicates | new_post_reducer.js:162-163 | When neither input repeats an id, the result repeats none, and its ids are those of both inputs. |
| Merge.MergedAssociative | new_post_reducer.js:100 | The nested merge of the join case equals merging in the other grouping, for all inputs. |
| Locator.IteratePostIds | new_post_reducer.js:239-252 | The nested loops make exactly the callbacks of `Walk`. For each block in index order, they report its previous boundary, its next boundary, then each id. |
| Locator.WalkLength | new_post_reducer.js:241-252 | `Walk`, the list of every callback, has two callbacks per block, one for each boundary, plus one per id of the block. |
| Locator.WalkAt | new_post_reducer.js:241-252 | The callback for position `p` of block `i` is made at index `Offset(blocks, i) + Rank(p)` and reports the id held there. |
| Locator.WalkVisit | new_post_reducer.js:241-252 | Every callback names an existing block and a valid position in it, reports the id held at that position, and comes at that position's index. |
| Locator.WalkOrder | new_post_reducer.js:239-240 | A later callback never has a smaller block index. Within one block the order is the previous boundary, then the next boundary, then ascending offsets. |
| Locator.RecordCases | new_post_reducer.js:226-233 | One callback of `findPostIndicesForRemove`: a collected id appends its position to its block's list, and starts that list when the block has none. Every other block's list stays as it was. An id that is not collected leaves the map unchanged. |
| Locator.CollectGrows | new_post_reducer.js:200-213 | Folding further callbacks into the map keeps every existing key, and each list is a prefix of what it becomes: positions are only ever appended. |
| Locator.LocatedExactly | new_post_reducer.js:226-233 | A block's collected positions are exactly its valid positions whose id is collected, in strictly ascending walk order. |
| Locator.LocatedMapExactly | new_post_reducer.js:221-237 | Every key of the collected map is an existing block with a non-empty list. A valid position is listed exactly when its id is collected. |
| Locator.CollectWalk | new_post_reducer.js:224-236 | Folding the callback over the whole walk gives the per-block map of collected positions. |
| Locator.FindPostIndicesForRemove | new_post_reducer.js:221-237 | The returned map equals `LocatedMap` for the post together with its comments. A position is listed exactly when it holds the post or a post whose `root_id` is the post. Keys are existing blocks and lists are never empty. Each list is sorted in walk order. |
| Locator.NoVisitHolds | new_post_reducer.js:200-205 | An id the walk never reports is held at no position. |
| Locator.LastVisitHolds | new_post_reducer.js:200-205 | The position of the walk's last report of an id holds that id, and no later position does. |
| Locator.FindPostIndicesForDelete | new_post_reducer.js:192-219 | `comments` equals `LocatedMap` for the comments alone. `post` is None exactly when no position holds the post. Otherwise `post` holds the post and no later position in walk order does, so the last occurrence wins. |
| Locator.DeleteCommentsAreRemoveMinusPost | new_post_reducer.js:196-237 | A position is among the delete locator's comments exactly when the remove locator lists it and it does not hold the post itself. |
| Compaction.RemoveAt | new_post_reducer.js:288-302 | One pass of the loop body. The id count drops by one for a valid position of a non-empty block and is otherwise unchanged. No id is added. |
| Compaction.RemoveAll | new_post_reducer.js:284-303 | Applying the positions from the last to the first never lengthens the ids and adds no id. |
| Compaction.RemovePostsFromBlock | new_post_reducer.js:277-306 | The backward loop over a copy of the block returns `RemoveAll(block, postIndices)`. |
| Compaction.RemoveOffsets | new_post_reducer.js:284 | Removing ascending offsets from the last to the first removes exactly the ids at those offsets of the original block. This is the purpose of the backward loop. |
| Compaction.RemoveBoundaries | new_post_reducer.js:288-296 | Removing the listed boundaries has this effect: a removed next boundary takes the first id (or `''`) and drops it; then a removed previous boundary does the same with the last remaining id. |
| Compaction.BoundarySteps | new_post_reducer.js:288-296 | The boundary passes of the loop, applied to a given list of ids. They remove at most one id for each listed boundary and add none. An unlisted boundary stays as it was. |
| Compaction.RemoveInLocatorOrder | new_post_reducer.js:284-303 | For a list in the locators' shape (previous boundary, next boundary, ascending offsets), the offsets come out of the original ids first, and the boundary steps then act on the surviving ids. |
| Compaction.Applied | new_post_reducer.js:257-260 | The first loop keeps the number of blocks. A block that is not a key is unchanged. No block gains an id or grows longer. |
| Compaction.NonEmpty | new_post_reducer.js:262-269 | The kept blocks all hold an id and are never more than the input. |
| Compaction.NonEmptyMembers | new_post_reducer.js:262-269 | A block is kept exactly when it is in the input and holds an id. |
| Compaction.RemoveEmptyBlocks | new_post_reducer.js:262-269 | The backward splice loop returns the non-empty blocks in their original order. |
| Compaction.RemovePostsFromBlocks | new_post_reducer.js:254-275 | For a map whose keys are existing blocks, the result is every listed block with its positions removed, then every empty block dropped. |
| Removal.BoundaryStepsMiss | new_post_reducer.js:288-296 | When no remaining id and no unlisted boundary is collected, the boundary passes leave no position whose id is collected. This needs `''` not to be collected, or an id to be left: a removed boundary becomes `''` only when no id remains to take its place. |
| Removal.BoundaryStepsKeep | new_post_reducer.js:288-296 | Every one of the remaining ids is still in the block after the boundary passes, among its ids or as one of its boundaries. |
| Removal.CompactedBlock | new_post_reducer.js:277-306 | Removing a block's own collected positions leaves no position whose id is collected, when `''` is not collected or the block still holds an id. Every id that is not collected stays in the block, among its ids or as a boundary. |
| Removal.InteriorHitsNone | new_post_reducer.js:248-250 | A block whose ids from some offset on are none of them collected yields no interior positions from that offset. |
| Removal.MissesLocateNothing | new_post_reducer.js:226-233 | A block none of whose positions holds a collected id yields no positions. |
| Removal.AppliedMisses | new_post_reducer.js:257-260 | After the located positions are removed, a block that still holds an id yields no positions when located again. |
| Removal.RemovedPostsAreGone | new_post_reducer.js:221-306 | Locating a post and its comments, removing every reported position, dropping the empty blocks and locating again finds nothing. This holds for every post id and every map of posts. |
| Reducer.FindFirst | new_post_reducer.js:15 | The result is None exactly when no block matches. Otherwise it is the index of a matching block with no match before it (`findIndex`). |
| Reducer.OnNewPost | new_post_reducer.js:5-35 | A new post keeps the set of channels, leaves every other channel alone and keeps the channel's block count. |
| Reducer.NewPostCases | new_post_reducer.js:5-35 | The post is dropped when the channel is not loaded or has no head block. Otherwise the first head block, and only it, gains the id in front and keeps `''` and its previous boundary. |
| Reducer.NewPostKeepsOneHead | new_post_reducer.js:14-29 | A channel with at most one head block still has at most one. |
| Reducer.NewPostIds | new_post_reducer.js:23-29 | A stored new post adds exactly its id to the ids the channel holds. |
| Reducer.TouchingBlocks | new_post_reducer.js:47-59 | The `forEach` returns the first block that the page's `prev_post_id` touches and the first that its `next_post_id` touches. Touching means being the boundary on that side or being held. |
| Reducer.ReceivedPostsForChannel | new_post_reducer.js:37-111 | The copy, the search and the case split give `OnReceivedPosts`. |
| Reducer.OnReceivedPosts | new_post_reducer.js:107-110 | The channel becomes a key and every other channel is unchanged. |
| Reducer.ReceivedPostsNoop | new_post_reducer.js:61-65 | When both ends first touch the same block, the state is returned unchanged. |
| Reducer.ReceivedPostsFirstLoad | new_post_reducer.js:43 | A page for a channel that is not loaded becomes its only block. |
| Reducer.OlderIntoShape | new_post_reducer.js:74-82 | The block the newer end touches keeps its ids in front and its newer boundary, holds the ids of both itself and the page, and ends where the page ends. |
| Reducer.NewerIntoShape | new_post_reducer.js:83-91 | The page's ids come first, the block holds the ids of both the page and the block the older end touches, starts where the page starts and keeps that block's older boundary. |
| Reducer.BridgeShape | new_post_reducer.js:98-102 | The joined block starts with the ids of the block the newer end touches and holds the ids of all three. It runs from that block's newer boundary to the older boundary of the block the older end touches. |
| Reducer.Join | new_post_reducer.js:97-104 | Replacing the previous block and splicing out the next leaves one block fewer. |
| Reducer.MergePage | new_post_reducer.js:61-105 | The case split on the two indices found changes the number of blocks by at most one. |
| Reducer.ReceivePage | new_post_reducer.js:50-105 | The search and the case split change the number of blocks by at most one. |
| Reducer.JoinShape | new_post_reducer.js:97-104 | Replacing the previous block and splicing out the next leaves one block fewer: the joined block at the previous block's new index, and every other block in its order. |
| Reducer.ReceivePageCases | new_post_reducer.js:61-105 | A no-op returns the blocks. With no overlap the page block is appended. A one-sided overlap keeps the count and every untouched block. Joining two blocks lowers the count by one. |
| Reducer.ReceivePageIds | new_post_reducer.js:67-105 | No id is lost and only ids of the page are added. Unless the page is a no-op, all of the page's ids are added. |
| Reducer.ReceivePageTwice | new_post_reducer.js:61-105 | Receiving the same page a second time changes nothing exactly when `NoNewerTouchBetween` holds. That predicate fails only when two blocks are joined, the block the newer end touches comes before the block the older end touches, and a block between them also touches the newer end. |
| Reducer.ReceivedPostsTwice | new_post_reducer.js:37-111 | The same equivalence for the whole state: a second receive returns the state unchanged exactly when `NoNewerTouchBetween` holds for the channel's blocks. |
| Reducer.JoinedMergesAgain | new_post_reducer.js:92-105 | When a block between the two joined blocks touches the page's newer end, the second receive joins two blocks again, so it changes the blocks. |
| Reducer.JoinedTouchedAgain | new_post_reducer.js:51-65 | After a join with no such block in between, both ends of the page first touch the same block of the result, the joined one. |
| Reducer.ReceivePageKeepsOneHead | new_post_reducer.js:67-105 | A channel with at most one head block still has at most one after a page is received. |
| Reducer.ReceivePageNoDuplicates | new_post_reducer.js:74-105 | When every block and the page are free of repeated ids, so is every block afterwards. |
| Reducer.Reduce | new_post_reducer.js:3-158 | Logout empties the state. A deleted post and any other action return the state. A new post keeps the keys. A page adds its channel. Both leave other channels alone. |
| Reducer.PostsInChannel | new_post_reducer.js:3-158 | The `switch` computes `Reduce`. |
| Reducer.ReduceKeepsOneHead | new_post_reducer.js:3-158 | No action gives any channel a second head block. |

## Left out

- The `REMOVE_PENDING_POST` / `REMOVE_POST` arm (new_post_reducer.js:127-151) is not modelled. It calls `findPostIndices` and `removePosts`, which are defined nowhere in the file, so it cannot run as written. `Action` has no constructor for it. The parts it would be built from are modelled: both locators, both removal functions, and `Removal.RemovedPostsAreGone`.
- `POST_DELETED` returns the state on both of its paths. Updating the root post and removing comments exist only as TODO comments, so the model returns the state.
- Redux plumbing is not modelled: the action-type constants, the `state = {}` default and the shape of the action object. A no-op arm returns the very same `state` object; the model can only state value equality.
- The `prevPosts` and `nextPosts` parameters are not modelled. `prevPosts` is used only by the REMOVE_POST arm (new_post_reducer.js:136), and `nextPosts` is used nowhere.
- `posts` in the locators is a map from a post id to that post's `root_id`. A post object without `root_id` is represented by leaving its id out of the map.
- `Merge.MergeIds` does not check either of the assumptions in new_post_reducer.js:162-165, and neither does the source. `Merge.MergedNoDuplicates` takes the first assumption (no repeats) as a precondition. The second assumption (both lists ordered the same way) is not stated.
- Merging blocks that become adjacent after a removal is not modelled. The source does not do it either (new_post_reducer.js:271-272).
- Compaction.RemovePostsFromBlocks: the JavaScript `Map` is visited in insertion order; the model's loop takes the keys in any order. Distinct keys change distinct blocks, so the result is the same.
- Compaction.RemovePostsFromBlocks requires every key to name an existing block. For any other key the source reads a field of `undefined` and throws.
- Interior offsets are natural numbers. Negative indices other than the two reserved ones cannot be expressed.
- Removal.CompactedBlock promises no collected position only when `''` is not collected or the block keeps an id. This is how the source behaves: removing a boundary resets it to `''` when no id is left, so a collected `''` is found again. Such a block has no ids, and `removePostsFromBlocks` drops it, so `Removal.RemovedPostsAreGone` needs no such premise.
- The test file's fixtures and `deepFreeze` are not modelled.
