/** The reducer `postsInChannel`: how each action changes the blocks known
    for a channel. */
module Reducer {
  import opened Blocks
  import opened Merge

  /** A page of posts fetched from the server: `order` is newest first, and
      the two ids name the posts just outside the page. */
  datatype PostList = PostList(nextPostId: string, order: seq<string>, prevPostId: string)

  /** The actions the reducer distinguishes. `Other` stands for every action
      type the reducer does not handle. */
  datatype Action =
    | ReceivedNewPost(channelId: string, postId: string)
    | ReceivedPostsForChannel(channelId: string, data: PostList)
    | PostDeleted(channelId: string, postId: string)
    | LogoutSuccess
    | Other

  /** What a search over the blocks of a channel looks for: the head block,
      the block a page's `prevPostId` touches, or the block its `nextPostId`
      touches. A block touches an id when its boundary on that side is the id
      or when it holds the id. */
  datatype Probe = Head | PrevOf(id: string) | NextOf(id: string)

  predicate Matches(b: Block, probe: Probe)
  {
    match probe
    case Head => IsHead(b)
    case PrevOf(id) => b.prevPostId == id || id in b.postIds
    case NextOf(id) => b.nextPostId == id || id in b.postIds
  }

  /** The index of the first block that matches `probe` (`findIndex`, and the
      first-hit-wins guards of the `forEach`). */
  function FindFirst(blocks: seq<Block>, probe: Probe): (r: Option<nat>)
    ensures r.None? <==> forall i :: 0 <= i < |blocks| ==> !Matches(blocks[i], probe)
    ensures r.Some? ==> r.value < |blocks| && Matches(blocks[r.value], probe)
    ensures r.Some? ==> forall i :: 0 <= i < r.value ==> !Matches(blocks[i], probe)
  {
    if blocks == [] then None
    else
      assert forall i :: 1 <= i < |blocks| ==> blocks[i] == blocks[1..][i - 1];
      if Matches(blocks[0], probe) then Some(0)
      else match FindFirst(blocks[1..], probe)
        case None => None
        case Some(k) => Some(k + 1)
  }

  /** The search reports `k` when block `k` is the first that matches. */
  lemma FindFirstIs(blocks: seq<Block>, probe: Probe, k: nat)
    requires k < |blocks| && Matches(blocks[k], probe)
    requires forall i :: 0 <= i < k ==> !Matches(blocks[i], probe)
    ensures FindFirst(blocks, probe) == Some(k)
  {
    var r := FindFirst(blocks, probe);
    if r.value < k {
      assert false;
    }
  }

  // RECEIVED_NEW_POST

  /** The state after a new post arrives: when the channel is loaded and has a
      head block, the id is put in front of the first head block's ids. */
  function OnNewPost(state: State, channelId: string, postId: string): (r: State)
    ensures r.Keys == state.Keys
    ensures forall c :: c in state && c != channelId ==> r[c] == state[c]
    ensures channelId in state ==> |r[channelId]| == |state[channelId]|
  {
    if channelId !in state then state
    else
      var blocks := state[channelId];
      match FindFirst(blocks, Head)
      case None => state
      case Some(h) =>
        state[channelId := blocks[h := Block(EMPTY, [postId] + blocks[h].postIds, blocks[h].prevPostId)]]
  }

  /** A new post is dropped when the channel is not loaded or has no head
      block; otherwise the first head block, and only it, gains the id as its
      newest post and keeps its boundaries. */
  lemma NewPostCases(state: State, channelId: string, postId: string)
    ensures channelId !in state ==> OnNewPost(state, channelId, postId) == state
    ensures channelId in state && (forall i :: 0 <= i < |state[channelId]| ==> !IsHead(state[channelId][i]))
            ==> OnNewPost(state, channelId, postId) == state
    ensures forall h ::
              channelId in state && 0 <= h < |state[channelId]| && IsHead(state[channelId][h])
              && (forall i :: 0 <= i < h ==> !IsHead(state[channelId][i]))
              ==> (var blocks, after := state[channelId], OnNewPost(state, channelId, postId)[channelId];
                   && after[h] == Block(EMPTY, [postId] + blocks[h].postIds, blocks[h].prevPostId)
                   && forall i :: 0 <= i < |blocks| && i != h ==> after[i] == blocks[i])
  {
    if channelId in state {
      var blocks := state[channelId];
      forall h | 0 <= h < |blocks| && IsHead(blocks[h]) && (forall i :: 0 <= i < h ==> !IsHead(blocks[i]))
        ensures FindFirst(blocks, Head) == Some(h)
      {
        var r := FindFirst(blocks, Head);
        assert Matches(blocks[h], Head);
        if r.value < h {
          assert false;
        }
      }
    }
  }

  /** A new post never creates a second head block. */
  lemma NewPostKeepsOneHead(state: State, channelId: string, postId: string)
    requires channelId in state && AtMostOneHead(state[channelId])
    ensures AtMostOneHead(OnNewPost(state, channelId, postId)[channelId])
  {
    var blocks := state[channelId];
    match FindFirst(blocks, Head)
    case None =>
    case Some(h) =>
      HeadCountUpdate(blocks, h, Block(EMPTY, [postId] + blocks[h].postIds, blocks[h].prevPostId));
  }

  /** A stored new post adds exactly its id to the ids the channel holds. */
  lemma NewPostIds(state: State, channelId: string, postId: string)
    requires channelId in state && FindFirst(state[channelId], Head).Some?
    ensures Ids(OnNewPost(state, channelId, postId)[channelId]) == Ids(state[channelId]) + {postId}
  {
    var blocks := state[channelId];
    var h := FindFirst(blocks, Head).value;
    var b := Block(EMPTY, [postId] + blocks[h].postIds, blocks[h].prevPostId);
    assert Elems(b.postIds) == {postId} + Elems(blocks[h].postIds);
    IdsGrow(blocks, h, b);
    IdsSplit(blocks, h);
  }

  // RECEIVED_POSTS_FOR_CHANNEL

  /** The blocks of a channel, empty when the channel is not loaded. */
  function Channel(state: State, channelId: string): seq<Block>
  {
    if channelId in state then state[channelId] else []
  }

  /** The block a page becomes when it touches no block. */
  function PageBlock(page: PostList): Block
  {
    Block(page.nextPostId, page.order, page.prevPostId)
  }

  /** Block `bn`, which the page's newer end touches, with the page's posts
      after its own: they are older. */
  function OlderInto(bn: Block, page: PostList): Block
  {
    Block(bn.nextPostId, Merged(bn.postIds, page.order), page.prevPostId)
  }

  /** Block `bp`, which the page's older end touches, with the page's posts
      before its own: they are newer. */
  function NewerInto(page: PostList, bp: Block): Block
  {
    Block(page.nextPostId, Merged(page.order, bp.postIds), bp.prevPostId)
  }

  /** The block that joins `bn`, the page and `bp`, newest first. */
  function Bridge(bn: Block, page: PostList, bp: Block): Block
  {
    Block(bn.nextPostId, Merged(bn.postIds, Merged(page.order, bp.postIds)), bp.prevPostId)
  }

  /** Block `p` replaced by `b`, then block `n` spliced out: one block fewer. */
  function Join(blocks: seq<Block>, p: nat, n: nat, b: Block): (r: seq<Block>)
    requires p < |blocks| && n < |blocks|
    ensures |r| == |blocks| - 1
  {
    var joined := blocks[p := b];
    joined[..n] + joined[n + 1..]
  }

  /** The blocks of a channel after a page is received. `p` is the first block
      the page's older end touches and `n` the first its newer end touches:
      the same block means the page is already known; neither means it is
      added as a block of its own; one of them means it is merged into that
      block; both means the two blocks and the page become one block at `p`
      and block `n` goes. */
  function ReceivePage(blocks: seq<Block>, page: PostList): (r: seq<Block>)
    ensures |blocks| - 1 <= |r| <= |blocks| + 1
  {
    MergePage(blocks, page, FindFirst(blocks, PrevOf(page.prevPostId)), FindFirst(blocks, NextOf(page.nextPostId)))
  }

  /** The case split of `ReceivePage`, for the blocks `p` and `n` found: it
      changes the block count by at most one. */
  function MergePage(blocks: seq<Block>, page: PostList, p: Option<nat>, n: Option<nat>): (r: seq<Block>)
    requires p.Some? ==> p.value < |blocks|
    requires n.Some? ==> n.value < |blocks|
    ensures |blocks| - 1 <= |r| <= |blocks| + 1
  {
    if n.Some? && n == p then blocks
    else if n.None? && p.None? then blocks + [PageBlock(page)]
    else if p.None? then blocks[n.value := OlderInto(blocks[n.value], page)]
    else if n.None? then blocks[p.value := NewerInto(page, blocks[p.value])]
    else Join(blocks, p.value, n.value, Bridge(blocks[n.value], page, blocks[p.value]))
  }

  /** The state after a page of posts is received for a channel. */
  function OnReceivedPosts(state: State, channelId: string, page: PostList): (r: State)
    ensures r.Keys == state.Keys + {channelId}
    ensures forall c :: c in state && c != channelId ==> r[c] == state[c]
  {
    state[channelId := ReceivePage(Channel(state, channelId), page)]
  }

  /** What the search has found after looking at the first `i` blocks: the
      first of them that matches, if any. */
  predicate FirstAmong(blocks: seq<Block>, probe: Probe, i: nat, found: Option<nat>)
    requires i <= |blocks|
  {
    match found
    case None => forall k :: 0 <= k < i ==> !Matches(blocks[k], probe)
    case Some(k) => k < i && Matches(blocks[k], probe) && forall j :: 0 <= j < k ==> !Matches(blocks[j], probe)
  }

  /** Having looked at every block, the search has found `FindFirst`. */
  lemma FirstAmongAll(blocks: seq<Block>, probe: Probe, found: Option<nat>)
    requires FirstAmong(blocks, probe, |blocks|, found)
    ensures found == FindFirst(blocks, probe)
  {
    if found.Some? {
      FindFirstIs(blocks, probe, found.value);
    }
  }

  /** The `forEach` of `RECEIVED_POSTS_FOR_CHANNEL`: the first block the
      page's older end touches and the first its newer end touches. */
  method TouchingBlocks(blocks: seq<Block>, postList: PostList) returns (prevIndex: Option<nat>, nextIndex: Option<nat>)
    ensures prevIndex == FindFirst(blocks, PrevOf(postList.prevPostId))
    ensures nextIndex == FindFirst(blocks, NextOf(postList.nextPostId))
  {
    prevIndex, nextIndex := None, None;
    for i := 0 to |blocks|
      invariant FirstAmong(blocks, PrevOf(postList.prevPostId), i, prevIndex)
      invariant FirstAmong(blocks, NextOf(postList.nextPostId), i, nextIndex)
    {
      var block := blocks[i];
      if prevIndex.None? && (block.prevPostId == postList.prevPostId || postList.prevPostId in block.postIds) {
        prevIndex := Some(i);
      }
      if nextIndex.None? && (block.nextPostId == postList.nextPostId || postList.nextPostId in block.postIds) {
        nextIndex := Some(i);
      }
    }
    FirstAmongAll(blocks, PrevOf(postList.prevPostId), prevIndex);
    FirstAmongAll(blocks, NextOf(postList.nextPostId), nextIndex);
  }

  /** `RECEIVED_POSTS_FOR_CHANNEL`: the search, then the case split over a
      local copy of the channel's blocks. */
  method ReceivedPostsForChannel(state: State, channelId: string, postList: PostList) returns (next: State)
    ensures next == OnReceivedPosts(state, channelId, postList)
  {
    var blocks := if channelId in state then state[channelId] else [];
    ghost var original := blocks;
    var prevIndex, nextIndex := TouchingBlocks(blocks, postList);

    if nextIndex.Some? && nextIndex == prevIndex {
      ReceivedPostsNoop(state, channelId, postList);
      return state;
    }

    if nextIndex.None? && prevIndex.None? {
      blocks := blocks + [Block(postList.nextPostId, postList.order, postList.prevPostId)];
    } else if nextIndex.Some? && prevIndex.None? {
      var nextBlock := blocks[nextIndex.value];
      var ids := MergeIds(nextBlock.postIds, postList.order);
      blocks := blocks[nextIndex.value := Block(nextBlock.nextPostId, ids, postList.prevPostId)];
      assert blocks == original[nextIndex.value := OlderInto(nextBlock, postList)];
    } else if nextIndex.None? && prevIndex.Some? {
      var prevBlock := blocks[prevIndex.value];
      var ids := MergeIds(postList.order, prevBlock.postIds);
      blocks := blocks[prevIndex.value := Block(postList.nextPostId, ids, prevBlock.prevPostId)];
      assert blocks == original[prevIndex.value := NewerInto(postList, prevBlock)];
    } else {
      var prevBlock := blocks[prevIndex.value];
      var nextBlock := blocks[nextIndex.value];
      var inner := MergeIds(postList.order, prevBlock.postIds);
      var ids := MergeIds(nextBlock.postIds, inner);
      blocks := blocks[prevIndex.value := Block(nextBlock.nextPostId, ids, prevBlock.prevPostId)];
      blocks := blocks[..nextIndex.value] + blocks[nextIndex.value + 1..];
      assert blocks == Join(original, prevIndex.value, nextIndex.value, Bridge(nextBlock, postList, prevBlock));
    }
    assert blocks == MergePage(original, postList, prevIndex, nextIndex);
    next := state[channelId := blocks];
  }

  /** A page whose two ends first touch the same block leaves the state as it
      was. */
  lemma ReceivedPostsNoop(state: State, channelId: string, page: PostList)
    requires var blocks := Channel(state, channelId);
             && FindFirst(blocks, NextOf(page.nextPostId)).Some?
             && FindFirst(blocks, NextOf(page.nextPostId)) == FindFirst(blocks, PrevOf(page.prevPostId))
    ensures OnReceivedPosts(state, channelId, page) == state
  {
    assert channelId in state;
    var r := OnReceivedPosts(state, channelId, page);
    assert forall c :: c in r ==> r[c] == state[c];
  }

  /** A page for a channel that is not loaded becomes the channel's only
      block. */
  lemma ReceivedPostsFirstLoad(state: State, channelId: string, page: PostList)
    requires channelId !in state
    ensures OnReceivedPosts(state, channelId, page)[channelId] == [PageBlock(page)]
  {
  }

  /** Splicing block `n` out after replacing block `p` leaves one block fewer:
      the replacement, then every other block in its order. */
  lemma JoinShape(blocks: seq<Block>, p: nat, n: nat, b: Block)
    requires p < |blocks| && n < |blocks| && p != n
    ensures var r, q := Join(blocks, p, n, b), if p < n then p else p - 1;
            && |r| == |blocks| - 1
            && q < |r| && r[q] == b
            && forall i :: 0 <= i < |blocks| && i != p && i != n ==> r[if i < n then i else i - 1] == blocks[i]
  {
  }

  /** The merged block keeps `bn`'s ids in front and its newer boundary,
      holds the ids of both, and ends where the page ends. */
  lemma OlderIntoShape(bn: Block, page: PostList)
    ensures var r := OlderInto(bn, page);
            && r.nextPostId == bn.nextPostId && r.prevPostId == page.prevPostId
            && bn.postIds <= r.postIds
            && Elems(r.postIds) == Elems(bn.postIds) + Elems(page.order)
  {
    MergedShape(bn.postIds, page.order);
  }

  /** The merged block starts with the page's ids and where the page starts,
      holds the ids of both, and keeps `bp`'s older boundary. */
  lemma NewerIntoShape(page: PostList, bp: Block)
    ensures var r := NewerInto(page, bp);
            && r.nextPostId == page.nextPostId && r.prevPostId == bp.prevPostId
            && page.order <= r.postIds
            && Elems(r.postIds) == Elems(page.order) + Elems(bp.postIds)
  {
    MergedShape(page.order, bp.postIds);
  }

  /** The joined block starts with `bn`'s ids, holds the ids of all three, and
      runs from `bn`'s newer boundary to `bp`'s older boundary. */
  lemma BridgeShape(bn: Block, page: PostList, bp: Block)
    ensures var r := Bridge(bn, page, bp);
            && r.nextPostId == bn.nextPostId && r.prevPostId == bp.prevPostId
            && bn.postIds <= r.postIds
            && Elems(r.postIds) == Elems(bn.postIds) + Elems(page.order) + Elems(bp.postIds)
  {
    MergedShape(page.order, bp.postIds);
    MergedShape(bn.postIds, Merged(page.order, bp.postIds));
  }

  /** How many blocks there are after a page is received, and which blocks
      stay as they were. */
  lemma ReceivePageCases(blocks: seq<Block>, page: PostList)
    ensures var p, n := FindFirst(blocks, PrevOf(page.prevPostId)), FindFirst(blocks, NextOf(page.nextPostId));
            var r := ReceivePage(blocks, page);
            && (n.Some? && n == p ==> r == blocks)
            && (p.None? && n.None? ==> |r| == |blocks| + 1 && r[..|blocks|] == blocks && r[|blocks|] == PageBlock(page))
            && (p.None? != n.None? ==>
                  |r| == |blocks| && forall i :: 0 <= i < |blocks| && Some(i) != p && Some(i) != n ==> r[i] == blocks[i])
            && (p.Some? && n.Some? && p != n ==> |r| == |blocks| - 1)
  {
    var p, n := FindFirst(blocks, PrevOf(page.prevPostId)), FindFirst(blocks, NextOf(page.nextPostId));
    if p.Some? && n.Some? && p != n {
      JoinShape(blocks, p.value, n.value, Bridge(blocks[n.value], page, blocks[p.value]));
    }
  }

  lemma AppendIds(blocks: seq<Block>, b: Block)
    ensures Ids(blocks + [b]) == Ids(blocks) + Elems(b.postIds)
  {
    IdsAppend(blocks, [b]);
    assert [b][1..] == [];
  }

  /** Joining blocks `p` and `n` into a block that holds both their ids adds
      that block's ids and loses none. */
  lemma JoinIds(blocks: seq<Block>, p: nat, n: nat, b: Block)
    requires p < |blocks| && n < |blocks| && p != n
    requires Elems(blocks[p].postIds) + Elems(blocks[n].postIds) <= Elems(b.postIds)
    ensures Ids(Join(blocks, p, n, b)) == Ids(blocks) + Elems(b.postIds)
  {
    var joined := blocks[p := b];
    IdsGrow(blocks, p, b);
    var r := Join(blocks, p, n, b);
    IdsSplit(joined, n);
    IdsAppend(joined[..n], joined[n + 1..]);
    JoinShape(blocks, p, n, b);
    IdsSplit(r, if p < n then p else p - 1);
  }

  /** Receiving a page loses no id and adds only ids of the page; except when
      the page is already known, it adds all of them. */
  lemma ReceivePageIds(blocks: seq<Block>, page: PostList)
    ensures Ids(blocks) <= Ids(ReceivePage(blocks, page)) <= Ids(blocks) + Elems(page.order)
    ensures var p, n := FindFirst(blocks, PrevOf(page.prevPostId)), FindFirst(blocks, NextOf(page.nextPostId));
            !(n.Some? && n == p) ==> Ids(ReceivePage(blocks, page)) == Ids(blocks) + Elems(page.order)
  {
    var p, n := FindFirst(blocks, PrevOf(page.prevPostId)), FindFirst(blocks, NextOf(page.nextPostId));
    if n.Some? && n == p {
    } else if n.None? && p.None? {
      AppendIds(blocks, PageBlock(page));
    } else if p.None? {
      var bn := blocks[n.value];
      OlderIntoShape(bn, page);
      IdsGrow(blocks, n.value, OlderInto(bn, page));
    } else if n.None? {
      var bp := blocks[p.value];
      NewerIntoShape(page, bp);
      IdsGrow(blocks, p.value, NewerInto(page, bp));
    } else {
      var bp, bn := blocks[p.value], blocks[n.value];
      BridgeShape(bn, page, bp);
      JoinIds(blocks, p.value, n.value, Bridge(bn, page, bp));
      IdsSplit(blocks, p.value);
      IdsSplit(blocks, n.value);
    }
  }

  /** When the page joins two blocks and the block its newer end first touches
      comes before the block its older end first touches, no block between
      the two touches the newer end. */
  predicate NoNewerTouchBetween(blocks: seq<Block>, page: PostList)
  {
    var p, n := FindFirst(blocks, PrevOf(page.prevPostId)), FindFirst(blocks, NextOf(page.nextPostId));
    p.Some? && n.Some? && n.value < p.value ==>
      forall i :: n.value < i < p.value ==> !Matches(blocks[i], NextOf(page.nextPostId))
  }

  /** Receiving the same page a second time changes nothing exactly when no
      block between two joined blocks touches the page's newer end. In every
      other case both ends of the page first touch the block that now holds
      it, so the second time is the no-op; otherwise the second time joins
      again. */
  lemma ReceivePageTwice(blocks: seq<Block>, page: PostList)
    ensures ReceivePage(ReceivePage(blocks, page), page) == ReceivePage(blocks, page)
            <==> NoNewerTouchBetween(blocks, page)
  {
    var pp, np := PrevOf(page.prevPostId), NextOf(page.nextPostId);
    var p, n := FindFirst(blocks, pp), FindFirst(blocks, np);
    var r := ReceivePage(blocks, page);
    if !NoNewerTouchBetween(blocks, page) {
      var k :| n.value < k < p.value && Matches(blocks[k], np);
      JoinedMergesAgain(blocks, page, k);
    } else if n.Some? && n == p {
    } else if n.None? && p.None? {
      assert r == blocks + [PageBlock(page)];
      FindFirstIs(r, pp, |blocks|);
      FindFirstIs(r, np, |blocks|);
    } else if p.None? {
      OlderTouchedAgain(blocks, page, n.value);
    } else if n.None? {
      NewerTouchedAgain(blocks, page, p.value);
    } else {
      JoinedTouchedAgain(blocks, page);
    }
  }

  /** The same at the level of the whole state. */
  lemma ReceivedPostsTwice(state: State, channelId: string, page: PostList)
    ensures var once := OnReceivedPosts(state, channelId, page);
            OnReceivedPosts(once, channelId, page) == once <==> NoNewerTouchBetween(Channel(state, channelId), page)
  {
    ReceivePageTwice(Channel(state, channelId), page);
    var once := OnReceivedPosts(state, channelId, page);
    assert Channel(once, channelId) == ReceivePage(Channel(state, channelId), page);
    assert OnReceivedPosts(once, channelId, page)[channelId] == ReceivePage(once[channelId], page);
    if ReceivePage(once[channelId], page) == once[channelId] {
      assert once[channelId := once[channelId]] == once;
    }
  }

  /** After the page is merged into block `k`, the block its newer end first
      touched, both ends of the page first touch block `k`. */
  lemma OlderTouchedAgain(blocks: seq<Block>, page: PostList, k: nat)
    requires FindFirst(blocks, PrevOf(page.prevPostId)).None?
    requires FindFirst(blocks, NextOf(page.nextPostId)) == Some(k)
    ensures var r := blocks[k := OlderInto(blocks[k], page)];
            FindFirst(r, PrevOf(page.prevPostId)) == Some(k) == FindFirst(r, NextOf(page.nextPostId))
  {
    var r := blocks[k := OlderInto(blocks[k], page)];
    assert Matches(blocks[k], NextOf(page.nextPostId));
    FindFirstIs(r, PrevOf(page.prevPostId), k);
    FindFirstIs(r, NextOf(page.nextPostId), k);
  }

  /** After the page is merged into block `k`, the block its older end first
      touched, both ends of the page first touch block `k`. */
  lemma NewerTouchedAgain(blocks: seq<Block>, page: PostList, k: nat)
    requires FindFirst(blocks, NextOf(page.nextPostId)).None?
    requires FindFirst(blocks, PrevOf(page.prevPostId)) == Some(k)
    ensures var r := blocks[k := NewerInto(page, blocks[k])];
            FindFirst(r, PrevOf(page.prevPostId)) == Some(k) == FindFirst(r, NextOf(page.nextPostId))
  {
    var b := NewerInto(page, blocks[k]);
    var r := blocks[k := b];
    NewerIntoShape(page, blocks[k]);
    assert Matches(blocks[k], PrevOf(page.prevPostId));
    if page.prevPostId in blocks[k].postIds {
      assert page.prevPostId in Elems(b.postIds);
    }
    FindFirstIs(r, PrevOf(page.prevPostId), k);
    FindFirstIs(r, NextOf(page.nextPostId), k);
  }

  /** After two blocks are joined, the joined block, at the older block's new
      index, is the first block the page's older end touches. */
  lemma JoinedOlderEndFirst(blocks: seq<Block>, page: PostList, p: nat, n: nat)
    requires FindFirst(blocks, PrevOf(page.prevPostId)) == Some(p)
    requires FindFirst(blocks, NextOf(page.nextPostId)) == Some(n)
    requires p != n
    ensures FindFirst(Join(blocks, p, n, Bridge(blocks[n], page, blocks[p])), PrevOf(page.prevPostId))
            == Some(if p < n then p else p - 1)
  {
    var pp := PrevOf(page.prevPostId);
    var bp, bn := blocks[p], blocks[n];
    var b := Bridge(bn, page, bp);
    var r := Join(blocks, p, n, b);
    JoinShape(blocks, p, n, b);
    BridgeShape(bn, page, bp);
    var q := if p < n then p else p - 1;
    if page.prevPostId in bp.postIds {
      assert page.prevPostId in Elems(bp.postIds);
    }
    assert Matches(r[q], pp);
    forall i | 0 <= i < q ensures !Matches(r[i], pp) {
      var j := if i < n then i else i + 1;
      assert r[i] == blocks[j];
    }
    FindFirstIs(r, pp, q);
  }

  /** After two blocks are joined, both ends of the page first touch the
      joined block, when no block between them touches the newer end. */
  lemma JoinedTouchedAgain(blocks: seq<Block>, page: PostList)
    requires NoNewerTouchBetween(blocks, page)
    requires var p, n := FindFirst(blocks, PrevOf(page.prevPostId)), FindFirst(blocks, NextOf(page.nextPostId));
             p.Some? && n.Some? && p != n
    ensures var r := ReceivePage(blocks, page);
            FindFirst(r, PrevOf(page.prevPostId)).Some?
            && FindFirst(r, PrevOf(page.prevPostId)) == FindFirst(r, NextOf(page.nextPostId))
  {
    var pp, np := PrevOf(page.prevPostId), NextOf(page.nextPostId);
    var p, n := FindFirst(blocks, pp).value, FindFirst(blocks, np).value;
    var b := Bridge(blocks[n], page, blocks[p]);
    var r := Join(blocks, p, n, b);
    assert r == ReceivePage(blocks, page);
    JoinedOlderEndFirst(blocks, page, p, n);
    JoinShape(blocks, p, n, b);
    BridgeShape(blocks[n], page, blocks[p]);
    var q := if p < n then p else p - 1;
    if page.nextPostId in blocks[n].postIds {
      assert page.nextPostId in Elems(blocks[n].postIds);
    }
    assert Matches(r[q], np);
    forall i | 0 <= i < q ensures !Matches(r[i], np) {
      var j := if i < n then i else i + 1;
      assert r[i] == blocks[j];
    }
    FindFirstIs(r, np, q);
  }

  /** A block between two joined blocks that touches the page's newer end
      stays in front of the joined block, one place down. */
  lemma JoinedNewerEndBefore(blocks: seq<Block>, page: PostList, p: nat, n: nat, k: nat)
    requires p < |blocks| && n < k < p
    requires Matches(blocks[k], NextOf(page.nextPostId))
    ensures var r := FindFirst(Join(blocks, p, n, Bridge(blocks[n], page, blocks[p])), NextOf(page.nextPostId));
            r.Some? && r.value < p - 1
  {
    var b := Bridge(blocks[n], page, blocks[p]);
    JoinShape(blocks, p, n, b);
    assert Join(blocks, p, n, b)[k - 1] == blocks[k];
  }

  /** When a block between two joined blocks touches the page's newer end,
      the second time the page is received it joins again, so the block count
      drops once more. */
  lemma JoinedMergesAgain(blocks: seq<Block>, page: PostList, k: nat)
    requires var p, n := FindFirst(blocks, PrevOf(page.prevPostId)), FindFirst(blocks, NextOf(page.nextPostId));
             p.Some? && n.Some? && n.value < k < p.value
    requires k < |blocks| && Matches(blocks[k], NextOf(page.nextPostId))
    ensures ReceivePage(ReceivePage(blocks, page), page) != ReceivePage(blocks, page)
  {
    var p, n := FindFirst(blocks, PrevOf(page.prevPostId)).value, FindFirst(blocks, NextOf(page.nextPostId)).value;
    var r := Join(blocks, p, n, Bridge(blocks[n], page, blocks[p]));
    assert r == ReceivePage(blocks, page);
    JoinedOlderEndFirst(blocks, page, p, n);
    JoinedNewerEndBefore(blocks, page, p, n, k);
    ReceivePageCases(r, page);
  }

  /** Receiving a page never creates a second head block: a page that would be
      a head only stays one when no head block exists, since any head block
      touches its newer end. */
  lemma ReceivePageKeepsOneHead(blocks: seq<Block>, page: PostList)
    requires AtMostOneHead(blocks)
    ensures AtMostOneHead(ReceivePage(blocks, page))
  {
    var p, n := FindFirst(blocks, PrevOf(page.prevPostId)), FindFirst(blocks, NextOf(page.nextPostId));
    if n.None? && page.nextPostId == EMPTY {
      forall i | 0 <= i < |blocks| ensures !IsHead(blocks[i]) {
        assert !Matches(blocks[i], NextOf(page.nextPostId));
      }
      HeadCountZero(blocks);
    }
    if n.Some? && n == p {
    } else if n.None? && p.None? {
      HeadCountAppend(blocks, [PageBlock(page)]);
      assert [PageBlock(page)][1..] == [];
    } else if p.None? {
      HeadCountUpdate(blocks, n.value, OlderInto(blocks[n.value], page));
    } else if n.None? {
      HeadCountUpdate(blocks, p.value, NewerInto(page, blocks[p.value]));
    } else {
      var b := Bridge(blocks[n.value], page, blocks[p.value]);
      HeadCountUpdate(blocks, p.value, b);
      HeadCountRemove(blocks[p.value := b], n.value);
    }
  }

  /** Replacing one block by a block without repeated ids keeps every block
      free of repeated ids. */
  lemma UpdateNoDuplicates(blocks: seq<Block>, i: nat, b: Block)
    requires i < |blocks| && NoDuplicates(b.postIds)
    requires forall j :: 0 <= j < |blocks| ==> NoDuplicates(blocks[j].postIds)
    ensures var r := blocks[i := b];
            forall j :: 0 <= j < |r| ==> NoDuplicates(r[j].postIds)
  {
  }

  lemma JoinNoDuplicates(blocks: seq<Block>, p: nat, n: nat, b: Block)
    requires p < |blocks| && n < |blocks| && p != n && NoDuplicates(b.postIds)
    requires forall j :: 0 <= j < |blocks| ==> NoDuplicates(blocks[j].postIds)
    ensures var r := Join(blocks, p, n, b);
            forall j :: 0 <= j < |r| ==> NoDuplicates(r[j].postIds)
  {
    UpdateNoDuplicates(blocks, p, b);
    var u := blocks[p := b];
    var r := Join(blocks, p, n, b);
    forall i | 0 <= i < |r| ensures NoDuplicates(r[i].postIds) {
      var j := if i < n then i else i + 1;
      assert r[i] == u[j];
    }
  }

  /** When every block and the page are free of repeated ids, so is every
      block after the page is received. */
  lemma ReceivePageNoDuplicates(blocks: seq<Block>, page: PostList)
    requires forall i :: 0 <= i < |blocks| ==> NoDuplicates(blocks[i].postIds)
    requires NoDuplicates(page.order)
    ensures var r := ReceivePage(blocks, page);
            forall i :: 0 <= i < |r| ==> NoDuplicates(r[i].postIds)
  {
    var p, n := FindFirst(blocks, PrevOf(page.prevPostId)), FindFirst(blocks, NextOf(page.nextPostId));
    if n.Some? && n == p {
    } else if n.None? && p.None? {
    } else if p.None? {
      MergedNoDuplicates(blocks[n.value].postIds, page.order);
      UpdateNoDuplicates(blocks, n.value, OlderInto(blocks[n.value], page));
    } else if n.None? {
      MergedNoDuplicates(page.order, blocks[p.value].postIds);
      UpdateNoDuplicates(blocks, p.value, NewerInto(page, blocks[p.value]));
    } else {
      var bp, bn := blocks[p.value], blocks[n.value];
      MergedNoDuplicates(page.order, bp.postIds);
      MergedNoDuplicates(bn.postIds, Merged(page.order, bp.postIds));
      JoinNoDuplicates(blocks, p.value, n.value, Bridge(bn, page, bp));
    }
  }

  // The reducer

  /** `postsInChannel`: the state after one action. */
  function Reduce(state: State, action: Action): (r: State)
    ensures action.LogoutSuccess? ==> r == map[]
    ensures action.PostDeleted? || action.Other? ==> r == state
    ensures action.ReceivedNewPost? ==> r.Keys == state.Keys
    ensures action.ReceivedPostsForChannel? ==> r.Keys == state.Keys + {action.channelId}
    ensures action.ReceivedNewPost? || action.ReceivedPostsForChannel? ==>
              forall c :: c in state && c != action.channelId ==> r[c] == state[c]
  {
    match action
    case ReceivedNewPost(channelId, postId) => OnNewPost(state, channelId, postId)
    case ReceivedPostsForChannel(channelId, page) => OnReceivedPosts(state, channelId, page)
    case PostDeleted(_, _) => state
    case LogoutSuccess => map[]
    case Other => state
  }

  /** The `switch` of `postsInChannel`. */
  method PostsInChannel(state: State, action: Action) returns (next: State)
    ensures next == Reduce(state, action)
  {
    match action {
      case ReceivedNewPost(channelId, postId) =>
        next := OnNewPost(state, channelId, postId);
      case ReceivedPostsForChannel(channelId, page) =>
        next := ReceivedPostsForChannel(state, channelId, page);
      case PostDeleted(_, _) =>
        next := state;
      case LogoutSuccess =>
        next := map[];
      case Other =>
        next := state;
    }
  }

  /** No action gives a channel a second head block. */
  lemma ReduceKeepsOneHead(state: State, action: Action)
    requires forall c :: c in state ==> AtMostOneHead(state[c])
    ensures var r := Reduce(state, action);
            forall c :: c in r ==> AtMostOneHead(r[c])
  {
    match action
    case ReceivedNewPost(channelId, postId) =>
      if channelId in state {
        NewPostKeepsOneHead(state, channelId, postId);
      }
    case ReceivedPostsForChannel(channelId, page) =>
      ReceivePageKeepsOneHead(Channel(state, channelId), page);
    case PostDeleted(_, _) =>
    case LogoutSuccess =>
    case Other =>
  }
}
