/** Removing located positions from blocks and dropping the blocks left
    empty (`removePostsFromBlock`, `removePostsFromBlocks`). */
module Compaction {
  import opened Blocks

  /** One pass of the backward loop of `removePostsFromBlock`. Removing the
      next boundary makes the first id the new boundary (or EMPTY when there
      is none) and drops it; removing the previous boundary does the same with
      the last id; an offset is spliced out, and an offset past the end
      changes nothing. */
  function RemoveAt(b: Block, p: Pos): (r: Block)
    ensures |r.postIds| == if ValidPos(b, p) && |b.postIds| > 0 then |b.postIds| - 1 else |b.postIds|
    ensures forall x :: x in r.postIds ==> x in b.postIds
  {
    var ids := b.postIds;
    match p
    case Next =>
      Block(if |ids| > 0 then ids[0] else EMPTY, if |ids| > 0 then ids[1..] else [], b.prevPostId)
    case Prev =>
      Block(b.nextPostId, if |ids| > 0 then ids[..|ids| - 1] else [], if |ids| > 0 then ids[|ids| - 1] else EMPTY)
    case Interior(k) =>
      if k < |ids| then b.(postIds := ids[..k] + ids[k + 1..]) else b
  }

  /** The whole of `removePostsFromBlock`: the positions are applied from the
      last to the first. */
  function RemoveAll(b: Block, postIndices: seq<Pos>): (r: Block)
    decreases |postIndices|
    ensures |r.postIds| <= |b.postIds|
    ensures forall x :: x in r.postIds ==> x in b.postIds
  {
    if postIndices == [] then b
    else RemoveAll(RemoveAt(b, postIndices[|postIndices| - 1]), postIndices[..|postIndices| - 1])
  }

  /** `removePostsFromBlock`: a copy of the block, updated by a loop that runs
      over the positions backwards. */
  method RemovePostsFromBlock(block: Block, postIndices: seq<Pos>) returns (nextBlock: Block)
    ensures nextBlock == RemoveAll(block, postIndices)
  {
    nextBlock := Block(block.nextPostId, block.postIds, block.prevPostId);
    var i := |postIndices|;
    assert postIndices[..i] == postIndices;
    while i > 0
      invariant 0 <= i <= |postIndices|
      invariant RemoveAll(nextBlock, postIndices[..i]) == RemoveAll(block, postIndices)
    {
      i := i - 1;
      var index := postIndices[i];
      assert postIndices[..i + 1][..i] == postIndices[..i];
      ghost var before := nextBlock;
      var ids := nextBlock.postIds;
      if index == Next {
        nextBlock := nextBlock.(nextPostId := if |ids| > 0 then ids[0] else EMPTY);
        nextBlock := nextBlock.(postIds := if |ids| > 0 then ids[1..] else []);
      } else if index == Prev {
        nextBlock := nextBlock.(prevPostId := if |ids| > 0 then ids[|ids| - 1] else EMPTY);
        nextBlock := nextBlock.(postIds := if |ids| > 0 then ids[..|ids| - 1] else []);
      } else {
        var k := index.offset;
        if k < |ids| {
          nextBlock := nextBlock.(postIds := ids[..k] + ids[k + 1..]);
        }
      }
      assert nextBlock == RemoveAt(before, index);
    }
  }

  // ---------------------------------------------------------------------------
  // The shape of the removal for the lists the locators produce

  /** The ids of `ids` whose offset is not in `gone`, in order. */
  function Survivors(ids: seq<string>, gone: set<nat>): (r: seq<string>)
    ensures |r| <= |ids|
  {
    if ids == [] then []
    else Survivors(ids[..|ids| - 1], gone) + (if |ids| - 1 in gone then [] else [ids[|ids| - 1]])
  }

  /** A list of distinct offsets in ascending order, all inside a run of `n` ids. */
  predicate AscendingOffsets(ps: seq<Pos>, n: nat)
  {
    && (forall k :: 0 <= k < |ps| ==> ps[k].Interior? && ps[k].offset < n)
    && (forall a, c :: 0 <= a < c < |ps| ==> Rank(ps[a]) < Rank(ps[c]))
  }

  function Offsets(ps: seq<Pos>): set<nat>
  {
    set p | p in ps && p.Interior? :: p.offset
  }

  /** The list shape the locators produce: the previous boundary if listed,
      the next boundary if listed, then ascending offsets. */
  function Indices(hasPrev: bool, hasNext: bool, offsets: seq<Pos>): seq<Pos>
  {
    Boundaries(hasPrev, hasNext) + offsets
  }

  function Boundaries(hasPrev: bool, hasNext: bool): seq<Pos>
  {
    (if hasPrev then [Prev] else []) + (if hasNext then [Next] else [])
  }

  lemma {:induction false} SurvivorsSameBelow(ids: seq<string>, a: set<nat>, b: set<nat>)
    requires forall k :: 0 <= k < |ids| ==> (k in a <==> k in b)
    ensures Survivors(ids, a) == Survivors(ids, b)
  {
    if ids != [] {
      SurvivorsSameBelow(ids[..|ids| - 1], a, b);
    }
  }

  /** Splicing out offset `k` first and then the smaller offsets `gone` leaves
      the same ids as removing all of them at once. */
  lemma {:induction false} SurvivorsSplice(ids: seq<string>, gone: set<nat>, k: nat)
    requires k < |ids|
    requires forall x :: x in gone ==> x < k
    ensures Survivors(ids[..k] + ids[k + 1..], gone) == Survivors(ids, gone + {k})
  {
    var n := |ids|;
    var init := ids[..n - 1];
    if k == n - 1 {
      assert ids[..k] + ids[k + 1..] == init;
      SurvivorsSameBelow(init, gone, gone + {k});
    } else {
      var spliced := ids[..k] + ids[k + 1..];
      assert spliced[..|spliced| - 1] == init[..k] + init[k + 1..];
      assert spliced[|spliced| - 1] == ids[n - 1];
      SurvivorsSplice(init, gone, k);
    }
  }

  lemma {:induction false} SurvivorsMembers(ids: seq<string>, gone: set<nat>, x: string)
    requires x in Survivors(ids, gone)
    ensures exists k :: 0 <= k < |ids| && k !in gone && ids[k] == x
  {
    var n := |ids|;
    if x in Survivors(ids[..n - 1], gone) {
      SurvivorsMembers(ids[..n - 1], gone, x);
      var k :| 0 <= k < n - 1 && k !in gone && ids[..n - 1][k] == x;
      assert ids[k] == x;
    } else {
      assert ids[n - 1] == x;
    }
  }

  lemma {:induction false} RemoveAllAppend(b: Block, s: seq<Pos>, t: seq<Pos>)
    decreases |t|
    ensures RemoveAll(b, s + t) == RemoveAll(RemoveAll(b, t), s)
  {
    if t == [] {
      assert s + t == s;
    } else {
      var u := s + t;
      assert u[|u| - 1] == t[|t| - 1];
      assert u[..|u| - 1] == s + t[..|t| - 1];
      assert RemoveAll(b, u) == RemoveAll(RemoveAt(b, t[|t| - 1]), s + t[..|t| - 1]);
      RemoveAllAppend(RemoveAt(b, t[|t| - 1]), s, t[..|t| - 1]);
    }
  }

  /** Lists of ascending offsets end with their largest offset: the rest lie
      below it. */
  lemma AscendingLast(offsets: seq<Pos>, n: nat)
    requires AscendingOffsets(offsets, n) && |offsets| > 0
    ensures var k := offsets[|offsets| - 1].offset;
            var init := offsets[..|offsets| - 1];
            && k < n
            && AscendingOffsets(init, n - 1)
            && (forall x :: x in Offsets(init) ==> x < k)
            && Offsets(offsets) == Offsets(init) + {k}
  {
    var m := |offsets|;
    var k := offsets[m - 1].offset;
    var init := offsets[..m - 1];
    forall a | 0 <= a < m - 1 ensures init[a].offset < k {
      assert Rank(offsets[a]) < Rank(offsets[m - 1]);
    }
    forall x | x in Offsets(init) ensures x < k {
      var p :| p in init && p.Interior? && p.offset == x;
      var a :| 0 <= a < m - 1 && init[a] == p;
    }
    assert offsets == init + [offsets[m - 1]];
  }

  /** Removing ascending offsets, last first, leaves the ids at the other offsets. */
  lemma {:induction false} RemoveOffsets(b: Block, offsets: seq<Pos>)
    requires AscendingOffsets(offsets, |b.postIds|)
    decreases |offsets|
    ensures RemoveAll(b, offsets) == b.(postIds := Survivors(b.postIds, Offsets(offsets)))
  {
    if offsets == [] {
      SurvivorsSameBelow(b.postIds, {}, Offsets(offsets));
      SurvivorsNone(b.postIds);
    } else {
      var n := |offsets|;
      var k := offsets[n - 1].offset;
      var init := offsets[..n - 1];
      var ids := b.postIds;
      AscendingLast(offsets, |ids|);
      var b' := RemoveAt(b, offsets[n - 1]);
      assert b' == b.(postIds := ids[..k] + ids[k + 1..]);
      RemoveOffsets(b', init);
      SurvivorsSplice(ids, Offsets(init), k);
    }
  }

  lemma {:induction false} SurvivorsNone(ids: seq<string>)
    ensures Survivors(ids, {}) == ids
  {
    if ids != [] {
      SurvivorsNone(ids[..|ids| - 1]);
      assert ids == ids[..|ids| - 1] + [ids[|ids| - 1]];
    }
  }

  /** The block `b` with its ids replaced by `ids`, after the boundary steps
      of a removal: a listed next boundary is removed first, then a listed
      previous boundary, each as one pass of the loop does it. Unlisted
      boundaries stay. */
  function BoundarySteps(b: Block, hasPrev: bool, hasNext: bool, ids: seq<string>): (r: Block)
    ensures |ids| - (if hasPrev then 1 else 0) - (if hasNext then 1 else 0) <= |r.postIds| <= |ids|
    ensures forall x :: x in r.postIds ==> x in ids
    ensures !hasNext ==> r.nextPostId == b.nextPostId
    ensures !hasPrev ==> r.prevPostId == b.prevPostId
  {
    var c := b.(postIds := ids);
    var afterNext := if hasNext then RemoveAt(c, Next) else c;
    if hasPrev then RemoveAt(afterNext, Prev) else afterNext
  }

  /** Removing the listed boundaries alone is the boundary steps on the
      block's own ids. */
  lemma RemoveBoundaries(c: Block, hasPrev: bool, hasNext: bool)
    ensures RemoveAll(c, Boundaries(hasPrev, hasNext)) == BoundarySteps(c, hasPrev, hasNext, c.postIds)
  {
    if hasPrev && hasNext {
      assert RemoveAll(c, [Prev, Next]) == RemoveAt(RemoveAt(c, Next), Prev);
    } else if hasPrev {
      assert RemoveAll(c, [Prev]) == RemoveAt(c, Prev);
    } else if hasNext {
      assert RemoveAll(c, [Next]) == RemoveAt(c, Next);
    }
  }

  /** For a list in the locators' shape, the offsets are removed first, from
      the original ids, and the boundary steps act on the ids that survive. */
  lemma RemoveInLocatorOrder(b: Block, hasPrev: bool, hasNext: bool, offsets: seq<Pos>)
    requires AscendingOffsets(offsets, |b.postIds|)
    ensures RemoveAll(b, Indices(hasPrev, hasNext, offsets))
         == BoundarySteps(b, hasPrev, hasNext, Survivors(b.postIds, Offsets(offsets)))
  {
    RemoveAllAppend(b, Boundaries(hasPrev, hasNext), offsets);
    RemoveOffsets(b, offsets);
    var c := b.(postIds := Survivors(b.postIds, Offsets(offsets)));
    RemoveBoundaries(c, hasPrev, hasNext);
  }

  // ---------------------------------------------------------------------------
  // removePostsFromBlocks

  /** The blocks after every listed block has had its positions removed. */
  function Applied(blocks: seq<Block>, indicesMap: map<nat, seq<Pos>>): (r: seq<Block>)
    ensures |r| == |blocks|
    ensures forall i :: 0 <= i < |blocks| && i !in indicesMap ==> r[i] == blocks[i]
    ensures forall i :: 0 <= i < |blocks| ==>
              |r[i].postIds| <= |blocks[i].postIds| && forall x :: x in r[i].postIds ==> x in blocks[i].postIds
  {
    seq(|blocks|, i requires 0 <= i < |blocks| =>
      if i in indicesMap then RemoveAll(blocks[i], indicesMap[i]) else blocks[i])
  }

  /** The blocks that still hold at least one id, in their original order. */
  function NonEmpty(blocks: seq<Block>): (r: seq<Block>)
    ensures |r| <= |blocks|
    ensures forall k :: 0 <= k < |r| ==> |r[k].postIds| > 0
  {
    if blocks == [] then []
    else (if |blocks[0].postIds| == 0 then [] else [blocks[0]]) + NonEmpty(blocks[1..])
  }

  lemma NonEmptyStep(blocks: seq<Block>, i: nat)
    requires i < |blocks|
    ensures NonEmpty(blocks[i..]) ==
            (if |blocks[i].postIds| == 0 then [] else [blocks[i]]) + NonEmpty(blocks[i + 1..])
  {
    assert blocks[i..][0] == blocks[i] && blocks[i..][1..] == blocks[i + 1..];
  }

  /** `NonEmpty` keeps exactly the blocks of its input that hold an id. */
  lemma {:induction false} NonEmptyMembers(blocks: seq<Block>)
    ensures forall b :: b in NonEmpty(blocks) <==> b in blocks && |b.postIds| > 0
  {
    if blocks != [] {
      NonEmptyMembers(blocks[1..]);
      assert blocks == [blocks[0]] + blocks[1..];
    }
  }

  /** `removePostsFromBlocks`: every block named in the map has its positions
      removed, then the now empty blocks are spliced out by a backward loop. */
  method RemovePostsFromBlocks(blocks: seq<Block>, indicesMap: map<nat, seq<Pos>>) returns (nextBlocks: seq<Block>)
    requires forall i :: i in indicesMap ==> i < |blocks|
    ensures nextBlocks == NonEmpty(Applied(blocks, indicesMap))
  {
    nextBlocks := blocks;
    var pending := indicesMap.Keys;
    while pending != {}
      invariant pending <= indicesMap.Keys
      invariant |nextBlocks| == |blocks|
      invariant forall i :: 0 <= i < |blocks| ==>
                  nextBlocks[i] == if i in indicesMap && i !in pending then RemoveAll(blocks[i], indicesMap[i]) else blocks[i]
      decreases |pending|
    {
      var blockIndex :| blockIndex in pending;
      var removed := RemovePostsFromBlock(nextBlocks[blockIndex], indicesMap[blockIndex]);
      nextBlocks := nextBlocks[blockIndex := removed];
      pending := pending - {blockIndex};
    }
    assert |nextBlocks| == |Applied(blocks, indicesMap)|;
    assert nextBlocks == Applied(blocks, indicesMap);
    nextBlocks := RemoveEmptyBlocks(nextBlocks);
  }

  /** The second loop of `removePostsFromBlocks`: walk the blocks backwards and
      splice out each one that holds no id. */
  method RemoveEmptyBlocks(blocks: seq<Block>) returns (nextBlocks: seq<Block>)
    ensures nextBlocks == NonEmpty(blocks)
  {
    nextBlocks := blocks;
    var i := |nextBlocks|;
    assert blocks[i..] == [];
    while i > 0
      invariant 0 <= i <= |blocks|
      invariant nextBlocks == blocks[..i] + NonEmpty(blocks[i..])
    {
      i := i - 1;
      NonEmptyStep(blocks, i);
      ghost var rest := NonEmpty(blocks[i + 1..]);
      assert nextBlocks == blocks[..i] + [blocks[i]] + rest by {
        assert blocks[..i + 1] == blocks[..i] + [blocks[i]];
      }
      if |nextBlocks[i].postIds| == 0 {
        assert nextBlocks[..i] == blocks[..i];
        assert nextBlocks[i + 1..] == rest;
        nextBlocks := nextBlocks[..i] + nextBlocks[i + 1..];
      }
    }
    assert blocks[0..] == blocks;
  }
}
