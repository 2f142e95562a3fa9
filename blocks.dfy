/** The data model of the per-channel pagination cache: blocks of post ids,
    positions inside a block, and the whole state. */
module Blocks {

  datatype Option<T> = None | Some(value: T)

  /** The id that stands for "no further post exists in this direction". */
  const EMPTY: string := ""

  /** A contiguous run of post ids, newest first, together with the ids just
      outside the run: `nextPostId` is the post right after `postIds[0]`,
      `prevPostId` the post right before the last element. */
  datatype Block = Block(nextPostId: string, postIds: seq<string>, prevPostId: string)

  /** A position a locator reports and compaction removes: the block's
      `prevPostId` boundary, its `nextPostId` boundary, or an offset into
      `postIds`. This replaces the reserved indices -1 and -2. */
  datatype Pos = Prev | Next | Interior(offset: nat)

  /** Channel id to the blocks known for that channel. */
  type State = map<string, seq<Block>>

  /** The head block holds the most recent posts of its channel. */
  predicate IsHead(b: Block)
  {
    b.nextPostId == EMPTY
  }

  predicate ValidPos(b: Block, p: Pos)
  {
    p.Interior? ==> p.offset < |b.postIds|
  }

  /** The id held at position `p` of block `b`. */
  function IdAt(b: Block, p: Pos): string
    requires ValidPos(b, p)
  {
    match p
    case Prev => b.prevPostId
    case Next => b.nextPostId
    case Interior(j) => b.postIds[j]
  }

  /** The order in which positions of one block are visited: the previous
      boundary, the next boundary, then the offsets in ascending order. */
  function Rank(p: Pos): nat
  {
    match p
    case Prev => 0
    case Next => 1
    case Interior(j) => j + 2
  }

  /** The set of elements of a sequence. */
  function Elems(s: seq<string>): set<string>
  {
    set x | x in s
  }

  predicate NoDuplicates(s: seq<string>)
  {
    forall i, j :: 0 <= i < j < |s| ==> s[i] != s[j]
  }

  /** One for a head block, zero for any other. */
  function HeadFlag(b: Block): nat
  {
    if IsHead(b) then 1 else 0
  }

  /** The number of head blocks in a channel. */
  function HeadCount(blocks: seq<Block>): (n: nat)
    ensures n <= |blocks|
  {
    if blocks == [] then 0
    else HeadFlag(blocks[0]) + HeadCount(blocks[1..])
  }

  /** A channel has at most one head block. */
  predicate AtMostOneHead(blocks: seq<Block>)
  {
    HeadCount(blocks) <= 1
  }

  /** The count is zero exactly when no block is a head. */
  lemma {:induction false} HeadCountZero(blocks: seq<Block>)
    ensures HeadCount(blocks) == 0 <==> forall i :: 0 <= i < |blocks| ==> !IsHead(blocks[i])
  {
    if blocks != [] {
      HeadCountZero(blocks[1..]);
      assert forall i :: 1 <= i < |blocks| ==> blocks[i] == blocks[1..][i - 1];
    }
  }

  lemma {:induction false} HeadCountAppend(s: seq<Block>, t: seq<Block>)
    ensures HeadCount(s + t) == HeadCount(s) + HeadCount(t)
  {
    if s == [] {
      assert s + t == t;
    } else {
      assert (s + t)[1..] == s[1..] + t;
      HeadCountAppend(s[1..], t);
    }
  }

  lemma HeadCountSplit(s: seq<Block>, i: nat)
    requires i < |s|
    ensures HeadCount(s) == HeadCount(s[..i]) + HeadFlag(s[i]) + HeadCount(s[i + 1..])
  {
    assert s[..i] + s[i..] == s;
    HeadCountAppend(s[..i], s[i..]);
    assert s[i..][0] == s[i] && s[i..][1..] == s[i + 1..];
  }

  lemma HeadCountUpdate(s: seq<Block>, i: nat, b: Block)
    requires i < |s|
    ensures HeadCount(s[i := b]) + HeadFlag(s[i])
         == HeadCount(s) + HeadFlag(b)
  {
    HeadCountSplit(s, i);
    HeadCountSplit(s[i := b], i);
    assert s[i := b][..i] == s[..i];
    assert s[i := b][i + 1..] == s[i + 1..];
  }

  lemma HeadCountRemove(s: seq<Block>, i: nat)
    requires i < |s|
    ensures HeadCount(s[..i] + s[i + 1..]) + HeadFlag(s[i]) == HeadCount(s)
  {
    HeadCountSplit(s, i);
    HeadCountAppend(s[..i], s[i + 1..]);
  }

  /** Every post id held inside the blocks of a channel (boundary ids are not
      counted). */
  function Ids(blocks: seq<Block>): set<string>
  {
    if blocks == [] then {} else Elems(blocks[0].postIds) + Ids(blocks[1..])
  }

  lemma {:induction false} IdsAppend(s: seq<Block>, t: seq<Block>)
    ensures Ids(s + t) == Ids(s) + Ids(t)
  {
    if s == [] {
      assert s + t == t;
    } else {
      assert (s + t)[1..] == s[1..] + t;
      IdsAppend(s[1..], t);
    }
  }

  lemma IdsSplit(s: seq<Block>, i: nat)
    requires i < |s|
    ensures Ids(s) == Ids(s[..i]) + Elems(s[i].postIds) + Ids(s[i + 1..])
  {
    assert s[..i] + s[i..] == s;
    IdsAppend(s[..i], s[i..]);
    assert s[i..][0] == s[i] && s[i..][1..] == s[i + 1..];
  }

  /** Replacing a block by one that holds at least its ids adds the new
      block's ids and loses none. */
  lemma IdsGrow(s: seq<Block>, i: nat, b: Block)
    requires i < |s|
    requires Elems(s[i].postIds) <= Elems(b.postIds)
    ensures Ids(s[i := b]) == Ids(s) + Elems(b.postIds)
    ensures Elems(s[i].postIds) <= Ids(s)
  {
    IdsSplit(s, i);
    IdsSplit(s[i := b], i);
    assert s[i := b][..i] == s[..i];
    assert s[i := b][i + 1..] == s[i + 1..];
  }
}

