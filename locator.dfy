/** Locating a post and its comments in a channel's blocks: the shared walk
    `iteratePostIds` and the two locators built on it,
    `findPostIndicesForRemove` and `findPostIndicesForDelete`. */
module Locator {
  import opened Blocks

  /** One call of the callback that `iteratePostIds` makes: the id found, the
      index of its block and its position in that block. */
  datatype Visit = Visit(id: string, blockIndex: nat, postIndex: Pos)

  /** What a locator looks for. `posts` maps a post id to its `root_id`; an id
      that is not a key is not a comment. With `withPost` the post itself is
      collected too, otherwise only its comments are. */
  datatype Query = Query(postId: string, posts: map<string, string>, withPost: bool)

  /** Where `findPostIndicesForDelete` found the post itself. */
  datatype Location = Location(blockIndex: nat, postIndex: Pos)

  /** The result of `findPostIndicesForDelete`. */
  datatype DeleteIndices = DeleteIndices(post: Option<Location>, comments: map<nat, seq<Pos>>)

  predicate IsCommentOf(posts: map<string, string>, id: string, postId: string)
  {
    id in posts && posts[id] == postId
  }

  /** The ids a locator collects into its map of positions. */
  predicate Hit(q: Query, id: string)
  {
    if q.withPost then id == q.postId || IsCommentOf(q.posts, id, q.postId)
    else id != q.postId && IsCommentOf(q.posts, id, q.postId)
  }

  // ---------------------------------------------------------------------------
  // The walk

  function InteriorVisits(b: Block, i: nat): seq<Visit>
  {
    seq(|b.postIds|, j requires 0 <= j < |b.postIds| => Visit(b.postIds[j], i, Interior(j)))
  }

  /** The callbacks made for block `b` at index `i`: its previous boundary,
      its next boundary, then each of its ids in order. */
  function BlockVisits(b: Block, i: nat): seq<Visit>
  {
    [Visit(b.prevPostId, i, Prev), Visit(b.nextPostId, i, Next)] + InteriorVisits(b, i)
  }

  /** Every callback `iteratePostIds` makes, in the order it makes them. */
  function Walk(blocks: seq<Block>): seq<Visit>
  {
    if blocks == [] then []
    else Walk(blocks[..|blocks| - 1]) + BlockVisits(blocks[|blocks| - 1], |blocks| - 1)
  }

  /** The number of callbacks made for the blocks before index `i`. */
  function Offset(blocks: seq<Block>, i: nat): nat
    requires i <= |blocks|
  {
    if i == 0 then 0 else Offset(blocks, i - 1) + 2 + |blocks[i - 1].postIds|
  }

  /** The nested loops of `iteratePostIds`, collecting the callbacks it makes. */
  method IteratePostIds(blocks: seq<Block>) returns (visits: seq<Visit>)
    ensures visits == Walk(blocks)
  {
    visits := [];
    for i := 0 to |blocks|
      invariant visits == Walk(blocks[..i])
    {
      var block := blocks[i];
      ghost var boundaries := [Visit(block.prevPostId, i, Prev), Visit(block.nextPostId, i, Next)];
      visits := visits + [Visit(block.prevPostId, i, Prev)];
      visits := visits + [Visit(block.nextPostId, i, Next)];
      for j := 0 to |block.postIds|
        invariant visits == Walk(blocks[..i]) + boundaries + InteriorVisits(block, i)[..j]
      {
        assert InteriorVisits(block, i)[..j + 1] == InteriorVisits(block, i)[..j] + [Visit(block.postIds[j], i, Interior(j))];
        visits := visits + [Visit(block.postIds[j], i, Interior(j))];
      }
      assert InteriorVisits(block, i)[..|block.postIds|] == InteriorVisits(block, i);
      assert blocks[..i + 1][..i] == blocks[..i];
    }
    assert blocks[..|blocks|] == blocks;
  }

  lemma {:induction false} OffsetPrefix(blocks: seq<Block>, k: nat, i: nat)
    requires i <= k <= |blocks|
    ensures Offset(blocks[..k], i) == Offset(blocks, i)
  {
    if i > 0 {
      OffsetPrefix(blocks, k, i - 1);
    }
  }

  lemma {:induction false} OffsetGrows(blocks: seq<Block>, j: nat, i: nat)
    requires j < i <= |blocks|
    ensures Offset(blocks, j) + 2 + |blocks[j].postIds| <= Offset(blocks, i)
  {
    if j < i - 1 {
      OffsetGrows(blocks, j, i - 1);
    }
  }

  lemma {:induction false} WalkLength(blocks: seq<Block>)
    ensures |Walk(blocks)| == Offset(blocks, |blocks|)
  {
    if blocks != [] {
      var n := |blocks|;
      WalkLength(blocks[..n - 1]);
      OffsetPrefix(blocks, n - 1, n - 1);
    }
  }

  /** The walk of a non-empty list is the walk without its last block,
      followed by that block's visits. */
  lemma WalkSnoc(blocks: seq<Block>)
    requires |blocks| > 0
    ensures var n := |blocks|;
            && Walk(blocks) == Walk(blocks[..n - 1]) + BlockVisits(blocks[n - 1], n - 1)
            && |Walk(blocks[..n - 1])| == Offset(blocks, n - 1)
  {
    var n := |blocks|;
    WalkLength(blocks[..n - 1]);
    OffsetPrefix(blocks, n - 1, n - 1);
  }

  /** Visit `r` of a block reports the id at the position of rank `r`. */
  lemma BlockVisitAt(b: Block, i: nat, r: nat)
    requires r < |BlockVisits(b, i)|
    ensures var v := BlockVisits(b, i)[r];
            && v.blockIndex == i && ValidPos(b, v.postIndex)
            && v.id == IdAt(b, v.postIndex) && Rank(v.postIndex) == r
  {
    if r >= 2 {
      assert BlockVisits(b, i)[r] == Visit(b.postIds[r - 2], i, Interior(r - 2));
    }
  }

  /** A block's visit for position `p` is its visit of rank `Rank(p)`. */
  lemma BlockVisitRank(b: Block, i: nat, p: Pos)
    requires ValidPos(b, p)
    ensures Rank(p) < |BlockVisits(b, i)|
    ensures BlockVisits(b, i)[Rank(p)] == Visit(IdAt(b, p), i, p)
  {
  }

  /** The callback for position `p` of block `i` is made at index
      `Offset(blocks, i) + Rank(p)` of the walk. */
  lemma {:induction false} WalkAt(blocks: seq<Block>, i: nat, p: Pos)
    requires i < |blocks| && ValidPos(blocks[i], p)
    ensures Offset(blocks, i) + Rank(p) < |Walk(blocks)|
    ensures Walk(blocks)[Offset(blocks, i) + Rank(p)] == Visit(IdAt(blocks[i], p), i, p)
  {
    var n := |blocks|;
    var pre := blocks[..n - 1];
    WalkSnoc(blocks);
    if i == n - 1 {
      BlockVisitRank(blocks[i], i, p);
      var bv := BlockVisits(blocks[i], i);
      assert Walk(blocks)[|Walk(pre)| + Rank(p)] == bv[Rank(p)];
    } else {
      assert pre[i] == blocks[i];
      WalkAt(pre, i, p);
      OffsetPrefix(blocks, n - 1, i);
      OffsetGrows(blocks, i, n - 1);
      var k := Offset(blocks, i) + Rank(p);
      assert Rank(p) < 2 + |blocks[i].postIds|;
      assert k < |Walk(pre)|;
      assert Walk(blocks)[k] == Walk(pre)[k];
    }
  }

  /** Every callback of the walk reports the id held at a valid position of an
      existing block, and is made at that position's index. */
  lemma {:induction false} WalkVisit(blocks: seq<Block>, k: nat)
    requires k < |Walk(blocks)|
    ensures Walk(blocks)[k].blockIndex < |blocks|
    ensures ValidPos(blocks[Walk(blocks)[k].blockIndex], Walk(blocks)[k].postIndex)
    ensures Walk(blocks)[k].id == IdAt(blocks[Walk(blocks)[k].blockIndex], Walk(blocks)[k].postIndex)
    ensures k == Offset(blocks, Walk(blocks)[k].blockIndex) + Rank(Walk(blocks)[k].postIndex)
  {
    var n := |blocks|;
    var pre := blocks[..n - 1];
    WalkSnoc(blocks);
    if k < |Walk(pre)| {
      WalkVisit(pre, k);
      OffsetPrefix(blocks, n - 1, Walk(pre)[k].blockIndex);
      assert Walk(blocks)[k] == Walk(pre)[k];
    } else {
      var r := k - |Walk(pre)|;
      assert Walk(blocks)[k] == BlockVisits(blocks[n - 1], n - 1)[r];
      BlockVisitAt(blocks[n - 1], n - 1, r);
    }
  }

  /** Positions later in walk order are visited later. */
  lemma KeyOrder(blocks: seq<Block>, i: nat, p: Pos, j: nat, p': Pos)
    requires i < |blocks| && ValidPos(blocks[i], p)
    requires j < |blocks| && ValidPos(blocks[j], p')
    requires j < i || (j == i && Rank(p') < Rank(p))
    ensures Offset(blocks, j) + Rank(p') < Offset(blocks, i) + Rank(p)
  {
    if j < i {
      OffsetGrows(blocks, j, i);
    }
  }

  /** The walk goes block by block in index order and, inside a block, visits
      the previous boundary, then the next boundary, then ascending offsets. */
  lemma WalkOrder(blocks: seq<Block>, k: nat, k': nat)
    requires k < k' < |Walk(blocks)|
    ensures Walk(blocks)[k].blockIndex <= Walk(blocks)[k'].blockIndex
    ensures Walk(blocks)[k].blockIndex == Walk(blocks)[k'].blockIndex ==>
              Rank(Walk(blocks)[k].postIndex) < Rank(Walk(blocks)[k'].postIndex)
  {
    var v, v' := Walk(blocks)[k], Walk(blocks)[k'];
    WalkVisit(blocks, k);
    WalkVisit(blocks, k');
    if v'.blockIndex < v.blockIndex || (v'.blockIndex == v.blockIndex && Rank(v'.postIndex) <= Rank(v.postIndex)) {
      if Rank(v'.postIndex) != Rank(v.postIndex) || v'.blockIndex != v.blockIndex {
        KeyOrder(blocks, v.blockIndex, v.postIndex, v'.blockIndex, v'.postIndex);
      }
    }
  }

  // ---------------------------------------------------------------------------
  // What the locators collect

  /** The positions of block `b` whose id the query collects, from offset `j` on. */
  function InteriorHits(b: Block, q: Query, j: nat): (r: seq<Pos>)
    decreases |b.postIds| - j
    ensures forall p :: p in r ==> p.Interior? && j <= p.offset < |b.postIds| && Hit(q, b.postIds[p.offset])
    ensures forall k :: j <= k < |b.postIds| && Hit(q, b.postIds[k]) ==> Interior(k) in r
    ensures forall a, c :: 0 <= a < c < |r| ==> Rank(r[a]) < Rank(r[c])
  {
    if j >= |b.postIds| then []
    else (if Hit(q, b.postIds[j]) then [Interior(j)] else []) + InteriorHits(b, q, j + 1)
  }

  /** The positions of block `b`, in walk order, whose id the query collects. */
  function Located(b: Block, q: Query): seq<Pos>
  {
    (if Hit(q, b.prevPostId) then [Prev] else [])
      + (if Hit(q, b.nextPostId) then [Next] else [])
      + InteriorHits(b, q, 0)
  }

  /** Block index to the collected positions of that block, for every block
      with at least one. */
  function LocatedMap(blocks: seq<Block>, q: Query): map<nat, seq<Pos>>
  {
    map i: nat | i < |blocks| && Located(blocks[i], q) != [] :: Located(blocks[i], q)
  }

  /** `Located` lists exactly the valid positions whose id is collected, each
      once, in strictly ascending walk order. */
  lemma LocatedExactly(b: Block, q: Query)
    ensures forall p :: p in Located(b, q) ==> ValidPos(b, p) && Hit(q, IdAt(b, p))
    ensures forall p :: ValidPos(b, p) && Hit(q, IdAt(b, p)) ==> p in Located(b, q)
    ensures forall a, c :: 0 <= a < c < |Located(b, q)| ==> Rank(Located(b, q)[a]) < Rank(Located(b, q)[c])
  {
    var ih := InteriorHits(b, q, 0);
    var l := Located(b, q);
    forall p | ValidPos(b, p) && Hit(q, IdAt(b, p)) ensures p in l {
      if p.Interior? {
        assert Interior(p.offset) in ih;
      }
    }
    forall a, c | 0 <= a < c < |l| ensures Rank(l[a]) < Rank(l[c]) {
      if c >= |l| - |ih| {
        assert l[c] in ih;
        if a >= |l| - |ih| {
          assert l[a] == ih[a - (|l| - |ih|)] && l[c] == ih[c - (|l| - |ih|)];
        }
      }
    }
  }

  lemma LocatedMapExactly(blocks: seq<Block>, q: Query)
    ensures forall i :: i in LocatedMap(blocks, q) ==>
              i < |blocks| && LocatedMap(blocks, q)[i] == Located(blocks[i], q) && LocatedMap(blocks, q)[i] != []
    ensures forall i, p :: 0 <= i < |blocks| && ValidPos(blocks[i], p) ==>
              (i in LocatedMap(blocks, q) && p in LocatedMap(blocks, q)[i] <==> Hit(q, IdAt(blocks[i], p)))
  {
    var m := LocatedMap(blocks, q);
    forall i, p | 0 <= i < |blocks| && ValidPos(blocks[i], p)
      ensures i in m && p in m[i] <==> Hit(q, IdAt(blocks[i], p))
    {
      LocatedExactly(blocks[i], q);
    }
  }

  // ---------------------------------------------------------------------------
  // The callbacks, folded over the walk

  /** The callback of `findPostIndicesForRemove` (and the comment branch of
      `findPostIndicesForDelete`): append the position to its block's list,
      creating the list on first use. */
  function Record(m: map<nat, seq<Pos>>, q: Query, v: Visit): map<nat, seq<Pos>>
  {
    if !Hit(q, v.id) then m
    else if v.blockIndex in m then m[v.blockIndex := m[v.blockIndex] + [v.postIndex]]
    else m[v.blockIndex := [v.postIndex]]
  }

  /** One callback: a collected id appends its position to its block's list,
      starting the list when the block has none; every other block's list,
      and the map for an id not collected, stay as they were. */
  lemma RecordCases(m: map<nat, seq<Pos>>, q: Query, v: Visit)
    ensures !Hit(q, v.id) ==> Record(m, q, v) == m
    ensures Hit(q, v.id) ==>
              var r := Record(m, q, v);
              v.blockIndex in r && r[v.blockIndex] == (if v.blockIndex in m then m[v.blockIndex] else []) + [v.postIndex]
    ensures forall i :: i != v.blockIndex ==>
              (i in Record(m, q, v) <==> i in m) && (i in m ==> Record(m, q, v)[i] == m[i])
  {
  }

  function Collect(m: map<nat, seq<Pos>>, q: Query, vs: seq<Visit>): map<nat, seq<Pos>>
    decreases |vs|
  {
    if vs == [] then m else Collect(Record(m, q, vs[0]), q, vs[1..])
  }

  /** Folding more callbacks in keeps every block's list as a prefix of what
      it becomes: positions are only ever appended. */
  lemma {:induction false} CollectGrows(m: map<nat, seq<Pos>>, q: Query, vs: seq<Visit>)
    decreases |vs|
    ensures forall i :: i in m ==> i in Collect(m, q, vs) && m[i] <= Collect(m, q, vs)[i]
  {
    if vs != [] {
      RecordCases(m, q, vs[0]);
      CollectGrows(Record(m, q, vs[0]), q, vs[1..]);
    }
  }

  /** Append `s` to block `i`'s list; an empty `s` leaves the map as it is. */
  function Extend(m: map<nat, seq<Pos>>, i: nat, s: seq<Pos>): map<nat, seq<Pos>>
  {
    if s == [] then m else m[i := if i in m then m[i] + s else s]
  }

  lemma ExtendTwice(m: map<nat, seq<Pos>>, i: nat, s: seq<Pos>, t: seq<Pos>)
    ensures Extend(Extend(m, i, s), i, t) == Extend(m, i, s + t)
  {
    if s == [] {
      assert s + t == t;
    } else if t == [] {
      assert s + t == s;
    } else if i in m {
      assert (m[i] + s) + t == m[i] + (s + t);
    }
  }

  lemma {:induction false} CollectAppend(m: map<nat, seq<Pos>>, q: Query, a: seq<Visit>, b: seq<Visit>)
    decreases |a|
    ensures Collect(m, q, a + b) == Collect(Collect(m, q, a), q, b)
  {
    if a == [] {
      assert a + b == b;
    } else {
      assert (a + b)[0] == a[0];
      assert (a + b)[1..] == a[1..] + b;
      CollectAppend(Record(m, q, a[0]), q, a[1..], b);
    }
  }

  lemma {:induction false} CollectInterior(m: map<nat, seq<Pos>>, b: Block, i: nat, q: Query, j: nat)
    requires j <= |b.postIds|
    decreases |b.postIds| - j
    ensures Collect(m, q, InteriorVisits(b, i)[j..]) == Extend(m, i, InteriorHits(b, q, j))
  {
    var iv := InteriorVisits(b, i);
    if j < |b.postIds| {
      var h := if Hit(q, b.postIds[j]) then [Interior(j)] else [];
      assert iv[j..][0] == Visit(b.postIds[j], i, Interior(j));
      assert iv[j..][1..] == iv[j + 1..];
      assert Record(m, q, iv[j..][0]) == Extend(m, i, h);
      CollectInterior(Extend(m, i, h), b, i, q, j + 1);
      ExtendTwice(m, i, h, InteriorHits(b, q, j + 1));
    } else {
      assert iv[j..] == [];
    }
  }

  lemma CollectBlock(m: map<nat, seq<Pos>>, b: Block, i: nat, q: Query)
    ensures Collect(m, q, BlockVisits(b, i)) == Extend(m, i, Located(b, q))
  {
    var bv := BlockVisits(b, i);
    var iv := InteriorVisits(b, i);
    var hp := if Hit(q, b.prevPostId) then [Prev] else [];
    var hn := if Hit(q, b.nextPostId) then [Next] else [];
    assert bv[0] == Visit(b.prevPostId, i, Prev);
    assert bv[1..][0] == Visit(b.nextPostId, i, Next);
    assert bv[1..][1..] == iv[0..];
    var m1 := Extend(m, i, hp);
    var m2 := Extend(m1, i, hn);
    assert Record(m, q, bv[0]) == m1;
    assert Record(m1, q, bv[1..][0]) == m2;
    CollectInterior(m2, b, i, q, 0);
    ExtendTwice(m, i, hp, hn);
    ExtendTwice(m, i, hp + hn, InteriorHits(b, q, 0));
  }

  /** `LocatedMap` of a list is that of the list without its last block,
      extended by the last block's positions. */
  lemma LocatedMapSnoc(blocks: seq<Block>, q: Query)
    requires |blocks| > 0
    ensures var n := |blocks|;
            LocatedMap(blocks, q) == Extend(LocatedMap(blocks[..n - 1], q), n - 1, Located(blocks[n - 1], q))
  {
    var n := |blocks|;
    var pre := blocks[..n - 1];
    var lm := LocatedMap(pre, q);
    var last := Located(blocks[n - 1], q);
    var lhs := Extend(lm, n - 1, last);
    var rhs := LocatedMap(blocks, q);
    assert n - 1 !in lm;
    forall i: nat | i < n - 1 ensures (i in lm <==> i in rhs) && (i in lm ==> lm[i] == rhs[i]) {
      assert pre[i] == blocks[i];
    }
    forall i | i in lhs ensures i in rhs && lhs[i] == rhs[i] {
      if i == n - 1 {
        assert last != [];
      }
    }
    forall i | i in rhs ensures i in lhs {
    }
    assert lhs == rhs;
  }

  /** Folding the callback over the whole walk gives `LocatedMap`. */
  lemma {:induction false} CollectWalk(blocks: seq<Block>, q: Query)
    ensures Collect(map[], q, Walk(blocks)) == LocatedMap(blocks, q)
  {
    if blocks == [] {
      assert LocatedMap(blocks, q) == map[];
    } else {
      var n := |blocks|;
      var pre := blocks[..n - 1];
      CollectWalk(pre, q);
      CollectAppend(map[], q, Walk(pre), BlockVisits(blocks[n - 1], n - 1));
      CollectBlock(LocatedMap(pre, q), blocks[n - 1], n - 1, q);
      LocatedMapSnoc(blocks, q);
    }
  }

  // ---------------------------------------------------------------------------
  // The locators

  /** `findPostIndicesForRemove`: block index to the positions, in walk order,
      holding the post or one of its comments. */
  method FindPostIndicesForRemove(postId: string, blocks: seq<Block>, posts: map<string, string>)
    returns (indices: map<nat, seq<Pos>>)
    ensures indices == LocatedMap(blocks, Query(postId, posts, true))
    ensures forall i :: i in indices ==> i < |blocks| && indices[i] != []
    ensures forall i, p :: 0 <= i < |blocks| && ValidPos(blocks[i], p) ==>
              (i in indices && p in indices[i] <==>
                 IdAt(blocks[i], p) == postId || IsCommentOf(posts, IdAt(blocks[i], p), postId))
    ensures forall i :: i in indices ==> i < |blocks| && forall a, c :: 0 <= a < c < |indices[i]| ==> Rank(indices[i][a]) < Rank(indices[i][c])
  {
    var q := Query(postId, posts, true);
    var visits := IteratePostIds(blocks);
    indices := map[];
    for k := 0 to |visits|
      invariant Collect(indices, q, visits[k..]) == Collect(map[], q, visits)
    {
      var v := visits[k];
      assert visits[k..][0] == v && visits[k..][1..] == visits[k + 1..];
      if v.id == postId || (v.id in posts && posts[v.id] == postId) {
        if v.blockIndex in indices {
          indices := indices[v.blockIndex := indices[v.blockIndex] + [v.postIndex]];
        } else {
          indices := indices[v.blockIndex := [v.postIndex]];
        }
      }
    }
    CollectWalk(blocks, q);
    LocatedMapExactly(blocks, q);
    forall i | i in indices ensures i < |blocks| && forall a, c :: 0 <= a < c < |indices[i]| ==> Rank(indices[i][a]) < Rank(indices[i][c]) {
      LocatedExactly(blocks[i], q);
    }
  }

  predicate HoldsAt(blocks: seq<Block>, i: nat, p: Pos, id: string)
  {
    i < |blocks| && ValidPos(blocks[i], p) && IdAt(blocks[i], p) == id
  }

  /** Position `p` of block `i` comes after `loc` in walk order. */
  predicate After(i: nat, p: Pos, loc: Location)
  {
    i > loc.blockIndex || (i == loc.blockIndex && Rank(p) > Rank(loc.postIndex))
  }

  /** After the first `k` visits, `post` is the location of the last of them
      that reports `id`, found at index `at`, or None when none does. */
  predicate LastSeen(visits: seq<Visit>, k: nat, id: string, post: Option<Location>, at: nat)
  {
    && k <= |visits|
    && (post.None? ==> forall t :: 0 <= t < k ==> visits[t].id != id)
    && (post.Some? ==> at < k && visits[at].id == id)
    && (post.Some? ==> post.value == Location(visits[at].blockIndex, visits[at].postIndex))
    && (post.Some? ==> forall t :: at < t < k ==> visits[t].id != id)
  }

  lemma LastSeenStep(visits: seq<Visit>, k: nat, id: string, post: Option<Location>, at: nat)
    requires k < |visits| && LastSeen(visits, k, id, post, at)
    ensures var v := visits[k];
            if v.id == id then LastSeen(visits, k + 1, id, Some(Location(v.blockIndex, v.postIndex)), k)
            else LastSeen(visits, k + 1, id, post, at)
  {
  }

  /** `findPostIndicesForDelete`: the last position holding the post itself,
      and the positions of its comments grouped by block. */
  method FindPostIndicesForDelete(postId: string, blocks: seq<Block>, posts: map<string, string>)
    returns (r: DeleteIndices)
    ensures r.comments == LocatedMap(blocks, Query(postId, posts, false))
    ensures r.post.None? <==> forall i: nat, p: Pos :: !HoldsAt(blocks, i, p, postId)
    ensures r.post.Some? ==> HoldsAt(blocks, r.post.value.blockIndex, r.post.value.postIndex, postId)
    ensures r.post.Some? ==> forall i: nat, p: Pos :: After(i, p, r.post.value) ==> !HoldsAt(blocks, i, p, postId)
  {
    var q := Query(postId, posts, false);
    var visits := IteratePostIds(blocks);
    var post: Option<Location> := None;
    var comments: map<nat, seq<Pos>> := map[];
    ghost var at: nat := 0;
    for k := 0 to |visits|
      invariant Collect(comments, q, visits[k..]) == Collect(map[], q, visits)
      invariant LastSeen(visits, k, postId, post, at)
    {
      var v := visits[k];
      assert visits[k..][0] == v && visits[k..][1..] == visits[k + 1..];
      LastSeenStep(visits, k, postId, post, at);
      if v.id == postId {
        post := Some(Location(v.blockIndex, v.postIndex));
        at := k;
      } else if v.id in posts && posts[v.id] == postId {
        if v.blockIndex in comments {
          comments := comments[v.blockIndex := comments[v.blockIndex] + [v.postIndex]];
        } else {
          comments := comments[v.blockIndex := [v.postIndex]];
        }
      }
    }
    r := DeleteIndices(post, comments);
    CollectWalk(blocks, q);
    if post.None? {
      NoVisitHolds(blocks, postId);
    } else {
      LastVisitHolds(blocks, at, postId);
    }
  }

  /** An id the walk never reports is held at no position. */
  lemma NoVisitHolds(blocks: seq<Block>, id: string)
    requires forall t :: 0 <= t < |Walk(blocks)| ==> Walk(blocks)[t].id != id
    ensures forall i: nat, p: Pos :: !HoldsAt(blocks, i, p, id)
  {
    WalkLength(blocks);
    forall i: nat, p: Pos ensures !HoldsAt(blocks, i, p, id) {
      if i < |blocks| && ValidPos(blocks[i], p) {
        WalkAt(blocks, i, p);
      }
    }
  }

  /** The position of the walk's last report of an id holds it, and no
      position after it does. */
  lemma LastVisitHolds(blocks: seq<Block>, at: nat, id: string)
    requires at < |Walk(blocks)| && Walk(blocks)[at].id == id
    requires forall t :: at < t < |Walk(blocks)| ==> Walk(blocks)[t].id != id
    ensures var loc := Location(Walk(blocks)[at].blockIndex, Walk(blocks)[at].postIndex);
            && HoldsAt(blocks, loc.blockIndex, loc.postIndex, id)
            && forall i: nat, p: Pos :: After(i, p, loc) ==> !HoldsAt(blocks, i, p, id)
  {
    WalkLength(blocks);
    WalkVisit(blocks, at);
    var loc := Location(Walk(blocks)[at].blockIndex, Walk(blocks)[at].postIndex);
    forall i: nat, p: Pos | After(i, p, loc) ensures !HoldsAt(blocks, i, p, id) {
      if i < |blocks| && ValidPos(blocks[i], p) {
        WalkAt(blocks, i, p);
        KeyOrder(blocks, i, p, loc.blockIndex, loc.postIndex);
      }
    }
  }

  /** The comments `findPostIndicesForDelete` reports are the positions
      `findPostIndicesForRemove` reports, minus those holding the post itself. */
  lemma DeleteCommentsAreRemoveMinusPost(postId: string, blocks: seq<Block>, posts: map<string, string>)
    ensures forall i, p :: 0 <= i < |blocks| && ValidPos(blocks[i], p) ==>
              var del := LocatedMap(blocks, Query(postId, posts, false));
              var rem := LocatedMap(blocks, Query(postId, posts, true));
              (i in del && p in del[i] <==> i in rem && p in rem[i] && IdAt(blocks[i], p) != postId)
  {
    LocatedMapExactly(blocks, Query(postId, posts, false));
    LocatedMapExactly(blocks, Query(postId, posts, true));
  }
}
