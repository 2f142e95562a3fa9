/** How the locators and compaction fit together: removing every position
    `findPostIndicesForRemove` reports leaves nothing for it to find. */
module Removal {
  import opened Blocks
  import opened Locator
  import opened Compaction

  /** An id at an offset that is not removed survives. */
  lemma {:induction false} SurvivorsKeep(ids: seq<string>, gone: set<nat>, k: nat)
    requires k < |ids| && k !in gone
    ensures ids[k] in Survivors(ids, gone)
  {
    var n := |ids|;
    if k < n - 1 {
      SurvivorsKeep(ids[..n - 1], gone, k);
    }
  }

  /** The ids left after removing the collected offsets are exactly the
      ids of the block the query does not collect. */
  lemma SurvivorsAreMisses(b: Block, q: Query)
    ensures var s := Survivors(b.postIds, Offsets(InteriorHits(b, q, 0)));
            forall x :: x in s <==> x in b.postIds && !Hit(q, x)
  {
    var offsets := InteriorHits(b, q, 0);
    var s := Survivors(b.postIds, Offsets(offsets));
    forall x | x in s ensures x in b.postIds && !Hit(q, x) {
      SurvivorsMembers(b.postIds, Offsets(offsets), x);
      var k :| 0 <= k < |b.postIds| && k !in Offsets(offsets) && b.postIds[k] == x;
      if Hit(q, x) {
        assert false;
      }
    }
    forall x | x in b.postIds && !Hit(q, x) ensures x in s {
      var k :| 0 <= k < |b.postIds| && b.postIds[k] == x;
      if k in Offsets(offsets) {
        assert false;
      }
      SurvivorsKeep(b.postIds, Offsets(offsets), k);
    }
  }

  /** The boundary steps move ids only between a block's ids and its
      boundaries. When none of `ids` and no unlisted boundary is collected,
      afterwards no id of the block and no boundary is collected, as long as
      EMPTY is not collected or the block still holds an id: a boundary
      becomes EMPTY only when no id is left to take its place. */
  lemma BoundaryStepsMiss(b: Block, hasPrev: bool, hasNext: bool, ids: seq<string>, q: Query)
    requires !Hit(q, EMPTY) || |BoundarySteps(b, hasPrev, hasNext, ids).postIds| > 0
    requires forall x :: x in ids ==> !Hit(q, x)
    requires !hasPrev ==> !Hit(q, b.prevPostId)
    requires !hasNext ==> !Hit(q, b.nextPostId)
    ensures var r := BoundarySteps(b, hasPrev, hasNext, ids);
            forall p :: ValidPos(r, p) ==> !Hit(q, IdAt(r, p))
  {
    var c := b.(postIds := ids);
    var a := if hasNext then RemoveAt(c, Next) else c;
    var r := BoundarySteps(b, hasPrev, hasNext, ids);
    assert forall x :: x in a.postIds ==> x in ids;
    assert forall x :: x in r.postIds ==> x in ids;
    assert |r.postIds| > 0 ==> |a.postIds| > 0 && (hasNext ==> |ids| > 0);
    assert a.nextPostId == EMPTY || a.nextPostId in ids || a.nextPostId == b.nextPostId;
    assert !Hit(q, a.nextPostId);
    if hasPrev && |a.postIds| > 0 {
      assert a.postIds[|a.postIds| - 1] in a.postIds;
    }
    assert !Hit(q, r.prevPostId);
    forall p | ValidPos(r, p) ensures !Hit(q, IdAt(r, p)) {
      if p.Interior? {
        assert r.postIds[p.offset] in r.postIds;
      }
    }
  }

  /** Every one of `ids` is still in the block after the boundary steps, among
      its ids or as one of its boundaries. */
  lemma BoundaryStepsKeep(b: Block, hasPrev: bool, hasNext: bool, ids: seq<string>)
    ensures var r := BoundarySteps(b, hasPrev, hasNext, ids);
            forall x :: x in ids ==> x in r.postIds || x == r.nextPostId || x == r.prevPostId
  {
    var c := b.(postIds := ids);
    var afterNext := if hasNext then RemoveAt(c, Next) else c;
    var rest := afterNext.postIds;
    forall x | x in ids ensures x in rest || x == afterNext.nextPostId {
      if hasNext {
        var k :| 0 <= k < |ids| && ids[k] == x;
        if k > 0 {
          assert ids[1..][k - 1] == x;
        }
      }
    }
    if hasPrev && |rest| > 0 {
      assert rest == rest[..|rest| - 1] + [rest[|rest| - 1]];
    }
  }

  /** Removing its own collected positions from a block leaves no position
      whose id the query collects, as long as EMPTY is not collected or the
      block still holds an id; and every id of the block the query does not
      collect stays in the block, among its ids or as one of its new
      boundaries. */
  lemma CompactedBlock(b: Block, q: Query)
    ensures var r := RemoveAll(b, Located(b, q));
            !Hit(q, EMPTY) || |r.postIds| > 0 ==> forall p :: ValidPos(r, p) ==> !Hit(q, IdAt(r, p))
    ensures var r := RemoveAll(b, Located(b, q));
            forall x :: x in b.postIds && !Hit(q, x) ==>
              x in r.postIds || x == r.nextPostId || x == r.prevPostId
  {
    var offsets := InteriorHits(b, q, 0);
    var hasPrev, hasNext := Hit(q, b.prevPostId), Hit(q, b.nextPostId);
    assert Located(b, q) == Indices(hasPrev, hasNext, offsets);
    RemoveInLocatorOrder(b, hasPrev, hasNext, offsets);
    SurvivorsAreMisses(b, q);
    var s := Survivors(b.postIds, Offsets(offsets));
    if !Hit(q, EMPTY) || |BoundarySteps(b, hasPrev, hasNext, s).postIds| > 0 {
      BoundaryStepsMiss(b, hasPrev, hasNext, s, q);
    }
    BoundaryStepsKeep(b, hasPrev, hasNext, s);
  }

  /** No interior position from offset `j` on is collected when none of the
      ids there is. */
  lemma {:induction false} InteriorHitsNone(b: Block, q: Query, j: nat)
    requires forall k :: j <= k < |b.postIds| ==> !Hit(q, b.postIds[k])
    decreases |b.postIds| - j
    ensures InteriorHits(b, q, j) == []
  {
    if j < |b.postIds| {
      InteriorHitsNone(b, q, j + 1);
    }
  }

  /** A block none of whose positions is collected yields no positions. */
  lemma MissesLocateNothing(b: Block, q: Query)
    requires forall p :: ValidPos(b, p) ==> !Hit(q, IdAt(b, p))
    ensures Located(b, q) == []
  {
    assert !Hit(q, IdAt(b, Prev)) && !Hit(q, IdAt(b, Next));
    forall k | 0 <= k < |b.postIds| ensures !Hit(q, b.postIds[k]) {
      assert ValidPos(b, Interior(k)) && IdAt(b, Interior(k)) == b.postIds[k];
    }
    InteriorHitsNone(b, q, 0);
  }

  /** After the collected positions are removed, a block that still holds an
      id collects nothing. */
  lemma AppliedMisses(blocks: seq<Block>, q: Query, j: nat)
    requires j < |blocks|
    requires |Applied(blocks, LocatedMap(blocks, q))[j].postIds| > 0
    ensures Located(Applied(blocks, LocatedMap(blocks, q))[j], q) == []
  {
    var m := LocatedMap(blocks, q);
    var b := Applied(blocks, m)[j];
    if j in m {
      assert b == RemoveAll(blocks[j], Located(blocks[j], q));
      CompactedBlock(blocks[j], q);
      MissesLocateNothing(b, q);
    } else {
      assert b == blocks[j];
    }
  }

  /** Locating a post and its comments, removing every reported position and
      locating again finds nothing. */
  lemma RemovedPostsAreGone(blocks: seq<Block>, q: Query)
    ensures LocatedMap(NonEmpty(Applied(blocks, LocatedMap(blocks, q))), q) == map[]
  {
    var applied := Applied(blocks, LocatedMap(blocks, q));
    var c := NonEmpty(applied);
    NonEmptyMembers(applied);
    forall i | 0 <= i < |c| ensures Located(c[i], q) == [] {
      assert c[i] in applied;
      var j :| 0 <= j < |applied| && applied[j] == c[i];
      AppliedMisses(blocks, q, j);
    }
  }
}
