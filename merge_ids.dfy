/** The ordered merge of two id lists without repeating the ids they share
    (`mergeIds`). */
module Merge {
  import opened Blocks

  /** The elements of `s` that are not in `seen`, in their order in `s`. */
  function Unseen(s: seq<string>, seen: set<string>): (r: seq<string>)
    ensures |r| <= |s|
  {
    if s == [] then []
    else Unseen(s[..|s| - 1], seen) + (if s[|s| - 1] in seen then [] else [s[|s| - 1]])
  }

  /** `Unseen` keeps exactly the elements that are not in `seen`. */
  lemma {:induction false} UnseenMembers(s: seq<string>, seen: set<string>)
    ensures forall x :: x in Unseen(s, seen) <==> x in s && x !in seen
  {
    if s != [] {
      UnseenMembers(s[..|s| - 1], seen);
      assert s == s[..|s| - 1] + [s[|s| - 1]];
    }
  }

  lemma {:induction false} UnseenAll(s: seq<string>, seen: set<string>)
    requires Elems(s) <= seen
    ensures Unseen(s, seen) == []
  {
    if s != [] {
      assert s[|s| - 1] in Elems(s);
      assert Elems(s[..|s| - 1]) <= Elems(s);
      UnseenAll(s[..|s| - 1], seen);
    }
  }

  /** What `mergeIds(left, right)` returns: `left`, followed by the ids of
      `right` that `left` does not hold, in `right`'s order. */
  function Merged(left: seq<string>, right: seq<string>): seq<string>
  {
    left + Unseen(right, Elems(left))
  }

  /** The loop of `mergeIds`: copy `left`, then push every id of `right` that
      is not in the set built from `left`. */
  method MergeIds(left: seq<string>, right: seq<string>) returns (result: seq<string>)
    ensures result == Merged(left, right)
  {
    result := left;
    var seen := Elems(left);
    for k := 0 to |right|
      invariant result == left + Unseen(right[..k], seen)
    {
      var id := right[k];
      assert right[..k + 1] == right[..k] + [id];
      if id in seen {
        continue;
      }
      result := result + [id];
    }
    assert right[..|right|] == right;
  }

  lemma {:induction false} UnseenNothing(s: seq<string>)
    ensures Unseen(s, {}) == s
  {
    if s != [] {
      UnseenNothing(s[..|s| - 1]);
      assert s == s[..|s| - 1] + [s[|s| - 1]];
    }
  }

  lemma {:induction false} UnseenAppend(s: seq<string>, t: seq<string>, seen: set<string>)
    ensures Unseen(s + t, seen) == Unseen(s, seen) + Unseen(t, seen)
  {
    if t == [] {
      assert s + t == s;
    } else {
      var u := s + t;
      var last := t[|t| - 1];
      assert u[..|u| - 1] == s + t[..|t| - 1];
      assert u[|u| - 1] == last;
      UnseenAppend(s, t[..|t| - 1], seen);
      var tail := if last in seen then [] else [last];
      assert Unseen(u, seen) == Unseen(s + t[..|t| - 1], seen) + tail;
    }
  }

  lemma {:induction false} UnseenTwice(s: seq<string>, a: set<string>, b: set<string>)
    ensures Unseen(Unseen(s, b), a) == Unseen(s, a + b)
  {
    if s != [] {
      var init := s[..|s| - 1];
      var last := s[|s| - 1];
      UnseenTwice(init, a, b);
      UnseenAppend(Unseen(init, b), if last in b then [] else [last], a);
    }
  }

  lemma {:induction false} UnseenNoDuplicates(s: seq<string>, seen: set<string>)
    requires NoDuplicates(s)
    ensures NoDuplicates(Unseen(s, seen))
  {
    if s != [] {
      var init := s[..|s| - 1];
      var last := s[|s| - 1];
      assert NoDuplicates(init);
      UnseenNoDuplicates(init, seen);
      UnseenMembers(init, seen);
      assert last !in init;
    }
  }

  /** The result begins with `left` and holds exactly the ids of both. */
  lemma MergedShape(left: seq<string>, right: seq<string>)
    ensures |left| <= |Merged(left, right)| <= |left| + |right|
    ensures Merged(left, right)[..|left|] == left
    ensures Elems(Merged(left, right)) == Elems(left) + Elems(right)
  {
    var m := Merged(left, right);
    assert m[..|left|] == left;
    UnseenMembers(right, Elems(left));
    forall x | x in Elems(left) + Elems(right) ensures x in Elems(m) {
      if x in left {
        assert m[..|left|] == left;
      } else {
        assert x in Unseen(right, Elems(left));
      }
    }
  }

  /** Merging a list with itself gives the same list. */
  lemma MergedSelf(a: seq<string>)
    ensures Merged(a, a) == a
  {
    UnseenAll(a, Elems(a));
  }

  /** Merging into an empty list, or merging an empty list in, is the identity. */
  lemma MergedEmpty(a: seq<string>)
    ensures Merged([], a) == a
    ensures Merged(a, []) == a
  {
    UnseenNothing(a);
    assert Elems([]) == {};
  }

  /** When neither input repeats an id, neither does the result, and its ids are
      those of the two inputs. */
  lemma MergedNoDuplicates(left: seq<string>, right: seq<string>)
    requires NoDuplicates(left) && NoDuplicates(right)
    ensures NoDuplicates(Merged(left, right))
    ensures Elems(Merged(left, right)) == Elems(left) + Elems(right)
  {
    var u := Unseen(right, Elems(left));
    UnseenNoDuplicates(right, Elems(left));
    UnseenMembers(right, Elems(left));
    var m := left + u;
    forall i, j | 0 <= i < j < |m| ensures m[i] != m[j] {
      if j >= |left| && i < |left| {
        assert m[j] in u;
        assert m[i] in left;
      } else if i >= |left| {
        assert m[i] == u[i - |left|] && m[j] == u[j - |left|];
      }
    }
    MergedShape(left, right);
  }

  /** The merge is associative, whatever the inputs. */
  lemma MergedAssociative(a: seq<string>, b: seq<string>, c: seq<string>)
    ensures Merged(Merged(a, b), c) == Merged(a, Merged(b, c))
  {
    var ea, eb := Elems(a), Elems(b);
    MergedShape(a, b);
    assert Elems(Merged(a, b)) == ea + eb;
    UnseenAppend(b, Unseen(c, eb), ea);
    UnseenTwice(c, ea, eb);
    calc {
      Merged(a, Merged(b, c));
      a + Unseen(b + Unseen(c, eb), ea);
      a + (Unseen(b, ea) + Unseen(Unseen(c, eb), ea));
      (a + Unseen(b, ea)) + Unseen(c, ea + eb);
      Merged(a, b) + Unseen(c, Elems(Merged(a, b)));
      Merged(Merged(a, b), c);
    }
  }
}
