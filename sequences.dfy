/** The list operations the two views apply to their arrays: `filter`, and the
    two `splice` calls of the drag-and-drop reorder. */
module Sequences {

  /** `r` is obtained from `s` by deleting elements, keeping the order of the rest. */
  predicate IsSubsequence<T(==,!new)>(r: seq<T>, s: seq<T>)
    decreases |s|
  {
    r == [] || (s != [] && if r[0] == s[0] then IsSubsequence(r[1..], s[1..]) else IsSubsequence(r, s[1..]))
  }

  /** `s.filter(keep)`: the elements satisfying `keep`, in their original order. */
  function Filter<T>(s: seq<T>, keep: T -> bool): (r: seq<T>)
    ensures |r| <= |s|
  {
    if s == [] then []
    else (if keep(s[0]) then [s[0]] else []) + Filter(s[1..], keep)
  }

  /** `filter` keeps each element satisfying `keep` exactly as often as it occurs
      in `s`, and no other element. */
  lemma {:induction false} FilterCounts<T(!new)>(s: seq<T>, keep: T -> bool)
    ensures forall x :: multiset(Filter(s, keep))[x] == if keep(x) then multiset(s)[x] else 0
  {
    if s != [] {
      FilterCounts(s[1..], keep);
      assert s == [s[0]] + s[1..];
    }
  }

  /** What `filter` keeps stays in its original order. */
  lemma {:induction false} FilterIsSubsequence<T(!new)>(s: seq<T>, keep: T -> bool)
    ensures IsSubsequence(Filter(s, keep), s)
  {
    if s != [] {
      var r := Filter(s, keep);
      FilterIsSubsequence(s[1..], keep);
      FilterCounts(s[1..], keep);
      if keep(s[0]) {
        assert r[0] == s[0] && r[1..] == Filter(s[1..], keep);
      } else {
        assert r == Filter(s[1..], keep);
        if r != [] {
          assert r[0] in multiset(r);
          assert r[0] != s[0];
        }
      }
    }
  }

  /** Filtering commutes with concatenation. */
  lemma {:induction false} FilterAppend<T>(a: seq<T>, b: seq<T>, keep: T -> bool)
    ensures Filter(a + b, keep) == Filter(a, keep) + Filter(b, keep)
  {
    if a == [] {
      assert a + b == b;
    } else {
      var head := if keep(a[0]) then [a[0]] else [];
      assert (a + b)[0] == a[0];
      assert (a + b)[1..] == a[1..] + b;
      FilterAppend(a[1..], b, keep);
      calc {
        Filter(a + b, keep);
        head + Filter(a[1..] + b, keep);
        head + (Filter(a[1..], keep) + Filter(b, keep));
        (head + Filter(a[1..], keep)) + Filter(b, keep);
        Filter(a, keep) + Filter(b, keep);
      }
    }
  }

  /** Filtering twice with the same test is filtering once. */
  lemma {:induction false} FilterIdempotent<T(!new)>(s: seq<T>, keep: T -> bool)
    ensures Filter(Filter(s, keep), keep) == Filter(s, keep)
  {
    if s != [] {
      var rest := Filter(s[1..], keep);
      FilterIdempotent(s[1..], keep);
      if keep(s[0]) {
        var r := [s[0]] + rest;
        assert Filter(s, keep) == r;
        assert r[0] == s[0] && r[1..] == rest;
      } else {
        assert Filter(s, keep) == rest;
      }
    }
  }

  /** `s.filter((_, j) => j !== i)`: drops the element at index `i`, if there is one. */
  function WithoutIndex<T>(s: seq<T>, i: int): (r: seq<T>)
    ensures |r| == if 0 <= i < |s| then |s| - 1 else |s|
    ensures forall j :: 0 <= j < |r| && (i < 0 || j < i) ==> r[j] == s[j]
    ensures forall j :: 0 <= i <= j < |r| ==> r[j] == s[j + 1]
  {
    if s == [] then []
    else
      var rest := WithoutIndex(s[1..], i - 1);
      if i == 0 then rest else [s[0]] + rest
  }

  /** For an index in range, the index filter is the first form of `splice(i, 1)`:
      everything before `i` followed by everything after it, and the removed
      element is the only one missing. */
  lemma WithoutIndexSplice<T>(s: seq<T>, i: nat)
    requires i < |s|
    ensures WithoutIndex(s, i) == s[..i] + s[i + 1..]
    ensures multiset(WithoutIndex(s, i)) + multiset{s[i]} == multiset(s)
  {
    WithoutIndexIsSlices(s, i);
    SliceOutMultiset(s, i);
  }

  lemma SliceOutMultiset<T>(s: seq<T>, i: nat)
    requires i < |s|
    ensures multiset(s[..i] + s[i + 1..]) + multiset{s[i]} == multiset(s)
  {
    var front, back := s[..i], s[i + 1..];
    assert s == front + [s[i]] + back;
  }

  lemma WithoutIndexIsSlices<T>(s: seq<T>, i: nat)
    requires i < |s|
    ensures WithoutIndex(s, i) == s[..i] + s[i + 1..]
  {
    var r, spliced := WithoutIndex(s, i), s[..i] + s[i + 1..];
    assert |r| == |spliced|;
    forall j | 0 <= j < |r| ensures r[j] == spliced[j] {
      if j < i { assert spliced[j] == s[j]; } else { assert spliced[j] == s[j + 1]; }
    }
    assert r == spliced;
  }

  /** `splice(i, 0, x)`: inserts `x` so that it sits at index `i`. */
  function InsertAt<T>(s: seq<T>, i: nat, x: T): (r: seq<T>)
    requires i <= |s|
    ensures |r| == |s| + 1 && r[i] == x
  {
    s[..i] + [x] + s[i..]
  }

  /** Removing what was just inserted gives back the original. */
  lemma InsertThenRemove<T>(s: seq<T>, i: nat, x: T)
    requires i <= |s|
    ensures WithoutIndex(InsertAt(s, i, x), i) == s
  {
    var r := WithoutIndex(InsertAt(s, i, x), i);
    assert forall j :: 0 <= j < |s| ==> r[j] == s[j];
  }

  /** The drag-and-drop reorder: take the element at `src` out, then put it back
      in at `dst`. The length stays, the dragged element lands at `dst`, and
      the elements outside the range between `src` and `dst` stay where they are. */
  function Move<T>(s: seq<T>, src: nat, dst: nat): (r: seq<T>)
    requires src < |s| && dst < |s|
    ensures |r| == |s| && r[dst] == s[src]
    ensures forall j :: 0 <= j < |s| && j < src && j < dst ==> r[j] == s[j]
    ensures forall j :: 0 <= j < |s| && j > src && j > dst ==> r[j] == s[j]
  {
    InsertAt(WithoutIndex(s, src), dst, s[src])
  }

  /** A move keeps the length and the elements, and puts the moved one at `dst`. */
  lemma MoveIsPermutation<T>(s: seq<T>, src: nat, dst: nat)
    requires src < |s| && dst < |s|
    ensures |Move(s, src, dst)| == |s|
    ensures multiset(Move(s, src, dst)) == multiset(s)
    ensures Move(s, src, dst)[dst] == s[src]
  {
    var rest := WithoutIndex(s, src);
    WithoutIndexSplice(s, src);
    var r := Move(s, src, dst);
    assert r == rest[..dst] + [s[src]] + rest[dst..];
    calc {
      multiset(r);
      multiset(rest[..dst]) + multiset{s[src]} + multiset(rest[dst..]);
      { assert rest == rest[..dst] + rest[dst..]; }
      multiset(rest) + multiset{s[src]};
      multiset(s);
    }
  }

  /** Apart from the moved element, a move keeps every element in its relative order:
      deleting the moved element from the result gives the input with it deleted. */
  lemma MoveKeepsOthersInOrder<T>(s: seq<T>, src: nat, dst: nat)
    requires src < |s| && dst < |s|
    ensures WithoutIndex(Move(s, src, dst), dst) == WithoutIndex(s, src)
  {
    InsertThenRemove(WithoutIndex(s, src), dst, s[src]);
  }

  /** Putting a removed element back where it was gives back the original. */
  lemma RemoveThenInsert<T>(s: seq<T>, i: nat)
    requires i < |s|
    ensures InsertAt(WithoutIndex(s, i), i, s[i]) == s
  {
    WithoutIndexIsSlices(s, i);
    SpliceBack(s, i, WithoutIndex(s, i));
  }

  /** The two slices around index `i`, with `s[i]` put back between them, are `s`. */
  lemma SpliceBack<T>(s: seq<T>, i: nat, rest: seq<T>)
    requires i < |s|
    requires rest == s[..i] + s[i + 1..]
    ensures rest[..i] + [s[i]] + rest[i..] == s
  {
    assert rest[..i] == s[..i];
    assert rest[i..] == s[i + 1..];
    assert s == s[..i] + [s[i]] + s[i + 1..];
  }

  /** Moving back from `dst` to `src` undoes a move. */
  lemma MoveRoundTrip<T>(s: seq<T>, src: nat, dst: nat)
    requires src < |s| && dst < |s|
    ensures Move(Move(s, src, dst), dst, src) == s
  {
    MoveKeepsOthersInOrder(s, src, dst);
    RemoveThenInsert(s, src);
  }
}
