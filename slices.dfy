/**
 * The span machinery behind string removal: a found occurrence is a
 * (start, length) span of the value; spans are ordered by SliceComparer,
 * coalesced on a stack, and deleted from a string builder from the highest
 * start down.
 */
module Slices {

  /** A span of `length` characters starting at index `start`. */
  datatype Slice = Slice(start: nat, length: nat)
  {
    /** The index just past the span. */
    function End(): nat { start + length }
  }

  /** Index `k` is one of the span's. */
  predicate Holds(x: Slice, k: int)
  {
    x.start <= k < x.End()
  }

  /** The indices a span covers. */
  function Positions(x: Slice): set<int>
  {
    set k | x.start <= k < x.End() && Holds(x, k)
  }

  /** `x` lies inside `y`. */
  predicate Inside(x: Slice, y: Slice)
  {
    y.start <= x.start && x.End() <= y.End()
  }

  // ---------------------------------------------------------------------------
  // SliceComparer
  // ---------------------------------------------------------------------------

  /** Lexicographic order on (start, end). */
  predicate SliceLe(x: Slice, y: Slice)
  {
    x.start < y.start || (x.start == y.start && x.End() <= y.End())
  }

  /**
   * SliceComparer.Compare: by start, ties broken by end. It is zero only for the
   * same span, and its sign is the lexicographic order on (start, end).
   */
  function SliceCompare(x: Slice, y: Slice): (r: int)
    ensures r == 0 <==> x == y
    ensures r <= 0 <==> SliceLe(x, y)
    ensures r >= 0 <==> SliceLe(y, x)
  {
    if x.start == y.start then x.End() - y.End() else x.start - y.start
  }

  /** The comparer is a total order: antisymmetric in sign and transitive. */
  lemma SliceCompareIsTotalOrder(x: Slice, y: Slice, z: Slice)
    ensures SliceCompare(x, y) == -SliceCompare(y, x)
    ensures SliceCompare(x, y) <= 0 && SliceCompare(y, z) <= 0 ==> SliceCompare(x, z) <= 0
    ensures SliceCompare(x, y) <= 0 || SliceCompare(y, x) <= 0
  {
  }

  /** Ordered by the comparer. */
  predicate Sorted(ss: seq<Slice>)
  {
    forall i, j :: 0 <= i < j < |ss| ==> SliceLe(ss[i], ss[j])
  }

  /** Starts never decrease; this is all the coalescing step relies on. */
  predicate StartsOrdered(ss: seq<Slice>)
  {
    forall i, j :: 0 <= i < j < |ss| ==> ss[i].start <= ss[j].start
  }

  /** `x` placed into `ss` before the first span it does not follow. */
  function Insert(x: Slice, ss: seq<Slice>): (r: seq<Slice>)
    ensures multiset(r) == multiset(ss) + multiset{x}
    ensures |r| == |ss| + 1
  {
    if |ss| == 0 then [x]
    else if SliceLe(x, ss[0]) then [x] + ss
    else
      assert ss == [ss[0]] + ss[1..];
      [ss[0]] + Insert(x, ss[1..])
  }

  /** An element of the insertion result is the inserted span or was already there. */
  lemma InsertMembers(x: Slice, ss: seq<Slice>, y: Slice)
    requires y in Insert(x, ss)
    ensures y == x || y in ss
  {
    assert y in multiset(Insert(x, ss));
  }

  /** A span no greater than every element of a sorted sequence can lead it. */
  lemma SortedCons(x: Slice, rest: seq<Slice>)
    requires Sorted(rest) && forall k :: 0 <= k < |rest| ==> SliceLe(x, rest[k])
    ensures Sorted([x] + rest)
  {
    var r := [x] + rest;
    forall i, j | 0 <= i < j < |r| ensures SliceLe(r[i], r[j]) {
      assert r[j] == rest[j - 1];
      if i > 0 {
        assert r[i] == rest[i - 1];
      }
    }
  }

  /** Inserting into a sorted sequence keeps it sorted. */
  lemma {:induction false} InsertSorted(x: Slice, ss: seq<Slice>)
    requires Sorted(ss)
    ensures Sorted(Insert(x, ss))
    ensures Insert(x, ss)[0] == x || Insert(x, ss)[0] == ss[0]
  {
    if |ss| > 0 && !SliceLe(x, ss[0]) {
      var rest := Insert(x, ss[1..]);
      InsertSorted(x, ss[1..]);
      forall k | 0 <= k < |rest| ensures SliceLe(ss[0], rest[k]) {
        InsertMembers(x, ss[1..], rest[k]);
      }
      SortedCons(ss[0], rest);
    }
  }

  /**
   * Array.Sort with a SliceComparer: the framework sort, stood in for by an
   * insertion sort with the contract the framework gives.
   */
  function Sort(xs: seq<Slice>): (r: seq<Slice>)
    ensures multiset(r) == multiset(xs)
    ensures Sorted(r)
  {
    if |xs| == 0 then []
    else
      assert xs == xs[..|xs| - 1] + [xs[|xs| - 1]];
      var prefix := Sort(xs[..|xs| - 1]);
      InsertSorted(xs[|xs| - 1], prefix);
      Insert(xs[|xs| - 1], prefix)
  }

  /** Sorted spans have ordered starts. */
  lemma SortedStartsOrdered(ss: seq<Slice>)
    requires Sorted(ss)
    ensures StartsOrdered(ss)
  {
  }

  // ---------------------------------------------------------------------------
  // Coverage
  // ---------------------------------------------------------------------------

  /** The indices covered by some span of `ss`. */
  function Union(ss: seq<Slice>): set<int>
  {
    if |ss| == 0 then {} else Union(ss[..|ss| - 1]) + Positions(ss[|ss| - 1])
  }

  /** An index is covered exactly when some span of `ss` holds it. */
  lemma {:induction false} UnionMember(ss: seq<Slice>, k: int)
    ensures k in Union(ss) <==> exists j :: 0 <= j < |ss| && ss[j].start <= k < ss[j].End()
    decreases |ss|
  {
    if |ss| > 0 {
      var p := ss[..|ss| - 1];
      UnionMember(p, k);
      if k in Union(p) {
        var j :| 0 <= j < |p| && p[j].start <= k < p[j].End();
        assert ss[j] == p[j];
      } else if exists j :: 0 <= j < |ss| && ss[j].start <= k < ss[j].End() {
        var j :| 0 <= j < |ss| && ss[j].start <= k < ss[j].End();
        if j < |p| {
          assert p[j] == ss[j];
        }
      }
    }
  }

  /** Only the elements of `ss`, not their order or multiplicity, decide its union. */
  lemma SameElementsSameUnion(ss: seq<Slice>, ts: seq<Slice>)
    requires forall x :: x in ss <==> x in ts
    ensures Union(ss) == Union(ts)
  {
    forall k | k in Union(ss) ensures k in Union(ts) {
      UnionMember(ss, k);
      var j :| 0 <= j < |ss| && ss[j].start <= k < ss[j].End();
      assert ss[j] in ts;
      var i :| 0 <= i < |ts| && ts[i] == ss[j];
      UnionMember(ts, k);
    }
    forall k | k in Union(ts) ensures k in Union(ss) {
      UnionMember(ts, k);
      var j :| 0 <= j < |ts| && ts[j].start <= k < ts[j].End();
      assert ts[j] in ss;
      var i :| 0 <= i < |ss| && ss[i] == ts[j];
      UnionMember(ss, k);
    }
  }

  /** Consecutive spans are separated by at least one uncovered index. */
  predicate Gapped(ss: seq<Slice>)
  {
    forall i, j :: 0 <= i < j < |ss| ==> ss[i].End() < ss[j].start
  }

  /** A span inside two spans of a gapped sequence is inside the same one twice. */
  lemma InsideUnique(ss: seq<Slice>, x: Slice, i: int, j: int)
    requires Gapped(ss) && 0 <= i < |ss| && 0 <= j < |ss|
    requires Inside(x, ss[i]) && Inside(x, ss[j])
    ensures i == j
  {
  }

  // ---------------------------------------------------------------------------
  // Coalescing
  // ---------------------------------------------------------------------------

  /** Extending `top` to the end of an overlapping or touching `current` covers both. */
  lemma ExtendPositions(top: Slice, current: Slice)
    requires top.start <= current.start <= top.End() < current.End()
    ensures Positions(Slice(top.start, current.End() - top.start)) == Positions(top) + Positions(current)
  {
    var merged := Slice(top.start, current.End() - top.start);
    forall k ensures k in Positions(merged) <==> k in Positions(top) + Positions(current) {
      assert Holds(merged, k) <==> Holds(top, k) || Holds(current, k);
    }
  }

  /** The union grows by the last span's indices. */
  lemma UnionPush(ss: seq<Slice>, x: Slice)
    ensures Union(ss + [x]) == Union(ss) + Positions(x)
  {
    assert (ss + [x])[..|ss|] == ss;
  }

  /** The union of a longer prefix grows by the next span's indices. */
  lemma UnionPrefix(ss: seq<Slice>, i: nat)
    requires i < |ss|
    ensures Union(ss[..i + 1]) == Union(ss[..i]) + Positions(ss[i])
  {
    var longer := ss[..i + 1];
    assert longer[..|longer| - 1] == ss[..i];
  }

  /** Every span before `i` is inside the span of `clean` that `owner` names for it. */
  ghost predicate Owned(sorted: seq<Slice>, i: nat, clean: seq<Slice>, owner: seq<nat>)
    requires i <= |sorted|
  {
    |owner| == i && forall j :: 0 <= j < i ==> owner[j] < |clean| && Inside(sorted[j], clean[owner[j]])
  }

  /** No span ends past `length`. */
  predicate EndsWithin(ss: seq<Slice>, length: nat)
  {
    forall m :: 0 <= m < |ss| ==> ss[m].End() <= length
  }

  /**
   * `next` is what one merge iteration may leave for the stack `clean` and the
   * span `current`: at most one span more, still gapped and within `length`,
   * the spans below the top unchanged, the old top and `current` each inside a
   * span of `next`, the new top starting no later than `current`, and the
   * union grown by the indices of `current`.
   */
  predicate MergedInto(clean: seq<Slice>, current: Slice, length: nat, next: seq<Slice>)
    requires |clean| > 0
  {
    |clean| <= |next| <= |clean| + 1 && Gapped(next) && EndsWithin(next, length) &&
    (forall m :: 0 <= m < |clean| - 1 ==> next[m] == clean[m]) &&
    Inside(clean[|clean| - 1], next[|clean| - 1]) && Inside(current, next[|next| - 1]) &&
    next[|next| - 1].start <= current.start &&
    Union(next) == Union(clean) + Positions(current)
  }

  /** Pushing a span that starts after the top's end. */
  lemma PushStep(clean: seq<Slice>, current: Slice, length: nat)
    requires |clean| > 0 && Gapped(clean) && EndsWithin(clean, length) && current.End() <= length
    requires clean[|clean| - 1].End() < current.start
    ensures MergedInto(clean, current, length, clean + [current])
  {
    UnionPush(clean, current);
    var c := clean + [current];
    forall i, j | 0 <= i < j < |c| ensures c[i].End() < c[j].start {
      if j == |clean| && i < |clean| - 1 {
        assert clean[i].End() < clean[|clean| - 1].start;
      }
    }
  }

  /** A stack whose top is replaced by a span starting at the same index stays gapped. */
  lemma ReplaceTop(clean: seq<Slice>, merged: Slice, length: nat)
    requires |clean| > 0 && Gapped(clean) && EndsWithin(clean, length) && merged.End() <= length
    requires merged.start == clean[|clean| - 1].start
    ensures var next := clean[..|clean| - 1] + [merged];
      Gapped(next) && EndsWithin(next, length) && forall m :: 0 <= m < |clean| - 1 ==> next[m] == clean[m]
  {
    var next := clean[..|clean| - 1] + [merged];
    forall i, j | 0 <= i < j < |next| ensures next[i].End() < next[j].start {
      assert clean[i].End() < clean[j].start;
    }
  }

  /** Replacing the top by its extent with an overlapping or touching span that reaches further. */
  lemma ExtendStep(clean: seq<Slice>, current: Slice, length: nat)
    requires |clean| > 0 && Gapped(clean) && EndsWithin(clean, length) && current.End() <= length
    requires var top := clean[|clean| - 1]; top.start <= current.start <= top.End() < current.End()
    ensures var top := clean[|clean| - 1];
      MergedInto(clean, current, length, clean[..|clean| - 1] + [Slice(top.start, current.End() - top.start)])
  {
    var top := clean[|clean| - 1];
    var rest := clean[..|clean| - 1];
    var merged := Slice(top.start, current.End() - top.start);
    ReplaceTop(clean, merged, length);
    assert clean == rest + [top];
    UnionPush(rest, top);
    UnionPush(rest, merged);
    ExtendPositions(top, current);
  }

  /** A span inside the top is dropped: it adds nothing to the union. */
  lemma ContainedStep(clean: seq<Slice>, current: Slice, length: nat)
    requires |clean| > 0 && Gapped(clean) && EndsWithin(clean, length)
    requires Inside(current, clean[|clean| - 1])
    ensures MergedInto(clean, current, length, clean)
  {
    var top := clean[|clean| - 1];
    assert clean == clean[..|clean| - 1] + [top];
    UnionPush(clean[..|clean| - 1], top);
    assert Positions(current) <= Positions(top) by {
      forall k | k in Positions(current) ensures k in Positions(top) {
        assert Holds(top, k);
      }
    }
  }

  /** Ownership survives a push, a top extension, or a dropped span. */
  lemma OwnedStep(sorted: seq<Slice>, i: nat, clean: seq<Slice>, owner: seq<nat>, next: seq<Slice>)
    requires i < |sorted| && Owned(sorted, i, clean, owner)
    requires |clean| > 0 && |next| >= |clean|
    requires forall m :: 0 <= m < |clean| - 1 ==> next[m] == clean[m]
    requires Inside(clean[|clean| - 1], next[|clean| - 1])
    requires Inside(sorted[i], next[|next| - 1])
    ensures Owned(sorted, i + 1, next, owner + [|next| - 1])
  {
    var o := owner + [|next| - 1];
    forall j | 0 <= j < i + 1 ensures o[j] < |next| && Inside(sorted[j], next[o[j]]) {
      if j < i {
        assert o[j] == owner[j];
      }
    }
  }

  /**
   * One iteration of the merge loop, with the top of the stack as the last
   * element: a span starting after the top's end is pushed; one that overlaps or
   * touches the top and reaches further replaces the top (Pop, then Push) by
   * their common extent; one inside the top is dropped.
   */
  method MergeStep(clean: seq<Slice>, current: Slice, ghost length: nat) returns (next: seq<Slice>)
    requires |clean| > 0 && Gapped(clean) && EndsWithin(clean, length) && current.End() <= length
    requires clean[|clean| - 1].start <= current.start
    ensures MergedInto(clean, current, length, next)
  {
    var top := clean[|clean| - 1];
    if top.End() < current.start {
      PushStep(clean, current, length);
      next := clean + [current];
    } else if top.End() < current.End() {
      ExtendStep(clean, current, length);
      next := clean[..|clean| - 1] + [Slice(top.start, current.End() - top.start)];
    } else {
      ContainedStep(clean, current, length);
      next := clean;
    }
  }

  /**
   * The merge loop over the sorted spans, starting from a stack holding the
   * first span; the first iteration compares that span with itself. The result
   * is gapped, covers what the input covers, and holds every input span inside
   * one of its own.
   */
  method Coalesce(sorted: seq<Slice>, ghost length: nat) returns (clean: seq<Slice>)
    requires |sorted| > 0 && StartsOrdered(sorted)
    requires EndsWithin(sorted, length)
    ensures |clean| > 0 && Gapped(clean)
    ensures Union(clean) == Union(sorted)
    ensures EndsWithin(clean, length)
    ensures forall j :: 0 <= j < |sorted| ==> exists m :: 0 <= m < |clean| && Inside(sorted[j], clean[m])
  {
    clean := [sorted[0]];
    ghost var owner: seq<nat> := [];
    assert Union(clean) == Positions(sorted[0]) by {
      UnionPush([], sorted[0]);
    }
    for i := 0 to |sorted|
      invariant |clean| > 0 && Gapped(clean) && EndsWithin(clean, length)
      invariant Union(clean) == Union(sorted[..i]) + Positions(sorted[0])
      invariant forall j :: i <= j < |sorted| ==> clean[|clean| - 1].start <= sorted[j].start
      invariant Owned(sorted, i, clean, owner)
    {
      var current := sorted[i];
      UnionPrefix(sorted, i);
      var next := MergeStep(clean, current, length);
      OwnedStep(sorted, i, clean, owner, next);
      owner := owner + [|next| - 1];
      clean := next;
    }
    assert sorted[..|sorted|] == sorted;
    forall k | k in Positions(sorted[0]) ensures k in Union(sorted) {
      UnionMember(sorted, k);
    }
    forall j | 0 <= j < |sorted| ensures exists m :: 0 <= m < |clean| && Inside(sorted[j], clean[m]) {
      assert Inside(sorted[j], clean[owner[j]]);
    }
  }

  // ---------------------------------------------------------------------------
  // Deletion
  // ---------------------------------------------------------------------------

  /** The characters of s[lo..hi] whose indices are not in `cover`, in order. */
  function Keep(s: string, cover: set<int>, lo: nat, hi: nat): (r: string)
    requires lo <= hi <= |s|
    ensures |r| <= hi - lo
    decreases hi
  {
    if hi == lo then []
    else Keep(s, cover, lo, hi - 1) + (if hi - 1 in cover then [] else [s[hi - 1]])
  }

  /** Keeping distributes over adjacent ranges. */
  lemma {:induction false} KeepSplit(s: string, cover: set<int>, lo: nat, mid: nat, hi: nat)
    requires lo <= mid <= hi <= |s|
    ensures Keep(s, cover, lo, hi) == Keep(s, cover, lo, mid) + Keep(s, cover, mid, hi)
    decreases hi
  {
    if hi > mid {
      KeepSplit(s, cover, lo, mid, hi - 1);
    }
  }

  /** An uncovered range is kept whole. */
  lemma {:induction false} KeepUncovered(s: string, cover: set<int>, lo: nat, hi: nat)
    requires lo <= hi <= |s|
    requires forall k :: lo <= k < hi ==> k !in cover
    ensures Keep(s, cover, lo, hi) == s[lo..hi]
    decreases hi
  {
    if hi > lo {
      KeepUncovered(s, cover, lo, hi - 1);
      assert s[lo..hi] == s[lo..hi - 1] + [s[hi - 1]];
    }
  }

  /** A covered range is dropped entirely. */
  lemma {:induction false} KeepCovered(s: string, cover: set<int>, lo: nat, hi: nat)
    requires lo <= hi <= |s|
    requires forall k :: lo <= k < hi ==> k in cover
    ensures Keep(s, cover, lo, hi) == []
    decreases hi
  {
    if hi > lo {
      KeepCovered(s, cover, lo, hi - 1);
    }
  }

  /** The number of kept characters is the length less the covered indices. */
  lemma {:induction false} KeepLength(s: string, cover: set<int>, lo: nat, hi: nat)
    requires lo <= hi <= |s|
    ensures |Keep(s, cover, lo, hi)| == (hi - lo) - |set k | k in cover && lo <= k < hi|
    decreases hi
  {
    if hi > lo {
      KeepLength(s, cover, lo, hi - 1);
      var below := set k | k in cover && lo <= k < hi - 1;
      var upTo := set k | k in cover && lo <= k < hi;
      if hi - 1 in cover {
        assert upTo == below + {hi - 1};
      } else {
        assert upTo == below;
      }
    }
  }

  /**
   * A covered range [a, b) followed by an uncovered range [b, p): keeping from
   * `a` is the uncovered range followed by what is kept from `p`.
   */
  lemma KeepAroundSpan(s: string, cover: set<int>, a: nat, b: nat, p: nat)
    requires a <= b <= p <= |s|
    requires forall k :: a <= k < b ==> k in cover
    requires forall k :: b <= k < p ==> k !in cover
    ensures s[b..p] + Keep(s, cover, p, |s|) == Keep(s, cover, a, |s|)
  {
    KeepSplit(s, cover, a, b, |s|);
    KeepSplit(s, cover, b, p, |s|);
    KeepCovered(s, cover, a, b);
    KeepUncovered(s, cover, b, p);
  }

  /** The start of the lowest span already deleted, or the length before any. */
  function Boundary(clean: seq<Slice>, m: nat, length: nat): nat
    requires m <= |clean|
  {
    if m == |clean| then length else clean[m].start
  }

  /** The indices of a span of `clean` are covered. */
  lemma SpanCovered(clean: seq<Slice>, m: nat)
    requires m < |clean|
    ensures forall k :: clean[m].start <= k < clean[m].End() ==> k in Union(clean)
  {
    forall k | clean[m].start <= k < clean[m].End() ensures k in Union(clean) {
      UnionMember(clean, k);
    }
  }

  /** Between span `m - 1` and the boundary above it nothing is covered. */
  lemma GapUncovered(clean: seq<Slice>, m: nat, length: nat)
    requires Gapped(clean) && 0 < m <= |clean|
    ensures forall k :: clean[m - 1].End() <= k < Boundary(clean, m, length) ==> k !in Union(clean)
  {
    forall k | clean[m - 1].End() <= k < Boundary(clean, m, length) ensures k !in Union(clean) {
      UnionMember(clean, k);
    }
  }

  /** Deleting span `m - 1` keeps the builder in step with the characters kept. */
  lemma DeleteStep(s: string, clean: seq<Slice>, m: nat)
    requires Gapped(clean) && 0 < m <= |clean| && EndsWithin(clean, |s|)
    ensures clean[m - 1].End() <= Boundary(clean, m, |s|) <= |s|
    ensures var x, p, u := clean[m - 1], Boundary(clean, m, |s|), Union(clean);
      s[x.End()..p] + Keep(s, u, p, |s|) == Keep(s, u, x.start, |s|)
  {
    var x, p, u := clean[m - 1], Boundary(clean, m, |s|), Union(clean);
    if m < |clean| {
      assert x.End() < clean[m].start;
    }
    SpanCovered(clean, m - 1);
    GapUncovered(clean, m, |s|);
    KeepAroundSpan(s, u, x.start, x.End(), p);
  }

  /** Below the lowest span nothing is covered, so that prefix is kept whole. */
  lemma DeleteDone(s: string, clean: seq<Slice>)
    requires Gapped(clean) && EndsWithin(clean, |s|)
    ensures Boundary(clean, 0, |s|) <= |s|
    ensures s[..Boundary(clean, 0, |s|)] + Keep(s, Union(clean), Boundary(clean, 0, |s|), |s|) == Keep(s, Union(clean), 0, |s|)
  {
    var p, u := Boundary(clean, 0, |s|), Union(clean);
    forall k | 0 <= k < p ensures k !in u {
      UnionMember(clean, k);
    }
    KeepSplit(s, u, 0, p, |s|);
    KeepUncovered(s, u, 0, p);
  }

  /**
   * The deletion loop: the stack is enumerated from the top, so spans are removed
   * from the highest start down and every builder Remove is in bounds. The
   * result is the value without the covered characters.
   */
  method DeleteSlices(value: string, clean: seq<Slice>) returns (r: string)
    requires Gapped(clean) && EndsWithin(clean, |value|)
    ensures r == Keep(value, Union(clean), 0, |value|)
  {
    var sb := value;
    KeepUncovered(value, Union(clean), |value|, |value|);
    var m := |clean|;
    while m > 0
      invariant 0 <= m <= |clean|
      invariant Boundary(clean, m, |value|) <= |value|
      invariant sb == value[..Boundary(clean, m, |value|)] + Keep(value, Union(clean), Boundary(clean, m, |value|), |value|)
    {
      DeleteStep(value, clean, m);
      var p := Boundary(clean, m, |value|);
      m := m - 1;
      var sliceIndex, sliceSize := clean[m].start, clean[m].length;
      assert sb[..sliceIndex] == value[..sliceIndex];
      assert sb[sliceIndex + sliceSize..] == value[sliceIndex + sliceSize..p] + Keep(value, Union(clean), p, |value|);
      sb := sb[..sliceIndex] + sb[sliceIndex + sliceSize..];
    }
    DeleteDone(value, clean);
    r := sb;
  }
}
