/**
  Dropping elements that later-painted ones cover
  (packages/browser-core/src/dom-serializer.ts, the paint-order pass).
 */
module Occlusion {
  import opened Wrappers
  import opened StableSort

  datatype Box = Box(x: real, y: real, width: real, height: real)

  datatype Element = Element(index: nat, box: Box, paintOrder: Option<int>)

  predicate FullyContained(a: Box, b: Box) {
    a.x >= b.x && a.y >= b.y && a.x + a.width <= b.x + b.width && a.y + a.height <= b.y + b.height
  }

  predicate Covers(b: Box, x: real, y: real) {
    b.x <= x <= b.x + b.width && b.y <= y <= b.y + b.height
  }

  /** A box lies in another exactly when every point of it does. */
  lemma ContainmentIsOfPoints(a: Box, b: Box)
    requires a.width >= 0.0 && a.height >= 0.0
    ensures FullyContained(a, b) <==> forall x, y :: Covers(a, x, y) ==> Covers(b, x, y)
  {
    if forall x, y :: Covers(a, x, y) ==> Covers(b, x, y) {
      assert Covers(a, a.x, a.y) && Covers(a, a.x + a.width, a.y + a.height);
      assert Covers(b, a.x, a.y) && Covers(b, a.x + a.width, a.y + a.height);
    }
  }

  function Paint(e: Element): int {
    e.paintOrder.GetOr(0)
  }

  /** Later-painted elements first, document order among equals. */
  function ByPaint(elements: seq<Element>): (sorted: seq<Element>)
    ensures |sorted| == |elements|
  {
    SortPermutes(elements, Paint);
    assert |multiset(SortDescending(elements, Paint))| == |multiset(elements)|;
    SortDescending(elements, Paint)
  }

  predicate Unique(s: seq<Element>) {
    forall i, j :: 0 <= i < j < |s| ==> s[i].index != s[j].index
  }

  /** Nothing sorted before the i-th element covers it. */
  predicate Visible(sorted: seq<Element>, i: nat)
    requires i < |sorted|
  {
    forall j :: 0 <= j < i ==> !FullyContained(sorted[i].box, sorted[j].box)
  }

  datatype Pass = Pass(kept: seq<Element>, excluded: set<nat>)

  /** The pass over the first n elements; an element sharing the number of an excluded one is skipped. */
  function PassOver(sorted: seq<Element>, n: nat): Pass
    requires n <= |sorted|
  {
    if n == 0 then Pass([], {})
    else
      var p, e := PassOver(sorted, n - 1), sorted[n - 1];
      if e.index in p.excluded then p
      else if Visible(sorted, n - 1) then p.(kept := p.kept + [e])
      else p.(excluded := p.excluded + {e.index})
  }

  /** The pass as the loops of the serializer make it. */
  method FilterByPaintOrder(elements: seq<Element>) returns (kept: seq<Element>, filteredCount: nat)
    ensures var p := PassOver(ByPaint(elements), |ByPaint(elements)|);
            kept == p.kept && filteredCount == |p.excluded|
  {
    var sortedByPaint := ByPaint(elements);
    var excluded := {};
    kept := [];
    for i := 0 to |sortedByPaint|
      invariant Pass(kept, excluded) == PassOver(sortedByPaint, i)
    {
      var current := sortedByPaint[i];
      if current.index in excluded {
        continue;
      }
      var isOccluded := false;
      var j := 0;
      while j < i && !isOccluded
        invariant 0 <= j <= i
        invariant !isOccluded ==> forall k :: 0 <= k < j ==> !FullyContained(current.box, sortedByPaint[k].box)
        invariant isOccluded ==> !Visible(sortedByPaint, i)
      {
        isOccluded := FullyContained(current.box, sortedByPaint[j].box);
        j := j + 1;
      }
      if !isOccluded {
        kept := kept + [current];
      } else {
        excluded := excluded + {current.index};
      }
    }
    filteredCount := |excluded|;
  }

  // -------------------------------------------------------------------- coverage

  lemma {:induction false} InsertUnique(x: Element, s: seq<Element>)
    requires Unique(s) && forall e :: e in s ==> e.index != x.index
    ensures Unique(Insert(x, s, Paint))
    ensures forall i :: 0 <= i < |Insert(x, s, Paint)| ==> Insert(x, s, Paint)[i] == x || Insert(x, s, Paint)[i] in s
  {
    if s != [] && Paint(s[0]) > Paint(x) {
      InsertUnique(x, s[1..]);
    }
  }

  lemma {:induction false} SortUnique(s: seq<Element>)
    requires Unique(s)
    ensures Unique(ByPaint(s)) && forall i :: 0 <= i < |ByPaint(s)| ==> ByPaint(s)[i] in s
  {
    if s != [] {
      SortUnique(s[1..]);
      assert forall e :: e in s[1..] ==> e.index != s[0].index;
      InsertUnique(s[0], ByPaint(s[1..]));
    }
  }

  /** The i-th element is visible, and no earlier element of its number is covered. */
  predicate Keeps(sorted: seq<Element>, i: nat)
    requires i < |sorted|
  {
    Visible(sorted, i) && forall j :: 0 <= j < i && sorted[j].index == sorted[i].index ==> Visible(sorted, j)
  }

  /** The elements of the first n positions that keep their place. */
  function KeptOf(sorted: seq<Element>, n: nat): seq<Element>
    requires n <= |sorted|
  {
    if n == 0 then [] else KeptOf(sorted, n - 1) + if Keeps(sorted, n - 1) then [sorted[n - 1]] else []
  }

  /** x is the number of a covered element among the first n. */
  ghost predicate CoveredNumber(sorted: seq<Element>, n: nat, x: nat)
    requires n <= |sorted|
  {
    exists i :: 0 <= i < n && sorted[i].index == x && !Visible(sorted, i)
  }

  lemma CoveredNumberGrows(sorted: seq<Element>, n: nat, x: nat)
    requires n < |sorted|
    ensures CoveredNumber(sorted, n + 1, x) <==> CoveredNumber(sorted, n, x) || (x == sorted[n].index && !Visible(sorted, n))
  {
    hide Visible;
    if CoveredNumber(sorted, n, x) {
      var i :| 0 <= i < n && sorted[i].index == x && !Visible(sorted, i);
      assert 0 <= i < n + 1;
    }
  }

  /** For any numbers at all: excluded are the numbers of covered elements, kept those that keep their place. */
  lemma {:induction false} PassIsExact(sorted: seq<Element>, n: nat)
    requires n <= |sorted|
    ensures PassOver(sorted, n).kept == KeptOf(sorted, n)
    ensures forall x :: x in PassOver(sorted, n).excluded <==> CoveredNumber(sorted, n, x)
  {
    hide Visible, CoveredNumber;
    if n == 0 {
      forall x
        ensures !CoveredNumber(sorted, 0, x)
      {
        NoneCovered(sorted, x);
      }
    } else {
      PassIsExact(sorted, n - 1);
      KeepsUnlessNumbered(sorted, n - 1);
      forall x
        ensures x in PassOver(sorted, n).excluded <==> CoveredNumber(sorted, n, x)
      {
        CoveredNumberGrows(sorted, n - 1, x);
      }
    }
  }

  lemma NoneCovered(sorted: seq<Element>, x: nat)
    ensures !CoveredNumber(sorted, 0, x)
  {
  }

  lemma KeepsUnlessNumbered(sorted: seq<Element>, i: nat)
    requires i < |sorted|
    ensures Keeps(sorted, i) <==> Visible(sorted, i) && !CoveredNumber(sorted, i, sorted[i].index)
  {
    hide Visible;
  }

  /** None of the first n elements shares the number of a covered one before it. */
  ghost predicate NoneSkipped(sorted: seq<Element>, n: nat)
    requires n <= |sorted|
  {
    forall i :: 0 <= i < n ==> !CoveredNumber(sorted, i, sorted[i].index)
  }

  lemma NoneSkippedGrows(sorted: seq<Element>, n: nat)
    requires n < |sorted|
    ensures NoneSkipped(sorted, n + 1) <==> NoneSkipped(sorted, n) && !CoveredNumber(sorted, n, sorted[n].index)
  {
    hide CoveredNumber;
  }

  /** Each element is kept or counted, unless its number is already excluded. */
  lemma OneMoreCounted(sorted: seq<Element>, n: nat)
    requires n < |sorted|
    ensures var p, q := PassOver(sorted, n), PassOver(sorted, n + 1);
            |q.kept| + |q.excluded| == |p.kept| + |p.excluded| + if sorted[n].index in p.excluded then 0 else 1
  {
    hide Visible;
  }

  /** Kept and excluded add up exactly when no element shares the number of a covered one before it. */
  lemma {:induction false} CountIsExact(sorted: seq<Element>, n: nat)
    requires n <= |sorted|
    ensures var p := PassOver(sorted, n);
            && |p.kept| + |p.excluded| <= n
            && (|p.kept| + |p.excluded| == n <==> NoneSkipped(sorted, n))
  {
    hide Visible, CoveredNumber, PassOver, NoneSkipped;
    if n == 0 {
      NothingCounted(sorted);
    } else {
      CountIsExact(sorted, n - 1);
      PassIsExact(sorted, n - 1);
      OneMoreCounted(sorted, n - 1);
      NoneSkippedGrows(sorted, n - 1);
    }
  }

  lemma NothingCounted(sorted: seq<Element>)
    ensures PassOver(sorted, 0) == Pass([], {}) && NoneSkipped(sorted, 0)
  {
  }

  lemma {:induction false} KeptMembers(sorted: seq<Element>, n: nat, e: Element)
    requires n <= |sorted|
    ensures e in KeptOf(sorted, n) <==> exists i :: 0 <= i < n && sorted[i] == e && Keeps(sorted, i)
  {
    hide Keeps;
    if n > 0 {
      KeptMembers(sorted, n - 1, e);
      if e in KeptOf(sorted, n - 1) {
        var i :| 0 <= i < n - 1 && sorted[i] == e && Keeps(sorted, i);
        assert 0 <= i < n && sorted[i] == e && Keeps(sorted, i);
      }
    }
  }

  lemma ContainmentTransitive(a: Box, b: Box, c: Box)
    requires FullyContained(a, b) && FullyContained(b, c)
    ensures FullyContained(a, c)
  {
  }

  /** A covered element is covered by a visible one, even if what covered it was itself dropped. */
  lemma {:induction false} VisibleWitness(sorted: seq<Element>, i: nat) returns (k: nat)
    requires i < |sorted|
    ensures k <= i && Visible(sorted, k) && FullyContained(sorted[i].box, sorted[k].box)
  {
    if Visible(sorted, i) {
      k := i;
    } else {
      var j :| 0 <= j < i && FullyContained(sorted[i].box, sorted[j].box);
      k := VisibleWitness(sorted, j);
      ContainmentTransitive(sorted[i].box, sorted[j].box, sorted[k].box);
    }
  }

  /** The i-th element lies in one that keeps its place and is sorted no later. */
  ghost predicate CoveredInPlace(sorted: seq<Element>, i: nat)
    requires i < |sorted|
  {
    exists k: nat :: k <= i && Keeps(sorted, k) && FullyContained(sorted[i].box, sorted[k].box)
  }

  /**
    For any numbers at all, the pass loses nothing, so that every element lies in a
    kept one sorted no later, exactly when no visible element shares its number with a
    covered one sorted before it.
   */
  lemma NothingLostExactly(sorted: seq<Element>)
    ensures (forall i :: 0 <= i < |sorted| ==> CoveredInPlace(sorted, i))
       <==> (forall i, j :: 0 <= j < i < |sorted| && sorted[j].index == sorted[i].index && Visible(sorted, i) ==> Visible(sorted, j))
    ensures PassOver(sorted, |sorted|).kept == KeptOf(sorted, |sorted|)
  {
    hide FullyContained;
    PassIsExact(sorted, |sorted|);
    if forall i, j :: 0 <= j < i < |sorted| && sorted[j].index == sorted[i].index && Visible(sorted, i) ==> Visible(sorted, j) {
      forall i | 0 <= i < |sorted|
        ensures CoveredInPlace(sorted, i)
      {
        var k := VisibleWitness(sorted, i);
        assert Keeps(sorted, k);
      }
    }
    if forall i :: 0 <= i < |sorted| ==> CoveredInPlace(sorted, i) {
      forall i, j | 0 <= j < i < |sorted| && sorted[j].index == sorted[i].index && Visible(sorted, i)
        ensures Visible(sorted, j)
      {
        assert CoveredInPlace(sorted, i);
        var k: nat :| k <= i && Keeps(sorted, k) && FullyContained(sorted[i].box, sorted[k].box);
        assert k == i;
      }
    }
  }

  lemma SortedFacts(elements: seq<Element>)
    requires Unique(elements)
    ensures var sorted := ByPaint(elements);
            && Unique(sorted) && |sorted| == |elements| && Descending(sorted, Paint)
            && (forall e :: e in sorted <==> e in elements)
  {
    var sorted := ByPaint(elements);
    SortUnique(elements);
    SortPermutes(elements, Paint);
    SortedAndStable(elements, Paint);
    assert |sorted| == |multiset(sorted)| == |elements|;
    forall e
      ensures e in sorted <==> e in elements
    {
      assert e in sorted <==> e in multiset(sorted);
    }
  }

  lemma PaintedNoEarlier(sorted: seq<Element>, k: nat, i: nat)
    requires Descending(sorted, Paint) && k <= i < |sorted|
    ensures Paint(sorted[k]) >= Paint(sorted[i])
  {
  }

  ghost predicate CoveredBy(kept: seq<Element>, e: Element) {
    exists k :: k in kept && FullyContained(e.box, k.box) && Paint(k) >= Paint(e)
  }

  /** With distinct numbers an element keeps its place exactly when it is visible. */
  lemma KeepsWhenVisible(sorted: seq<Element>, i: nat)
    requires Unique(sorted) && i < |sorted|
    ensures Keeps(sorted, i) <==> Visible(sorted, i)
    ensures !CoveredNumber(sorted, i, sorted[i].index)
  {
    hide Visible;
  }

  /**
    What the pass promises of elements with distinct numbers: every element lies inside
    a kept one painted no earlier, the kept elements are those that lie inside no
    element sorted before them, ties included, and the kept and the dropped add up.
   */
  lemma OcclusionCoverage(elements: seq<Element>)
    requires Unique(elements)
    ensures var sorted := ByPaint(elements);
            var p := PassOver(sorted, |sorted|);
            && |p.kept| + |p.excluded| == |elements|
            && (forall e :: e in elements ==> CoveredBy(p.kept, e))
            && (forall e :: e in p.kept <==> exists i :: 0 <= i < |sorted| && sorted[i] == e && Visible(sorted, i))
            && forall k :: k in p.kept ==> k in elements
  {
    hide ByPaint, PassOver, FullyContained, Unique, Visible, Descending, Keeps, CoveredNumber, KeptOf;
    var sorted := ByPaint(elements);
    SortedFacts(elements);
    PassIsExact(sorted, |sorted|);
    CountIsExact(sorted, |sorted|);
    forall i | 0 <= i < |sorted|
      ensures Keeps(sorted, i) <==> Visible(sorted, i)
      ensures !CoveredNumber(sorted, i, sorted[i].index)
    {
      KeepsWhenVisible(sorted, i);
    }
    var p := PassOver(sorted, |sorted|);
    forall e
      ensures e in p.kept <==> exists i :: 0 <= i < |sorted| && sorted[i] == e && Visible(sorted, i)
    {
      KeptMembers(sorted, |sorted|, e);
    }
    forall e | e in elements
      ensures CoveredBy(p.kept, e)
    {
      var i :| 0 <= i < |sorted| && sorted[i] == e;
      var k := VisibleWitness(sorted, i);
      assert sorted[k] in p.kept;
      PaintedNoEarlier(sorted, k, i);
    }
  }

  lemma SortedCons(x: Element, rest: seq<Element>)
    requires ByPaint(rest) == rest && (rest != [] ==> Paint(rest[0]) <= Paint(x))
    ensures ByPaint([x] + rest) == [x] + rest
  {
    assert ([x] + rest)[1..] == rest;
  }

  /** Such a sharing: an element that nothing covers is lost with the number of a covered one. */
  lemma SharedNumberLosesAnElement()
    ensures var big := Element(1, Box(0.0, 0.0, 10.0, 10.0), Some(3));
            var inner := Element(2, Box(1.0, 1.0, 2.0, 2.0), Some(2));
            var apart := Element(2, Box(50.0, 50.0, 2.0, 2.0), Some(1));
            var p := PassOver(ByPaint([big, inner, apart]), 3);
            p == Pass([big], {2}) && !FullyContained(apart.box, big.box)
  {
    var big := Element(1, Box(0.0, 0.0, 10.0, 10.0), Some(3));
    var inner := Element(2, Box(1.0, 1.0, 2.0, 2.0), Some(2));
    var apart := Element(2, Box(50.0, 50.0, 2.0, 2.0), Some(1));
    var all := [big, inner, apart];
    SortedCons(apart, []);
    assert [apart] + [] == [apart];
    SortedCons(inner, [apart]);
    assert [inner] + [apart] == [inner, apart];
    SortedCons(big, [inner, apart]);
    assert [big] + [inner, apart] == all;
    assert PassOver(all, 1) == Pass([big], {});
    assert FullyContained(all[1].box, all[0].box) && !Visible(all, 1);
    assert PassOver(all, 2) == Pass([big], {2});
  }
}
