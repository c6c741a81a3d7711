/**
  Choosing how much of a snapshot one response page carries
  (packages/browser-core/src/browser-snapshot.ts, packages/browser-core/src/browser-query.ts).

  The byte length of a page's JSON text is modelled as a fixed part plus the parts
  that depend on the page: element texts, separators, decimal digits, the flag and
  the continuation that only truncated pages have.
 */
module PageBudget {
  import opened Wrappers

  const MAX_PAGE_BYTES: nat := 56 * 1024
  const MAX_PAGE_SIZE: nat := 200

  /** The page size a request gets: at least 1, at most 200, 100 when it names none. */
  function PageLimit(requested: Option<int>): (n: nat)
    ensures 1 <= n <= MAX_PAGE_SIZE
    ensures requested.Some? && 1 <= requested.value <= MAX_PAGE_SIZE ==> n == requested.value
    ensures requested.Some? && requested.value < 1 ==> n == 1
    ensures requested.Some? && requested.value > MAX_PAGE_SIZE ==> n == MAX_PAGE_SIZE
    ensures requested.None? ==> n == 100
  {
    var n := requested.GetOr(100);
    var capped := if n < MAX_PAGE_SIZE then n else MAX_PAGE_SIZE;
    if capped > 1 then capped else 1
  }

  // --------------------------------------------------------------------- sizes

  function Digits(n: nat): (d: nat)
    ensures d >= 1
  {
    if n < 10 then 1 else 1 + Digits(n / 10)
  }

  lemma {:induction false} DigitsMonotone(m: nat, n: nat)
    requires m <= n
    ensures Digits(m) <= Digits(n)
  {
    if m >= 10 {
      DigitsMonotone(m / 10, n / 10);
    }
  }

  function Total(sizes: seq<nat>): nat {
    if sizes == [] then 0 else Total(sizes[..|sizes| - 1]) + sizes[|sizes| - 1]
  }

  /** A JSON array: brackets, elements, commas. */
  function ArrayBytes(sizes: seq<nat>): nat {
    2 + Total(sizes) + if |sizes| > 1 then |sizes| - 1 else 0
  }

  lemma {:induction false} TotalMonotone(sizes: seq<nat>, m: nat, n: nat)
    requires m <= n <= |sizes|
    ensures Total(sizes[..m]) <= Total(sizes[..n])
  {
    if m < n {
      TotalMonotone(sizes, m, n - 1);
      assert sizes[..n][..n - 1] == sizes[..n - 1];
    }
  }

  lemma ArrayBytesMonotone(sizes: seq<nat>, m: nat, n: nat)
    requires m <= n <= |sizes|
    ensures ArrayBytes(sizes[..m]) <= ArrayBytes(sizes[..n])
  {
    TotalMonotone(sizes, m, n);
  }

  /**
    What does not depend on the page: the fixed members, the note that replaces an
    omitted tree, and the text of `nextOffset` and `continuation` without their numbers.
   */
  datatype Envelope = Envelope(fixed: nat, omittedNote: nat, continuation: nat)

  /** Bytes of a page of the given elements, starting at offset, out of `total` elements. */
  function PageBytes(e: Envelope, tree: Option<nat>, sizes: seq<nat>, offset: nat, total: nat): nat {
    var end := offset + |sizes|;
    e.fixed + Digits(|sizes|) + ArrayBytes(sizes)
    + (if tree.Some? then tree.value else e.omittedNote)
    + (if end < total then 4 + e.continuation + 2 * Digits(end) else 5)
  }

  /** Among truncated pages without a tree, more elements never means fewer bytes. */
  lemma TruncatedPagesMonotone(e: Envelope, sizes: seq<nat>, offset: nat, total: nat, m: nat, n: nat)
    requires m <= n <= |sizes| && offset + n < total
    ensures PageBytes(e, None, sizes[..m], offset, total) <= PageBytes(e, None, sizes[..n], offset, total)
  {
    DigitsMonotone(m, n);
    DigitsMonotone(offset + m, offset + n);
    ArrayBytesMonotone(sizes, m, n);
  }

  predicate Fits(e: Envelope, tree: Option<nat>, sizes: seq<nat>, offset: nat, total: nat) {
    PageBytes(e, tree, sizes, offset, total) <= MAX_PAGE_BYTES
  }

  // -------------------------------------------------------------------- the choice

  /** The largest count in 1..n whose tree-less page fits, searched downwards one by one. */
  function LargestFitting(e: Envelope, sizes: seq<nat>, offset: nat, total: nat, n: nat): Option<nat>
    requires n <= |sizes|
  {
    if n == 0 then None
    else if Fits(e, None, sizes[..n], offset, total) then Some(n)
    else LargestFitting(e, sizes, offset, total, n - 1)
  }

  lemma {:induction false} LargestFittingIsLargest(e: Envelope, sizes: seq<nat>, offset: nat, total: nat, n: nat)
    requires n <= |sizes|
    ensures var r := LargestFitting(e, sizes, offset, total, n);
            && (r.Some? ==> 1 <= r.value <= n && Fits(e, None, sizes[..r.value], offset, total))
            && forall k: nat :: r.GetOr(0) < k <= n ==> !Fits(e, None, sizes[..k], offset, total)
  {
    if n > 0 && !Fits(e, None, sizes[..n], offset, total) {
      LargestFittingIsLargest(e, sizes, offset, total, n - 1);
    }
  }

  datatype Choice = Choice(count: nat, withTree: bool)

  /**
    The page of `sizes`: everything with the tree if that fits, else everything
    without it, else the largest proper prefix that fits, else nothing can be sent.
   */
  function Choose(e: Envelope, tree: nat, sizes: seq<nat>, offset: nat, total: nat): Option<Choice> {
    if Fits(e, Some(tree), sizes, offset, total) then Some(Choice(|sizes|, true))
    else if Fits(e, None, sizes, offset, total) then Some(Choice(|sizes|, false))
    else if |sizes| > 1 then
      match LargestFitting(e, sizes, offset, total, |sizes| - 1)
      case Some(n) => Some(Choice(n, false))
      case None => None
    else None
  }

  /** What a chosen page guarantees: it fits, it advances, and no larger page would have fitted. */
  lemma ChoiceIsMaximal(e: Envelope, tree: nat, sizes: seq<nat>, offset: nat, total: nat)
    ensures match Choose(e, tree, sizes, offset, total)
            case Some(c) =>
              && c.count <= |sizes| && (sizes != [] ==> c.count >= 1)
              && Fits(e, if c.withTree then Some(tree) else None, sizes[..c.count], offset, total)
              && (forall k: nat :: c.count < k <= |sizes| ==> !Fits(e, None, sizes[..k], offset, total))
              && (c.withTree <==> Fits(e, Some(tree), sizes, offset, total))
              && (c.withTree ==> c.count == |sizes|)
            case None =>
              && !Fits(e, Some(tree), sizes, offset, total)
              && forall k: nat :: 1 <= k <= |sizes| ==> !Fits(e, None, sizes[..k], offset, total)
  {
    assert sizes[..|sizes|] == sizes;
    if |sizes| > 1 {
      LargestFittingIsLargest(e, sizes, offset, total, |sizes| - 1);
    }
  }

  /**
    The binary search. Every candidate is a proper prefix of the remaining elements,
    so every candidate is truncated, sizes are monotone and the search is exact.
   */
  method SearchLargest(e: Envelope, sizes: seq<nat>, offset: nat, total: nat) returns (r: Option<nat>)
    requires |sizes| > 1 && offset + |sizes| <= total
    ensures r == LargestFitting(e, sizes, offset, total, |sizes| - 1)
  {
    var lower, upper := 1, |sizes| - 1;
    r := None;
    while lower <= upper
      invariant 1 <= lower <= upper + 1 <= |sizes|
      invariant r == if lower == 1 then None else Some(lower - 1)
      invariant r.Some? ==> Fits(e, None, sizes[..r.value], offset, total)
      invariant forall k: nat :: upper < k <= |sizes| - 1 ==> !Fits(e, None, sizes[..k], offset, total)
    {
      var count := (lower + upper) / 2;
      if Fits(e, None, sizes[..count], offset, total) {
        r := Some(count);
        lower := count + 1;
      } else {
        forall k: nat | count <= k <= |sizes| - 1
          ensures !Fits(e, None, sizes[..k], offset, total)
        {
          TruncatedPagesMonotone(e, sizes, offset, total, count, k);
        }
        upper := count - 1;
      }
    }
    LargestFittingIsLargest(e, sizes, offset, total, |sizes| - 1);
  }

  method ChoosePage(e: Envelope, tree: nat, sizes: seq<nat>, offset: nat, total: nat) returns (r: Option<Choice>)
    requires offset + |sizes| <= total
    ensures r == Choose(e, tree, sizes, offset, total)
  {
    if Fits(e, Some(tree), sizes, offset, total) {
      return Some(Choice(|sizes|, true));
    }
    if Fits(e, None, sizes, offset, total) {
      return Some(Choice(|sizes|, false));
    }
    if |sizes| > 1 {
      var n := SearchLargest(e, sizes, offset, total);
      if n.Some? {
        return Some(Choice(n.value, false));
      }
    }
    return None;
  }

  // -------------------------------------------------------------- editable targets

  /** `{"targets":[...]}`. */
  function TargetsBytes(sizes: seq<nat>): nat {
    12 + ArrayBytes(sizes)
  }

  /** An editable page drops elements from its end until it fits; a single element is always sent. */
  method ChooseEditable(sizes: seq<nat>) returns (n: nat)
    ensures n <= |sizes| && (sizes != [] ==> n >= 1)
    ensures n > 1 ==> TargetsBytes(sizes[..n]) <= MAX_PAGE_BYTES
    ensures forall k: nat :: n < k <= |sizes| ==> TargetsBytes(sizes[..k]) > MAX_PAGE_BYTES
    ensures n == EditableCount(sizes, |sizes|)
  {
    n := |sizes|;
    while n > 1 && TargetsBytes(sizes[..n]) > MAX_PAGE_BYTES
      invariant n <= |sizes| && (sizes != [] ==> n >= 1)
      invariant forall k: nat :: n < k <= |sizes| ==> TargetsBytes(sizes[..k]) > MAX_PAGE_BYTES
      invariant EditableCount(sizes, |sizes|) == EditableCount(sizes, n)
    {
      n := n - 1;
    }
  }

  function EditableCount(sizes: seq<nat>, n: nat): nat
    requires n <= |sizes|
  {
    if n > 1 && TargetsBytes(sizes[..n]) > MAX_PAGE_BYTES then EditableCount(sizes, n - 1) else n
  }
}
