/**
  Serving pages of a frozen snapshot: the continuation cursor
  (packages/browser-core/src/browser-snapshot.ts, packages/browser-core/src/browser-query.ts).
 */
module SnapshotPaging {
  import opened Wrappers
  import opened BrowserState
  import opened PageBudget

  datatype PageError = Stale | KindMismatch | ContinuationMismatch | TooLarge

  function Sizes(elements: seq<Element>): seq<nat> {
    seq(|elements|, i requires 0 <= i < |elements| => elements[i].bytes)
  }

  function Min(a: nat, b: nat): nat {
    if a < b then a else b
  }

  /** The elements a page may carry: at most `limit` from the offset on. */
  function Window(elements: seq<Element>, offset: nat, limit: nat): seq<Element>
    requires offset <= |elements|
  {
    elements[offset..Min(offset + limit, |elements|)]
  }

  /** How many elements the page at an offset carries; None when not even one fits. */
  function PageCount(elements: seq<Element>, offset: nat, limit: nat, e: Envelope, tree: nat): (n: Option<nat>)
    requires offset <= |elements|
  {
    match Choose(e, tree, Sizes(Window(elements, offset, limit)), offset, |elements|)
    case Some(c) => Some(c.count)
    case None => None
  }

  lemma PageCountBounds(elements: seq<Element>, offset: nat, limit: nat, e: Envelope, tree: nat)
    requires offset <= |elements|
    ensures var n := PageCount(elements, offset, limit, e, tree); n.Some? ==> n.value <= limit && offset + n.value <= |elements|
  {
    ChoiceIsMaximal(e, tree, Sizes(Window(elements, offset, limit)), offset, |elements|);
  }

  lemma PageCountAdvances(elements: seq<Element>, offset: nat, limit: nat, e: Envelope, tree: nat)
    requires offset <= |elements| && limit >= 1
    ensures var n := PageCount(elements, offset, limit, e, tree);
            n.Some? ==> n.value <= limit && offset + n.value <= |elements| && (offset < |elements| ==> n.value >= 1)
  {
    ChoiceIsMaximal(e, tree, Sizes(Window(elements, offset, limit)), offset, |elements|);
  }

  /** The cursor after a page: the next offset, or none once everything has been served. */
  function NextOffset(end: nat, total: nat): Option<nat> {
    if end < total then Some(end) else None
  }

  /** One `inspect` page at an offset: its elements and the snapshot with its cursor moved. */
  function TakePage(x: Snap, offset: nat, limit: nat, e: Envelope, tree: nat): Result<(Snap, seq<Element>), PageError>
    requires offset <= |x.elements|
  {
    match PageCount(x.elements, offset, limit, e, tree)
    case None => Err(TooLarge)
    case Some(n) =>
      PageCountBounds(x.elements, offset, limit, e, tree);
      Ok((x.(nextOffset := NextOffset(offset + n, |x.elements|)), x.elements[offset..offset + n]))
  }

  /** An `inspect` continuation: only the exact next offset of an inspect snapshot is served. */
  function ContinuePage(x: Snap, offset: nat, limit: nat, e: Envelope, tree: nat): Result<(Snap, seq<Element>), PageError> {
    if x.kind != Inspect then Err(KindMismatch)
    else if x.nextOffset != Some(offset) || offset > |x.elements| then Err(ContinuationMismatch)
    else TakePage(x, offset, limit, e, tree)
  }

  /** One page of editable targets. */
  function TakeEditable(x: Snap, q: EditableQuery, offset: nat, limit: nat): (Snap, seq<Element>)
    requires offset <= |q.elements|
  {
    var window := Window(q.elements, offset, limit);
    var n := EditableCount(Sizes(window), |window|);
    var end := Min(offset + n, |q.elements|);
    (x.(editable := Some(q.(nextOffset := NextOffset(end, |q.elements|)))), q.elements[offset..end])
  }

  function ContinueEditable(x: Snap, offset: nat, limit: nat): Result<(Snap, seq<Element>), PageError> {
    if x.kind != QueryEditable then Err(KindMismatch)
    else
      match x.editable
      case None => Err(Stale)
      case Some(q) =>
        if q.nextOffset != Some(offset) || offset > |q.elements| then Err(ContinuationMismatch)
        else Ok(TakeEditable(x, q, offset, limit))
  }

  function Editables(elements: seq<Element>): seq<Element> {
    if elements == [] then []
    else
      var rest := Editables(elements[..|elements| - 1]);
      if elements[|elements| - 1].editable then rest + [elements[|elements| - 1]] else rest
  }

  lemma {:induction false} EditablesMembers(elements: seq<Element>)
    ensures forall e :: e in Editables(elements) <==> e in elements && e.editable
  {
    if elements != [] {
      EditablesMembers(elements[..|elements| - 1]);
      assert elements == elements[..|elements| - 1] + [elements[|elements| - 1]];
    }
  }

  /** And in the snapshot's order: listing a front and a rest one after the other. */
  lemma {:induction false} EditablesInOrder(front: seq<Element>, rest: seq<Element>)
    ensures Editables(front + rest) == Editables(front) + Editables(rest)
    decreases |rest|
  {
    var all := front + rest;
    if rest == [] {
      assert all == front;
    } else {
      EditablesInOrder(front, rest[..|rest| - 1]);
      assert all[..|all| - 1] == front + rest[..|rest| - 1];
    }
  }

  // ----------------------------------------------------------- one cursor's story

  /**
    A cursor over a frozen list: what has been served is a prefix, and the cursor
    stands exactly at its end (or nowhere once all has been served).
   */
  ghost predicate CursorAt(elements: seq<Element>, served: seq<Element>, next: Option<nat>) {
    match next
    case Some(o) => o <= |elements| && served == elements[..o]
    case None => served == elements
  }

  /** A served page continues the prefix without gap or repeat, and advances when anything is left. */
  lemma PageContinuesPrefix(x: Snap, served: seq<Element>, offset: nat, limit: nat, e: Envelope, tree: nat)
    requires CursorAt(x.elements, served, x.nextOffset) && x.nextOffset == Some(offset) && limit >= 1
    ensures match TakePage(x, offset, limit, e, tree)
            case Ok((y, page)) =>
              && y == x.(nextOffset := y.nextOffset)
              && CursorAt(y.elements, served + page, y.nextOffset)
              && |page| <= limit && (offset < |x.elements| ==> page != [])
              && (y.nextOffset.Some? ==> y.nextOffset.value < |x.elements|)
            case Err(err) => err == TooLarge
  {
    PageCountAdvances(x.elements, offset, limit, e, tree);
    var n := PageCount(x.elements, offset, limit, e, tree);
    if n.Some? {
      assert x.elements[..offset] + x.elements[offset..offset + n.value] == x.elements[..offset + n.value];
      assert x.elements[..|x.elements|] == x.elements;
    }
  }

  lemma EditableContinuesPrefix(x: Snap, q: EditableQuery, served: seq<Element>, offset: nat, limit: nat)
    requires CursorAt(q.elements, served, q.nextOffset) && q.nextOffset == Some(offset) && limit >= 1
    ensures var (y, page) := TakeEditable(x, q, offset, limit);
            && y == x.(editable := Some(q.(nextOffset := y.editable.value.nextOffset)))
            && CursorAt(q.elements, served + page, y.editable.value.nextOffset)
            && |page| <= limit && (offset < |q.elements| ==> page != [])
            && (y.editable.value.nextOffset.Some? ==> y.editable.value.nextOffset.value < |q.elements|)
  {
    var window := Window(q.elements, offset, limit);
    var n := EditableCount(Sizes(window), |window|);
    EditableCountBounds(Sizes(window), |window|);
    assert q.elements[..offset] + q.elements[offset..offset + n] == q.elements[..offset + n];
    assert q.elements[..|q.elements|] == q.elements;
  }

  lemma {:induction false} EditableCountBounds(sizes: seq<nat>, n: nat)
    requires n <= |sizes|
    ensures EditableCount(sizes, n) <= n && (n >= 1 ==> EditableCount(sizes, n) >= 1)
  {
    if n > 1 && TargetsBytes(sizes[..n]) > MAX_PAGE_BYTES {
      EditableCountBounds(sizes, n - 1);
    }
  }

  // ------------------------------------------------------------ an undisturbed run

  /** Pages asked for one after the other, each from the cursor the last one left. */
  ghost predicate UndisturbedRun(x: Snap, limits: seq<nat>, envelopes: seq<(Envelope, nat)>, pages: seq<seq<Element>>, last: Snap)
    decreases |pages|
  {
    if pages == [] then last == x
    else
      && |limits| == |envelopes| == |pages|
      && limits[0] >= 1 && x.nextOffset.Some? && x.nextOffset.value <= |x.elements|
      && var r := TakePage(x, x.nextOffset.value, limits[0], envelopes[0].0, envelopes[0].1);
         r.Ok? && r.value.1 == pages[0] && UndisturbedRun(r.value.0, limits[1..], envelopes[1..], pages[1..], last)
  }

  function Flatten(pages: seq<seq<Element>>): seq<Element> {
    if pages == [] then [] else pages[0] + Flatten(pages[1..])
  }

  /**
    An undisturbed run of successful pages whose cursor has ended served the whole
    list in order, and no run makes more pages than there are elements (one page for
    an empty list).
   */
  lemma {:induction false} RunServesEverything(x: Snap, served: seq<Element>, limits: seq<nat>, envelopes: seq<(Envelope, nat)>, pages: seq<seq<Element>>, last: Snap)
    requires CursorAt(x.elements, served, x.nextOffset) && x.nextOffset.Some?
    requires UndisturbedRun(x, limits, envelopes, pages, last)
    ensures CursorAt(x.elements, served + Flatten(pages), last.nextOffset)
    ensures last.nextOffset.None? ==> served + Flatten(pages) == x.elements
    ensures |pages| <= |x.elements| - |served| || |pages| <= 1
    decreases |pages|
  {
    hide TakePage, CursorAt;
    if pages == [] {
      assert served + Flatten(pages) == served;
    } else {
      var o := x.nextOffset.value;
      PageContinuesPrefix(x, served, o, limits[0], envelopes[0].0, envelopes[0].1);
      var (y, page) := TakePage(x, o, limits[0], envelopes[0].0, envelopes[0].1).value;
      assert served + Flatten(pages) == (served + pages[0]) + Flatten(pages[1..]);
      CursorLength(x.elements, served, x.nextOffset);
      CursorLength(x.elements, served + page, y.nextOffset);
      if pages[1..] == [] {
        assert pages == [page] && Flatten(pages) == page + [] == page;
      } else {
        RunServesEverything(y, served + page, limits[1..], envelopes[1..], pages[1..], last);
      }
    }
  }

  lemma CursorLength(elements: seq<Element>, served: seq<Element>, next: Option<nat>)
    requires CursorAt(elements, served, next)
    ensures |served| == if next.Some? then next.value else |elements|
    ensures next.None? ==> served == elements
  {
  }

  /** Editable pages asked for one after the other, each from the cursor the last one left. */
  ghost predicate UndisturbedQuery(x: Snap, limits: seq<nat>, pages: seq<seq<Element>>, last: Snap)
    decreases |pages|
  {
    if pages == [] then last == x
    else
      && |limits| == |pages| && limits[0] >= 1
      && x.editable.Some? && x.editable.value.nextOffset.Some? && x.editable.value.nextOffset.value <= |x.editable.value.elements|
      && var (y, page) := TakeEditable(x, x.editable.value, x.editable.value.nextOffset.value, limits[0]);
         page == pages[0] && UndisturbedQuery(y, limits[1..], pages[1..], last)
  }

  /** The same for the pages of an editable query. */
  lemma {:induction false} QueryServesEverything(x: Snap, served: seq<Element>, limits: seq<nat>, pages: seq<seq<Element>>, last: Snap)
    requires x.editable.Some? && x.editable.value.nextOffset.Some?
    requires CursorAt(x.editable.value.elements, served, x.editable.value.nextOffset)
    requires UndisturbedQuery(x, limits, pages, last)
    ensures last.editable.Some? && last.editable.value.elements == x.editable.value.elements
    ensures CursorAt(x.editable.value.elements, served + Flatten(pages), last.editable.value.nextOffset)
    ensures last.editable.value.nextOffset.None? ==> served + Flatten(pages) == x.editable.value.elements
    ensures |pages| <= |x.editable.value.elements| - |served| || |pages| <= 1
    decreases |pages|
  {
    hide TakeEditable, CursorAt;
    if pages == [] {
      assert served + Flatten(pages) == served;
    } else {
      var q := x.editable.value;
      EditableContinuesPrefix(x, q, served, q.nextOffset.value, limits[0]);
      var (y, page) := TakeEditable(x, q, q.nextOffset.value, limits[0]);
      assert served + Flatten(pages) == (served + pages[0]) + Flatten(pages[1..]);
      CursorLength(q.elements, served, q.nextOffset);
      CursorLength(q.elements, served + page, y.editable.value.nextOffset);
      if pages[1..] == [] {
        assert pages == [page] && Flatten(pages) == page + [] == page;
      } else {
        QueryServesEverything(y, served + page, limits[1..], pages[1..], last);
      }
    }
  }
}
