/**
  Paging to the end: what the continuations of a retained snapshot are answered with,
  and that an uninterrupted run of them reaches the end of the frozen list
  (packages/browser-core/src/browser-snapshot.ts, packages/browser-core/src/browser-query.ts).
 */
module PagingLiveness {
  import opened Wrappers
  import opened BrowserState
  import opened PageBudget
  import opened SnapshotPaging
  import opened InspectProtocol
  import opened InspectRuns

  /** Where paging of the given kind goes on; None when it has ended or never began. */
  function Cursor(x: Snap, kind: Kind): Option<nat> {
    if kind == QueryEditable then (if x.editable.Some? then x.editable.value.nextOffset else None) else x.nextOffset
  }

  /** x is retained, unexpired, current and unfrozen off, and its paging stands at this cursor. */
  ghost predicate Stands(w: World, x: Snap, id: nat, kind: Kind, next: Option<nat>) {
    && x in w.session.store.GetOr([]) && x.id == id && x.kind == kind
    && !Expired(x, w.session.generation, w.now) && !x.invalidated
    && Cursor(x, kind) == next && (kind == QueryEditable ==> x.editable.Some?)
  }

  /** Between requests, paging of this snapshot may go on from the cursor. */
  ghost predicate Pageable(w: World, id: nat, kind: Kind, next: Option<nat>) {
    Inv(w) && w.flight == Idle && exists x :: Stands(w, x, id, kind, next)
  }

  /** The list a kind of paging serves, and what of it has been served. */
  function ListOf(t: Trail, kind: Kind): seq<Element> {
    if kind == QueryEditable then t.targets else t.original
  }

  function ServedOf(t: Trail, kind: Kind): seq<Element> {
    if kind == QueryEditable then t.servedTargets else t.served
  }

  lemma PageableStandsAtItsPages(w: World, id: nat, kind: Kind, next: Option<nat>)
    requires Pageable(w, id, kind, next)
    ensures id in w.trails && CursorAt(ListOf(w.trails[id], kind), ServedOf(w.trails[id], kind), next)
    ensures kind == QueryEditable ==> w.trails[id].targets == Editables(w.trails[id].original)
  {
    hide WellKept, TrailsOk, FlightOk, CursorAt, Editables;
    var x :| Stands(w, x, id, kind, next);
    assert x in w.session.store.GetOr([]);
  }

  /** The lookup of a continuation finds the snapshot that stands there. */
  lemma LookupFinds(w: World, x: Snap, id: nat, kind: Kind, next: Option<nat>)
    requires Inv(w) && Stands(w, x, id, kind, next)
    ensures var (s, found) := GetSnapshot(Dropped(w).session, id, w.now);
            && found.Some? && s.store.value[found.value] == x.(lastAccessedAt := Some(w.now))
            && id in w.trails && SnapOk(s.store.value[found.value], w.trails[id]) && TrailOk(w.trails[id])
            && s.generation == w.session.generation == x.generation
  {
    hide WellKept, StoreOk, SnapOk, TrailOk, FlightOk, GetSnapshot, Expired;
    LiveIsCurrent(x, w.session.generation, w.now);
    DroppedKeepsInv(w);
    LookedUp(Dropped(w), id);
    ContinuationLookup(Dropped(w).session, id, w.now);
    OneStored(w.session, w.now);
    TrailsAreOk(w.trails, w.nextId, w.nextRef, id);
  }

  lemma OneStored(s: State, now: nat)
    requires WellKept(s, now)
    ensures forall x, y :: x in s.store.GetOr([]) && y in s.store.GetOr([]) && x.id == y.id ==> x == y
  {
  }

  lemma LiveIsCurrent(x: Snap, generation: nat, now: nat)
    requires !Expired(x, generation, now)
    ensures x.generation == generation
  {
  }

  /** A snapshot just read is not expired. */
  lemma JustReadIsLive(x: Snap, generation: nat, now: nat)
    requires x.generation == generation && x.lastAccessedAt == Some(now)
    ensures !Expired(x, generation, now)
  {
  }

  lemma InspectStep(w: World, id: nat, o: nat, limit: nat, e: Envelope, tree: nat)
    requires w.flight == Idle
    ensures var ev := ContinueInspect(id, o, limit, e, tree); Step(w, ev) == ContinueAt(Dropped(w), ev)
  {
  }

  lemma QueryStep(w: World, id: nat, o: nat, limit: nat)
    requires w.flight == Idle
    ensures var ev := ContinueQuery(id, o, limit); Step(w, ev) == ContinueTargets(Dropped(w), ev)
  {
  }

  /**
    A continuation from the cursor of a snapshot that may be paged through is answered
    by its next page, unless not even one element fits; in both cases paging may go on,
    from where the pages then end.
   */
  lemma ContinueInspectAnswered(w: World, id: nat, o: nat, limit: nat, e: Envelope, tree: nat)
    requires Pageable(w, id, Inspect, Some(o))
    ensures var (after, out) := Step(w, ContinueInspect(id, o, limit, e, tree));
            && id in w.trails && id in after.trails && after.trails[id].original == w.trails[id].original
            && o <= |w.trails[id].original|
            && match PageCount(w.trails[id].original, o, PageLimit(Some(limit)), e, tree)
               case None => out == Failed(TooLarge) && Pageable(after, id, Inspect, Some(o)) && after.trails == w.trails
               case Some(n) =>
                 && o + n <= |w.trails[id].original|
                 && out == Page(id, w.trails[id].original[o..o + n])
                 && after.trails[id].served == w.trails[id].served + out.elements
                 && Pageable(after, id, Inspect, NextOffset(o + n, |w.trails[id].original|))
  {
    hide Inv, WellKept, SnapOk, TrailOk, GetSnapshot, Expired, PageCount, Step;
    var x :| Stands(w, x, id, Inspect, Some(o));
    PageableStandsAtItsPages(w, id, Inspect, Some(o));
    LookupFinds(w, x, id, Inspect, Some(o));
    InspectStep(w, id, o, limit, e, tree);
    StepKeepsInv(w, ContinueInspect(id, o, limit, e, tree));
    var (s, found) := GetSnapshot(Dropped(w).session, id, w.now);
    var z := s.store.value[found.value];
    UnfrozenListsOriginal(z, w.trails[id]);
    CursorInside(w.trails[id].original, w.trails[id].served, o);
    PageCountBounds(z.elements, o, PageLimit(Some(limit)), e, tree);
    var after := Step(w, ContinueInspect(id, o, limit, e, tree)).0;
    match PageCount(z.elements, o, PageLimit(Some(limit)), e, tree)
    case None => StandsAgain(after, z, found.value, id, Inspect, Some(o));
    case Some(n) =>
      var next := NextOffset(o + n, |z.elements|);
      StandsAgain(after, z.(nextOffset := next), found.value, id, Inspect, next);
  }

  lemma CursorInside(elements: seq<Element>, served: seq<Element>, o: nat)
    requires CursorAt(elements, served, Some(o))
    ensures o <= |elements|
  {
  }

  lemma UnfrozenListsOriginal(x: Snap, t: Trail)
    requires SnapOk(x, t) && !x.invalidated
    ensures x.elements == t.original && (x.editable.Some? ==> x.editable.value.elements == t.targets)
  {
  }

  lemma StandsAgain(w: World, x: Snap, i: nat, id: nat, kind: Kind, next: Option<nat>)
    requires w.session.store.Some? && i < |w.session.store.value| && w.session.store.value[i] == x
    requires x.id == id && x.kind == kind && !x.invalidated && Cursor(x, kind) == next && (kind == QueryEditable ==> x.editable.Some?)
    requires x.generation == w.session.generation && x.lastAccessedAt == Some(w.now)
    ensures Stands(w, x, id, kind, next)
  {
    JustReadIsLive(x, w.session.generation, w.now);
    assert x in w.session.store.value;
  }

  /** A continuation of an editable query from its cursor is always answered by its next page. */
  lemma ContinueQueryAnswered(w: World, id: nat, o: nat, limit: nat) returns (next: Option<nat>)
    requires Pageable(w, id, QueryEditable, Some(o))
    ensures var (after, out) := Step(w, ContinueQuery(id, o, limit));
            && id in w.trails && id in after.trails && after.trails[id].targets == w.trails[id].targets
            && o <= |w.trails[id].targets|
            && out.Targets? && out.id == id && (o < |w.trails[id].targets| ==> out.elements != [])
            && after.trails[id].servedTargets == w.trails[id].servedTargets + out.elements
            && Pageable(after, id, QueryEditable, next) && (next.Some? ==> next.value < |w.trails[id].targets|)
  {
    hide Inv, WellKept, SnapOk, TrailOk, GetSnapshot, Expired, Editables, TakeEditable, Step;
    var ev := ContinueQuery(id, o, limit);
    QueryStep(w, id, o, limit);
    var x :| Stands(w, x, id, QueryEditable, Some(o));
    PageableStandsAtItsPages(w, id, QueryEditable, Some(o));
    LookupFinds(w, x, id, QueryEditable, Some(o));
    StepKeepsInv(w, ev);
    var (s, found) := GetSnapshot(Dropped(w).session, id, w.now);
    var z := s.store.value[found.value];
    UnfrozenListsOriginal(z, w.trails[id]);
    EditableContinuesPrefix(z, z.editable.value, w.trails[id].servedTargets, o, PageLimit(Some(limit)));
    var (y, page) := TakeEditable(z, z.editable.value, o, PageLimit(Some(limit)));
    var after := Step(w, ev).0;
    assert after.session.store.value[found.value] == y;
    StandsAgain(after, y, found.value, id, QueryEditable, y.editable.value.nextOffset);
    next := y.editable.value.nextOffset;
  }

  // ---------------------------------------------------------------- to the end

  lemma AcceptedIsAtCursor(w: World, id: nat, next: Option<nat>, ev: Event)
    requires Pageable(w, id, Inspect, next) && ev.ContinueInspect? && ev.id == id && Step(w, ev).1.Page?
    ensures next == Some(ev.offset)
  {
    hide Inv, WellKept, SnapOk, TrailOk, GetSnapshot, Expired, TakePage, Step;
    var x :| Stands(w, x, id, Inspect, next);
    LookupFinds(w, x, id, Inspect, next);
    InspectStep(w, id, ev.offset, ev.limit, ev.e, ev.tree);
  }

  /**
    However the limits and sizes vary, accepted inspect pages of one snapshot with
    nothing in between hand out at least one element each until the list has ended;
    when the cursor has ended the whole original list has been served, in order.
   */
  lemma {:induction false} AcceptedPagesReachTheEnd(w: World, id: nat, next: Option<nat>, events: seq<Event>) returns (last: Option<nat>)
    requires Pageable(w, id, Inspect, next)
    requires forall k :: 0 <= k < |events| ==>
               events[k].ContinueInspect? && events[k].id == id && Step(Run(w, events[..k]), events[k]).1.Page?
    ensures var after := Run(w, events);
            && Pageable(after, id, Inspect, last) && id in w.trails && id in after.trails
            && after.trails[id].original == w.trails[id].original
            && (last.None? ==> after.trails[id].served == w.trails[id].original)
            && (last.Some? ==> |after.trails[id].served| == last.value >= |w.trails[id].served| + |events|)
    decreases |events|
  {
    hide Pageable, Step, PageCount;
    PageableStandsAtItsPages(w, id, Inspect, next);
    if events == [] {
      last := next;
      EndedOrNot(w, id, next);
    } else {
      var front, ev := events[..|events| - 1], events[|events| - 1];
      forall k | 0 <= k < |front|
        ensures front[..k] == events[..k] && front[k] == events[k]
      {
      }
      var o := AcceptedPagesReachTheEnd(w, id, next, front);
      var before := Run(w, front);
      AcceptedIsAtCursor(before, id, o, ev);
      ContinueInspectAnswered(before, id, ev.offset, ev.limit, ev.e, ev.tree);
      var list := before.trails[id].original;
      var n := PageCount(list, ev.offset, PageLimit(Some(ev.limit)), ev.e, ev.tree).value;
      PageCountAdvances(list, ev.offset, PageLimit(Some(ev.limit)), ev.e, ev.tree);
      last := NextOffset(ev.offset + n, |list|);
      EndedOrNot(Run(w, events), id, last);
    }
  }

  lemma EndedOrNot(w: World, id: nat, next: Option<nat>)
    requires Pageable(w, id, Inspect, next)
    ensures id in w.trails
    ensures next.None? ==> w.trails[id].served == w.trails[id].original
    ensures next.Some? ==> |w.trails[id].served| == next.value
  {
    PageableStandsAtItsPages(w, id, Inspect, next);
  }

  /** The pages from o on can be sent, whatever limit, envelope and tree each is asked for with. */
  ghost predicate Sendable(list: seq<Element>, o: nat, limit: nat -> nat, e: nat -> Envelope, tree: nat -> nat) {
    forall p: nat :: o <= p <= |list| ==> PageCount(list, p, PageLimit(Some(limit(p))), e(p), tree(p)).Some?
  }

  /**
    And the end is reached: asking from the cursor again and again, with any limit,
    envelope and tree each time, if every page can be sent, the whole original list is
    served within as many pages as there are elements left (one page for none).
   */
  lemma {:induction false} InspectReachesTheEnd(w: World, id: nat, o: nat, limit: nat -> nat, e: nat -> Envelope, tree: nat -> nat)
    returns (events: seq<Event>)
    requires Pageable(w, id, Inspect, Some(o)) && id in w.trails
    requires Sendable(w.trails[id].original, o, limit, e, tree)
    ensures var after := Run(w, events);
            && id in after.trails && after.trails[id].served == w.trails[id].original && Pageable(after, id, Inspect, None)
    ensures |events| <= 1 || |events| <= |w.trails[id].original| - o
    decreases |w.trails[id].original| - o
  {
    hide Pageable, Step, PageCount;
    ContinueInspectAnswered(w, id, o, limit(o), e(o), tree(o));
    var list := w.trails[id].original;
    var ev := ContinueInspect(id, o, limit(o), e(o), tree(o));
    var after := Step(w, ev).0;
    var n := PageCount(list, o, PageLimit(Some(limit(o))), e(o), tree(o)).value;
    PageCountAdvances(list, o, PageLimit(Some(limit(o))), e(o), tree(o));
    OneEvent(w, ev);
    if o + n < |list| {
      var rest := InspectReachesTheEnd(after, id, o + n, limit, e, tree);
      events := [ev] + rest;
      RunInParts(w, [ev], rest);
    } else {
      events := [ev];
      EndedOrNot(after, id, None);
    }
  }

  lemma OneEvent(w: World, ev: Event)
    ensures Run(w, [ev]) == Step(w, ev).0
  {
    hide Step;
    assert [ev][..0] == [];
    assert Run(w, [ev]) == Step(Run(w, [ev][..0]), ev).0;
  }

  /** The editable query's pages can always be sent, so asking from its cursor, with any limit each time, always reaches its end. */
  lemma {:induction false} QueryReachesTheEnd(w: World, id: nat, o: nat, limit: nat -> nat) returns (events: seq<Event>)
    requires Pageable(w, id, QueryEditable, Some(o)) && id in w.trails
    ensures var after := Run(w, events);
            && id in after.trails && after.trails[id].servedTargets == w.trails[id].targets == Editables(w.trails[id].original)
            && Pageable(after, id, QueryEditable, None)
    ensures |events| <= 1 || |events| <= |w.trails[id].targets| - o
    decreases |w.trails[id].targets| - o
  {
    hide Pageable, Step, Editables;
    PageableStandsAtItsPages(w, id, QueryEditable, Some(o));
    var next := ContinueQueryAnswered(w, id, o, limit(o));
    var ev := ContinueQuery(id, o, limit(o));
    var (after, out) := Step(w, ev);
    PageableStandsAtItsPages(after, id, QueryEditable, next);
    OneEvent(w, ev);
    if next.Some? {
      assert next.value == |after.trails[id].servedTargets| == o + |out.elements|;
      var rest := QueryReachesTheEnd(after, id, next.value, limit);
      events := [ev] + rest;
      RunInParts(w, [ev], rest);
    } else {
      events := [ev];
    }
  }

  /** Paging may go on from every first page that an inspection was answered with. */
  lemma FirstPageIsPageable(w: World, ev: Event) returns (next: Option<nat>)
    requires Inv(w) && w.flight.AwaitMirror? && w.flight.kind == Inspect && ev.MirrorDone? && Step(w, ev).1.Page?
    ensures Pageable(Step(w, ev).0, Step(w, ev).1.id, Inspect, next)
  {
    hide Current, StoreSnapshot, Mirror, WellKept, StoreOk, Put, PageCount, Expired, TrailsOk;
    var x := NewSnap(w, ev.frameRefs);
    var after := Step(w, ev).0;
    StepKeepsInv(w, ev);
    PublishIsExact(w, ev.frameRefs);
    var t := Trail(x.elements, [], [], [], w.flight.scanned, w.invalidated, w.nextRef);
    StoredOk(w, x, t);
    var stored := StoreSnapshot(w.session, x, w.now);
    var r := TakePage(x.(lastAccessedAt := Some(w.now)), 0, PageLimit(Some(ev.limit)), ev.e, ev.tree);
    var y := r.value.0;
    KeptIsDistinct(stored, w.now);
    PutLast(stored.store.value, y);
    next := y.nextOffset;
    StandsAgain(after, y, |stored.store.value| - 1, x.id, Inspect, next);
  }

  /** The stored snapshot a resumed query takes up. */
  ghost predicate TakesUp(w: World, x: Snap, id: nat) {
    w.session.latest == Some(id) && x in w.session.store.GetOr([]) && x.id == id
  }

  /**
    A resumed query takes up whatever snapshot is the latest by then. Its paging may go
    on if and only if that is a query's snapshot, current, unexpired and not frozen off.
   */
  lemma ResumedIsPageable(w: World, limit: nat, x: Snap)
    requires Inv(w) && w.flight == AwaitQuery && Step(w, QueryResumed(limit)).1.Targets?
    requires TakesUp(w, x, Step(w, QueryResumed(limit)).1.id)
    ensures var (after, out) := Step(w, QueryResumed(limit));
            ((exists next: Option<nat> :: Pageable(after, out.id, QueryEditable, next))
              <==> x.kind == QueryEditable && !x.invalidated && !Expired(x, w.session.generation, w.now))
  {
    hide Inv, WellKept, SnapOk, TrailsOk, Expired, Editables, TakeEditable, Pageable, Step;
    var ev := QueryResumed(limit);
    var (after, out) := Step(w, ev);
    StepKeepsInv(w, ev);
    var y, i := Resumed(w, limit, x);
    SameAge(x, y, w.session.generation, w.now);
    if x.kind == QueryEditable && !x.invalidated && !Expired(x, w.session.generation, w.now) {
      assert y in after.session.store.value;
      assert Stands(after, y, out.id, QueryEditable, y.editable.value.nextOffset);
      StandingIsPageable(after, y, out.id, QueryEditable, y.editable.value.nextOffset);
    }
    if next: Option<nat> :| Pageable(after, out.id, QueryEditable, next) {
      var z := StandingOne(after, out.id, QueryEditable, next);
      StoredOnce(after, y, z);
    }
  }

  lemma SameAge(x: Snap, y: Snap, generation: nat, now: nat)
    requires y == x.(editable := y.editable)
    ensures Expired(y, generation, now) <==> Expired(x, generation, now)
  {
  }

  lemma StandingIsPageable(w: World, x: Snap, id: nat, kind: Kind, next: Option<nat>)
    requires Inv(w) && w.flight == Idle && Stands(w, x, id, kind, next)
    ensures Pageable(w, id, kind, next)
  {
  }

  lemma StandingOne(w: World, id: nat, kind: Kind, next: Option<nat>) returns (x: Snap)
    requires Pageable(w, id, kind, next)
    ensures Stands(w, x, id, kind, next)
  {
    x :| Stands(w, x, id, kind, next);
  }

  lemma StoredOnce(w: World, x: Snap, y: Snap)
    requires Inv(w) && x in w.session.store.GetOr([]) && y in w.session.store.GetOr([]) && x.id == y.id
    ensures x == y
  {
    OneStored(w.session, w.now);
  }

  /** What a resumed query leaves in the store: the snapshot taken up, with the query on it. */
  lemma Resumed(w: World, limit: nat, x: Snap) returns (y: Snap, i: nat)
    requires Inv(w) && w.flight == AwaitQuery && Step(w, QueryResumed(limit)).1.Targets?
    requires TakesUp(w, x, Step(w, QueryResumed(limit)).1.id)
    ensures var after := Step(w, QueryResumed(limit)).0;
            && after.flight == Idle && after.now == w.now && after.session.generation == w.session.generation
            && after.session.store.Some? && i < |after.session.store.value| && after.session.store.value[i] == y
            && y == x.(editable := y.editable) && y.editable.Some?
  {
    hide Inv, TakeEditable;
    i := Find(w.session.store.GetOr([]), x.id);
    StoredOnce(w, x, w.session.store.value[i]);
    y := Step(w, QueryResumed(limit)).0.session.store.value[i];
    TakenUp(x, EditableQuery(Editables(x.elements), Some(0)), PageLimit(Some(limit)));
  }

  lemma TakenUp(x: Snap, q: EditableQuery, limit: nat)
    ensures var y := TakeEditable(x.(editable := Some(q)), q, 0, limit).0; y == x.(editable := y.editable) && y.editable.Some?
  {
  }

  /** An editable query that nothing disturbs between its inspection and its first targets may be paged on. */
  lemma QueryStarts(w: World, ev: Event, limit: nat) returns (next: Option<nat>)
    requires Inv(w) && w.flight.AwaitMirror? && w.flight.kind == QueryEditable && ev.MirrorDone? && Step(w, ev).1.Page?
    ensures var (after, out) := Step(Step(w, ev).0, QueryResumed(limit));
            out.Targets? && out.id == Step(w, ev).1.id && Pageable(after, out.id, QueryEditable, next)
  {
    hide Inv, WellKept, SnapOk, TrailsOk, Expired, Editables, TakeEditable, Pageable, Step;
    StepKeepsInv(w, ev);
    var x := QueryPublished(w, ev);
    var mid := Step(w, ev).0;
    ResumesLatest(mid, limit, x);
    ResumedIsPageable(mid, limit, x);
    var (after, out) := Step(mid, QueryResumed(limit));
    next :| Pageable(after, out.id, QueryEditable, next);
  }

  lemma ResumesLatest(w: World, limit: nat, x: Snap)
    requires Inv(w) && w.flight == AwaitQuery && w.session.latest.Some? && TakesUp(w, x, w.session.latest.value)
    ensures Step(w, QueryResumed(limit)).1.Targets? && Step(w, QueryResumed(limit)).1.id == x.id
  {
    hide WellKept, SnapOk, TrailsOk, TakeEditable;
    assert Find(w.session.store.value, x.id) < |w.session.store.value| by {
      var i :| 0 <= i < |w.session.store.value| && w.session.store.value[i] == x;
      assert w.session.store.value[i].id == x.id;
    }
    assert x.id in w.trails;
  }

  lemma QueryPublished(w: World, ev: Event) returns (y: Snap)
    requires Inv(w) && w.flight.AwaitMirror? && w.flight.kind == QueryEditable && ev.MirrorDone? && Step(w, ev).1.Page?
    ensures var (after, out) := Step(w, ev);
            && after.flight == AwaitQuery && TakesUp(after, y, out.id) && after.session.latest == Some(out.id)
            && y.kind == QueryEditable && !y.invalidated && !Expired(y, after.session.generation, after.now)
  {
    hide Current, StoreSnapshot, Mirror, WellKept, StoreOk, Put, PageCount, Expired, TrailsOk;
    var x := NewSnap(w, ev.frameRefs);
    PublishIsExact(w, ev.frameRefs);
    var t := Trail(x.elements, [], [], [], w.flight.scanned, w.invalidated, w.nextRef);
    StoredOk(w, x, t);
    NextIdIsNew(w);
    StorePolicy(w.session, x, w.now);
    var stored := StoreSnapshot(w.session, x, w.now);
    var r := TakePage(x.(lastAccessedAt := Some(w.now)), 0, 1, ev.e, ev.tree);
    y := r.value.0;
    KeptIsDistinct(stored, w.now);
    PutLast(stored.store.value, y);
    assert stored.store.value[|stored.store.value| - 1 := y][|stored.store.value| - 1] == y;
    JustReadIsLive(y, w.session.generation, w.now);
  }
}
