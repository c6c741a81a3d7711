/**
  What one step of the inspection protocol leaves in the store: later states of what was
  there, and at most one snapshot newly published
  (packages/browser-core/src/browser-state.ts, packages/browser-core/src/browser-snapshot.ts).
 */
module StoreHistory {
  import opened Wrappers
  import opened BrowserState
  import opened PageBudget
  import opened SnapshotPaging
  import opened InspectProtocol

  function StoreOf(w: World): seq<Snap> {
    w.session.store.GetOr([])
  }

  /** A later state of the same snapshot: it lists no more, and once frozen off it stays so. */
  ghost predicate Later(x: Snap, y: Snap) {
    y.id == x.id && AllFrom(y.elements, x.elements) && (x.invalidated ==> y.invalidated)
  }

  ghost predicate Within(store: seq<Snap>, y: Snap) {
    exists x :: x in store && Later(x, y)
  }

  ghost predicate Listed(store: seq<Snap>, e: Element) {
    exists x :: x in store && e in x.elements
  }

  /** Every stored snapshot was stored before, or has just been published under this id. */
  ghost predicate Inherits(before: seq<Snap>, after: seq<Snap>, added: seq<Element>, id: nat) {
    forall y :: y in after ==> Within(before, y) || (y.id == id && AllFrom(y.elements, added))
  }

  /** Every mirrored element was mirrored before, or is one of a stored snapshot. */
  ghost predicate MirrorInherits(before: map<nat, Element>, after: map<nat, Element>, store: seq<Snap>) {
    forall r :: r in after ==> (r in before && after[r] == before[r]) || (after[r].ref == r && Listed(store, after[r]))
  }

  /** Whether this step publishes what the inspection in flight has scanned. */
  predicate Publishes(w: World, ev: Event) {
    ev.MirrorDone? && w.flight.AwaitMirror? && w.session.generation == w.flight.generation
  }

  function Fresh(w: World, ev: Event): seq<Element> {
    if Publishes(w, ev) then NewSnap(w, ev.frameRefs).elements else []
  }

  lemma AgedInherits(before: seq<Snap>, after: seq<Snap>, added: seq<Element>, id: nat)
    requires OnlyAged(before, after)
    ensures Inherits(before, after, added, id)
  {
    forall y | y in after
      ensures Within(before, y)
    {
      var x, t: Option<nat> :| x in before && y == x.(lastAccessedAt := t);
      assert Later(x, y);
    }
  }

  lemma LaterInherits(before: seq<Snap>, x: Snap, y: Snap)
    requires Within(before, x) && Later(x, y)
    ensures Within(before, y)
  {
    var z :| z in before && Later(z, x);
    assert Later(z, y);
  }

  lemma SameElementsInherit(before: seq<Snap>, store: seq<Snap>, i: nat, y: Snap, added: seq<Element>, id: nat)
    requires Inherits(before, store, added, id) && i < |store| && Later(store[i], y)
    ensures Inherits(before, store[i := y], added, id)
  {
    hide Within;
    assert store[i] in store;
    if Within(before, store[i]) {
      LaterInherits(before, store[i], y);
    }
    forall x | x in store[i := y]
      ensures Within(before, x) || (x.id == id && AllFrom(x.elements, added))
    {
      var j :| 0 <= j < |store| && store[i := y][j] == x;
      assert store[j] in store;
    }
  }

  lemma SameStoreInherits(store: seq<Snap>, id: nat)
    ensures Inherits(store, store, [], id)
  {
    forall y | y in store
      ensures Within(store, y)
    {
      assert Later(y, y);
    }
  }

  lemma RevokedInherits(store: seq<Snap>, identity: Identity, id: nat)
    ensures Inherits(store, RevokeEach(store, identity), [], id)
  {
    var after := RevokeEach(store, identity);
    forall y | y in after
      ensures Within(store, y)
    {
      var i :| 0 <= i < |after| && after[i] == y;
      SparedMembers(store[i].elements, identity);
      assert store[i] in store && Later(store[i], y);
    }
  }

  lemma FrozenInherits(store: seq<Snap>, id: nat)
    ensures Inherits(store, FreezeEach(store), [], id)
  {
    var after := FreezeEach(store);
    forall y | y in after
      ensures Within(store, y)
    {
      var i :| 0 <= i < |after| && after[i] == y;
      assert store[i] in store && Later(store[i], y);
    }
  }

  lemma MirroredLatest(s: State)
    ensures MirrorInherits(map[], Mirror(LatestElements(s)), s.store.GetOr([]))
  {
    MirrorMembers(LatestElements(s));
  }

  lemma LookupsKeepMirror(s: State, id: nat, now: nat)
    ensures GetSnapshot(s, id, now).0.mirror == s.mirror
    ensures ResolveElement(s, id, now).0.mirror == s.mirror
  {
  }

  lemma InvalidatedInherits(w: World, identity: Identity)
    ensures var w' := Step(w, FrameReplaced(identity)).0;
            Inherits(StoreOf(w), StoreOf(w'), [], w.nextId) && MirrorInherits(w.session.mirror, w'.session.mirror, StoreOf(w'))
  {
    hide Mirror, RevokeEach, LatestElements, Bump, Listed, Within;
    SameStoreInherits(StoreOf(w), w.nextId);
    RevokedInherits(StoreOf(w), identity, w.nextId);
    MirroredLatest(RevokeFrame(w.session, identity));
  }

  lemma ResumedInherits(w: World, limit: nat)
    ensures var w' := Step(w, QueryResumed(limit)).0;
            Inherits(StoreOf(w), StoreOf(w'), [], w.nextId) && w'.session.mirror == w.session.mirror
  {
    hide Inherits, Editables, EditableCount, Find;
    SameStoreInherits(StoreOf(w), w.nextId);
    var store := StoreOf(w);
    if w.flight.AwaitQuery? && w.session.latest.Some? {
      var i := Find(store, w.session.latest.value);
      if i < |store| && w.session.latest.value in w.trails {
        var q := EditableQuery(Editables(store[i].elements), Some(0));
        var y := TakeEditable(store[i].(editable := Some(q)), q, 0, PageLimit(Some(limit))).0;
        SameElementsInherit(store, store, i, y, [], w.nextId);
      }
    }
  }

  lemma ContinuedInherits(w: World, ev: Event)
    requires Inv(w) && (ev.ContinueInspect? || ev.ContinueQuery?)
    ensures var w' := Step(w, ev).0;
            Inherits(StoreOf(w), StoreOf(w'), [], w.nextId) && w'.session.mirror == w.session.mirror
  {
    hide Inv, Inherits, OnlyAged, GetSnapshot, PageCount, EditableCount;
    SameStoreInherits(StoreOf(w), w.nextId);
    if w.flight == Idle {
      DroppedKeepsInv(w);
      LookedUpAges(Dropped(w), ev.id);
      LookupsKeepMirror(Dropped(w).session, ev.id, w.now);
      var (s, found) := GetSnapshot(Dropped(w).session, ev.id, w.now);
      AgedInherits(StoreOf(w), s.store.value, [], w.nextId);
      if found.Some? && ev.id in w.trails {
        var x := s.store.value[found.value];
        if ev.ContinueInspect? {
          var r := ContinuePage(x, ev.offset, PageLimit(Some(ev.limit)), ev.e, ev.tree);
          if r.Ok? {
            SameElementsInherit(StoreOf(w), s.store.value, found.value, r.value.0, [], w.nextId);
          }
        } else {
          var r := ContinueEditable(x, ev.offset, PageLimit(Some(ev.limit)));
          if r.Ok? {
            SameElementsInherit(StoreOf(w), s.store.value, found.value, r.value.0, [], w.nextId);
          }
        }
      }
    }
  }

  lemma LookedUpAges(w: World, id: nat)
    requires Inv(w)
    ensures OnlyAged(StoreOf(w), GetSnapshot(w.session, id, w.now).0.store.value)
  {
    hide OnlyAged, GetSnapshot, StoreOk, TrailsOk, FlightOk, WellKept;
    GetOnlyAges(w.session, id, w.now);
  }

  lemma ResolvedAges(w: World, ref: nat)
    requires Inv(w)
    ensures OnlyAged(StoreOf(w), ResolveElement(w.session, ref, w.now).0.store.value)
  {
    hide OnlyAged, ResolveElement, StoreOk, TrailsOk, FlightOk, WellKept;
    ResolveOnlyAges(w.session, ref, w.now);
  }

  lemma FrozenStepInherits(w: World, ev: Event)
    requires ev.TypeDone? || ev.OtherAction? || ev.ActionMutated?
    ensures var w' := Step(w, ev).0;
            Inherits(StoreOf(w), StoreOf(w'), [], w.nextId) && w'.session.mirror == w.session.mirror
  {
    hide Inherits, FreezeEach;
    SameStoreInherits(StoreOf(w), w.nextId);
    FrozenInherits(StoreOf(w), w.nextId);
  }

  lemma ResolvedInherits(w: World, ev: Event)
    requires Inv(w) && (ev.RefUsed? || ev.TypeBegin? || ev.TypeObserve?)
    ensures var w' := Step(w, ev).0;
            Inherits(StoreOf(w), StoreOf(w'), [], w.nextId) && w'.session.mirror == w.session.mirror
  {
    hide Inv, Inherits, OnlyAged, ResolveElement;
    SameStoreInherits(StoreOf(w), w.nextId);
    DroppedKeepsInv(w);
    if ev.RefUsed? || ev.TypeBegin? || w.flight.AwaitFocus? {
      var ref := if ev.RefUsed? || ev.TypeBegin? then ev.ref else w.flight.ref;
      var d := if ev.TypeBegin? then Dropped(w) else w;
      ResolvedAges(d, ref);
      LookupsKeepMirror(d.session, ref, w.now);
      AgedInherits(StoreOf(w), ResolveElement(d.session, ref, w.now).0.store.value, [], w.nextId);
    }
  }

  /** The store after a publication: earlier snapshots, and the new one. */
  lemma StoredInherits(w: World, x: Snap)
    requires Inv(w) && x.id == w.nextId && x.generation == w.session.generation
    ensures var s := StoreSnapshot(w.session, x, w.now);
            && s.store.Some? && DistinctIds(s.store.value) && s.store.value != []
            && s.store.value[|s.store.value| - 1] == x.(lastAccessedAt := Some(w.now))
            && Inherits(StoreOf(w), s.store.value, x.elements, w.nextId)
  {
    hide WellKept, StoreSnapshot, StoreOk, TrailsOk, FlightOk, Expired, AccessTime;
    NextIdIsNew(w);
    StorePolicy(w.session, x, w.now);
    StoringKeepsTheRest(w.session, x, w.now);
    var kept := StoreSnapshot(w.session, x, w.now).store.value;
    KeptIsDistinct(StoreSnapshot(w.session, x, w.now), w.now);
    forall y | y in kept
      ensures Within(StoreOf(w), y) || (y.id == w.nextId && AllFrom(y.elements, x.elements))
    {
      if y.id == x.id {
        OnlyLastHasItsId(kept, y);
      } else {
        assert y in StoreOf(w) && Later(y, y);
      }
    }
  }

  lemma PublishedInherits(w: World, ev: Event)
    requires Inv(w) && ev.MirrorDone?
    ensures var w' := Step(w, ev).0;
            Inherits(StoreOf(w), StoreOf(w'), Fresh(w, ev), w.nextId) && MirrorInherits(w.session.mirror, w'.session.mirror, StoreOf(w'))
  {
    hide Inv, Inherits, StoreSnapshot, Mirror, Put, PageCount, Current, Minted, DistinctIds;
    SameStoreInherits(StoreOf(w), w.nextId);
    if Publishes(w, ev) {
      var x := NewSnap(w, ev.frameRefs);
      StoredInherits(w, x);
      MirrorMembers(x.elements);
      var store := StoreSnapshot(w.session, x, w.now).store.value;
      var stored := x.(lastAccessedAt := Some(w.now));
      LastListsAll(store, x.elements);
      var r := TakePage(stored, 0, if x.kind == Inspect then PageLimit(Some(ev.limit)) else 1, ev.e, ev.tree);
      if r.Ok? {
        PutLast(store, r.value.0);
        SameElementsInherit(StoreOf(w), store, |store| - 1, r.value.0, x.elements, w.nextId);
        LastListsAll(store[|store| - 1 := r.value.0], x.elements);
      }
    }
  }

  lemma LastListsAll(store: seq<Snap>, elements: seq<Element>)
    requires store != [] && store[|store| - 1].elements == elements
    ensures forall e :: e in elements ==> Listed(store, e)
  {
    assert store[|store| - 1] in store;
  }

  lemma StepInherits(w: World, ev: Event)
    requires Inv(w)
    ensures var w' := Step(w, ev).0;
            Inherits(StoreOf(w), StoreOf(w'), Fresh(w, ev), w.nextId) && MirrorInherits(w.session.mirror, w'.session.mirror, StoreOf(w'))
  {
    hide Inv, Inherits, RevokeFrame, GetSnapshot, ResolveElement, ResumeQuery, ContinueAt, ContinueTargets, Publish, Current, InvalidateFrame, InvalidateObservations, BeginTyping, ObserveTyping, FinishTyping, Fresh;
    SameStoreInherits(StoreOf(w), w.nextId);
    if !ev.MirrorDone? {
      NothingFresh(w, ev);
    }
    match ev
    case FrameReplaced(identity) => InvalidatedInherits(w, identity);
    case MainNavigated => NothingInherits(StoreOf(w), w.nextId);
    case MirrorDone(_, _, _, _) => PublishedInherits(w, ev);
    case QueryResumed(limit) => ResumedInherits(w, limit);
    case ContinueInspect(_, _, _, _, _) => ContinuedInherits(w, ev);
    case ContinueQuery(_, _, _) => ContinuedInherits(w, ev);
    case Tick(_) =>
    case Begin(_) =>
    case SummaryRead =>
    case ScanDone(_) =>
    case AwaitFailed =>
    case RefUsed(_) => ResolvedInherits(w, ev);
    case TypeBegin(_) => ResolvedInherits(w, ev);
    case TypeObserve => ResolvedInherits(w, ev);
    case _ => FrozenStepInherits(w, ev);
  }

  lemma NothingFresh(w: World, ev: Event)
    requires !ev.MirrorDone?
    ensures Fresh(w, ev) == []
  {
  }

  lemma NothingInherits(store: seq<Snap>, id: nat)
    ensures Inherits(store, [], [], id)
  {
  }
}
