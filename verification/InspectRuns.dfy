/**
  What holds over every run of the inspection protocol: which lists are paged through
  and where they come from, what a navigation ends, and which snapshot a ref belongs to
  (packages/browser-core/src/browser-snapshot.ts, packages/browser-core/src/browser-state.ts).
 */
module InspectRuns {
  import opened Wrappers
  import opened BrowserState
  import opened PageBudget
  import opened SnapshotPaging
  import opened InspectProtocol

  /**
    Frozen pagination and frame-epoch safety over every run. Whatever was ever
    published listed exactly the scanned elements that no frame invalidation since
    the epoch capture matched; the pages handed out of it, and the pages of its
    editable query, are prefixes without gap or repeat; and every retained snapshot
    that may still be paged through stands exactly where its pages end, as does its
    editable query, whose list is then exactly the editable elements of the original.
   */
  lemma EveryRunPagesFrozenLists(events: seq<Event>)
    ensures var w := Run(START, events);
            && (forall id :: id in w.trails ==>
                  var t := w.trails[id];
                  && t.original == Minted(Survivors(t.scanned, t.invalidated), t.firstRef)
                  && t.served <= t.original && t.servedTargets <= t.targets
                  && AllFrom(t.targets, t.original) && AllEditable(t.targets))
            && (forall x :: x in w.session.store.GetOr([]) && !x.invalidated ==>
                  x.id in w.trails && x.elements == w.trails[x.id].original
                  && CursorAt(x.elements, w.trails[x.id].served, x.nextOffset)
                  && (x.editable.Some? ==>
                        && x.editable.value.elements == w.trails[x.id].targets == Editables(w.trails[x.id].original)
                        && CursorAt(w.trails[x.id].targets, w.trails[x.id].servedTargets, x.editable.value.nextOffset)))
            && |w.session.store.GetOr([])| <= MAX_RETAINED
            && (w.session.latest.Some? ==> Has(w.session.store.GetOr([]), w.session.latest.value))
  {
    RunKeepsInv(events);
  }

  /** An inspection in flight, if any, began before the last navigation. */
  ghost predicate Overtaken(w: World) {
    match w.flight
    case AwaitSummary(_, g, _) => g < w.session.generation
    case AwaitScan(_, g, _) => g < w.session.generation
    case AwaitMirror(_, g, _, _, _) => g < w.session.generation
    case _ => true
  }

  lemma LookupsKeepGeneration(s: State, id: nat, now: nat)
    ensures GetSnapshot(s, id, now).0.generation == s.generation
    ensures ResolveElement(s, id, now).0.generation == s.generation
  {
  }

  lemma OvertakenStep(w: World, ev: Event)
    requires Overtaken(w) && !ev.Begin?
    ensures Overtaken(Step(w, ev).0) && Step(w, ev).0.trails.Keys == w.trails.Keys
  {
    hide GetSnapshot, ResolveElement, TakePage, TakeEditable, ContinuePage, ContinueEditable, Find, Editables, Current;
    match ev
    case RefUsed(ref) => LookupsKeepGeneration(w.session, ref, w.now);
    case ContinueInspect(id, _, _, _, _) => LookupsKeepGeneration(w.session, id, w.now);
    case ContinueQuery(id, _, _) => LookupsKeepGeneration(w.session, id, w.now);
    case TypeBegin(ref) => LookupsKeepGeneration(w.session, ref, w.now);
    case _ =>
  }

  lemma {:induction false} OvertakenRun(w: World, events: seq<Event>)
    requires Overtaken(w) && forall e :: e in events ==> !e.Begin?
    ensures Overtaken(Run(w, events)) && Run(w, events).trails.Keys == w.trails.Keys
    decreases |events|
  {
    if events != [] {
      OvertakenRun(w, events[..|events| - 1]);
      OvertakenStep(Run(w, events[..|events| - 1]), events[|events| - 1]);
    }
  }

  lemma {:induction false} RunInParts(w: World, events: seq<Event>, more: seq<Event>)
    ensures Run(w, events + more) == Run(Run(w, events), more)
    decreases |more|
  {
    if more == [] {
      assert events + more == events;
    } else {
      RunInParts(w, events, more[..|more| - 1]);
      assert (events + more)[..|events + more| - 1] == events + more[..|more| - 1];
    }
  }

  /** The run cut at one of its events. */
  lemma CutAt(before: seq<Event>, ev: Event, after: seq<Event>) returns (hit: World)
    ensures hit == Step(Run(START, before), ev).0
    ensures Run(START, before + [ev] + after) == Run(hit, after)
  {
    hide Step;
    assert (before + [ev])[..|before|] == before;
    RunInParts(START, before + [ev], after);
    hit := Step(Run(START, before), ev).0;
  }

  /**
    A main navigation ends every inspection: whatever was in flight, nothing is
    published after it until another inspection begins.
   */
  lemma NavigationEndsInspections(before: seq<Event>, after: seq<Event>)
    requires forall e :: e in after ==> !e.Begin?
    ensures Run(START, before + [MainNavigated] + after).trails.Keys == Run(START, before).trails.Keys
  {
    hide Step;
    var w := Run(START, before);
    RunKeepsInv(before);
    assert (before + [MainNavigated])[..|before|] == before;
    NavigationOvertakes(w);
    OvertakenRun(Step(w, MainNavigated).0, after);
    RunInParts(START, before + [MainNavigated], after);
  }

  lemma NavigationOvertakes(w: World)
    requires Inv(w)
    ensures Overtaken(Step(w, MainNavigated).0) && Step(w, MainNavigated).0.trails == w.trails
  {
  }

  /** The frame invalidations among some events, in order. */
  function Invalidations(events: seq<Event>): seq<Identity> {
    if events == [] then []
    else
      var last := events[|events| - 1];
      Invalidations(events[..|events| - 1]) + if last.FrameReplaced? then [last.identity] else []
  }

  /** The log an inspection is judged by is every frame invalidation since it began. */
  lemma {:induction false} LogIsEveryInvalidationSince(w: World, kind: Kind, events: seq<Event>)
    requires w.flight == Idle && forall e :: e in events ==> !e.Begin?
    ensures Run(w, [Begin(kind)] + events).invalidated == Invalidations(events)
    decreases |events|
  {
    hide Step;
    var all := [Begin(kind)] + events;
    if events == [] {
      LogStartsEmpty(w, kind);
      assert all == [Begin(kind)] && [Begin(kind)][..0] == [];
      assert Run(w, all) == Step(Run(w, []), Begin(kind)).0;
    } else {
      var front := events[..|events| - 1];
      LogIsEveryInvalidationSince(w, kind, front);
      assert all[..|all| - 1] == [Begin(kind)] + front;
      LogGrows(Run(w, [Begin(kind)] + front), events[|events| - 1]);
    }
  }

  lemma LogStartsEmpty(w: World, kind: Kind)
    requires w.flight == Idle
    ensures Step(w, Begin(kind)).0.invalidated == []
  {
  }

  lemma LogGrows(w: World, ev: Event)
    requires !ev.Begin?
    ensures Step(w, ev).0.invalidated == w.invalidated + if ev.FrameReplaced? then [ev.identity] else []
  {
  }

  // ------------------------------------------------------- where a list comes from

  predicate Inspecting(f: Flight) {
    f.AwaitSummary? || f.AwaitScan? || f.AwaitMirror?
  }

  /** The world before the j-th event. */
  function At(events: seq<Event>, j: nat): World
    requires j <= |events|
  {
    Run(START, events[..j])
  }

  /** The inspection that event b began is in flight until before event m. */
  ghost predicate InFlight(events: seq<Event>, b: nat, m: nat) {
    && b < m <= |events| && events[b].Begin? && At(events, b).flight == Idle
    && forall j :: b < j <= m ==> Inspecting(At(events, j).flight)
  }

  /** Event k, in between, ended the scan of that inspection. */
  ghost predicate ScannedAt(events: seq<Event>, b: nat, k: nat, m: nat, scanned: seq<Raw>) {
    b < k < m <= |events| && events[k] == ScanDone(scanned) && At(events, k).flight.AwaitScan?
  }

  lemma InspectionStep(w: World, ev: Event)
    requires Inspecting(Step(w, ev).0.flight)
    ensures var after := Step(w, ev).0;
            if Inspecting(w.flight) then
              && after.invalidated == w.invalidated + (if ev.FrameReplaced? then [ev.identity] else [])
              && (after.flight.AwaitMirror? ==>
                    if w.flight.AwaitMirror? then after.flight.scanned == w.flight.scanned
                    else w.flight.AwaitScan? && ev == ScanDone(after.flight.scanned))
            else w.flight == Idle && ev.Begin? && after.invalidated == [] && !after.flight.AwaitMirror?
  {
    hide GetSnapshot, ResolveElement, TakePage, TakeEditable, ContinuePage, ContinueEditable, Find, Editables, Current;
  }

  lemma SameBefore(front: seq<Event>, last: Event, j: nat)
    requires j <= |front|
    ensures At(front + [last], j) == At(front, j)
  {
    assert (front + [last])[..j] == front[..j];
  }

  /** One more event changes nothing about what came before, and may keep the inspection in flight. */
  lemma InFlightStays(front: seq<Event>, last: Event, b: nat, m: nat)
    requires InFlight(front, b, m)
    ensures InFlight(front + [last], b, m)
    ensures m == |front| && Inspecting(Run(START, front + [last]).flight) ==> InFlight(front + [last], b, m + 1)
  {
    hide Inspecting, Run;
    var events := front + [last];
    SameBefore(front, last, b);
    assert events[..|events|] == events;
    forall j | b < j <= m
      ensures Inspecting(At(events, j).flight)
    {
      SameBefore(front, last, j);
    }
  }

  lemma ScannedStays(front: seq<Event>, last: Event, b: nat, k: nat, m: nat, scanned: seq<Raw>)
    requires ScannedAt(front, b, k, m, scanned)
    ensures ScannedAt(front + [last], b, k, m, scanned)
    ensures m == |front| ==> ScannedAt(front + [last], b, k, m + 1, scanned)
  {
    hide Run;
    SameBefore(front, last, k);
  }

  /** The last event begins an inspection. */
  lemma InFlightBegins(front: seq<Event>, last: Event)
    requires last.Begin? && Run(START, front).flight == Idle && Inspecting(Run(START, front + [last]).flight)
    ensures InFlight(front + [last], |front|, |front| + 1)
  {
    hide Inspecting, Run;
    var events := front + [last];
    assert events[..|front|] == front && events[..|events|] == events;
  }

  /** The last event ends its scan. */
  lemma ScanEnds(front: seq<Event>, last: Event, b: nat)
    requires b < |front| && last.ScanDone? && Run(START, front).flight.AwaitScan?
    ensures ScannedAt(front + [last], b, |front|, |front| + 1, last.scanned)
  {
    hide Run;
    assert (front + [last])[..|front|] == front;
  }

  /** An inspection in flight has seen all invalidations since it began. */
  lemma {:induction false} InspectionUnderway(events: seq<Event>) returns (b: nat, k: nat)
    requires Inspecting(Run(START, events).flight)
    ensures var w := Run(START, events);
            && InFlight(events, b, |events|) && w.invalidated == Invalidations(events[b + 1..])
            && (w.flight.AwaitMirror? ==> ScannedAt(events, b, k, |events|, w.flight.scanned))
    decreases |events|
  {
    hide Step, Inspecting, InFlight, ScannedAt;
    NotInspectingAtStart();
    var front, last := events[..|events| - 1], events[|events| - 1];
    var w := Run(START, front);
    assert events == front + [last];
    InspectionStep(w, last);
    if Inspecting(w.flight) {
      b, k := InspectionUnderway(front);
      InFlightBefore(front, b);
      InFlightStays(front, last, b, |front|);
      if w.flight.AwaitMirror? {
        ScannedStays(front, last, b, k, |front|, w.flight.scanned);
      } else if Run(START, events).flight.AwaitMirror? {
        k := |front|;
        ScanEnds(front, last, b);
      }
      var log := events[b + 1..];
      assert log[..|log| - 1] == front[b + 1..] && log[|log| - 1] == last;
    } else {
      b, k := |front|, 0;
      InFlightBegins(front, last);
      assert events[b + 1..] == [];
    }
  }

  lemma InFlightBefore(events: seq<Event>, b: nat)
    requires InFlight(events, b, |events|)
    ensures b < |events|
  {
  }

  lemma NotInspectingAtStart()
    ensures !Inspecting(START.flight)
  {
  }

  lemma TrailStep(w: World, ev: Event, id: nat)
    requires id in Step(w, ev).0.trails
    ensures var t := Step(w, ev).0.trails[id];
            || (id in w.trails && t.scanned == w.trails[id].scanned && t.firstRef == w.trails[id].firstRef
                && t.invalidated == w.trails[id].invalidated && t.original == w.trails[id].original)
            || (ev.MirrorDone? && w.flight.AwaitMirror? && id == w.nextId
                && t.scanned == w.flight.scanned && t.firstRef == w.nextRef && t.invalidated == w.invalidated)
  {
    hide StoreSnapshot, GetSnapshot, TakePage, TakeEditable, ResolveElement, InvalidateFrame, InvalidateObservations, Navigate, Current, Find, Editables, Put, Mirror, Minted;
  }

  /**
    Every list ever published, from end to end: an inspection begun by event b stayed
    in flight until event m published it, event k ended its scan, and the list is what
    was scanned less what any frame invalidation delivered between b and m matches,
    in order, under the refs that were next.
   */
  lemma {:induction false} EveryListIsTraced(events: seq<Event>, id: nat) returns (b: nat, k: nat, m: nat)
    requires id in Run(START, events).trails
    ensures m < |events| && events[m].MirrorDone? && InFlight(events, b, m) && b < k < m && events[k].ScanDone?
    ensures At(events, k).flight.AwaitScan? && id == At(events, m).nextId
    ensures Run(START, events).trails[id].original
         == Minted(Survivors(events[k].scanned, Invalidations(events[b + 1..m])), At(events, m).nextRef)
    decreases |events|
  {
    hide Step, Inspecting, Survivors;
    b, k, m := TrailOrigin(events, id);
    RunKeepsInv(events);
    var w := Run(START, events);
    TrailsAreOk(w.trails, w.nextId, w.nextRef, id);
    TrailIsMinted(w.trails[id]);
  }

  lemma TrailIsMinted(t: Trail)
    requires TrailOk(t)
    ensures t.original == Minted(Survivors(t.scanned, t.invalidated), t.firstRef)
  {
  }

  lemma {:induction false} TrailOrigin(events: seq<Event>, id: nat) returns (b: nat, k: nat, m: nat)
    requires id in Run(START, events).trails
    ensures var t := Run(START, events).trails[id];
            && m < |events| && events[m].MirrorDone? && InFlight(events, b, m) && ScannedAt(events, b, k, m, t.scanned)
            && id == At(events, m).nextId && t.firstRef == At(events, m).nextRef
            && t.invalidated == Invalidations(events[b + 1..m])
    decreases |events|
  {
    hide Step, Inspecting, InFlight, ScannedAt;
    var front, last := events[..|events| - 1], events[|events| - 1];
    var w := Run(START, front);
    assert events == front + [last];
    TrailStep(w, last, id);
    var t := Run(START, events).trails[id];
    if id in w.trails && t.scanned == w.trails[id].scanned && t.firstRef == w.trails[id].firstRef && t.invalidated == w.trails[id].invalidated {
      b, k, m := TrailOrigin(front, id);
      SameBefore(front, last, m);
      InFlightStays(front, last, b, m);
      ScannedStays(front, last, b, k, m, t.scanned);
      ScannedBetween(front, b, k, m, t.scanned);
      assert events[b + 1..m] == front[b + 1..m];
    } else {
      m := |front|;
      MirrorIsInspecting(w);
      b, k := InspectionUnderway(front);
      InFlightStays(front, last, b, m);
      ScannedStays(front, last, b, k, m, t.scanned);
      ScannedBetween(front, b, k, m, t.scanned);
      assert events[..m] == front && events[b + 1..m] == front[b + 1..];
    }
  }

  lemma ScannedBetween(events: seq<Event>, b: nat, k: nat, m: nat, scanned: seq<Raw>)
    requires ScannedAt(events, b, k, m, scanned)
    ensures b < k < m <= |events|
  {
  }

  lemma MirrorIsInspecting(w: World)
    requires w.flight.AwaitMirror?
    ensures Inspecting(w.flight)
  {
  }

  // --------------------------------------------------------------- handing out

  /**
    What one step does to what has been handed out: a page is appended to its own
    trail (a resumed query starts its target list over), nothing else changes, and
    a request that fails or is refused changes no trail.
   */
  lemma StepAccounting(w: World, ev: Event)
    ensures var (w', out) := Step(w, ev);
            match out
            case Page(id, p) =>
              && id in w'.trails
              && w'.trails[id].served == (if id in w.trails && ev.ContinueInspect? then w.trails[id].served else []) + p
              && (forall k :: k in w.trails && k != id ==> k in w'.trails && w'.trails[k] == w.trails[k])
            case Targets(id, p) =>
              && id in w.trails && id in w'.trails && w'.trails[id].served == w.trails[id].served
              && w'.trails[id].servedTargets == (if ev.ContinueQuery? then w.trails[id].servedTargets else []) + p
              && (forall k :: k in w.trails && k != id ==> k in w'.trails && w'.trails[k] == w.trails[k])
            case Failed(_) => forall k :: k in w.trails && k != w.nextId ==> k in w'.trails && w'.trails[k] == w.trails[k]
            case _ => w'.trails == w.trails
  {
    hide StoreSnapshot, GetSnapshot, TakePage, TakeEditable, ResolveElement, InvalidateFrame, InvalidateObservations, Navigate, Current, Find, Editables, Put, Mirror, Minted;
  }

  /** A refused or failed continuation moves no cursor: the store only ages. */
  lemma FailedContinuationKeepsCursors(w: World, ev: Event)
    requires Inv(w) && (ev.ContinueInspect? || ev.ContinueQuery?)
    requires Step(w, ev).1.Failed? || Step(w, ev).1.Busy?
    ensures OnlyAged(w.session.store.GetOr([]), Step(w, ev).0.session.store.GetOr([]))
  {
    hide OnlyAged, ContinuePage, ContinueEditable, GetSnapshot, StoreOk, TrailsOk, FlightOk;
    if w.flight == Idle {
      DroppedKeepsInv(w);
      GetOnlyAges(Dropped(w).session, ev.id, w.now);
    } else {
      NothingAges(w.session.store.GetOr([]));
    }
  }

  lemma NothingAges(store: seq<Snap>)
    ensures OnlyAged(store, store)
  {
    forall y | y in store
      ensures exists x, t: Option<nat> :: x in store && y == x.(lastAccessedAt := t)
    {
      assert y == y.(lastAccessedAt := y.lastAccessedAt);
    }
  }

  /** An accepted inspect page hands out at least one element whenever any is left. */
  lemma AcceptedPageAdvances(w: World, ev: Event)
    requires Inv(w) && ev.ContinueInspect? && Step(w, ev).1.Page?
    ensures ev.id in w.trails && Step(w, ev).1.id == ev.id
    ensures |w.trails[ev.id].served| < |w.trails[ev.id].original| ==> Step(w, ev).1.elements != []
  {
    hide WellKept, StoreOk, GetSnapshot;
    DroppedKeepsInv(w);
    LookedUp(Dropped(w), ev.id);
    var (s, found) := GetSnapshot(Dropped(w).session, ev.id, w.now);
    var x, t := s.store.value[found.value], w.trails[ev.id];
    PageContinuesPrefix(x, t.served, ev.offset, PageLimit(Some(ev.limit)), ev.e, ev.tree);
  }

  // ------------------------------------------------------------------ refs

  /** The ref was minted for this snapshot. */
  predicate Issued(t: Trail, ref: nat) {
    t.firstRef <= ref < EndRef(t)
  }

  lemma ListedWasIssued(x: Snap, t: Trail, ref: nat)
    requires SnapOk(x, t) && TrailOk(t) && Lists(x.elements, ref)
    ensures Issued(t, ref) && FirstWithRef(x.elements, ref) == t.original[ref - t.firstRef]
  {
    hide Survivors, CursorAt, Editables, EditableWithin;
    var e := FirstWithRef(x.elements, ref);
    assert e in t.original;
    var k :| 0 <= k < |t.original| && t.original[k] == e;
  }

  lemma OneIssuer(trails: map<nat, Trail>, nextId: nat, nextRef: nat, a: nat, b: nat, ref: nat)
    requires TrailsOk(trails, nextId, nextRef) && a in trails && b in trails && Issued(trails[a], ref) && Issued(trails[b], ref)
    ensures a == b
  {
    hide TrailOk;
  }

  /**
    In every reachable state a ref that resolves names the one snapshot it was minted
    for, of all ever published, and the very element it was minted for.
   */
  lemma EveryRunResolvesToTheIssuer(events: seq<Event>, ref: nat)
    ensures var w := Run(START, events);
            var (t, r) := ResolveElement(w.session, ref, w.now);
            r.Some? ==>
              var x := t.store.value[r.value];
              && x.id in w.trails && Issued(w.trails[x.id], ref)
              && FirstWithRef(x.elements, ref) == w.trails[x.id].original[ref - w.trails[x.id].firstRef]
              && forall id :: id in w.trails && Issued(w.trails[id], ref) ==> id == x.id
  {
    hide Run, ResolveElement, Issued, SnapOk, TrailOk, WellKept, FlightOk;
    var w := Run(START, events);
    RunKeepsInv(events);
    ResolvedIsStored(w, ref);
    var (t, r) := ResolveElement(w.session, ref, w.now);
    if r.Some? {
      var x := t.store.value[r.value];
      TrailsAreOk(w.trails, w.nextId, w.nextRef, x.id);
      ListedWasIssued(x, w.trails[x.id], ref);
      forall id | id in w.trails && Issued(w.trails[id], ref)
        ensures id == x.id
      {
        OneIssuer(w.trails, w.nextId, w.nextRef, id, x.id, ref);
      }
    }
  }

  lemma ResolvedIsStored(w: World, ref: nat)
    requires Inv(w)
    ensures var (t, r) := ResolveElement(w.session, ref, w.now);
            r.Some? ==>
              var x := t.store.value[r.value];
              Lists(x.elements, ref) && x.id in w.trails && SnapOk(x, w.trails[x.id])
  {
    hide ResolveElement, SnapOk, TrailOk, FlightOk;
    ResolveOnlyAges(w.session, ref, w.now);
    var (t, r) := ResolveElement(w.session, ref, w.now);
    StoreOkAfterLookup(w.session.store.GetOr([]), t.store.value, w.trails);
    if r.Some? {
      StoredIsOk(t.store.value, w.trails, r.value);
    }
  }
}
