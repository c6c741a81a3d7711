/**
  How long a frame invalidation lasts: over every run that follows it, what was observed
  of the frame stays gone, and only typing that was under way can bring back a keyboard
  target of it (packages/browser-core/src/browser-state.ts,
  packages/browser-core/src/browser-snapshot.ts, packages/browser-core/src/browser-actions.ts).
 */
module Revocation {
  import opened Wrappers
  import opened BrowserState
  import opened PageBudget
  import opened SnapshotPaging
  import opened InspectProtocol
  import opened InspectRuns
  import opened StoreHistory

  // ------------------------------------------------------- nothing observed comes back

  /** Nothing stored or mirrored is of the frame, and an inspection in flight knows of its invalidation. */
  ghost predicate Cleared(w: World, identity: Identity) {
    && (forall x :: x in StoreOf(w) ==> !Mentions(x.elements, identity))
    && (forall r :: r in w.session.mirror ==> !Matches(w.session.mirror[r].frameId, w.session.mirror[r].sessionId, identity))
    && (Inspecting(w.flight) ==> identity in w.invalidated)
  }

  lemma RevocationClears(w: World, identity: Identity)
    requires Inv(w) && Keys(identity.frameId, identity.sessionId) != []
    ensures Cleared(Step(w, FrameReplaced(identity)).0, identity)
  {
    hide WellKept, TrailsOk, FlightOk;
    if w.session.store.Some? {
      forall i | 0 <= i < |w.session.store.value|
        ensures EditableWithin(w.session.store.value[i])
      {
        assert w.session.store.value[i] in w.session.store.value;
      }
      FrameInvalidationIsComplete(w.session, identity);
    } else {
      MirrorMembers(LatestElements(RevokeFrame(w.session, identity)));
    }
  }

  lemma {:induction false} SurvivorsAreSpared(raws: seq<Raw>, log: seq<Identity>, identity: Identity)
    requires identity in log
    ensures forall r :: r in Survivors(raws, log) ==> !Matches(r.frameId, r.sessionId, identity)
  {
    if raws != [] {
      SurvivorsAreSpared(raws[..|raws| - 1], log, identity);
      var i :| 0 <= i < |log| && log[i] == identity;
      assert forall r: Raw :: Matches(r.frameId, r.sessionId, log[i]) ==> HitByAny(r, log);
    }
  }

  lemma FreshIsSpared(w: World, ev: Event, identity: Identity)
    requires Inv(w) && Cleared(w, identity)
    ensures !Mentions(Fresh(w, ev), identity)
  {
    hide Inv, Current, Survivors;
    if Publishes(w, ev) {
      PublishIsExact(w, ev.frameRefs);
      SurvivorsAreSpared(w.flight.scanned, w.invalidated, identity);
    }
  }

  lemma FlightsBegin(w: World, ev: Event)
    requires !ev.Begin?
    ensures Inspecting(Step(w, ev).0.flight) ==> Inspecting(w.flight)
    ensures w.invalidated <= Step(w, ev).0.invalidated
  {
    hide GetSnapshot, ResolveElement, TakePage, TakeEditable, ContinuePage, ContinueEditable, Find, Editables, Current;
  }

  lemma StepKeepsCleared(w: World, identity: Identity, ev: Event)
    requires Inv(w) && Cleared(w, identity) && !ev.Begin?
    ensures Cleared(Step(w, ev).0, identity)
  {
    hide Inv, Step, Fresh, Matches;
    StepInherits(w, ev);
    FreshIsSpared(w, ev, identity);
    FlightsBegin(w, ev);
    var after := Step(w, ev).0;
    forall y | y in StoreOf(after)
      ensures !Mentions(y.elements, identity)
    {
      if Within(StoreOf(w), y) {
        var x :| x in StoreOf(w) && Later(x, y);
      }
    }
  }

  lemma {:induction false} RunKeepsCleared(w: World, identity: Identity, events: seq<Event>)
    requires Inv(w) && Cleared(w, identity) && forall e :: e in events ==> !e.Begin?
    ensures Inv(Run(w, events)) && Cleared(Run(w, events), identity)
    decreases |events|
  {
    hide Inv, Cleared, Step;
    if events != [] {
      RunKeepsCleared(w, identity, events[..|events| - 1]);
      StepKeepsInv(Run(w, events[..|events| - 1]), events[|events| - 1]);
      StepKeepsCleared(Run(w, events[..|events| - 1]), identity, events[|events| - 1]);
    }
  }

  lemma EditablesCleared(w: World, identity: Identity)
    requires Inv(w) && Cleared(w, identity)
    ensures forall x :: x in StoreOf(w) && x.editable.Some? ==> !Mentions(x.editable.value.elements, identity)
  {
    hide WellKept, TrailsOk, FlightOk;
  }

  /**
    Over every run: after a frame was invalidated, and until another inspection begins,
    no snapshot, editable query or mirrored ref is of the frame, although an inspection
    that was in flight may publish what it had scanned before.
   */
  lemma EveryRunRevokesFrames(before: seq<Event>, identity: Identity, after: seq<Event>)
    requires Keys(identity.frameId, identity.sessionId) != []
    requires forall e :: e in after ==> !e.Begin?
    ensures var t := Run(START, before + [FrameReplaced(identity)] + after).session;
            && (forall x :: x in t.store.GetOr([]) ==>
                  !Mentions(x.elements, identity) && (x.editable.Some? ==> !Mentions(x.editable.value.elements, identity)))
            && (forall r :: r in t.mirror ==> !Matches(t.mirror[r].frameId, t.mirror[r].sessionId, identity))
  {
    hide Inv, Step;
    var w := Run(START, before);
    RunKeepsInv(before);
    var hit := CutAt(before, FrameReplaced(identity), after);
    RevocationClears(w, identity);
    StepKeepsInv(w, FrameReplaced(identity));
    RunKeepsCleared(hit, identity, after);
    EditablesCleared(Run(hit, after), identity);
  }

  // -------------------------------------------------------------- keyboard target

  lemma LookupsKeepKeyboard(s: State, id: nat, now: nat)
    ensures GetSnapshot(s, id, now).0.keyboard == s.keyboard
    ensures ResolveElement(s, id, now).0.keyboard == s.keyboard
  {
  }

  /** Only finished typing sets a keyboard target; every other step keeps it or takes it. */
  lemma OnlyTypingSetsKeyboard(w: World, ev: Event)
    requires !ev.TypeDone?
    ensures Step(w, ev).0.session.keyboard == w.session.keyboard || Step(w, ev).0.session.keyboard == None
  {
    hide GetSnapshot, ResolveElement, TakePage, TakeEditable, ContinuePage, ContinueEditable, Find, Editables, Current, Mirror, Evict, Live;
    match ev
    case RefUsed(ref) => LookupsKeepKeyboard(w.session, ref, w.now);
    case ContinueInspect(id, _, _, _, _) => LookupsKeepKeyboard(Dropped(w).session, id, w.now);
    case ContinueQuery(id, _, _) => LookupsKeepKeyboard(Dropped(w).session, id, w.now);
    case TypeBegin(ref) => LookupsKeepKeyboard(Dropped(w).session, ref, w.now);
    case TypeObserve => if w.flight.AwaitFocus? { LookupsKeepKeyboard(w.session, w.flight.ref, w.now); }
    case _ =>
  }

  ghost predicate KeyboardMentions(s: State, identity: Identity) {
    s.keyboard.Some? && Matches(s.keyboard.value.frameId, s.keyboard.value.sessionId, identity)
  }

  /** A request other than a key press: it takes the keyboard target when it is let in. */
  predicate IsRequest(ev: Event) {
    ev.Begin? || ev.ContinueInspect? || ev.ContinueQuery? || ev.TypeBegin? || ev.OtherAction?
  }

  /** Where the keyboard target goes in every step but the end of typing. */
  lemma KeyboardExactly(w: World, ev: Event)
    requires !ev.TypeDone?
    ensures Step(w, ev).0.session.keyboard ==
            if IsRequest(ev) && w.flight == Idle then None
            else if ev.MainNavigated? || (ev.FrameReplaced? && KeyboardMentions(w.session, ev.identity)) then None
            else w.session.keyboard
  {
    hide GetSnapshot, ResolveElement, TakePage, TakeEditable, ContinuePage, ContinueEditable, Find, Editables, Current, Mirror, Evict, Live, RevokeEach, Bump;
    match ev
    case RefUsed(ref) => LookupsKeepKeyboard(w.session, ref, w.now);
    case ContinueInspect(id, _, _, _, _) => LookupsKeepKeyboard(Dropped(w).session, id, w.now);
    case ContinueQuery(id, _, _) => LookupsKeepKeyboard(Dropped(w).session, id, w.now);
    case TypeBegin(ref) => LookupsKeepKeyboard(Dropped(w).session, ref, w.now);
    case TypeObserve => if w.flight.AwaitFocus? { LookupsKeepKeyboard(w.session, w.flight.ref, w.now); }
    case _ =>
  }

  /** A revoked keyboard target stays away until typing finishes. */
  lemma {:induction false} KeyboardStaysRevoked(w: World, identity: Identity, events: seq<Event>)
    requires !KeyboardMentions(w.session, identity) && forall e :: e in events ==> !e.TypeDone?
    ensures !KeyboardMentions(Run(w, events).session, identity)
    decreases |events|
  {
    hide Step;
    if events != [] {
      KeyboardStaysRevoked(w, identity, events[..|events| - 1]);
      OnlyTypingSetsKeyboard(Run(w, events[..|events| - 1]), events[|events| - 1]);
    }
  }

  /** Over every run: after a frame was invalidated no key press continues in it, until some typing finishes. */
  lemma EveryRunRevokesKeyboard(before: seq<Event>, identity: Identity, after: seq<Event>)
    requires forall e :: e in after ==> !e.TypeDone?
    ensures !KeyboardMentions(Run(START, before + [FrameReplaced(identity)] + after).session, identity)
  {
    hide Step;
    var w := Run(START, before);
    assert (before + [FrameReplaced(identity)])[..|before|] == before;
    RevocationTakesKeyboard(w, identity);
    KeyboardStaysRevoked(Step(w, FrameReplaced(identity)).0, identity, after);
    RunInParts(START, before + [FrameReplaced(identity)], after);
  }

  lemma RevocationTakesKeyboard(w: World, identity: Identity)
    ensures !KeyboardMentions(Step(w, FrameReplaced(identity)).0.session, identity)
  {
    hide RevokeEach, Mirror, Bump;
  }

  /** Keyboard targets do occur: typing into any ref that resolves sets one. */
  lemma TypingSetsKeyboard(w: World, ref: nat)
    requires w.flight == Idle && ResolveElement(Dropped(w).session, ref, w.now).1.Some?
    ensures var after := Step(Step(Step(w, TypeBegin(ref)).0, TypeObserve).0, TypeDone).0.session;
            after.keyboard.Some? && after.keyboard.value.ref == ref
  {
    hide Step, ResolveElement;
    FocusAwaited(w, ref);
    InputAwaited(Step(w, TypeBegin(ref)).0);
    TargetSet(Step(Step(w, TypeBegin(ref)).0, TypeObserve).0);
  }

  lemma FocusAwaited(w: World, ref: nat)
    requires w.flight == Idle && ResolveElement(Dropped(w).session, ref, w.now).1.Some?
    ensures var after := Step(w, TypeBegin(ref)).0;
            after.flight.AwaitFocus? && after.flight.generation == after.session.generation && after.flight.ref == ref
  {
    hide ResolveElement;
  }

  lemma InputAwaited(w: World)
    requires w.flight.AwaitFocus? && w.flight.generation == w.session.generation
    ensures var after := Step(w, TypeObserve).0;
            after.flight.AwaitInput? && after.flight.generation == after.session.generation && after.flight.target.ref == w.flight.ref
  {
    hide ResolveElement;
    LookupsKeepGeneration(w.session, w.flight.ref, w.now);
  }

  lemma TargetSet(w: World)
    requires w.flight.AwaitInput? && w.flight.generation == w.session.generation
    ensures Step(w, TypeDone).0.session.keyboard == Some(w.flight.target)
  {
    hide FreezeEach;
  }

  /** And every ref of a snapshot resolves right after its publication. */
  lemma PublishedRefsResolve(w: World, ev: Event, ref: nat)
    requires Inv(w) && w.flight.AwaitMirror? && ev.MirrorDone? && w.session.generation == w.flight.generation
    requires Lists(NewSnap(w, ev.frameRefs).elements, ref)
    ensures var after := Step(w, ev).0;
            ResolveElement(Dropped(after).session, ref, after.now).1.Some?
  {
    hide ResolveElement, Lists, Current, StoreSnapshot, Mirror, TakePage, WellKept, StoreOk, TrailsOk, FlightOk;
    var x := NewSnap(w, ev.frameRefs);
    var after := Step(w, ev).0;
    PublishKeepsInv(w, ev);
    DroppedKeepsInv(after);
    PublishedIsStored(w, ev);
    RefResolution(Dropped(after).session, ref, after.now);
  }

  lemma PublishedIsStored(w: World, ev: Event)
    requires Inv(w) && w.flight.AwaitMirror? && ev.MirrorDone? && w.session.generation == w.flight.generation
    ensures var x, after := NewSnap(w, ev.frameRefs), Step(w, ev).0;
            after.now == w.now &&
            exists y :: y in after.session.store.GetOr([]) && y.elements == x.elements && !Expired(y, after.session.generation, after.now)
  {
    hide Current, StoreSnapshot, Mirror, WellKept, StoreOk, Put, PageCount;
    var x := NewSnap(w, ev.frameRefs);
    PublishIsExact(w, ev.frameRefs);
    var t := Trail(x.elements, [], [], [], w.flight.scanned, w.invalidated, w.nextRef);
    StoredOk(w, x, t);
    var store := StoreSnapshot(w.session, x, w.now).store.value;
    var stored := x.(lastAccessedAt := Some(w.now));
    assert store[|store| - 1] in store;
    var limit := if x.kind == Inspect then PageLimit(Some(ev.limit)) else 1;
    var r := TakePage(stored, 0, limit, ev.e, ev.tree);
    if r.Ok? {
      KeptIsDistinct(StoreSnapshot(w.session, x, w.now), w.now);
      PutLast(store, r.value.0);
      assert store[|store| - 1 := r.value.0][|store| - 1] == r.value.0;
    }
  }

  // ----------------------------------------------------- which element a target is for

  /** e is the element its ref was minted for, in one of the snapshots ever published. */
  ghost predicate MintedAs(trails: map<nat, Trail>, e: Element) {
    exists id :: id in trails && Issued(trails[id], e.ref) && trails[id].original[e.ref - trails[id].firstRef] == e
  }

  /** A target of e: it names the ref and the session of e, and its frame or no frame at all. */
  ghost predicate TargetOf(trails: map<nat, Trail>, target: KeyboardTarget, e: Element) {
    && MintedAs(trails, e) && e.ref == target.ref && e.sessionId == target.sessionId
    && (target.frameId == "" || target.frameId == e.frameId)
  }

  ghost predicate Traced(trails: map<nat, Trail>, target: KeyboardTarget) {
    exists e :: TargetOf(trails, target, e)
  }

  /** What typing under way is about; while it awaits the focus no frame is known yet. */
  function TypingTarget(f: Flight): Option<KeyboardTarget> {
    match f
    case AwaitFocus(_, ref, sessionId) => Some(KeyboardTarget(ref, "", sessionId))
    case AwaitInput(_, target) => Some(target)
    case _ => None
  }

  ghost predicate MirrorTraced(w: World) {
    forall r :: r in w.session.mirror ==> w.session.mirror[r].ref == r && MintedAs(w.trails, w.session.mirror[r])
  }

  ghost predicate KeyboardTraced(w: World) {
    && (w.session.keyboard.Some? ==> Traced(w.trails, w.session.keyboard.value))
    && (TypingTarget(w.flight).Some? ==>
          && w.session.keyboard.None? && Traced(w.trails, TypingTarget(w.flight).value)
          && w.flight.generation <= w.session.generation)
  }

  lemma OneElement(w: World, e: Element, f: Element)
    requires Inv(w) && MintedAs(w.trails, e) && MintedAs(w.trails, f) && e.ref == f.ref
    ensures e == f && e.ref < w.nextRef
  {
    hide WellKept, StoreOk, FlightOk, TrailsOk;
    var a :| a in w.trails && Issued(w.trails[a], e.ref) && w.trails[a].original[e.ref - w.trails[a].firstRef] == e;
    var b :| b in w.trails && Issued(w.trails[b], f.ref) && w.trails[b].original[f.ref - w.trails[b].firstRef] == f;
    OneIssuer(w.trails, w.nextId, w.nextRef, a, b, e.ref);
    IssuedIsPast(w.trails, w.nextId, w.nextRef, a, e.ref);
  }

  lemma IssuedIsPast(trails: map<nat, Trail>, nextId: nat, nextRef: nat, id: nat, ref: nat)
    requires TrailsOk(trails, nextId, nextRef) && id in trails && Issued(trails[id], ref)
    ensures ref < nextRef
  {
    hide TrailOk;
  }

  lemma StoredIsMinted(w: World, x: Snap, e: Element)
    requires Inv(w) && x in StoreOf(w) && e in x.elements
    ensures MintedAs(w.trails, e)
  {
    hide WellKept, FlightOk, CursorAt, Editables, EditableWithin, Survivors;
    TrailsAreOk(w.trails, w.nextId, w.nextRef, x.id);
    ElementWasMinted(w.trails[x.id], e);
  }

  lemma ElementWasMinted(t: Trail, e: Element)
    requires TrailOk(t) && e in t.original
    ensures Issued(t, e.ref) && t.original[e.ref - t.firstRef] == e
  {
    hide Survivors;
    var k :| 0 <= k < |t.original| && t.original[k] == e;
  }

  ghost predicate TrailsGrow(w: World, after: World) {
    && w.nextRef <= after.nextRef
    && forall id :: id in w.trails ==>
         id in after.trails && after.trails[id].original == w.trails[id].original && after.trails[id].firstRef == w.trails[id].firstRef
  }

  lemma StepGrows(w: World, ev: Event)
    requires Inv(w)
    ensures TrailsGrow(w, Step(w, ev).0)
  {
    hide Inv, StoreSnapshot, GetSnapshot, ResolveElement, InvalidateFrame, InvalidateObservations, Navigate, Current, Find, Editables, Put, Mirror, Minted, PageCount, EditableCount;
    NextIdIsNew(w);
  }

  lemma MintedStays(w: World, after: World, e: Element)
    requires TrailsGrow(w, after) && MintedAs(w.trails, e)
    ensures MintedAs(after.trails, e)
  {
    var id :| id in w.trails && Issued(w.trails[id], e.ref) && w.trails[id].original[e.ref - w.trails[id].firstRef] == e;
    assert Issued(after.trails[id], e.ref);
  }

  lemma TracedStays(w: World, after: World, target: KeyboardTarget)
    requires TrailsGrow(w, after) && Traced(w.trails, target)
    ensures Traced(after.trails, target)
  {
    hide MintedAs, TrailsGrow;
    var e :| TargetOf(w.trails, target, e);
    MintedStays(w, after, e);
    assert TargetOf(after.trails, target, e);
  }

  lemma StepTracesMirror(w: World, ev: Event)
    requires Inv(w) && MirrorTraced(w)
    ensures MirrorTraced(Step(w, ev).0)
  {
    hide Inv, Step, MintedAs, TrailsGrow, Inherits;
    var after := Step(w, ev).0;
    StepInherits(w, ev);
    StepKeepsInv(w, ev);
    StepGrows(w, ev);
    forall r | r in after.session.mirror
      ensures after.session.mirror[r].ref == r && MintedAs(after.trails, after.session.mirror[r])
    {
      if r in w.session.mirror && after.session.mirror[r] == w.session.mirror[r] {
        MintedStays(w, after, w.session.mirror[r]);
      } else {
        var x :| x in StoreOf(after) && after.session.mirror[r] in x.elements;
        StoredIsMinted(after, x, after.session.mirror[r]);
      }
    }
  }

  lemma TypingStays(w: World, ev: Event)
    requires !ev.TypeBegin? && !ev.TypeObserve?
    ensures TypingTarget(Step(w, ev).0.flight).Some? ==> Step(w, ev).0.flight == w.flight && !(ev.TypeDone? && w.flight.AwaitInput?)
  {
    hide GetSnapshot, ResolveElement, TakePage, TakeEditable, ContinuePage, ContinueEditable, Find, Editables, Current;
  }

  lemma BegunIsTraced(w: World, ref: nat)
    requires Inv(w) && KeyboardTraced(w)
    ensures KeyboardTraced(Step(w, TypeBegin(ref)).0)
  {
    hide Inv, ResolveElement, MintedAs;
    if w.flight == Idle {
      var ev := TypeBegin(ref);
      var after := Step(w, ev).0;
      StepKeepsInv(w, ev);
      LookupsKeepKeyboard(Dropped(w).session, ref, w.now);
      var (s, found) := ResolveElement(Dropped(w).session, ref, w.now);
      if found.Some? {
        var x := s.store.value[found.value];
        var e := FirstWithRef(x.elements, ref);
        assert x in StoreOf(after);
        StoredIsMinted(after, x, e);
        assert TargetOf(after.trails, TypingTarget(after.flight).value, e);
      }
    }
  }

  /** What the second look at the element finds: its frame, or nothing. */
  lemma Observes(w: World, e: Element)
    requires Inv(w) && MirrorTraced(w) && w.flight.AwaitFocus? && MintedAs(w.trails, e) && e.ref == w.flight.ref
    ensures var f := Step(w, TypeObserve).0.flight;
            && f.AwaitInput? && f.generation == w.flight.generation
            && f.target.ref == e.ref && f.target.sessionId == w.flight.sessionId
            && (f.target.frameId == "" || f.target.frameId == e.frameId)
            && (e.ref in w.session.mirror ==> f.target.frameId == e.frameId)
  {
    hide Inv, ResolveElement, MintedAs;
    var after := Step(w, TypeObserve).0;
    StepKeepsInv(w, TypeObserve);
    var (s, found) := ResolveElement(w.session, e.ref, w.now);
    LookupsKeepMirror(w.session, e.ref, w.now);
    if found.Some? {
      var x := s.store.value[found.value];
      var g := FirstWithRef(x.elements, e.ref);
      assert x in StoreOf(after);
      StoredIsMinted(after, x, g);
      OneElement(after, e, g);
    } else if e.ref in w.session.mirror {
      OneElement(w, e, w.session.mirror[e.ref]);
    }
  }

  lemma ObservedIsTraced(w: World)
    requires Inv(w) && MirrorTraced(w) && KeyboardTraced(w)
    ensures KeyboardTraced(Step(w, TypeObserve).0)
  {
    hide Inv, MirrorTraced, ResolveElement, MintedAs;
    if w.flight.AwaitFocus? {
      var after := Step(w, TypeObserve).0;
      LookupsKeepKeyboard(w.session, w.flight.ref, w.now);
      LookupsKeepGeneration(w.session, w.flight.ref, w.now);
      var e :| TargetOf(w.trails, TypingTarget(w.flight).value, e);
      Observes(w, e);
      assert after.trails == w.trails;
      assert TargetOf(after.trails, TypingTarget(after.flight).value, e);
    }
  }

  lemma FinishedIsTraced(w: World)
    requires KeyboardTraced(w)
    ensures KeyboardTraced(Step(w, TypeDone).0)
  {
    hide Traced, FreezeEach;
  }

  lemma StepTracesKeyboard(w: World, ev: Event)
    requires Inv(w) && MirrorTraced(w) && KeyboardTraced(w)
    ensures KeyboardTraced(Step(w, ev).0)
  {
    hide Inv, Step, MirrorTraced, Traced, TrailsGrow;
    match ev
    case TypeBegin(ref) => BegunIsTraced(w, ref);
    case TypeObserve => ObservedIsTraced(w);
    case TypeDone => FinishedIsTraced(w);
    case _ =>
      var after := Step(w, ev).0;
      StepGrows(w, ev);
      OnlyTypingSetsKeyboard(w, ev);
      TypingStays(w, ev);
      GenerationsStep(w, ev);
      if w.session.keyboard.Some? {
        TracedStays(w, after, w.session.keyboard.value);
      }
      if TypingTarget(w.flight).Some? {
        TracedStays(w, after, TypingTarget(w.flight).value);
      }
  }

  /** What typing relies on, in every reachable state. */
  ghost predicate Typable(w: World) {
    Inv(w) && MirrorTraced(w) && KeyboardTraced(w)
  }

  lemma StepKeepsTypable(w: World, ev: Event)
    requires Typable(w)
    ensures Typable(Step(w, ev).0)
  {
    hide Inv, Step, MirrorTraced, KeyboardTraced;
    StepKeepsInv(w, ev);
    StepTracesMirror(w, ev);
    StepTracesKeyboard(w, ev);
  }

  /** Every mirrored element and every keyboard target is of an element that was published. */
  lemma {:induction false} RunIsTypable(events: seq<Event>)
    ensures Typable(Run(START, events))
  {
    hide Typable, Step;
    if events == [] {
      StartIsTypable();
    } else {
      RunIsTypable(events[..|events| - 1]);
      StepKeepsTypable(Run(START, events[..|events| - 1]), events[|events| - 1]);
    }
  }

  lemma StartIsTypable()
    ensures Typable(START)
  {
    StartInv();
  }

  // ------------------------------------------------------- revoked refs stay revoked

  /** The ref is of the past, and no snapshot and no mirror lists it any more. */
  ghost predicate Unlisted(w: World, ref: nat) {
    ref < w.nextRef && ref !in w.session.mirror && forall x :: x in StoreOf(w) ==> !Lists(x.elements, ref)
  }

  lemma RevocationUnlists(w: World, identity: Identity, e: Element)
    requires Typable(w) && MintedAs(w.trails, e) && Matches(e.frameId, e.sessionId, identity)
    ensures Unlisted(Step(w, FrameReplaced(identity)).0, e.ref)
  {
    hide Inv, Step, MintedAs, KeyboardTraced, TrailsGrow;
    var ev := FrameReplaced(identity);
    var after := Step(w, ev).0;
    StepKeepsTypable(w, ev);
    StepGrows(w, ev);
    MintedStays(w, after, e);
    RevocationClears(w, identity);
    OneElement(after, e, e);
    forall x | x in StoreOf(after)
      ensures !Lists(x.elements, e.ref)
    {
      if Lists(x.elements, e.ref) {
        var f := FirstWithRef(x.elements, e.ref);
        StoredIsMinted(after, x, f);
        OneElement(after, e, f);
      }
    }
    if e.ref in after.session.mirror {
      OneElement(after, e, after.session.mirror[e.ref]);
    }
  }

  lemma FreshIsNew(w: World, ev: Event)
    ensures forall e :: e in Fresh(w, ev) ==> e.ref >= w.nextRef
  {
    hide Current;
  }

  lemma NotListed(elements: seq<Element>, ref: nat)
    requires forall e :: e in elements ==> e.ref != ref
    ensures !Lists(elements, ref)
  {
  }

  lemma NotWithin(store: seq<Snap>, y: Snap, ref: nat)
    requires (forall x :: x in store ==> !Lists(x.elements, ref)) && Within(store, y)
    ensures !Lists(y.elements, ref)
  {
    hide Lists;
    var x :| x in store && Later(x, y);
    forall e | e in y.elements
      ensures e.ref != ref
    {
      HoldsLists(x.elements, e);
    }
    NotListed(y.elements, ref);
  }

  lemma StepKeepsUnlisted(w: World, ref: nat, ev: Event)
    requires Inv(w) && Unlisted(w, ref)
    ensures Unlisted(Step(w, ev).0, ref)
  {
    hide Inv, Step, Fresh, Within, Lists;
    var after := Step(w, ev).0;
    StepInherits(w, ev);
    FreshIsNew(w, ev);
    StepGrows(w, ev);
    forall x | x in StoreOf(after)
      ensures !Lists(x.elements, ref)
    {
      if Within(StoreOf(w), x) {
        NotWithin(StoreOf(w), x, ref);
      } else {
        NotListed(x.elements, ref);
      }
    }
    if ref in after.session.mirror {
      var x :| x in StoreOf(after) && after.session.mirror[ref] in x.elements;
      HoldsLists(x.elements, after.session.mirror[ref]);
    }
  }

  lemma HoldsLists(elements: seq<Element>, e: Element)
    requires e in elements
    ensures Lists(elements, e.ref)
  {
    var i :| 0 <= i < |elements| && elements[i] == e;
    assert elements[i].ref == e.ref;
  }

  lemma UnlistedDoesNotResolve(w: World, ref: nat)
    requires Inv(w) && Unlisted(w, ref)
    ensures ResolveElement(w.session, ref, w.now).1.None?
  {
    hide ResolveElement, StoreOk, TrailsOk, FlightOk, WellKept, Lists;
    RefResolution(w.session, ref, w.now);
  }

  /** The ref is not typed into, and no key press continues at it. */
  ghost predicate Untyped(w: World, ref: nat) {
    && (TypingTarget(w.flight).Some? ==> TypingTarget(w.flight).value.ref != ref)
    && (w.session.keyboard.Some? ==> w.session.keyboard.value.ref != ref)
  }

  lemma StepKeepsUntyped(w: World, ref: nat, ev: Event)
    requires Inv(w) && Unlisted(w, ref) && Untyped(w, ref)
    ensures Untyped(Step(w, ev).0, ref)
  {
    hide Inv, Unlisted, ResolveElement;
    match ev
    case TypeBegin(other) =>
      DroppedKeepsInv(w);
      DroppedIsUnlisted(w, ref);
      UnlistedDoesNotResolve(Dropped(w), ref);
      LookupsKeepKeyboard(Dropped(w).session, other, w.now);
    case TypeObserve =>
      if w.flight.AwaitFocus? {
        LookupsKeepKeyboard(w.session, w.flight.ref, w.now);
      }
    case TypeDone => FinishKeepsUntyped(w, ref);
    case _ => OtherKeepsUntyped(w, ref, ev);
  }

  lemma DroppedIsUnlisted(w: World, ref: nat)
    requires Unlisted(w, ref)
    ensures Unlisted(Dropped(w), ref)
  {
  }

  lemma FinishKeepsUntyped(w: World, ref: nat)
    requires Untyped(w, ref)
    ensures Untyped(Step(w, TypeDone).0, ref)
  {
    hide FreezeEach;
  }

  lemma OtherKeepsUntyped(w: World, ref: nat, ev: Event)
    requires Untyped(w, ref) && !ev.TypeBegin? && !ev.TypeObserve? && !ev.TypeDone?
    ensures Untyped(Step(w, ev).0, ref)
  {
    hide Step;
    OnlyTypingSetsKeyboard(w, ev);
    TypingStays(w, ev);
  }

  lemma {:induction false} RunKeepsUnlisted(w: World, ref: nat, events: seq<Event>)
    requires Inv(w) && Unlisted(w, ref)
    ensures var v := Run(w, events); Inv(v) && Unlisted(v, ref) && (Untyped(w, ref) ==> Untyped(v, ref))
    decreases |events|
  {
    hide Inv, Unlisted, Untyped, Step;
    if events != [] {
      var front, last := Run(w, events[..|events| - 1]), events[|events| - 1];
      RunKeepsUnlisted(w, ref, events[..|events| - 1]);
      StepKeepsInv(front, last);
      StepKeepsUnlisted(front, ref, last);
      if Untyped(w, ref) {
        StepKeepsUntyped(front, ref, last);
      }
    }
  }

  /** Typing into this ref is under way. */
  predicate TypingInto(f: Flight, ref: nat) {
    TypingTarget(f).Some? && TypingTarget(f).value.ref == ref
  }

  /**
    Over every run, whatever follows: a ref minted for an element of the invalidated
    frame is listed, mirrored and resolved never again, and a key press can continue at
    it only if typing into it was under way at the invalidation, or if its target was
    set before and names neither the frame nor the session invalidated.
   */
  lemma EveryRunRevokesRefs(before: seq<Event>, identity: Identity, after: seq<Event>, e: Element)
    requires MintedAs(Run(START, before).trails, e) && Matches(e.frameId, e.sessionId, identity)
    ensures var w, v := Run(START, before), Run(START, before + [FrameReplaced(identity)] + after);
            && e.ref !in v.session.mirror && (forall x :: x in StoreOf(v) ==> !Lists(x.elements, e.ref))
            && ResolveElement(v.session, e.ref, v.now).1.None?
            && (v.session.keyboard.Some? && v.session.keyboard.value.ref == e.ref ==>
                  TypingInto(w.flight, e.ref)
                  || (w.session.keyboard.Some? && w.session.keyboard.value.ref == e.ref && !KeyboardMentions(w.session, identity)))
  {
    hide Inv, Step, Typable, KeyboardMentions, MintedAs, Matches, Lists, ResolveElement;
    var w := Run(START, before);
    RunIsTypable(before);
    var hit := CutAt(before, FrameReplaced(identity), after);
    RevocationUnlists(w, identity, e);
    TypableIsKept(w);
    StepKeepsInv(w, FrameReplaced(identity));
    if !TypingInto(w.flight, e.ref) && !(w.session.keyboard.Some? && w.session.keyboard.value.ref == e.ref && !KeyboardMentions(w.session, identity)) {
      RevokedIsUntyped(w, identity, e.ref);
    }
    RunKeepsUnlisted(hit, e.ref, after);
    UnlistedDoesNotResolve(Run(hit, after), e.ref);
  }

  lemma TypableIsKept(w: World)
    requires Typable(w)
    ensures Inv(w)
  {
  }

  lemma RevokedIsUntyped(w: World, identity: Identity, ref: nat)
    requires !TypingInto(w.flight, ref)
    requires !(w.session.keyboard.Some? && w.session.keyboard.value.ref == ref && !KeyboardMentions(w.session, identity))
    ensures Untyped(Step(w, FrameReplaced(identity)).0, ref)
  {
    hide RevokeEach, Mirror, Bump;
    RevocationTakesKeyboard(w, identity);
    OnlyTypingSetsKeyboard(w, FrameReplaced(identity));
  }

  // ------------------------------------------------------ typing outlives revocation

  lemma GenerationsStep(w: World, ev: Event)
    ensures Step(w, ev).0.session.generation == w.session.generation + if ev == MainNavigated then 1 else 0
  {
    hide GetSnapshot, ResolveElement, TakePage, TakeEditable, ContinuePage, ContinueEditable, Find, Editables, Current, Live, Evict, Put, Refresh;
    match ev
    case RefUsed(ref) => LookupsKeepGeneration(w.session, ref, w.now);
    case ContinueInspect(id, _, _, _, _) => LookupsKeepGeneration(Dropped(w).session, id, w.now);
    case ContinueQuery(id, _, _) => LookupsKeepGeneration(Dropped(w).session, id, w.now);
    case TypeBegin(ref) => LookupsKeepGeneration(Dropped(w).session, ref, w.now);
    case TypeObserve => if w.flight.AwaitFocus? { LookupsKeepGeneration(w.session, w.flight.ref, w.now); }
    case _ =>
  }

  /** Typing goes on under every event but its own end and a failure. */
  lemma TypingGoesOn(w: World, ev: Event)
    requires TypingTarget(w.flight).Some? && !ev.TypeDone? && !ev.AwaitFailed?
    ensures !(w.flight.AwaitFocus? && ev.TypeObserve?) ==> Step(w, ev).0.flight == w.flight
  {
    hide ResolveElement;
  }

  /** How typing under way stands: not looked at a second time yet, or with this target. */
  ghost predicate StillTyping(w: World, was: Flight, observed: bool, e: Element, gone: bool) {
    if was.AwaitInput? || !observed then w.flight == was
    else
      && was.AwaitFocus? && w.flight.AwaitInput? && w.flight.generation == was.generation
      && w.flight.target.ref == e.ref && (gone ==> w.flight.target.frameId == "")
  }

  lemma GoneIsNotObserved(w: World)
    requires Inv(w) && w.flight.AwaitFocus? && Unlisted(w, w.flight.ref)
    ensures Step(w, TypeObserve).0.flight.AwaitInput? && Step(w, TypeObserve).0.flight.target.frameId == ""
  {
    hide Inv, ResolveElement, Lists;
    UnlistedDoesNotResolve(w, w.flight.ref);
    LookupsKeepMirror(w.session, w.flight.ref, w.now);
  }

  lemma StepStillTyping(w: World, was: Flight, observed: bool, e: Element, gone: bool, ev: Event)
    requires Typable(w) && MintedAs(w.trails, e) && TypingInto(was, e.ref) && (gone ==> Unlisted(w, e.ref))
    requires StillTyping(w, was, observed, e, gone) && !ev.TypeDone? && !ev.AwaitFailed?
    ensures StillTyping(Step(w, ev).0, was, observed || ev.TypeObserve?, e, gone)
  {
    hide Inv, Step, MirrorTraced, KeyboardTraced, MintedAs, Unlisted;
    TypingGoesOn(w, ev);
    if w.flight.AwaitFocus? && ev.TypeObserve? {
      Observes(w, e);
      if gone {
        GoneIsNotObserved(w);
      }
    }
  }

  lemma {:induction false} RunStillTyping(w: World, e: Element, gone: bool, events: seq<Event>)
    requires Typable(w) && MintedAs(w.trails, e) && TypingInto(w.flight, e.ref) && (gone ==> Unlisted(w, e.ref))
    requires forall ev :: ev in events ==> !ev.TypeDone? && !ev.AwaitFailed?
    ensures var v := Run(w, events);
            && Typable(v) && MintedAs(v.trails, e) && (gone ==> Unlisted(v, e.ref))
            && v.session.generation >= w.session.generation
            && (v.session.generation == w.session.generation <==> MainNavigated !in events)
            && StillTyping(v, w.flight, TypeObserve in events, e, gone)
    decreases |events|
  {
    hide Typable, MintedAs, Unlisted, StillTyping, Step, TypingInto;
    if events == [] {
      NotYetObserved(w, e, gone);
    } else {
      var init, last := events[..|events| - 1], events[|events| - 1];
      assert events == init + [last];
      RunStillTyping(w, e, gone, init);
      var front := Run(w, init);
      TypableIsKept(front);
      StepKeepsTypable(front, last);
      StepGrows(front, last);
      MintedStays(front, Step(front, last).0, e);
      if gone {
        StepKeepsUnlisted(front, e.ref, last);
      }
      GenerationsStep(front, last);
      StepStillTyping(front, w.flight, TypeObserve in init, e, gone, last);
    }
  }

  lemma NotYetObserved(w: World, e: Element, gone: bool)
    ensures StillTyping(w, w.flight, false, e, gone)
  {
  }

  /** Typing under way at the invalidation gets to set its target: looked at in time, and no navigation came. */
  predicate Finishes(w: World, events: seq<Event>) {
    && TypingTarget(w.flight).Some? && w.session.generation == w.flight.generation && MainNavigated !in events
    && (w.flight.AwaitInput? || TypeObserve in events)
  }

  /**
    When typing into e was under way as its frame was invalidated, and neither ended
    nor failed in between, its end sets a keyboard target for e exactly when it had been
    looked at a second time and no navigation came. That target names the invalidated
    identity, so that another such invalidation would take it, if and only if: the
    target known already named it; or, with the element still to be looked at, the
    identity has a session and e is of it. A frame alone is forgotten then.
   */
  lemma TypingOutlivesRevocation(before: seq<Event>, identity: Identity, events: seq<Event>, e: Element)
    requires var w := Run(START, before); TypingInto(w.flight, e.ref) && MintedAs(w.trails, e)
    requires forall ev :: ev in events ==> !ev.TypeDone? && !ev.AwaitFailed?
    ensures var w, v := Run(START, before), Run(START, before + [FrameReplaced(identity)] + (events + [TypeDone]));
            && (v.session.keyboard.Some? <==> Finishes(w, events))
            && (v.session.keyboard.Some? ==> TargetOf(v.trails, v.session.keyboard.value, e))
            && (KeyboardMentions(v.session, identity) <==>
                  Finishes(w, events) &&
                  if w.flight.AwaitInput? then Matches(w.flight.target.frameId, w.flight.target.sessionId, identity)
                  else identity.sessionId != "" && e.sessionId == identity.sessionId)
  {
    hide Typable, MintedAs, Unlisted, StillTyping, Step, TrailsGrow, Finishes, TargetOf, KeyboardMentions;
    var w := Run(START, before);
    RunIsTypable(before);
    TypingIsOfItsGeneration(w);
    var hit := CutAt(before, FrameReplaced(identity), events + [TypeDone]);
    StepKeepsTypable(w, FrameReplaced(identity));
    TypableIsKept(w);
    StepGrows(w, FrameReplaced(identity));
    MintedStays(w, hit, e);
    TypingGoesOn(w, FrameReplaced(identity));
    GenerationsStep(w, FrameReplaced(identity));
    var gone := Matches(e.frameId, e.sessionId, identity);
    if gone {
      RevocationUnlists(w, identity, e);
    }
    RunStillTyping(hit, e, gone, events);
    assert (events + [TypeDone])[..|events|] == events;
    TypingEnds(Run(hit, events), w, events, e, gone, identity);
  }

  lemma TypingIsOfItsGeneration(w: World)
    requires Typable(w) && TypingTarget(w.flight).Some?
    ensures w.flight.generation <= w.session.generation
  {
  }

  /** The last step of it. */
  lemma TypingEnds(v: World, w: World, events: seq<Event>, e: Element, gone: bool, identity: Identity)
    requires Typable(v) && MintedAs(v.trails, e) && TypingInto(w.flight, e.ref)
    requires StillTyping(v, w.flight, TypeObserve in events, e, gone) && gone == Matches(e.frameId, e.sessionId, identity)
    requires v.session.generation >= w.session.generation
    requires v.session.generation == w.session.generation <==> MainNavigated !in events
    requires w.session.generation >= w.flight.generation
    ensures var after := Step(v, TypeDone).0;
            && (after.session.keyboard.Some? <==> Finishes(w, events))
            && (after.session.keyboard.Some? ==> TargetOf(after.trails, after.session.keyboard.value, e))
            && (KeyboardMentions(after.session, identity) <==>
                  Finishes(w, events) &&
                  if w.flight.AwaitInput? then Matches(w.flight.target.frameId, w.flight.target.sessionId, identity)
                  else identity.sessionId != "" && e.sessionId == identity.sessionId)
  {
    hide Inv, MirrorTraced, MintedAs, FreezeEach;
    var f :| TargetOf(v.trails, TypingTarget(v.flight).value, f);
    OneElement(v, e, f);
  }

  // ------------------------------------------------------------ runs in which it does

  /** One editable element, of a frame without a session of its own. */
  const IN_FRAME: Raw := Raw("f", "", true, 10)
  const FRAME_ELEMENT: Element := Element(0, "f", "", true, 10)
  const THE_FRAME: Identity := Identity("f", "")

  /** The page is inspected, and typing into its element begun. */
  function TypingRun(e: Envelope, tree: nat): seq<Event> {
    [Begin(Inspect), SummaryRead, ScanDone([IN_FRAME])] + [MirrorDone(map[], 1, e, tree)] + [TypeBegin(0)]
  }

  const SCANNED: World := World(INITIAL, 0, AwaitMirror(Inspect, 0, map[], [IN_FRAME], [IN_FRAME]), 0, 0, map[], [])

  lemma FrameIsScanned()
    ensures Run(START, [Begin(Inspect), SummaryRead, ScanDone([IN_FRAME])]) == SCANNED
  {
    var events := [Begin(Inspect), SummaryRead, ScanDone([IN_FRAME])];
    assert events[..2] == [Begin(Inspect), SummaryRead] && events[..2][..1] == [Begin(Inspect)] && events[..2][..1][..0] == [];
    var w1 := Step(START, Begin(Inspect)).0;
    var w2 := Step(w1, SummaryRead).0;
    AllIsCurrent(INITIAL);
    assert Run(START, events[..2][..1][..0]) == START;
    assert Run(START, events[..2][..1]) == w1;
    assert Run(START, events[..2]) == w2;
    assert Run(START, events) == Step(w2, ScanDone([IN_FRAME])).0;
  }

  lemma AllIsCurrent(s: State)
    requires s.epochs.None?
    ensures Current([IN_FRAME], s, map[]) == [IN_FRAME]
  {
    assert [IN_FRAME][..0] == [];
  }

  lemma FrameIsPublished(e: Envelope, tree: nat)
    ensures NewSnap(SCANNED, map[]).elements == [FRAME_ELEMENT]
    ensures var w := Step(SCANNED, MirrorDone(map[], 1, e, tree)).0;
            && w.flight == Idle && 0 in w.session.mirror && MintedAs(w.trails, FRAME_ELEMENT)
  {
    hide StoreSnapshot, Current, PageCount, Put;
    AllIsCurrent(INITIAL);
    assert NewSnap(SCANNED, map[]).elements == [FRAME_ELEMENT];
    assert [FRAME_ELEMENT][..0] == [];
    assert 0 in Mirror([FRAME_ELEMENT]);
    var w := Step(SCANNED, MirrorDone(map[], 1, e, tree)).0;
    assert w.trails[0].original == [FRAME_ELEMENT] && w.trails[0].firstRef == 0;
    assert Issued(w.trails[0], 0);
  }

  lemma TypingIntoFrame(e: Envelope, tree: nat)
    ensures var w := Run(START, TypingRun(e, tree));
            && w.flight.AwaitFocus? && w.flight.ref == 0 && w.session.generation == w.flight.generation
            && 0 in w.session.mirror && MintedAs(w.trails, FRAME_ELEMENT)
  {
    hide Step, MintedAs, Inv, ResolveElement, Lists;
    var scan, publish := [Begin(Inspect), SummaryRead, ScanDone([IN_FRAME])], MirrorDone(map[], 1, e, tree);
    FrameIsScanned();
    RunKeepsInv(scan);
    FrameIsPublished(e, tree);
    var w := Step(SCANNED, publish).0;
    assert (scan + [publish])[..3] == scan;
    assert Run(START, scan + [publish]) == w;
    HoldsLists([FRAME_ELEMENT], FRAME_ELEMENT);
    PublishedRefsResolve(SCANNED, publish, 0);
    FocusAwaited(w, 0);
    RunKeepsInv(scan + [publish]);
    StepInherits(w, TypeBegin(0));
    StepGrows(w, TypeBegin(0));
    MintedStays(w, Step(w, TypeBegin(0)).0, FRAME_ELEMENT);
    BeginKeepsMirror(w);
    assert TypingRun(e, tree)[..4] == scan + [publish];
  }

  lemma BeginKeepsMirror(w: World)
    ensures Step(w, TypeBegin(0)).0.session.mirror == w.session.mirror
  {
    hide ResolveElement;
    LookupsKeepMirror(Dropped(w).session, 0, w.now);
  }

  /**
    The frame is replaced before the element is looked at a second time: a target for
    its element is set that names no frame, and replacing the frame again leaves it.
   */
  lemma FrameIsForgotten(e: Envelope, tree: nat)
    ensures var run := TypingRun(e, tree) + [FrameReplaced(THE_FRAME)] + [TypeObserve, TypeDone];
            var v := Run(START, run);
            && v.session.keyboard == Some(KeyboardTarget(0, "", "")) && MintedAs(v.trails, FRAME_ELEMENT)
            && Run(START, run + [FrameReplaced(THE_FRAME)]).session.keyboard == v.session.keyboard
  {
    hide Step, MintedAs, KeyboardMentions, Run;
    TypingIntoFrame(e, tree);
    var before, after := TypingRun(e, tree), [TypeObserve, TypeDone];
    assert [TypeObserve] + [TypeDone] == after;
    TypingOutlivesRevocation(before, THE_FRAME, [TypeObserve], FRAME_ELEMENT);
    var run := before + [FrameReplaced(THE_FRAME)] + after;
    assert before + [FrameReplaced(THE_FRAME)] + ([TypeObserve] + [TypeDone]) == run;
    var v := Run(START, run);
    UnnamedStays(v, THE_FRAME);
    UnnamedHasNoFrame(v);
    RunOneMore(run, FrameReplaced(THE_FRAME));
  }

  lemma RunOneMore(events: seq<Event>, ev: Event)
    ensures Run(START, events + [ev]) == Step(Run(START, events), ev).0
  {
    hide Step;
    assert (events + [ev])[..|events|] == events;
  }

  lemma UnnamedHasNoFrame(v: World)
    requires v.session.keyboard.Some? && TargetOf(v.trails, v.session.keyboard.value, FRAME_ELEMENT)
    requires !KeyboardMentions(v.session, THE_FRAME)
    ensures v.session.keyboard == Some(KeyboardTarget(0, "", "")) && MintedAs(v.trails, FRAME_ELEMENT)
  {
  }

  lemma UnnamedStays(v: World, identity: Identity)
    requires !KeyboardMentions(v.session, identity)
    ensures Step(v, FrameReplaced(identity)).0.session.keyboard == v.session.keyboard
  {
    hide RevokeEach, Mirror, Bump;
  }

  /** Replaced after the second look, the frame is named by the target that is set for it. */
  lemma FrameIsNamed(e: Envelope, tree: nat)
    ensures var v := Run(START, TypingRun(e, tree) + [TypeObserve] + [FrameReplaced(THE_FRAME)] + [TypeDone]);
            KeyboardMentions(v.session, THE_FRAME)
  {
    hide Step, MintedAs, KeyboardMentions, Run;
    TypingIntoFrame(e, tree);
    var before := TypingRun(e, tree);
    var w := Run(START, before);
    RunIsTypable(before);
    Observes(w, FRAME_ELEMENT);
    RunOneMore(before, TypeObserve);
    StepGrows(w, TypeObserve);
    MintedStays(w, Step(w, TypeObserve).0, FRAME_ELEMENT);
    GenerationsStep(w, TypeObserve);
    TypingOutlivesRevocation(before + [TypeObserve], THE_FRAME, [], FRAME_ELEMENT);
    assert [] + [TypeDone] == [TypeDone];
  }
}
