/**
  What ends an observation: a mutating action freezes paging off and leaves the refs,
  a main navigation ends both; and what every continuation is answered with
  (packages/browser-core/src/browser-state.ts, packages/browser-core/src/browser-snapshot.ts,
  packages/browser-core/src/browser-query.ts, packages/browser-core/src/browser-action-targets.ts).
 */
module PagingEnds {
  import opened Wrappers
  import opened BrowserState
  import opened PageBudget
  import opened SnapshotPaging
  import opened InspectProtocol
  import opened InspectRuns
  import opened StoreHistory
  import opened Revocation

  // ------------------------------------------------------- what a continuation gets

  /** x is what a continuation of this id may go on with. */
  ghost predicate Retained(w: World, x: Snap, id: nat) {
    x in StoreOf(w) && x.id == id && !Expired(x, w.session.generation, w.now) && !x.invalidated
  }

  lemma LookedUpExactly(w: World, id: nat)
    requires Inv(w)
    ensures var (s, found) := GetSnapshot(Dropped(w).session, id, w.now);
            && (found.None? <==> forall x :: !Retained(w, x, id))
            && (found.Some? ==>
                  && id in w.trails
                  && forall x :: Retained(w, x, id) ==> s.store.value[found.value] == x.(lastAccessedAt := Some(w.now)))
  {
    hide WellKept, StoreOk, TrailsOk, FlightOk, GetSnapshot, Expired, SnapOk;
    DroppedKeepsInv(w);
    LookedUp(Dropped(w), id);
    ContinuationLookup(Dropped(w).session, id, w.now);
    var (s, found) := GetSnapshot(Dropped(w).session, id, w.now);
    if found.Some? {
      var y :| y in StoreOf(w) && y.id == id && !Expired(y, w.session.generation, w.now) && !y.invalidated
               && s.store.value[found.value] == y.(lastAccessedAt := Some(w.now));
      assert Retained(w, y, id);
      forall x | Retained(w, x, id)
        ensures x == y
      {
        StoredUnderOneId(w, x, y);
      }
    } else {
      forall x
        ensures !Retained(w, x, id)
      {
      }
    }
  }

  lemma StoredUnderOneId(w: World, x: Snap, y: Snap)
    requires Inv(w) && x in StoreOf(w) && y in StoreOf(w) && x.id == y.id
    ensures x == y
  {
    hide StoreOk, TrailsOk, FlightOk;
  }

  lemma CursorIsInside(w: World, x: Snap, id: nat)
    requires Inv(w) && Retained(w, x, id)
    ensures x.nextOffset.Some? ==> x.nextOffset.value <= |x.elements|
    ensures x.editable.Some? && x.editable.value.nextOffset.Some? ==> x.editable.value.nextOffset.value <= |x.editable.value.elements|
  {
    hide WellKept, TrailsOk, FlightOk, Expired, Editables, EditableWithin;
  }

  /**
    Every answer to an inspect continuation: stale unless its snapshot is retained,
    current, unexpired and not frozen off; then refused for another kind or another
    offset than the cursor's; else the next page, or too large if not one element can
    be sent.
   */
  lemma ContinueInspectExactly(w: World, ev: Event)
    requires Inv(w) && w.flight == Idle && ev.ContinueInspect?
    ensures var out := Step(w, ev).1;
            && (out == Failed(Stale) <==> forall x :: !Retained(w, x, ev.id))
            && forall x :: Retained(w, x, ev.id) ==>
                 && (out == Failed(KindMismatch) <==> x.kind != Inspect)
                 && (out == Failed(ContinuationMismatch) <==> x.kind == Inspect && x.nextOffset != Some(ev.offset))
                 && (x.kind == Inspect && x.nextOffset == Some(ev.offset) ==>
                       && ev.offset <= |x.elements|
                       && var n := PageCount(x.elements, ev.offset, PageLimit(Some(ev.limit)), ev.e, ev.tree);
                          match n
                          case None => out == Failed(TooLarge)
                          case Some(c) => ev.offset + c <= |x.elements| && out == Page(ev.id, x.elements[ev.offset..ev.offset + c]))
  {
    hide Inv, Retained, GetSnapshot, PageCount;
    LookedUpExactly(w, ev.id);
    forall x | Retained(w, x, ev.id)
      ensures x.nextOffset.Some? ==> x.nextOffset.value <= |x.elements|
    {
      CursorIsInside(w, x, ev.id);
    }
    forall x | Retained(w, x, ev.id) && x.kind == Inspect && x.nextOffset == Some(ev.offset)
      ensures var n := PageCount(x.elements, ev.offset, PageLimit(Some(ev.limit)), ev.e, ev.tree);
              n.Some? ==> ev.offset + n.value <= |x.elements|
    {
      PageCountBounds(x.elements, ev.offset, PageLimit(Some(ev.limit)), ev.e, ev.tree);
    }
  }

  /** And to a continuation of an editable query, which never fails for size. */
  lemma ContinueQueryExactly(w: World, ev: Event)
    requires Inv(w) && w.flight == Idle && ev.ContinueQuery?
    ensures var out := Step(w, ev).1;
            && (out == Failed(Stale) <==> forall x :: Retained(w, x, ev.id) ==> x.kind == QueryEditable && x.editable.None?)
            && forall x :: Retained(w, x, ev.id) ==>
                 && (out == Failed(KindMismatch) <==> x.kind != QueryEditable)
                 && (out == Failed(ContinuationMismatch) <==>
                       x.kind == QueryEditable && x.editable.Some? && x.editable.value.nextOffset != Some(ev.offset))
                 && (out.Targets? <==> x.kind == QueryEditable && x.editable.Some? && x.editable.value.nextOffset == Some(ev.offset))
  {
    hide Inv, Retained, GetSnapshot, TakeEditable;
    LookedUpExactly(w, ev.id);
    forall x | Retained(w, x, ev.id)
      ensures x.editable.Some? && x.editable.value.nextOffset.Some? ==> x.editable.value.nextOffset.value <= |x.editable.value.elements|
    {
      CursorIsInside(w, x, ev.id);
    }
  }

  // ------------------------------------------------------------- mutating actions

  /** A mutating action is over, or typing has been finished. */
  predicate Mutates(w: World, ev: Event) {
    ev == ActionMutated || (ev.TypeDone? && w.flight.AwaitInput? && w.session.generation == w.flight.generation)
  }

  /** Every stored snapshot published before this id is frozen off. */
  ghost predicate FrozenBelow(w: World, id: nat) {
    id <= w.nextId && forall x :: x in StoreOf(w) && x.id < id ==> x.invalidated
  }

  /** One store is the other with every snapshot frozen off. */
  ghost predicate FrozenOff(before: seq<Snap>, after: seq<Snap>) {
    |after| == |before| && forall i :: 0 <= i < |before| ==> after[i] == before[i].(invalidated := true)
  }

  lemma {:induction false} LiveFrozen(before: seq<Snap>, after: seq<Snap>, generation: nat, now: nat)
    requires FrozenOff(before, after)
    ensures FrozenOff(Live(before, generation, now), Live(after, generation, now))
  {
    if before != [] {
      LiveFrozen(before[..|before| - 1], after[..|after| - 1], generation, now);
      assert after[|after| - 1] == before[|before| - 1].(invalidated := true);
    }
  }

  lemma {:induction false} IssuerFrozen(before: seq<Snap>, after: seq<Snap>, generation: nat, ref: nat, n: nat)
    requires FrozenOff(before, after) && n <= |before|
    ensures Issuer(before, generation, ref, n) == Issuer(after, generation, ref, n)
  {
    hide Lists;
    if n > 0 {
      IssuerFrozen(before, after, generation, ref, n - 1);
    }
  }

  lemma MutationFreezesOff(w: World, ev: Event)
    requires Mutates(w, ev)
    ensures var after := Step(w, ev).0;
            && FrozenOff(StoreOf(w), StoreOf(after)) && after.session.store.Some? == w.session.store.Some?
            && after == w.(session := after.session, flight := after.flight)
            && after.session == w.session.(store := after.session.store, keyboard := after.session.keyboard)
  {
  }

  lemma ResolutionFrozen(s: State, t: State, ref: nat, now: nat)
    requires FrozenOff(s.store.GetOr([]), t.store.GetOr([])) && s.generation == t.generation
    ensures var (a, i) := ResolveElement(s, ref, now);
            var (b, j) := ResolveElement(t, ref, now);
            && i == j && FrozenOff(a.store.value, b.store.value)
  {
    hide Live, Lists, Refresh;
    LiveFrozen(s.store.GetOr([]), t.store.GetOr([]), s.generation, now);
    var a, b := Live(s.store.GetOr([]), s.generation, now), Live(t.store.GetOr([]), t.generation, now);
    IssuerFrozen(a, b, s.generation, ref, |a|);
  }

  /**
    A mutating action leaves what was observed: the same snapshots in the same order
    with the same elements, queries and cursors, the same mirror, and every ref
    resolves to the same element of the same snapshot as before.
   */
  lemma MutationKeepsRefs(w: World, ev: Event, ref: nat)
    requires Mutates(w, ev)
    ensures var after := Step(w, ev).0;
            && FrozenOff(StoreOf(w), StoreOf(after)) && after.trails == w.trails
            && after.session.mirror == w.session.mirror && after.session.latest == w.session.latest
            && after.session.generation == w.session.generation && after.session.epochs == w.session.epochs
            && var (s, i) := ResolveElement(w.session, ref, w.now);
               var (t, j) := ResolveElement(after.session, ref, after.now);
               && i == j
               && (i.Some? ==>
                     && t.store.value[j.value].id == s.store.value[i.value].id
                     && FirstWithRef(t.store.value[j.value].elements, ref) == FirstWithRef(s.store.value[i.value].elements, ref))
  {
    hide Step, ResolveElement, FirstWithRef;
    MutationFreezesOff(w, ev);
    ResolutionFrozen(w.session, Step(w, ev).0.session, ref, w.now);
  }

  lemma MutationFreezesBelow(w: World, ev: Event)
    requires Mutates(w, ev)
    ensures FrozenBelow(Step(w, ev).0, w.nextId)
  {
    hide Step, Mutates;
    MutationFreezesOff(w, ev);
    var before, after := StoreOf(w), StoreOf(Step(w, ev).0);
    forall x | x in after
      ensures x.invalidated
    {
      var i :| 0 <= i < |after| && after[i] == x;
    }
  }

  lemma IdsGrow(w: World, ev: Event)
    ensures w.nextId <= Step(w, ev).0.nextId
  {
    hide StoreSnapshot, GetSnapshot, ResolveElement, TakePage, TakeEditable, ContinuePage, ContinueEditable, Find, Editables, Current;
  }

  lemma StepKeepsFrozen(w: World, id: nat, ev: Event)
    requires Inv(w) && FrozenBelow(w, id)
    ensures FrozenBelow(Step(w, ev).0, id)
  {
    hide Inv, Step, Fresh, AllFrom;
    StepInherits(w, ev);
    IdsGrow(w, ev);
    var after := Step(w, ev).0;
    forall y | y in StoreOf(after) && y.id < id
      ensures y.invalidated
    {
      var x :| x in StoreOf(w) && Later(x, y);
    }
  }

  lemma {:induction false} RunKeepsFrozen(w: World, id: nat, events: seq<Event>)
    requires Inv(w) && FrozenBelow(w, id)
    ensures Inv(Run(w, events)) && FrozenBelow(Run(w, events), id)
    decreases |events|
  {
    hide Inv, FrozenBelow, Step;
    if events != [] {
      RunKeepsFrozen(w, id, events[..|events| - 1]);
      StepKeepsInv(Run(w, events[..|events| - 1]), events[|events| - 1]);
      StepKeepsFrozen(Run(w, events[..|events| - 1]), id, events[|events| - 1]);
    }
  }

  predicate Continues(ev: Event, id: nat) {
    (ev.ContinueInspect? || ev.ContinueQuery?) && ev.id < id
  }

  lemma FrozenIsStale(w: World, id: nat, ev: Event)
    requires Inv(w) && FrozenBelow(w, id) && Continues(ev, id)
    ensures Step(w, ev).1 == if w.flight == Idle then Failed(Stale) else Busy
  {
    hide Inv, GetSnapshot, ContinuePage, ContinueEditable, Expired;
    if w.flight == Idle {
      LookedUpExactly(w, ev.id);
    }
  }

  /**
    Over every run: once a mutating action is over, no continuation of anything
    published before it is ever served again; it is stale, whatever came in between.
   */
  lemma EveryRunFreezesOff(before: seq<Event>, ev: Event, after: seq<Event>, next: Event)
    requires Mutates(Run(START, before), ev) && Continues(next, Run(START, before).nextId)
    ensures var w := Run(START, before + [ev] + after);
            Step(w, next).1 == if w.flight == Idle then Failed(Stale) else Busy
  {
    hide Inv, FrozenBelow, Step, Mutates;
    var w := Run(START, before);
    RunKeepsInv(before);
    var hit := CutAt(before, ev, after);
    MutationFreezesBelow(w, ev);
    StepKeepsInv(w, ev);
    RunKeepsFrozen(hit, w.nextId, after);
    FrozenIsStale(Run(hit, after), w.nextId, next);
  }

  /** What the ids of the past are: those of the snapshots ever published. */
  lemma EveryRunNumbers(events: seq<Event>, id: nat)
    requires id in Run(START, events).trails
    ensures id < Run(START, events).nextId
  {
    hide Run, TrailOk, WellKept, StoreOk, FlightOk;
    RunKeepsInv(events);
  }

  // ------------------------------------------------------------------ navigations

  /** No key press continues at the ref, and typing into it under way is of a page left behind. */
  ghost predicate LeftBehind(w: World, ref: nat) {
    && (w.session.keyboard.Some? ==> w.session.keyboard.value.ref != ref)
    && (TypingInto(w.flight, ref) ==> w.flight.generation < w.session.generation)
  }

  lemma NavigationLeaves(w: World, ref: nat)
    requires Typable(w) && ref < w.nextRef
    ensures var after := Step(w, MainNavigated).0;
            Unlisted(after, ref) && LeftBehind(after, ref) && FrozenBelow(after, w.nextId)
            && StoreOf(after) == [] && after.session.mirror == map[] && after.session.keyboard == None
  {
    hide Inv, MirrorTraced, Traced;
  }

  lemma StepKeepsLeftBehind(w: World, ref: nat, ev: Event)
    requires Inv(w) && Unlisted(w, ref) && LeftBehind(w, ref)
    ensures LeftBehind(Step(w, ev).0, ref)
  {
    hide Inv, Unlisted, ResolveElement, Step;
    GenerationsStep(w, ev);
    match ev
    case TypeBegin(other) => BegunElsewhere(w, ref, other);
    case TypeObserve => ObservedBehind(w, ref);
    case TypeDone => FinishedBehind(w, ref);
    case _ =>
      OnlyTypingSetsKeyboard(w, ev);
      TypingStays(w, ev);
  }

  lemma BegunElsewhere(w: World, ref: nat, other: nat)
    requires Inv(w) && Unlisted(w, ref) && LeftBehind(w, ref)
    ensures LeftBehind(Step(w, TypeBegin(other)).0, ref)
  {
    hide Inv, Unlisted, ResolveElement;
    DroppedKeepsInv(w);
    DroppedIsUnlisted(w, ref);
    UnlistedDoesNotResolve(Dropped(w), ref);
    LookupsKeepKeyboard(Dropped(w).session, other, w.now);
  }

  lemma ObservedBehind(w: World, ref: nat)
    requires LeftBehind(w, ref)
    ensures LeftBehind(Step(w, TypeObserve).0, ref)
  {
    hide ResolveElement;
    if w.flight.AwaitFocus? {
      LookupsKeepKeyboard(w.session, w.flight.ref, w.now);
      LookupsKeepGeneration(w.session, w.flight.ref, w.now);
    }
  }

  lemma FinishedBehind(w: World, ref: nat)
    requires LeftBehind(w, ref)
    ensures LeftBehind(Step(w, TypeDone).0, ref)
  {
    hide FreezeEach;
  }

  lemma {:induction false} RunKeepsLeftBehind(w: World, ref: nat, events: seq<Event>)
    requires Inv(w) && Unlisted(w, ref) && LeftBehind(w, ref)
    ensures var v := Run(w, events); Inv(v) && Unlisted(v, ref) && LeftBehind(v, ref)
    decreases |events|
  {
    hide Inv, Unlisted, LeftBehind, Step;
    if events != [] {
      var front, last := Run(w, events[..|events| - 1]), events[|events| - 1];
      RunKeepsLeftBehind(w, ref, events[..|events| - 1]);
      StepKeepsInv(front, last);
      StepKeepsUnlisted(front, ref, last);
      StepKeepsLeftBehind(front, ref, last);
    }
  }

  /**
    Over every run: after a main navigation nothing observed before it is of any use,
    whatever follows. Its refs do not resolve and are neither listed nor mirrored, no
    key press continues at them, and its continuations are stale.
   */
  lemma EveryRunLeavesThePage(before: seq<Event>, after: seq<Event>, ref: nat, next: Event)
    requires ref < Run(START, before).nextRef && Continues(next, Run(START, before).nextId)
    ensures var w := Run(START, before + [MainNavigated] + after);
            && ResolveElement(w.session, ref, w.now).1.None? && ref !in w.session.mirror
            && (forall x :: x in StoreOf(w) ==> !Lists(x.elements, ref))
            && (w.session.keyboard.Some? ==> w.session.keyboard.value.ref != ref)
            && Step(w, next).1 == if w.flight == Idle then Failed(Stale) else Busy
  {
    hide Inv, Step, Typable, ResolveElement, Lists, FrozenBelow;
    var w := Run(START, before);
    RunIsTypable(before);
    TypableIsKept(w);
    var hit := CutAt(before, MainNavigated, after);
    NavigationLeaves(w, ref);
    StepKeepsInv(w, MainNavigated);
    RunKeepsLeftBehind(hit, ref, after);
    RunKeepsFrozen(hit, w.nextId, after);
    UnlistedDoesNotResolve(Run(hit, after), ref);
    FrozenIsStale(Run(hit, after), w.nextId, next);
  }
}
