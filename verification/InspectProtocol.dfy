/**
  The inspection protocol over whole runs (packages/browser-core/src/browser-snapshot.ts,
  packages/browser-core/src/browser-query.ts).

  `inspect` is cut into the steps between its awaits. Between any two steps the
  scheduler may deliver frame invalidations, main-document navigations, ref
  resolutions and time. Requests are serialized by the action gate, so at most one
  inspection is in flight and continuations run while none is.

  The world also keeps what the session forgets: which elements every snapshot was
  published with, which pages were handed out, and which frames were invalidated
  since the inspection in flight captured its epochs.
 */
module InspectProtocol {
  import opened Wrappers
  import opened BrowserState
  import opened PageBudget
  import opened SnapshotPaging

  /** A scanned element before it gets an opaque ref. */
  datatype Raw = Raw(frameId: string, sessionId: string, editable: bool, bytes: nat)

  datatype Flight =
    | Idle
    | AwaitSummary(kind: Kind, generation: nat, baseline: map<FrameKey, nat>)
    | AwaitScan(kind: Kind, generation: nat, baseline: map<FrameKey, nat>)
    | AwaitMirror(kind: Kind, generation: nat, baseline: map<FrameKey, nat>, scanned: seq<Raw>, raws: seq<Raw>)
    | AwaitQuery
    | AwaitFocus(generation: nat, ref: nat, sessionId: string)
    | AwaitInput(generation: nat, target: KeyboardTarget)

  /**
    What one snapshot was published with, what has been handed out of it, and where
    it came from: the scan, the frame invalidations between the capture of the epochs
    and the publication, and the first ref minted for it.
   */
  datatype Trail = Trail(
    original: seq<Element>,
    served: seq<Element>,
    targets: seq<Element>,
    servedTargets: seq<Element>,
    scanned: seq<Raw>,
    invalidated: seq<Identity>,
    firstRef: nat)

  datatype World = World(
    session: State,
    now: nat,
    flight: Flight,
    nextId: nat,
    nextRef: nat,
    trails: map<nat, Trail>,
    invalidated: seq<Identity>)

  datatype Event =
    | Tick(ms: nat)
    | Begin(kind: Kind)
    | SummaryRead
    | ScanDone(scanned: seq<Raw>)
    | MirrorDone(frameRefs: map<string, nat>, limit: nat, e: Envelope, tree: nat)
    | AwaitFailed
    | QueryResumed(limit: nat)
    | ContinueInspect(id: nat, offset: nat, limit: nat, e: Envelope, tree: nat)
    | ContinueQuery(id: nat, offset: nat, limit: nat)
    | FrameReplaced(identity: Identity)
    | MainNavigated
    | ActionMutated
    | RefUsed(ref: nat)
    | TypeBegin(ref: nat)
    | TypeObserve
    | TypeDone
    | OtherAction

  datatype Outcome = Quiet | Busy | Page(id: nat, elements: seq<Element>) | Targets(id: nat, elements: seq<Element>) | Failed(error: PageError)

  const START: World := World(INITIAL, 0, Idle, 0, 0, map[], [])

  // ----------------------------------------------------------------- the steps

  /** The raw elements whose frame is still the one the baseline was captured for. */
  function Current(raws: seq<Raw>, s: State, baseline: map<FrameKey, nat>): seq<Raw> {
    if raws == [] then []
    else
      var rest := Current(raws[..|raws| - 1], s, baseline);
      var last := raws[|raws| - 1];
      if FrameIsCurrent(s, baseline, last.frameId, last.sessionId) then rest + [last] else rest
  }

  function Minted(raws: seq<Raw>, ref: nat): (r: seq<Element>)
    ensures |r| == |raws|
    ensures forall i :: 0 <= i < |raws| ==> r[i] == Element(ref + i, raws[i].frameId, raws[i].sessionId, raws[i].editable, raws[i].bytes)
  {
    seq(|raws|, i requires 0 <= i < |raws| => Element(ref + i, raws[i].frameId, raws[i].sessionId, raws[i].editable, raws[i].bytes))
  }

  function NewSnap(w: World, frameRefs: map<string, nat>): Snap
    requires w.flight.AwaitMirror?
  {
    var raws := Current(w.flight.raws, w.session, w.flight.baseline);
    Snap(w.nextId, w.flight.generation, w.now, None, w.flight.kind, Minted(raws, w.nextRef), Some(0), false, frameRefs, None)
  }

  /** The scan is published, and its first page taken. A query only takes one element of it. */
  function Publish(w: World, ev: Event): (World, Outcome)
    requires w.flight.AwaitMirror? && ev.MirrorDone?
  {
    if w.session.generation != w.flight.generation
    then (w.(session := w.session.(mirror := map[]), flight := Idle), Failed(Stale))
    else
      var x := NewSnap(w, ev.frameRefs);
      var s := StoreSnapshot(w.session, x, w.now).(mirror := Mirror(x.elements));
      var stored := x.(lastAccessedAt := Some(w.now));
      var limit := if x.kind == Inspect then PageLimit(Some(ev.limit)) else 1;
      var trail := Trail(x.elements, [], [], [], w.flight.scanned, w.invalidated, w.nextRef);
      var published := w.(session := s, nextId := w.nextId + 1, nextRef := w.nextRef + |x.elements|,
                          trails := w.trails[x.id := trail], flight := Idle);
      match TakePage(stored, 0, limit, ev.e, ev.tree)
      case Err(err) => (published, Failed(err))
      case Ok((y, page)) =>
        var served := published.(session := s.(store := Some(Put(s.store.GetOr([]), y))),
                                 trails := published.trails[x.id := trail.(served := page)],
                                 flight := if x.kind == QueryEditable then AwaitQuery else Idle);
        (served, Page(x.id, page))
  }

  /** The editable query continues with whatever snapshot is the latest by then. */
  function ResumeQuery(w: World, limit: nat): (World, Outcome) {
    match w.session.latest
    case None => (w.(flight := Idle), Failed(Stale))
    case Some(id) =>
      var store := w.session.store.GetOr([]);
      var i := Find(store, id);
      if i == |store| || id !in w.trails then (w.(flight := Idle), Failed(Stale))
      else
        var q := EditableQuery(Editables(store[i].elements), Some(0));
        var (y, page) := TakeEditable(store[i].(editable := Some(q)), q, 0, PageLimit(Some(limit)));
        (w.(flight := Idle,
            session := w.session.(store := Some(store[i := y])),
            trails := w.trails[id := w.trails[id].(targets := q.elements, servedTargets := page)]),
         Targets(id, page))
  }

  function ContinueAt(w: World, ev: Event): (World, Outcome)
    requires ev.ContinueInspect?
  {
    var (s, found) := GetSnapshot(w.session, ev.id, w.now);
    if found.None? || ev.id !in w.trails then (w.(session := s), Failed(Stale))
    else
      match ContinuePage(s.store.value[found.value], ev.offset, PageLimit(Some(ev.limit)), ev.e, ev.tree)
      case Err(err) => (w.(session := s), Failed(err))
      case Ok((y, page)) =>
        (w.(session := s.(store := Some(s.store.value[found.value := y])),
            trails := w.trails[ev.id := w.trails[ev.id].(served := w.trails[ev.id].served + page)]),
         Page(ev.id, page))
  }

  function ContinueTargets(w: World, ev: Event): (World, Outcome)
    requires ev.ContinueQuery?
  {
    var (s, found) := GetSnapshot(w.session, ev.id, w.now);
    if found.None? || ev.id !in w.trails then (w.(session := s), Failed(Stale))
    else
      match ContinueEditable(s.store.value[found.value], ev.offset, PageLimit(Some(ev.limit)))
      case Err(err) => (w.(session := s), Failed(err))
      case Ok((y, page)) =>
        (w.(session := s.(store := Some(s.store.value[found.value := y])),
            trails := w.trails[ev.id := w.trails[ev.id].(servedTargets := w.trails[ev.id].servedTargets + page)]),
         Targets(ev.id, page))
  }

  /** Every action but typing takes the keyboard target: a key press consumes it, the others drop it. */
  function Dropped(w: World): World {
    w.(session := w.session.(keyboard := None))
  }

  /** Typing into a ref resolves it, and waits for the element to be focused. */
  function BeginTyping(w: World, ref: nat): (World, Outcome) {
    var (s, found) := ResolveElement(w.session, ref, w.now);
    match found
    case None => (w.(session := s), Failed(Stale))
    case Some(i) =>
      (w.(session := s, flight := AwaitFocus(s.generation, ref, FirstWithRef(s.store.value[i].elements, ref).sessionId)), Quiet)
  }

  /** The element is looked at a second time, in the snapshots or else in the mirror, before the text is sent. */
  function ObserveTyping(w: World): (World, Outcome)
    requires w.flight.AwaitFocus?
  {
    var ref := w.flight.ref;
    var (s, found) := ResolveElement(w.session, ref, w.now);
    var frameId :=
      match found
      case Some(i) => FirstWithRef(s.store.value[i].elements, ref).frameId
      case None => if ref in s.mirror then s.mirror[ref].frameId else "";
    (w.(session := s, flight := AwaitInput(w.flight.generation, KeyboardTarget(ref, frameId, w.flight.sessionId))), Quiet)
  }

  /** The text has been sent and checked: observations are frozen off and key presses may continue there. */
  function FinishTyping(w: World): (World, Outcome)
    requires w.flight.AwaitInput?
  {
    if w.session.generation != w.flight.generation then (w.(flight := Idle), Failed(Stale))
    else (w.(session := InvalidateObservations(w.session).(keyboard := Some(w.flight.target)), flight := Idle), Quiet)
  }

  /** Abandon the inspection when the page has navigated since it began. */
  function Proceed(w: World, next: Flight, generation: nat): (World, Outcome) {
    if w.session.generation != generation then (w.(flight := Idle), Failed(Stale)) else (w.(flight := next), Quiet)
  }

  function Step(w: World, ev: Event): (World, Outcome) {
    match ev
    case Tick(ms) => (w.(now := w.now + ms), Quiet)
    case FrameReplaced(identity) =>
      (w.(session := InvalidateFrame(w.session, identity), invalidated := w.invalidated + [identity]), Quiet)
    case MainNavigated => (w.(session := Navigate(w.session)), Quiet)
    case ActionMutated => (w.(session := InvalidateObservations(w.session)), Quiet)
    case RefUsed(ref) => (w.(session := ResolveElement(w.session, ref, w.now).0), Quiet)
    case Begin(kind) =>
      if w.flight != Idle then (w, Busy)
      else (Dropped(w).(flight := AwaitSummary(kind, w.session.generation, CaptureEpochs(w.session)), invalidated := []), Quiet)
    case SummaryRead =>
      if !w.flight.AwaitSummary? then (w, Quiet)
      else Proceed(w, AwaitScan(w.flight.kind, w.flight.generation, w.flight.baseline), w.flight.generation)
    case ScanDone(scanned) =>
      if !w.flight.AwaitScan? then (w, Quiet)
      else Proceed(w, AwaitMirror(w.flight.kind, w.flight.generation, w.flight.baseline, scanned,
                                  Current(scanned, w.session, w.flight.baseline)), w.flight.generation)
    case MirrorDone(_, _, _, _) => if !w.flight.AwaitMirror? then (w, Quiet) else Publish(w, ev)
    case AwaitFailed => if w.flight.AwaitQuery? then (w, Quiet) else (w.(flight := Idle), Quiet)
    case QueryResumed(limit) => if !w.flight.AwaitQuery? then (w, Quiet) else ResumeQuery(w, limit)
    case ContinueInspect(_, _, _, _, _) => if w.flight != Idle then (w, Busy) else ContinueAt(Dropped(w), ev)
    case ContinueQuery(_, _, _) => if w.flight != Idle then (w, Busy) else ContinueTargets(Dropped(w), ev)
    case TypeBegin(ref) => if w.flight != Idle then (w, Busy) else BeginTyping(Dropped(w), ref)
    case TypeObserve => if !w.flight.AwaitFocus? then (w, Quiet) else ObserveTyping(w)
    case TypeDone => if !w.flight.AwaitInput? then (w, Quiet) else FinishTyping(w)
    case OtherAction => if w.flight != Idle then (w, Busy) else (Dropped(w), Quiet)
  }

  function Run(w: World, events: seq<Event>): World {
    if events == [] then w else Step(Run(w, events[..|events| - 1]), events[|events| - 1]).0
  }

  // ----------------------------------------------------- epochs and invalidations

  predicate HitByAny(r: Raw, log: seq<Identity>) {
    exists i :: 0 <= i < |log| && Matches(r.frameId, r.sessionId, log[i])
  }

  /** The scanned elements that none of the invalidations matches. */
  ghost function Survivors(raws: seq<Raw>, log: seq<Identity>): seq<Raw> {
    if raws == [] then []
    else
      var rest := Survivors(raws[..|raws| - 1], log);
      var last := raws[|raws| - 1];
      if HitByAny(last, log) then rest else rest + [last]
  }

  /** How many of the invalidations carry a key. */
  ghost function Hits(log: seq<Identity>, k: FrameKey): nat {
    if log == [] then 0
    else
      var last := log[|log| - 1];
      Hits(log[..|log| - 1], k) + if k in Keys(last.frameId, last.sessionId) then 1 else 0
  }

  lemma {:induction false} HitsCount(log: seq<Identity>, k: FrameKey)
    ensures Hits(log, k) > 0 <==> exists i :: 0 <= i < |log| && k in Keys(log[i].frameId, log[i].sessionId)
  {
    if log != [] {
      HitsCount(log[..|log| - 1], k);
      if i :| 0 <= i < |log| && k in Keys(log[i].frameId, log[i].sessionId) {
        if i < |log| - 1 {
          assert log[..|log| - 1][i] == log[i];
        }
      }
    }
  }

  /** Every epoch has grown by the number of invalidations logged for its key. */
  ghost predicate EpochsSince(s: State, baseline: map<FrameKey, nat>, log: seq<Identity>) {
    forall k :: Epoch(CaptureEpochs(s), k) == Epoch(baseline, k) + Hits(log, k)
  }

  /** So the epoch test tells exactly whether an invalidation matched the element. */
  lemma EpochTestIsExact(s: State, baseline: map<FrameKey, nat>, log: seq<Identity>, r: Raw)
    requires EpochsSince(s, baseline, log)
    ensures FrameIsCurrent(s, baseline, r.frameId, r.sessionId) <==> !HitByAny(r, log)
  {
    var keys := Keys(r.frameId, r.sessionId);
    assert FrameIsCurrent(s, baseline, r.frameId, r.sessionId) <==> forall k :: k in keys ==> Hits(log, k) == 0 by {
      forall k | k in keys
        ensures Epoch(CaptureEpochs(s), k) == Epoch(baseline, k) + Hits(log, k)
      {
      }
    }
    if i :| 0 <= i < |log| && Matches(r.frameId, r.sessionId, log[i]) {
      MatchesIsSharedKey(r.frameId, r.sessionId, log[i]);
      var k :| k in keys && k in Keys(log[i].frameId, log[i].sessionId);
      HitsCount(log, k);
    }
    if k :| k in keys && Hits(log, k) != 0 {
      HitsCount(log, k);
      var i :| 0 <= i < |log| && k in Keys(log[i].frameId, log[i].sessionId);
      MatchesIsSharedKey(r.frameId, r.sessionId, log[i]);
    }
  }

  lemma {:induction false} CurrentIsSurvivors(raws: seq<Raw>, s: State, baseline: map<FrameKey, nat>, log: seq<Identity>)
    requires EpochsSince(s, baseline, log)
    ensures Current(raws, s, baseline) == Survivors(raws, log)
  {
    if raws != [] {
      CurrentIsSurvivors(raws[..|raws| - 1], s, baseline, log);
      EpochTestIsExact(s, baseline, log, raws[|raws| - 1]);
    }
  }

  lemma {:induction false} SurvivorsTwice(raws: seq<Raw>, log: seq<Identity>, more: seq<Identity>)
    requires forall r :: HitByAny(r, log) ==> HitByAny(r, more)
    ensures Survivors(Survivors(raws, log), more) == Survivors(raws, more)
  {
    if raws != [] {
      SurvivorsTwice(raws[..|raws| - 1], log, more);
      var rest, last := Survivors(raws[..|raws| - 1], log), raws[|raws| - 1];
      assert (rest + [last])[..|rest|] == rest;
    }
  }

  /** Survivors are the elements no invalidation matches, in scan order. */
  lemma {:induction false} SurvivorsInOrder(front: seq<Raw>, rest: seq<Raw>, log: seq<Identity>)
    ensures Survivors(front + rest, log) == Survivors(front, log) + Survivors(rest, log)
    ensures forall r :: r in Survivors(rest, log) <==> r in rest && !HitByAny(r, log)
    decreases |rest|
  {
    if rest == [] {
      assert front + rest == front;
    } else {
      SurvivorsInOrder(front, rest[..|rest| - 1], log);
      assert (front + rest)[..|front + rest| - 1] == front + rest[..|rest| - 1];
      assert rest == rest[..|rest| - 1] + [rest[|rest| - 1]];
    }
  }

  lemma HitByMore(log: seq<Identity>, i: Identity)
    ensures forall r :: HitByAny(r, log) ==> HitByAny(r, log + [i])
  {
    forall r | HitByAny(r, log)
      ensures HitByAny(r, log + [i])
    {
      var j :| 0 <= j < |log| && Matches(r.frameId, r.sessionId, log[j]);
      assert (log + [i])[j] == log[j];
    }
  }

  // -------------------------------------------------------------- the invariant

  ghost predicate AllFrom(elements: seq<Element>, original: seq<Element>) {
    forall e :: e in elements ==> e in original
  }

  ghost predicate AllEditable(elements: seq<Element>) {
    forall e :: e in elements ==> e.editable
  }

  ghost predicate SnapOk(x: Snap, t: Trail) {
    && EditableWithin(x)
    && AllFrom(x.elements, t.original)
    && (x.invalidated || x.elements == t.original)
    && (x.invalidated || CursorAt(t.original, t.served, x.nextOffset))
    && (x.invalidated || x.editable.None? ||
          (x.editable.value.elements == t.targets == Editables(t.original) && CursorAt(t.targets, t.servedTargets, x.editable.value.nextOffset)))
  }

  ghost predicate StoreOk(store: seq<Snap>, trails: map<nat, Trail>) {
    forall x :: x in store ==> x.id in trails && SnapOk(x, trails[x.id])
  }

  /** The refs minted for a snapshot end here. */
  function EndRef(t: Trail): nat {
    t.firstRef + |t.original|
  }

  /**
    Pages handed out are prefixes of what they page through, for every snapshot ever
    published, and later snapshots have later refs.
   */
  ghost predicate TrailsOk(trails: map<nat, Trail>, nextId: nat, nextRef: nat) {
    && (forall id :: id in trails ==> id < nextId && TrailOk(trails[id]) && EndRef(trails[id]) <= nextRef)
    && forall a, b :: a in trails && b in trails && a < b ==> EndRef(trails[a]) <= trails[b].firstRef
  }

  ghost predicate TrailOk(t: Trail) {
    && t.served <= t.original
    && t.servedTargets <= t.targets
    && AllFrom(t.targets, t.original) && AllEditable(t.targets)
    && t.original == Minted(Survivors(t.scanned, t.invalidated), t.firstRef)
  }

  ghost predicate FlightOk(f: Flight, s: State, log: seq<Identity>) {
    match f
    case Idle => true
    case AwaitQuery => true
    case AwaitFocus(_, _, _) => true
    case AwaitInput(_, _) => true
    case AwaitSummary(_, g, baseline) => g <= s.generation && (g == s.generation ==> EpochsSince(s, baseline, log))
    case AwaitScan(_, g, baseline) => g <= s.generation && (g == s.generation ==> EpochsSince(s, baseline, log))
    case AwaitMirror(_, g, baseline, scanned, raws) =>
      && g <= s.generation && (g == s.generation ==> EpochsSince(s, baseline, log))
      && Survivors(raws, log) == Survivors(scanned, log)
  }

  ghost predicate Inv(w: World) {
    && WellKept(w.session, w.now)
    && StoreOk(w.session.store.GetOr([]), w.trails)
    && TrailsOk(w.trails, w.nextId, w.nextRef)
    && FlightOk(w.flight, w.session, w.invalidated)
  }

  lemma StartInv()
    ensures Inv(START)
  {
  }

  /** Operations that only touch access times and drop snapshots keep the store in step with the trails. */
  lemma StoreOkAfterLookup(before: seq<Snap>, after: seq<Snap>, trails: map<nat, Trail>)
    requires StoreOk(before, trails)
    requires forall y :: y in after ==> exists x, t: Option<nat> :: x in before && y == x.(lastAccessedAt := t)
    ensures StoreOk(after, trails)
  {
    forall y | y in after
      ensures y.id in trails && SnapOk(y, trails[y.id])
    {
      var x, t: Option<nat> :| x in before && y == x.(lastAccessedAt := t);
    }
  }

  /** What a lookup leaves in the store: old snapshots, at most with a new access time. */
  ghost predicate OnlyAged(before: seq<Snap>, after: seq<Snap>) {
    forall y :: y in after ==> exists x, t: Option<nat> :: x in before && y == x.(lastAccessedAt := t)
  }

  lemma PruneOnlyAges(s: State, now: nat)
    requires WellKept(s, now)
    ensures OnlyAged(s.store.GetOr([]), Prune(OpenStore(s), now).store.value)
  {
    PruneKeeps(OpenStore(s), now);
    forall y | y in Prune(OpenStore(s), now).store.value
      ensures exists x, t: Option<nat> :: x in s.store.GetOr([]) && y == x.(lastAccessedAt := t)
    {
      assert y == y.(lastAccessedAt := y.lastAccessedAt);
    }
  }

  lemma TouchOnlyAges(before: seq<Snap>, store: seq<Snap>, i: nat, now: nat)
    requires OnlyAged(before, store) && i < |store|
    ensures OnlyAged(before, Touch(store, i, now))
  {
    forall y | y in Touch(store, i, now)
      ensures exists x, t: Option<nat> :: x in before && y == x.(lastAccessedAt := t)
    {
      var j :| 0 <= j < |store| && Touch(store, i, now)[j] == y;
      assert store[j] in store;
      var x, t: Option<nat> :| x in before && store[j] == x.(lastAccessedAt := t);
      assert y == x.(lastAccessedAt := y.lastAccessedAt);
    }
  }

  lemma GetOnlyAges(s: State, id: nat, now: nat)
    requires WellKept(s, now)
    ensures var (t, r) := GetSnapshot(s, id, now);
            && OnlyAged(s.store.GetOr([]), t.store.value)
            && t.generation == s.generation && t.epochs == s.epochs
  {
    PruneOnlyAges(s, now);
    var p := Prune(OpenStore(s), now);
    var i := Find(p.store.value, id);
    if i < |p.store.value| && Continuable(p.store.value[i], p.generation) {
      TouchOnlyAges(s.store.GetOr([]), p.store.value, i, now);
    }
  }

  lemma ResolveOnlyAges(s: State, ref: nat, now: nat)
    requires WellKept(s, now)
    ensures var (t, r) := ResolveElement(s, ref, now);
            && OnlyAged(s.store.GetOr([]), t.store.value)
            && t.generation == s.generation && t.epochs == s.epochs
  {
    PruneOnlyAges(s, now);
    var p := Prune(OpenStore(s), now);
    match Issuer(p.store.value, p.generation, ref, |p.store.value|)
    case None =>
    case Some(i) => TouchOnlyAges(s.store.GetOr([]), p.store.value, i, now);
  }

  // ------------------------------------------------------------- preservation

  lemma FrameReplacedKeepsInv(w: World, identity: Identity)
    requires Inv(w)
    ensures Inv(Step(w, FrameReplaced(identity)).0)
  {
    var w' := Step(w, FrameReplaced(identity)).0;
    FrameReplacedStore(w.session, w.trails, identity, w.now);
    FrameReplacedFlight(w.flight, w.session, w.invalidated, identity);
  }

  lemma FrameReplacedStore(s: State, trails: map<nat, Trail>, identity: Identity, now: nat)
    requires WellKept(s, now) && StoreOk(s.store.GetOr([]), trails)
    ensures var t := InvalidateFrame(s, identity);
            WellKept(t, now) && StoreOk(t.store.GetOr([]), trails) && t.generation == s.generation
  {
    hide SnapOk, Revoke, Mirror, Spared;
    var t := InvalidateFrame(s, identity);
    if s.store.Some? && Keys(identity.frameId, identity.sessionId) != [] {
      var before, after := s.store.value, t.store.value;
      forall i | 0 <= i < |before|
        ensures after[i] == Revoke(before[i], identity) && after[i].id == before[i].id
        ensures after[i].generation == before[i].generation && AccessTime(after[i]) == AccessTime(before[i])
        ensures after[i].id in trails && SnapOk(after[i], trails[after[i].id])
      {
        assert before[i] in before;
        RevokedSnapOk(before[i], trails[before[i].id], identity);
      }
      if s.latest.Some? {
        var i :| 0 <= i < |before| && before[i].id == s.latest.value;
        assert after[i].id == s.latest.value;
      }
    }
  }

  lemma RevokedSnapOk(x: Snap, t: Trail, identity: Identity)
    requires SnapOk(x, t)
    ensures var y := Revoke(x, identity);
            SnapOk(y, t) && y.id == x.id && y.generation == x.generation && AccessTime(y) == AccessTime(x)
  {
    RevokeIsExact(x, identity);
    SparedMembers(x.elements, identity);
  }

  lemma FrameReplacedFlight(f: Flight, s: State, log: seq<Identity>, identity: Identity)
    requires FlightOk(f, s, log)
    ensures FlightOk(f, InvalidateFrame(s, identity), log + [identity])
  {
    var t := InvalidateFrame(s, identity);
    var keys := Keys(identity.frameId, identity.sessionId);
    forall k
      ensures Hits(log + [identity], k) == Hits(log, k) + if k in keys then 1 else 0
      ensures Epoch(CaptureEpochs(t), k) == Epoch(CaptureEpochs(s), k) + if k in keys then 1 else 0
    {
      assert (log + [identity])[..|log|] == log;
      BumpRaisesExactly(CaptureEpochs(s), identity, k);
    }
    if f.AwaitMirror? {
      HitByMore(log, identity);
      SurvivorsTwice(f.raws, log, log + [identity]);
      SurvivorsTwice(f.scanned, log, log + [identity]);
    }
  }

  lemma NavigatedKeepsInv(w: World)
    requires Inv(w)
    ensures Inv(Step(w, MainNavigated).0)
  {
  }

  lemma FrozenStoreOk(store: seq<Snap>, trails: map<nat, Trail>)
    requires StoreOk(store, trails)
    ensures StoreOk(FreezeEach(store), trails)
  {
    forall i | 0 <= i < |store|
      ensures FreezeEach(store)[i].id in trails && SnapOk(FreezeEach(store)[i], trails[FreezeEach(store)[i].id])
    {
      assert store[i] in store;
    }
  }

  lemma FrozenWellKept(s: State, now: nat)
    requires WellKept(s, now)
    ensures WellKept(BrowserState.InvalidateObservations(s), now)
  {
    if s.store.Some? && s.latest.Some? {
      var i :| 0 <= i < |s.store.value| && s.store.value[i].id == s.latest.value;
      assert FreezeEach(s.store.value)[i].id == s.latest.value;
    }
  }

  lemma MutatedKeepsInv(w: World)
    requires Inv(w)
    ensures Inv(Step(w, ActionMutated).0)
  {
    hide StoreOk, WellKept, TrailsOk;
    FrozenStoreOk(w.session.store.GetOr([]), w.trails);
    FrozenWellKept(w.session, w.now);
  }

  lemma RefUsedKeepsInv(w: World, ref: nat)
    requires Inv(w)
    ensures Inv(Step(w, RefUsed(ref)).0)
  {
    RefResolution(w.session, ref, w.now);
    ResolveOnlyAges(w.session, ref, w.now);
    StoreOkAfterLookup(w.session.store.GetOr([]), ResolveElement(w.session, ref, w.now).0.store.value, w.trails);
  }

  /** Replacing one stored snapshot by one with the same identity and age keeps the store well kept. */
  lemma ReplaceKeeps(s: State, i: nat, y: Snap, now: nat)
    requires WellKept(s, now) && s.store.Some? && i < |s.store.value|
    requires y.id == s.store.value[i].id && y.generation == s.store.value[i].generation
    requires y.lastAccessedAt == s.store.value[i].lastAccessedAt && y.createdAt == s.store.value[i].createdAt
    ensures WellKept(s.(store := Some(s.store.value[i := y])), now)
  {
    if s.latest.Some? {
      var j :| 0 <= j < |s.store.value| && s.store.value[j].id == s.latest.value;
      assert s.store.value[i := y][j].id == s.latest.value;
    }
  }

  /** One snapshot and its own trail move on together; every other snapshot has another id. */
  lemma ReplaceStoreOk(store: seq<Snap>, trails: map<nat, Trail>, i: nat, y: Snap, t: Trail)
    requires DistinctIds(store) && StoreOk(store, trails) && i < |store|
    requires y.id == store[i].id && SnapOk(y, t)
    ensures StoreOk(store[i := y], trails[y.id := t])
  {
    forall x | x in store[i := y]
      ensures x.id in trails[y.id := t] && SnapOk(x, trails[y.id := t][x.id])
    {
      var j :| 0 <= j < |store| && store[i := y][j] == x;
      if j != i {
        assert x in store && x.id != y.id;
      }
    }
  }

  /** After a lookup, one stored snapshot and its trail move on together. */
  lemma MoveOnKeepsInv(w: World, s: State, i: nat, y: Snap, t: Trail)
    requires Inv(w) && w.flight == Idle
    requires WellKept(s, w.now) && s.store.Some? && StoreOk(s.store.value, w.trails) && i < |s.store.value|
    requires y.id == s.store.value[i].id && y.generation == s.store.value[i].generation
    requires y.lastAccessedAt == s.store.value[i].lastAccessedAt && y.createdAt == s.store.value[i].createdAt
    requires y.id in w.trails && SnapOk(y, t) && TrailOk(t)
    requires t.original == w.trails[y.id].original && t.firstRef == w.trails[y.id].firstRef
    ensures Inv(w.(session := s.(store := Some(s.store.value[i := y])), trails := w.trails[y.id := t]))
  {
    hide WellKept, SnapOk, StoreOk;
    assert DistinctIds(s.store.value) by {
      KeptIsDistinct(s, w.now);
    }
    ReplaceKeeps(s, i, y, w.now);
    ReplaceStoreOk(s.store.value, w.trails, i, y, t);
  }

  lemma KeptIsDistinct(s: State, now: nat)
    requires WellKept(s, now) && s.store.Some?
    ensures DistinctIds(s.store.value)
  {
  }

  lemma LookedUp(w: World, id: nat)
    requires Inv(w)
    ensures var (s, found) := GetSnapshot(w.session, id, w.now);
            && WellKept(s, w.now) && StoreOk(s.store.value, w.trails)
            && s.generation == w.session.generation && s.epochs == w.session.epochs
            && (found.Some? ==>
                  var x := s.store.value[found.value];
                  x in s.store.value && x.id == id && !x.invalidated && id in w.trails && SnapOk(x, w.trails[id]))
  {
    ContinuationLookup(w.session, id, w.now);
    GetOnlyAges(w.session, id, w.now);
    var (s, found) := GetSnapshot(w.session, id, w.now);
    StoreOkAfterLookup(w.session.store.GetOr([]), s.store.value, w.trails);
    if found.Some? {
      assert s.store.value[found.value] in s.store.value;
    }
  }

  lemma DroppedKeepsInv(w: World)
    requires Inv(w)
    ensures Inv(Dropped(w))
  {
    hide StoreOk, TrailsOk;
  }

  lemma TypingKeepsInv(w: World, ev: Event)
    requires Inv(w) && (ev.TypeBegin? || ev.TypeObserve? || ev.TypeDone? || ev.OtherAction?)
    ensures Inv(Step(w, ev).0)
  {
    hide StoreOk, TrailsOk, WellKept, ResolveElement, FreezeEach;
    match ev
    case TypeBegin(ref) =>
      DroppedKeepsInv(w);
      RefUsedKeepsInv(Dropped(w), ref);
    case TypeObserve =>
      if w.flight.AwaitFocus? {
        RefUsedKeepsInv(w, w.flight.ref);
      }
    case TypeDone =>
      if w.flight.AwaitInput? {
        MutatedKeepsInv(w);
        KeyboardIsIndependent(InvalidateObservations(w.session), w.now, Some(w.flight.target));
      }
    case OtherAction => DroppedKeepsInv(w);
  }

  lemma KeyboardIsIndependent(s: State, now: nat, keyboard: Option<KeyboardTarget>)
    requires WellKept(s, now)
    ensures WellKept(s.(keyboard := keyboard), now)
  {
  }

  /** A looked-up continuation page extends its own trail and nothing else. */
  lemma ContinueInspectKeepsInv(w: World, ev: Event)
    requires Inv(w) && ev.ContinueInspect?
    ensures Inv(Step(w, ev).0)
  {
    hide WellKept, StoreOk, TrailsOk, GetSnapshot, Editables, TakePage;
    if w.flight == Idle {
      var d := Dropped(w);
      DroppedKeepsInv(w);
      LookedUp(d, ev.id);
      var (s, found) := GetSnapshot(d.session, ev.id, w.now);
      if found.Some? {
        var x, t := s.store.value[found.value], w.trails[ev.id];
        var limit := PageLimit(Some(ev.limit));
        var r := ContinuePage(x, ev.offset, limit, ev.e, ev.tree);
        if r.Ok? {
          var (y, page) := r.value;
          TrailsAreOk(w.trails, w.nextId, w.nextRef, ev.id);
          PageContinuesPrefix(x, t.served, ev.offset, limit, ev.e, ev.tree);
          CursorIsPrefix(x.elements, t.served + page, y.nextOffset);
          MoveOnKeepsInv(d, s, found.value, y, t.(served := t.served + page));
        }
      }
    }
  }

  lemma CursorIsPrefix(elements: seq<Element>, served: seq<Element>, next: Option<nat>)
    requires CursorAt(elements, served, next)
    ensures served <= elements
  {
  }

  lemma ContinueQueryKeepsInv(w: World, ev: Event)
    requires Inv(w) && ev.ContinueQuery?
    ensures Inv(Step(w, ev).0)
  {
    hide WellKept, StoreOk, TrailsOk, GetSnapshot, Editables, TakeEditable;
    if w.flight == Idle {
      var d := Dropped(w);
      DroppedKeepsInv(w);
      LookedUp(d, ev.id);
      var (s, found) := GetSnapshot(d.session, ev.id, w.now);
      if found.Some? {
        var x, t := s.store.value[found.value], w.trails[ev.id];
        var limit := PageLimit(Some(ev.limit));
        var r := ContinueEditable(x, ev.offset, limit);
        if r.Ok? {
          var (y, page) := r.value;
          TrailsAreOk(w.trails, w.nextId, w.nextRef, ev.id);
          EditableContinuesPrefix(x, x.editable.value, t.servedTargets, ev.offset, limit);
          CursorIsPrefix(t.targets, t.servedTargets + page, y.editable.value.nextOffset);
          MoveOnKeepsInv(d, s, found.value, y, t.(servedTargets := t.servedTargets + page));
        }
      }
    }
  }

  lemma StoredIsOk(store: seq<Snap>, trails: map<nat, Trail>, i: nat)
    requires StoreOk(store, trails) && i < |store|
    ensures store[i].id in trails && SnapOk(store[i], trails[store[i].id])
  {
    assert store[i] in store;
  }

  lemma TrailsAreOk(trails: map<nat, Trail>, nextId: nat, nextRef: nat, id: nat)
    requires TrailsOk(trails, nextId, nextRef) && id in trails
    ensures TrailOk(trails[id])
  {
  }

  lemma LatestHasStore(s: State, now: nat)
    requires WellKept(s, now) && s.latest.Some?
    ensures s.store.Some?
  {
  }

  lemma QueryResumedKeepsInv(w: World, limit: nat)
    requires Inv(w)
    ensures Inv(Step(w, QueryResumed(limit)).0)
  {
    hide StoreOk, SnapOk, TrailOk, WellKept, TakeEditable, Editables;
    if w.flight.AwaitQuery? && w.session.latest.Some? {
      var id, store := w.session.latest.value, w.session.store.GetOr([]);
      var i := Find(store, id);
      if i < |store| && id in w.trails {
        var x, t := store[i], w.trails[id];
        StoredIsOk(store, w.trails, i);
        TrailsAreOk(w.trails, w.nextId, w.nextRef, id);
        LatestHasStore(w.session, w.now);
        var q := EditableQuery(Editables(x.elements), Some(0));
        var (y, page) := TakeEditable(x.(editable := Some(q)), q, 0, PageLimit(Some(limit)));
        FirstTargetsOk(x, t, PageLimit(Some(limit)));
        ReplaceKeeps(w.session, i, y, w.now);
        KeptIsDistinct(w.session, w.now);
        ReplaceStoreOk(store, w.trails, i, y, t.(targets := q.elements, servedTargets := page));
      }
    }
  }

  /** A query lists the editable elements and takes its first page; snapshot and trail stay in step. */
  lemma FirstTargetsOk(x: Snap, t: Trail, limit: nat)
    requires SnapOk(x, t) && TrailOk(t) && limit >= 1
    ensures var q := EditableQuery(Editables(x.elements), Some(0));
            var (y, page) := TakeEditable(x.(editable := Some(q)), q, 0, limit);
            && y == x.(editable := y.editable)
            && SnapOk(y, t.(targets := q.elements, servedTargets := page))
            && TrailOk(t.(targets := q.elements, servedTargets := page))
  {
    hide Editables, TakeEditable;
    var q := EditableQuery(Editables(x.elements), Some(0));
    var listed := x.(editable := Some(q));
    var (y, page) := TakeEditable(listed, q, 0, limit);
    assert q.elements[..0] == [] && [] + page == page;
    EditableContinuesPrefix(listed, q, [], 0, limit);
    CursorIsPrefix(q.elements, page, y.editable.value.nextOffset);
    EditablesMembers(x.elements);
  }

  /**
    A published snapshot lists exactly the scanned elements that no frame
    invalidation since the capture matches, in scan order, under fresh refs.
   */
  lemma PublishIsExact(w: World, frameRefs: map<string, nat>)
    requires Inv(w) && w.flight.AwaitMirror? && w.session.generation == w.flight.generation
    ensures NewSnap(w, frameRefs).elements == Minted(Survivors(w.flight.scanned, w.invalidated), w.nextRef)
  {
    CurrentIsSurvivors(w.flight.raws, w.session, w.flight.baseline, w.invalidated);
  }

  /** After storing a fresh snapshot the store lists it last and agrees with the extended trails. */
  lemma StoredOk(w: World, x: Snap, t: Trail)
    requires Inv(w) && x.id == w.nextId && x.generation == w.session.generation && !x.invalidated
    requires SnapOk(x, t)
    ensures var s := StoreSnapshot(w.session, x, w.now);
            && WellKept(s, w.now) && s.generation == w.session.generation && s.epochs == w.session.epochs
            && s.store.Some? && s.store.value != []
            && s.store.value[|s.store.value| - 1] == x.(lastAccessedAt := Some(w.now))
            && StoreOk(s.store.value, w.trails[x.id := t])
  {
    hide WellKept, StoreSnapshot, SnapOk, TrailsOk, FlightOk, Expired, AccessTime;
    NextIdIsNew(w);
    StorePolicy(w.session, x, w.now);
    StoringKeepsTheRest(w.session, x, w.now);
    KeptIsDistinct(StoreSnapshot(w.session, x, w.now), w.now);
    AgedSnapOk(x, t, Some(w.now));
    var kept := StoreSnapshot(w.session, x, w.now).store.value;
    forall y | y in kept
      ensures y.id in w.trails[x.id := t] && SnapOk(y, w.trails[x.id := t][y.id])
    {
      if y.id == x.id {
        OnlyLastHasItsId(kept, y);
      } else {
        assert y in w.session.store.GetOr([]);
      }
    }
  }

  lemma NextIdIsNew(w: World)
    requires Inv(w)
    ensures w.nextId !in w.trails
    ensures w.session.store.Some? ==> !Has(w.session.store.value, w.nextId)
  {
    hide WellKept, SnapOk, TrailOk, FlightOk;
    var store := w.session.store.GetOr([]);
    forall i | 0 <= i < |store|
      ensures store[i].id != w.nextId
    {
      assert store[i] in store;
    }
  }

  lemma StoringKeepsTheRest(s: State, x: Snap, now: nat)
    ensures var t := StoreSnapshot(s, x, now); t.store.Some? && t.generation == s.generation && t.epochs == s.epochs
  {
    hide Evict, Live, Refresh;
  }

  lemma OnlyLastHasItsId(store: seq<Snap>, y: Snap)
    requires DistinctIds(store) && y in store && y.id == store[|store| - 1].id
    ensures y == store[|store| - 1]
  {
    var i :| 0 <= i < |store| && store[i] == y;
    assert i == |store| - 1;
  }

  lemma AgedSnapOk(x: Snap, t: Trail, at: Option<nat>)
    requires SnapOk(x, t)
    ensures SnapOk(x.(lastAccessedAt := at), t)
  {
  }

  lemma PutLast(store: seq<Snap>, y: Snap)
    requires store != [] && DistinctIds(store) && store[|store| - 1].id == y.id
    ensures Put(store, y) == store[|store| - 1 := y]
  {
    assert Has(store, y.id);
    var i := Find(store, y.id);
  }

  lemma TrailsOkExtends(trails: map<nat, Trail>, nextId: nat, nextRef: nat, t: Trail)
    requires TrailsOk(trails, nextId, nextRef) && TrailOk(t) && t.firstRef == nextRef
    ensures TrailsOk(trails[nextId := t], nextId + 1, nextRef + |t.original|)
  {
  }

  lemma MirrorIsIndependent(s: State, now: nat, mirror: map<nat, Element>)
    requires WellKept(s, now)
    ensures WellKept(s.(mirror := mirror), now)
  {
  }

  lemma FreshSnapOk(x: Snap, t: Trail)
    requires t.original == x.elements && t.served == [] && x.nextOffset == Some(0) && x.editable == None && !x.invalidated
    ensures SnapOk(x, t)
  {
  }

  lemma PublishKeepsInv(w: World, ev: Event)
    requires Inv(w) && ev.MirrorDone?
    ensures Inv(Step(w, ev).0)
  {
    hide WellKept, StoreOk, TrailsOk, SnapOk, TakePage, StoreSnapshot, Current, Survivors, Put, Mirror;
    if w.flight.AwaitMirror? && w.session.generation == w.flight.generation {
      var x := NewSnap(w, ev.frameRefs);
      PublishIsExact(w, ev.frameRefs);
      var t := Trail(x.elements, [], [], [], w.flight.scanned, w.invalidated, w.nextRef);
      FreshSnapOk(x, t);
      StoredOk(w, x, t);
      TrailsOkExtends(w.trails, w.nextId, w.nextRef, t);
      var s := StoreSnapshot(w.session, x, w.now);
      MirrorIsIndependent(s, w.now, Mirror(x.elements));
      var m := s.(mirror := Mirror(x.elements));
      var published := w.(session := m, nextId := w.nextId + 1, nextRef := w.nextRef + |x.elements|,
                          trails := w.trails[x.id := t], flight := Idle);
      assert Inv(published);
      FirstPageKeepsInv(published, x.(lastAccessedAt := Some(w.now)), t, ev, x.kind);
    } else if w.flight.AwaitMirror? {
      MirrorIsIndependent(w.session, w.now, map[]);
    }
  }

  lemma FirstPageKeepsInv(p: World, x: Snap, t: Trail, ev: Event, kind: Kind)
    requires Inv(p) && p.flight == Idle && ev.MirrorDone? && p.session.store.Some?
    requires var store := p.session.store.value; store != [] && store[|store| - 1] == x
    requires x.id in p.trails && p.trails[x.id] == t && x.nextOffset == Some(0) && !x.invalidated && t.served == []
    ensures var r := TakePage(x, 0, if kind == Inspect then PageLimit(Some(ev.limit)) else 1, ev.e, ev.tree);
            r.Ok? ==>
              Inv(p.(session := p.session.(store := Some(Put(p.session.store.GetOr([]), r.value.0))),
                     trails := p.trails[x.id := t.(served := r.value.1)],
                     flight := if kind == QueryEditable then AwaitQuery else Idle))
  {
    hide WellKept, StoreOk, Put;
    var store := p.session.store.value;
    var limit := if kind == Inspect then PageLimit(Some(ev.limit)) else 1;
    var r := TakePage(x, 0, limit, ev.e, ev.tree);
    if r.Ok? {
      var (y, page) := r.value;
      assert SnapOk(x, t) by {
        LastIsOk(store, p.trails, x);
      }
      PageContinuesPrefix(x, t.served, 0, limit, ev.e, ev.tree);
      assert t.served + page == page;
      CursorIsPrefix(x.elements, page, y.nextOffset);
      KeptIsDistinct(p.session, p.now);
      PutLast(store, y);
      MoveOnKeepsInv(p, p.session, |store| - 1, y, t.(served := page));
    }
  }

  lemma LastIsOk(store: seq<Snap>, trails: map<nat, Trail>, x: Snap)
    requires StoreOk(store, trails) && store != [] && store[|store| - 1] == x && x.id in trails
    ensures SnapOk(x, trails[x.id])
  {
  }

  lemma ScanKeepsInv(w: World, ev: Event)
    requires Inv(w) && (ev.Begin? || ev.SummaryRead? || ev.ScanDone? || ev.AwaitFailed? || ev.Tick?)
    ensures Inv(Step(w, ev).0)
  {
    hide StoreOk;
    if ev.Begin? && w.flight == Idle {
      forall k
        ensures Hits([], k) == 0
      {
      }
    }
    if ev.ScanDone? && w.flight.AwaitScan? && w.session.generation == w.flight.generation {
      CurrentIsSurvivors(ev.scanned, w.session, w.flight.baseline, w.invalidated);
      SurvivorsTwice(ev.scanned, w.invalidated, w.invalidated);
    }
  }

  lemma StepKeepsInv(w: World, ev: Event)
    requires Inv(w)
    ensures Inv(Step(w, ev).0)
  {
    hide Inv, Step;
    match ev
    case FrameReplaced(identity) => FrameReplacedKeepsInv(w, identity);
    case MainNavigated => NavigatedKeepsInv(w);
    case ActionMutated => MutatedKeepsInv(w);
    case RefUsed(ref) => RefUsedKeepsInv(w, ref);
    case MirrorDone(_, _, _, _) => PublishKeepsInv(w, ev);
    case QueryResumed(limit) => QueryResumedKeepsInv(w, limit);
    case ContinueInspect(_, _, _, _, _) => ContinueInspectKeepsInv(w, ev);
    case ContinueQuery(_, _, _) => ContinueQueryKeepsInv(w, ev);
    case TypeBegin(_) => TypingKeepsInv(w, ev);
    case TypeObserve => TypingKeepsInv(w, ev);
    case TypeDone => TypingKeepsInv(w, ev);
    case OtherAction => TypingKeepsInv(w, ev);
    case _ => ScanKeepsInv(w, ev);
  }

  lemma {:induction false} RunKeepsInv(events: seq<Event>)
    ensures Inv(Run(START, events))
  {
    if events == [] {
      StartInv();
    } else {
      RunKeepsInv(events[..|events| - 1]);
      StepKeepsInv(Run(START, events[..|events| - 1]), events[|events| - 1]);
    }
  }
}
