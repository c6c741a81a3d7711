/**
  Browser observation state: retained snapshots, frame epochs, invalidation
  (packages/browser-core/src/browser-state.ts).

  `State` and its functions are the specification. `BrowserSession` is the mutable
  session: an insertion-ordered store of mutable snapshots that the latest-snapshot
  field and the callers alias. Snapshot ids and refs are fresh numbers.
 */
module BrowserState {
  import opened Wrappers

  const MAX_RETAINED: nat := 3
  const TTL_MS: int := 5 * 60 * 1000

  /** An empty frame or session id means the element has none. */
  datatype Element = Element(ref: nat, frameId: string, sessionId: string, editable: bool, bytes: nat)

  datatype Identity = Identity(frameId: string, sessionId: string)

  datatype FrameKey = FrameKey(frameId: string) | SessionKey(sessionId: string)

  datatype Kind = Inspect | QueryEditable | Semantic

  datatype EditableQuery = EditableQuery(elements: seq<Element>, nextOffset: Option<nat>)

  datatype Snap = Snap(
    id: nat,
    generation: nat,
    createdAt: nat,
    lastAccessedAt: Option<nat>,
    kind: Kind,
    elements: seq<Element>,
    nextOffset: Option<nat>,
    invalidated: bool,
    frameRefs: map<string, nat>,
    editable: Option<EditableQuery>)

  datatype KeyboardTarget = KeyboardTarget(ref: nat, frameId: string, sessionId: string)

  datatype State = State(
    generation: nat,
    epochs: Option<map<FrameKey, nat>>,
    store: Option<seq<Snap>>,
    latest: Option<nat>,
    authority: bool,
    mirror: map<nat, Element>,
    keyboard: Option<KeyboardTarget>)

  const INITIAL: State := State(0, None, None, None, false, map[], None)

  // ------------------------------------------------------------------ identities

  function Keys(frameId: string, sessionId: string): seq<FrameKey> {
    (if frameId != "" then [FrameKey(frameId)] else []) + (if sessionId != "" then [SessionKey(sessionId)] else [])
  }

  predicate Matches(frameId: string, sessionId: string, identity: Identity) {
    (identity.frameId != "" && frameId == identity.frameId) || (identity.sessionId != "" && sessionId == identity.sessionId)
  }

  /** An element is hit by an invalidation exactly when they share a key. */
  lemma MatchesIsSharedKey(frameId: string, sessionId: string, identity: Identity)
    ensures Matches(frameId, sessionId, identity)
       <==> exists k :: k in Keys(frameId, sessionId) && k in Keys(identity.frameId, identity.sessionId)
  {
    if Matches(frameId, sessionId, identity) {
      if identity.frameId != "" && frameId == identity.frameId {
        assert FrameKey(frameId) in Keys(frameId, sessionId);
      } else {
        assert SessionKey(sessionId) in Keys(frameId, sessionId);
      }
    }
  }

  /** The elements an invalidation spares, in order. */
  function Spared(elements: seq<Element>, identity: Identity): seq<Element> {
    if elements == [] then []
    else
      var rest := Spared(elements[..|elements| - 1], identity);
      var last := elements[|elements| - 1];
      if Matches(last.frameId, last.sessionId, identity) then rest else rest + [last]
  }

  lemma {:induction false} SparedMembers(elements: seq<Element>, identity: Identity)
    ensures forall e :: e in Spared(elements, identity) <==> e in elements && !Matches(e.frameId, e.sessionId, identity)
    ensures |Spared(elements, identity)| <= |elements|
    ensures |Spared(elements, identity)| == |elements| ==> Spared(elements, identity) == elements
  {
    if elements != [] {
      SparedMembers(elements[..|elements| - 1], identity);
      assert elements == elements[..|elements| - 1] + [elements[|elements| - 1]];
    }
  }

  /** And they stay in order. */
  lemma {:induction false} SparedInOrder(front: seq<Element>, rest: seq<Element>, identity: Identity)
    ensures Spared(front + rest, identity) == Spared(front, identity) + Spared(rest, identity)
    decreases |rest|
  {
    if rest == [] {
      assert front + rest == front;
    } else {
      SparedInOrder(front, rest[..|rest| - 1], identity);
      assert (front + rest)[..|front + rest| - 1] == front + rest[..|rest| - 1];
    }
  }

  // ---------------------------------------------------------------------- epochs

  function Epoch(epochs: map<FrameKey, nat>, k: FrameKey): nat {
    if k in epochs then epochs[k] else 0
  }

  function Bump(epochs: map<FrameKey, nat>, keys: seq<FrameKey>): map<FrameKey, nat>
    decreases |keys|
  {
    if keys == [] then epochs
    else Bump(epochs[keys[0] := Epoch(epochs, keys[0]) + 1], keys[1..])
  }

  lemma BumpRaisesExactly(epochs: map<FrameKey, nat>, identity: Identity, k: FrameKey)
    ensures Epoch(Bump(epochs, Keys(identity.frameId, identity.sessionId)), k)
         == Epoch(epochs, k) + if k in Keys(identity.frameId, identity.sessionId) then 1 else 0
  {
    var keys := Keys(identity.frameId, identity.sessionId);
    if identity.frameId != "" && identity.sessionId != "" {
      var f, t := FrameKey(identity.frameId), SessionKey(identity.sessionId);
      assert keys[1..] == [t] && [t][1..] == [];
      var once := epochs[f := Epoch(epochs, f) + 1];
      assert Bump(epochs, keys) == Bump(once, [t]) == Bump(once[t := Epoch(once, t) + 1], []);
    } else if keys != [] {
      assert keys[1..] == [];
    }
  }

  function CaptureEpochs(s: State): map<FrameKey, nat> {
    s.epochs.GetOr(map[])
  }

  /** Whether none of the frame's keys has been bumped since the baseline was captured. */
  predicate FrameIsCurrent(s: State, baseline: map<FrameKey, nat>, frameId: string, sessionId: string) {
    s.epochs.None? || forall k :: k in Keys(frameId, sessionId) ==> Epoch(s.epochs.value, k) == Epoch(baseline, k)
  }

  // ------------------------------------------------------------------- the store

  function AccessTime(x: Snap): nat {
    x.lastAccessedAt.GetOr(x.createdAt)
  }

  predicate Expired(x: Snap, generation: nat, now: nat) {
    x.generation != generation || AccessTime(x) < now - TTL_MS
  }

  /** The snapshots that are still of the current generation and young enough. */
  function Live(store: seq<Snap>, generation: nat, now: nat): seq<Snap> {
    if store == [] then []
    else
      var rest := Live(store[..|store| - 1], generation, now);
      var last := store[|store| - 1];
      if Expired(last, generation, now) then rest else rest + [last]
  }

  predicate Has(store: seq<Snap>, id: nat) {
    exists i :: 0 <= i < |store| && store[i].id == id
  }

  /** The position of an id; |store| when it is not there. */
  function Find(store: seq<Snap>, id: nat): (i: nat)
    ensures i <= |store|
    ensures i < |store| ==> store[i].id == id
    ensures i == |store| <==> !Has(store, id)
  {
    if store == [] then 0
    else if store[0].id == id then 0
    else
      assert Has(store, id) ==> Has(store[1..], id) by {
        if Has(store, id) {
          var i :| 0 <= i < |store| && store[i].id == id;
          assert store[1..][i - 1] == store[i];
        }
      }
      1 + Find(store[1..], id)
  }

  function LastOf(store: seq<Snap>): Option<nat> {
    if store == [] then None else Some(store[|store| - 1].id)
  }

  /** Keep the latest snapshot when it is in the store, else fall back to the newest stored one. */
  function Refresh(latest: Option<nat>, store: seq<Snap>): Option<nat> {
    if latest.Some? && Has(store, latest.value) then latest else LastOf(store)
  }

  /** The store, created on first use. */
  function OpenStore(s: State): (t: State)
    ensures t.store.Some?
  {
    s.(store := Some(s.store.GetOr([])))
  }

  function Prune(s: State, now: nat): (t: State)
    requires s.store.Some?
    ensures t.store.Some?
  {
    var store := Live(s.store.value, s.generation, now);
    s.(store := Some(store), latest := Refresh(s.latest, store))
  }

  /** The first snapshot with the smallest access time. */
  function Oldest(store: seq<Snap>): (i: nat)
    requires store != []
    ensures i < |store|
    ensures forall j :: 0 <= j < |store| ==> AccessTime(store[i]) <= AccessTime(store[j])
    ensures forall j :: 0 <= j < i ==> AccessTime(store[i]) < AccessTime(store[j])
  {
    if |store| == 1 then 0
    else
      var i := Oldest(store[..|store| - 1]);
      if AccessTime(store[|store| - 1]) < AccessTime(store[i]) then |store| - 1 else i
  }

  function Without(store: seq<Snap>, i: nat): seq<Snap>
    requires i < |store|
  {
    store[..i] + store[i + 1..]
  }

  function Evict(store: seq<Snap>): (r: seq<Snap>)
    ensures |r| <= MAX_RETAINED
    decreases |store|
  {
    if |store| <= MAX_RETAINED then store else Evict(Without(store, Oldest(store)))
  }

  function Put(store: seq<Snap>, x: Snap): seq<Snap> {
    var i := Find(store, x.id);
    if i < |store| then store[i := x] else store + [x]
  }

  function StoreSnapshot(s: State, x: Snap, now: nat): State {
    var t := Prune(OpenStore(s.(authority := true)), now);
    var store := Evict(Put(t.store.value, x.(lastAccessedAt := Some(now))));
    t.(store := Some(store), latest := Refresh(Some(x.id), store))
  }

  lemma StoreOfFresh(s: State, x: Snap, now: nat)
    requires !Has(Prune(OpenStore(s.(authority := true)), now).store.value, x.id)
    ensures var t := Prune(OpenStore(s.(authority := true)), now);
            var kept := Evict(t.store.value + [x.(lastAccessedAt := Some(now))]);
            StoreSnapshot(s, x, now) == t.(store := Some(kept), latest := Refresh(Some(x.id), kept))
  {
  }

  function Touch(store: seq<Snap>, i: nat, now: nat): seq<Snap>
    requires i < |store|
  {
    store[i := store[i].(lastAccessedAt := Some(now))]
  }

  /** A snapshot that may still be paged through. */
  predicate Continuable(x: Snap, generation: nat) {
    x.generation == generation && !x.invalidated
  }

  /** Look a snapshot up for a continuation; the position in the resulting store, when there is one. */
  function GetSnapshot(s: State, id: nat, now: nat): (r: (State, Option<nat>))
    ensures r.0.store.Some?
    ensures r.1.Some? ==> r.1.value < |r.0.store.value| && r.0.store.value[r.1.value].id == id
  {
    var t := Prune(OpenStore(s), now);
    var i := Find(t.store.value, id);
    if i < |t.store.value| && Continuable(t.store.value[i], t.generation)
    then (t.(store := Some(Touch(t.store.value, i, now))), Some(i))
    else (t, None)
  }

  predicate Lists(elements: seq<Element>, ref: nat) {
    exists i :: 0 <= i < |elements| && elements[i].ref == ref
  }

  function FirstWithRef(elements: seq<Element>, ref: nat): (e: Element)
    requires Lists(elements, ref)
    ensures e in elements && e.ref == ref
  {
    if elements[0].ref == ref then elements[0]
    else
      assert Lists(elements[1..], ref) by {
        var i :| 0 <= i < |elements| && elements[i].ref == ref;
        assert elements[1..][i - 1].ref == ref;
      }
      FirstWithRef(elements[1..], ref)
  }

  /** The newest of the first n stored snapshots that is current and lists the ref. */
  function Issuer(store: seq<Snap>, generation: nat, ref: nat, n: nat): (r: Option<nat>)
    requires n <= |store|
    ensures r.Some? ==> r.value < n && store[r.value].generation == generation && Lists(store[r.value].elements, ref)
    ensures forall j :: (if r.Some? then r.value + 1 else 0) <= j < n ==> !(store[j].generation == generation && Lists(store[j].elements, ref))
  {
    if n == 0 then None
    else if store[n - 1].generation == generation && Lists(store[n - 1].elements, ref) then Some(n - 1)
    else Issuer(store, generation, ref, n - 1)
  }

  function ResolveElement(s: State, ref: nat, now: nat): (r: (State, Option<nat>))
    ensures r.0.store.Some?
    ensures r.1.Some? ==> r.1.value < |r.0.store.value| && Lists(r.0.store.value[r.1.value].elements, ref)
  {
    var t := Prune(OpenStore(s), now);
    match Issuer(t.store.value, t.generation, ref, |t.store.value|)
    case Some(i) => (t.(store := Some(Touch(t.store.value, i, now))), Some(i))
    case None => (t, None)
  }

  // ---------------------------------------------------------------- invalidation

  function Clear(s: State): State {
    s.(store := if s.store.Some? then Some([]) else None, latest := None)
  }

  /** Main-document navigation: everything observed before it is gone. */
  function Navigate(s: State): State {
    Clear(s).(generation := s.generation + 1, epochs := if s.epochs.Some? then Some(map[]) else None, mirror := map[], keyboard := None)
  }

  function Revoke(x: Snap, identity: Identity): Snap {
    var retained := Spared(x.elements, identity);
    if |retained| == |x.elements| then x
    else
      x.(elements := retained,
         invalidated := true,
         frameRefs := if identity.frameId != "" then x.frameRefs - {identity.frameId} else x.frameRefs,
         editable := if x.editable.Some?
                     then Some(x.editable.value.(elements := Spared(x.editable.value.elements, identity)))
                     else None)
  }

  function RevokeEach(store: seq<Snap>, identity: Identity): (r: seq<Snap>)
    ensures |r| == |store| && forall i :: 0 <= i < |store| ==> r[i] == Revoke(store[i], identity)
  {
    seq(|store|, i requires 0 <= i < |store| => Revoke(store[i], identity))
  }

  function FreezeEach(store: seq<Snap>): (r: seq<Snap>)
    ensures |r| == |store| && forall i :: 0 <= i < |store| ==> r[i] == store[i].(invalidated := true)
  {
    seq(|store|, i requires 0 <= i < |store| => store[i].(invalidated := true))
  }

  /** The elements of the latest snapshot. */
  function LatestElements(s: State): seq<Element> {
    match s.latest
    case None => []
    case Some(id) =>
      var store := s.store.GetOr([]);
      var i := Find(store, id);
      if i < |store| then store[i].elements else []
  }

  function Mirror(elements: seq<Element>): map<nat, Element> {
    if elements == [] then map[]
    else Mirror(elements[..|elements| - 1])[elements[|elements| - 1].ref := elements[|elements| - 1]]
  }

  lemma {:induction false} MirrorMembers(elements: seq<Element>)
    ensures forall r :: r in Mirror(elements) ==> Mirror(elements)[r] in elements && Mirror(elements)[r].ref == r
    ensures forall e :: e in elements ==> e.ref in Mirror(elements)
  {
    if elements != [] {
      MirrorMembers(elements[..|elements| - 1]);
      assert elements == elements[..|elements| - 1] + [elements[|elements| - 1]];
    }
  }

  /** Everything a frame invalidation does except refreshing the mirror. */
  function RevokeFrame(s: State, identity: Identity): State {
    s.(epochs := Some(Bump(s.epochs.GetOr(map[]), Keys(identity.frameId, identity.sessionId))),
       store := if s.store.Some? then Some(RevokeEach(s.store.value, identity)) else None,
       keyboard := if s.keyboard.Some? && Matches(s.keyboard.value.frameId, s.keyboard.value.sessionId, identity)
                   then None else s.keyboard)
  }

  /** A child document was replaced: revoke the refs its frame and session own, nothing else. */
  function InvalidateFrame(s: State, identity: Identity): State {
    if Keys(identity.frameId, identity.sessionId) == [] then s
    else
      var t := RevokeFrame(s, identity);
      t.(mirror := Mirror(LatestElements(t)))
  }

  /** A mutating action: every retained snapshot may still be acted on but not paged through. */
  function InvalidateObservations(s: State): State {
    match s.store
    case None => s
    case Some(store) => s.(store := Some(FreezeEach(store)))
  }

  // --------------------------------------------------------------- store policy

  ghost predicate DistinctIds(store: seq<Snap>) {
    forall i, j :: 0 <= i < j < |store| ==> store[i].id != store[j].id
  }

  /** What every session satisfies at a time no earlier than its last operation. */
  ghost predicate WellKept(s: State, now: nat) {
    && (s.latest.Some? ==> s.store.Some? && Has(s.store.value, s.latest.value))
    && (s.store.Some? ==>
          && |s.store.value| <= MAX_RETAINED
          && DistinctIds(s.store.value)
          && (forall i :: 0 <= i < |s.store.value| ==>
                s.store.value[i].generation <= s.generation && AccessTime(s.store.value[i]) <= now))
  }

  lemma {:induction false} LiveMembers(store: seq<Snap>, generation: nat, now: nat)
    ensures forall x :: x in Live(store, generation, now) <==> x in store && !Expired(x, generation, now)
    ensures |Live(store, generation, now)| <= |store|
  {
    if store != [] {
      LiveMembers(store[..|store| - 1], generation, now);
      assert store == store[..|store| - 1] + [store[|store| - 1]];
    }
  }

  lemma {:induction false} LiveDistinct(store: seq<Snap>, generation: nat, now: nat)
    requires DistinctIds(store)
    ensures DistinctIds(Live(store, generation, now))
  {
    if store != [] {
      var init := store[..|store| - 1];
      LiveDistinct(init, generation, now);
      LiveMembers(init, generation, now);
      var rest := Live(init, generation, now);
      forall i | 0 <= i < |rest|
        ensures rest[i].id != store[|store| - 1].id
      {
        assert rest[i] in init;
      }
    }
  }

  lemma WithoutKeepsRest(store: seq<Snap>, i: nat)
    requires i < |store| - 1 && DistinctIds(store)
    ensures var rest := Without(store, i);
            && |rest| == |store| - 1 && rest[|rest| - 1] == store[|store| - 1] && DistinctIds(rest)
            && (forall x :: x in store <==> x in rest || x == store[i])
            && (forall j :: 0 <= j < |rest| ==> rest[j] in store)
            && store[i] !in rest
  {
    var rest := Without(store, i);
    forall x | x in store
      ensures x in rest || x == store[i]
    {
      var j :| 0 <= j < |store| && store[j] == x;
      if j < i {
        assert rest[j] == x;
      } else if j > i {
        assert rest[j - 1] == x;
      }
    }
  }

  lemma {:induction false} EvictKeepsNewest(store: seq<Snap>, id: nat, now: nat)
    requires store != [] && DistinctIds(store)
    requires store[|store| - 1].id == id && AccessTime(store[|store| - 1]) == now
    requires forall i :: 0 <= i < |store| ==> AccessTime(store[i]) <= now
    ensures var r := Evict(store);
            && r != [] && r[|r| - 1] == store[|store| - 1] && DistinctIds(r)
            && (forall x :: x in r ==> x in store)
            && (forall x, y :: x in store && x !in r && y in r ==> AccessTime(x) <= AccessTime(y))
            && (|store| <= MAX_RETAINED ==> r == store)
            && (|store| > MAX_RETAINED ==> |r| == MAX_RETAINED)
    decreases |store|
  {
    if |store| > MAX_RETAINED {
      var o := Oldest(store);
      assert o < |store| - 1;
      WithoutKeepsRest(store, o);
      EvictKeepsNewest(Without(store, o), id, now);
    }
  }

  /** The live snapshots followed by the new one. */
  function Candidates(store: seq<Snap>, x: Snap, now: nat): seq<Snap> {
    Live(store, x.generation, now) + [x.(lastAccessedAt := Some(now))]
  }

  lemma CandidatesWellKept(store: seq<Snap>, x: Snap, now: nat)
    requires DistinctIds(store) && !Has(store, x.id)
    requires forall i :: 0 <= i < |store| ==> AccessTime(store[i]) <= now
    ensures var all := Candidates(store, x, now);
            && all != [] && DistinctIds(all)
            && all[|all| - 1] == x.(lastAccessedAt := Some(now))
            && (forall i :: 0 <= i < |all| ==> AccessTime(all[i]) <= now && all[i].generation == x.generation)
            && (forall y :: y in all && y.id != x.id ==> y in store && !Expired(y, x.generation, now))
            && (forall y :: y in store && !Expired(y, x.generation, now) ==> y in all)
            && !Has(Live(store, x.generation, now), x.id)
  {
    var live := Live(store, x.generation, now);
    LiveMembers(store, x.generation, now);
    LiveDistinct(store, x.generation, now);
    forall i | 0 <= i < |live|
      ensures live[i].id != x.id && AccessTime(live[i]) <= now && live[i].generation == x.generation
    {
      assert live[i] in store;
    }
  }

  lemma StoreIsEviction(s: State, x: Snap, now: nat)
    requires x.generation == s.generation
    requires !Has(Live(s.store.GetOr([]), x.generation, now), x.id)
    ensures var kept := Evict(Candidates(s.store.GetOr([]), x, now));
            StoreSnapshot(s, x, now) == s.(authority := true, store := Some(kept), latest := Refresh(Some(x.id), kept))
  {
  }

  lemma KeptFacts(store: seq<Snap>, x: Snap, now: nat)
    requires DistinctIds(store) && !Has(store, x.id)
    requires forall i :: 0 <= i < |store| ==> AccessTime(store[i]) <= now
    ensures var kept := Evict(Candidates(store, x, now));
            && kept != [] && |kept| <= MAX_RETAINED && DistinctIds(kept)
            && kept[|kept| - 1] == x.(lastAccessedAt := Some(now))
            && (forall i :: 0 <= i < |kept| ==> AccessTime(kept[i]) <= now && kept[i].generation == x.generation)
            && (forall y :: y in kept && y.id != x.id ==> y in store && !Expired(y, x.generation, now))
            && !Has(Live(store, x.generation, now), x.id)
  {
    hide Live, Evict, Candidates, Expired;
    CandidatesWellKept(store, x, now);
    var all := Candidates(store, x, now);
    EvictKeepsNewest(all, x.id, now);
    var kept := Evict(all);
    forall i | 0 <= i < |kept|
      ensures AccessTime(kept[i]) <= now && kept[i].generation == x.generation
    {
      assert kept[i] in all;
    }
  }

  lemma DroppedFacts(store: seq<Snap>, x: Snap, now: nat)
    requires DistinctIds(store) && !Has(store, x.id)
    requires forall i :: 0 <= i < |store| ==> AccessTime(store[i]) <= now
    ensures var kept := Evict(Candidates(store, x, now));
            forall y :: y in store && !Expired(y, x.generation, now) && y !in kept ==>
              |kept| == MAX_RETAINED && forall z :: z in kept ==> AccessTime(y) <= AccessTime(z)
  {
    hide Live, Evict, Candidates, Expired;
    CandidatesWellKept(store, x, now);
    EvictKeepsNewest(Candidates(store, x, now), x.id, now);
  }

  /**
    Storing a fresh snapshot under a monotone clock: the store holds at most three,
    the new snapshot is retained and is the latest, and what was dropped was expired
    or no more recently used than anything retained.
   */
  lemma StorePolicy(s: State, x: Snap, now: nat)
    requires WellKept(s, now)
    requires s.store.Some? ==> !Has(s.store.value, x.id)
    requires x.generation == s.generation
    ensures var t := StoreSnapshot(s, x, now);
            var kept := t.store.GetOr([]);
            && WellKept(t, now) && t.latest == Some(x.id) && t.authority
            && kept != [] && kept[|kept| - 1] == x.(lastAccessedAt := Some(now))
            && (forall y :: y in kept && y.id != x.id ==> y in s.store.GetOr([]) && !Expired(y, s.generation, now))
            && (forall y :: y in s.store.GetOr([]) && !Expired(y, s.generation, now) && y !in kept ==>
                  |kept| == MAX_RETAINED && forall z :: z in kept ==> AccessTime(y) <= AccessTime(z))
  {
    hide Live, Evict, Candidates, StoreSnapshot, Expired, AccessTime;
    var store := s.store.GetOr([]);
    KeptFacts(store, x, now);
    DroppedFacts(store, x, now);
    StoreIsEviction(s, x, now);
    var kept := Evict(Candidates(store, x, now));
    assert kept[|kept| - 1].id == x.id;
    assert Has(kept, x.id);
  }

  /** Every other operation keeps the store well kept and touches nothing but access times. */
  lemma PruneKeeps(s: State, now: nat)
    requires WellKept(s, now) && s.store.Some?
    ensures WellKept(Prune(s, now), now)
    ensures forall x :: x in Prune(s, now).store.value <==> x in s.store.value && !Expired(x, s.generation, now)
  {
    var live := Live(s.store.value, s.generation, now);
    LiveMembers(s.store.value, s.generation, now);
    LiveDistinct(s.store.value, s.generation, now);
    forall i | 0 <= i < |live|
      ensures live[i].generation <= s.generation && AccessTime(live[i]) <= now
    {
      assert live[i] in s.store.value;
    }
    if live != [] {
      assert live[|live| - 1].id == LastOf(live).value;
    }
  }

  lemma TouchKeeps(s: State, i: nat, now: nat)
    requires WellKept(s, now) && s.store.Some? && i < |s.store.value|
    ensures WellKept(s.(store := Some(Touch(s.store.value, i, now))), now)
  {
    var store := Touch(s.store.value, i, now);
    if s.latest.Some? {
      var j :| 0 <= j < |s.store.value| && s.store.value[j].id == s.latest.value;
      assert store[j].id == s.latest.value;
    }
  }

  lemma OpenedIsKept(s: State, now: nat)
    requires WellKept(s, now)
    ensures WellKept(OpenStore(s), now)
  {
  }

  lemma PruneKeepsGeneration(s: State, now: nat)
    requires s.store.Some?
    ensures Prune(s, now).generation == s.generation
    ensures forall x :: x in Prune(s, now).store.value ==> x.generation == s.generation
  {
    LiveMembers(s.store.value, s.generation, now);
  }

  /** A stored id names one snapshot, the one found under it. */
  lemma KeptHasOneOf(s: State, id: nat, now: nat)
    requires WellKept(s, now) && s.store.Some?
    ensures var i := Find(s.store.value, id);
            forall x :: x in s.store.value && x.id == id ==> i < |s.store.value| && s.store.value[i] == x
  {
  }

  /** A lookup drops what has expired, marks what it finds as used now, and changes nothing else. */
  ghost predicate LooksUpOnly(s: State, t: State, found: Option<nat>, now: nat) {
    && t.store.Some? && (found.Some? ==> found.value < |t.store.value|)
    && t == s.(store := t.store, latest := t.latest)
    && t.latest == Refresh(s.latest, t.store.value)
    && var live := Live(s.store.GetOr([]), s.generation, now);
       |t.store.value| == |live| && forall i :: 0 <= i < |live| ==> t.store.value[i] == if found == Some(i) then live[i].(lastAccessedAt := Some(now)) else live[i]
  }

  lemma TouchKeepsLatest(latest: Option<nat>, store: seq<Snap>, i: nat, now: nat)
    requires i < |store|
    ensures Refresh(latest, Touch(store, i, now)) == Refresh(latest, store)
  {
    var touched := Touch(store, i, now);
    assert forall j :: 0 <= j < |store| ==> touched[j].id == store[j].id;
    if latest.Some? {
      assert Has(touched, latest.value) <==> Has(store, latest.value) by {
        if j :| 0 <= j < |store| && store[j].id == latest.value {
          assert touched[j].id == latest.value;
        }
      }
    }
  }

  /** So do both kinds of lookup, for a continuation and for a ref. */
  lemma LookupsOnlyTouch(s: State, key: nat, now: nat)
    ensures LooksUpOnly(s, GetSnapshot(s, key, now).0, GetSnapshot(s, key, now).1, now)
    ensures LooksUpOnly(s, ResolveElement(s, key, now).0, ResolveElement(s, key, now).1, now)
  {
    hide Live, Refresh, Expired, Lists;
    var live := Live(s.store.GetOr([]), s.generation, now);
    forall i | 0 <= i < |live|
      ensures Refresh(s.latest, Touch(live, i, now)) == Refresh(s.latest, live)
    {
      TouchKeepsLatest(s.latest, live, i, now);
    }
  }

  /** What is live stays in the order it was stored in. */
  lemma {:induction false} LiveInOrder(front: seq<Snap>, rest: seq<Snap>, generation: nat, now: nat)
    ensures Live(front + rest, generation, now) == Live(front, generation, now) + Live(rest, generation, now)
    decreases |rest|
  {
    if rest == [] {
      assert front + rest == front;
    } else {
      LiveInOrder(front, rest[..|rest| - 1], generation, now);
      assert (front + rest)[..|front + rest| - 1] == front + rest[..|rest| - 1];
    }
  }

  /** The latest snapshot stays the latest while it is stored; else the newest stored one is. */
  lemma RefreshKeepsLatest(latest: Option<nat>, store: seq<Snap>)
    ensures latest.Some? && Has(store, latest.value) ==> Refresh(latest, store) == latest
    ensures !(latest.Some? && Has(store, latest.value)) && store != [] ==> Refresh(latest, store) == Some(store[|store| - 1].id)
    ensures store == [] ==> Refresh(latest, store) == None
  {
  }

  /**
    A ref resolves exactly when a retained, unexpired snapshot of the current
    generation still lists it, and it resolves to such a snapshot.
   */
  lemma RefResolution(s: State, ref: nat, now: nat)
    requires WellKept(s, now)
    ensures var (t, r) := ResolveElement(s, ref, now);
            && WellKept(t, now)
            && (r.Some? <==> exists x :: x in s.store.GetOr([]) && !Expired(x, s.generation, now) && Lists(x.elements, ref))
            && (r.Some? ==>
                  exists x :: x in s.store.GetOr([]) && !Expired(x, s.generation, now) && Lists(x.elements, ref)
                           && t.store.value[r.value] == x.(lastAccessedAt := Some(now)))
  {
    hide WellKept, Prune;
    var a := OpenStore(s);
    OpenedIsKept(s, now);
    PruneKeeps(a, now);
    var p := Prune(a, now);
    PruneKeepsGeneration(a, now);
    var r := Issuer(p.store.value, p.generation, ref, |p.store.value|);
    if r.Some? {
      assert p.store.value[r.value] in p.store.value;
      TouchKeeps(p, r.value, now);
    }
  }

  /** A continuation finds a snapshot exactly when it is retained, unexpired, current and still frozen. */
  lemma ContinuationLookup(s: State, id: nat, now: nat)
    requires WellKept(s, now)
    ensures var (t, r) := GetSnapshot(s, id, now);
            && WellKept(t, now)
            && (r.Some? <==> exists x :: x in s.store.GetOr([]) && x.id == id && !Expired(x, s.generation, now) && !x.invalidated)
            && (r.Some? ==>
                  exists x :: x in s.store.GetOr([]) && x.id == id && !Expired(x, s.generation, now) && !x.invalidated
                           && t.store.value[r.value] == x.(lastAccessedAt := Some(now)))
  {
    hide WellKept, Expired, Prune;
    var a := OpenStore(s);
    OpenedIsKept(s, now);
    PruneKeeps(a, now);
    var p := Prune(a, now);
    PruneKeepsGeneration(a, now);
    KeptHasOneOf(p, id, now);
    var i := Find(p.store.value, id);
    if i < |p.store.value| && Continuable(p.store.value[i], p.generation) {
      assert p.store.value[i] in p.store.value;
      TouchKeeps(p, i, now);
    }
  }

  // --------------------------------------------------------------- revocation

  /** Editable queries only ever list elements of their snapshot. */
  ghost predicate EditableWithin(x: Snap) {
    x.editable.Some? ==> forall e :: e in x.editable.value.elements ==> e in x.elements
  }

  ghost predicate Mentions(elements: seq<Element>, identity: Identity) {
    exists e :: e in elements && Matches(e.frameId, e.sessionId, identity)
  }

  /** Revocation takes out exactly the matching elements and freezes what it changed. */
  lemma RevokeIsExact(x: Snap, identity: Identity)
    requires EditableWithin(x)
    ensures var y := Revoke(x, identity);
            && y.elements == Spared(x.elements, identity)
            && !Mentions(y.elements, identity)
            && (y.editable.Some? ==> !Mentions(y.editable.value.elements, identity))
            && EditableWithin(y)
            && (y.editable.Some? <==> x.editable.Some?)
            && (x.editable.Some? && Mentions(x.elements, identity) ==>
                  y.editable.value.elements == Spared(x.editable.value.elements, identity)
                  && y.editable.value.nextOffset == x.editable.value.nextOffset)
            && y == x.(elements := y.elements, invalidated := y.invalidated, frameRefs := y.frameRefs, editable := y.editable)
            && (forall f :: f in y.frameRefs <==> f in x.frameRefs && !(Mentions(x.elements, identity) && identity.frameId != "" && f == identity.frameId))
            && (forall f :: f in y.frameRefs ==> y.frameRefs[f] == x.frameRefs[f])
            && (y.invalidated <==> x.invalidated || Mentions(x.elements, identity))
            && (!Mentions(x.elements, identity) ==> y == x)
  {
    SparedMembers(x.elements, identity);
    if x.editable.Some? {
      SparedMembers(x.editable.value.elements, identity);
    }
    if |Spared(x.elements, identity)| != |x.elements| {
      if !Mentions(x.elements, identity) {
        NothingToSpare(x.elements, identity);
      }
    }
  }

  lemma {:induction false} NothingToSpare(elements: seq<Element>, identity: Identity)
    requires !Mentions(elements, identity)
    ensures Spared(elements, identity) == elements
  {
    if elements != [] {
      assert forall e :: e in elements[..|elements| - 1] ==> e in elements;
      NothingToSpare(elements[..|elements| - 1], identity);
      assert elements[|elements| - 1] in elements;
      assert elements == elements[..|elements| - 1] + [elements[|elements| - 1]];
    }
  }

  /**
    After a child frame is invalidated nothing mentions it: no snapshot, no editable
    query, not the opaque-ref mirror and not the keyboard target. Every other element
    of every snapshot survives in place.
   */
  lemma FrameInvalidationIsComplete(s: State, identity: Identity)
    requires Keys(identity.frameId, identity.sessionId) != []
    requires s.store.Some?
    requires forall i :: 0 <= i < |s.store.value| ==> EditableWithin(s.store.value[i])
    ensures var t := InvalidateFrame(s, identity);
            && t.store.Some? && |t.store.value| == |s.store.value|
            && (forall i :: 0 <= i < |t.store.value| ==>
                  && t.store.value[i].id == s.store.value[i].id
                  && t.store.value[i].elements == Spared(s.store.value[i].elements, identity)
                  && !Mentions(t.store.value[i].elements, identity)
                  && (t.store.value[i].editable.Some? ==> !Mentions(t.store.value[i].editable.value.elements, identity)))
            && (forall r :: r in t.mirror ==> !Matches(t.mirror[r].frameId, t.mirror[r].sessionId, identity))
            && (forall e :: e in LatestElements(t) ==> e.ref in t.mirror)
            && (forall r :: r in t.mirror ==> t.mirror[r] in LatestElements(t) && t.mirror[r].ref == r)
            && (t.keyboard.Some? ==> !Matches(t.keyboard.value.frameId, t.keyboard.value.sessionId, identity))
            && (s.keyboard.Some? && !Matches(s.keyboard.value.frameId, s.keyboard.value.sessionId, identity) ==> t.keyboard == s.keyboard)
            && t.generation == s.generation && t.latest == s.latest
  {
    var t := InvalidateFrame(s, identity);
    forall i | 0 <= i < |t.store.value|
      ensures t.store.value[i].id == s.store.value[i].id
      ensures t.store.value[i].elements == Spared(s.store.value[i].elements, identity)
      ensures !Mentions(t.store.value[i].elements, identity)
      ensures t.store.value[i].editable.Some? ==> !Mentions(t.store.value[i].editable.value.elements, identity)
    {
      RevokeIsExact(s.store.value[i], identity);
    }
    MirrorMembers(LatestElements(t));
  }
}
