/**
  The mutable browser session (packages/browser-core/src/browser-state.ts,
  packages/browser-core/src/browser-action-targets.ts): snapshots are objects that
  the store, the latest-snapshot field and callers share, and every operation
  updates them in place. Each method is proved to do what the function of the same
  name in BrowserState does.
 */
module BrowserSession {
  import opened Wrappers
  import opened BrowserState
  import opened PageBudget
  import opened SnapshotPaging

  class Snapshot {
    const id: nat
    const generation: nat
    const createdAt: nat
    const kind: Kind
    var lastAccessedAt: Option<nat>
    var elements: seq<Element>
    var nextOffset: Option<nat>
    var continuationInvalidated: bool
    var frameRefs: map<string, nat>
    var editableQuery: Option<EditableQuery>

    constructor (x: Snap)
      ensures View() == x
    {
      id, generation, createdAt, kind := x.id, x.generation, x.createdAt, x.kind;
      lastAccessedAt, elements, nextOffset := x.lastAccessedAt, x.elements, x.nextOffset;
      continuationInvalidated, frameRefs, editableQuery := x.invalidated, x.frameRefs, x.editable;
    }

    function View(): Snap
      reads this
    {
      Snap(id, generation, createdAt, lastAccessedAt, kind, elements, nextOffset, continuationInvalidated, frameRefs, editableQuery)
    }

    function Accessed(): nat
      reads this
    {
      lastAccessedAt.GetOr(createdAt)
    }

    /** Serve one inspect page; a page that cannot be served leaves the cursor where it was. */
    method Page(offset: nat, limit: nat, e: Envelope, tree: nat) returns (r: Result<seq<Element>, PageError>)
      requires offset <= |elements|
      modifies this`nextOffset
      ensures match TakePage(old(View()), offset, limit, e, tree)
              case Ok((y, page)) => View() == y && r == Ok(page)
              case Err(err) => View() == old(View()) && r == Err(err)
    {
      var sizes := MeasureWindow(elements, offset, limit);
      var choice := ChoosePage(e, tree, sizes, offset, |elements|);
      if choice.None? {
        return Err(TooLarge);
      }
      PageCountBounds(elements, offset, limit, e, tree);
      var end := offset + choice.value.count;
      nextOffset := if end < |elements| then Some(end) else None;
      r := Ok(elements[offset..end]);
    }

    /** Serve one page of editable targets. */
    method EditablePage(offset: nat, limit: nat) returns (page: seq<Element>)
      requires editableQuery.Some? && offset <= |editableQuery.value.elements|
      modifies this`editableQuery
      ensures (View(), page) == TakeEditable(old(View()), old(editableQuery.value), offset, limit)
    {
      var targets := editableQuery.value.elements;
      var sizes := MeasureWindow(targets, offset, limit);
      var n := ChooseEditable(sizes);
      var end := offset + n;
      editableQuery := Some(EditableQuery(targets, if end < |targets| then Some(end) else None));
      page := targets[offset..end];
    }

    /** The loop that drops the elements of one frame. */
    method RevokeFrame(identity: Identity)
      modifies this
      ensures View() == Revoke(old(View()), identity)
    {
      var retained := FilterOut(elements, identity);
      if |retained| == |elements| {
        return;
      }
      elements := retained;
      continuationInvalidated := true;
      if identity.frameId != "" {
        frameRefs := frameRefs - {identity.frameId};
      }
      if editableQuery.Some? {
        var targets := FilterOut(editableQuery.value.elements, identity);
        editableQuery := Some(editableQuery.value.(elements := targets));
      }
    }
  }

  method MeasureWindow(elements: seq<Element>, offset: nat, limit: nat) returns (sizes: seq<nat>)
    requires offset <= |elements|
    ensures sizes == Sizes(Window(elements, offset, limit))
  {
    var window := Window(elements, offset, limit);
    sizes := seq(|window|, i requires 0 <= i < |window| => window[i].bytes);
  }

  method FilterOut(elements: seq<Element>, identity: Identity) returns (r: seq<Element>)
    ensures r == Spared(elements, identity)
  {
    r := [];
    for i := 0 to |elements|
      invariant r == Spared(elements[..i], identity)
    {
      assert elements[..i + 1][..i] == elements[..i];
      if !Matches(elements[i].frameId, elements[i].sessionId, identity) {
        r := r + [elements[i]];
      }
    }
    assert elements[..|elements|] == elements;
  }

  ghost function Views(snapshots: seq<Snapshot>): (r: seq<Snap>)
    reads snapshots
    ensures |r| == |snapshots| && forall i :: 0 <= i < |snapshots| ==> r[i] == snapshots[i].View()
  {
    if snapshots == [] then [] else Views(snapshots[..|snapshots| - 1]) + [snapshots[|snapshots| - 1].View()]
  }

  /** Ids are different, so the objects are too. */
  ghost predicate DifferentIds(snapshots: seq<Snapshot>) {
    forall i, j :: 0 <= i < j < |snapshots| ==> snapshots[i].id != snapshots[j].id
  }

  lemma AppendViews(all: seq<Snapshot>, x: Snapshot)
    requires DifferentIds(all) && forall y :: y in all ==> y.id != x.id
    ensures Views(all + [x]) == Views(all) + [x.View()] && DifferentIds(all + [x])
  {
    assert (all + [x])[..|all|] == all;
    forall i | 0 <= i < |all|
      ensures all[i].id != x.id
    {
      assert all[i] in all;
    }
  }

  lemma NotStored(all: seq<Snapshot>, id: nat)
    requires forall y :: y in all ==> y.id != id
    ensures !Has(Views(all), id)
  {
    forall i | 0 <= i < |all|
      ensures Views(all)[i].id != id
    {
      assert all[i] in all;
    }
  }

  lemma OneObjectPerId(all: seq<Snapshot>, some: seq<Snapshot>, x: Snapshot)
    requires DifferentIds(all) && x in all && forall y :: y in some ==> y in all
    ensures forall y :: y in some && y.id == x.id ==> y == x
  {
  }

  method FindById(snapshots: seq<Snapshot>, id: nat) returns (i: nat)
    ensures i == Find(Views(snapshots), id) && i <= |snapshots|
    ensures i < |snapshots| <==> exists x :: x in snapshots && x.id == id
    ensures i < |snapshots| ==> snapshots[i].id == id
  {
    i := 0;
    while i < |snapshots| && snapshots[i].id != id
      invariant i <= |snapshots|
      invariant forall j :: 0 <= j < i ==> snapshots[j].id != id
    {
      i := i + 1;
    }
    FindIsFirst(Views(snapshots), id, i);
    if i < |snapshots| {
      assert snapshots[i] in snapshots;
    }
  }

  method Contains(snapshots: seq<Snapshot>, id: nat) returns (known: bool)
    ensures known <==> Has(Views(snapshots), id)
    ensures known <==> exists x :: x in snapshots && x.id == id
  {
    var i := FindById(snapshots, id);
    known := i < |snapshots|;
  }

  lemma {:induction false} FindIsFirst(store: seq<Snap>, id: nat, i: nat)
    requires i <= |store| && (i < |store| ==> store[i].id == id)
    requires forall j :: 0 <= j < i ==> store[j].id != id
    ensures Find(store, id) == i
  {
    if i > 0 {
      FindIsFirst(store[1..], id, i - 1);
    }
  }

  /** The objects whose views are live. */
  ghost function LiveObjects(all: seq<Snapshot>, generation: nat, now: nat): seq<Snapshot>
    reads all
  {
    if all == [] then []
    else
      var rest := LiveObjects(all[..|all| - 1], generation, now);
      var last := all[|all| - 1];
      if Expired(last.View(), generation, now) then rest else rest + [last]
  }

  lemma {:induction false} LiveObjectsViews(all: seq<Snapshot>, generation: nat, now: nat)
    ensures Views(LiveObjects(all, generation, now)) == Live(Views(all), generation, now)
    ensures forall x :: x in LiveObjects(all, generation, now) ==> x in all
  {
    if all != [] {
      var init := all[..|all| - 1];
      LiveObjectsViews(init, generation, now);
      assert Views(all)[..|all| - 1] == Views(init);
      var rest := LiveObjects(init, generation, now);
      assert (rest + [all[|all| - 1]])[..|rest|] == rest;
    }
  }

  lemma {:induction false} LiveObjectsDiffer(all: seq<Snapshot>, generation: nat, now: nat)
    requires DifferentIds(all)
    ensures DifferentIds(LiveObjects(all, generation, now))
  {
    if all != [] {
      var init, last := all[..|all| - 1], all[|all| - 1];
      LiveObjectsDiffer(init, generation, now);
      LiveObjectsViews(init, generation, now);
      var rest := LiveObjects(init, generation, now);
      forall i | 0 <= i < |rest|
        ensures rest[i].id != last.id
      {
        assert rest[i] in init;
      }
    }
  }

  method DropExpired(all: seq<Snapshot>, generation: nat, now: nat) returns (kept: seq<Snapshot>)
    requires DifferentIds(all)
    ensures Views(kept) == Live(Views(all), generation, now)
    ensures DifferentIds(kept) && forall x :: x in kept ==> x in all
  {
    hide DifferentIds, Views, Live;
    kept := [];
    for i := 0 to |all|
      invariant kept == LiveObjects(all[..i], generation, now)
    {
      var x := all[i];
      assert all[..i + 1][..i] == all[..i];
      if !(x.generation != generation || x.Accessed() < now - TTL_MS) {
        kept := kept + [x];
      }
    }
    assert all[..|all|] == all;
    LiveObjectsViews(all, generation, now);
    LiveObjectsDiffer(all, generation, now);
  }

  /** The first snapshot with the smallest access time. */
  method FindOldest(snapshots: seq<Snapshot>) returns (i: nat)
    requires snapshots != []
    ensures i < |snapshots| && i == Oldest(Views(snapshots))
  {
    i := 0;
    for j := 1 to |snapshots|
      invariant i < j
      invariant forall k :: 0 <= k < j ==> snapshots[i].Accessed() <= snapshots[k].Accessed()
      invariant forall k :: 0 <= k < i ==> snapshots[i].Accessed() < snapshots[k].Accessed()
    {
      if snapshots[j].Accessed() < snapshots[i].Accessed() {
        i := j;
      }
    }
    var o := Oldest(Views(snapshots));
    assert forall k :: 0 <= k < |snapshots| ==> AccessTime(Views(snapshots)[k]) == snapshots[k].Accessed();
  }

  lemma WithoutViews(all: seq<Snapshot>, i: nat)
    requires i < |all| && DifferentIds(all)
    ensures var rest := all[..i] + all[i + 1..];
            Views(rest) == Without(Views(all), i) && DifferentIds(rest) && forall x :: x in rest ==> x in all
  {
    var rest := all[..i] + all[i + 1..];
    forall x | x in rest
      ensures x in all
    {
      var j :| 0 <= j < |rest| && rest[j] == x;
      assert x == if j < i then all[j] else all[j + 1];
    }
  }

  /** Delete the least recently used snapshot until at most three are left. */
  method EvictOldest(all: seq<Snapshot>) returns (kept: seq<Snapshot>)
    requires DifferentIds(all)
    ensures Views(kept) == Evict(Views(all))
    ensures DifferentIds(kept) && forall x :: x in kept ==> x in all
  {
    hide DifferentIds, Views, Oldest, Without;
    kept := all;
    while |kept| > MAX_RETAINED
      invariant DifferentIds(kept) && forall x :: x in kept ==> x in all
      invariant Evict(Views(kept)) == Evict(Views(all))
      decreases |kept|
    {
      var i := FindOldest(kept);
      WithoutViews(kept, i);
      kept := kept[..i] + kept[i + 1..];
    }
  }

  class BrowserSession {
    var generation: nat
    var frameEpochs: Option<map<FrameKey, nat>>
    var snapshots: Option<seq<Snapshot>>
    var snapshotAuthorityEstablished: bool
    var snapshot: Snapshot?
    var opaqueRefs: map<nat, Element>
    var keyboardTarget: Option<KeyboardTarget>

    constructor ()
      ensures Valid() && View() == INITIAL && snapshots.None? && snapshot == null
    {
      generation, frameEpochs, snapshots, snapshotAuthorityEstablished := 0, None, None, false;
      snapshot, opaqueRefs, keyboardTarget := null, map[], None;
    }

    function Store(): seq<Snapshot>
      reads this
    {
      snapshots.GetOr([])
    }

    /** Stored ids differ, and the latest snapshot is one of the stored objects. */
    ghost predicate Valid()
      reads this
    {
      DifferentIds(Store()) && (snapshot != null ==> snapshot in Store())
    }

    ghost function View(): State
      reads this, Store()
    {
      State(generation, frameEpochs, if snapshots.Some? then Some(Views(snapshots.value)) else None,
            if snapshot == null then None else Some(snapshot.id), snapshotAuthorityEstablished, opaqueRefs, keyboardTarget)
    }

    /** `snapshots ??= new Map()`. */
    method OpenStore()
      requires Valid()
      modifies this`snapshots
      ensures Valid() && snapshots == Some(old(Store())) && View() == BrowserState.OpenStore(old(View()))
    {
      if snapshots.None? {
        snapshots := Some([]);
      }
    }

    /** Whether dropping snapshots has left the latest one stored; if so it is the stored object. */
    ghost predicate LatestByIdentity()
      reads this
    {
      forall x :: x in Store() && snapshot != null && x.id == snapshot.id ==> x == snapshot
    }

    /** Fall back to the newest stored snapshot when the latest one has left the store. */
    method Refresh()
      requires DifferentIds(Store()) && LatestByIdentity() && snapshots.Some?
      modifies this`snapshot
      ensures Valid()
      ensures (if snapshot == null then None else Some(snapshot.id))
           == BrowserState.Refresh(if old(snapshot) == null then None else Some(old(snapshot).id), Views(Store()))
    {
      hide Has, Find;
      var store := snapshots.value;
      if snapshot != null {
        var known := Contains(store, snapshot.id);
        if known {
          return;
        }
      }
      snapshot := if store == [] then null else store[|store| - 1];
    }

    /** Drop the snapshots of earlier generations and those not used for five minutes. */
    method Prune(now: nat)
      requires Valid() && snapshots.Some?
      modifies this`snapshots, this`snapshot
      ensures Valid() && snapshots.Some? && View() == BrowserState.Prune(old(View()), now)
      ensures forall x :: x in Store() ==> x in old(Store())
    {
      hide Live, Has, Find, BrowserState.Refresh, Views;
      var all := snapshots.value;
      var kept := DropExpired(all, generation, now);
      if snapshot != null {
        OneObjectPerId(all, kept, snapshot);
      }
      snapshots := Some(kept);
      Refresh();
    }

    /** Retain a fresh snapshot as the latest one. */
    method StoreSnapshot(x: Snapshot, now: nat)
      requires Valid() && forall y :: y in Store() ==> y.id != x.id
      modifies this`snapshots, this`snapshot, this`snapshotAuthorityEstablished, x`lastAccessedAt
      ensures Valid() && View() == BrowserState.StoreSnapshot(old(View()), old(x.View()), now)
      ensures forall y :: y in Store() ==> y in old(Store()) || y == x
    {
      hide BrowserState.Prune, BrowserState.StoreSnapshot, BrowserState.Refresh, Evict, Views, DifferentIds;
      snapshotAuthorityEstablished := true;
      ghost var s := View();
      OpenStore();
      Prune(now);
      NotStored(Store(), x.id);
      StoreOfFresh(old(View()), old(x.View()), now);
      AddNewest(x, now);
    }

    method AddNewest(x: Snapshot, now: nat)
      requires Valid() && snapshots.Some? && forall y :: y in Store() ==> y.id != x.id
      modifies this`snapshots, this`snapshot, x`lastAccessedAt
      ensures Valid() && snapshots.Some?
      ensures var all := old(Views(Store())) + [old(x.View()).(lastAccessedAt := Some(now))];
              View() == old(View()).(store := Some(Evict(all)), latest := BrowserState.Refresh(Some(x.id), Evict(all)))
      ensures forall y :: y in Store() ==> y in old(Store()) || y == x
    {
      hide Evict, Has, Find, BrowserState.Refresh, DifferentIds, Views, LatestByIdentity;
      assert x !in snapshots.value;
      x.lastAccessedAt := Some(now);
      assert Views(snapshots.value) == old(Views(Store()));
      var all := snapshots.value + [x];
      AppendViews(snapshots.value, x);
      var kept := EvictOldest(all);
      SetLatest(all, kept, x);
    }

    method SetLatest(ghost all: seq<Snapshot>, kept: seq<Snapshot>, x: Snapshot)
      requires DifferentIds(all) && DifferentIds(kept) && x in all && forall y :: y in kept ==> y in all
      modifies this`snapshots, this`snapshot
      ensures Valid() && snapshots == Some(kept)
      ensures (if snapshot == null then None else Some(snapshot.id)) == BrowserState.Refresh(Some(x.id), Views(kept))
    {
      snapshots := Some(kept);
      snapshot := x;
      OneObjectPerId(all, kept, x);
      Refresh();
    }

    /** Find the snapshot a continuation names, and mark it used. */
    method GetSnapshot(id: nat, now: nat) returns (r: Snapshot?)
      requires Valid()
      modifies this`snapshots, this`snapshot, Store()
      ensures Valid() && snapshots.Some?
      ensures var (t, i) := BrowserState.GetSnapshot(old(View()), id, now);
              View() == t && match i case None => r == null case Some(i) => i < |Store()| && r == Store()[i]
    {
      hide BrowserState.Prune, Find, Has, DifferentIds, Views;
      OpenStore();
      Prune(now);
      var store := snapshots.value;
      var i := FindById(store, id);
      if i == |store| || !Continuable(store[i].View(), generation) {
        return null;
      }
      assert store[i] in old(Store());
      Touch(store[i], i, now);
      r := store[i];
    }

    method Touch(x: Snapshot, ghost i: nat, now: nat)
      requires Valid() && snapshots.Some? && i < |snapshots.value| && snapshots.value[i] == x
      modifies x`lastAccessedAt
      ensures Valid() && View() == old(View()).(store := Some(BrowserState.Touch(old(Views(Store())), i, now)))
    {
      x.lastAccessedAt := Some(now);
      assert Views(snapshots.value) == BrowserState.Touch(old(Views(Store())), i, now);
    }

    /** Resolve an opaque ref against the newest current snapshot that lists it, and mark that one used. */
    method ResolveElement(ref: nat, now: nat) returns (r: Snapshot?, element: Option<Element>)
      requires Valid()
      modifies this`snapshots, this`snapshot, Store()
      ensures Valid() && snapshots.Some?
      ensures var (t, i) := BrowserState.ResolveElement(old(View()), ref, now);
              && View() == t
              && match i
                 case None => r == null && element == None
                 case Some(i) => i < |Store()| && r == Store()[i] && Lists(r.elements, ref) && element == Some(FirstWithRef(r.elements, ref))
    {
      hide BrowserState.Prune, DifferentIds, Views, Issuer, Lists, FirstWithRef;
      OpenStore();
      Prune(now);
      var store := snapshots.value;
      var i, e := FindIssuer(store, generation, ref);
      if i.None? {
        return null, None;
      }
      assert store[i.value] in old(Store());
      Touch(store[i.value], i.value, now);
      r, element := store[i.value], e;
    }

    method ClearSnapshots()
      requires Valid()
      modifies this`snapshots, this`snapshot
      ensures Valid() && View() == Clear(old(View()))
    {
      if snapshots.Some? {
        snapshots := Some([]);
      }
      snapshot := null;
    }

    /** Main-document navigation. */
    method Navigate()
      requires Valid()
      modifies this
      ensures Valid() && View() == BrowserState.Navigate(old(View()))
    {
      hide DifferentIds, Views;
      assert Views([]) == [];
      generation := generation + 1;
      if frameEpochs.Some? {
        frameEpochs := Some(map[]);
      }
      opaqueRefs := map[];
      ClearSnapshots();
      keyboardTarget := None;
    }

    method BumpEpochs(identity: Identity)
      modifies this`frameEpochs
      ensures frameEpochs == Some(Bump(old(frameEpochs).GetOr(map[]), Keys(identity.frameId, identity.sessionId)))
    {
      var keys := Keys(identity.frameId, identity.sessionId);
      var epochs: map<FrameKey, nat> := frameEpochs.GetOr(map[]);
      for i := 0 to |keys|
        invariant Bump(frameEpochs.GetOr(map[]), keys) == Bump(epochs, keys[i..])
      {
        epochs := epochs[keys[i] := Epoch(epochs, keys[i]) + 1];
      }
      frameEpochs := Some(epochs);
    }

    method ReplaceOpaqueRefs(elements: seq<Element>)
      modifies this`opaqueRefs
      ensures opaqueRefs == Mirror(elements)
    {
      opaqueRefs := map[];
      for i := 0 to |elements|
        invariant opaqueRefs == Mirror(elements[..i])
      {
        assert elements[..i + 1][..i] == elements[..i];
        opaqueRefs := opaqueRefs[elements[i].ref := elements[i]];
      }
      assert elements[..|elements|] == elements;
    }

    method RevokeAll(identity: Identity)
      requires Valid()
      modifies Store()
      ensures Views(Store()) == RevokeEach(old(Views(Store())), identity)
    {
      var store := Store();
      for i := 0 to |store|
        invariant forall j :: 0 <= j < i ==> store[j].View() == Revoke(old(store[j].View()), identity)
        invariant forall j :: i <= j < |store| ==> store[j].View() == old(store[j].View())
      {
        store[i].RevokeFrame(identity);
      }
    }

    method RevokeState(identity: Identity)
      requires Valid()
      modifies this`frameEpochs, this`keyboardTarget, Store()
      ensures Valid() && View() == BrowserState.RevokeFrame(old(View()), identity)
    {
      hide Views, Revoke, RevokeEach, DifferentIds, Bump, Keys, Matches;
      BumpEpochs(identity);
      RevokeAll(identity);
      if keyboardTarget.Some? && Matches(keyboardTarget.value.frameId, keyboardTarget.value.sessionId, identity) {
        keyboardTarget := None;
      }
    }

    method MirrorLatest()
      requires Valid()
      modifies this`opaqueRefs
      ensures Valid() && View() == old(View()).(mirror := Mirror(LatestElements(old(View()))))
    {
      hide Views, Mirror, DifferentIds, LatestElements;
      LatestIsStored();
      if snapshot == null {
        ReplaceOpaqueRefs([]);
      } else {
        ReplaceOpaqueRefs(snapshot.elements);
      }
    }

    /** A child frame was replaced. */
    method InvalidateFrame(identity: Identity)
      requires Valid()
      modifies this, Store()
      ensures Valid() && View() == BrowserState.InvalidateFrame(old(View()), identity)
    {
      hide BrowserState.RevokeFrame, Views, Mirror, DifferentIds, LatestElements;
      if Keys(identity.frameId, identity.sessionId) == [] {
        return;
      }
      RevokeState(identity);
      MirrorLatest();
    }

    lemma LatestIsStored()
      requires Valid()
      ensures LatestElements(View()) == if snapshot == null then [] else snapshot.elements
    {
      if snapshot != null {
        var i :| 0 <= i < |Store()| && Store()[i] == snapshot;
        FindIsFirst(Views(Store()), snapshot.id, i);
      }
    }

    /** A mutating action ran: no retained snapshot may be paged through any more. */
    method InvalidateObservations()
      requires Valid()
      modifies Store()
      ensures Valid() && View() == BrowserState.InvalidateObservations(old(View()))
      ensures Store() == old(Store()) && forall x :: x in Store() ==> x.View() == old(x.View()).(invalidated := true)
    {
      var store := Store();
      for i := 0 to |store|
        invariant forall j :: 0 <= j < i ==> store[j].View() == old(store[j].View()).(invalidated := true)
        invariant forall j :: i <= j < |store| ==> store[j].View() == old(store[j].View())
      {
        store[i].continuationInvalidated := true;
      }
      assert Views(store) == FreezeEach(old(Views(store)));
    }
  }

  /** Search the store from its newest end. */
  method FindIssuer(store: seq<Snapshot>, generation: nat, ref: nat) returns (r: Option<nat>, e: Option<Element>)
    ensures r == Issuer(Views(store), generation, ref, |store|)
    ensures r.None? ==> e == None
    ensures r.Some? ==> r.value < |store| && Lists(store[r.value].elements, ref) && e == Some(FirstWithRef(store[r.value].elements, ref))
  {
    ghost var views := Views(store);
    var i: nat := |store|;
    while i > 0
      invariant i <= |store|
      invariant Issuer(views, generation, ref, |store|) == Issuer(views, generation, ref, i)
    {
      i := i - 1;
      if store[i].generation == generation {
        e := FindRef(store[i].elements, ref);
        if e.Some? {
          return Some(i), e;
        }
      }
    }
    return None, None;
  }

  method FindRef(elements: seq<Element>, ref: nat) returns (r: Option<Element>)
    ensures r == if Lists(elements, ref) then Some(FirstWithRef(elements, ref)) else None
  {
    var i := 0;
    while i < |elements| && elements[i].ref != ref
      invariant i <= |elements| && forall j :: 0 <= j < i ==> elements[j].ref != ref
    {
      i := i + 1;
    }
    if i < |elements| {
      FirstWithRefIsFirst(elements, ref, i);
    }
    r := if i < |elements| then Some(elements[i]) else None;
  }

  lemma {:induction false} FirstWithRefIsFirst(elements: seq<Element>, ref: nat, i: nat)
    requires i < |elements| && elements[i].ref == ref && forall j :: 0 <= j < i ==> elements[j].ref != ref
    ensures Lists(elements, ref) && FirstWithRef(elements, ref) == elements[i]
  {
    if i > 0 {
      FirstWithRefIsFirst(elements[1..], ref, i - 1);
    }
  }
}
