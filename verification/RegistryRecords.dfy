/**
  What accessibility nodes, layout records and targets leave in the registry
  (packages/browser-core/src/browser-semantic-registry.ts).
 */
module RegistryRecords {
  import opened Wrappers
  import opened CanonicalRegistry

  /** The children list names a node that was merged under this key. */
  predicate Names(keys: map<string, Key>, childIds: seq<string>, k: Key) {
    exists c :: c in childIds && c in keys && keys[c] == k
  }

  /** This accessibility node lists the node of the key as a child, and is not that node itself. */
  predicate ListsChild(keys: map<string, Key>, ax: AxNode, k: Key) {
    ax.nodeId in keys && keys[ax.nodeId] != k && Names(keys, ax.childIds, k)
  }

  lemma NamesOneMore(keys: map<string, Key>, childIds: seq<string>, k: Key)
    requires childIds != []
    ensures var last := childIds[|childIds| - 1];
            Names(keys, childIds, k) <==> Names(keys, childIds[..|childIds| - 1], k) || (last in keys && keys[last] == k)
  {
    assert childIds == childIds[..|childIds| - 1] + [childIds[|childIds| - 1]];
  }

  lemma {:induction false} ChildrenLinked(r: Reg, keys: map<string, Key>, parent: Key, childIds: seq<string>, k: Key)
    requires SelfKeyed(r) && k in r.nodes
    ensures LinkChildren(r, keys, parent, childIds).nodes[k]
         == if parent != k && Names(keys, childIds, k) then r.nodes[k].(axParent := Some(parent)) else r.nodes[k]
  {
    hide Names;
    if childIds == [] {
      assert !Names(keys, [], k) by {
        NoNames(keys, k);
      }
    } else {
      ChildrenLinked(r, keys, parent, childIds[..|childIds| - 1], k);
      NamesOneMore(keys, childIds, k);
    }
  }

  lemma NoNames(keys: map<string, Key>, k: Key)
    ensures !Names(keys, [], k)
  {
  }

  /** i is the last of the nodes that lists the child; -1 when none does. */
  ghost predicate LastLister(keys: map<string, Key>, nodes: seq<AxNode>, k: Key, i: int) {
    && -1 <= i < |nodes| && (i >= 0 ==> ListsChild(keys, nodes[i], k))
    && forall j :: i < j < |nodes| ==> !ListsChild(keys, nodes[j], k)
  }

  /**
    A node's accessibility parent is the last other node that lists it as a child; a
    node that none lists keeps what it had. Nothing else changes.
   */
  lemma {:induction false} LastListingWins(r: Reg, keys: map<string, Key>, nodes: seq<AxNode>, k: Key) returns (i: int)
    requires SelfKeyed(r) && k in r.nodes
    ensures LinkAx(r, keys, nodes).nodes.Keys == r.nodes.Keys && LinkAx(r, keys, nodes).order == r.order
    ensures LastLister(keys, nodes, k, i)
    ensures LinkAx(r, keys, nodes).nodes[k] == if i < 0 then r.nodes[k] else r.nodes[k].(axParent := Some(keys[nodes[i].nodeId]))
    decreases |nodes|
  {
    hide Names, LinkChildren, SelfKeyed, LastLister;
    if nodes == [] {
      i := -1;
      NoLister(keys, k);
    } else {
      var front, last := nodes[..|nodes| - 1], nodes[|nodes| - 1];
      i := LastListingWins(r, keys, front, k);
      var r0 := LinkAx(r, keys, front);
      OneMoreLister(keys, nodes, k, i);
      if last.nodeId in keys {
        ChildrenLinked(r0, keys, keys[last.nodeId], last.childIds, k);
        LinkingKeepsOrder(r0, keys, keys[last.nodeId], last.childIds);
      }
      if ListsChild(keys, last, k) {
        i := |front|;
      }
    }
  }

  lemma NoLister(keys: map<string, Key>, k: Key)
    ensures LastLister(keys, [], k, -1)
  {
  }

  lemma OneMoreLister(keys: map<string, Key>, nodes: seq<AxNode>, k: Key, i: int)
    requires nodes != [] && LastLister(keys, nodes[..|nodes| - 1], k, i)
    ensures LastLister(keys, nodes, k, if ListsChild(keys, nodes[|nodes| - 1], k) then |nodes| - 1 else i)
    ensures i >= 0 ==> i < |nodes| - 1 && nodes[i] == nodes[..|nodes| - 1][i] && nodes[i].nodeId in keys
  {
    hide Names;
  }

  lemma {:induction false} LinkingKeepsOrder(r: Reg, keys: map<string, Key>, parent: Key, childIds: seq<string>)
    requires SelfKeyed(r)
    ensures LinkChildren(r, keys, parent, childIds).order == r.order
  {
    if childIds != [] {
      LinkingKeepsOrder(r, keys, parent, childIds[..|childIds| - 1]);
    }
  }

  /**
    An accessibility node goes to the node its backend id resolves to, else to a node of
    its own: under that id in the main frame, or, without one, under its own id.
   */
  lemma AxRecorded(r: Reg, main: string, ax: AxNode)
    requires SelfKeyed(r)
    ensures var existing := AxExisting(r.nodes, main, ax);
            var key := if existing.Some? then existing.value
                       else if ax.backend.Some? && ax.backend.value > 0 then Backed(main, ax.backend.value)
                       else AxOnly(ax.nodeId);
            (existing.Some? ==> existing.value in r.nodes) &&
            var s := AddAx(r, main, ax, existing);
            && s.nodes.Keys == r.nodes.Keys + {key} && s.nodes[key].ax == Some(ax)
            && (key in r.nodes ==> s.nodes[key].frameId == r.nodes[key].frameId && s.nodes[key].backend == r.nodes[key].backend)
            && (key !in r.nodes ==> s.nodes[key].frameId == main && s.nodes[key].backend == ax.backend)
            && (forall k :: k in r.nodes && k != key ==> s.nodes[k] == r.nodes[k])
  {
  }

  // ------------------------------------------------- layout records and targets

  lemma SameOwners(before: map<Key, CanonicalNode>, after: map<Key, CanonicalNode>, main: string, backend: nat, frameId: Option<string>)
    requires after.Keys == before.Keys && forall k :: k in before ==> after[k].backend == before[k].backend
    ensures Resolve(after, main, backend, frameId) == Resolve(before, main, backend, frameId)
  {
    assert Owners(after, backend) == Owners(before, backend);
  }

  /**
    A target is recorded on the node of its frame and backend id. It takes over the
    semantics of another node exactly when it names another backend id: of the node
    that id resolves to in its frame, else of the key the id would have there.
   */
  lemma TargetRecorded(r: Reg, main: string, t: Target)
    requires SelfKeyed(r)
    ensures var s := AddTarget(r, main, t);
            var frame := t.frameId.GetOr(main);
            var key := Backed(frame, t.backend);
            && s.nodes.Keys == r.nodes.Keys + {key} && s.nodes[key].target == Some(t)
            && (forall k :: k in r.nodes && k != key ==> s.nodes[k] == r.nodes[k])
            && (t.semanticBackend.Some? && t.semanticBackend.value != t.backend ==>
                  s.nodes[key].semanticSource
                  == Some(Resolve(s.nodes, main, t.semanticBackend.value, Some(frame)).GetOr(Backed(frame, t.semanticBackend.value))))
            && (t.semanticBackend.None? || t.semanticBackend.value == t.backend ==>
                  s.nodes[key].semanticSource == if key in r.nodes then r.nodes[key].semanticSource else None)
  {
    hide Resolve, Owners;
    var s := AddTarget(r, main, t);
    var frame := t.frameId.GetOr(main);
    var key := Backed(frame, t.backend);
    var r0 := EnsureNode(r, key, frame, Some(t.backend));
    var r1 := Put(r0, r0.nodes[key].(target := Some(t)));
    if t.semanticBackend.Some? {
      SameOwners(r1.nodes, s.nodes, main, t.semanticBackend.value, Some(frame));
    }
  }

  /**
    A layout record goes to the node its backend id resolves to, and else to a node of
    its own in its frame, or the main frame.
   */
  lemma LayoutRecorded(r: Reg, main: string, backend: nat, layout: Layout)
    requires SelfKeyed(r)
    ensures var existing := Resolve(r.nodes, main, backend, layout.frameId);
            var key := existing.GetOr(Backed(layout.frameId.GetOr(main), backend));
            (existing.Some? ==> existing.value in r.nodes) &&
            var s := AddLayout(r, main, backend, layout, existing);
            && s.nodes.Keys == r.nodes.Keys + {key} && s.nodes[key].layout == Some(layout)
            && (key in r.nodes ==> s.nodes[key].frameId == r.nodes[key].frameId && s.nodes[key].backend == r.nodes[key].backend)
            && forall k :: k in r.nodes && k != key ==> s.nodes[k] == r.nodes[k]
  {
  }
}
