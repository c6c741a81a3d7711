/**
  The registry of canonical page nodes and its index by backend node id
  (packages/browser-core/src/browser-semantic-registry.ts).

  `Reg` and the functions on it are the reference model: every lookup scans all
  nodes. The class keeps the index the source keeps and is proved to compute the
  same registry.
 */
module CanonicalRegistry {
  import opened Wrappers

  /** The source's two string shapes for a key: `frame:backend` and `ax:id`. */
  datatype Key = Backed(frame: string, backend: nat) | AxOnly(axId: string)

  datatype Provenance = FromDom | FromSnapshot | FromAx

  datatype DomNode = DomNode(
    backend: nat,
    frameId: Option<string>,
    nodeType: nat,
    children: seq<DomNode>,
    shadowRoots: seq<DomNode>,
    contentDocument: Option<DomNode>)

  /** A layout record; `payload` stands for the styles and bounds the registry only stores. */
  datatype Layout = Layout(frameId: Option<string>, payload: int)

  datatype AxNode = AxNode(nodeId: string, backend: Option<nat>, ignored: bool, childIds: seq<string>)

  datatype Target = Target(backend: nat, frameId: Option<string>, semanticBackend: Option<nat>, payload: int)

  datatype CanonicalNode = CanonicalNode(
    key: Key,
    frameId: string,
    backend: Option<nat>,
    dom: Option<DomNode>,
    layout: Option<Layout>,
    ax: Option<AxNode>,
    target: Option<Target>,
    domParent: Option<Key>,
    axParent: Option<Key>,
    semanticSource: Option<Key>,
    provenance: set<Provenance>)

  /** The registry's contents, in insertion order. */
  datatype Reg = Reg(nodes: map<Key, CanonicalNode>, order: seq<Key>)

  // ------------------------------------------------------------- reference model

  function Fresh(key: Key, frameId: string, backend: Option<nat>): CanonicalNode {
    CanonicalNode(key, frameId, backend, None, None, None, None, None, None, None, {})
  }

  function EnsureNode(r: Reg, key: Key, frameId: string, backend: Option<nat>): (s: Reg)
    ensures key in s.nodes && s.nodes.Keys == r.nodes.Keys + {key}
    ensures forall k :: k in r.nodes ==> s.nodes[k] == r.nodes[k]
  {
    if key in r.nodes then r
    else Reg(r.nodes[key := Fresh(key, frameId, backend)], r.order + [key])
  }

  /** Every key owning a backend node id, found by looking at every node. */
  ghost function Owners(nodes: map<Key, CanonicalNode>, backend: nat): set<Key> {
    set k | k in nodes && nodes[k].backend == Some(backend)
  }

  /**
    Which node a backend id and an optional frame denote: the exact frame's node,
    else the only owner, else the main frame's node when it is an owner, else none.
   */
  ghost function Resolve(nodes: map<Key, CanonicalNode>, main: string, backend: nat, frameId: Option<string>): Option<Key> {
    if frameId.Some? && frameId.value != "" && Backed(frameId.value, backend) in nodes
    then Some(Backed(frameId.value, backend))
    else
      var owners := Owners(nodes, backend);
      if k :| owners == {k} then Some(k)
      else if Backed(main, backend) in owners then Some(Backed(main, backend))
      else None
  }

  /** Overwrite one node's record without touching which backend id it owns. */
  function Put(r: Reg, c: CanonicalNode): (s: Reg)
    requires c.key in r.nodes
    ensures s.nodes.Keys == r.nodes.Keys
  {
    r.(nodes := r.nodes[c.key := c])
  }

  function WithDom(c: CanonicalNode, node: DomNode, parent: Option<Key>): CanonicalNode {
    c.(dom := Some(node),
       provenance := c.provenance + {FromDom},
       domParent := if parent.Some? && parent.value != c.key then parent else c.domParent)
  }

  function DomFrame(node: DomNode, inherited: string): string {
    node.frameId.GetOr(inherited)
  }

  function DomKey(node: DomNode, inherited: string): Key {
    Backed(DomFrame(node, inherited), node.backend)
  }

  /** Every node sits under its own key. */
  ghost predicate SelfKeyed(r: Reg) {
    forall k :: k in r.nodes ==> r.nodes[k].key == k
  }

  /** No key is listed twice. */
  ghost predicate Distinct(s: seq<Key>) {
    s != [] ==> Distinct(s[..|s| - 1]) && s[|s| - 1] !in s[..|s| - 1]
  }

  /** Well-keyed registries: a node sits under its own key, and backed keys say what they own. */
  ghost predicate WellKeyed(r: Reg) {
    && SelfKeyed(r)
    && (forall k :: k in r.nodes && k.Backed? ==> r.nodes[k].backend == Some(k.backend) && r.nodes[k].frameId == k.frame)
    && (forall k :: k in r.order <==> k in r.nodes)
    && Distinct(r.order)
  }

  function AddDom(r: Reg, node: DomNode, inherited: string, parent: Option<Key>): (s: Reg)
    requires SelfKeyed(r)
    ensures SelfKeyed(s)
    decreases node, 0
  {
    var frame := DomFrame(node, inherited);
    var key := DomKey(node, inherited);
    var r0 := EnsureNode(r, key, frame, Some(node.backend));
    var r1 := Put(r0, WithDom(r0.nodes[key], node, parent));
    var r2 := AddDomAll(r1, node.children, frame, key, node);
    var r3 := AddDomAll(r2, node.shadowRoots, frame, key, node);
    if node.contentDocument.Some? then AddDom(r3, node.contentDocument.value, frame, Some(key)) else r3
  }

  function AddDomAll(r: Reg, nodes: seq<DomNode>, frame: string, parent: Key, ghost owner: DomNode): (s: Reg)
    requires SelfKeyed(r)
    requires forall i :: 0 <= i < |nodes| ==> nodes[i] < owner
    ensures SelfKeyed(s)
    decreases owner, 0, |nodes|
  {
    if nodes == [] then r
    else
      var init := nodes[..|nodes| - 1];
      AddDom(AddDomAll(r, init, frame, parent, owner), nodes[|nodes| - 1], frame, Some(parent))
  }

  function AddLayout(r: Reg, main: string, backend: nat, layout: Layout, existing: Option<Key>): (s: Reg)
    requires SelfKeyed(r)
    requires existing.Some? ==> existing.value in r.nodes
    ensures SelfKeyed(s)
  {
    var inherited := if existing.Some? then r.nodes[existing.value].frameId else main;
    var frame := layout.frameId.GetOr(inherited);
    var key := existing.GetOr(Backed(frame, backend));
    var r0 := EnsureNode(r, key, frame, Some(backend));
    Put(r0, r0.nodes[key].(layout := Some(layout), provenance := r0.nodes[key].provenance + {FromSnapshot}))
  }

  ghost function AddLayouts(r: Reg, main: string, records: seq<(nat, Layout)>): (s: Reg)
    requires SelfKeyed(r)
    ensures SelfKeyed(s)
    decreases |records|
  {
    if records == [] then r
    else
      var r0 := AddLayouts(r, main, records[..|records| - 1]);
      var (backend, layout) := records[|records| - 1];
      AddLayout(r0, main, backend, layout, Resolve(r0.nodes, main, backend, layout.frameId))
  }

  /** A backend id of 0 counts as absent here, although `EnsureNode` still records it. */
  function AxBackend(ax: AxNode): Option<nat> {
    if ax.backend == Some(0) then None else ax.backend
  }

  function AxKey(ax: AxNode, main: string, existing: Option<Key>): Key {
    existing.GetOr(match AxBackend(ax)
                   case Some(b) => Backed(main, b)
                   case None => AxOnly(ax.nodeId))
  }

  function AddAx(r: Reg, main: string, ax: AxNode, existing: Option<Key>): (s: Reg)
    requires SelfKeyed(r)
    requires existing.Some? ==> existing.value in r.nodes
    ensures SelfKeyed(s)
    ensures s.nodes.Keys == r.nodes.Keys + {AxKey(ax, main, existing)}
  {
    var key := AxKey(ax, main, existing);
    var frame := if existing.Some? then r.nodes[existing.value].frameId else main;
    var r0 := EnsureNode(r, key, frame, ax.backend);
    Put(r0, r0.nodes[key].(ax := Some(ax), provenance := r0.nodes[key].provenance + {FromAx}))
  }

  ghost function AxExisting(nodes: map<Key, CanonicalNode>, main: string, ax: AxNode): Option<Key> {
    match AxBackend(ax)
    case Some(b) => Resolve(nodes, main, b, None)
    case None => None
  }

  /** First pass over the accessibility tree: merge every node, remember its key by its id. */
  ghost function AddAxNodes(r: Reg, main: string, nodes: seq<AxNode>): (s: (Reg, map<string, Key>))
    requires SelfKeyed(r)
    ensures SelfKeyed(s.0)
    ensures forall id :: id in s.1 ==> s.1[id] in s.0.nodes
    decreases |nodes|
  {
    if nodes == [] then (r, map[])
    else
      var (r0, keys) := AddAxNodes(r, main, nodes[..|nodes| - 1]);
      var ax := nodes[|nodes| - 1];
      var existing := AxExisting(r0.nodes, main, ax);
      (AddAx(r0, main, ax, existing), keys[ax.nodeId := AxKey(ax, main, existing)])
  }

  function LinkChild(r: Reg, keys: map<string, Key>, parent: Key, childId: string): (s: Reg)
    requires SelfKeyed(r)
    ensures SelfKeyed(s)
    ensures s.nodes.Keys == r.nodes.Keys
  {
    if childId in keys && keys[childId] != parent && keys[childId] in r.nodes
    then Put(r, r.nodes[keys[childId]].(axParent := Some(parent)))
    else r
  }

  function LinkChildren(r: Reg, keys: map<string, Key>, parent: Key, childIds: seq<string>): (s: Reg)
    requires SelfKeyed(r)
    ensures SelfKeyed(s)
    ensures s.nodes.Keys == r.nodes.Keys
    decreases |childIds|
  {
    if childIds == [] then r
    else LinkChild(LinkChildren(r, keys, parent, childIds[..|childIds| - 1]), keys, parent, childIds[|childIds| - 1])
  }

  /** Second pass: record accessibility parents; the last parent that lists a child wins. */
  function LinkAx(r: Reg, keys: map<string, Key>, nodes: seq<AxNode>): (s: Reg)
    requires SelfKeyed(r)
    ensures SelfKeyed(s)
    ensures s.nodes.Keys == r.nodes.Keys
    decreases |nodes|
  {
    if nodes == [] then r
    else
      var r0 := LinkAx(r, keys, nodes[..|nodes| - 1]);
      var ax := nodes[|nodes| - 1];
      if ax.nodeId in keys then LinkChildren(r0, keys, keys[ax.nodeId], ax.childIds) else r0
  }

  ghost function AddTarget(r: Reg, main: string, t: Target): (s: Reg)
    requires SelfKeyed(r)
    ensures SelfKeyed(s)
  {
    var frame := t.frameId.GetOr(main);
    var key := Backed(frame, t.backend);
    var r0 := EnsureNode(r, key, frame, Some(t.backend));
    var r1 := Put(r0, r0.nodes[key].(target := Some(t)));
    if t.semanticBackend.Some? && t.semanticBackend.value != t.backend
    then
      var source := Resolve(r1.nodes, main, t.semanticBackend.value, Some(frame));
      Put(r1, r1.nodes[key].(semanticSource := Some(source.GetOr(Backed(frame, t.semanticBackend.value)))))
    else r1
  }

  ghost function AddTargets(r: Reg, main: string, targets: seq<Target>): (s: Reg)
    requires SelfKeyed(r)
    ensures SelfKeyed(s)
    decreases |targets|
  {
    if targets == [] then r
    else AddTarget(AddTargets(r, main, targets[..|targets| - 1]), main, targets[|targets| - 1])
  }

  // ------------------------------------------------------------------ the index

  ghost function Indexed(index: map<nat, set<Key>>, backend: nat): set<Key> {
    if backend in index then index[backend] else {}
  }

  /** The index holds, for every backend id, exactly the keys a full scan would find. */
  ghost predicate IndexAgrees(nodes: map<Key, CanonicalNode>, index: map<nat, set<Key>>) {
    forall b: nat :: Indexed(index, b) == Owners(nodes, b)
  }

  /** Records may change freely under the index as long as no node changes its backend id. */
  lemma IndexSurvivesUpdate(nodes: map<Key, CanonicalNode>, index: map<nat, set<Key>>, k: Key, c: CanonicalNode)
    requires IndexAgrees(nodes, index)
    requires k in nodes && c.backend == nodes[k].backend
    ensures IndexAgrees(nodes[k := c], index)
  {
    forall b: nat
      ensures Indexed(index, b) == Owners(nodes[k := c], b)
    {
      assert Indexed(index, b) == Owners(nodes, b);
      assert Owners(nodes[k := c], b) == Owners(nodes, b);
    }
  }

  /** The index after a node with this backend id has been added under the key. */
  function WithOwner(index: map<nat, set<Key>>, key: Key, backend: Option<nat>): map<nat, set<Key>> {
    if backend.None? then index
    else index[backend.value := (if backend.value in index then index[backend.value] else {}) + {key}]
  }

  lemma AddedToIndex(nodes: map<Key, CanonicalNode>, index: map<nat, set<Key>>, key: Key, frameId: string, backend: Option<nat>)
    requires IndexAgrees(nodes, index) && key !in nodes
    ensures IndexAgrees(nodes[key := Fresh(key, frameId, backend)], WithOwner(index, key, backend))
  {
    var added := nodes[key := Fresh(key, frameId, backend)];
    forall b: nat
      ensures Indexed(WithOwner(index, key, backend), b) == Owners(added, b)
    {
      assert Indexed(index, b) == Owners(nodes, b);
      assert Owners(added, b) == Owners(nodes, b) + if backend == Some(b) then {key} else {};
    }
  }

  lemma AddedWellKeyed(r: Reg, key: Key, frameId: string, backend: Option<nat>)
    requires WellKeyed(r) && key !in r.nodes
    requires key.Backed? ==> frameId == key.frame && backend == Some(key.backend)
    ensures WellKeyed(Reg(r.nodes[key := Fresh(key, frameId, backend)], r.order + [key]))
  {
    assert (r.order + [key])[..|r.order|] == r.order;
  }

  class CanonicalNodeRegistry {
    const mainFrameId: string
    var nodes: map<Key, CanonicalNode>
    var order: seq<Key>
    var keysByBackendNodeId: map<nat, set<Key>>

    ghost function View(): Reg
      reads this
    {
      Reg(nodes, order)
    }

    ghost predicate Valid()
      reads this
    {
      WellKeyed(View()) && IndexAgrees(nodes, keysByBackendNodeId)
    }

    constructor (mainFrameId: string)
      ensures Valid() && View() == Reg(map[], []) && this.mainFrameId == mainFrameId
    {
      this.mainFrameId := mainFrameId;
      nodes, order, keysByBackendNodeId := map[], [], map[];
      new;
      assert forall b: nat :: Owners(nodes, b) == {};
    }

    method Ensure(key: Key, frameId: string, backend: Option<nat>)
      requires Valid()
      requires key in nodes || (key.Backed? ==> frameId == key.frame && backend == Some(key.backend))
      modifies this
      ensures Valid() && View() == EnsureNode(old(View()), key, frameId, backend)
    {
      hide WellKeyed, IndexAgrees;
      if key in nodes {
        return;
      }
      AddedWellKeyed(View(), key, frameId, backend);
      AddedToIndex(nodes, keysByBackendNodeId, key, frameId, backend);
      nodes := nodes[key := Fresh(key, frameId, backend)];
      order := order + [key];
      if backend.Some? {
        var keys := if backend.value in keysByBackendNodeId then keysByBackendNodeId[backend.value] else {};
        keysByBackendNodeId := keysByBackendNodeId[backend.value := keys + {key}];
      }
    }

    method Update(c: CanonicalNode)
      requires Valid()
      requires c.key in nodes && c.backend == nodes[c.key].backend && c.frameId == nodes[c.key].frameId
      modifies this`nodes
      ensures Valid() && View() == Put(old(View()), c)
    {
      IndexSurvivesUpdate(nodes, keysByBackendNodeId, c.key, c);
      nodes := nodes[c.key := c];
    }

    method ResolveKey(backend: nat, frameId: Option<string>) returns (r: Option<Key>)
      requires Valid()
      ensures r == Resolve(nodes, mainFrameId, backend, frameId)
      ensures r.Some? ==> r.value in nodes
    {
      if frameId.Some? && frameId.value != "" {
        var exact := Backed(frameId.value, backend);
        if exact in nodes {
          return Some(exact);
        }
      }
      assert Indexed(keysByBackendNodeId, backend) == Owners(nodes, backend);
      if backend !in keysByBackendNodeId || |keysByBackendNodeId[backend]| == 0 {
        assert Owners(nodes, backend) == {};
        return None;
      }
      var keys := keysByBackendNodeId[backend];
      if |keys| == 1 {
        var k :| k in keys;
        SingletonIsItsElement(keys, k);
        return Some(k);
      }
      assert forall k :: keys == {k} ==> |keys| == 1;
      var mainFrameKey := Backed(mainFrameId, backend);
      return if mainFrameKey in keys then Some(mainFrameKey) else None;
    }

    method AddDomTree(root: DomNode)
      requires Valid()
      modifies this
      ensures Valid() && View() == AddDom(old(View()), root, mainFrameId, None)
    {
      Visit(root, mainFrameId, None);
    }

    method Visit(node: DomNode, inherited: string, parent: Option<Key>)
      requires Valid()
      modifies this
      ensures Valid() && View() == AddDom(old(View()), node, inherited, parent)
      decreases node, 0
    {
      var frame := DomFrame(node, inherited);
      var key := DomKey(node, inherited);
      Ensure(key, frame, Some(node.backend));
      Update(WithDom(nodes[key], node, parent));
      VisitAll(node.children, frame, key, node);
      VisitAll(node.shadowRoots, frame, key, node);
      if node.contentDocument.Some? {
        Visit(node.contentDocument.value, frame, Some(key));
      }
    }

    method VisitAll(children: seq<DomNode>, frame: string, parent: Key, ghost owner: DomNode)
      requires Valid()
      requires forall i :: 0 <= i < |children| ==> children[i] < owner
      modifies this
      ensures Valid() && View() == AddDomAll(old(View()), children, frame, parent, owner)
      decreases owner, 0, |children|
    {
      for i := 0 to |children|
        invariant Valid()
        invariant View() == AddDomAll(old(View()), children[..i], frame, parent, owner)
      {
        Visit(children[i], frame, Some(parent));
        assert children[..i + 1][..i] == children[..i];
      }
      assert children[..|children|] == children;
    }

    method AddSnapshotRecords(records: seq<(nat, Layout)>)
      requires Valid()
      modifies this
      ensures Valid() && View() == AddLayouts(old(View()), mainFrameId, records)
    {
      for i := 0 to |records|
        invariant Valid()
        invariant View() == AddLayouts(old(View()), mainFrameId, records[..i])
      {
        var (backend, layout) := records[i];
        var existing := ResolveKey(backend, layout.frameId);
        var inherited := if existing.Some? then nodes[existing.value].frameId else mainFrameId;
        var frame := layout.frameId.GetOr(inherited);
        var key := existing.GetOr(Backed(frame, backend));
        Ensure(key, frame, Some(backend));
        Update(nodes[key].(layout := Some(layout), provenance := nodes[key].provenance + {FromSnapshot}));
        assert records[..i + 1][..i] == records[..i];
      }
      assert records[..|records|] == records;
    }

    method AddAxTree(axNodes: seq<AxNode>)
      requires Valid()
      modifies this
      ensures Valid()
      ensures var (r, keys) := AddAxNodes(old(View()), mainFrameId, axNodes); View() == LinkAx(r, keys, axNodes)
    {
      var keyByAxId := MergeAxNodes(axNodes);
      LinkAxNodes(keyByAxId, axNodes);
    }

    method MergeAxNodes(axNodes: seq<AxNode>) returns (keyByAxId: map<string, Key>)
      requires Valid()
      modifies this
      ensures Valid()
      ensures (View(), keyByAxId) == AddAxNodes(old(View()), mainFrameId, axNodes)
    {
      keyByAxId := map[];
      for i := 0 to |axNodes|
        invariant Valid()
        invariant (View(), keyByAxId) == AddAxNodes(old(View()), mainFrameId, axNodes[..i])
      {
        var key := MergeAx(axNodes[i]);
        keyByAxId := keyByAxId[axNodes[i].nodeId := key];
        assert axNodes[..i + 1][..i] == axNodes[..i];
      }
      assert axNodes[..|axNodes|] == axNodes;
    }

    method LinkAxNodes(keyByAxId: map<string, Key>, axNodes: seq<AxNode>)
      requires Valid()
      modifies this
      ensures Valid() && View() == LinkAx(old(View()), keyByAxId, axNodes)
    {
      for i := 0 to |axNodes|
        invariant Valid()
        invariant View() == LinkAx(old(View()), keyByAxId, axNodes[..i])
      {
        var ax := axNodes[i];
        if ax.nodeId in keyByAxId {
          LinkAxChildren(keyByAxId, keyByAxId[ax.nodeId], ax.childIds);
        }
        assert axNodes[..i + 1][..i] == axNodes[..i];
      }
      assert axNodes[..|axNodes|] == axNodes;
    }

    method MergeAx(ax: AxNode) returns (key: Key)
      requires Valid()
      modifies this
      ensures Valid()
      ensures var existing := AxExisting(old(nodes), mainFrameId, ax);
              && key == AxKey(ax, mainFrameId, existing)
              && (existing.Some? ==> existing.value in old(nodes))
              && View() == AddAx(old(View()), mainFrameId, ax, existing)
    {
      var existing := None;
      if AxBackend(ax).Some? {
        existing := ResolveKey(AxBackend(ax).value, None);
      }
      key := AxKey(ax, mainFrameId, existing);
      var frame := if existing.Some? then nodes[existing.value].frameId else mainFrameId;
      Ensure(key, frame, ax.backend);
      Update(nodes[key].(ax := Some(ax), provenance := nodes[key].provenance + {FromAx}));
    }

    method LinkAxChildren(keys: map<string, Key>, parent: Key, childIds: seq<string>)
      requires Valid()
      modifies this
      ensures Valid() && View() == LinkChildren(old(View()), keys, parent, childIds)
    {
      for i := 0 to |childIds|
        invariant Valid()
        invariant View() == LinkChildren(old(View()), keys, parent, childIds[..i])
      {
        var childId := childIds[i];
        if childId in keys && keys[childId] != parent && keys[childId] in nodes {
          Update(nodes[keys[childId]].(axParent := Some(parent)));
        }
        assert childIds[..i + 1][..i] == childIds[..i];
      }
      assert childIds[..|childIds|] == childIds;
    }

    method AddInteractiveElements(targets: seq<Target>)
      requires Valid()
      modifies this
      ensures Valid() && View() == AddTargets(old(View()), mainFrameId, targets)
    {
      for i := 0 to |targets|
        invariant Valid()
        invariant View() == AddTargets(old(View()), mainFrameId, targets[..i])
      {
        var t := targets[i];
        var frame := t.frameId.GetOr(mainFrameId);
        var key := Backed(frame, t.backend);
        Ensure(key, frame, Some(t.backend));
        Update(nodes[key].(target := Some(t)));
        if t.semanticBackend.Some? && t.semanticBackend.value != t.backend {
          var source := ResolveKey(t.semanticBackend.value, Some(frame));
          Update(nodes[key].(semanticSource := Some(source.GetOr(Backed(frame, t.semanticBackend.value)))));
        }
        assert targets[..i + 1][..i] == targets[..i];
      }
      assert targets[..|targets|] == targets;
    }
  }

  lemma SingletonIsItsElement<T>(s: set<T>, x: T)
    requires x in s && |s| == 1
    ensures s == {x}
  {
    assert |s - {x}| == 0;
  }
}
