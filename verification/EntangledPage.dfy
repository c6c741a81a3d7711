/**
  A page whose nodes the semantic tree loses: its DOM and its accessibility tree nest
  two nodes the opposite way (packages/browser-core/src/browser-semantic-registry.ts,
  packages/browser-core/src/browser-semantic-tree.ts).
 */
module EntangledPage {
  import opened Wrappers
  import opened CanonicalRegistry
  import opened SemanticTree

  const INNER: DomNode := DomNode(2, None, 1, [], [], None)
  const OUTER: DomNode := DomNode(1, None, 1, [INNER], [], None)

  /** The accessibility tree puts the outer node below the inner one. */
  const INNER_AX: AxNode := AxNode("inner", Some(2), false, ["outer"])
  const OUTER_AX: AxNode := AxNode("outer", Some(1), false, [])

  function OuterKey(): Key { Backed("main", 1) }

  function InnerKey(): Key { Backed("main", 2) }

  lemma OuterDom()
    ensures var r := AddDom(Reg(map[], []), OUTER, "main", None);
            && r.nodes.Keys == {OuterKey(), InnerKey()}
            && r.nodes[OuterKey()].domParent == None && r.nodes[OuterKey()].backend == Some(1)
            && r.nodes[InnerKey()].domParent == Some(OuterKey()) && r.nodes[InnerKey()].backend == Some(2)
            && r.nodes[InnerKey()].semanticSource == None && r.nodes[OuterKey()].semanticSource == None
  {
    var empty := Reg(map[], []);
    var r0 := EnsureNode(empty, OuterKey(), "main", Some(1));
    var r1 := Put(r0, WithDom(r0.nodes[OuterKey()], OUTER, None));
    assert OUTER.children[..0] == [];
    var r2 := AddDom(r1, INNER, "main", Some(OuterKey()));
    assert AddDomAll(r1, OUTER.children, "main", OuterKey(), OUTER) == r2;
  }

  /** An accessibility node that owns a backend id merges into the only node of that id. */
  lemma MergesIntoOwner(r: Reg, ax: AxNode, k: Key, b: nat)
    requires SelfKeyed(r) && k in r.nodes && b > 0 && ax.backend == Some(b)
    requires forall j :: j in r.nodes ==> (r.nodes[j].backend == Some(b) <==> j == k)
    ensures AxExisting(r.nodes, "main", ax) == Some(k)
    ensures AddAx(r, "main", ax, Some(k)) == Put(r, r.nodes[k].(ax := Some(ax), provenance := r.nodes[k].provenance + {FromAx}))
  {
    assert Owners(r.nodes, b) == {k};
  }

  lemma InnerMerged(r: Reg)
    requires SelfKeyed(r) && r.nodes.Keys == {OuterKey(), InnerKey()}
    requires r.nodes[OuterKey()].backend == Some(1) && r.nodes[InnerKey()].backend == Some(2)
    ensures var (s, keys) := AddAxNodes(r, "main", [INNER_AX]);
            && keys == map["inner" := InnerKey()] && s.nodes.Keys == r.nodes.Keys
            && s.nodes[OuterKey()] == r.nodes[OuterKey()]
            && s.nodes[InnerKey()] == r.nodes[InnerKey()].(ax := Some(INNER_AX), provenance := r.nodes[InnerKey()].provenance + {FromAx})
  {
    hide AxExisting, AddAx;
    assert [INNER_AX][..0] == [];
    assert AddAxNodes(r, "main", []) == (r, map[]);
    MergesIntoOwner(r, INNER_AX, InnerKey(), 2);
    MergeIsKey(INNER_AX, InnerKey());
  }

  lemma MergeIsKey(ax: AxNode, k: Key)
    ensures AxKey(ax, "main", Some(k)) == k
  {
  }

  lemma BothMerged(r: Reg)
    requires SelfKeyed(r) && r.nodes.Keys == {OuterKey(), InnerKey()}
    requires r.nodes[OuterKey()].backend == Some(1) && r.nodes[InnerKey()].backend == Some(2)
    ensures var (s, keys) := AddAxNodes(r, "main", [INNER_AX, OUTER_AX]);
            && keys == map["inner" := InnerKey(), "outer" := OuterKey()] && s.nodes.Keys == r.nodes.Keys
            && s.nodes[OuterKey()] == r.nodes[OuterKey()].(ax := Some(OUTER_AX), provenance := r.nodes[OuterKey()].provenance + {FromAx})
            && s.nodes[InnerKey()] == r.nodes[InnerKey()].(ax := Some(INNER_AX), provenance := r.nodes[InnerKey()].provenance + {FromAx})
  {
    hide AxExisting, AddAx;
    InnerMerged(r);
    assert [INNER_AX, OUTER_AX][..1] == [INNER_AX];
    var s := AddAxNodes(r, "main", [INNER_AX]).0;
    MergesIntoOwner(s, OUTER_AX, OuterKey(), 1);
    MergeIsKey(OUTER_AX, OuterKey());
  }

  lemma OuterLinkedBelowInner(s: Reg)
    requires SelfKeyed(s) && s.nodes.Keys == {OuterKey(), InnerKey()}
    ensures var keys := map["inner" := InnerKey(), "outer" := OuterKey()];
            LinkAx(s, keys, [INNER_AX, OUTER_AX]) == Put(s, s.nodes[OuterKey()].(axParent := Some(InnerKey())))
  {
    hide LinkChildren, SelfKeyed, Put;
    var keys := map["inner" := InnerKey(), "outer" := OuterKey()];
    assert [INNER_AX, OUTER_AX][..1] == [INNER_AX] && [INNER_AX][..0] == [];
    assert LinkAx(s, keys, []) == s;
    OneChildLinked(s, keys);
    var t := LinkChildren(s, keys, InnerKey(), ["outer"]);
    assert LinkAx(s, keys, [INNER_AX]) == t;
    NoChildLinked(t, keys, OuterKey());
  }

  lemma OneChildLinked(s: Reg, keys: map<string, Key>)
    requires SelfKeyed(s) && OuterKey() in s.nodes && "outer" in keys && keys["outer"] == OuterKey()
    ensures LinkChildren(s, keys, InnerKey(), ["outer"]) == Put(s, s.nodes[OuterKey()].(axParent := Some(InnerKey())))
  {
    assert ["outer"][..0] == [];
    NoChildLinked(s, keys, InnerKey());
  }

  lemma NoChildLinked(s: Reg, keys: map<string, Key>, parent: Key)
    requires SelfKeyed(s)
    ensures LinkChildren(s, keys, parent, []) == s
  {
  }

  /** The registry the calls build: each of the two nodes is the other's parent. */
  lemma NodesAboveEachOther()
    ensures var r := AddDom(Reg(map[], []), OUTER, "main", None);
            var (s, keys) := AddAxNodes(r, "main", [INNER_AX, OUTER_AX]);
            var t := LinkAx(s, keys, [INNER_AX, OUTER_AX]);
            && t.nodes.Keys == {OuterKey(), InnerKey()}
            && ParentOf(t.nodes, OuterKey()) == Some(InnerKey()) && ParentOf(t.nodes, InnerKey()) == Some(OuterKey())
            && (forall k :: k in t.nodes ==> t.nodes[k].semanticSource == None && t.nodes[k].ax.Some? && !t.nodes[k].ax.value.ignored)
  {
    hide AddDom, AddAxNodes, LinkAx;
    OuterDom();
    var r := AddDom(Reg(map[], []), OUTER, "main", None);
    BothMerged(r);
    OuterLinkedBelowInner(AddAxNodes(r, "main", [INNER_AX, OUTER_AX]).0);
  }

  lemma ParentsAreEntangled(nodes: map<Key, CanonicalNode>, kept: set<Key>, v: Key, w: Key)
    requires v in kept && w in kept && v != w && ParentOf(nodes, v) == Some(w) && ParentOf(nodes, w) == Some(v)
    ensures Entangled(nodes, kept, v, w)
  {
    assert Up(nodes, v, 0) == Some(v) && Up(nodes, w, 0) == Some(w);
    assert Up(nodes, v, 1) == Some(w) && Up(nodes, w, 1) == Some(v);
  }

  /**
    Nodes do get lost: a page of two meaningful nodes, one inside the other in the DOM
    and the other way round in the accessibility tree. Both are kept, and no root
    reaches either.
   */
  method BuildLosingBoth() returns (f: Forest, stats: Stats, ghost kept: set<Key>)
    ensures kept == {OuterKey(), InnerKey()} && stats.semantic == 2
    ensures f.roots == [] && !Reached(f, OuterKey()) && !Reached(f, InnerKey())
  {
    hide AddDom, AddAxNodes, LinkAx, IsContraction, Reached, KeptKeys, Judged, WellKeyed, Entangled, Owners, IndexAgrees, Resolve;
    var registry := new CanonicalNodeRegistry("main");
    registry.AddDomTree(OUTER);
    registry.AddAxTree([INNER_AX, OUTER_AX]);
    var r := Reg(registry.nodes, registry.order);
    var traits := (k: Key) => Traits(false, false, true);
    f, stats := BuildSemanticPageTree(r, traits);
    NodesAboveEachOther();
    kept := KeptKeys(r, traits);
    BothKept(r, traits);
    ParentsAreEntangled(r.nodes, kept, OuterKey(), InnerKey());
    ParentsAreEntangled(r.nodes, kept, InnerKey(), OuterKey());
    NeitherReached(f, r, kept);
  }

  lemma BothKept(r: Reg, traits: Key -> Traits)
    requires WellKeyed(r) && r.nodes.Keys == {OuterKey(), InnerKey()}
    requires forall k :: k in r.nodes ==> r.nodes[k].semanticSource == None && r.nodes[k].ax.Some? && !r.nodes[k].ax.value.ignored
    requires forall k :: traits(k) == Traits(false, false, true)
    ensures KeptKeys(r, traits) == {OuterKey(), InnerKey()}
  {
    assert AliasedSources(r) == {};
  }

  lemma NeitherReached(f: Forest, r: Reg, kept: set<Key>)
    requires WellKeyed(r) && kept == r.nodes.Keys == {OuterKey(), InnerKey()} && IsContraction(f, r, kept)
    requires Entangled(r.nodes, kept, OuterKey(), InnerKey()) && Entangled(r.nodes, kept, InnerKey(), OuterKey())
    ensures f.roots == [] && !Reached(f, OuterKey()) && !Reached(f, InnerKey()) && |f.children.Keys| == 2
  {
    hide WellKeyed, Entangled, Descends, Hanging;
    if f.roots != [] {
      var u := f.roots[0];
      RootsAndChildren(f, r, kept, u);
      RootIsReached(f, u);
      EntangledIsUnreached(f, r, kept, u, if u == OuterKey() then InnerKey() else OuterKey(), u, 0);
    }
  }

  lemma RootIsReached(f: Forest, u: Key)
    ensures Descends(f, u, u, 0)
  {
  }
}
