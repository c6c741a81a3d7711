/**
  Where acyclic links come from: a DOM tree whose nodes have different keys, added to
  an empty registry (packages/browser-core/src/browser-semantic-registry.ts,
  packages/browser-core/src/browser-semantic-tree.ts).
 */
module DomForest {
  import opened Wrappers
  import opened CanonicalRegistry
  import opened SemanticTree

  /** The keys of a DOM tree in the order the walk meets them. */
  function DomKeys(node: DomNode, inherited: string): seq<Key>
    decreases node, 0
  {
    var frame := DomFrame(node, inherited);
    [DomKey(node, inherited)]
    + DomKeysAll(node.children, frame, node)
    + DomKeysAll(node.shadowRoots, frame, node)
    + if node.contentDocument.Some? then DomKeys(node.contentDocument.value, frame) else []
  }

  function DomKeysAll(nodes: seq<DomNode>, frame: string, ghost owner: DomNode): seq<Key>
    requires forall i :: 0 <= i < |nodes| ==> nodes[i] < owner
    decreases owner, 0, |nodes|
  {
    if nodes == [] then []
    else DomKeysAll(nodes[..|nodes| - 1], frame, owner) + DomKeys(nodes[|nodes| - 1], frame)
  }

  /** Every node is listed once, after its parent. */
  ghost predicate ParentsFirst(r: Reg) {
    && SelfKeyed(r)
    && (forall k :: k in r.nodes <==> k in r.order)
    && forall i :: 0 <= i < |r.order| ==>
         ParentOf(r.nodes, r.order[i]).Some? ==> ParentOf(r.nodes, r.order[i]).value in r.order[..i]
  }

  /** s is r with these keys added at the end, nothing else changed. */
  ghost predicate Grown(r: Reg, s: Reg, keys: seq<Key>) {
    && ParentsFirst(s) && s.order == r.order + keys
    && forall k :: k in r.nodes ==> k in s.nodes && s.nodes[k] == r.nodes[k]
  }

  lemma GrownTwice(r: Reg, s: Reg, t: Reg, keys: seq<Key>, more: seq<Key>)
    requires Grown(r, s, keys) && Grown(s, t, more)
    ensures Grown(r, t, keys + more)
  {
    hide ParentsFirst;
    assert r.order + keys + more == r.order + (keys + more);
  }

  lemma {:induction false} DistinctFront(a: seq<Key>, b: seq<Key>)
    requires Distinct(a + b)
    ensures Distinct(a)
  {
    if b == [] {
      assert a + b == a;
    } else {
      assert (a + b)[..|a + b| - 1] == a + b[..|b| - 1];
      DistinctFront(a, b[..|b| - 1]);
    }
  }

  lemma NotYetListed(order: seq<Key>, key: Key, rest: seq<Key>)
    requires Distinct(order + ([key] + rest))
    ensures key !in order
  {
    assert order + ([key] + rest) == (order + [key]) + rest;
    DistinctFront(order + [key], rest);
    assert (order + [key])[..|order|] == order;
  }

  /** The node itself comes right after everything listed so far, its parent included. */
  lemma NodeGrows(r: Reg, node: DomNode, inherited: string, parent: Option<Key>)
    requires ParentsFirst(r) && DomKey(node, inherited) !in r.order
    requires parent.Some? ==> parent.value in r.nodes
    ensures var key := DomKey(node, inherited);
            EnsureNode(r, key, DomFrame(node, inherited), Some(node.backend)).nodes[key].key == key
    ensures var key := DomKey(node, inherited);
            var r0 := EnsureNode(r, key, DomFrame(node, inherited), Some(node.backend));
            var r1 := Put(r0, WithDom(r0.nodes[key], node, parent));
            Grown(r, r1, [key]) && key in r1.nodes
  {
    var key := DomKey(node, inherited);
    var r0 := EnsureNode(r, key, DomFrame(node, inherited), Some(node.backend));
    var r1 := Put(r0, WithDom(r0.nodes[key], node, parent));
    assert r1.order == r.order + [key];
    forall i | 0 <= i < |r1.order|
      ensures ParentOf(r1.nodes, r1.order[i]).Some? ==> ParentOf(r1.nodes, r1.order[i]).value in r1.order[..i]
    {
      if i < |r.order| {
        assert r1.order[i] == r.order[i] && r1.order[..i] == r.order[..i];
        assert r.order[i] in r.order;
      } else {
        assert r1.order[i] == key && r1.order[..i] == r.order;
      }
    }
  }

  /** After some of the keys have been added, the next ones are still to come once. */
  lemma StillToCome(r: Reg, s: Reg, keys: seq<Key>, more: seq<Key>, rest: seq<Key>)
    requires Grown(r, s, keys) && Distinct(r.order + (keys + more + rest))
    ensures ParentsFirst(s) && SelfKeyed(s) && Distinct(s.order + more)
  {
    hide Distinct;
    assert r.order + (keys + more + rest) == (s.order + more) + rest;
    DistinctFront(s.order + more, rest);
  }

  /** The walk adds the tree's keys in order, each after its parent. */
  lemma {:induction false} DomGrows(r: Reg, node: DomNode, inherited: string, parent: Option<Key>)
    requires ParentsFirst(r) && Distinct(r.order + DomKeys(node, inherited))
    requires parent.Some? ==> parent.value in r.nodes
    ensures Grown(r, AddDom(r, node, inherited, parent), DomKeys(node, inherited))
    decreases node, 0
  {
    hide Distinct, ParentsFirst, Grown, EnsureNode, Put, AddDomAll, DomKeysAll, SelfKeyed;
    var frame, key := DomFrame(node, inherited), DomKey(node, inherited);
    var a, b := DomKeysAll(node.children, frame, node), DomKeysAll(node.shadowRoots, frame, node);
    var c := if node.contentDocument.Some? then DomKeys(node.contentDocument.value, frame) else [];
    assert DomKeys(node, inherited) == [key] + a + b + c;
    assert [key] + a + b + c == [key] + (a + b + c) == [key] + a + (b + c) == [key] + a + b + c + [];
    NotYetListed(r.order, key, a + b + c);
    ListedIsSelfKeyed(r);
    NodeGrows(r, node, inherited, parent);
    var r0 := EnsureNode(r, key, frame, Some(node.backend));
    var r1 := Put(r0, WithDom(r0.nodes[key], node, parent));
    StillToCome(r, r1, [key], a, b + c);
    DomAllGrows(r1, node.children, frame, key, node);
    var r2 := AddDomAll(r1, node.children, frame, key, node);
    GrownTwice(r, r1, r2, [key], a);
    StillToCome(r, r2, [key] + a, b, c);
    StillThere(r1, r2, a, key);
    DomAllGrows(r2, node.shadowRoots, frame, key, node);
    var r3 := AddDomAll(r2, node.shadowRoots, frame, key, node);
    GrownTwice(r, r2, r3, [key] + a, b);
    StillToCome(r, r3, [key] + a + b, c, []);
    StillThere(r2, r3, b, key);
    if node.contentDocument.Some? {
      DomGrows(r3, node.contentDocument.value, frame, Some(key));
      GrownTwice(r, r3, AddDom(r3, node.contentDocument.value, frame, Some(key)), [key] + a + b, c);
    } else {
      assert [key] + a + b + c == [key] + a + b;
    }
  }

  lemma ListedIsSelfKeyed(r: Reg)
    requires ParentsFirst(r)
    ensures SelfKeyed(r)
  {
  }

  lemma StillThere(r: Reg, s: Reg, keys: seq<Key>, k: Key)
    requires Grown(r, s, keys) && k in r.nodes
    ensures k in s.nodes
  {
  }

  lemma {:induction false} DomAllGrows(r: Reg, nodes: seq<DomNode>, frame: string, parent: Key, owner: DomNode)
    requires forall i :: 0 <= i < |nodes| ==> nodes[i] < owner
    requires ParentsFirst(r) && Distinct(r.order + DomKeysAll(nodes, frame, owner)) && parent in r.nodes
    ensures Grown(r, AddDomAll(r, nodes, frame, parent, owner), DomKeysAll(nodes, frame, owner))
    decreases owner, 0, |nodes|
  {
    hide Distinct, ParentsFirst, Grown, SelfKeyed;
    ListedIsSelfKeyed(r);
    if nodes == [] {
      NothingGrown(r);
    } else {
      var init, last := nodes[..|nodes| - 1], nodes[|nodes| - 1];
      var a, b := DomKeysAll(init, frame, owner), DomKeys(last, frame);
      assert r.order + (a + b) == (r.order + a) + b;
      DistinctFront(r.order + a, b);
      DomAllGrows(r, init, frame, parent, owner);
      var r0 := AddDomAll(r, init, frame, parent, owner);
      assert a + b == a + b + [];
      StillToCome(r, r0, a, b, []);
      StillThere(r, r0, a, parent);
      DomGrows(r0, last, frame, Some(parent));
      GrownTwice(r, r0, AddDom(r0, last, frame, Some(parent)), a, b);
    }
  }

  lemma NothingGrown(r: Reg)
    requires ParentsFirst(r)
    ensures Grown(r, r, [])
  {
    assert r.order + [] == r.order;
  }

  /** Going up goes back in the order. */
  lemma {:induction false} UpGoesBack(r: Reg, i: nat, n: nat)
    requires ParentsFirst(r) && i < |r.order| && n >= 1 && Up(r.nodes, r.order[i], n).Some?
    ensures Up(r.nodes, r.order[i], n).value in r.order[..i]
    decreases n
  {
    var p := ParentOf(r.nodes, r.order[i]).value;
    var j :| 0 <= j < i && r.order[j] == p;
    if n > 1 {
      UpGoesBack(r, j, n - 1);
      var a := Up(r.nodes, p, n - 1).value;
      var k :| 0 <= k < j && r.order[k] == a;
      assert r.order[..i][k] == a;
    }
  }

  lemma ParentsFirstIsAcyclic(r: Reg)
    requires ParentsFirst(r) && Distinct(r.order)
    ensures Acyclic(r.nodes)
  {
    forall k
      ensures !Ancestor(r.nodes, k, k)
    {
      if Ancestor(r.nodes, k, k) {
        var n: nat :| n >= 1 && Up(r.nodes, k, n) == Some(k);
        assert k in r.order;
        var i: nat :| i < |r.order| && r.order[i] == k;
        UpGoesBack(r, i, n);
        DistinctPrefix(r.order, i);
      }
    }
  }

  /** The registry a DOM walk builds lists the tree's keys in walking order and has no link cycle. */
  lemma DomLinksAreAcyclic(root: DomNode, main: string)
    requires Distinct(DomKeys(root, main))
    ensures var r := AddDom(Reg(map[], []), root, main, None);
            r.order == DomKeys(root, main) && Acyclic(r.nodes)
  {
    var empty := Reg(map[], []);
    var keys := DomKeys(root, main);
    assert empty.order + keys == keys;
    DomGrows(empty, root, main, None);
    ParentsFirstIsAcyclic(AddDom(empty, root, main, None));
  }

  // -------------------------------------------------------------- DOM nesting

  /** What a DOM node directly contains: children, shadow roots and the content document. */
  function Parts(node: DomNode): (parts: seq<DomNode>)
    ensures forall i :: 0 <= i < |parts| ==> parts[i] < node
  {
    node.children + node.shadowRoots + if node.contentDocument.Some? then [node.contentDocument.value] else []
  }

  /** Within the node, that of key u lies strictly inside that of key a. Frames are inherited downwards. */
  ghost predicate Inside(node: DomNode, inherited: string, a: Key, u: Key)
    decreases node
  {
    var frame := DomFrame(node, inherited);
    exists i :: 0 <= i < |Parts(node)| &&
      ((a == DomKey(node, inherited) && u in DomKeys(Parts(node)[i], frame)) || Inside(Parts(node)[i], frame, a, u))
  }

  /** What the registry holds of a DOM node. */
  predicate Records(c: CanonicalNode, node: DomNode, inherited: string) {
    c.dom == Some(node) && c.frameId == DomFrame(node, inherited) && c.backend == Some(node.backend) && c.provenance == {FromDom}
  }

  /** The registry holds the node and links it to this parent, and everything in it to what directly contains it. */
  ghost predicate Linked(nodes: map<Key, CanonicalNode>, node: DomNode, inherited: string, parent: Option<Key>)
    decreases node, 1
  {
    && DomKey(node, inherited) in nodes && ParentOf(nodes, DomKey(node, inherited)) == parent
    && Records(nodes[DomKey(node, inherited)], node, inherited)
    && LinkedAll(nodes, Parts(node), DomFrame(node, inherited), DomKey(node, inherited), node)
  }

  ghost predicate LinkedAll(nodes: map<Key, CanonicalNode>, parts: seq<DomNode>, frame: string, parent: Key, owner: DomNode)
    requires forall i :: 0 <= i < |parts| ==> parts[i] < owner
    decreases owner, 0
  {
    forall i :: 0 <= i < |parts| ==> Linked(nodes, parts[i], frame, Some(parent))
  }

  ghost predicate Kept(before: map<Key, CanonicalNode>, after: map<Key, CanonicalNode>) {
    forall k :: k in before ==> k in after && after[k] == before[k]
  }

  lemma {:induction false} LinkedStays(before: map<Key, CanonicalNode>, after: map<Key, CanonicalNode>, node: DomNode, inherited: string, parent: Option<Key>)
    requires Linked(before, node, inherited, parent) && Kept(before, after)
    ensures Linked(after, node, inherited, parent)
    decreases node
  {
    forall i | 0 <= i < |Parts(node)|
      ensures Linked(after, Parts(node)[i], DomFrame(node, inherited), Some(DomKey(node, inherited)))
    {
      LinkedStays(before, after, Parts(node)[i], DomFrame(node, inherited), Some(DomKey(node, inherited)));
    }
  }

  lemma LinkedAllStays(before: map<Key, CanonicalNode>, after: map<Key, CanonicalNode>, parts: seq<DomNode>, frame: string, parent: Key, owner: DomNode)
    requires forall i :: 0 <= i < |parts| ==> parts[i] < owner
    requires LinkedAll(before, parts, frame, parent, owner) && Kept(before, after)
    ensures LinkedAll(after, parts, frame, parent, owner)
  {
    hide Linked, Kept;
    forall i | 0 <= i < |parts|
      ensures Linked(after, parts[i], frame, Some(parent))
    {
      LinkedStays(before, after, parts[i], frame, Some(parent));
    }
  }

  lemma GrownKeeps(r: Reg, s: Reg, keys: seq<Key>)
    requires Grown(r, s, keys)
    ensures Kept(r.nodes, s.nodes)
  {
  }

  lemma KeptTwice(a: map<Key, CanonicalNode>, b: map<Key, CanonicalNode>, c: map<Key, CanonicalNode>)
    requires Kept(a, b) && Kept(b, c)
    ensures Kept(a, c)
  {
  }

  lemma NodeIsLinked(r: Reg, node: DomNode, inherited: string, parent: Option<Key>)
    requires ParentsFirst(r) && DomKey(node, inherited) !in r.order
    requires parent.Some? ==> parent.value in r.nodes
    ensures var key := DomKey(node, inherited);
            EnsureNode(r, key, DomFrame(node, inherited), Some(node.backend)).nodes[key].key == key
    ensures var key := DomKey(node, inherited);
            var r0 := EnsureNode(r, key, DomFrame(node, inherited), Some(node.backend));
            var nodes := Put(r0, WithDom(r0.nodes[key], node, parent)).nodes;
            ParentOf(nodes, key) == parent && Records(nodes[key], node, inherited)
  {
  }

  lemma ParentStays(before: map<Key, CanonicalNode>, after: map<Key, CanonicalNode>, k: Key)
    requires k in before && Kept(before, after)
    ensures k in after && after[k] == before[k] && ParentOf(after, k) == ParentOf(before, k)
  {
  }

  /** The walk links every node to the one that directly contains it. */
  lemma {:induction false} DomIsLinked(r: Reg, node: DomNode, inherited: string, parent: Option<Key>)
    requires ParentsFirst(r) && Distinct(r.order + DomKeys(node, inherited))
    requires parent.Some? ==> parent.value in r.nodes
    ensures SelfKeyed(r) && Linked(AddDom(r, node, inherited, parent).nodes, node, inherited, parent)
    decreases node, 0
  {
    hide Distinct, ParentsFirst, Grown, EnsureNode, Put, AddDomAll, DomKeysAll, SelfKeyed, Linked, LinkedAll, Kept, ParentOf;
    var frame, key := DomFrame(node, inherited), DomKey(node, inherited);
    var a, b := DomKeysAll(node.children, frame, node), DomKeysAll(node.shadowRoots, frame, node);
    var c := if node.contentDocument.Some? then DomKeys(node.contentDocument.value, frame) else [];
    assert DomKeys(node, inherited) == [key] + a + b + c;
    assert [key] + a + b + c == [key] + (a + b + c) == [key] + a + (b + c) == [key] + a + b + c + [];
    NotYetListed(r.order, key, a + b + c);
    ListedIsSelfKeyed(r);
    NodeGrows(r, node, inherited, parent);
    NodeIsLinked(r, node, inherited, parent);
    var r0 := EnsureNode(r, key, frame, Some(node.backend));
    var r1 := Put(r0, WithDom(r0.nodes[key], node, parent));
    StillToCome(r, r1, [key], a, b + c);
    DomAllGrows(r1, node.children, frame, key, node);
    DomAllIsLinked(r1, node.children, frame, key, node);
    var r2 := AddDomAll(r1, node.children, frame, key, node);
    GrownTwice(r, r1, r2, [key], a);
    StillToCome(r, r2, [key] + a, b, c);
    StillThere(r1, r2, a, key);
    DomAllGrows(r2, node.shadowRoots, frame, key, node);
    DomAllIsLinked(r2, node.shadowRoots, frame, key, node);
    var r3 := AddDomAll(r2, node.shadowRoots, frame, key, node);
    GrownTwice(r, r2, r3, [key] + a, b);
    StillToCome(r, r3, [key] + a + b, c, []);
    StillThere(r2, r3, b, key);
    GrownKeeps(r1, r2, a);
    GrownKeeps(r2, r3, b);
    var r4 := AddDom(r, node, inherited, parent);
    if node.contentDocument.Some? {
      DomGrows(r3, node.contentDocument.value, frame, Some(key));
      DomIsLinked(r3, node.contentDocument.value, frame, Some(key));
      GrownKeeps(r3, r4, c);
    } else {
      KeptItself(r4.nodes);
    }
    KeptTwice(r1.nodes, r2.nodes, r3.nodes);
    KeptTwice(r2.nodes, r3.nodes, r4.nodes);
    KeptTwice(r1.nodes, r3.nodes, r4.nodes);
    ParentStays(r1.nodes, r4.nodes, key);
    LinkedAllStays(r2.nodes, r4.nodes, node.children, frame, key, node);
    LinkedAllStays(r3.nodes, r4.nodes, node.shadowRoots, frame, key, node);
    PartsAreLinked(r4.nodes, node, inherited, parent);
  }

  lemma KeptItself(nodes: map<Key, CanonicalNode>)
    ensures Kept(nodes, nodes)
  {
  }

  lemma PartsAreLinked(nodes: map<Key, CanonicalNode>, node: DomNode, inherited: string, parent: Option<Key>)
    requires var frame, key := DomFrame(node, inherited), DomKey(node, inherited);
             && key in nodes && ParentOf(nodes, key) == parent && Records(nodes[key], node, inherited)
             && LinkedAll(nodes, node.children, frame, key, node) && LinkedAll(nodes, node.shadowRoots, frame, key, node)
             && (node.contentDocument.Some? ==> Linked(nodes, node.contentDocument.value, frame, Some(key)))
    ensures Linked(nodes, node, inherited, parent)
  {
    var frame, key := DomFrame(node, inherited), DomKey(node, inherited);
    var parts := Parts(node);
    forall i | 0 <= i < |parts|
      ensures Linked(nodes, parts[i], frame, Some(key))
    {
      var n, m := |node.children|, |node.shadowRoots|;
      if i < n {
        assert parts[i] == node.children[i];
      } else if i < n + m {
        assert parts[i] == node.shadowRoots[i - n];
      } else {
        assert parts[i] == node.contentDocument.value;
      }
    }
  }

  lemma {:induction false} DomAllIsLinked(r: Reg, nodes: seq<DomNode>, frame: string, parent: Key, owner: DomNode)
    requires forall i :: 0 <= i < |nodes| ==> nodes[i] < owner
    requires ParentsFirst(r) && Distinct(r.order + DomKeysAll(nodes, frame, owner)) && parent in r.nodes
    ensures SelfKeyed(r) && LinkedAll(AddDomAll(r, nodes, frame, parent, owner).nodes, nodes, frame, parent, owner)
    decreases owner, 0, |nodes|
  {
    hide Distinct, ParentsFirst, Grown, SelfKeyed, Linked, Kept;
    ListedIsSelfKeyed(r);
    if nodes != [] {
      var init, last := nodes[..|nodes| - 1], nodes[|nodes| - 1];
      var a, b := DomKeysAll(init, frame, owner), DomKeys(last, frame);
      assert r.order + (a + b) == (r.order + a) + b;
      DistinctFront(r.order + a, b);
      DomAllGrows(r, init, frame, parent, owner);
      DomAllIsLinked(r, init, frame, parent, owner);
      var r0 := AddDomAll(r, init, frame, parent, owner);
      assert a + b == a + b + [];
      StillToCome(r, r0, a, b, []);
      StillThere(r, r0, a, parent);
      DomGrows(r0, last, frame, Some(parent));
      DomIsLinked(r0, last, frame, Some(parent));
      var s := AddDom(r0, last, frame, Some(parent));
      GrownKeeps(r0, s, b);
      LinkedAllStays(r0.nodes, s.nodes, init, frame, parent, owner);
      forall i | 0 <= i < |nodes|
        ensures Linked(s.nodes, nodes[i], frame, Some(parent))
      {
        assert i < |init| ==> nodes[i] == init[i];
      }
    }
  }

  lemma KeysUnfold(node: DomNode, inherited: string, u: Key)
    ensures var frame := DomFrame(node, inherited);
            u in DomKeys(node, inherited) <==>
              || u == DomKey(node, inherited)
              || u in DomKeysAll(node.children, frame, node) || u in DomKeysAll(node.shadowRoots, frame, node)
              || (node.contentDocument.Some? && u in DomKeys(node.contentDocument.value, frame))
  {
    hide DomKeysAll;
  }

  predicate AmongKeys(parts: seq<DomNode>, frame: string, u: Key) {
    exists i :: 0 <= i < |parts| && u in DomKeys(parts[i], frame)
  }

  lemma AmongBoth(a: seq<DomNode>, b: seq<DomNode>, frame: string, u: Key)
    ensures AmongKeys(a + b, frame, u) <==> AmongKeys(a, frame, u) || AmongKeys(b, frame, u)
  {
    hide DomKeys;
    var c := a + b;
    assert forall i :: 0 <= i < |a| ==> c[i] == a[i];
    assert forall i :: 0 <= i < |b| ==> c[|a| + i] == b[i];
    if i :| 0 <= i < |c| && u in DomKeys(c[i], frame) {
      if i < |a| {
        assert u in DomKeys(a[i], frame);
      } else {
        assert u in DomKeys(b[i - |a|], frame);
      }
    }
  }

  /** The keys of a node are its own and those of its parts. */
  lemma KeysOfParts(node: DomNode, inherited: string, u: Key)
    ensures u in DomKeys(node, inherited) <==>
              u == DomKey(node, inherited) || exists i :: 0 <= i < |Parts(node)| && u in DomKeys(Parts(node)[i], DomFrame(node, inherited))
  {
    hide DomKeysAll, DomKeys;
    var frame := DomFrame(node, inherited);
    var document := if node.contentDocument.Some? then [node.contentDocument.value] else [];
    KeysUnfold(node, inherited, u);
    KeysOfAll(node.children, frame, node, u);
    KeysOfAll(node.shadowRoots, frame, node, u);
    AmongBoth(node.children, node.shadowRoots, frame, u);
    AmongBoth(node.children + node.shadowRoots, document, frame, u);
    if node.contentDocument.Some? {
      assert document[0] == node.contentDocument.value;
    }
    assert AmongKeys(Parts(node), frame, u) <==>
           AmongKeys(node.children, frame, u) || AmongKeys(node.shadowRoots, frame, u) || AmongKeys(document, frame, u);
  }

  lemma {:induction false} KeysOfAll(nodes: seq<DomNode>, frame: string, owner: DomNode, u: Key)
    requires forall i :: 0 <= i < |nodes| ==> nodes[i] < owner
    ensures u in DomKeysAll(nodes, frame, owner) <==> exists i :: 0 <= i < |nodes| && u in DomKeys(nodes[i], frame)
    decreases |nodes|
  {
    hide DomKeys;
    if nodes != [] {
      var init := nodes[..|nodes| - 1];
      KeysOfAll(init, frame, owner, u);
      assert forall i :: 0 <= i < |init| ==> init[i] == nodes[i];
      if i :| 0 <= i < |nodes| && u in DomKeys(nodes[i], frame) {
        if i < |init| {
          assert u in DomKeys(init[i], frame);
        }
      }
    }
  }

  /** A node's key is above the keys of everything in it. */
  lemma {:induction false} AboveItsParts(nodes: map<Key, CanonicalNode>, node: DomNode, inherited: string, parent: Key, u: Key)
    requires Linked(nodes, node, inherited, Some(parent)) && u in DomKeys(node, inherited)
    ensures Ancestor(nodes, parent, u)
    decreases node
  {
    var key := DomKey(node, inherited);
    assert Up(nodes, parent, 0) == Some(parent);
    assert Up(nodes, key, 1) == Some(parent);
    KeysOfParts(node, inherited, u);
    if u != key {
      var i :| 0 <= i < |Parts(node)| && u in DomKeys(Parts(node)[i], DomFrame(node, inherited));
      AboveItsParts(nodes, Parts(node)[i], DomFrame(node, inherited), key, u);
      AncestorTransitive(nodes, parent, key, u);
    }
  }

  lemma {:induction false} InsideIsBelow(nodes: map<Key, CanonicalNode>, node: DomNode, inherited: string, parent: Option<Key>, a: Key, u: Key)
    requires Linked(nodes, node, inherited, parent) && Inside(node, inherited, a, u)
    ensures Ancestor(nodes, a, u)
    decreases node
  {
    var key, frame := DomKey(node, inherited), DomFrame(node, inherited);
    var i :| 0 <= i < |Parts(node)| &&
      ((a == key && u in DomKeys(Parts(node)[i], frame)) || Inside(Parts(node)[i], frame, a, u));
    if Inside(Parts(node)[i], frame, a, u) {
      InsideIsBelow(nodes, Parts(node)[i], frame, Some(key), a, u);
    } else {
      AboveItsParts(nodes, Parts(node)[i], frame, key, u);
    }
  }

  /** Going up from inside a node stays inside it, or leaves it through its parent. */
  lemma {:induction false} BelowIsInside(nodes: map<Key, CanonicalNode>, node: DomNode, inherited: string, parent: Option<Key>, a: Key, u: Key)
    requires Linked(nodes, node, inherited, parent) && u in DomKeys(node, inherited) && Ancestor(nodes, a, u)
    ensures Inside(node, inherited, a, u) || (parent.Some? && (a == parent.value || Ancestor(nodes, a, parent.value)))
    decreases node
  {
    var key, frame := DomKey(node, inherited), DomFrame(node, inherited);
    KeysOfParts(node, inherited, u);
    if u == key {
      AboveIsParent(nodes, key, parent, a);
    } else {
      var i :| 0 <= i < |Parts(node)| && u in DomKeys(Parts(node)[i], frame);
      BelowIsInside(nodes, Parts(node)[i], frame, Some(key), a, u);
      if !Inside(Parts(node)[i], frame, a, u) && a != key {
        AboveIsParent(nodes, key, parent, a);
      }
    }
  }

  lemma AboveIsParent(nodes: map<Key, CanonicalNode>, k: Key, parent: Option<Key>, a: Key)
    requires ParentOf(nodes, k) == parent && Ancestor(nodes, a, k)
    ensures parent.Some? && (a == parent.value || Ancestor(nodes, a, parent.value))
  {
    var n: nat :| n >= 1 && Up(nodes, k, n) == Some(a);
    if n > 1 {
      assert Up(nodes, parent.value, n - 1) == Some(a);
    }
  }

  lemma {:induction false} InsideIsListed(node: DomNode, inherited: string, a: Key, u: Key)
    requires Inside(node, inherited, a, u)
    ensures u in DomKeys(node, inherited)
    decreases node
  {
    var frame := DomFrame(node, inherited);
    var i :| 0 <= i < |Parts(node)| &&
      ((a == DomKey(node, inherited) && u in DomKeys(Parts(node)[i], frame)) || Inside(Parts(node)[i], frame, a, u));
    if Inside(Parts(node)[i], frame, a, u) {
      InsideIsListed(Parts(node)[i], frame, a, u);
    }
    KeysOfParts(node, inherited, u);
  }

  /** In the registry a DOM walk builds, ancestry is nesting. */
  lemma AncestryIsNesting(root: DomNode, main: string, a: Key, u: Key)
    requires Distinct(DomKeys(root, main))
    ensures Ancestor(AddDom(Reg(map[], []), root, main, None).nodes, a, u) <==> Inside(root, main, a, u)
  {
    hide Inside, Linked, Distinct;
    var empty := Reg(map[], []);
    var nodes := AddDom(empty, root, main, None).nodes;
    assert empty.order + DomKeys(root, main) == DomKeys(root, main);
    DomIsLinked(empty, root, main, None);
    if Inside(root, main, a, u) {
      InsideIsBelow(nodes, root, main, None, a, u);
    }
    if Ancestor(nodes, a, u) {
      ListedOrLoose(root, main, a, u);
      BelowIsInside(nodes, root, main, None, a, u);
    }
  }

  lemma ListedOrLoose(root: DomNode, main: string, a: Key, u: Key)
    requires Distinct(DomKeys(root, main)) && Ancestor(AddDom(Reg(map[], []), root, main, None).nodes, a, u)
    ensures u in DomKeys(root, main)
  {
    var r := AddDom(Reg(map[], []), root, main, None);
    assert Reg(map[], []).order + DomKeys(root, main) == DomKeys(root, main);
    DomGrows(Reg(map[], []), root, main, None);
    var n: nat :| n >= 1 && Up(r.nodes, u, n) == Some(a);
    assert u in r.nodes;
  }

  /**
    So the semantic tree of a page known from its DOM alone is a forest that reaches
    every kept node, and kept nodes are above each other exactly as they are nested.
   */
  method BuildFromDom(root: DomNode, main: string, traits: Key -> Traits) returns (f: Forest, stats: Stats)
    requires Distinct(DomKeys(root, main))
    ensures var kept := KeptKeys(AddDom(Reg(map[], []), root, main, None), traits);
            && IsContraction(f, AddDom(Reg(map[], []), root, main, None), kept)
            && (forall u :: u in kept ==> Reached(f, u) && !ForestAncestor(f, u, u))
            && forall a, u :: a in kept && u in kept && a != u ==> (ForestAncestor(f, a, u) <==> Inside(root, main, a, u))
  {
    hide Inside, Distinct;
    var registry := new CanonicalNodeRegistry(main);
    registry.AddDomTree(root);
    var r := Reg(registry.nodes, registry.order);
    f, stats := BuildSemanticPageTree(r, traits);
    DomLinksAreAcyclic(root, main);
    AcyclicLinksGiveForest(f, r, KeptKeys(r, traits));
    forall a, u | a in KeptKeys(r, traits) && u in KeptKeys(r, traits) && a != u
      ensures ForestAncestor(f, a, u) <==> Inside(root, main, a, u)
    {
      AncestryPreserved(f, r, KeptKeys(r, traits), a, u);
      AncestryIsNesting(root, main, a, u);
    }
  }
}
