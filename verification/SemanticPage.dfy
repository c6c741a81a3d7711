/**
  From registry to page: the built forest unfolds into finite trees, and those meet the
  serializer's hypothesis that an id stands for one node
  (packages/browser-core/src/browser-semantic-tree.ts,
  packages/browser-core/src/browser-semantic-serializer.ts).
 */
module SemanticPage {
  import opened Wrappers
  import opened CanonicalRegistry
  import opened SemanticTree
  import opened SemanticSerializer
  import opened StableSort

  /** All nodes of some trees, each before its children. */
  function NodesOf(node: SemNode): seq<SemNode>
    decreases node, 1
  {
    [node] + NodesOfAll(node.children)
  }

  function NodesOfAll(nodes: seq<SemNode>): seq<SemNode>
    decreases nodes, 0
  {
    if nodes == [] then [] else NodesOfAll(nodes[..|nodes| - 1]) + NodesOf(nodes[|nodes| - 1])
  }

  lemma {:induction false} TopsListed(nodes: seq<SemNode>, n: SemNode)
    requires n in nodes
    ensures n in NodesOfAll(nodes)
  {
    if n != nodes[|nodes| - 1] {
      TopsListed(nodes[..|nodes| - 1], n);
    }
  }

  /** The lists are closed: with a node they hold its children. */
  lemma {:induction false} ChildrenListed(node: SemNode, n: SemNode, c: SemNode)
    requires n in NodesOf(node) && c in n.children
    ensures c in NodesOf(node)
    decreases node, 1
  {
    if n == node {
      TopsListed(node.children, c);
    } else {
      ChildrenListedAll(node.children, n, c);
    }
  }

  lemma {:induction false} ChildrenListedAll(nodes: seq<SemNode>, n: SemNode, c: SemNode)
    requires n in NodesOfAll(nodes) && c in n.children
    ensures c in NodesOfAll(nodes)
    decreases nodes, 0
  {
    if n in NodesOfAll(nodes[..|nodes| - 1]) {
      ChildrenListedAll(nodes[..|nodes| - 1], n, c);
    } else {
      ChildrenListed(nodes[|nodes| - 1], n, c);
    }
  }

  ghost predicate OneNodePerId(nodes: seq<SemNode>) {
    forall n, o :: n in nodes && o in nodes && n.id == o.id ==> n == o
  }

  /** Trees in which an id stands for one node have the index the serializer asks for. */
  lemma IndexOf(roots: seq<SemNode>) returns (index: map<Key, SemNode>)
    requires OneNodePerId(NodesOfAll(roots))
    ensures IdDetermines(index) && KnowsAll(index, roots)
  {
    var all := NodesOfAll(roots);
    var ids := set n | n in all :: n.id;
    index := map id | id in ids :: (var n :| n in all && n.id == id; n);
    forall n | n in all
      ensures Knows(index, n)
    {
      assert n.id in ids;
    }
    forall n, c | n in all && c in n.children
      ensures c in all
    {
      ChildrenListedAll(roots, n, c);
    }
    forall n | n in roots
      ensures n in all
    {
      TopsListed(roots, n);
    }
  }

  /** In particular trees whose ids are all different. */
  lemma DifferentIdsHaveIndex(roots: seq<SemNode>) returns (index: map<Key, SemNode>)
    requires forall i, j :: 0 <= i < j < |NodesOfAll(roots)| ==> NodesOfAll(roots)[i].id != NodesOfAll(roots)[j].id
    ensures IdDetermines(index) && KnowsAll(index, roots)
  {
    var all := NodesOfAll(roots);
    forall n, o | n in all && o in all && n.id == o.id
      ensures n == o
    {
      var i :| 0 <= i < |all| && all[i] == n;
      var j :| 0 <= j < |all| && all[j] == o;
      assert i == j;
    }
    index := IndexOf(roots);
  }

  // ------------------------------------------------------------------ unfolding

  /** Below a root there is one way down to each node: reached twice means reached at the same depth from the same root. */
  lemma {:induction false} OneWayDown(f: Forest, r: Reg, kept: set<Key>, a: Key, b: Key, u: Key, m: nat, n: nat)
    requires WellKeyed(r) && kept <= r.nodes.Keys && IsContraction(f, r, kept)
    requires a in f.roots && b in f.roots && Descends(f, a, u, m) && Descends(f, b, u, n)
    ensures a == b && m == n
    decreases m
  {
    hide WellKeyed, IsContraction, HangsAt;
    RootsAndChildren(f, r, kept, u);
    ChildrenKept(f, r, kept);
    if m == 0 && n > 0 {
      var q :| q in f.children && u in f.children[q] && Descends(f, b, q, n - 1);
      HangsOnce(r.nodes, kept, u, None, Some(q));
    } else if m > 0 && n == 0 {
      var p :| p in f.children && u in f.children[p] && Descends(f, a, p, m - 1);
      HangsOnce(r.nodes, kept, u, None, Some(p));
    } else if m > 0 && n > 0 {
      var p :| p in f.children && u in f.children[p] && Descends(f, a, p, m - 1);
      var q :| q in f.children && u in f.children[q] && Descends(f, b, q, n - 1);
      HangsOnce(r.nodes, kept, u, Some(p), Some(q));
      OneWayDown(f, r, kept, a, b, p, m - 1, n - 1);
    }
  }

  lemma ChildrenKept(f: Forest, r: Reg, kept: set<Key>)
    requires IsContraction(f, r, kept)
    ensures f.children.Keys == kept
  {
  }

  /** The nodes met on the way down from the root. */
  ghost predicate OnTheWay(f: Forest, root: Key, m: nat, above: set<Key>) {
    forall b :: b in above ==> exists d: nat :: d < m && Descends(f, root, b, d)
  }

  lemma NotMetBefore(f: Forest, r: Reg, kept: set<Key>, root: Key, u: Key, m: nat, above: set<Key>)
    requires WellKeyed(r) && kept <= r.nodes.Keys && IsContraction(f, r, kept)
    requires root in f.roots && Descends(f, root, u, m) && OnTheWay(f, root, m, above)
    ensures u !in above && OnTheWay(f, root, m + 1, above + {u})
  {
    hide WellKeyed, IsContraction, Descends;
    if u in above {
      var d: nat :| d < m && Descends(f, root, u, d);
      OneWayDown(f, r, kept, root, root, u, m, d);
    }
    forall b | b in above + {u}
      ensures exists d: nat :: d < m + 1 && Descends(f, root, b, d)
    {
      if b in above {
        var d: nat :| d < m && Descends(f, root, b, d);
        assert d < m + 1;
      }
    }
  }

  lemma ChildIsKept(f: Forest, r: Reg, kept: set<Key>, root: Key, u: Key, m: nat, c: Key)
    requires WellKeyed(r) && kept <= r.nodes.Keys && IsContraction(f, r, kept)
    requires u in kept && Descends(f, root, u, m) && c in f.children[u]
    ensures c in kept && Descends(f, root, c, m + 1)
  {
    RootsAndChildren(f, r, kept, c);
  }

  /** The tree below a node a root reaches: finite on every link graph, as no node is met twice on the way down. */
  method Unfold(f: Forest, facts: Key -> SemNode, u: Key, ghost r: Reg, ghost kept: set<Key>, ghost root: Key, ghost m: nat, ghost above: set<Key>)
    returns (node: SemNode)
    requires WellKeyed(r) && kept <= r.nodes.Keys && IsContraction(f, r, kept)
    requires u in kept && root in f.roots && Descends(f, root, u, m) && OnTheWay(f, root, m, above) && above <= kept
    ensures node.id == u && Unfolds(f, facts, node)
    decreases kept - above
  {
    hide WellKeyed, Descends, OnTheWay, Hanging;
    NotMetBefore(f, r, kept, root, u, m, above);
    var children: seq<SemNode> := [];
    for i := 0 to |f.children[u]|
      invariant |children| == i
      invariant forall k :: 0 <= k < i ==> children[k].id == f.children[u][k] && Unfolds(f, facts, children[k])
    {
      ChildIsKept(f, r, kept, root, u, m, f.children[u][i]);
      var child := Unfold(f, facts, f.children[u][i], r, kept, root, m + 1, above + {u});
      children := children + [child];
    }
    node := facts(u).(id := u, children := children);
  }

  method UnfoldRoots(f: Forest, facts: Key -> SemNode, ghost r: Reg, ghost kept: set<Key>) returns (roots: seq<SemNode>)
    requires WellKeyed(r) && kept <= r.nodes.Keys && IsContraction(f, r, kept)
    ensures |roots| == |f.roots| && forall i :: 0 <= i < |roots| ==> roots[i].id == f.roots[i] && Unfolds(f, facts, roots[i])
  {
    hide WellKeyed, Hanging, Unfolds;
    roots := [];
    for i := 0 to |f.roots|
      invariant |roots| == i
      invariant forall k :: 0 <= k < i ==> roots[k].id == f.roots[k] && Unfolds(f, facts, roots[k])
    {
      RootsAndChildren(f, r, kept, f.roots[i]);
      var root := Unfold(f, facts, f.roots[i], r, kept, f.roots[i], 0, {});
      roots := roots + [root];
    }
  }

  // ------------------------------------------------------------- what is on a page

  /** The node has a target of this kind of ref. */
  predicate HasTarget(node: SemNode, refs: Refs) {
    TargetOf(node, refs).Some?
  }

  predicate HasAllowedTarget(node: SemNode, refs: Refs, allowed: set<string>) {
    HasTarget(node, refs) && TargetOf(node, refs).value.ref in allowed
  }

  /** How many of these nodes have an allowed target. */
  function AllowedAmong(nodes: seq<SemNode>, refs: Refs, allowed: set<string>): nat {
    if nodes == [] then 0
    else AllowedAmong(nodes[..|nodes| - 1], refs, allowed) + if HasAllowedTarget(nodes[|nodes| - 1], refs, allowed) then 1 else 0
  }

  lemma {:induction false} AllowedAmongBoth(a: seq<SemNode>, b: seq<SemNode>, refs: Refs, allowed: set<string>)
    ensures AllowedAmong(a + b, refs, allowed) == AllowedAmong(a, refs, allowed) + AllowedAmong(b, refs, allowed)
    decreases |b|
  {
    if b == [] {
      assert a + b == a;
    } else {
      AllowedAmongBoth(a, b[..|b| - 1], refs, allowed);
      assert (a + b)[..|a + b| - 1] == a + b[..|b| - 1];
    }
  }

  lemma {:induction false} AllowedAmongSome(nodes: seq<SemNode>, refs: Refs, allowed: set<string>)
    ensures AllowedAmong(nodes, refs, allowed) > 0 <==> exists n :: n in nodes && HasAllowedTarget(n, refs, allowed)
  {
    hide HasAllowedTarget;
    if nodes != [] {
      AllowedAmongSome(nodes[..|nodes| - 1], refs, allowed);
      assert nodes == nodes[..|nodes| - 1] + [nodes[|nodes| - 1]];
    }
  }

  /** The counts the serializer goes by: nodes with an allowed target, and whether any has a target. */
  lemma {:induction false} CountsAreTrue(node: SemNode, refs: Refs, allowed: set<string>)
    requires forall k :: k in refs ==> refs[k].ref != ""
    ensures TrueCounts(node, refs, allowed).allowed == AllowedAmong(NodesOf(node), refs, allowed)
    ensures TrueCounts(node, refs, allowed).any > 0 <==> exists n :: n in NodesOf(node) && HasTarget(n, refs)
    decreases node, 1
  {
    CountsOfAllAreTrue(node.children, refs, allowed);
    AllowedAmongBoth([node], NodesOfAll(node.children), refs, allowed);
    assert [node][..0] == [];
    assert AllowedAmong([node], refs, allowed) == OwnCounts(node, refs, allowed).allowed;
    assert forall n :: n in NodesOf(node) <==> n == node || n in NodesOfAll(node.children);
    assert OwnCounts(node, refs, allowed).any > 0 <==> HasTarget(node, refs);
  }

  lemma {:induction false} CountsOfAllAreTrue(nodes: seq<SemNode>, refs: Refs, allowed: set<string>)
    requires forall k :: k in refs ==> refs[k].ref != ""
    ensures CountsOfAll(nodes, refs, allowed).allowed == AllowedAmong(NodesOfAll(nodes), refs, allowed)
    ensures CountsOfAll(nodes, refs, allowed).any > 0 <==> exists n :: n in NodesOfAll(nodes) && HasTarget(n, refs)
    decreases nodes, 0
  {
    if nodes != [] {
      CountsOfAllAreTrue(nodes[..|nodes| - 1], refs, allowed);
      CountsAreTrue(nodes[|nodes| - 1], refs, allowed);
      AllowedAmongBoth(NodesOfAll(nodes[..|nodes| - 1]), NodesOf(nodes[|nodes| - 1]), refs, allowed);
    }
  }

  ghost predicate AllowedWithin(node: SemNode, refs: Refs, allowed: set<string>) {
    exists n :: n in NodesOf(node) && HasAllowedTarget(n, refs, allowed)
  }

  /**
    A node belongs on the page, all nodes above it being there: with a target exactly
    when its ref is allowed; without one exactly when it holds no ref or an allowed
    one, and holds an allowed ref, or is below a node that does, or gives context.
   */
  ghost predicate Belongs(node: SemNode, refs: Refs, allowed: set<string>, below: bool) {
    if HasTarget(node, refs) then HasAllowedTarget(node, refs, allowed)
    else
      && ((exists n :: n in NodesOf(node) && HasTarget(n, refs)) ==> AllowedWithin(node, refs, allowed))
      && (AllowedWithin(node, refs, allowed) || below || node.facts.role in CONTEXT_ROLES)
  }

  /** Those of the nodes that belong on the page, in order. */
  ghost function Belonging(nodes: seq<SemNode>, refs: Refs, allowed: set<string>, below: bool): seq<SemNode> {
    if nodes == [] then []
    else Belonging(nodes[..|nodes| - 1], refs, allowed, below)
         + if Belongs(nodes[|nodes| - 1], refs, allowed, below) then [nodes[|nodes| - 1]] else []
  }

  /** What a page says of a node. */
  ghost predicate Shows(base: Base, node: SemNode, refs: Refs) {
    && base.facts == node.facts
    && (base.target.Some? <==> HasTarget(node, refs))
    && (HasTarget(node, refs) ==>
          && base.target.value.ref == refs[node.targetKey.value].ref && base.target.value.frame == refs[node.targetKey.value].frameRef
          && base.target.value.rect == if node.pointable then node.rect else None)
  }

  /** The larger the number of allowed targets within, the earlier; else as listed. */
  ghost predicate Ranked(ordered: seq<SemNode>, nodes: seq<SemNode>, refs: Refs, allowed: set<string>) {
    var key := (n: SemNode) => AllowedAmong(NodesOf(n), refs, allowed);
    && multiset(ordered) == multiset(nodes)
    && Descending(ordered, key) && forall v: int :: WithKey(ordered, key, v) == WithKey(nodes, key, v)
  }

  /** The page shows exactly the nodes of the trees that belong on it, ranked, each above what is below it. */
  ghost predicate Depicts(page: seq<AgentNode>, nodes: seq<SemNode>, refs: Refs, allowed: set<string>, below: bool)
    decreases page
  {
    exists ordered ::
      && Ranked(ordered, nodes, refs, allowed)
      && var shown := Belonging(ordered, refs, allowed, below);
         && |page| == |shown|
         && forall i :: 0 <= i < |page| ==>
              && Shows(page[i].base, shown[i], refs)
              && Depicts(page[i].children, shown[i].children, refs, allowed, below || AllowedWithin(shown[i], refs, allowed))
  }

  lemma RejectedDoesNotBelong(node: SemNode, refs: Refs, allowed: set<string>, below: bool)
    requires forall k :: k in refs ==> refs[k].ref != ""
    ensures Rejected(node, TrueCounts(node, refs, allowed), TargetOf(node, refs), allowed, below) <==> !Belongs(node, refs, allowed, below)
    ensures TrueCounts(node, refs, allowed).allowed > 0 <==> AllowedWithin(node, refs, allowed)
  {
    hide TrueCounts, NodesOf;
    CountsAreTrue(node, refs, allowed);
    AllowedAmongSome(NodesOf(node), refs, allowed);
  }

  lemma BaseShows(node: SemNode, refs: Refs)
    ensures Shows(BaseOf(node, refs), node, refs)
  {
  }

  lemma OrderIsRanked(nodes: seq<SemNode>, refs: Refs, allowed: set<string>)
    requires forall k :: k in refs ==> refs[k].ref != ""
    ensures Ranked(ActionableFirst(nodes, refs, allowed), nodes, refs, allowed)
  {
    hide TrueCounts, NodesOf;
    var key := (n: SemNode) => AllowedAmong(NodesOf(n), refs, allowed);
    var key': SemNode -> int := AllowedKey(refs, allowed);
    forall n | n in nodes
      ensures key'(n) == key(n)
    {
      CountsAreTrue(n, refs, allowed);
    }
    SortAgrees(nodes, key', key);
    SortedAndStable(nodes, key);
    SortPermutes(nodes, key);
  }

  /** The unbudgeted page depicts the trees. */
  lemma {:induction false} PruneAllDepicts(nodes: seq<SemNode>, refs: Refs, allowed: set<string>, below: bool, within: seq<SemNode>)
    requires forall k :: k in refs ==> refs[k].ref != ""
    requires forall i :: 0 <= i < |nodes| ==> nodes[i] in within
    ensures var page, shown := PruneAll(nodes, refs, allowed, below, within), Belonging(nodes, refs, allowed, below);
            && |page| == |shown|
            && forall i :: 0 <= i < |page| ==>
                 && Shows(page[i].base, shown[i], refs)
                 && Depicts(page[i].children, shown[i].children, refs, allowed, below || AllowedWithin(shown[i], refs, allowed))
    decreases within, 0, |nodes|
  {
    hide Rejected, TrueCounts, Belongs, AllowedWithin, Shows, Depicts, BaseOf, ActionableFirst;
    if nodes != [] {
      var init, last := nodes[..|nodes| - 1], nodes[|nodes| - 1];
      PruneAllDepicts(init, refs, allowed, below, within);
      RejectedDoesNotBelong(last, refs, allowed, below);
      PruneUnfolds(last, refs, allowed, below);
      if Belongs(last, refs, allowed, below) {
        PruneDepicts(last, refs, allowed, below || AllowedWithin(last, refs, allowed));
        BaseShows(last, refs);
      }
    }
  }

  lemma {:induction false} PruneDepicts(node: SemNode, refs: Refs, allowed: set<string>, below: bool)
    requires forall k :: k in refs ==> refs[k].ref != ""
    ensures Depicts(PruneAll(ActionableFirst(node.children, refs, allowed), refs, allowed, below, node.children), node.children, refs, allowed, below)
    decreases node, 0
  {
    hide AllowedWithin, Shows, Belonging, PruneAll, ActionableFirst, Ranked;
    var ordered := ActionableFirst(node.children, refs, allowed);
    OrderIsRanked(node.children, refs, allowed);
    PruneAllDepicts(ordered, refs, allowed, below, node.children);
  }

  /** A page that is not flagged shows exactly what belongs on it. */
  lemma PageDepicts(roots: seq<SemNode>, refs: Refs, allowed: set<string>)
    requires forall k :: k in refs ==> refs[k].ref != ""
    ensures Depicts(PruneRoots(roots, refs, allowed), roots, refs, allowed, false)
  {
    hide AllowedWithin, Shows, Belonging, PruneAll, ActionableFirst, Ranked;
    var ordered := ActionableFirst(roots, refs, allowed);
    OrderIsRanked(roots, refs, allowed);
    PruneAllDepicts(ordered, refs, allowed, false, roots);
  }

  // ------------------------------------------------------------ the whole pipeline

  lemma {:induction false} AllUnfold(f: Forest, facts: Key -> SemNode, node: SemNode, n: SemNode)
    requires Unfolds(f, facts, node) && n in NodesOf(node)
    ensures Unfolds(f, facts, n)
    decreases node, 1
  {
    if n != node {
      AllUnfoldAll(f, facts, node.children, n);
    }
  }

  lemma {:induction false} AllUnfoldAll(f: Forest, facts: Key -> SemNode, nodes: seq<SemNode>, n: SemNode)
    requires (forall i :: 0 <= i < |nodes| ==> Unfolds(f, facts, nodes[i])) && n in NodesOfAll(nodes)
    ensures Unfolds(f, facts, n)
    decreases nodes, 0
  {
    if n in NodesOfAll(nodes[..|nodes| - 1]) {
      AllUnfoldAll(f, facts, nodes[..|nodes| - 1], n);
    } else {
      AllUnfold(f, facts, nodes[|nodes| - 1], n);
    }
  }

  lemma UnfoldedHaveIndex(f: Forest, facts: Key -> SemNode, roots: seq<SemNode>) returns (index: map<Key, SemNode>)
    requires forall i :: 0 <= i < |roots| ==> Unfolds(f, facts, roots[i])
    ensures IdDetermines(index) && KnowsAll(index, roots)
  {
    hide Unfolds, IdDetermines, KnowsAll;
    var all := NodesOfAll(roots);
    forall n, o | n in all && o in all && n.id == o.id
      ensures n == o
    {
      AllUnfoldAll(f, facts, roots, n);
      AllUnfoldAll(f, facts, roots, o);
      UnfoldingIsUnique(f, facts, n, o);
    }
    index := IndexOf(roots);
  }

  /**
    Registry to page, without any hypothesis on ids or links: the forest is the
    contraction of the kept nodes, its trees unfold, and the page of them stays within
    its budgets and carries only eligible refs; unless flagged it carries all of them
    and shows exactly what belongs on it.
   */
  method BuildAndSerialize(
    r: Reg, traits: Key -> Traits, facts: Key -> SemNode, refs: Refs, allowed: set<string>,
    maxNodes: Option<int>, maxBytes: Option<int>, size: Base -> nat)
    returns (page: seq<AgentNode>, truncated: bool, ghost f: Forest, ghost roots: seq<SemNode>)
    requires WellKeyed(r) && forall k :: k in refs ==> refs[k].ref != ""
    ensures IsContraction(f, r, KeptKeys(r, traits))
    ensures |roots| == |f.roots| && forall i :: 0 <= i < |roots| ==> roots[i].id == f.roots[i] && Unfolds(f, facts, roots[i])
    ensures NodeCountAll(page) <= Max(1, maxNodes.GetOr(200)) && BytesAll(page, size) <= Max(256, maxBytes.GetOr(12000))
    ensures RefsOfAll(page) <= EligibleAll(roots, refs, allowed) <= allowed
    ensures !truncated ==> RefsOfAll(page) == EligibleAll(roots, refs, allowed) && Depicts(page, roots, refs, allowed, false)
  {
    hide Depicts, IsContraction, WellKeyed, Unfolds, IdDetermines, KnowsAll;
    var forest, stats := BuildSemanticPageTree(r, traits);
    KeptAreNodes(r, traits);
    var trees := UnfoldRoots(forest, facts, r, KeptKeys(r, traits));
    ghost var index := UnfoldedHaveIndex(forest, facts, trees);
    page, truncated := SerializeSemanticTreePage(trees, false, refs, allowed, maxNodes, maxBytes, size, index);
    PageDepicts(trees, refs, allowed);
    f, roots := forest, trees;
  }

  lemma KeptAreNodes(r: Reg, traits: Key -> Traits)
    ensures KeptKeys(r, traits) <= r.nodes.Keys
  {
  }
}
