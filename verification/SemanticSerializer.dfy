/**
  Budgeted serialization of the semantic forest
  (packages/browser-core/src/browser-semantic-serializer.ts).

  `size` stands for the UTF-8 length of a node's JSON text without its children.
 */
module SemanticSerializer {
  import opened Wrappers
  import opened CanonicalRegistry
  import opened StableSort
  import SemanticTree

  datatype Rect = Rect(x: real, y: real, width: real, height: real)

  datatype Facts = Facts(role: string, name: string, text: string, level: nat, state: seq<(string, string)>)

  datatype SemNode = SemNode(
    id: Key,
    facts: Facts,
    targetKey: Option<Key>,
    rect: Option<Rect>,
    pointable: bool,
    children: seq<SemNode>)

  datatype TargetRef = TargetRef(ref: string, frameRef: string)

  datatype Emitted = Emitted(ref: string, frame: string, rect: Option<Rect>)

  datatype Base = Base(facts: Facts, target: Option<Emitted>)

  datatype AgentNode = AgentNode(base: Base, children: seq<AgentNode>)

  datatype Counts = Counts(any: nat, allowed: nat)

  const CONTEXT_ROLES: set<string> := {
    "document", "main", "navigation", "region", "article", "form", "dialog", "alertdialog",
    "heading", "list", "listitem", "table", "row", "cell", "columnheader", "rowheader",
    "group", "paragraph", "label", "caption", "note", "status", "alert", "description"
  }

  type Refs = map<Key, TargetRef>

  function TargetOf(node: SemNode, refs: Refs): Option<TargetRef> {
    if node.targetKey.Some? && node.targetKey.value in refs then Some(refs[node.targetKey.value]) else None
  }

  function BaseOf(node: SemNode, refs: Refs): Base {
    Base(node.facts,
         match TargetOf(node, refs)
         case None => None
         case Some(t) => Some(Emitted(t.ref, t.frameRef, if node.pointable then node.rect else None)))
  }

  // ------------------------------------------------------------ reference counts

  function OwnCounts(node: SemNode, refs: Refs, allowed: set<string>): Counts {
    match TargetOf(node, refs)
    case None => Counts(0, 0)
    case Some(t) => if t.ref == "" then Counts(0, 0) else Counts(1, if t.ref in allowed then 1 else 0)
  }

  /** Actionable and allowed-actionable nodes in a subtree, recounted from scratch. */
  function TrueCounts(node: SemNode, refs: Refs, allowed: set<string>): Counts
    decreases node, 1
  {
    var own, below := OwnCounts(node, refs, allowed), CountsOfAll(node.children, refs, allowed);
    Counts(own.any + below.any, own.allowed + below.allowed)
  }

  function CountsOfAll(nodes: seq<SemNode>, refs: Refs, allowed: set<string>): Counts
    decreases nodes, 0
  {
    if nodes == [] then Counts(0, 0)
    else
      var init, last := CountsOfAll(nodes[..|nodes| - 1], refs, allowed), TrueCounts(nodes[|nodes| - 1], refs, allowed);
      Counts(init.any + last.any, init.allowed + last.allowed)
  }

  // -------------------------------------------------------------------- ordering

  function AllowedKey(refs: Refs, allowed: set<string>): SemNode -> nat {
    (n: SemNode) => TrueCounts(n, refs, allowed).allowed
  }

  function ActionableFirst(nodes: seq<SemNode>, refs: Refs, allowed: set<string>): (r: seq<SemNode>)
    ensures forall i :: 0 <= i < |r| ==> r[i] in nodes
  {
    var r := SortDescending(nodes, AllowedKey(refs, allowed));
    SortPermutes(nodes, AllowedKey(refs, allowed));
    assert forall i :: 0 <= i < |r| ==> r[i] in multiset(r);
    r
  }

  // ------------------------------------------------------- reference serialization

  /** Why a node is left out before any budget is considered. */
  function Rejected(node: SemNode, c: Counts, t: Option<TargetRef>, allowed: set<string>, contextual: bool): bool {
    || (t.Some? && t.value.ref !in allowed)
    || (t.None? && c.any > 0 && c.allowed == 0)
    || (t.None? && c.allowed == 0 && !contextual && node.facts.role !in CONTEXT_ROLES)
  }

  /** The serialization without budgets. */
  function Prune(node: SemNode, refs: Refs, allowed: set<string>, contextual: bool): Option<AgentNode>
    decreases node, 1
  {
    var c := TrueCounts(node, refs, allowed);
    if Rejected(node, c, TargetOf(node, refs), allowed, contextual) then None
    else Some(AgentNode(BaseOf(node, refs),
                        PruneAll(ActionableFirst(node.children, refs, allowed), refs, allowed, c.allowed > 0 || contextual, node.children)))
  }

  function PruneAll(nodes: seq<SemNode>, refs: Refs, allowed: set<string>, contextual: bool, ghost within: seq<SemNode>): seq<AgentNode>
    requires forall i :: 0 <= i < |nodes| ==> nodes[i] in within
    decreases within, 0, |nodes|
  {
    if nodes == [] then []
    else
      var last := nodes[|nodes| - 1];
      var rest := PruneAll(nodes[..|nodes| - 1], refs, allowed, contextual, within);
      match Prune(last, refs, allowed, contextual)
      case None => rest
      case Some(a) => rest + [a]
  }

  function PruneRoots(roots: seq<SemNode>, refs: Refs, allowed: set<string>): seq<AgentNode> {
    PruneAll(ActionableFirst(roots, refs, allowed), refs, allowed, false, roots)
  }

  // ------------------------------------------------------------- output measures

  function NodeCount(a: AgentNode): nat
    decreases a, 1
  {
    1 + NodeCountAll(a.children)
  }

  function NodeCountAll(s: seq<AgentNode>): nat
    decreases s, 0
  {
    if s == [] then 0 else NodeCountAll(s[..|s| - 1]) + NodeCount(s[|s| - 1])
  }

  function Bytes(a: AgentNode, size: Base -> nat): nat
    decreases a, 1
  {
    size(a.base) + BytesAll(a.children, size)
  }

  function BytesAll(s: seq<AgentNode>, size: Base -> nat): nat
    decreases s, 0
  {
    if s == [] then 0 else BytesAll(s[..|s| - 1], size) + Bytes(s[|s| - 1], size)
  }

  function RefsOf(a: AgentNode): set<string>
    decreases a, 1
  {
    (if a.base.target.Some? then {a.base.target.value.ref} else {}) + RefsOfAll(a.children)
  }

  function RefsOfAll(s: seq<AgentNode>): set<string>
    decreases s, 0
  {
    if s == [] then {} else RefsOfAll(s[..|s| - 1]) + RefsOf(s[|s| - 1])
  }

  /** Allowed refs reachable without passing a node whose own ref is not allowed. */
  function Eligible(node: SemNode, refs: Refs, allowed: set<string>): set<string>
    decreases node, 1
  {
    match TargetOf(node, refs)
    case None => EligibleAll(node.children, refs, allowed)
    case Some(t) => if t.ref in allowed then {t.ref} + EligibleAll(node.children, refs, allowed) else {}
  }

  function EligibleAll(nodes: seq<SemNode>, refs: Refs, allowed: set<string>): set<string>
    decreases nodes, 0
  {
    if nodes == [] then {}
    else EligibleAll(nodes[..|nodes| - 1], refs, allowed) + Eligible(nodes[|nodes| - 1], refs, allowed)
  }

  lemma {:induction false} EligibleAllMembers(nodes: seq<SemNode>, refs: Refs, allowed: set<string>, x: string)
    ensures x in EligibleAll(nodes, refs, allowed) <==> exists n :: n in nodes && x in Eligible(n, refs, allowed)
  {
    if nodes != [] {
      var init, last := nodes[..|nodes| - 1], nodes[|nodes| - 1];
      EligibleAllMembers(init, refs, allowed, x);
      assert EligibleAll(nodes, refs, allowed) == EligibleAll(init, refs, allowed) + Eligible(last, refs, allowed);
      assert last in nodes && forall n :: n in init ==> n in nodes;
      if n :| n in nodes && x in Eligible(n, refs, allowed) {
        assert n in init || n == last;
      }
    }
  }

  lemma EligibleIgnoresOrder(a: seq<SemNode>, b: seq<SemNode>, refs: Refs, allowed: set<string>)
    requires multiset(a) == multiset(b)
    ensures EligibleAll(a, refs, allowed) == EligibleAll(b, refs, allowed)
  {
    assert forall n :: n in a <==> n in multiset(a);
    assert forall n :: n in b <==> n in multiset(b);
    forall x
      ensures x in EligibleAll(a, refs, allowed) <==> x in EligibleAll(b, refs, allowed)
    {
      EligibleAllMembers(a, refs, allowed, x);
      EligibleAllMembers(b, refs, allowed, x);
    }
  }

  /** A subtree without an allowed actionable node holds no eligible ref. */
  lemma {:induction false} NothingAllowedNothingEligible(node: SemNode, refs: Refs, allowed: set<string>)
    requires forall k :: k in refs ==> refs[k].ref != ""
    requires TrueCounts(node, refs, allowed).allowed == 0
    ensures Eligible(node, refs, allowed) == {}
    decreases node, 1
  {
    assert OwnCounts(node, refs, allowed).allowed == 0 && CountsOfAll(node.children, refs, allowed).allowed == 0;
    match TargetOf(node, refs)
    case None => NothingAllowedNothingEligibleAll(node.children, refs, allowed);
    case Some(t) => assert t.ref !in allowed;
  }

  lemma {:induction false} NothingAllowedNothingEligibleAll(nodes: seq<SemNode>, refs: Refs, allowed: set<string>)
    requires forall k :: k in refs ==> refs[k].ref != ""
    requires CountsOfAll(nodes, refs, allowed).allowed == 0
    ensures EligibleAll(nodes, refs, allowed) == {}
    decreases nodes, 0
  {
    if nodes != [] {
      NothingAllowedNothingEligibleAll(nodes[..|nodes| - 1], refs, allowed);
      NothingAllowedNothingEligible(nodes[|nodes| - 1], refs, allowed);
    }
  }

  /** Pruning keeps exactly the eligible refs, whatever the context flag says. */
  lemma {:induction false} PruneKeepsEligible(node: SemNode, refs: Refs, allowed: set<string>, contextual: bool)
    requires forall k :: k in refs ==> refs[k].ref != ""
    ensures match Prune(node, refs, allowed, contextual)
            case None => Eligible(node, refs, allowed) == {}
            case Some(a) => RefsOf(a) == Eligible(node, refs, allowed)
    decreases node, 1
  {
    var c := TrueCounts(node, refs, allowed);
    if Rejected(node, c, TargetOf(node, refs), allowed, contextual) {
      if TargetOf(node, refs).None? {
        NothingAllowedNothingEligible(node, refs, allowed);
      }
    } else {
      var ordered := ActionableFirst(node.children, refs, allowed);
      PruneAllKeepsEligible(ordered, refs, allowed, c.allowed > 0 || contextual, node.children);
      SortPermutes(node.children, AllowedKey(refs, allowed));
      EligibleIgnoresOrder(ordered, node.children, refs, allowed);
    }
  }

  lemma {:induction false} PruneAllKeepsEligible(nodes: seq<SemNode>, refs: Refs, allowed: set<string>, contextual: bool, within: seq<SemNode>)
    requires forall k :: k in refs ==> refs[k].ref != ""
    requires forall i :: 0 <= i < |nodes| ==> nodes[i] in within
    ensures RefsOfAll(PruneAll(nodes, refs, allowed, contextual, within)) == EligibleAll(nodes, refs, allowed)
    decreases within, 0, |nodes|
  {
    if nodes != [] {
      var last := nodes[|nodes| - 1];
      var rest := PruneAll(nodes[..|nodes| - 1], refs, allowed, contextual, within);
      PruneAllKeepsEligible(nodes[..|nodes| - 1], refs, allowed, contextual, within);
      PruneKeepsEligible(last, refs, allowed, contextual);
      match Prune(last, refs, allowed, contextual)
      case None =>
      case Some(a) => assert (rest + [a])[..|rest|] == rest;
    }
  }

  lemma {:induction false} EligibleIsAllowed(node: SemNode, refs: Refs, allowed: set<string>)
    ensures Eligible(node, refs, allowed) <= allowed
    decreases node, 1
  {
    EligibleAllIsAllowed(node.children, refs, allowed);
  }

  lemma {:induction false} EligibleAllIsAllowed(nodes: seq<SemNode>, refs: Refs, allowed: set<string>)
    ensures EligibleAll(nodes, refs, allowed) <= allowed
    decreases nodes, 0
  {
    if nodes != [] {
      EligibleAllIsAllowed(nodes[..|nodes| - 1], refs, allowed);
      EligibleIsAllowed(nodes[|nodes| - 1], refs, allowed);
    }
  }

  /** The running totals the source mutates, and the limits they are held against. */
  datatype Budget = Budget(nodes: nat, bytes: nat, truncated: bool, maxNodes: nat, maxBytes: nat)
  {
    predicate Within() {
      nodes <= maxNodes && bytes <= maxBytes
    }

    predicate Fits(moreNodes: nat, moreBytes: nat) {
      nodes + moreNodes <= maxNodes && bytes + moreBytes <= maxBytes
    }
  }

  // ---------------------------------------------------------------- trimming

  /**
    a is b with some subtrees taken out, order kept, none of whose tops would fit into
    what is left in the end.
   */
  ghost predicate Trimmed(a: AgentNode, b: AgentNode, end: Budget, size: Base -> nat)
    decreases b, 1
  {
    a.base == b.base && TrimmedAll(a.children, b.children, end, size)
  }

  ghost predicate TrimmedAll(s: seq<AgentNode>, t: seq<AgentNode>, end: Budget, size: Base -> nat)
    decreases t, 0
  {
    if t == [] then s == []
    else
      || (!end.Fits(1, size(t[|t| - 1].base)) && TrimmedAll(s, t[..|t| - 1], end, size))
      || (s != [] && Trimmed(s[|s| - 1], t[|t| - 1], end, size) && TrimmedAll(s[..|s| - 1], t[..|t| - 1], end, size))
  }

  /** No more room than before. */
  predicate Tighter(b: Budget, c: Budget) {
    c.maxNodes == b.maxNodes && c.maxBytes == b.maxBytes && c.nodes >= b.nodes && c.bytes >= b.bytes
  }

  lemma {:induction false} TrimmedTighter(a: AgentNode, b: AgentNode, c: Budget, d: Budget, size: Base -> nat)
    requires Trimmed(a, b, c, size) && Tighter(c, d)
    ensures Trimmed(a, b, d, size)
    decreases b, 1
  {
    TrimmedAllTighter(a.children, b.children, c, d, size);
  }

  lemma {:induction false} TrimmedAllTighter(s: seq<AgentNode>, t: seq<AgentNode>, c: Budget, d: Budget, size: Base -> nat)
    requires TrimmedAll(s, t, c, size) && Tighter(c, d)
    ensures TrimmedAll(s, t, d, size)
    decreases t, 0
  {
    if t != [] {
      if !c.Fits(1, size(t[|t| - 1].base)) && TrimmedAll(s, t[..|t| - 1], c, size) {
        TrimmedAllTighter(s, t[..|t| - 1], c, d, size);
      } else {
        TrimmedTighter(s[|s| - 1], t[|t| - 1], c, d, size);
        TrimmedAllTighter(s[..|s| - 1], t[..|t| - 1], c, d, size);
      }
    }
  }

  lemma {:induction false} TrimmedRefs(a: AgentNode, b: AgentNode, end: Budget, size: Base -> nat)
    requires Trimmed(a, b, end, size)
    ensures RefsOf(a) <= RefsOf(b)
    decreases b, 1
  {
    TrimmedAllRefs(a.children, b.children, end, size);
  }

  lemma {:induction false} TrimmedAllRefs(s: seq<AgentNode>, t: seq<AgentNode>, end: Budget, size: Base -> nat)
    requires TrimmedAll(s, t, end, size)
    ensures RefsOfAll(s) <= RefsOfAll(t)
    decreases t, 0
  {
    if t != [] {
      if TrimmedAll(s, t[..|t| - 1], end, size) {
        TrimmedAllRefs(s, t[..|t| - 1], end, size);
      } else {
        TrimmedRefs(s[|s| - 1], t[|t| - 1], end, size);
        TrimmedAllRefs(s[..|s| - 1], t[..|t| - 1], end, size);
      }
    }
  }

  // -------------------------------------------------------- the memo table's domain

  /** The table has an entry for every node of a subtree. */
  ghost predicate Covered(ids: set<Key>, node: SemNode)
    decreases node, 1
  {
    node.id in ids && CoveredAll(ids, node.children)
  }

  ghost predicate CoveredAll(ids: set<Key>, nodes: seq<SemNode>)
    decreases nodes, 0
  {
    nodes == [] || (CoveredAll(ids, nodes[..|nodes| - 1]) && Covered(ids, nodes[|nodes| - 1]))
  }

  lemma {:induction false} CoveredGrows(ids: set<Key>, more: set<Key>, node: SemNode)
    requires ids <= more && Covered(ids, node)
    ensures Covered(more, node)
    decreases node, 1
  {
    CoveredAllGrows(ids, more, node.children);
  }

  lemma {:induction false} CoveredAllGrows(ids: set<Key>, more: set<Key>, nodes: seq<SemNode>)
    requires ids <= more && CoveredAll(ids, nodes)
    ensures CoveredAll(more, nodes)
    decreases nodes, 0
  {
    if nodes != [] {
      CoveredAllGrows(ids, more, nodes[..|nodes| - 1]);
      CoveredGrows(ids, more, nodes[|nodes| - 1]);
    }
  }

  lemma {:induction false} CoveredMember(ids: set<Key>, nodes: seq<SemNode>, n: SemNode)
    requires CoveredAll(ids, nodes) && n in nodes
    ensures Covered(ids, n)
  {
    if n != nodes[|nodes| - 1] {
      assert n in nodes[..|nodes| - 1];
      CoveredMember(ids, nodes[..|nodes| - 1], n);
    }
  }

  /**
    Ids determine nodes: the index holds the one node of each id, and the children
    of every node it holds.
   */
  ghost predicate Knows(index: map<Key, SemNode>, node: SemNode) {
    node.id in index && index[node.id] == node
  }

  ghost predicate KnowsAll(index: map<Key, SemNode>, nodes: seq<SemNode>) {
    forall i :: 0 <= i < |nodes| ==> Knows(index, nodes[i])
  }

  ghost predicate IdDetermines(index: map<Key, SemNode>) {
    forall id {:trigger index[id].children} :: id in index ==> index[id].id == id && KnowsAll(index, index[id].children)
  }

  /** Two trees unfolded from the same forest with the same root id are the same tree. */
  ghost predicate Unfolds(f: SemanticTree.Forest, facts: Key -> SemNode, node: SemNode)
    decreases node
  {
    && node.id in f.children
    && node == facts(node.id).(id := node.id, children := node.children)
    && |node.children| == |f.children[node.id]|
    && forall i :: 0 <= i < |node.children| ==> node.children[i].id == f.children[node.id][i] && Unfolds(f, facts, node.children[i])
  }

  lemma {:induction false} UnfoldingIsUnique(f: SemanticTree.Forest, facts: Key -> SemNode, a: SemNode, b: SemNode)
    requires Unfolds(f, facts, a) && Unfolds(f, facts, b) && a.id == b.id
    ensures a == b
    decreases a
  {
    forall i | 0 <= i < |a.children|
      ensures a.children[i] == b.children[i]
    {
      UnfoldingIsUnique(f, facts, a.children[i], b.children[i]);
    }
    assert a.children == b.children;
  }

  /** So the trees a builder's forest unfolds to always meet the serializer's hypothesis. */
  lemma BuilderOutputIdDetermines(f: SemanticTree.Forest, facts: Key -> SemNode, nodes: set<SemNode>) returns (index: map<Key, SemNode>)
    requires forall n :: n in nodes ==> Unfolds(f, facts, n)
    requires forall n, i :: n in nodes && 0 <= i < |n.children| ==> n.children[i] in nodes
    ensures IdDetermines(index) && forall n :: n in nodes ==> Knows(index, n)
  {
    var ids := set n | n in nodes :: n.id;
    index := map id | id in ids :: (var n :| n in nodes && n.id == id; n);
    forall n | n in nodes
      ensures Knows(index, n)
    {
      assert n.id in ids;
      UnfoldingIsUnique(f, facts, n, index[n.id]);
    }
  }

  // ---------------------------------------------------------------- the serializer

  /** Every memoised count is the true count of the node with that id. */
  ghost predicate MemoRight(counts: map<Key, Counts>, index: map<Key, SemNode>, refs: Refs, allowed: set<string>) {
    forall id :: id in counts && id in index ==> MemoRightAt(counts[id], index[id], refs, allowed)
  }

  ghost predicate MemoRightAt(c: Counts, node: SemNode, refs: Refs, allowed: set<string>) {
    c == TrueCounts(node, refs, allowed)
  }

  lemma MemoPut(counts: map<Key, Counts>, index: map<Key, SemNode>, refs: Refs, allowed: set<string>, node: SemNode, c: Counts)
    requires MemoRight(counts, index, refs, allowed) && Knows(index, node) && c == TrueCounts(node, refs, allowed)
    ensures MemoRight(counts[node.id := c], index, refs, allowed)
  {
  }

  // ------------------------------------------------------------- budget accounting

  function Listed(r: Option<AgentNode>): seq<AgentNode> {
    if r.Some? then [r.value] else []
  }

  /**
    s was emitted out of `all`: it is charged in full, it is `all` with subtrees taken
    out whose tops do not fit, the page is flagged truncated exactly when `all` does not fit, and
    it is `all` itself when it does.
   */
  ghost predicate Accounted(b: Budget, c: Budget, s: seq<AgentNode>, all: seq<AgentNode>, size: Base -> nat) {
    && c == Budget(b.nodes + NodeCountAll(s), b.bytes + BytesAll(s, size),
                   b.truncated || !b.Fits(NodeCountAll(all), BytesAll(all, size)), b.maxNodes, b.maxBytes)
    && c.Within()
    && TrimmedAll(s, all, c, size)
    && (b.Fits(NodeCountAll(all), BytesAll(all, size)) ==> s == all)
  }

  lemma AppendMeasures(s: seq<AgentNode>, a: AgentNode, size: Base -> nat)
    ensures NodeCountAll(s + [a]) == NodeCountAll(s) + NodeCount(a)
    ensures BytesAll(s + [a], size) == BytesAll(s, size) + Bytes(a, size)
  {
    assert (s + [a])[..|s|] == s;
  }

  lemma ListedMeasures(r: Option<AgentNode>, size: Base -> nat)
    ensures NodeCountAll(Listed(r)) == if r.Some? then NodeCount(r.value) else 0
    ensures BytesAll(Listed(r), size) == if r.Some? then Bytes(r.value, size) else 0
  {
    if r.Some? {
      AppendMeasures([], r.value, size);
      assert [] + [r.value] == [r.value];
    }
  }

  lemma TrimmedListed(r: Option<AgentNode>, a: Option<AgentNode>, end: Budget, size: Base -> nat)
    ensures TrimmedAll(Listed(r), Listed(a), end, size) <==>
              (if r.Some? then a.Some? && Trimmed(r.value, a.value, end, size) else a.Some? ==> !end.Fits(1, size(a.value.base)))
  {
    if a.Some? {
      assert Listed(a)[..0] == [];
      if r.Some? {
        assert Listed(r)[..0] == [];
      }
    }
  }

  lemma TrimmedAppend(s: seq<AgentNode>, all: seq<AgentNode>, r: Option<AgentNode>, a: Option<AgentNode>, end: Budget, size: Base -> nat)
    requires TrimmedAll(s, all, end, size) && TrimmedAll(Listed(r), Listed(a), end, size)
    ensures TrimmedAll(s + Listed(r), all + Listed(a), end, size)
  {
    TrimmedListed(r, a, end, size);
    if a.Some? {
      assert (all + Listed(a))[..|all|] == all;
      if r.Some? {
        assert (s + Listed(r))[..|s|] == s;
      } else {
        assert s + Listed(r) == s;
      }
    } else {
      assert s + Listed(r) == s && all + Listed(a) == all;
    }
  }

  lemma AccountedStep(b: Budget, c: Budget, d: Budget, s: seq<AgentNode>, all: seq<AgentNode>,
                      r: Option<AgentNode>, a: Option<AgentNode>, size: Base -> nat)
    requires Accounted(b, c, s, all, size) && Accounted(c, d, Listed(r), Listed(a), size)
    ensures Accounted(b, d, s + Listed(r), all + Listed(a), size)
  {
    hide NodeCountAll, BytesAll, NodeCount, Bytes, TrimmedAll;
    ListedMeasures(r, size);
    ListedMeasures(a, size);
    TrimmedAllTighter(s, all, c, d, size);
    TrimmedAppend(s, all, r, a, d, size);
    if r.Some? {
      AppendMeasures(s, r.value, size);
    } else {
      assert s + Listed(r) == s;
    }
    if a.Some? {
      AppendMeasures(all, a.value, size);
    } else {
      assert all + Listed(a) == all;
    }
  }

  lemma NothingOfferedYet(b: Budget, size: Base -> nat)
    requires b.Within()
    ensures Accounted(b, b, [], [], size)
  {
  }

  lemma PruneUnfolds(node: SemNode, refs: Refs, allowed: set<string>, contextual: bool)
    ensures var c := TrueCounts(node, refs, allowed);
            if Rejected(node, c, TargetOf(node, refs), allowed, contextual) then Prune(node, refs, allowed, contextual) == None
            else Prune(node, refs, allowed, contextual) == Some(AgentNode(BaseOf(node, refs),
                   PruneAll(ActionableFirst(node.children, refs, allowed), refs, allowed, c.allowed > 0 || contextual, node.children)))
  {
  }

  lemma NothingPruned(refs: Refs, allowed: set<string>, contextual: bool, within: seq<SemNode>)
    ensures PruneAll([], refs, allowed, contextual, within) == []
  {
  }

  lemma PruneGrows(nodes: seq<SemNode>, i: nat, refs: Refs, allowed: set<string>, contextual: bool, within: seq<SemNode>)
    requires i < |nodes| && forall j :: 0 <= j < |nodes| ==> nodes[j] in within
    ensures PruneAll(nodes[..i + 1], refs, allowed, contextual, within)
         == PruneAll(nodes[..i], refs, allowed, contextual, within) + Listed(Prune(nodes[i], refs, allowed, contextual))
  {
    assert nodes[..i + 1][..i] == nodes[..i];
  }

  /** A node that does not fit on its own cannot fit with its children. */
  lemma NothingEmitted(b: Budget, a: AgentNode, size: Base -> nat)
    requires b.Within() && !b.Fits(1, size(a.base))
    ensures Accounted(b, b.(truncated := true), Listed(None), Listed(Some(a)), size)
  {
    ListedMeasures(Some(a), size);
    TrimmedListed(None, Some(a), b, size);
  }

  lemma NodeEmitted(b: Budget, d: Budget, base: Base, children: seq<AgentNode>, all: seq<AgentNode>, size: Base -> nat)
    requires Accounted(b.(nodes := b.nodes + 1, bytes := b.bytes + size(base)), d, children, all, size)
    ensures Accounted(b, d, Listed(Some(AgentNode(base, children))), Listed(Some(AgentNode(base, all))), size)
  {
    ListedMeasures(Some(AgentNode(base, children)), size);
    ListedMeasures(Some(AgentNode(base, all)), size);
    TrimmedListed(Some(AgentNode(base, children)), Some(AgentNode(base, all)), d, size);
  }

  class PageSerializer {
    const refs: Refs
    const allowed: set<string>
    const size: Base -> nat
    const maxNodes: nat
    const maxBytes: nat
    ghost const index: map<Key, SemNode>
    var counts: map<Key, Counts>
    var retainedNodes: nat
    var retainedBytes: nat
    var truncated: bool

    constructor (refs: Refs, allowed: set<string>, size: Base -> nat, maxNodes: nat, maxBytes: nat, truncated: bool, ghost index: map<Key, SemNode>)
      ensures Valid() && counts == map[] && retainedNodes == 0 && retainedBytes == 0 && this.truncated == truncated
      ensures this.refs == refs && this.allowed == allowed && this.size == size && this.index == index
      ensures this.maxNodes == maxNodes && this.maxBytes == maxBytes
    {
      this.refs, this.allowed, this.size, this.index := refs, allowed, size, index;
      this.maxNodes, this.maxBytes, this.truncated := maxNodes, maxBytes, truncated;
      counts, retainedNodes, retainedBytes := map[], 0, 0;
    }

    /** Memoised counts are the true counts, and the budgets have not been exceeded. */
    ghost predicate Valid()
      reads this
    {
      && MemoRight(counts, index, refs, allowed)
      && retainedNodes <= maxNodes && retainedBytes <= maxBytes
    }

    method SubtreeCounts(node: SemNode) returns (c: Counts)
      requires IdDetermines(index) && Valid() && Knows(index, node)
      modifies this`counts
      ensures Valid() && old(counts).Keys <= counts.Keys && Covered(counts.Keys, node)
      ensures c == TrueCounts(node, refs, allowed)
      decreases node, 1
    {
      c := OwnCounts(node, refs, allowed);
      var below := CountAll(node.children);
      c := Counts(c.any + below.any, c.allowed + below.allowed);
      ghost var before := counts.Keys;
      Memoise(node, c);
      CoveredAllGrows(before, counts.Keys, node.children);
    }

    method Memoise(node: SemNode, c: Counts)
      requires Valid() && Knows(index, node) && c == TrueCounts(node, refs, allowed)
      modifies this`counts
      ensures Valid() && counts == old(counts)[node.id := c]
    {
      MemoPut(counts, index, refs, allowed, node, c);
      counts := counts[node.id := c];
    }

    method CountAll(nodes: seq<SemNode>) returns (c: Counts)
      requires IdDetermines(index) && Valid() && KnowsAll(index, nodes)
      modifies this`counts
      ensures Valid() && old(counts).Keys <= counts.Keys && CoveredAll(counts.Keys, nodes)
      ensures c == CountsOfAll(nodes, refs, allowed)
      decreases nodes, 0
    {
      c := Counts(0, 0);
      for i := 0 to |nodes|
        invariant Valid() && old(counts).Keys <= counts.Keys && CoveredAll(counts.Keys, nodes[..i])
        invariant c == CountsOfAll(nodes[..i], refs, allowed)
      {
        ghost var before := counts.Keys;
        var childCounts := SubtreeCounts(nodes[i]);
        CoveredAllGrows(before, counts.Keys, nodes[..i]);
        assert nodes[..i + 1][..i] == nodes[..i];
        c := Counts(c.any + childCounts.any, c.allowed + childCounts.allowed);
      }
      assert nodes[..|nodes|] == nodes;
    }

    /** `counts.get(id)?.allowedActionable ?? 0`. */
    function MemoKey(): SemNode -> nat
      reads this
    {
      var table := counts;
      (n: SemNode) => if n.id in table then table[n.id].allowed else 0
    }

    lemma MemoKeyIsTrueKey(nodes: seq<SemNode>)
      requires Valid() && CoveredAll(counts.Keys, nodes)
      requires KnowsAll(index, nodes)
      ensures SortDescending(nodes, MemoKey()) == ActionableFirst(nodes, refs, allowed)
    {
      forall n | n in nodes
        ensures MemoKey()(n) == AllowedKey(refs, allowed)(n)
      {
        CoveredMember(counts.Keys, nodes, n);
      }
      SortAgrees(nodes, MemoKey(), AllowedKey(refs, allowed));
    }

    function Spent(): Budget
      reads this
    {
      Budget(retainedNodes, retainedBytes, truncated, maxNodes, maxBytes)
    }

    lemma LookUp(node: SemNode)
      requires IdDetermines(index) && Valid() && Knows(index, node) && Covered(counts.Keys, node)
      ensures node.id in counts && counts[node.id] == TrueCounts(node, refs, allowed)
      ensures CoveredAll(counts.Keys, node.children) && KnowsAll(index, node.children)
      ensures retainedNodes <= maxNodes && retainedBytes <= maxBytes
      ensures forall n :: n in node.children ==> Knows(index, n)
    {
      assert index[node.id].children == node.children;
    }

    /** The node passed the filters: charge it, or drop it with its subtree and flag the page. */
    method Serialize(node: SemNode, contextual: bool) returns (r: Option<AgentNode>)
      requires IdDetermines(index) && Valid() && Knows(index, node) && Covered(counts.Keys, node)
      modifies this`retainedNodes, this`retainedBytes, this`truncated
      ensures Valid()
      ensures Accounted(old(Spent()), Spent(), Listed(r), Listed(Prune(node, refs, allowed, contextual)), size)
      decreases node, 1
    {
      hide Accounted, Prune, PruneAll, Covered, CoveredAll, TrueCounts, IdDetermines, MemoRight, Knows, KnowsAll, Rejected, ActionableFirst, BaseOf, TargetOf;
      LookUp(node);
      PruneUnfolds(node, refs, allowed, contextual);
      var count := counts[node.id];
      if Rejected(node, count, TargetOf(node, refs), allowed, contextual) {
        NothingOfferedYet(Spent(), size);
        return None;
      }
      var base := BaseOf(node, refs);
      var estimatedBytes := size(base);
      ghost var b := Spent();
      ghost var all := PruneAll(ActionableFirst(node.children, refs, allowed), refs, allowed, count.allowed > 0 || contextual, node.children);
      if retainedNodes >= maxNodes || retainedBytes + estimatedBytes > maxBytes {
        truncated := true;
        NothingEmitted(b, AgentNode(base, all), size);
        return None;
      }
      retainedNodes := retainedNodes + 1;
      retainedBytes := retainedBytes + estimatedBytes;
      MemoKeyIsTrueKey(node.children);
      var ordered := SortDescending(node.children, MemoKey());
      var children := SerializeAll(ordered, count.allowed > 0 || contextual, node.children);
      r := Some(AgentNode(base, children));
      NodeEmitted(b, Spent(), base, children, all, size);
    }

    method SerializeAll(nodes: seq<SemNode>, contextual: bool, ghost within: seq<SemNode>) returns (s: seq<AgentNode>)
      requires IdDetermines(index) && Valid() && CoveredAll(counts.Keys, within)
      requires KnowsAll(index, within)
      requires forall i :: 0 <= i < |nodes| ==> nodes[i] in within
      modifies this`retainedNodes, this`retainedBytes, this`truncated
      ensures Valid()
      ensures Accounted(old(Spent()), Spent(), s, PruneAll(nodes, refs, allowed, contextual, within), size)
      decreases within, 0
    {
      s := [];
      NothingOfferedYet(Spent(), size);
      assert PruneAll(nodes[..0], refs, allowed, contextual, within) == [] by {
        NothingPruned(refs, allowed, contextual, within);
        assert nodes[..0] == [];
      }
      for i := 0 to |nodes|
        invariant Valid()
        invariant Accounted(old(Spent()), Spent(), s, PruneAll(nodes[..i], refs, allowed, contextual, within), size)
      {
        ghost var before := Spent();
        ghost var all := PruneAll(nodes[..i], refs, allowed, contextual, within);
        CoveredMember(counts.Keys, within, nodes[i]);
        var child := Serialize(nodes[i], contextual);
        AccountedStep(old(Spent()), before, Spent(), s, all, child, Prune(nodes[i], refs, allowed, contextual), size);
        PruneGrows(nodes, i, refs, allowed, contextual, within);
        s := s + Listed(child);
      }
      assert nodes[..|nodes|] == nodes;
    }
  }

  // ------------------------------------------------------------------ the entry point

  /**
    The page never exceeds its budgets and only carries eligible refs; what the budgets
    leave out below a node of the page would not fit into what is left. It is flagged
    truncated exactly when the source tree was or the unbudgeted page does not fit;
    otherwise it is the unbudgeted page and carries exactly the eligible refs.
   */
  method SerializeSemanticTreePage(
    roots: seq<SemNode>, treeTruncated: bool, refs: Refs, allowed: set<string>,
    maxNodesOption: Option<int>, maxBytesOption: Option<int>, size: Base -> nat, ghost index: map<Key, SemNode>)
    returns (page: seq<AgentNode>, truncated: bool)
    requires IdDetermines(index) && KnowsAll(index, roots)
    requires forall k :: k in refs ==> refs[k].ref != ""
    ensures var maxNodes, maxBytes := Max(1, maxNodesOption.GetOr(200)), Max(256, maxBytesOption.GetOr(12000));
            var all := PruneRoots(roots, refs, allowed);
            && NodeCountAll(page) <= maxNodes && BytesAll(page, size) <= maxBytes
            && TrimmedAll(page, all, Budget(NodeCountAll(page), BytesAll(page, size), truncated, maxNodes, maxBytes), size)
            && (truncated <==> treeTruncated || NodeCountAll(all) > maxNodes || BytesAll(all, size) > maxBytes)
            && (!truncated ==> page == all)
    ensures RefsOfAll(page) <= EligibleAll(roots, refs, allowed) <= allowed
    ensures !truncated ==> RefsOfAll(page) == EligibleAll(roots, refs, allowed)
  {
    hide TrimmedAll, RefsOfAll, EligibleAll, PruneAll, NodeCountAll, BytesAll, TrueCounts, CountsOfAll, CoveredAll, KnowsAll, IdDetermines;
    var maxNodes, maxBytes := Max(1, maxNodesOption.GetOr(200)), Max(256, maxBytesOption.GetOr(12000));
    NothingMeasured(size);
    var s := new PageSerializer(refs, allowed, size, maxNodes, maxBytes, treeTruncated, index);
    var _ := s.CountAll(roots);
    s.MemoKeyIsTrueKey(roots);
    var ordered := SortDescending(roots, s.MemoKey());
    page := s.SerializeAll(ordered, false, roots);
    truncated := s.truncated;
    PageRefs(page, roots, refs, allowed, s.Spent(), size);
  }

  /** The refs of the unbudgeted page are the eligible ones, and trimming adds none. */
  lemma PageRefs(page: seq<AgentNode>, roots: seq<SemNode>, refs: Refs, allowed: set<string>, end: Budget, size: Base -> nat)
    requires forall k :: k in refs ==> refs[k].ref != ""
    requires TrimmedAll(page, PruneRoots(roots, refs, allowed), end, size)
    ensures RefsOfAll(page) <= EligibleAll(roots, refs, allowed) <= allowed
    ensures RefsOfAll(PruneRoots(roots, refs, allowed)) == EligibleAll(roots, refs, allowed)
  {
    hide TrimmedAll, RefsOfAll, EligibleAll, PruneAll;
    var ordered := ActionableFirst(roots, refs, allowed);
    TrimmedAllRefs(page, PruneRoots(roots, refs, allowed), end, size);
    PruneAllKeepsEligible(ordered, refs, allowed, false, roots);
    SortPermutes(roots, AllowedKey(refs, allowed));
    EligibleIgnoresOrder(ordered, roots, refs, allowed);
    EligibleAllIsAllowed(roots, refs, allowed);
  }

  lemma NothingMeasured(size: Base -> nat)
    ensures NodeCountAll([]) == 0 && BytesAll([], size) == 0
  {
  }

  function Max(a: nat, b: int): nat {
    if b > a then b else a
  }
}
