/**
  Contraction of the canonical parent graph into the semantic forest
  (packages/browser-core/src/browser-semantic-tree.ts).

  Parent links mix DOM and accessibility edges, so the link graph may contain
  cycles. Nothing below assumes that it does not, unless a lemma says so.
 */
module SemanticTree {
  import opened Wrappers
  import opened CanonicalRegistry

  // ---------------------------------------------------------------- ancestry

  /** A node's parent: the DOM link when there is one, else the accessibility link. */
  function ParentOf(nodes: map<Key, CanonicalNode>, k: Key): Option<Key> {
    if k in nodes then nodes[k].domParent.OrElse(nodes[k].axParent) else None
  }

  /** The n-th parent of k. */
  function Up(nodes: map<Key, CanonicalNode>, k: Key, n: nat): Option<Key>
    decreases n
  {
    if n == 0 then Some(k)
    else
      match ParentOf(nodes, k)
      case None => None
      case Some(p) => Up(nodes, p, n - 1)
  }

  ghost predicate Ancestor(nodes: map<Key, CanonicalNode>, a: Key, u: Key) {
    exists n: nat :: n >= 1 && Up(nodes, u, n) == Some(a)
  }

  ghost predicate Acyclic(nodes: map<Key, CanonicalNode>) {
    forall k :: !Ancestor(nodes, k, k)
  }

  lemma {:induction false} UpCompose(nodes: map<Key, CanonicalNode>, k: Key, m: nat, n: nat)
    requires Up(nodes, k, m).Some?
    ensures Up(nodes, k, m + n) == Up(nodes, Up(nodes, k, m).value, n)
    decreases m
  {
    if m > 0 {
      UpCompose(nodes, ParentOf(nodes, k).value, m - 1, n);
    }
  }

  lemma {:induction false} UpPrefix(nodes: map<Key, CanonicalNode>, k: Key, m: nat, n: nat)
    requires m <= n && Up(nodes, k, n).Some?
    ensures Up(nodes, k, m).Some?
    decreases m
  {
    if m > 0 {
      UpPrefix(nodes, ParentOf(nodes, k).value, m - 1, n - 1);
    }
  }

  lemma AncestorTransitive(nodes: map<Key, CanonicalNode>, a: Key, b: Key, c: Key)
    requires Ancestor(nodes, a, b) && Ancestor(nodes, b, c)
    ensures Ancestor(nodes, a, c)
  {
    var m: nat :| m >= 1 && Up(nodes, b, m) == Some(a);
    var n: nat :| n >= 1 && Up(nodes, c, n) == Some(b);
    UpCompose(nodes, c, n, m);
    assert Up(nodes, c, n + m) == Some(a);
  }

  // ------------------------------------------------- nearest kept ancestor

  /** n is the least positive distance at which u has a kept ancestor. */
  ghost predicate FirstKeptAt(nodes: map<Key, CanonicalNode>, kept: set<Key>, u: Key, n: nat) {
    && n >= 1
    && Up(nodes, u, n).Some? && Up(nodes, u, n).value in kept
    && forall m: nat :: 1 <= m < n && Up(nodes, u, m).Some? ==> Up(nodes, u, m).value !in kept
  }

  /** r is the closest kept node strictly above u, or None when no node above u is kept. */
  ghost predicate IsNearest(nodes: map<Key, CanonicalNode>, kept: set<Key>, u: Key, r: Option<Key>) {
    match r
    case Some(a) => exists n: nat :: FirstKeptAt(nodes, kept, u, n) && Up(nodes, u, n) == Some(a)
    case None => forall n: nat :: n >= 1 && Up(nodes, u, n).Some? ==> Up(nodes, u, n).value !in kept
  }

  lemma NearestIsUnique(nodes: map<Key, CanonicalNode>, kept: set<Key>, u: Key, r: Option<Key>, s: Option<Key>)
    requires IsNearest(nodes, kept, u, r) && IsNearest(nodes, kept, u, s)
    ensures r == s
  {
    if r.Some? && s.Some? {
      var m: nat :| FirstKeptAt(nodes, kept, u, m) && Up(nodes, u, m) == r;
      var n: nat :| FirstKeptAt(nodes, kept, u, n) && Up(nodes, u, n) == s;
      assert m == n;
    }
  }

  lemma KeptAncestorHasFirst(nodes: map<Key, CanonicalNode>, kept: set<Key>, u: Key, n: nat) returns (j: nat)
    requires n >= 1 && Up(nodes, u, n).Some? && Up(nodes, u, n).value in kept
    ensures j <= n && FirstKeptAt(nodes, kept, u, j)
  {
    if m: nat :| 1 <= m < n && Up(nodes, u, m).Some? && Up(nodes, u, m).value in kept {
      j := KeptAncestorHasFirst(nodes, kept, u, m);
    } else {
      j := n;
    }
  }

  /** A chain that has come back to a node it passed never leaves the nodes it passed. */
  lemma {:induction false} LoopedChainStaysInside(nodes: map<Key, CanonicalNode>, u: Key, i: nat, j: nat, n: nat)
    requires 1 <= i < j && Up(nodes, u, j).Some? && Up(nodes, u, i) == Up(nodes, u, j)
    requires n >= 1 && Up(nodes, u, n).Some?
    ensures exists m: nat :: 1 <= m < j && Up(nodes, u, m) == Up(nodes, u, n)
    decreases n
  {
    if n >= j {
      UpCompose(nodes, u, j, n - j);
      UpPrefix(nodes, u, i, j);
      UpCompose(nodes, u, i, n - j);
      LoopedChainStaysInside(nodes, u, i, j, i + (n - j));
    }
  }

  /**
    The upward search. It terminates on every link graph because it never
    follows a link out of a node it has visited.
   */
  method NearestSemanticParent(nodes: map<Key, CanonicalNode>, kept: set<Key>, u: Key) returns (r: Option<Key>)
    requires u in nodes
    ensures IsNearest(nodes, kept, u, r)
  {
    var visited: set<Key> := {};
    var parentKey := ParentOf(nodes, u);
    ghost var d: nat := 1;
    while parentKey.Some? && parentKey.value !in visited
      invariant d >= 1 && Up(nodes, u, d) == parentKey
      invariant forall m: nat :: 1 <= m < d ==> Up(nodes, u, m).Some? && Up(nodes, u, m).value in visited
      invariant forall k :: k in visited ==> k in nodes && k !in kept
      invariant forall k :: k in visited ==> exists m: nat :: 1 <= m < d && Up(nodes, u, m) == Some(k)
      decreases nodes.Keys - visited, parentKey.Some? && parentKey.value in nodes
    {
      var p := parentKey.value;
      if p in kept {
        assert FirstKeptAt(nodes, kept, u, d);
        return Some(p);
      }
      UpCompose(nodes, u, d, 1);
      assert ParentOf(nodes, p) == Up(nodes, p, 1) by {
        match ParentOf(nodes, p)
        case None =>
        case Some(q) => assert Up(nodes, q, 0) == Some(q);
      }
      if p in nodes {
        visited := visited + {p};
        parentKey := ParentOf(nodes, p);
        d := d + 1;
      } else {
        // A link to a node the registry does not hold ends the chain.
        forall n: nat | n >= 1 && Up(nodes, u, n).Some?
          ensures Up(nodes, u, n).value !in kept
        {
          if n > d {
            UpPrefix(nodes, u, d + 1, n);
          }
        }
        return None;
      }
    }
    forall n: nat | n >= 1 && Up(nodes, u, n).Some?
      ensures Up(nodes, u, n).value !in kept
    {
      if parentKey.None? {
        if n >= d {
          UpPrefix(nodes, u, d, n);
        }
      } else {
        var i: nat :| 1 <= i < d && Up(nodes, u, i) == parentKey;
        LoopedChainStaysInside(nodes, u, i, d, n);
      }
    }
    return None;
  }

  // ------------------------------------------------------------ classification

  /** What the role, name and style rules say about one node; their text rules are not modelled. */
  datatype Traits = Traits(textOrComment: bool, hidden: bool, meaningful: bool)

  /** Nodes whose semantics another node has taken over. */
  function AliasedSources(r: Reg): set<Key> {
    set k | k in r.nodes && r.nodes[k].semanticSource.Some? :: r.nodes[k].semanticSource.value
  }

  datatype Verdict = Skipped | Collapsed | Kept

  /** A targeted node is never hidden, never ignored, never an alias and always meaningful. */
  function Classify(c: CanonicalNode, traits: Traits, aliased: set<Key>): Verdict {
    if traits.textOrComment then Skipped
    else if c.ax.Some? && c.ax.value.ignored && c.target.None? then Skipped
    else if c.target.None? && traits.hidden then Skipped
    else if c.key in aliased && c.target.None? then Skipped
    else if !(c.target.Some? || traits.meaningful) then Collapsed
    else Kept
  }

  /** The keys of a list to which the rules give a verdict. */
  function Judged(r: Reg, keys: seq<Key>, traits: Key -> Traits, verdict: Verdict): set<Key> {
    var aliased := AliasedSources(r);
    set k | k in keys && k in r.nodes && Classify(r.nodes[k], traits(k), aliased) == verdict
  }

  ghost function KeptKeys(r: Reg, traits: Key -> Traits): set<Key> {
    Judged(r, r.order, traits, Kept)
  }

  /**
    Kept are all targeted nodes but texts and comments, and of the others those that are
    meaningful, visible, not ignored and not the source of another node's semantics.
   */
  lemma KeptExactly(r: Reg, traits: Key -> Traits, k: Key)
    requires WellKeyed(r)
    ensures k in KeptKeys(r, traits) <==>
              k in r.nodes && !traits(k).textOrComment &&
              (|| r.nodes[k].target.Some?
               || (&& traits(k).meaningful && !traits(k).hidden
                   && !(r.nodes[k].ax.Some? && r.nodes[k].ax.value.ignored)
                   && forall m :: m in r.nodes ==> r.nodes[m].semanticSource != Some(k)))
  {
    hide Distinct;
    if k in r.nodes {
      assert k in AliasedSources(r) <==> exists m :: m in r.nodes && r.nodes[m].semanticSource == Some(k);
    }
  }

  // ------------------------------------------------------------------ the forest

  datatype Stats = Stats(canonical: nat, semantic: nat, actionable: nat, semanticOnly: int, collapsed: nat)

  /** The output: root keys and, for every kept key, its child list, all in document order. */
  datatype Forest = Forest(roots: seq<Key>, children: map<Key, seq<Key>>)

  /**
    Where u hangs in the forest: under its nearest kept ancestor, or at the top
    (None) when it has none or is its own.
   */
  ghost predicate HangsAt(nodes: map<Key, CanonicalNode>, kept: set<Key>, u: Key, place: Option<Key>) {
    match place
    case Some(p) => p != u && IsNearest(nodes, kept, u, Some(p))
    case None => IsNearest(nodes, kept, u, None) || IsNearest(nodes, kept, u, Some(u))
  }

  /** The kept keys hanging at a place, in registry order. */
  ghost function Hanging(nodes: map<Key, CanonicalNode>, kept: set<Key>, order: seq<Key>, place: Option<Key>): seq<Key> {
    if order == [] then []
    else
      var rest := Hanging(nodes, kept, order[..|order| - 1], place);
      var last := order[|order| - 1];
      if last in kept && HangsAt(nodes, kept, last, place) then rest + [last] else rest
  }

  lemma {:induction false} HangingMembers(nodes: map<Key, CanonicalNode>, kept: set<Key>, order: seq<Key>, place: Option<Key>, u: Key)
    ensures u in Hanging(nodes, kept, order, place) <==> u in order && u in kept && HangsAt(nodes, kept, u, place)
  {
    if order != [] {
      HangingMembers(nodes, kept, order[..|order| - 1], place, u);
      assert order == order[..|order| - 1] + [order[|order| - 1]];
    }
  }

  /** What hangs at a place is in registry order. */
  lemma {:induction false} HangingInOrder(nodes: map<Key, CanonicalNode>, kept: set<Key>, order: seq<Key>, place: Option<Key>, i: nat, j: nat)
    returns (p: nat, q: nat)
    requires i <= j < |Hanging(nodes, kept, order, place)|
    ensures p <= q < |order| && (i < j ==> p < q)
    ensures order[p] == Hanging(nodes, kept, order, place)[i] && order[q] == Hanging(nodes, kept, order, place)[j]
  {
    var front := order[..|order| - 1];
    if j < |Hanging(nodes, kept, front, place)| {
      p, q := HangingInOrder(nodes, kept, front, place, i, j);
    } else {
      q := |order| - 1;
      p := q;
      if i < j {
        var r;
        p, r := HangingInOrder(nodes, kept, front, place, i, i);
      }
    }
  }

  lemma {:induction false} HangingOnce(nodes: map<Key, CanonicalNode>, kept: set<Key>, order: seq<Key>, place: Option<Key>)
    requires Distinct(order)
    ensures Distinct(Hanging(nodes, kept, order, place))
  {
    if order != [] {
      var rest := Hanging(nodes, kept, order[..|order| - 1], place);
      assert (rest + [order[|order| - 1]])[..|rest|] == rest;
      HangingOnce(nodes, kept, order[..|order| - 1], place);
      HangingMembers(nodes, kept, order[..|order| - 1], place, order[|order| - 1]);
    }
  }

  /** The whole specification of the attachment loop. */
  ghost predicate IsContraction(f: Forest, r: Reg, kept: set<Key>) {
    && f.children.Keys == kept
    && f.roots == Hanging(r.nodes, kept, r.order, None)
    && forall p :: p in kept ==> f.children[p] == Hanging(r.nodes, kept, r.order, Some(p))
  }

  lemma RootsAndChildren(f: Forest, r: Reg, kept: set<Key>, u: Key)
    requires WellKeyed(r) && kept <= r.nodes.Keys && IsContraction(f, r, kept)
    ensures u in f.roots <==> u in kept && HangsAt(r.nodes, kept, u, None)
    ensures forall p :: p in kept ==> (u in f.children[p] <==> u in kept && HangsAt(r.nodes, kept, u, Some(p)))
  {
    HangingMembers(r.nodes, kept, r.order, None, u);
    forall p | p in kept
      ensures u in f.children[p] <==> u in kept && HangsAt(r.nodes, kept, u, Some(p))
    {
      HangingMembers(r.nodes, kept, r.order, Some(p), u);
    }
  }

  /** Occurrences of u in a list. */
  ghost function Count(s: seq<Key>, u: Key): nat { multiset(s)[u] }

  lemma {:induction false} OnceInDistinct(s: seq<Key>, u: Key)
    requires Distinct(s)
    ensures Count(s, u) == if u in s then 1 else 0
  {
    if s != [] {
      OnceInDistinct(s[..|s| - 1], u);
      assert s == s[..|s| - 1] + [s[|s| - 1]];
    }
  }

  lemma {:induction false} DistinctPrefix(s: seq<Key>, i: nat)
    requires Distinct(s) && i < |s|
    ensures s[i] !in s[..i]
  {
    if i < |s| - 1 {
      DistinctPrefix(s[..|s| - 1], i);
      assert s[..|s| - 1][..i] == s[..i];
    }
  }

  ghost function CountAt(f: Forest, place: Option<Key>, u: Key): nat
    requires place.Some? ==> place.value in f.children
  {
    if place.Some? then Count(f.children[place.value], u) else Count(f.roots, u)
  }

  lemma CountIsPlacement(f: Forest, r: Reg, kept: set<Key>, u: Key, place: Option<Key>, p: Option<Key>)
    requires WellKeyed(r) && kept <= r.nodes.Keys && IsContraction(f, r, kept) && u in kept
    requires HangsAt(r.nodes, kept, u, place)
    requires p.Some? ==> p.value in kept
    ensures CountAt(f, p, u) == if p == place then 1 else 0
  {
    HangingMembers(r.nodes, kept, r.order, p, u);
    HangingOnce(r.nodes, kept, r.order, p);
    OnceInDistinct(Hanging(r.nodes, kept, r.order, p), u);
    if HangsAt(r.nodes, kept, u, p) {
      HangsOnce(r.nodes, kept, u, place, p);
    }
  }

  /** On any link graph a kept node is attached exactly once: at the top or in one child list. */
  lemma AttachedExactlyOnce(f: Forest, r: Reg, kept: set<Key>, u: Key) returns (place: Option<Key>)
    requires WellKeyed(r) && kept <= r.nodes.Keys && IsContraction(f, r, kept) && u in kept
    ensures place.Some? ==> place.value in kept && place.value != u
    ensures CountAt(f, place, u) == 1
    ensures forall p: Option<Key> :: (p.Some? ==> p.value in kept) && p != place ==> CountAt(f, p, u) == 0
  {
    place := HasPlace(r.nodes, kept, u);
    CountIsPlacement(f, r, kept, u, place, place);
    forall p: Option<Key> | (p.Some? ==> p.value in kept) && p != place
      ensures CountAt(f, p, u) == 0
    {
      CountIsPlacement(f, r, kept, u, place, p);
    }
  }

  lemma HasNearest(nodes: map<Key, CanonicalNode>, kept: set<Key>, u: Key) returns (r: Option<Key>)
    ensures IsNearest(nodes, kept, u, r)
    ensures r.Some? ==> r.value in kept
  {
    if n: nat :| n >= 1 && Up(nodes, u, n).Some? && Up(nodes, u, n).value in kept {
      var j := KeptAncestorHasFirst(nodes, kept, u, n);
      r := Up(nodes, u, j);
    } else {
      r := None;
    }
  }

  lemma HasPlace(nodes: map<Key, CanonicalNode>, kept: set<Key>, u: Key) returns (place: Option<Key>)
    ensures HangsAt(nodes, kept, u, place)
    ensures place.Some? ==> place.value in kept
  {
    place := HasNearest(nodes, kept, u);
    if place == Some(u) {
      place := None;
    }
  }

  lemma HangsOnce(nodes: map<Key, CanonicalNode>, kept: set<Key>, u: Key, p: Option<Key>, q: Option<Key>)
    requires HangsAt(nodes, kept, u, p) && HangsAt(nodes, kept, u, q)
    ensures p == q
  {
    var n := HasNearest(nodes, kept, u);
    forall x | IsNearest(nodes, kept, u, x)
      ensures x == n
    {
      NearestIsUnique(nodes, kept, u, x, n);
    }
  }

  lemma Listed(r: Reg, i: nat)
    requires WellKeyed(r) && i < |r.order|
    ensures r.order[i] in r.nodes && r.order[i] !in r.order[..i]
  {
    assert r.order[i] in r.order;
    DistinctPrefix(r.order, i);
  }

  lemma JudgedNone(r: Reg, traits: Key -> Traits, verdict: Verdict)
    ensures Judged(r, [], traits, verdict) == {}
  {
  }

  lemma JudgedOneMore(r: Reg, keys: seq<Key>, k: Key, traits: Key -> Traits, verdict: Verdict)
    requires k in r.nodes && k !in keys
    ensures var more := if Classify(r.nodes[k], traits(k), AliasedSources(r)) == verdict then {k} else {};
            && Judged(r, keys + [k], traits, verdict) == Judged(r, keys, traits, verdict) + more
            && Judged(r, keys, traits, verdict) !! more
  {
    hide Classify, AliasedSources;
  }

  lemma JudgedGrows(r: Reg, i: nat, traits: Key -> Traits, verdict: Verdict)
    requires WellKeyed(r) && i < |r.order|
    ensures r.order[i] in r.nodes
    ensures var before, after := Judged(r, r.order[..i], traits, verdict), Judged(r, r.order[..i + 1], traits, verdict);
            if Classify(r.nodes[r.order[i]], traits(r.order[i]), AliasedSources(r)) == verdict
            then after == before + {r.order[i]} && |after| == |before| + 1
            else after == before
  {
    hide WellKeyed, Judged, Classify, AliasedSources;
    Listed(r, i);
    JudgedOneMore(r, r.order[..i], r.order[i], traits, verdict);
    assert r.order[..i + 1] == r.order[..i] + [r.order[i]];
  }

  method ClassifyAll(r: Reg, traits: Key -> Traits) returns (kept: set<Key>, collapsed: nat)
    requires WellKeyed(r)
    ensures kept == KeptKeys(r, traits)
    ensures collapsed == |Judged(r, r.order, traits, Collapsed)|
  {
    hide WellKeyed, Judged, Classify, AliasedSources;
    var aliased := AliasedSources(r);
    kept, collapsed := {}, 0;
    JudgedNone(r, traits, Kept);
    JudgedNone(r, traits, Collapsed);
    assert r.order[..0] == [];
    for i := 0 to |r.order|
      invariant kept == Judged(r, r.order[..i], traits, Kept)
      invariant collapsed == |Judged(r, r.order[..i], traits, Collapsed)|
    {
      var k := r.order[i];
      JudgedGrows(r, i, traits, Kept);
      JudgedGrows(r, i, traits, Collapsed);
      var verdict := Classify(r.nodes[k], traits(k), aliased);
      if verdict == Kept {
        kept := kept + {k};
      } else if verdict == Collapsed {
        collapsed := collapsed + 1;
      }
    }
    assert r.order[..|r.order|] == r.order;
  }

  lemma HangingGrows(nodes: map<Key, CanonicalNode>, kept: set<Key>, order: seq<Key>, i: nat, place: Option<Key>, p: Option<Key>)
    requires i < |order|
    requires order[i] in kept ==> HangsAt(nodes, kept, order[i], place)
    ensures Hanging(nodes, kept, order[..i + 1], p)
         == Hanging(nodes, kept, order[..i], p) + if order[i] in kept && p == place then [order[i]] else []
  {
    assert order[..i + 1][..i] == order[..i];
    if order[i] in kept && HangsAt(nodes, kept, order[i], p) {
      HangsOnce(nodes, kept, order[i], p, place);
    }
  }

  method PlaceOf(nodes: map<Key, CanonicalNode>, kept: set<Key>, k: Key) returns (place: Option<Key>)
    requires k in nodes
    ensures HangsAt(nodes, kept, k, place)
    ensures place.Some? ==> place.value in kept
  {
    var parent := NearestSemanticParent(nodes, kept, k);
    if parent.Some? {
      NearestKept(nodes, kept, k, parent);
    }
    place := if parent.Some? && parent.value != k then parent else None;
  }

  method Attach(r: Reg, kept: set<Key>) returns (f: Forest)
    requires WellKeyed(r)
    ensures IsContraction(f, r, kept)
  {
    hide WellKeyed, Hanging, HangsAt;
    var roots: seq<Key>, children: map<Key, seq<Key>> := [], map k | k in kept :: [];
    assert r.order[..0] == [];
    NothingHangs(r.nodes, kept);
    for i := 0 to |r.order|
      invariant children.Keys == kept
      invariant roots == Hanging(r.nodes, kept, r.order[..i], None)
      invariant forall p :: p in kept ==> children[p] == Hanging(r.nodes, kept, r.order[..i], Some(p))
    {
      var k := r.order[i];
      Listed(r, i);
      var place := None;
      if k in kept {
        place := PlaceOf(r.nodes, kept, k);
        if place.Some? {
          children := children[place.value := children[place.value] + [k]];
        } else {
          roots := roots + [k];
        }
      }
      HangingGrows(r.nodes, kept, r.order, i, place, None);
      forall p | p in kept
        ensures children[p] == Hanging(r.nodes, kept, r.order[..i + 1], Some(p))
      {
        HangingGrows(r.nodes, kept, r.order, i, place, Some(p));
      }
    }
    assert r.order[..|r.order|] == r.order;
    f := Forest(roots, children);
  }

  lemma NothingHangs(nodes: map<Key, CanonicalNode>, kept: set<Key>)
    ensures forall p :: Hanging(nodes, kept, [], p) == []
  {
  }

  /**
    Builds the forest. A node with a target that is neither text nor a comment is
    always kept, so the actionable count is the number of such nodes.
   */
  method BuildSemanticPageTree(r: Reg, traits: Key -> Traits) returns (f: Forest, stats: Stats)
    requires WellKeyed(r)
    ensures IsContraction(f, r, KeptKeys(r, traits))
    ensures stats.canonical == |r.order| && stats.semantic == |f.children.Keys|
    ensures stats.actionable == |set k | k in r.nodes && r.nodes[k].target.Some? && !traits(k).textOrComment|
    ensures stats.semanticOnly == stats.semantic - stats.actionable >= 0
    ensures stats.collapsed == |Judged(r, r.order, traits, Collapsed)|
  {
    var kept, collapsed := ClassifyAll(r, traits);
    f := Attach(r, kept);
    var actionable := set k | k in kept && r.nodes[k].target.Some?;
    TargetsAreKept(r, traits);
    SubsetSize(actionable, kept);
    stats := Stats(|r.order|, |kept|, |actionable|, |kept| - |actionable|, collapsed);
  }

  lemma NearestKept(nodes: map<Key, CanonicalNode>, kept: set<Key>, u: Key, p: Option<Key>)
    requires p.Some? && IsNearest(nodes, kept, u, p)
    ensures p.value in kept && Ancestor(nodes, p.value, u)
  {
  }

  lemma HangsOnlyThere(nodes: map<Key, CanonicalNode>, kept: set<Key>, u: Key, place: Option<Key>)
    requires HangsAt(nodes, kept, u, place)
    ensures forall p :: HangsAt(nodes, kept, u, p) ==> p == place
  {
    forall p | HangsAt(nodes, kept, u, p)
      ensures p == place
    {
      HangsOnce(nodes, kept, u, p, place);
    }
  }

  lemma TargetsAreKept(r: Reg, traits: Key -> Traits)
    requires WellKeyed(r)
    ensures (set k | k in KeptKeys(r, traits) && r.nodes[k].target.Some?)
         == set k | k in r.nodes && r.nodes[k].target.Some? && !traits(k).textOrComment
  {
    forall k | k in r.nodes && r.nodes[k].target.Some?
      ensures k in KeptKeys(r, traits) <==> !traits(k).textOrComment
    {
      assert k in r.order;
    }
  }

  lemma SubsetSize<T>(a: set<T>, b: set<T>)
    requires a <= b
    ensures |a| <= |b|
  {
    assert b == a + (b - a);
  }

  // ------------------------------------------------------------------ theorems

  /** a is m child-list steps above u. */
  ghost predicate Descends(f: Forest, a: Key, u: Key, m: nat)
    decreases m
  {
    if m == 0 then a == u
    else exists p :: p in f.children && u in f.children[p] && Descends(f, a, p, m - 1)
  }

  ghost predicate ForestAncestor(f: Forest, a: Key, u: Key) {
    exists m: nat :: m >= 1 && Descends(f, a, u, m)
  }

  ghost predicate Reached(f: Forest, u: Key) {
    exists r, m: nat :: r in f.roots && Descends(f, r, u, m)
  }

  lemma {:induction false} DescendsIsAncestor(f: Forest, r: Reg, kept: set<Key>, a: Key, u: Key, m: nat)
    requires WellKeyed(r) && kept <= r.nodes.Keys && IsContraction(f, r, kept)
    requires m >= 1 && Descends(f, a, u, m)
    ensures Ancestor(r.nodes, a, u)
    decreases m
  {
    var p :| p in f.children && u in f.children[p] && Descends(f, a, p, m - 1);
    RootsAndChildren(f, r, kept, u);
    NearestKept(r.nodes, kept, u, Some(p));
    if m > 1 {
      DescendsIsAncestor(f, r, kept, a, p, m - 1);
      AncestorTransitive(r.nodes, a, p, u);
    }
  }

  /** The way up to a kept ancestor goes through the nearest one. */
  lemma NearestOnTheWay(nodes: map<Key, CanonicalNode>, kept: set<Key>, a: Key, u: Key, n: nat) returns (p: Key, j: nat)
    requires a in kept && n >= 1 && Up(nodes, u, n) == Some(a)
    ensures 1 <= j <= n && p in kept && IsNearest(nodes, kept, u, Some(p))
    ensures Up(nodes, u, j) == Some(p) && Up(nodes, p, n - j) == Some(a)
  {
    j := KeptAncestorHasFirst(nodes, kept, u, n);
    p := Up(nodes, u, j).value;
    UpCompose(nodes, u, j, n - j);
  }

  ghost predicate HasEdges(f: Forest, nodes: map<Key, CanonicalNode>, kept: set<Key>) {
    forall u, p :: u in kept && p in kept && p != u && IsNearest(nodes, kept, u, Some(p)) ==> p in f.children && u in f.children[p]
  }

  lemma EdgeOnTheWay(f: Forest, nodes: map<Key, CanonicalNode>, kept: set<Key>, a: Key, u: Key, n: nat) returns (p: Key, j: nat)
    requires HasEdges(f, nodes, kept)
    requires a in kept && u in kept && n >= 1 && Up(nodes, u, n) == Some(a)
    ensures 1 <= j <= n && p in kept && Up(nodes, p, n - j) == Some(a)
    ensures j == n ==> p == a
    ensures p != u ==> p in f.children && u in f.children[p]
  {
    p, j := NearestOnTheWay(nodes, kept, a, u, n);
  }

  lemma {:induction false} AncestorDescends(f: Forest, nodes: map<Key, CanonicalNode>, kept: set<Key>, a: Key, u: Key, n: nat) returns (m: nat)
    requires HasEdges(f, nodes, kept)
    requires a in kept && u in kept && a != u
    requires n >= 1 && Up(nodes, u, n) == Some(a)
    ensures m >= 1 && Descends(f, a, u, m)
    decreases n
  {
    var p, j := EdgeOnTheWay(f, nodes, kept, a, u, n);
    if p == u {
      m := AncestorDescends(f, nodes, kept, a, u, n - j);
    } else {
      m := 0;
      if p != a {
        m := AncestorDescends(f, nodes, kept, a, p, n - j);
      }
      m := m + 1;
    }
  }

  lemma EdgesUp(f: Forest, r: Reg, kept: set<Key>)
    requires WellKeyed(r) && kept <= r.nodes.Keys && IsContraction(f, r, kept)
    ensures HasEdges(f, r.nodes, kept)
  {
    forall u, p | u in kept && p in kept && p != u && IsNearest(r.nodes, kept, u, Some(p))
      ensures p in f.children && u in f.children[p]
    {
      RootsAndChildren(f, r, kept, u);
      assert HangsAt(r.nodes, kept, u, Some(p));
    }
  }

  /** Contraction preserves and reflects ancestry between distinct kept nodes, cycles or not. */
  lemma AncestryPreserved(f: Forest, r: Reg, kept: set<Key>, a: Key, u: Key)
    requires WellKeyed(r) && kept <= r.nodes.Keys && IsContraction(f, r, kept)
    requires a in kept && u in kept && a != u
    ensures ForestAncestor(f, a, u) <==> Ancestor(r.nodes, a, u)
  {
    if ForestAncestor(f, a, u) {
      var m: nat :| m >= 1 && Descends(f, a, u, m);
      DescendsIsAncestor(f, r, kept, a, u, m);
    }
    if Ancestor(r.nodes, a, u) {
      var n: nat :| n >= 1 && Up(r.nodes, u, n) == Some(a);
      EdgesUp(f, r, kept);
      var m := AncestorDescends(f, r.nodes, kept, a, u, n);
    }
  }

  /** Two distinct kept nodes each above the other: a link cycle through both. */
  ghost predicate Entangled(nodes: map<Key, CanonicalNode>, kept: set<Key>, v: Key, w: Key) {
    v in kept && w in kept && v != w && Ancestor(nodes, v, w) && Ancestor(nodes, w, v)
  }

  /** A kept node is a root or has a kept parent above it. */
  lemma RootOrParent(f: Forest, r: Reg, kept: set<Key>, u: Key) returns (place: Option<Key>)
    requires WellKeyed(r) && kept <= r.nodes.Keys && IsContraction(f, r, kept) && u in kept
    ensures place.None? ==> u in f.roots
    ensures place.Some? ==>
      var p := place.value;
      p in kept && p != u && p in f.children && u in f.children[p] && Ancestor(r.nodes, p, u)
  {
    place := HasPlace(r.nodes, kept, u);
    RootsAndChildren(f, r, kept, u);
    if place.Some? {
      NearestKept(r.nodes, kept, u, place);
    }
  }

  lemma {:induction false} ClimbToRoot(f: Forest, r: Reg, kept: set<Key>, u: Key, below: set<Key>) returns (root: Key, m: nat)
    requires WellKeyed(r) && kept <= r.nodes.Keys && IsContraction(f, r, kept)
    requires forall v, w :: !Entangled(r.nodes, kept, v, w)
    requires u in kept && u !in below && below <= kept
    requires forall b :: b in below ==> Ancestor(r.nodes, u, b)
    ensures root in f.roots && Descends(f, root, u, m)
    decreases kept - below
  {
    hide WellKeyed, IsContraction, Entangled, Ancestor;
    var place := RootOrParent(f, r, kept, u);
    if place.None? {
      root, m := u, 0;
    } else {
      var p := place.value;
      NewAncestor(r.nodes, kept, u, p, below);
      root, m := ClimbToRoot(f, r, kept, p, below + {u});
      m := m + 1;
    }
  }

  lemma NewAncestor(nodes: map<Key, CanonicalNode>, kept: set<Key>, u: Key, p: Key, below: set<Key>)
    requires forall v, w :: !Entangled(nodes, kept, v, w)
    requires u in kept && p in kept && p != u && Ancestor(nodes, p, u)
    requires forall b :: b in below ==> Ancestor(nodes, u, b)
    ensures p !in below + {u}
    ensures forall b :: b in below + {u} ==> Ancestor(nodes, p, b)
  {
    forall b | b in below
      ensures Ancestor(nodes, p, b)
    {
      AncestorTransitive(nodes, p, u, b);
    }
    assert !Entangled(nodes, kept, p, u);
  }

  /** An entangled node's nearest kept ancestor is entangled with it. */
  lemma EntangledParent(nodes: map<Key, CanonicalNode>, kept: set<Key>, v: Key, w: Key, p: Key)
    requires Entangled(nodes, kept, v, w)
    requires p != v && IsNearest(nodes, kept, v, Some(p))
    ensures Entangled(nodes, kept, p, v)
  {
    var n: nat :| n >= 1 && Up(nodes, v, n) == Some(w);
    var q, j := NearestOnTheWay(nodes, kept, w, v, n);
    NearestIsUnique(nodes, kept, v, Some(p), Some(q));
    if p != w {
      assert Ancestor(nodes, w, p);
      AncestorTransitive(nodes, v, w, p);
    }
  }

  lemma EntangledAre(nodes: map<Key, CanonicalNode>, kept: set<Key>, v: Key, w: Key)
    requires Entangled(nodes, kept, v, w)
    ensures v in kept && w in kept && v != w && Ancestor(nodes, w, v)
  {
  }

  lemma {:induction false} EntangledIsUnreached(f: Forest, r: Reg, kept: set<Key>, v: Key, w: Key, root: Key, m: nat)
    requires WellKeyed(r) && kept <= r.nodes.Keys && IsContraction(f, r, kept)
    requires Entangled(r.nodes, kept, v, w)
    requires root in f.roots
    ensures !Descends(f, root, v, m)
    decreases m
  {
    hide WellKeyed, Entangled, Ancestor, Hanging, IsNearest;
    EntangledAre(r.nodes, kept, v, w);
    RootsAndChildren(f, r, kept, v);
    var d := AncestorDescendsAny(f, r, kept, w, v);
    var p :| p in f.children && v in f.children[p];
    HangsOnlyThere(r.nodes, kept, v, Some(p));
    EntangledParent(r.nodes, kept, v, w, p);
    if m > 0 && Descends(f, root, v, m) {
      EntangledIsUnreached(f, r, kept, p, v, root, m - 1);
      assert false;
    }
  }

  lemma AncestorDescendsAny(f: Forest, r: Reg, kept: set<Key>, a: Key, u: Key) returns (m: nat)
    requires WellKeyed(r) && kept <= r.nodes.Keys && IsContraction(f, r, kept)
    requires a in kept && u in kept && a != u && Ancestor(r.nodes, a, u)
    ensures m >= 1 && Descends(f, a, u, m)
  {
    var n: nat :| n >= 1 && Up(r.nodes, u, n) == Some(a);
    EdgesUp(f, r, kept);
    m := AncestorDescends(f, r.nodes, kept, a, u, n);
  }

  /** Exactly when the forest loses nobody: no link cycle runs through two distinct kept nodes. */
  lemma EveryKeptNodeReached(f: Forest, r: Reg, kept: set<Key>)
    requires WellKeyed(r) && kept <= r.nodes.Keys && IsContraction(f, r, kept)
    ensures (forall u :: u in kept ==> Reached(f, u)) <==> (forall v, w :: !Entangled(r.nodes, kept, v, w))
  {
    if forall v, w :: !Entangled(r.nodes, kept, v, w) {
      forall u | u in kept
        ensures Reached(f, u)
      {
        var root, m := ClimbToRoot(f, r, kept, u, {});
      }
    }
    if forall u :: u in kept ==> Reached(f, u) {
      forall v, w
        ensures !Entangled(r.nodes, kept, v, w)
      {
        if Entangled(r.nodes, kept, v, w) {
          var root, m: nat :| root in f.roots && Descends(f, root, v, m);
          EntangledIsUnreached(f, r, kept, v, w, root, m);
          assert false;
        }
      }
    }
  }

  /** With acyclic links the output is a forest that reaches every kept node. */
  lemma AcyclicLinksGiveForest(f: Forest, r: Reg, kept: set<Key>)
    requires WellKeyed(r) && kept <= r.nodes.Keys && IsContraction(f, r, kept)
    requires Acyclic(r.nodes)
    ensures forall u :: u in kept ==> Reached(f, u) && !ForestAncestor(f, u, u)
  {
    forall v, w
      ensures !Entangled(r.nodes, kept, v, w)
    {
      if Entangled(r.nodes, kept, v, w) {
        AncestorTransitive(r.nodes, v, w, v);
      }
    }
    EveryKeptNodeReached(f, r, kept);
    forall u | u in kept
      ensures !ForestAncestor(f, u, u)
    {
      if ForestAncestor(f, u, u) {
        var m: nat :| m >= 1 && Descends(f, u, u, m);
        DescendsIsAncestor(f, r, kept, u, u, m);
      }
    }
  }
}
