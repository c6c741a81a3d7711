/**
  Turning a base list, additions and a profile's overlay into the list of extensions
  to load (packages/agent-runtime/src/resolve.ts), and loading it
  (packages/agent-runtime/src/registry.ts).
 */
module OverlayResolution {
  import opened Wrappers

  /** An extension object: its id, and which object it is. */
  datatype Extension = Extension(id: string, object: nat)

  datatype Replacement = Replacement(target: string, source: string)

  /** Lists in the order written; an overlay's absent lists are empty ones. */
  datatype Overlay = Overlay(disable: seq<string>, enable: seq<string>, replace: seq<Replacement>)

  datatype Conflict =
    | DuplicateInPool(id: string)
    | DisablesUnknown(id: string)
    | EnablesAndDisables(id: string)
    | EnablesUnknown(id: string)
    | ReplacesMissing(id: string)
    | SourceMissing(id: string)
    | DuplicateInResult(id: string)

  // ------------------------------------------------------------------------ lists

  predicate Holds(list: seq<Extension>, id: string) {
    exists i :: 0 <= i < |list| && list[i].id == id
  }

  predicate DistinctIds(list: seq<Extension>) {
    forall i, j :: 0 <= i < j < |list| ==> list[i].id != list[j].id
  }

  /** The first id that an earlier extension already has. */
  function Repeated(list: seq<Extension>): (r: Option<string>)
    ensures r.None? <==> DistinctIds(list)
    ensures r.Some? ==> exists i :: 0 <= i < |list| && RepeatsFirst(list, i) && list[i].id == r.value
  {
    if list == [] then None
    else
      var front, last := list[..|list| - 1], list[|list| - 1];
      match Repeated(front)
      case Some(id) =>
        assert forall i :: 0 <= i < |front| && RepeatsFirst(front, i) ==> list[..i] == front[..i] && RepeatsFirst(list, i);
        Some(id)
      case None =>
        assert list[..|list| - 1] == front;
        if Holds(front, last.id) then assert RepeatsFirst(list, |list| - 1); Some(last.id) else None
  }

  /** The i-th extension is the first whose id an earlier one already has. */
  predicate RepeatsFirst(list: seq<Extension>, i: nat)
    requires i < |list|
  {
    Holds(list[..i], list[i].id) && DistinctIds(list[..i])
  }

  /** The extensions whose id is in (or not in) a set, in order. */
  function Keep(list: seq<Extension>, ids: set<string>, inside: bool): seq<Extension> {
    if list == [] then []
    else Keep(list[..|list| - 1], ids, inside) + if (list[|list| - 1].id in ids) == inside then [list[|list| - 1]] else []
  }

  lemma {:induction false} KeepKeeps(list: seq<Extension>, ids: set<string>, inside: bool)
    ensures forall e :: e in Keep(list, ids, inside) <==> e in list && (e.id in ids) == inside
  {
    if list != [] {
      KeepKeeps(list[..|list| - 1], ids, inside);
      assert list == list[..|list| - 1] + [list[|list| - 1]];
    }
  }

  function Pool(list: seq<Extension>): map<string, Extension> {
    if list == [] then map[] else Pool(list[..|list| - 1])[list[|list| - 1].id := list[|list| - 1]]
  }

  lemma HoldsMore(list: seq<Extension>, e: Extension)
    ensures forall id :: Holds(list + [e], id) <==> Holds(list, id) || id == e.id
  {
    var more := list + [e];
    assert more[|list|] == e;
    assert forall i :: 0 <= i < |list| ==> more[i] == list[i];
  }

  /** In a pool of distinct ids every extension is found under its own id. */
  lemma {:induction false} PoolFinds(list: seq<Extension>)
    requires DistinctIds(list)
    ensures forall id :: id in Pool(list) <==> Holds(list, id)
    ensures forall i :: 0 <= i < |list| ==> list[i].id in Pool(list) && Pool(list)[list[i].id] == list[i]
    ensures forall id :: id in Pool(list) ==> Pool(list)[id].id == id
  {
    if list != [] {
      var front, last := list[..|list| - 1], list[|list| - 1];
      PoolFinds(front);
      HoldsMore(front, last);
      assert list == front + [last];
    }
  }

  // ---------------------------------------------------------------- the specification

  /** What is loaded before replacements: base without the disabled, then the enabled additions. */
  function Selected(base: seq<Extension>, additions: seq<Extension>, o: Overlay): seq<Extension> {
    Keep(base, Ids(o.disable), false) + Keep(additions, Ids(o.enable), true)
  }

  function Ids(ids: seq<string>): set<string> {
    set id | id in ids
  }

  /** The source named for a target, if any. */
  function SourceOf(replace: seq<Replacement>, target: string): Option<string> {
    if replace == [] then None
    else if replace[|replace| - 1].target == target then Some(replace[|replace| - 1].source)
    else SourceOf(replace[..|replace| - 1], target)
  }

  function Substitute(e: Extension, pool: map<string, Extension>, replace: seq<Replacement>): Extension {
    match SourceOf(replace, e.id)
    case Some(source) => if source in pool then pool[source] else e
    case None => e
  }

  /** All replacements at once: each place is decided by what was there before. */
  function Replaced(list: seq<Extension>, pool: map<string, Extension>, replace: seq<Replacement>): (r: seq<Extension>)
    ensures |r| == |list| && forall i :: 0 <= i < |list| ==> r[i] == Substitute(list[i], pool, replace)
  {
    seq(|list|, i requires 0 <= i < |list| => Substitute(list[i], pool, replace))
  }

  function Resolved(base: seq<Extension>, additions: seq<Extension>, o: Overlay): seq<Extension> {
    Replaced(Selected(base, additions, o), Pool(base + additions), o.replace)
  }

  function DisableConflict(disable: seq<string>, base: seq<Extension>): Option<Conflict> {
    if disable == [] then None
    else
      match DisableConflict(disable[..|disable| - 1], base)
      case Some(c) => Some(c)
      case None => if Holds(base, disable[|disable| - 1]) then None else Some(DisablesUnknown(disable[|disable| - 1]))
  }

  function EnableConflict(enable: seq<string>, disable: seq<string>, additions: seq<Extension>): Option<Conflict> {
    if enable == [] then None
    else
      var id := enable[|enable| - 1];
      match EnableConflict(enable[..|enable| - 1], disable, additions)
      case Some(c) => Some(c)
      case None =>
        if id in disable then Some(EnablesAndDisables(id))
        else if !Holds(additions, id) then Some(EnablesUnknown(id))
        else None
  }

  function ReplaceConflict(replace: seq<Replacement>, list: seq<Extension>, pool: map<string, Extension>): Option<Conflict> {
    if replace == [] then None
    else
      var r := replace[|replace| - 1];
      match ReplaceConflict(replace[..|replace| - 1], list, pool)
      case Some(c) => Some(c)
      case None =>
        if !Holds(list, r.target) then Some(ReplacesMissing(r.target))
        else if r.source !in pool then Some(SourceMissing(r.source))
        else None
  }

  /** The first conflict, in the order the checks are made. */
  function FirstConflict(base: seq<Extension>, additions: seq<Extension>, o: Option<Overlay>): Option<Conflict> {
    var pooled := Repeated(base + additions);
    if pooled.Some? then Some(DuplicateInPool(pooled.value))
    else if o.None? then None
    else
      var selected, pool := Selected(base, additions, o.value), Pool(base + additions);
      var final := Repeated(Resolved(base, additions, o.value));
      DisableConflict(o.value.disable, base)
      .OrElse(EnableConflict(o.value.enable, o.value.disable, additions))
      .OrElse(ReplaceConflict(o.value.replace, selected, pool))
      .OrElse(if final.Some? then Some(DuplicateInResult(final.value)) else None)
  }

  /** What an overlay may ask for. */
  ghost predicate Acceptable(base: seq<Extension>, additions: seq<Extension>, o: Overlay) {
    && (forall id :: id in o.disable ==> Holds(base, id))
    && (forall id :: id in o.enable ==> id !in o.disable && Holds(additions, id))
    && (forall r :: r in o.replace ==> Holds(Selected(base, additions, o), r.target) && Holds(base + additions, r.source))
    && DistinctIds(Resolved(base, additions, o))
  }

  lemma {:induction false} DisableConflictExact(disable: seq<string>, base: seq<Extension>)
    ensures DisableConflict(disable, base).None? <==> forall id :: id in disable ==> Holds(base, id)
  {
    hide Holds;
    if disable != [] {
      DisableConflictExact(disable[..|disable| - 1], base);
      assert disable == disable[..|disable| - 1] + [disable[|disable| - 1]];
    }
  }

  lemma {:induction false} EnableConflictExact(enable: seq<string>, disable: seq<string>, additions: seq<Extension>)
    ensures EnableConflict(enable, disable, additions).None? <==>
              forall id :: id in enable ==> id !in disable && Holds(additions, id)
  {
    hide Holds;
    if enable != [] {
      EnableConflictExact(enable[..|enable| - 1], disable, additions);
      assert enable == enable[..|enable| - 1] + [enable[|enable| - 1]];
    }
  }

  lemma {:induction false} ReplaceConflictExact(replace: seq<Replacement>, list: seq<Extension>, pool: map<string, Extension>)
    ensures ReplaceConflict(replace, list, pool).None? <==>
              forall r :: r in replace ==> Holds(list, r.target) && r.source in pool
  {
    hide Holds;
    if replace != [] {
      var front, last := replace[..|replace| - 1], replace[|replace| - 1];
      ReplaceConflictExact(front, list, pool);
      assert forall r :: r in replace <==> r in front || r == last by {
        assert replace == front + [last];
      }
    }
  }

  /** The i-th enabled id is also disabled, or no addition has it. */
  predicate BadlyEnabled(o: Overlay, additions: seq<Extension>, i: nat)
    requires i < |o.enable|
  {
    o.enable[i] in o.disable || !Holds(additions, o.enable[i])
  }

  lemma {:induction false} DisableConflictFirst(disable: seq<string>, base: seq<Extension>)
    ensures match DisableConflict(disable, base)
            case None => forall i :: 0 <= i < |disable| ==> Holds(base, disable[i])
            case Some(c) =>
              exists i :: 0 <= i < |disable| && c == DisablesUnknown(disable[i]) && !Holds(base, disable[i])
                       && forall k :: 0 <= k < i ==> Holds(base, disable[k])
  {
    hide Holds;
    if disable != [] {
      DisableConflictFirst(disable[..|disable| - 1], base);
    }
  }

  lemma {:induction false} EnableConflictFirst(enable: seq<string>, disable: seq<string>, additions: seq<Extension>)
    ensures match EnableConflict(enable, disable, additions)
            case None => forall i :: 0 <= i < |enable| ==> enable[i] !in disable && Holds(additions, enable[i])
            case Some(c) =>
              exists i :: 0 <= i < |enable|
                       && (if enable[i] in disable then c == EnablesAndDisables(enable[i])
                           else !Holds(additions, enable[i]) && c == EnablesUnknown(enable[i]))
                       && forall k :: 0 <= k < i ==> enable[k] !in disable && Holds(additions, enable[k])
  {
    hide Holds;
    if enable != [] {
      EnableConflictFirst(enable[..|enable| - 1], disable, additions);
    }
  }

  lemma {:induction false} ReplaceConflictFirst(replace: seq<Replacement>, list: seq<Extension>, pool: map<string, Extension>)
    ensures match ReplaceConflict(replace, list, pool)
            case None => forall i :: 0 <= i < |replace| ==> Holds(list, replace[i].target) && replace[i].source in pool
            case Some(c) =>
              exists i :: 0 <= i < |replace|
                       && (if !Holds(list, replace[i].target) then c == ReplacesMissing(replace[i].target)
                           else replace[i].source !in pool && c == SourceMissing(replace[i].source))
                       && forall k :: 0 <= k < i ==> Holds(list, replace[k].target) && replace[k].source in pool
  {
    hide Holds;
    if replace != [] {
      ReplaceConflictFirst(replace[..|replace| - 1], list, pool);
    }
  }

  /**
    Which conflict is reported: of the kinds in the order pool, disable, enable, replace,
    result, the first there is; and of its kind the first in the order written.
   */
  lemma ConflictExactly(base: seq<Extension>, additions: seq<Extension>, o: Overlay)
    ensures var all, s := base + additions, Selected(base, additions, o);
            match FirstConflict(base, additions, Some(o))
            case Some(DuplicateInPool(id)) => exists i :: 0 <= i < |all| && RepeatsFirst(all, i) && all[i].id == id
            case Some(DisablesUnknown(id)) =>
              DistinctIds(all) && exists i :: 0 <= i < |o.disable| && id == o.disable[i] && !Holds(base, id) && forall k :: 0 <= k < i ==> Holds(base, o.disable[k])
            case Some(EnablesAndDisables(id)) =>
              && DistinctIds(all) && (forall d :: d in o.disable ==> Holds(base, d))
              && exists i :: 0 <= i < |o.enable| && id == o.enable[i] && id in o.disable && forall k :: 0 <= k < i ==> !BadlyEnabled(o, additions, k)
            case Some(EnablesUnknown(id)) =>
              && DistinctIds(all) && (forall d :: d in o.disable ==> Holds(base, d))
              && exists i :: 0 <= i < |o.enable| && id == o.enable[i] && id !in o.disable && !Holds(additions, id)
                          && forall k :: 0 <= k < i ==> !BadlyEnabled(o, additions, k)
            case Some(ReplacesMissing(id)) =>
              && DistinctIds(all) && (forall d :: d in o.disable ==> Holds(base, d)) && (forall k :: 0 <= k < |o.enable| ==> !BadlyEnabled(o, additions, k))
              && !Holds(s, id) && exists i :: 0 <= i < |o.replace| && o.replace[i].target == id
            case Some(SourceMissing(id)) =>
              && DistinctIds(all) && (forall d :: d in o.disable ==> Holds(base, d)) && (forall k :: 0 <= k < |o.enable| ==> !BadlyEnabled(o, additions, k))
              && !Holds(all, id) && exists i :: 0 <= i < |o.replace| && o.replace[i].source == id && Holds(s, o.replace[i].target)
            case Some(DuplicateInResult(id)) =>
              && DistinctIds(all) && (forall d :: d in o.disable ==> Holds(base, d)) && (forall k :: 0 <= k < |o.enable| ==> !BadlyEnabled(o, additions, k))
              && (forall r :: r in o.replace ==> Holds(s, r.target) && Holds(all, r.source))
              && exists i :: 0 <= i < |Resolved(base, additions, o)| && RepeatsFirst(Resolved(base, additions, o), i) && Resolved(base, additions, o)[i].id == id
            case None => true
  {
    hide Holds, Selected, Resolved, RepeatsFirst, DistinctIds;
    if Repeated(base + additions).None? {
      DisableConflictFirst(o.disable, base);
      EnableConflictFirst(o.enable, o.disable, additions);
      PoolFinds(base + additions);
      ReplaceConflictFirst(o.replace, Selected(base, additions, o), Pool(base + additions));
    }
  }

  /** Resolution fails exactly on the listed conflicts. */
  lemma FailsExactlyOnConflicts(base: seq<Extension>, additions: seq<Extension>, o: Option<Overlay>)
    ensures FirstConflict(base, additions, o).None? <==>
              DistinctIds(base + additions) && (o.Some? ==> Acceptable(base, additions, o.value))
  {
    if o.Some? && DistinctIds(base + additions) {
      DisableConflictExact(o.value.disable, base);
      EnableConflictExact(o.value.enable, o.value.disable, additions);
      PoolFinds(base + additions);
      ReplaceConflictExact(o.value.replace, Selected(base, additions, o.value), Pool(base + additions));
    }
  }

  /** Keeping some of a list leaves their order. */
  lemma {:induction false} KeepInOrder(list: seq<Extension>, ids: set<string>, inside: bool, i: nat, j: nat) returns (p: nat, q: nat)
    requires i <= j < |Keep(list, ids, inside)|
    ensures p <= q < |list| && (i < j ==> p < q)
    ensures list[p] == Keep(list, ids, inside)[i] && list[q] == Keep(list, ids, inside)[j]
  {
    var front := list[..|list| - 1];
    var kept := Keep(front, ids, inside);
    if j < |kept| {
      p, q := KeepInOrder(front, ids, inside, i, j);
    } else {
      q := |list| - 1;
      if i < j {
        p, q := KeepInOrder(front, ids, inside, i, i);
        q := |list| - 1;
      } else {
        p := q;
      }
    }
  }

  /**
    What is loaded before replacements: every base extension that is not disabled and
    every addition that is enabled, nothing else, in the order of base and additions.
   */
  lemma SelectedExactly(base: seq<Extension>, additions: seq<Extension>, o: Overlay)
    ensures forall e :: e in Selected(base, additions, o) <==>
              (e in base && e.id !in o.disable) || (e in additions && e.id in o.enable)
    ensures forall i, j :: 0 <= i < j < |Selected(base, additions, o)| ==>
              Before(base + additions, Selected(base, additions, o)[i], Selected(base, additions, o)[j])
  {
    hide Keep;
    KeepKeeps(base, Ids(o.disable), false);
    KeepKeeps(additions, Ids(o.enable), true);
    var a, b := Keep(base, Ids(o.disable), false), Keep(additions, Ids(o.enable), true);
    var s, all := Selected(base, additions, o), base + additions;
    forall i, j | 0 <= i < j < |s|
      ensures Before(all, s[i], s[j])
    {
      var p, q: nat;
      if j < |a| {
        p, q := KeepInOrder(base, Ids(o.disable), false, i, j);
      } else {
        var r;
        if i < |a| {
          p, r := KeepInOrder(base, Ids(o.disable), false, i, i);
          q, r := KeepInOrder(additions, Ids(o.enable), true, j - |a|, j - |a|);
        } else {
          p, q := KeepInOrder(additions, Ids(o.enable), true, i - |a|, j - |a|);
          p := |base| + p;
        }
        q := |base| + q;
      }
      assert p < q < |all| && all[p] == s[i] && all[q] == s[j];
    }
  }

  ghost predicate Before(list: seq<Extension>, e: Extension, f: Extension) {
    exists p, q :: 0 <= p < q < |list| && list[p] == e && list[q] == f
  }

  /** Replacements are written as a record: no target twice. */
  ghost predicate DistinctTargets(replace: seq<Replacement>) {
    forall m, n :: 0 <= m < n < |replace| ==> replace[m].target != replace[n].target
  }

  lemma {:induction false} SourceOfWritten(replace: seq<Replacement>, target: string)
    requires DistinctTargets(replace)
    ensures forall source :: SourceOf(replace, target) == Some(source) <==> Replacement(target, source) in replace
  {
    if replace != [] {
      var front, last := replace[..|replace| - 1], replace[|replace| - 1];
      SourceOfWritten(front, target);
      assert replace == front + [last];
    }
  }

  /**
    Whatever else the overlay replaces, every place gets the extension written for
    what stood there before, and keeps what stood there if nothing is written.
   */
  lemma ReplacingIsSimultaneous(base: seq<Extension>, additions: seq<Extension>, o: Overlay, k: nat)
    requires DistinctIds(base + additions) && DistinctTargets(o.replace)
    requires k < |Selected(base, additions, o)|
    ensures var was, now := Selected(base, additions, o)[k], Resolved(base, additions, o)[k];
            && (forall e :: e in base + additions && Replacement(was.id, e.id) in o.replace ==> now == e)
            && ((forall r :: r in o.replace ==> r.target != was.id) ==> now == was)
  {
    var was := Selected(base, additions, o)[k];
    SourceOfWritten(o.replace, was.id);
    PoolFinds(base + additions);
    if SourceOf(o.replace, was.id).Some? {
      assert Replacement(was.id, SourceOf(o.replace, was.id).value) in o.replace;
    }
  }

  /** So two selected extensions that replace each other change places. */
  lemma SwapsWork(base: seq<Extension>, additions: seq<Extension>, o: Overlay, i: nat, j: nat)
    requires DistinctIds(base + additions) && DistinctTargets(o.replace)
    requires i < j < |Selected(base, additions, o)|
    requires var s := Selected(base, additions, o);
             Replacement(s[i].id, s[j].id) in o.replace && Replacement(s[j].id, s[i].id) in o.replace
    ensures var s := Selected(base, additions, o);
            var r := Resolved(base, additions, o);
            && r[i] == s[j] && r[j] == s[i]
            && forall k :: 0 <= k < |s| && (forall x :: x in o.replace ==> x.target != s[k].id) ==> r[k] == s[k]
  {
    var s := Selected(base, additions, o);
    SelectedFromPool(base, additions, o, s[i]);
    SelectedFromPool(base, additions, o, s[j]);
    forall k | 0 <= k < |s|
      ensures var now := Resolved(base, additions, o)[k];
              && (forall e :: e in base + additions && Replacement(s[k].id, e.id) in o.replace ==> now == e)
              && ((forall x :: x in o.replace ==> x.target != s[k].id) ==> now == s[k])
    {
      ReplacingIsSimultaneous(base, additions, o, k);
    }
  }

  lemma SelectedFromPool(base: seq<Extension>, additions: seq<Extension>, o: Overlay, e: Extension)
    requires DistinctIds(base + additions) && e in Selected(base, additions, o)
    ensures e in base + additions && e.id in Pool(base + additions) && Pool(base + additions)[e.id] == e
  {
    KeepKeeps(base, Ids(o.disable), false);
    KeepKeeps(additions, Ids(o.enable), true);
    PoolFinds(base + additions);
    assert e in base + additions;
  }

  // ------------------------------------------------------------------- the algorithm

  method BuildPool(list: seq<Extension>) returns (r: Result<map<string, Extension>, Conflict>)
    ensures r == match Repeated(list)
                 case Some(id) => Err(DuplicateInPool(id))
                 case None => Ok(Pool(list))
  {
    var pool: map<string, Extension> := map[];
    for i := 0 to |list|
      invariant Repeated(list[..i]) == None && pool == Pool(list[..i])
    {
      assert list[..i + 1][..i] == list[..i];
      PoolFinds(list[..i]);
      if list[i].id in pool {
        RepeatedStays(list, i + 1);
        return Err(DuplicateInPool(list[i].id));
      }
      pool := pool[list[i].id := list[i]];
    }
    assert list[..|list|] == list;
    return Ok(pool);
  }

  lemma {:induction false} RepeatedStays(list: seq<Extension>, n: nat)
    requires n <= |list| && Repeated(list[..n]).Some?
    ensures Repeated(list) == Repeated(list[..n])
    decreases |list|
  {
    if n < |list| {
      var front := list[..|list| - 1];
      assert front[..n] == list[..n];
      RepeatedStays(front, n);
    } else {
      assert list[..n] == list;
    }
  }

  lemma {:induction false} KeepMore(list: seq<Extension>, ids: set<string>, id: string)
    ensures Keep(Keep(list, ids, false), {id}, false) == Keep(list, ids + {id}, false)
  {
    if list != [] {
      var front, last := list[..|list| - 1], list[|list| - 1];
      KeepMore(front, ids, id);
      var kept := Keep(front, ids, false);
      assert (kept + [last])[..|kept|] == kept;
      assert kept + [] == kept;
    }
  }

  /** Step 2: drop the disabled ids one by one; each has to be in base. */
  method Disable(base: seq<Extension>, disable: seq<string>) returns (r: Result<seq<Extension>, Conflict>)
    ensures r == match DisableConflict(disable, base)
                 case Some(c) => Err(c)
                 case None => Ok(Keep(base, Ids(disable), false))
  {
    var result := base;
    KeepAll(base);
    for i := 0 to |disable|
      invariant DisableConflict(disable[..i], base) == None && result == Keep(base, Ids(disable[..i]), false)
    {
      assert disable[..i + 1][..i] == disable[..i];
      assert Ids(disable[..i + 1]) == Ids(disable[..i]) + {disable[i]};
      if !Holds(base, disable[i]) {
        DisableConflictStays(disable, i + 1, base);
        return Err(DisablesUnknown(disable[i]));
      }
      KeepMore(base, Ids(disable[..i]), disable[i]);
      result := Keep(result, {disable[i]}, false);
    }
    assert disable[..|disable|] == disable;
    return Ok(result);
  }

  lemma {:induction false} KeepAll(list: seq<Extension>)
    ensures Keep(list, Ids([]), false) == list
  {
    if list != [] {
      KeepAll(list[..|list| - 1]);
    }
  }

  lemma {:induction false} DisableConflictStays(disable: seq<string>, n: nat, base: seq<Extension>)
    requires n <= |disable| && DisableConflict(disable[..n], base).Some?
    ensures DisableConflict(disable, base) == DisableConflict(disable[..n], base)
  {
    if n < |disable| {
      assert disable[..|disable| - 1][..n] == disable[..n];
      DisableConflictStays(disable[..|disable| - 1], n, base);
    } else {
      assert disable[..n] == disable;
    }
  }

  /** Step 3: check the enabled ids, then append them in the order of additions. */
  method Enable(result: seq<Extension>, additions: seq<Extension>, enable: seq<string>, disable: seq<string>)
    returns (r: Result<seq<Extension>, Conflict>)
    ensures r == match EnableConflict(enable, disable, additions)
                 case Some(c) => Err(c)
                 case None => Ok(result + Keep(additions, Ids(enable), true))
  {
    for i := 0 to |enable|
      invariant EnableConflict(enable[..i], disable, additions) == None
    {
      assert enable[..i + 1][..i] == enable[..i];
      if enable[i] in disable {
        EnableConflictStays(enable, i + 1, disable, additions);
        return Err(EnablesAndDisables(enable[i]));
      }
      if !Holds(additions, enable[i]) {
        EnableConflictStays(enable, i + 1, disable, additions);
        return Err(EnablesUnknown(enable[i]));
      }
    }
    assert enable[..|enable|] == enable;
    var list := result;
    for i := 0 to |additions|
      invariant list == result + Keep(additions[..i], Ids(enable), true)
    {
      assert additions[..i + 1][..i] == additions[..i];
      if additions[i].id in enable {
        list := list + [additions[i]];
      }
    }
    assert additions[..|additions|] == additions;
    return Ok(list);
  }

  lemma {:induction false} EnableConflictStays(enable: seq<string>, n: nat, disable: seq<string>, additions: seq<Extension>)
    requires n <= |enable| && EnableConflict(enable[..n], disable, additions).Some?
    ensures EnableConflict(enable, disable, additions) == EnableConflict(enable[..n], disable, additions)
  {
    if n < |enable| {
      assert enable[..|enable| - 1][..n] == enable[..n];
      EnableConflictStays(enable[..|enable| - 1], n, disable, additions);
    } else {
      assert enable[..n] == enable;
    }
  }

  /** Step 4: look every replacement up in the list as it is now, then replace all at once. */
  method Replace(list: seq<Extension>, pool: map<string, Extension>, replace: seq<Replacement>)
    returns (r: Result<seq<Extension>, Conflict>)
    ensures r == match ReplaceConflict(replace, list, pool)
                 case Some(c) => Err(c)
                 case None => Ok(Replaced(list, pool, replace))
  {
    var replacements: map<string, Extension> := map[];
    for i := 0 to |replace|
      invariant ReplaceConflict(replace[..i], list, pool) == None
      invariant forall id :: id in replacements <==> SourceOf(replace[..i], id).Some?
      invariant forall id :: id in replacements ==>
                  SourceOf(replace[..i], id).value in pool && replacements[id] == pool[SourceOf(replace[..i], id).value]
    {
      assert replace[..i + 1][..i] == replace[..i];
      if !Holds(list, replace[i].target) {
        ReplaceConflictStays(replace, i + 1, list, pool);
        return Err(ReplacesMissing(replace[i].target));
      }
      if replace[i].source !in pool {
        ReplaceConflictStays(replace, i + 1, list, pool);
        return Err(SourceMissing(replace[i].source));
      }
      replacements := replacements[replace[i].target := pool[replace[i].source]];
    }
    assert replace[..|replace|] == replace;
    var result := seq(|list|, i requires 0 <= i < |list| => if list[i].id in replacements then replacements[list[i].id] else list[i]);
    assert result == Replaced(list, pool, replace);
    return Ok(result);
  }

  lemma {:induction false} ReplaceConflictStays(replace: seq<Replacement>, n: nat, list: seq<Extension>, pool: map<string, Extension>)
    requires n <= |replace| && ReplaceConflict(replace[..n], list, pool).Some?
    ensures ReplaceConflict(replace, list, pool) == ReplaceConflict(replace[..n], list, pool)
  {
    if n < |replace| {
      assert replace[..|replace| - 1][..n] == replace[..n];
      ReplaceConflictStays(replace[..|replace| - 1], n, list, pool);
    } else {
      assert replace[..n] == replace;
    }
  }

  method CheckFinal(list: seq<Extension>) returns (r: Result<seq<Extension>, Conflict>)
    ensures r == match Repeated(list)
                 case Some(id) => Err(DuplicateInResult(id))
                 case None => Ok(list)
  {
    var finalIds: set<string> := {};
    for i := 0 to |list|
      invariant Repeated(list[..i]) == None
      invariant forall id :: id in finalIds <==> Holds(list[..i], id)
    {
      assert list[..i + 1][..i] == list[..i];
      if list[i].id in finalIds {
        RepeatedStays(list, i + 1);
        return Err(DuplicateInResult(list[i].id));
      }
      HoldsMore(list[..i], list[i]);
      assert list[..i + 1] == list[..i] + [list[i]];
      finalIds := finalIds + {list[i].id};
    }
    assert list[..|list|] == list;
    return Ok(list);
  }

  /** The overlay a profile selects; the empty profile selects none. */
  function OverlayOf(overlays: map<string, Overlay>, profile: Option<string>): Option<Overlay> {
    if profile.Some? && profile.value != "" && profile.value in overlays then Some(overlays[profile.value]) else None
  }

  /**
    Either the first conflict, or: the base list when no overlay applies, else the
    simultaneous replacement of what disabling and enabling select; always without
    repeated ids.
   */
  method ResolveExtensions(base: seq<Extension>, additions: seq<Extension>, overlays: map<string, Overlay>, profile: Option<string>)
    returns (r: Result<seq<Extension>, Conflict>)
    ensures var o := OverlayOf(overlays, profile);
            match FirstConflict(base, additions, o)
            case Some(c) => r == Err(c)
            case None => r == Ok(if o.None? then base else Resolved(base, additions, o.value)) && DistinctIds(r.value)
  {
    var pooled := BuildPool(base + additions);
    if pooled.Err? {
      return Err(pooled.error);
    }
    var overlay := OverlayOf(overlays, profile);
    if overlay.None? {
      BaseIsDistinct(base, additions);
      return Ok(base);
    }
    var o := overlay.value;
    var kept := Disable(base, o.disable);
    if kept.Err? {
      return kept;
    }
    var selected := Enable(kept.value, additions, o.enable, o.disable);
    if selected.Err? {
      return selected;
    }
    var replaced := Replace(selected.value, pooled.value, o.replace);
    if replaced.Err? {
      return replaced;
    }
    r := CheckFinal(replaced.value);
  }

  lemma BaseIsDistinct(base: seq<Extension>, additions: seq<Extension>)
    requires DistinctIds(base + additions)
    ensures DistinctIds(base)
  {
    assert forall i :: 0 <= i < |base| ==> (base + additions)[i] == base[i];
  }

  // --------------------------------------------------------------------- the registry

  datatype Lifecycle = New | Initializing | Ready | Failed

  datatype InitError = WrongState(state: Lifecycle) | DuplicateId(id: string) | InitFailed(id: string)

  /** Initialization stops at the i-th extension: its id is taken, or its `init` throws; all before it went well. */
  predicate InitStops(extensions: seq<Extension>, fails: Extension -> bool, i: nat, error: InitError)
    requires i < |extensions|
  {
    && DistinctIds(extensions[..i]) && (forall k :: 0 <= k < i ==> !fails(extensions[k]))
    && if Holds(extensions[..i], extensions[i].id) then error == DuplicateId(extensions[i].id)
       else fails(extensions[i]) && error == InitFailed(extensions[i].id)
  }

  class Registry {
    var loaded: seq<Extension>
    var lifecycle: Lifecycle

    predicate Valid()
      reads this
    {
      DistinctIds(loaded) && (lifecycle == New || lifecycle == Failed ==> loaded == [])
    }

    constructor ()
      ensures Valid() && lifecycle == New
    {
      loaded, lifecycle := [], New;
    }

    /**
      Initialize the extensions in order; `fails` says which of their `init` calls throw.
      The registry is ready with all of them, or failed with none; a repeated id is
      reported only if there is one.
     */
    method InitExtensions(extensions: seq<Extension>, fails: Extension -> bool) returns (r: Result<(), InitError>)
      requires Valid()
      modifies this
      ensures Valid()
      ensures old(lifecycle) != New ==> r == Err(WrongState(old(lifecycle))) && lifecycle == old(lifecycle) && loaded == old(loaded)
      ensures old(lifecycle) == New ==>
                && (r.Ok? <==> DistinctIds(extensions) && forall e :: e in extensions ==> !fails(e))
                && (r.Ok? ==> lifecycle == Ready && loaded == extensions)
                && (r.Err? ==> lifecycle == Failed && loaded == [])
                && (r.Err? ==> exists i :: 0 <= i < |extensions| && InitStops(extensions, fails, i, r.error))
    {
      if lifecycle != New {
        return Err(WrongState(lifecycle));
      }
      lifecycle := Initializing;
      for i := 0 to |extensions|
        invariant loaded == extensions[..i] && DistinctIds(loaded)
        invariant forall k :: 0 <= k < i ==> !fails(extensions[k])
      {
        if Holds(loaded, extensions[i].id) {
          lifecycle, loaded := Failed, [];
          assert InitStops(extensions, fails, i, DuplicateId(extensions[i].id));
          return Err(DuplicateId(extensions[i].id));
        }
        loaded := loaded + [extensions[i]];
        if fails(extensions[i]) {
          lifecycle, loaded := Failed, [];
          assert InitStops(extensions, fails, i, InitFailed(extensions[i].id));
          return Err(InitFailed(extensions[i].id));
        }
      }
      lifecycle := Ready;
      return Ok(());
    }
  }

  /** Loading a profile: what resolves can never be refused for a repeated id. */
  method LoadProfile(base: seq<Extension>, additions: seq<Extension>, overlays: map<string, Overlay>, profile: Option<string>,
                     fails: Extension -> bool)
    returns (registry: Registry, resolved: Result<seq<Extension>, Conflict>, r: Result<(), InitError>)
    ensures resolved.Ok? ==> (r.Ok? || r.error.InitFailed?) && (r.Ok? <==> forall e :: e in resolved.value ==> !fails(e))
    ensures resolved.Ok? && r.Ok? ==> registry.lifecycle == Ready && registry.loaded == resolved.value
  {
    registry := new Registry();
    r := Ok(());
    resolved := ResolveExtensions(base, additions, overlays, profile);
    if resolved.Ok? {
      r := registry.InitExtensions(resolved.value, fails);
    }
  }
}
