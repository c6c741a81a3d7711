/**
  Redacting credentials in parsed console values, in place and with an explicit
  work list (packages/browser-core/src/console-diagnostic-sanitizer.ts).
 */
module Redaction {

  const MAX_DEPTH: nat := 12
  const MAX_NODES: nat := 1000
  const REDACTED := "[REDACTED]"

  const SENSITIVE_KEYS: set<string> := {
    "authorization", "cookie", "setcookie", "accesstoken", "refreshtoken",
    "idtoken", "apikey", "clientsecret", "password"
  }

  /** Lower case, as far as it can reach an ASCII letter: U+212A (Kelvin) lowers to k. */
  function Lower(c: char): char {
    if 'A' <= c <= 'Z' then (c as int + 32) as char
    else if c == '\U{212A}' then 'k'
    else c
  }

  /** A key in lower case without hyphens and underscores. */
  function Normalized(key: string): string {
    if key == "" then ""
    else (if key[0] == '-' || key[0] == '_' then "" else [Lower(key[0])]) + Normalized(key[1..])
  }

  predicate Sensitive(key: string) {
    Normalized(key) in SENSITIVE_KEYS
  }

  /** The same letter in either case; U+212A counts as a k. */
  predicate SameLetter(c: char, lower: char) {
    c == lower || ('a' <= lower <= 'z' && c as int == lower as int - 32) || (lower == 'k' && c == '\U{212A}')
  }

  /** The key is the name with letters in either case and hyphens and underscores anywhere. */
  predicate Spells(key: string, name: string) {
    if key == "" then name == ""
    else if key[0] == '-' || key[0] == '_' then Spells(key[1..], name)
    else name != "" && SameLetter(key[0], name[0]) && Spells(key[1..], name[1..])
  }

  /** Of letters. */
  predicate LowerWord(name: string) {
    forall i :: 0 <= i < |name| ==> 'a' <= name[i] <= 'z'
  }

  lemma {:induction false} NormalizedSpells(key: string, name: string)
    requires LowerWord(name)
    ensures Normalized(key) == name <==> Spells(key, name)
  {
    if key != "" {
      if key[0] == '-' || key[0] == '_' {
        NormalizedSpells(key[1..], name);
      } else {
        if name != "" {
          NormalizedSpells(key[1..], name[1..]);
          assert name == [name[0]] + name[1..];
          assert Normalized(key) == [Lower(key[0])] + Normalized(key[1..]);
          assert Normalized(key)[0] == Lower(key[0]) && Normalized(key)[1..] == Normalized(key[1..]);
        }
      }
    }
  }

  /** A key is sensitive exactly when it spells one of nine names. */
  lemma SensitiveExactly(key: string)
    ensures Sensitive(key) <==> exists name :: name in SENSITIVE_KEYS && Spells(key, name)
  {
    forall name | name in SENSITIVE_KEYS
      ensures Normalized(key) == name <==> Spells(key, name)
    {
      NormalizedSpells(key, name);
    }
  }

  // -------------------------------------------------------- the recursive definition

  /** A parsed value; scalars (and null) keep only their text. */
  datatype Json =
    | Scalar(text: string)
    | Array(items: seq<Json>)
    | Object(keys: seq<string>, items: seq<Json>)
  {
    predicate Secret(i: int) {
      Object? && 0 <= i < |keys| && Sensitive(keys[i])
    }
  }

  /** Every value under a sensitive key is replaced, everything else stays. */
  function Redact(j: Json): (r: Json)
    ensures !j.Scalar? ==> !r.Scalar? && |r.items| == |j.items|
  {
    match j
    case Scalar(_) => j
    case Array(items) => Array(RedactItems(j, 0))
    case Object(keys, items) => Object(keys, RedactItems(j, 0))
  }

  function RedactItems(j: Json, from: nat): (r: seq<Json>)
    requires !j.Scalar? && from <= |j.items|
    ensures |r| == |j.items| - from
    decreases j, |j.items| - from
  {
    if from == |j.items| then []
    else [if j.Secret(from) then Scalar(REDACTED) else Redact(j.items[from])] + RedactItems(j, from + 1)
  }

  /** How many arrays and objects are left when sensitive subtrees are cut. */
  function Containers(j: Json): nat {
    if j.Scalar? then 0 else 1 + ContainersFrom(j, 0)
  }

  function ContainersFrom(j: Json, from: nat): nat
    requires !j.Scalar? && from <= |j.items|
    decreases j, |j.items| - from
  {
    if from == |j.items| then 0
    else (if j.Secret(from) then 0 else Containers(j.items[from])) + ContainersFrom(j, from + 1)
  }

  /** How deep they are nested; a container without inner containers has height 0. */
  function Height(j: Json): nat {
    if j.Scalar? then 0 else HeightFrom(j, 0)
  }

  function HeightFrom(j: Json, from: nat): nat
    requires !j.Scalar? && from <= |j.items|
    decreases j, |j.items| - from
  {
    if from == |j.items| then 0
    else
      var rest := HeightFrom(j, from + 1);
      if j.Secret(from) || j.items[from].Scalar? then rest
      else if Height(j.items[from]) + 1 > rest then Height(j.items[from]) + 1 else rest
  }

  /** n containers nested in j, none under a sensitive key. */
  predicate Nested(j: Json, n: nat)
    decreases n
  {
    !j.Scalar? && (n == 0 || exists i :: 0 <= i < |j.items| && !j.Secret(i) && Nested(j.items[i], n - 1))
  }

  /** The height is the length of the longest such nesting. */
  lemma {:induction false} HeightExactly(j: Json, n: nat)
    requires !j.Scalar?
    ensures Height(j) >= n <==> Nested(j, n)
    decreases j, |j.items| + 1
  {
    if n > 0 {
      HeightFromExactly(j, 0, n);
    }
  }

  lemma {:induction false} HeightFromExactly(j: Json, from: nat, n: nat)
    requires !j.Scalar? && from <= |j.items| && n > 0
    ensures HeightFrom(j, from) >= n <==> exists i :: from <= i < |j.items| && !j.Secret(i) && Nested(j.items[i], n - 1)
    decreases j, |j.items| - from
  {
    if from < |j.items| {
      HeightFromExactly(j, from + 1, n);
      if !j.items[from].Scalar? {
        HeightExactly(j.items[from], n - 1);
      }
    }
  }

  lemma {:induction false} RedactItemsAt(j: Json, from: nat, i: nat)
    requires !j.Scalar? && from <= i < |j.items|
    ensures RedactItems(j, from)[i - from] == if j.Secret(i) then Scalar(REDACTED) else Redact(j.items[i])
    decreases i - from
  {
    if from < i {
      RedactItemsAt(j, from + 1, i);
    }
  }

  /** No value survives under a sensitive key. */
  predicate Clean(j: Json) {
    !j.Scalar? ==> forall i :: 0 <= i < |j.items| ==> if j.Secret(i) then j.items[i] == Scalar(REDACTED) else Clean(j.items[i])
  }

  /** Redacting leaves no secret, and changes nothing where there was none to begin with. */
  lemma {:induction false} RedactCleans(j: Json)
    ensures Clean(Redact(j))
    ensures Clean(j) ==> Redact(j) == j
  {
    if !j.Scalar? {
      var r := Redact(j);
      forall i | 0 <= i < |j.items|
        ensures if r.Secret(i) then r.items[i] == Scalar(REDACTED) else Clean(r.items[i])
        ensures Clean(j) ==> r.items[i] == j.items[i]
      {
        RedactItemsAt(j, 0, i);
        RedactCleans(j.items[i]);
      }
      if Clean(j) {
        assert r.items == j.items;
      }
    }
  }

  // ------------------------------------------------------------------ the value itself

  datatype Item = Text(text: string) | Ref(container: Container)

  /** An array, or an object with its keys in order. */
  class Container {
    const isArray: bool
    const keys: seq<string>
    var items: seq<Item>

    constructor (isArray: bool, keys: seq<string>, items: seq<Item>)
      ensures this.isArray == isArray && this.keys == keys && this.items == items
    {
      this.isArray, this.keys, this.items := isArray, keys, items;
    }

    predicate Secret(i: int) {
      !isArray && 0 <= i < |keys| && Sensitive(keys[i])
    }
  }

  /** What each container holds at some moment. */
  type Contents = map<Container, seq<Item>>

  ghost function Now(nodes: set<Container>): Contents
    reads nodes
  {
    map c | c in nodes :: c.items
  }

  /** The container's contents once its sensitive values are replaced. */
  function Cleaned(c: Container, items: seq<Item>): (r: seq<Item>)
    ensures |r| == |items|
    ensures forall i :: 0 <= i < |items| ==> r[i] == if c.Secret(i) then Text(REDACTED) else items[i]
  {
    seq(|items|, i requires 0 <= i < |items| => if c.Secret(i) then Text(REDACTED) else items[i])
  }

  /** With these contents, the item reads as the value j. */
  predicate Represents(h: Contents, item: Item, j: Json)
    decreases j
  {
    match j
    case Scalar(text) => item == Text(text)
    case Array(items) =>
      item.Ref? && item.container in h && item.container.isArray && RepresentsAll(h, h[item.container], j, 0)
    case Object(keys, items) =>
      item.Ref? && item.container in h && !item.container.isArray && item.container.keys == keys && RepresentsAll(h, h[item.container], j, 0)
  }

  predicate RepresentsAll(h: Contents, items: seq<Item>, j: Json, from: nat)
    requires !j.Scalar? && from <= |j.items|
    decreases j, |j.items| - from
  {
    && |items| == |j.items|
    && (from < |j.items| ==> Represents(h, items[from], j.items[from]) && RepresentsAll(h, items, j, from + 1))
  }

  lemma {:induction false} RepresentsAt(h: Contents, items: seq<Item>, j: Json, from: nat, i: nat)
    requires !j.Scalar? && from <= i < |j.items| && RepresentsAll(h, items, j, from)
    ensures |items| == |j.items| && Represents(h, items[i], j.items[i])
    decreases i - from
  {
    if from < i {
      RepresentsAt(h, items, j, from + 1, i);
    }
  }

  lemma {:induction false} AllRepresented(h: Contents, items: seq<Item>, j: Json, from: nat)
    requires !j.Scalar? && from <= |j.items| && |items| == |j.items|
    requires forall i :: from <= i < |items| ==> Represents(h, items[i], j.items[i])
    ensures RepresentsAll(h, items, j, from)
    decreases |j.items| - from
  {
    if from < |j.items| {
      AllRepresented(h, items, j, from + 1);
    }
  }

  // --------------------------------------------------------------------- the work list

  datatype Frame = Frame(container: Container, depth: nat)

  /** The parsed values behind the frames of the stack. */
  ghost predicate Stands(h: Contents, stack: seq<Frame>, docs: seq<Json>) {
    && |stack| == |docs|
    && forall k :: 0 <= k < |stack| ==> !docs[k].Scalar? && Represents(h, Ref(stack[k].container), docs[k])
  }

  ghost function Work(docs: seq<Json>): nat {
    if docs == [] then 0 else Work(docs[..|docs| - 1]) + Containers(docs[|docs| - 1])
  }

  ghost predicate Shallow(stack: seq<Frame>, docs: seq<Json>)
    requires |stack| == |docs|
  {
    forall k :: 0 <= k < |stack| ==> stack[k].depth + Height(docs[k]) <= MAX_DEPTH
  }

  ghost predicate Stacked(stack: seq<Frame>, c: Container) {
    exists k :: 0 <= k < |stack| && stack[k].container == c
  }

  /** Everything inside c that redaction has to visit too is done or still stacked. */
  ghost predicate Covered(h: Contents, c: Container, done: set<Container>, stack: seq<Frame>) {
    c in h && forall i :: 0 <= i < |h[c]| && !c.Secret(i) && h[c][i].Ref? ==>
                h[c][i].container in done || Stacked(stack, h[c][i].container)
  }

  /** Contents after redacting the containers in done. */
  ghost predicate Progress(h: Contents, now: Contents, done: set<Container>) {
    now.Keys == h.Keys && forall c :: c in h ==> now[c] == if c in done then Cleaned(c, h[c]) else h[c]
  }

  /** Each container is as it was, or has lost exactly the values of its sensitive keys. */
  ghost predicate OnlySecretsReplaced(h: Contents, now: Contents) {
    now.Keys == h.Keys && forall c :: c in h ==> now[c] == h[c] || now[c] == Cleaned(c, h[c])
  }

  /** Once every container reachable past no sensitive key is done, the value reads as redacted. */
  lemma {:induction false} DoneReadsRedacted(h: Contents, now: Contents, done: set<Container>, item: Item, j: Json)
    requires Represents(h, item, j) && Progress(h, now, done)
    requires item.Ref? ==> item.container in done
    requires forall c :: c in done ==> Covered(h, c, done, [])
    ensures Represents(now, item, Redact(j))
    decreases j
  {
    if !j.Scalar? {
      var c, r := item.container, Redact(j);
      forall i | 0 <= i < |j.items|
        ensures |h[c]| == |j.items| && Represents(now, now[c][i], r.items[i])
      {
        RepresentsAt(h, h[c], j, 0, i);
        RedactItemsAt(j, 0, i);
        if !j.Secret(i) {
          if h[c][i].Ref? {
            assert h[c][i].container in done;
          }
          DoneReadsRedacted(h, now, done, h[c][i], j.items[i]);
        }
      }
      assert |h[c]| == |j.items|;
      AllRepresented(now, now[c], r, 0);
    }
  }

  lemma WorkOfMore(docs: seq<Json>, j: Json)
    ensures Work(docs + [j]) == Work(docs) + Containers(j)
  {
    assert (docs + [j])[..|docs|] == docs;
  }

  /**
    After the first n members of a popped container: what they added to the stack
    accounts for them in the count and in the depth, and every one of them to be
    visited is stacked.
   */
  ghost predicate Expanded(h: Contents, frame: Frame, doc: Json, stack: seq<Frame>, docs: seq<Json>,
                           more: seq<Frame>, moreDocs: seq<Json>, n: nat)
    requires !doc.Scalar? && frame.container in h && n <= |doc.items| == |h[frame.container]|
    requires |stack| == |docs|
  {
    && stack <= more && docs <= moreDocs && Stands(h, more, moreDocs)
    && Work(moreDocs) + ContainersFrom(doc, n) == Work(docs) + ContainersFrom(doc, 0)
    && ((Shallow(more, moreDocs) && frame.depth + HeightFrom(doc, n) <= MAX_DEPTH)
        <==> (Shallow(stack, docs) && frame.depth + HeightFrom(doc, 0) <= MAX_DEPTH))
    && forall k :: 0 <= k < n && !frame.container.Secret(k) && h[frame.container][k].Ref? ==>
         Stacked(more, h[frame.container][k].container)
  }

  /** One member: whether it is secret, what it reads as, and what it adds to the measures. */
  lemma Member(h: Contents, c: Container, doc: Json, n: nat)
    requires !doc.Scalar? && Represents(h, Ref(c), doc) && n < |doc.items|
    ensures c in h && |h[c]| == |doc.items| && c.Secret(n) == doc.Secret(n)
    ensures Represents(h, h[c][n], doc.items[n]) && h[c][n].Text? == doc.items[n].Scalar?
    ensures ContainersFrom(doc, n) == (if c.Secret(n) then 0 else Containers(doc.items[n])) + ContainersFrom(doc, n + 1)
    ensures doc.items[n].Scalar? ==> Containers(doc.items[n]) == 0
    ensures HeightFrom(doc, n) ==
            if c.Secret(n) || doc.items[n].Scalar? || Height(doc.items[n]) + 1 <= HeightFrom(doc, n + 1)
            then HeightFrom(doc, n + 1)
            else Height(doc.items[n]) + 1
  {
    RepresentsAt(h, h[c], doc, 0, n);
  }

  lemma SkipMember(h: Contents, frame: Frame, doc: Json, stack: seq<Frame>, docs: seq<Json>,
                   more: seq<Frame>, moreDocs: seq<Json>, n: nat)
    requires !doc.Scalar? && Represents(h, Ref(frame.container), doc) && n < |doc.items| == |h[frame.container]|
    requires |stack| == |docs| && Expanded(h, frame, doc, stack, docs, more, moreDocs, n)
    requires frame.container.Secret(n) || h[frame.container][n].Text?
    ensures Expanded(h, frame, doc, stack, docs, more, moreDocs, n + 1)
  {
    hide Represents, Containers, ContainersFrom, Height, HeightFrom, Work, Shallow, Stands, Stacked;
    Member(h, frame.container, doc, n);
  }

  lemma StackMember(h: Contents, frame: Frame, doc: Json, stack: seq<Frame>, docs: seq<Json>,
                    more: seq<Frame>, moreDocs: seq<Json>, n: nat)
    requires !doc.Scalar? && Represents(h, Ref(frame.container), doc) && n < |doc.items| == |h[frame.container]|
    requires |stack| == |docs| && Expanded(h, frame, doc, stack, docs, more, moreDocs, n)
    requires !frame.container.Secret(n) && h[frame.container][n].Ref?
    ensures Expanded(h, frame, doc, stack, docs, more + [Frame(h[frame.container][n].container, frame.depth + 1)],
                     moreDocs + [doc.items[n]], n + 1)
  {
    hide Represents, Containers, ContainersFrom, Height, HeightFrom, Work, Shallow, Stands;
    Member(h, frame.container, doc, n);
    Push(h, more, moreDocs, Frame(h[frame.container][n].container, frame.depth + 1), doc.items[n]);
  }

  lemma Push(h: Contents, stack: seq<Frame>, docs: seq<Json>, top: Frame, j: Json)
    requires Stands(h, stack, docs) && !j.Scalar? && Represents(h, Ref(top.container), j)
    ensures Stands(h, stack + [top], docs + [j])
    ensures Work(docs + [j]) == Work(docs) + Containers(j)
    ensures Shallow(stack + [top], docs + [j]) <==> Shallow(stack, docs) && top.depth + Height(j) <= MAX_DEPTH
    ensures Stacked(stack + [top], top.container)
    ensures forall k :: 0 <= k < |stack| ==> Stacked(stack + [top], stack[k].container)
  {
    hide Represents, Containers, Height;
    WorkOfMore(docs, j);
    var pushed, pushedDocs := stack + [top], docs + [j];
    assert forall k :: 0 <= k < |stack| ==> pushed[k] == stack[k] && pushedDocs[k] == docs[k];
    assert pushed[|stack|] == top && pushedDocs[|stack|] == j;
  }

  /** The container is as the snapshot has it, or already redacted. */
  ghost predicate Visitable(h: Contents, c: Container)
    reads c
  {
    c in h && (c.items == h[c] || c.items == Cleaned(c, h[c]))
  }

  /** Visit one container: stack what is in it, replacing the values of sensitive keys. */
  method Visit(frame: Frame, ghost doc: Json, ghost h: Contents, stack: seq<Frame>, ghost docs: seq<Json>)
    returns (more: seq<Frame>, ghost moreDocs: seq<Json>)
    requires !doc.Scalar? && Represents(h, Ref(frame.container), doc) && frame.depth <= MAX_DEPTH
    requires Visitable(h, frame.container) && Stands(h, stack, docs)
    modifies frame.container
    ensures |doc.items| == |h[frame.container]| && Expanded(h, frame, doc, stack, docs, more, moreDocs, |doc.items|)
    ensures frame.container.items == Cleaned(frame.container, h[frame.container])
  {
    hide Expanded, Stands, Represents, Work, Containers, Height;
    var c := frame.container;
    var entries := c.items;
    more, moreDocs := stack, docs;
    StartOfContainer(h, frame, doc, stack, docs);
    var i := 0;
    if c.isArray {
      while i < |entries|
        invariant 0 <= i <= |entries| == |doc.items| && Expanded(h, frame, doc, stack, docs, more, moreDocs, i)
        invariant c.items == entries
      {
        if entries[i].Ref? {
          StackMember(h, frame, doc, stack, docs, more, moreDocs, i);
          more, moreDocs := more + [Frame(entries[i].container, frame.depth + 1)], moreDocs + [doc.items[i]];
        } else {
          SkipMember(h, frame, doc, stack, docs, more, moreDocs, i);
        }
        i := i + 1;
      }
      return;
    }
    while i < |entries|
      invariant 0 <= i <= |entries| == |doc.items| && Expanded(h, frame, doc, stack, docs, more, moreDocs, i)
      invariant |c.items| == |entries|
      invariant forall k :: 0 <= k < |entries| ==> c.items[k] == if k < i && c.Secret(k) then Text(REDACTED) else entries[k]
    {
      if i < |c.keys| && Sensitive(c.keys[i]) {
        SkipMember(h, frame, doc, stack, docs, more, moreDocs, i);
        c.items := c.items[i := Text(REDACTED)];
      } else if entries[i].Ref? {
        StackMember(h, frame, doc, stack, docs, more, moreDocs, i);
        more, moreDocs := more + [Frame(entries[i].container, frame.depth + 1)], moreDocs + [doc.items[i]];
      } else {
        SkipMember(h, frame, doc, stack, docs, more, moreDocs, i);
      }
      i := i + 1;
    }
  }

  lemma StartOfContainer(h: Contents, frame: Frame, doc: Json, stack: seq<Frame>, docs: seq<Json>)
    requires !doc.Scalar? && Represents(h, Ref(frame.container), doc) && Stands(h, stack, docs)
    ensures frame.container in h && |doc.items| == |h[frame.container]| && |stack| == |docs|
    ensures Expanded(h, frame, doc, stack, docs, stack, docs, 0)
  {
  }

  /**
    The work list accepts a value exactly when, with sensitive subtrees cut, it has at
    most 1000 arrays and objects and none deeper than 12; then the value in place is
    the recursive redaction of what it was. In every case only values under sensitive
    keys have changed.
   */
  method RedactStructuredCredentials(value: Item, ghost doc: Json, ghost nodes: set<Container>) returns (ok: bool)
    requires Represents(Now(nodes), value, doc)
    modifies nodes
    ensures ok <==> Containers(doc) <= MAX_NODES && Height(doc) <= MAX_DEPTH
    ensures ok ==> Represents(Now(nodes), value, Redact(doc))
    ensures OnlySecretsReplaced(old(Now(nodes)), Now(nodes))
  {
    hide Represents, Stands, Shallow, Work, Containers, Height, Stacked, Covered, Redact;
    if value.Text? {
      ScalarIsDone(Now(nodes), value, doc);
      return true;
    }
    ghost var h := Now(nodes);
    ghost var docs, done := [doc], {};
    var stack := [Frame(value.container, 0)];
    var visitedNodes := 0;
    StartOfRun(h, value, doc);
    while stack != []
      invariant Progress(h, Now(nodes), done)
      invariant Stands(h, stack, docs) && |stack| == |docs|
      invariant visitedNodes <= MAX_NODES && visitedNodes + Work(docs) == Containers(doc)
      invariant Shallow(stack, docs) <==> Height(doc) <= MAX_DEPTH
      invariant Reached(h, done, stack, value.container)
      decreases MAX_NODES - visitedNodes
    {
      var current := stack[|stack| - 1];
      ghost var j := docs[|docs| - 1];
      TopOfStack(h, stack, docs);
      ghost var before, beforeDocs := stack, docs;
      stack, docs := stack[..|stack| - 1], docs[..|docs| - 1];
      visitedNodes := visitedNodes + 1;
      if visitedNodes > MAX_NODES || current.depth > MAX_DEPTH {
        return false;
      }
      stack, docs := Visit(current, j, h, stack, docs);
      AfterVisit(h, done, before, beforeDocs, current, j, stack, docs, value.container);
      done := done + {current.container};
    }
    EndOfRun(h, done, docs, value.container);
    DoneReadsRedacted(h, Now(nodes), done, value, doc);
    return true;
  }

  lemma ScalarIsDone(h: Contents, value: Item, doc: Json)
    requires Represents(h, value, doc) && value.Text?
    ensures Containers(doc) == 0 && Height(doc) == 0 && Redact(doc) == doc
  {
  }

  /** The root and everything inside what is done is done too, or still stacked. */
  ghost predicate Reached(h: Contents, done: set<Container>, stack: seq<Frame>, root: Container) {
    && (root in done || Stacked(stack, root))
    && forall c :: c in done ==> Covered(h, c, done, stack)
  }

  lemma TopOfStack(h: Contents, stack: seq<Frame>, docs: seq<Json>)
    requires Stands(h, stack, docs) && stack != [] && |stack| == |docs|
    ensures var n := |stack| - 1;
            && !docs[n].Scalar? && Represents(h, Ref(stack[n].container), docs[n]) && stack[n].container in h
            && Stands(h, stack[..n], docs[..n])
            && Work(docs) == Work(docs[..n]) + Containers(docs[n]) && Containers(docs[n]) >= 1
            && (Shallow(stack, docs) <==> Shallow(stack[..n], docs[..n]) && stack[n].depth + Height(docs[n]) <= MAX_DEPTH)
            && (stack[n].depth > MAX_DEPTH ==> !Shallow(stack, docs))
  {
  }

  lemma AfterVisit(h: Contents, done: set<Container>, stack: seq<Frame>, docs: seq<Json>, frame: Frame, doc: Json,
                   more: seq<Frame>, moreDocs: seq<Json>, root: Container)
    requires |stack| == |docs| && stack != [] && frame == stack[|stack| - 1] && doc == docs[|docs| - 1]
    requires !doc.Scalar? && frame.depth <= MAX_DEPTH && frame.container in h && |doc.items| == |h[frame.container]|
    requires Expanded(h, frame, doc, stack[..|stack| - 1], docs[..|docs| - 1], more, moreDocs, |doc.items|)
    requires Reached(h, done, stack, root)
    ensures Reached(h, done + {frame.container}, more, root)
    ensures Stands(h, more, moreDocs) && |more| == |moreDocs|
    ensures Work(moreDocs) + 1 == Work(docs[..|docs| - 1]) + Containers(doc)
    ensures Shallow(more, moreDocs) <==> Shallow(stack[..|stack| - 1], docs[..|docs| - 1]) && frame.depth + Height(doc) <= MAX_DEPTH
  {
    forall d: Container | Stacked(stack, d) && d != frame.container
      ensures Stacked(more, d)
    {
      var k :| 0 <= k < |stack| && stack[k].container == d;
      assert k < |stack| - 1;
      assert stack[..|stack| - 1][k] == stack[k];
      assert more[k].container == d;
    }
  }

  lemma EndOfRun(h: Contents, done: set<Container>, docs: seq<Json>, root: Container)
    requires Reached(h, done, [], root) && Stands(h, [], docs)
    ensures Work(docs) == 0 && Shallow([], docs) && root in done
    ensures forall c :: c in done ==> Covered(h, c, done, [])
  {
  }

  lemma StartOfRun(h: Contents, value: Item, doc: Json)
    requires Represents(h, value, doc) && value.Ref?
    ensures var stack := [Frame(value.container, 0)];
            && Stands(h, stack, [doc]) && Work([doc]) == Containers(doc)
            && (Shallow(stack, [doc]) <==> Height(doc) <= MAX_DEPTH)
            && Reached(h, {}, stack, value.container)
  {
    assert [doc][..0] == [];
    assert [Frame(value.container, 0)][0].container == value.container;
  }
}
