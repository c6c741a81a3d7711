/**
  Cutting UTF-16 text to a UTF-8 byte budget
  (packages/agent-extension/src/tool-output-budget.ts). Surrogates are those of
  section 2 of RFC 2781, byte widths those of section 3 of RFC 3629; a surrogate
  without its partner is encoded as U+FFFD, in three bytes.
 */
module Utf8Budget {

  newtype CodeUnit = x: int | 0 <= x < 0x1_0000

  type Text = seq<CodeUnit>

  predicate High(u: CodeUnit) {
    0xD800 <= u <= 0xDBFF
  }

  predicate Low(u: CodeUnit) {
    0xDC00 <= u <= 0xDFFF
  }

  // ------------------------------------------------------------ code points

  /** How many code units the first code point of a text takes. */
  function FirstLength(t: Text): (n: nat)
    requires t != []
    ensures 1 <= n <= |t|
  {
    if |t| >= 2 && High(t[0]) && Low(t[1]) then 2 else 1
  }

  /** How many bytes one code point takes. */
  function PointBytes(point: Text): nat {
    if |point| == 2 then 4
    else if point == [] then 0
    else if point[0] < 0x80 then 1
    else if point[0] < 0x800 then 2
    else 3
  }

  /** `Buffer.byteLength`: the bytes of the code points, read from the front. */
  function ByteLength(t: Text): nat {
    if t == [] then 0
    else PointBytes(t[..FirstLength(t)]) + ByteLength(t[FirstLength(t)..])
  }

  /** Positions between code points: no surrogate pair is split. */
  predicate Boundary(t: Text, i: nat) {
    i <= |t| && (0 < i < |t| ==> !(High(t[i - 1]) && Low(t[i])))
  }

  lemma ByteLengthUnfolds(t: Text)
    ensures t == [] ==> ByteLength(t) == 0
    ensures t != [] ==> ByteLength(t) == PointBytes(t[..FirstLength(t)]) + ByteLength(t[FirstLength(t)..])
  {
  }

  /** Text may be measured in two parts exactly where no surrogate pair is split. */
  lemma {:induction false} ByteLengthSplits(t: Text, i: nat)
    requires Boundary(t, i)
    ensures ByteLength(t) == ByteLength(t[..i]) + ByteLength(t[i..])
    decreases |t|
  {
    hide ByteLength, PointBytes;
    if i == 0 {
      assert t[..0] == [] && t[0..] == t;
      ByteLengthUnfolds(t[..0]);
    } else {
      var n := FirstLength(t);
      assert n <= i && FirstLength(t[..i]) == n;
      ByteLengthSplits(t[n..], i - n);
      assert t[n..][..i - n] == t[..i][n..];
      assert t[n..][i - n..] == t[i..];
      assert t[..i][..n] == t[..n];
      ByteLengthUnfolds(t);
      ByteLengthUnfolds(t[..i]);
    }
  }

  lemma PrefixGrows(t: Text, i: nat, j: nat)
    requires i <= j <= |t| && Boundary(t, i) && Boundary(t, j)
    ensures ByteLength(t[..i]) <= ByteLength(t[..j]) && ByteLength(t[i..]) >= ByteLength(t[j..])
  {
    hide ByteLength;
    ByteLengthSplits(t[..j], i);
    assert t[..j][..i] == t[..i];
    ByteLengthSplits(t[i..], j - i);
    assert t[i..][j - i..] == t[j..];
  }

  // ------------------------------------------------------------------- the cuts

  /** i is the end of the longest prefix of whole code points within the budget. */
  ghost predicate LongestPrefix(t: Text, budget: int, i: nat) {
    && Boundary(t, i)
    && (budget >= 0 ==> ByteLength(t[..i]) <= budget)
    && (budget < 0 ==> i == 0)
    && forall j: nat :: i < j && Boundary(t, j) ==> ByteLength(t[..j]) > budget
  }

  /** i is the start of the longest suffix of whole code points within the budget. */
  ghost predicate LongestSuffix(t: Text, budget: int, i: nat) {
    && Boundary(t, i)
    && (budget >= 0 ==> ByteLength(t[i..]) <= budget)
    && (budget < 0 ==> i == |t|)
    && forall j: nat :: j < i && Boundary(t, j) ==> ByteLength(t[j..]) > budget
  }

  /** The forward scan: code point by code point until the next one does not fit. */
  method TakeUtf8Start(t: Text, budget: int) returns (r: Text)
    ensures exists i: nat :: LongestPrefix(t, budget, i) && r == t[..i]
    ensures r <= t
  {
    var used, i := 0, 0;
    while i < |t|
      invariant Boundary(t, i) && used == ByteLength(t[..i])
      invariant used <= budget || i == 0
      decreases |t| - i
    {
      var n := FirstLength(t[i..]);
      var bytes := PointBytes(t[i..][..n]);
      NextBoundary(t, i);
      if used + bytes > budget {
        forall j: nat | i < j && Boundary(t, j)
          ensures ByteLength(t[..j]) > budget
        {
          PrefixGrows(t, i + n, j);
        }
        assert LongestPrefix(t, budget, i);
        return t[..i];
      }
      used, i := used + bytes, i + n;
    }
    assert LongestPrefix(t, budget, i);
    r := t[..i];
  }

  /** Stepping over one code point reaches the next boundary and adds that point's bytes. */
  lemma NextBoundary(t: Text, i: nat)
    requires i < |t| && Boundary(t, i)
    ensures var n := FirstLength(t[i..]);
            && Boundary(t, i + n)
            && ByteLength(t[..i + n]) == ByteLength(t[..i]) + PointBytes(t[i..][..n])
            && (forall j :: i < j < i + n ==> !Boundary(t, j))
  {
    var n := FirstLength(t[i..]);
    var point := t[i..][..n];
    ByteLengthSplits(t[..i + n], i);
    assert t[..i + n][..i] == t[..i] && t[..i + n][i..] == point;
    OnePoint(point);
  }

  lemma OnePoint(point: Text)
    requires point != [] && FirstLength(point) == |point|
    ensures ByteLength(point) == PointBytes(point)
  {
    assert point[..|point|] == point && point[|point|..] == [];
  }

  /** The backward scan: it steps back over the same code points the forward scan steps over. */
  method TakeUtf8End(t: Text, budget: int) returns (r: Text)
    ensures exists i: nat :: LongestSuffix(t, budget, i) && r == t[i..]
  {
    var used, start: nat, cursor: nat := 0, |t|, |t|;
    while cursor > 0
      invariant cursor == start <= |t| && Boundary(t, start) && used == ByteLength(t[start..])
      invariant used <= budget || start == |t|
    {
      var end := cursor;
      cursor := cursor - 1;
      if Low(t[cursor]) && cursor > 0 && High(t[cursor - 1]) {
        cursor := cursor - 1;
      }
      var bytes := ByteLength(t[cursor..end]);
      PreviousBoundary(t, cursor, end);
      if used + bytes > budget {
        forall j: nat | j < end && Boundary(t, j)
          ensures ByteLength(t[j..]) > budget
        {
          PrefixGrows(t, j, cursor);
        }
        assert LongestSuffix(t, budget, end);
        return t[end..];
      }
      start, used := cursor, used + bytes;
    }
    assert LongestSuffix(t, budget, start);
    r := t[start..];
  }

  lemma PreviousBoundary(t: Text, cursor: nat, end: nat)
    requires 0 < end <= |t| && Boundary(t, end)
    requires cursor == if Low(t[end - 1]) && end > 1 && High(t[end - 2]) then end - 2 else end - 1
    ensures Boundary(t, cursor) && (forall j :: cursor < j < end ==> !Boundary(t, j))
    ensures ByteLength(t[cursor..]) == ByteLength(t[cursor..end]) + ByteLength(t[end..])
    ensures FirstLength(t[cursor..end]) == end - cursor
  {
    ByteLengthSplits(t[cursor..], end - cursor);
    assert t[cursor..][..end - cursor] == t[cursor..end] && t[cursor..][end - cursor..] == t[end..];
  }

  /** The longest prefix and suffix are unique, so the scans compute the only possible cuts. */
  lemma CutsAreUnique(t: Text, budget: int, i: nat, j: nat)
    ensures LongestPrefix(t, budget, i) && LongestPrefix(t, budget, j) ==> i == j
    ensures LongestSuffix(t, budget, i) && LongestSuffix(t, budget, j) ==> i == j
  {
  }

  /**
    A text larger than the preview budget is never shown twice: the head within the
    rounded-up half and the tail within the rounded-down half do not overlap.
   */
  lemma HeadAndTailDisjoint(t: Text, budget: nat, i: nat, j: nat)
    requires ByteLength(t) > budget
    requires LongestPrefix(t, (budget + 1) / 2, i) && LongestSuffix(t, budget / 2, j)
    ensures i <= j
  {
    if j < i {
      PrefixGrows(t, j, i);
      ByteLengthSplits(t, i);
      assert false;
    }
  }

  // -------------------------------------------------------------- the truncations

  /** Gluing two texts never joins a surrogate pair unless one half ends and the other starts it. */
  lemma GlueBytes(a: Text, b: Text)
    requires a == [] || b == [] || !(High(a[|a| - 1]) && Low(b[0]))
    ensures ByteLength(a + b) == ByteLength(a) + ByteLength(b)
  {
    ByteLengthSplits(a + b, |a|);
    assert (a + b)[..|a|] == a && (a + b)[|a|..] == b;
  }

  /** Head, notice, tail. The notice starts and ends with a line break. */
  method HeadTailPreview(t: Text, budget: nat, notice: Text) returns (r: Text)
    requires notice != [] && !Low(notice[0]) && !High(notice[|notice| - 1])
    ensures exists i: nat, j: nat ::
              && LongestPrefix(t, (budget + 1) / 2, i) && LongestSuffix(t, budget / 2, j)
              && r == t[..i] + notice + t[j..]
              && (ByteLength(t) > budget ==> i <= j)
    ensures ByteLength(r) <= budget + ByteLength(notice)
  {
    hide ByteLength;
    var head := TakeUtf8Start(t, (budget + 1) / 2);
    var tail := TakeUtf8End(t, budget / 2);
    ghost var i: nat :| LongestPrefix(t, (budget + 1) / 2, i) && head == t[..i];
    ghost var j: nat :| LongestSuffix(t, budget / 2, j) && tail == t[j..];
    if ByteLength(t) > budget {
      HeadAndTailDisjoint(t, budget, i, j);
    }
    r := head + notice + tail;
    GlueBytes(head, notice);
    assert (head + notice)[|head + notice| - 1] == notice[|notice| - 1];
    GlueBytes(head + notice, tail);
  }

  const ELLIPSIS: Text := [0x2026]

  /** Never more than the bound; the text itself when it fits, else its longest prefix that leaves room for `…`. */
  method TruncateUtf8(t: Text, maxBytes: int) returns (r: Text)
    ensures maxBytes >= 0 ==> ByteLength(r) <= maxBytes
    ensures ByteLength(t) <= maxBytes ==> r == t
    ensures ByteLength(t) > maxBytes && maxBytes <= 3 ==> r == []
    ensures ByteLength(t) > maxBytes && maxBytes > 3 ==> exists i: nat :: LongestPrefix(t, maxBytes - 3, i) && r == t[..i] + ELLIPSIS
  {
    if ByteLength(t) <= maxBytes {
      return t;
    }
    OnePoint(ELLIPSIS);
    if maxBytes <= ByteLength(ELLIPSIS) {
      return [];
    }
    var start := TakeUtf8Start(t, maxBytes - ByteLength(ELLIPSIS));
    r := start + ELLIPSIS;
    GlueBytes(start, ELLIPSIS);
  }

  // ----------------------------------------------------- bounded marker blocks

  datatype Block = Block(text: Text, marker: bool)

  function MarkerBytes(blocks: seq<Block>): nat {
    if blocks == [] then 0 else MarkerBytes(blocks[..|blocks| - 1]) + ByteLength(blocks[|blocks| - 1].text) + 1
  }

  /** Greedy selection in order: a marker is kept exactly when it still fits. */
  function Greedy(blocks: seq<Block>, limit: nat): seq<Block> {
    if blocks == [] then []
    else
      var kept := Greedy(blocks[..|blocks| - 1], limit);
      var last := blocks[|blocks| - 1];
      if last.marker && MarkerBytes(kept) + ByteLength(last.text) + 1 <= limit then kept + [last] else kept
  }

  /** Where the kept blocks come from: later and later blocks, all of them markers. */
  ghost predicate KeptAt(blocks: seq<Block>, kept: seq<Block>, at: seq<nat>) {
    && |at| == |kept|
    && (forall k :: 0 <= k < |at| ==> at[k] < |blocks| && kept[k] == blocks[at[k]] && kept[k].marker)
    && forall k, l :: 0 <= k < l < |at| ==> at[k] < at[l]
  }

  /** Block n does not fit after the first k kept blocks, which are the ones before it. */
  ghost predicate Overflows(blocks: seq<Block>, kept: seq<Block>, at: seq<nat>, limit: nat, n: nat, k: nat)
    requires n < |blocks| && k <= |kept| == |at|
  {
    && (forall l :: 0 <= l < |at| ==> (at[l] < n <==> l < k))
    && MarkerBytes(kept[..k]) + ByteLength(blocks[n].text) + 1 > limit
  }

  ghost predicate LeftOut(blocks: seq<Block>, kept: seq<Block>, at: seq<nat>, limit: nat, n: nat)
    requires n < |blocks| && |kept| == |at|
  {
    exists k :: 0 <= k <= |kept| && Overflows(blocks, kept, at, limit, n, k)
  }

  /** Of the first n blocks these were kept, and the markers among the others did not fit. */
  ghost predicate Chosen(blocks: seq<Block>, kept: seq<Block>, at: seq<nat>, limit: nat, n: nat) {
    && n <= |blocks| && KeptAt(blocks, kept, at)
    && (forall k :: 0 <= k < |at| ==> at[k] < n)
    && forall m :: 0 <= m < n && blocks[m].marker && m !in at ==> LeftOut(blocks, kept, at, limit, m)
  }

  /** Keeping a later block changes nothing about those left out before. */
  lemma StillLeftOut(blocks: seq<Block>, kept: seq<Block>, at: seq<nat>, limit: nat, n: nat, m: nat)
    requires n < m < |blocks| && |kept| == |at| && LeftOut(blocks, kept, at, limit, n)
    ensures LeftOut(blocks, kept + [blocks[m]], at + [m], limit, n)
  {
    hide ByteLength, MarkerBytes;
    var k :| 0 <= k <= |kept| && Overflows(blocks, kept, at, limit, n, k);
    assert (kept + [blocks[m]])[..k] == kept[..k];
    assert Overflows(blocks, kept + [blocks[m]], at + [m], limit, n, k);
  }

  lemma ChosenKept(blocks: seq<Block>, kept: seq<Block>, at: seq<nat>, limit: nat, n: nat)
    requires Chosen(blocks, kept, at, limit, n) && n < |blocks| && blocks[n].marker
    ensures Chosen(blocks, kept + [blocks[n]], at + [n], limit, n + 1)
  {
    hide LeftOut;
    forall m | 0 <= m < n + 1 && blocks[m].marker && m !in at + [n]
      ensures LeftOut(blocks, kept + [blocks[n]], at + [n], limit, m)
    {
      assert (at + [n])[|at|] == n;
      StillLeftOut(blocks, kept, at, limit, m, n);
    }
  }

  lemma ChosenSkipped(blocks: seq<Block>, kept: seq<Block>, at: seq<nat>, limit: nat, n: nat)
    requires Chosen(blocks, kept, at, limit, n) && n < |blocks|
    requires blocks[n].marker ==> MarkerBytes(kept) + ByteLength(blocks[n].text) + 1 > limit
    ensures Chosen(blocks, kept, at, limit, n + 1)
  {
    hide ByteLength, MarkerBytes;
    if blocks[n].marker {
      assert kept[..|kept|] == kept;
      assert Overflows(blocks, kept, at, limit, n, |kept|);
    }
  }

  /** Markers are kept in order within the limit, and one is left out only if it does not fit when its turn comes. */
  method BoundedSourceReferenceMarkers(blocks: seq<Block>, limit: nat) returns (kept: seq<Block>, ghost at: seq<nat>)
    ensures kept == Greedy(blocks, limit)
    ensures MarkerBytes(kept) <= limit
    ensures forall b :: b in kept ==> b in blocks && b.marker
    ensures KeptAt(blocks, kept, at)
    ensures forall n :: 0 <= n < |blocks| && blocks[n].marker && n !in at ==> LeftOut(blocks, kept, at, limit, n)
  {
    hide ByteLength, LeftOut, Chosen;
    kept, at := [], [];
    NothingChosen(blocks, limit);
    var remaining := limit;
    for n := 0 to |blocks|
      invariant kept == Greedy(blocks[..n], limit)
      invariant MarkerBytes(kept) + remaining == limit && remaining >= 0
      invariant Chosen(blocks, kept, at, limit, n)
    {
      assert blocks[..n + 1][..n] == blocks[..n];
      var bytes := ByteLength(blocks[n].text) + 1;
      if blocks[n].marker && bytes <= remaining {
        ChosenKept(blocks, kept, at, limit, n);
        remaining := remaining - bytes;
        assert (kept + [blocks[n]])[..|kept|] == kept;
        kept, at := kept + [blocks[n]], at + [n];
      } else {
        ChosenSkipped(blocks, kept, at, limit, n);
      }
    }
    assert blocks[..|blocks|] == blocks;
    AllChosen(blocks, kept, at, limit);
  }

  lemma NothingChosen(blocks: seq<Block>, limit: nat)
    ensures Chosen(blocks, [], [], limit, 0)
  {
  }

  lemma AllChosen(blocks: seq<Block>, kept: seq<Block>, at: seq<nat>, limit: nat)
    requires Chosen(blocks, kept, at, limit, |blocks|)
    ensures KeptAt(blocks, kept, at) && forall b :: b in kept ==> b in blocks && b.marker
    ensures forall n :: 0 <= n < |blocks| && blocks[n].marker && n !in at ==> LeftOut(blocks, kept, at, limit, n)
  {
    hide LeftOut;
  }
}
