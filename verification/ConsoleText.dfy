/**
  Collecting console arguments within a character budget
  (packages/browser-core/src/console-diagnostic-sanitizer.ts).
 */
module ConsoleText {

  const MAX_ARGUMENTS: nat := 50
  const MAX_ARGUMENT_CHARS: nat := 8 * 1024
  const MAX_AGGREGATE_CHARS: nat := 16 * 1024

  /** `parts.join(' ')`. */
  function Join(parts: seq<string>): string {
    if parts == [] then ""
    else if |parts| == 1 then parts[0]
    else Join(parts[..|parts| - 1]) + " " + parts[|parts| - 1]
  }

  function Cut(s: string, n: nat): (r: string)
    ensures r <= s && |r| == if |s| <= n then |s| else n
  {
    if |s| <= n then s else s[..n]
  }

  /** The arguments that may be shown, each within its own bound. */
  function Shown(values: seq<string>): (r: seq<string>)
    ensures |r| == if |values| < MAX_ARGUMENTS then |values| else MAX_ARGUMENTS
    ensures forall i :: 0 <= i < |r| ==> r[i] == Cut(values[i], MAX_ARGUMENT_CHARS)
  {
    seq(if |values| < MAX_ARGUMENTS then |values| else MAX_ARGUMENTS,
        i requires 0 <= i < |values| => Cut(values[i], MAX_ARGUMENT_CHARS))
  }

  function Separator(parts: seq<string>): string {
    if parts == [] then "" else " "
  }

  lemma JoinOneMore(parts: seq<string>, part: string)
    ensures Join(parts + [part]) == Join(parts) + Separator(parts) + part
  {
    if parts == [] {
      assert parts + [part] == [part];
    } else {
      assert (parts + [part])[..|parts|] == parts;
    }
  }

  lemma {:induction false} JoinPrefix(parts: seq<string>, n: nat)
    requires n <= |parts|
    ensures Join(parts[..n]) <= Join(parts)
  {
    if n == |parts| {
      assert parts[..n] == parts;
    } else {
      var front, last := parts[..|parts| - 1], parts[|parts| - 1];
      JoinPrefix(front, n);
      assert front[..n] == parts[..n] && front + [last] == parts;
      JoinOneMore(front, last);
    }
  }

  /** What the loop keeps: everything shown so far, or a prefix of it that uses the budget up. */
  ghost predicate Collected(parts: seq<string>, shown: seq<string>, remaining: nat) {
    && remaining + |Join(parts)| == MAX_AGGREGATE_CHARS
    && Join(parts) <= Join(shown)
    && (remaining > 0 ==> parts == shown)
  }

  /** One more argument, cut to the room left after its separator. */
  lemma CollectOne(parts: seq<string>, shown: seq<string>, remaining: nat, value: string)
    requires Collected(parts, shown, remaining) && remaining > |Separator(parts)|
    ensures var left := remaining - |Separator(parts)|;
            var room := if MAX_ARGUMENT_CHARS < left then MAX_ARGUMENT_CHARS else left;
            && |Cut(value, room)| <= left
            && Collected(parts + [Cut(value, room)], shown + [Cut(value, MAX_ARGUMENT_CHARS)], left - |Cut(value, room)|)
  {
    hide Join;
    var left := remaining - |Separator(parts)|;
    var room := if MAX_ARGUMENT_CHARS < left then MAX_ARGUMENT_CHARS else left;
    JoinOneMore(parts, Cut(value, room));
    JoinOneMore(shown, Cut(value, MAX_ARGUMENT_CHARS));
  }

  /**
    The collected text is the joined arguments cut off at the budget: a prefix of
    them, within 16 Ki characters, and all of them unless the budget is used up to
    the last character or the last separator.
   */
  method CollectBoundedConsoleArgumentText(values: seq<string>) returns (text: string)
    ensures text <= Join(Shown(values)) && |text| <= MAX_AGGREGATE_CHARS
    ensures text != Join(Shown(values)) ==> |text| >= MAX_AGGREGATE_CHARS - 1
  {
    hide Join, Cut;
    var parts: seq<string> := [];
    var remaining: int := MAX_AGGREGATE_CHARS;
    ghost var shown := Shown(values);
    JoinNone();
    for i := 0 to if |values| < MAX_ARGUMENTS then |values| else MAX_ARGUMENTS
      invariant |parts| == i && remaining >= 0 && Collected(parts, shown[..i], remaining)
    {
      JoinPrefix(shown, i);
      var separator := if parts != [] then 1 else 0;
      if remaining <= 0 || remaining <= separator {
        return Join(parts);
      }
      var room := if MAX_ARGUMENT_CHARS < remaining - separator then MAX_ARGUMENT_CHARS else remaining - separator;
      var bounded := Cut(values[i], room);
      CollectOne(parts, shown[..i], remaining, values[i]);
      assert shown[..i] + [shown[i]] == shown[..i + 1];
      parts := parts + [bounded];
      remaining := remaining - (separator + |bounded|);
    }
    assert shown[..|shown|] == shown;
    text := Join(parts);
  }

  lemma JoinNone()
    ensures Join([]) == ""
  {
  }
}
