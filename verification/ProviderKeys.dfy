/**
  Keys for migrated providers: slugs and the search for a free suffix
  (packages/config/src/byok-config.ts).
 */
module ProviderKeys {
  import opened Wrappers

  const RESERVED_KEYS: set<string> := {"minimax", "minimax_api", "provider", "custom_provider"}

  // ----------------------------------------------------------------------- slugs

  /** White space and line terminators of ECMAScript. */
  predicate White(c: char) {
    || c in {' ', '\t', '\n', '\r', '\U{0B}', '\U{0C}', '\U{A0}', '\U{1680}', '\U{2028}', '\U{2029}', '\U{202F}', '\U{205F}', '\U{3000}', '\U{FEFF}'}
    || '\U{2000}' <= c <= '\U{200A}'
  }

  function TrimStart(s: string): string {
    if s != "" && White(s[0]) then TrimStart(s[1..]) else s
  }

  function TrimEnd(s: string): string {
    if s != "" && White(s[|s| - 1]) then TrimEnd(s[..|s| - 1]) else s
  }

  function Trim(s: string): string {
    TrimEnd(TrimStart(s))
  }

  predicate Simple(c: char) {
    'A' <= c <= 'Z' || 'a' <= c <= 'z' || '0' <= c <= '9' || c == ' ' || c == '_' || c == '-'
  }

  function Lower(c: char): char {
    if 'A' <= c <= 'Z' then (c as int + 32) as char else c
  }

  /** Lower case, with every run of spaces, underscores and hyphens made one hyphen. */
  function Hyphenated(s: string, inRun: bool): string {
    if s == "" then ""
    else if s[0] == ' ' || s[0] == '_' || s[0] == '-' then (if inRun then "" else "-") + Hyphenated(s[1..], true)
    else [Lower(s[0])] + Hyphenated(s[1..], false)
  }

  function StripStart(s: string): string {
    if s != "" && s[0] == '-' then StripStart(s[1..]) else s
  }

  function StripEnd(s: string): string {
    if s != "" && s[|s| - 1] == '-' then StripEnd(s[..|s| - 1]) else s
  }

  function Slugify(value: string): Option<string> {
    var trimmed := Trim(value);
    if trimmed == "" || exists i :: 0 <= i < |trimmed| && !Simple(trimmed[i]) then None
    else
      var slug := StripEnd(StripStart(Hyphenated(trimmed, false)));
      if slug == "" then None else Some(slug)
  }

  predicate SlugChar(c: char) {
    'a' <= c <= 'z' || '0' <= c <= '9' || c == '-'
  }

  predicate Hyphenless(s: string) {
    forall i :: 0 <= i < |s| ==> SlugChar(s[i]) && (i > 0 ==> s[i - 1] != '-' || s[i] != '-')
  }

  /** Lower-case letters and digits in words joined by single hyphens. */
  predicate CleanSlug(s: string) {
    s != "" && s[0] != '-' && s[|s| - 1] != '-' && Hyphenless(s)
  }

  lemma {:induction false} HyphenatedIsClean(s: string, inRun: bool)
    requires forall i :: 0 <= i < |s| ==> Simple(s[i])
    ensures Hyphenless(Hyphenated(s, inRun))
    ensures inRun && Hyphenated(s, inRun) != "" ==> Hyphenated(s, inRun)[0] != '-'
  {
    if s != "" {
      HyphenatedIsClean(s[1..], s[0] == ' ' || s[0] == '_' || s[0] == '-');
    }
  }

  lemma {:induction false} StripsAreClean(s: string)
    requires Hyphenless(s)
    ensures Hyphenless(StripStart(s)) && Hyphenless(StripEnd(s))
    ensures StripStart(s) != "" ==> StripStart(s)[0] != '-'
    ensures StripEnd(s) != "" ==> StripEnd(s)[0] == s[0] && StripEnd(s)[|StripEnd(s)| - 1] != '-'
  {
    if s != "" && s[0] == '-' {
      StripsAreClean(s[1..]);
    }
    if s != "" && s[|s| - 1] == '-' {
      StripsAreClean(s[..|s| - 1]);
    }
  }

  lemma SlugsAreClean(value: string)
    ensures Slugify(value).Some? ==> CleanSlug(Slugify(value).value)
  {
    if Slugify(value).Some? {
      HyphenatedIsClean(Trim(value), false);
      StripsAreClean(Hyphenated(Trim(value), false));
      StripsAreClean(StripStart(Hyphenated(Trim(value), false)));
    }
  }

  predicate Separator(c: char) {
    c == ' ' || c == '_' || c == '-'
  }

  /** The words between separators, in lower case. */
  function Words(s: string): (words: seq<string>)
    ensures s != "" && !Separator(s[0]) ==> words != []
  {
    if s == "" then []
    else if Separator(s[0]) then Words(s[1..])
    else if |s| == 1 || Separator(s[1]) then [[Lower(s[0])]] + Words(s[1..])
    else
      var rest := Words(s[1..]);
      [[Lower(s[0])] + rest[0]] + rest[1..]
  }

  function JoinHyphens(words: seq<string>): string {
    if words == [] then ""
    else if |words| == 1 then words[0]
    else words[0] + "-" + JoinHyphens(words[1..])
  }

  /** The joined words, with a hyphen for separators after the last. */
  function Trailed(s: string): string {
    JoinHyphens(Words(s)) + if Words(s) != [] && Separator(s[|s| - 1]) then "-" else ""
  }

  lemma LastLetter(s: string)
    requires |s| == 1 && !Separator(s[0])
    ensures Trailed(s) == [Lower(s[0])]
  {
    assert s[1..] == "";
    assert Words(s) == [[Lower(s[0])]];
  }

  lemma LetterBeforeSeparator(s: string)
    requires |s| > 1 && !Separator(s[0]) && Separator(s[1])
    ensures Trailed(s) == [Lower(s[0])] + "-" + Trailed(s[1..])
  {
    var rest := Words(s[1..]);
    assert s[1..][|s[1..]| - 1] == s[|s| - 1];
    assert Words(s) == [[Lower(s[0])]] + rest && Words(s)[1..] == rest;
    if rest == [] {
      NoWords(s[1..]);
    }
  }

  lemma LetterBeforeLetter(s: string)
    requires |s| > 1 && !Separator(s[0]) && !Separator(s[1])
    ensures Trailed(s) == [Lower(s[0])] + Trailed(s[1..])
  {
    assert s[1..][|s[1..]| - 1] == s[|s| - 1];
    var rest := Words(s[1..]);
    var words := Words(s);
    assert words == [[Lower(s[0])] + rest[0]] + rest[1..];
    assert words[1..] == rest[1..] && words[0] == [Lower(s[0])] + rest[0];
    assert JoinHyphens(words) == [Lower(s[0])] + JoinHyphens(rest);
  }

  lemma {:induction false} NoWords(s: string)
    requires s != "" && Words(s) == []
    ensures Separator(s[|s| - 1])
  {
    if |s| > 1 {
      assert Separator(s[0]);
      NoWords(s[1..]);
      assert s[1..][|s[1..]| - 1] == s[|s| - 1];
    }
  }

  lemma {:induction false} HyphenatedJoins(s: string)
    ensures Hyphenated(s, true) == Trailed(s)
    ensures Hyphenated(s, false) == (if s != "" && Separator(s[0]) then "-" else "") + Trailed(s)
  {
    hide Trailed;
    if s == "" {
      NothingTrailed();
    } else {
      HyphenatedJoins(s[1..]);
      if Separator(s[0]) {
        SeparatorsLead(s);
      } else if |s| == 1 {
        LastLetter(s);
        NothingTrailed();
      } else if Separator(s[1]) {
        LetterBeforeSeparator(s);
      } else {
        LetterBeforeLetter(s);
      }
    }
  }

  lemma NothingTrailed()
    ensures Trailed("") == ""
  {
  }

  lemma NothingJoined(s: string)
    requires Words(s) == []
    ensures Trailed(s) == ""
  {
  }

  lemma SeparatorsLead(s: string)
    requires s != "" && Separator(s[0])
    ensures Trailed(s) == Trailed(s[1..])
  {
    if |s| > 1 {
      assert s[1..][|s[1..]| - 1] == s[|s| - 1];
    }
  }

  /** Words hold no separators, and joined they begin and end with a letter or digit. */
  lemma {:induction false} WordsAreClean(s: string)
    requires forall i :: 0 <= i < |s| ==> Simple(s[i])
    ensures forall w :: w in Words(s) ==> w != "" && forall i :: 0 <= i < |w| ==> w[i] != '-'
  {
    if s != "" {
      WordsAreClean(s[1..]);
    }
  }

  lemma {:induction false} JoinedEnds(words: seq<string>)
    requires forall w :: w in words ==> w != "" && forall i :: 0 <= i < |w| ==> w[i] != '-'
    ensures words != [] ==> JoinHyphens(words) != "" && JoinHyphens(words)[0] != '-' && JoinHyphens(words)[|JoinHyphens(words)| - 1] != '-'
    ensures words == [] ==> JoinHyphens(words) == ""
  {
    if |words| > 1 {
      JoinedEnds(words[1..]);
      assert words[0] in words;
    }
  }

  lemma StripsEnds(t: string, lead: bool, trail: bool)
    requires t != "" && t[0] != '-' && t[|t| - 1] != '-'
    ensures StripEnd(StripStart((if lead then "-" else "") + t + (if trail then "-" else ""))) == t
  {
    var u := t + (if trail then "-" else "");
    assert ((if lead then "-" else "") + u)[if lead then 1 else 0..] == u;
    assert StripStart(u) == u;
    assert (if lead then "-" else "") + t + (if trail then "-" else "") == (if lead then "-" else "") + u;
    if trail {
      assert u[..|u| - 1] == t;
    } else {
      assert u == t;
    }
  }

  lemma StripsHyphen()
    ensures StripEnd(StripStart("-")) == "" && StripEnd(StripStart("")) == ""
  {
    assert "-"[1..] == "";
  }

  /**
    A slug is the words of the text in lower case, joined by hyphens; there is none
    when the text has no word, or anything but letters, digits and separators inside.
   */
  lemma SlugJoinsWords(value: string)
    ensures var t := Trim(value);
            Slugify(value) == if Words(t) == [] || exists i :: 0 <= i < |t| && !Simple(t[i]) then None else Some(JoinHyphens(Words(t)))
  {
    hide Hyphenated, StripEnd, StripStart;
    var t := Trim(value);
    if t != "" && !(exists i :: 0 <= i < |t| && !Simple(t[i])) {
      HyphenatedJoins(t);
      WordsAreClean(t);
      JoinedEnds(Words(t));
      if Words(t) == [] {
        NothingJoined(t);
        assert "-" + "" == "-";
        StripsHyphen();
      } else {
        var lead, trail := if Separator(t[0]) then "-" else "", if Separator(t[|t| - 1]) then "-" else "";
        assert lead + (JoinHyphens(Words(t)) + trail) == lead + JoinHyphens(Words(t)) + trail;
        StripsEnds(JoinHyphens(Words(t)), Separator(t[0]), Separator(t[|t| - 1]));
      }
    }
  }

  /** Trimming takes white space off both ends and nothing else. */
  lemma {:induction false} TrimStartExactly(s: string) returns (n: nat)
    ensures n <= |s| && TrimStart(s) == s[n..] && (forall i :: 0 <= i < n ==> White(s[i])) && (n < |s| ==> !White(s[n]))
  {
    n := 0;
    if s != "" && White(s[0]) {
      var m := TrimStartExactly(s[1..]);
      n := m + 1;
    }
  }

  lemma {:induction false} TrimEndExactly(s: string) returns (n: nat)
    ensures n <= |s| && TrimEnd(s) == s[..n] && (forall i :: n <= i < |s| ==> White(s[i])) && (n > 0 ==> !White(s[n - 1]))
  {
    n := |s|;
    if s != "" && White(s[|s| - 1]) {
      n := TrimEndExactly(s[..|s| - 1]);
    }
  }

  lemma TrimTakesWhite(s: string) returns (n: nat, m: nat)
    ensures n <= m <= |s| && Trim(s) == s[n..m] && (forall i :: 0 <= i < n || m <= i < |s| ==> White(s[i]))
  {
    n := TrimStartExactly(s);
    var k := TrimEndExactly(s[n..]);
    m := n + k;
    assert s[n..][..k] == s[n..m];
    assert forall i :: m <= i < |s| ==> s[i] == s[n..][i - n];
  }

  lemma {:induction false} WhiteTrims(s: string)
    requires forall i :: 0 <= i < |s| ==> White(s[i])
    ensures TrimStart(s) == ""
  {
    if s != "" {
      WhiteTrims(s[1..]);
    }
  }

  /** A text is blank exactly when it is all white space. */
  lemma TrimIsBlank(s: string)
    ensures Trim(s) == "" <==> forall i :: 0 <= i < |s| ==> White(s[i])
  {
    var n, m := TrimTakesWhite(s);
    if forall i :: 0 <= i < |s| ==> White(s[i]) {
      WhiteTrims(s);
    }
  }

  // -------------------------------------------------------------------- candidates

  function Decimal(n: nat): string {
    if n < 10 then [('0' as int + n) as char] else Decimal(n / 10) + [('0' as int + n % 10) as char]
  }

  function Parsed(s: string): int {
    if s == "" then 0 else 10 * Parsed(s[..|s| - 1]) + (s[|s| - 1] as int - '0' as int)
  }

  lemma {:induction false} DecimalParses(n: nat)
    ensures Parsed(Decimal(n)) == n
  {
    if n >= 10 {
      DecimalParses(n / 10);
      assert Decimal(n)[..|Decimal(n)| - 1] == Decimal(n / 10);
    } else {
      assert Decimal(n)[..0] == "";
    }
  }

  /** base, base-2, base-3, ... */
  function Candidate(base: string, suffix: nat): string {
    if suffix == 0 then base else base + "-" + Decimal(suffix + 1)
  }

  /** The first candidate is the base itself, the next is numbered 2, and so on. */
  lemma CandidateNumbers(base: string, suffix: nat)
    ensures suffix == 0 ==> Candidate(base, suffix) == base
    ensures suffix > 0 ==> base + "-" <= Candidate(base, suffix) && Parsed(Candidate(base, suffix)[|base| + 1..]) == suffix + 1
  {
    if suffix > 0 {
      DecimalParses(suffix + 1);
      assert Candidate(base, suffix)[|base| + 1..] == Decimal(suffix + 1);
    }
  }

  lemma CandidatesDiffer(base: string, i: nat, j: nat)
    requires i != j
    ensures Candidate(base, i) != Candidate(base, j)
  {
    if i > 0 && j > 0 && Candidate(base, i) == Candidate(base, j) {
      assert Candidate(base, i)[|base| + 1..] == Decimal(i + 1);
      assert Candidate(base, j)[|base| + 1..] == Decimal(j + 1);
      DecimalParses(i + 1);
      DecimalParses(j + 1);
    }
  }

  ghost function FirstCandidates(base: string, n: nat): set<string> {
    if n == 0 then {} else FirstCandidates(base, n - 1) + {Candidate(base, n - 1)}
  }

  lemma {:induction false} FirstCandidatesCount(base: string, n: nat)
    ensures |FirstCandidates(base, n)| == n
    ensures forall c :: c in FirstCandidates(base, n) ==> exists i: nat :: i < n && c == Candidate(base, i)
  {
    hide Candidate;
    if n > 0 {
      FirstCandidatesCount(base, n - 1);
      if Candidate(base, n - 1) in FirstCandidates(base, n - 1) {
        var i: nat :| i < n - 1 && Candidate(base, n - 1) == Candidate(base, i);
        CandidatesDiffer(base, i, n - 1);
      }
    }
  }

  lemma SubsetCount(a: set<string>, b: set<string>)
    requires a <= b
    ensures |a| <= |b|
  {
    if a != {} {
      var x :| x in a;
      SubsetCount(a - {x}, b - {x});
    }
  }

  /** More candidates than keys in use cannot all be in use. */
  lemma OneIsFree(base: string, used: set<string>, n: nat)
    requires forall i: nat :: i < n ==> Candidate(base, i) in used
    ensures n <= |used|
  {
    FirstCandidatesCount(base, n);
    assert FirstCandidates(base, n) <= used;
    SubsetCount(FirstCandidates(base, n), used);
  }

  /** The number of the first candidate not in use. */
  ghost predicate FirstFree(base: string, used: set<string>, n: nat) {
    Candidate(base, n) !in used && forall i: nat :: i < n ==> Candidate(base, i) in used
  }

  function FreeFrom(base: string, used: set<string>, from: nat): (n: nat)
    requires forall i: nat :: i < from ==> Candidate(base, i) in used
    ensures FirstFree(base, used, n)
    decreases |used| + 1 - from
  {
    OneIsFree(base, used, from);
    if Candidate(base, from) !in used then from else
      OneIsFree(base, used, from + 1);
      FreeFrom(base, used, from + 1)
  }

  function FreeKey(base: string, used: set<string>): (key: string)
    ensures key !in used && exists n: nat :: FirstFree(base, used, n) && key == Candidate(base, n)
  {
    Candidate(base, FreeFrom(base, used, 0))
  }

  /** The unbounded search always ends, with the first key neither in use nor reserved. */
  method GenerateKey(base: string, existingKeys: set<string>) returns (key: string)
    ensures key !in existingKeys && key !in RESERVED_KEYS
    ensures key == FreeKey(base, existingKeys + RESERVED_KEYS)
  {
    ghost var used := existingKeys + RESERVED_KEYS;
    var suffix := 0;
    OneIsFree(base, used, 0);
    while true
      invariant suffix <= |used| && forall i: nat :: i < suffix ==> Candidate(base, i) in used
      decreases |used| - suffix
    {
      key := Candidate(base, suffix);
      if key !in existingKeys && key !in RESERVED_KEYS {
        FirstFreeIsUnique(base, used, suffix, FreeFrom(base, used, 0));
        return;
      }
      OneIsFree(base, used, suffix + 1);
      suffix := suffix + 1;
    }
  }

  lemma FirstFreeIsUnique(base: string, used: set<string>, m: nat, n: nat)
    requires FirstFree(base, used, m) && FirstFree(base, used, n)
    ensures m == n
  {
  }

  /** Generated keys never hold a slash: they cannot be mistaken for a model reference. */
  lemma CandidatesHaveNoSlash(base: string, suffix: nat)
    requires '/' !in base
    ensures '/' !in Candidate(base, suffix)
  {
    DecimalHasNoSlash(suffix + 1);
  }

  lemma {:induction false} DecimalHasNoSlash(n: nat)
    ensures '/' !in Decimal(n)
  {
    if n >= 10 {
      DecimalHasNoSlash(n / 10);
    }
  }
}
