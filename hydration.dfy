/** Hydration of the setup code: every match of the global regular expression
    `/=\s*"(.*?)"/g` in the original text names a file; each file that can be fetched
    replaces the first occurrence of that match's text in the current code by
    `= """<content>"""`, through `String.prototype.replace` with a string pattern. */
module Hydration {
  import opened Text

  /** The fetch oracle: the response body, or None when `fetch` or `text()` throws. */
  type Fetch = string -> Option<string>

  /** One match of the regular expression: the `=` at `start`, the opening quote at
      `open` and `end` just past the closing quote. */
  datatype Match = Match(start: nat, open: nat, end: nat)

  /** The lazy group `(.*?)` that starts at `from` ends before the quote at `close`:
      the first quote after `from`, with no line terminator on the way. */
  predicate ClosesAt(s: string, from: nat, close: nat) {
    && from <= close < |s|
    && s[close] == '"'
    && forall j :: from <= j < close ==> s[j] != '"' && !IsLineTerminator(s[j])
  }

  /** `m` is the match the expression finds when tried at position `m.start`:
      `=`, then white space (line breaks included), a quote, and the shortest run of
      characters other than line terminators up to the next quote. No identifier is
      needed before `=`, so the second `=` of `==` qualifies as well. */
  predicate IsMatch(s: string, m: Match) {
    && m.start < m.open < |s|
    && s[m.start] == '='
    && (forall k :: m.start < k < m.open ==> IsSpace(s[k]))
    && s[m.open] == '"'
    && m.open + 1 < m.end
    && ClosesAt(s, m.open + 1, m.end - 1)
  }

  /** `match[0]`, the whole matched text. */
  function FullText(s: string, m: Match): string {
    if m.start <= m.end <= |s| then s[m.start..m.end] else ""
  }

  /** `match[1]`, the quoted file path. */
  function PathText(s: string, m: Match): string {
    if m.open + 1 <= m.end - 1 <= |s| then s[m.open + 1..m.end - 1] else ""
  }

  /** At most one match starts at any position. */
  lemma {:induction false} MatchDeterminedByStart(s: string, m1: Match, m2: Match)
    requires IsMatch(s, m1) && IsMatch(s, m2) && m1.start == m2.start
    ensures m1 == m2
  {
  }

  function SkipSpaces(s: string, k: nat): (q: nat)
    requires k <= |s|
    decreases |s| - k
    ensures k <= q <= |s|
    ensures forall j :: k <= j < q ==> IsSpace(s[j])
    ensures q < |s| ==> !IsSpace(s[q])
  {
    if k < |s| && IsSpace(s[k]) then SkipSpaces(s, k + 1) else k
  }

  function FindClose(s: string, from: nat): (r: Option<nat>)
    requires from <= |s|
    decreases |s| - from
    ensures r.Some? ==> ClosesAt(s, from, r.value)
    ensures r.None? ==> forall c :: !ClosesAt(s, from, c)
  {
    if from == |s| then None
    else if s[from] == '"' then Some(from)
    else if IsLineTerminator(s[from]) then None
    else
      var r := FindClose(s, from + 1);
      assert forall c :: ClosesAt(s, from, c) ==> ClosesAt(s, from + 1, c);
      r
  }

  /** Tries the expression at position `i`. */
  function MatchAt(s: string, i: nat): (r: Option<Match>)
    ensures r.Some? ==> r.value.start == i && IsMatch(s, r.value)
    ensures r.None? ==> forall m: Match :: m.start == i ==> !IsMatch(s, m)
  {
    if i < |s| && s[i] == '=' then
      var q := SkipSpaces(s, i + 1);
      if q < |s| && s[q] == '"' then
        match FindClose(s, q + 1)
        case Some(c) => Some(Match(i, q, c + 1))
        case None =>
          assert forall m: Match :: m.start == i && IsMatch(s, m) ==> m.open == q;
          None
      else
        assert forall m: Match :: m.start == i && IsMatch(s, m) ==> m.open == q;
        None
    else None
  }

  /** No match starts in [lo, hi). */
  ghost predicate NoMatchIn(s: string, lo: nat, hi: nat) {
    forall m: Match :: lo <= m.start < hi ==> !IsMatch(s, m)
  }

  /** `ms` is what `matchAll` yields when the scan resumes at `from`: the leftmost
      match, then the scan resumes where that match ends, until no match is left. */
  ghost predicate ScanFrom(s: string, from: nat, ms: seq<Match>)
    decreases |ms|
  {
    if ms == [] then NoMatchIn(s, from, |s|)
    else
      && from <= ms[0].start
      && IsMatch(s, ms[0])
      && NoMatchIn(s, from, ms[0].start)
      && ScanFrom(s, ms[0].end, ms[1..])
  }

  /** The leftmost match starting at or after `from`. */
  function FindFrom(s: string, from: nat): (r: Option<Match>)
    requires from <= |s|
    decreases |s| - from
    ensures r.Some? ==> from <= r.value.start && IsMatch(s, r.value) && NoMatchIn(s, from, r.value.start)
    ensures r.None? ==> NoMatchIn(s, from, |s|)
  {
    if from == |s| then None
    else match MatchAt(s, from)
      case Some(m) => Some(m)
      case None => FindFrom(s, from + 1)
  }

  function AllMatchesFrom(s: string, from: nat): (ms: seq<Match>)
    requires from <= |s|
    decreases |s| - from
    ensures ScanFrom(s, from, ms)
    ensures forall k :: 0 <= k < |ms| ==> IsMatch(s, ms[k])
  {
    match FindFrom(s, from)
    case None => []
    case Some(m) => [m] + AllMatchesFrom(s, m.end)
  }

  /** `[...s.matchAll(/=\s*"(.*?)"/g)]`. */
  function Matches(s: string): (ms: seq<Match>)
    ensures forall k :: 0 <= k < |ms| ==> IsMatch(s, ms[k])
  {
    AllMatchesFrom(s, 0)
  }

  /** `Matches` lists what `matchAll` yields from the start of the text. */
  lemma MatchesScan(s: string)
    ensures ScanFrom(s, 0, Matches(s))
  {
  }

  /** The scan has exactly one outcome, so `Matches` is the list of matches. */
  lemma {:induction false} ScanUnique(s: string, from: nat, a: seq<Match>, b: seq<Match>)
    requires ScanFrom(s, from, a) && ScanFrom(s, from, b)
    ensures a == b
    decreases |a|
  {
    if a != [] && b != [] {
      MatchDeterminedByStart(s, a[0], b[0]);
      ScanUnique(s, a[0].end, a[1..], b[1..]);
      assert a == [a[0]] + a[1..] && b == [b[0]] + b[1..];
    }
  }

  /** A text without `=` holds no reference to hydrate. */
  lemma NoEqualsNoMatches(s: string)
    requires '=' !in s
    ensures Matches(s) == []
  {
  }

  /** GetSubstitution for a string pattern (no capture groups): in the replacement,
      `$$` gives `$`, `$&` the matched text, `` $` `` the text before the match,
      `$'` the text after it; any other `$` is literal. */
  function Expand(rep: string, matched: string, before: string, after: string): string
    decreases |rep|
  {
    if |rep| >= 2 && rep[0] == '$' && rep[1] == '$' then "$" + Expand(rep[2..], matched, before, after)
    else if |rep| >= 2 && rep[0] == '$' && rep[1] == '&' then matched + Expand(rep[2..], matched, before, after)
    else if |rep| >= 2 && rep[0] == '$' && rep[1] == '`' then before + Expand(rep[2..], matched, before, after)
    else if |rep| >= 2 && rep[0] == '$' && rep[1] == '\'' then after + Expand(rep[2..], matched, before, after)
    else if rep == [] then []
    else [rep[0]] + Expand(rep[1..], matched, before, after)
  }

  /** A replacement without `$` is inserted literally. */
  lemma {:induction false} ExpandLiteral(rep: string, matched: string, before: string, after: string)
    requires '$' !in rep
    ensures Expand(rep, matched, before, after) == rep
  {
    if rep != [] {
      assert rep[0] != '$';
      ExpandLiteral(rep[1..], matched, before, after);
    }
  }

  /** `s.replace(pat, rep)` with a string pattern: only the first occurrence is replaced. */
  function ReplaceFirst(s: string, pat: string, rep: string): string {
    match IndexOf(s, pat)
    case None => s
    case Some(k) => s[..k] + Expand(rep, pat, s[..k], s[k + |pat|..]) + s[k + |pat|..]
  }

  /** The replacement text of a fetched file: a triple-quoted Python literal. */
  function Literal(content: string): string {
    "= \"\"\"" + content + "\"\"\""
  }

  /** One iteration of the loop: a fetched file replaces the first occurrence of the
      match's text in the current code; a failed fetch keeps the code. */
  function Substitute(code: string, fullMatch: string, path: string, fetch: Fetch): string {
    match fetch(path)
    case None => code
    case Some(content) => ReplaceFirst(code, fullMatch, Literal(content))
  }

  /** The loop over the match list of `orig`, from the current `code`. */
  function SubstituteAll(orig: string, code: string, ms: seq<Match>, fetch: Fetch): string
    decreases |ms|
  {
    if ms == [] then code
    else SubstituteAll(orig, Substitute(code, FullText(orig, ms[0]), PathText(orig, ms[0]), fetch), ms[1..], fetch)
  }

  /** The hydrated setup code: the matches are computed once, on the original text. */
  function Hydrated(setup: string, fetch: Fetch): string {
    SubstituteAll(setup, setup, Matches(setup), fetch)
  }

  method Hydrate(setup: string, fetch: Fetch) returns (code: string)
    ensures code == Hydrated(setup, fetch)
  {
    code := setup;
    var matches := Matches(setup);
    ghost var hydrated := SubstituteAll(setup, setup, matches, fetch);
    for i := 0 to |matches|
      invariant hydrated == SubstituteAll(setup, code, matches[i..], fetch)
    {
      var fullMatch, filePath := FullText(setup, matches[i]), PathText(setup, matches[i]);
      SubstituteAllStep(setup, code, matches, i, fetch);
      ghost var next := Substitute(code, fullMatch, filePath, fetch);
      var content := fetch(filePath);
      if content.Some? {
        code := ReplaceFirst(code, fullMatch, Literal(content.value));
      }
      assert code == next;
    }
    assert matches[|matches|..] == [];
  }

  lemma SubstituteAllStep(orig: string, code: string, ms: seq<Match>, i: nat, fetch: Fetch)
    requires i < |ms|
    ensures SubstituteAll(orig, code, ms[i..], fetch)
         == SubstituteAll(orig, Substitute(code, FullText(orig, ms[i]), PathText(orig, ms[i]), fetch), ms[i + 1..], fetch)
  {
    assert ms[i..][0] == ms[i];
    assert ms[i..][1..] == ms[i + 1..];
  }

  lemma {:induction false} FailedFetchesKeepCode(orig: string, code: string, ms: seq<Match>, fetch: Fetch)
    requires forall k :: 0 <= k < |ms| ==> fetch(PathText(orig, ms[k])).None?
    ensures SubstituteAll(orig, code, ms, fetch) == code
    decreases |ms|
  {
    if ms != [] {
      FailedFetchesKeepCode(orig, code, ms[1..], fetch);
    }
  }

  /** When no referenced file can be fetched, in particular when the text has no
      match at all, the setup code runs exactly as written. */
  lemma UnfetchedSetupUnchanged(setup: string, fetch: Fetch)
    requires forall k :: 0 <= k < |Matches(setup)| ==> fetch(PathText(setup, Matches(setup)[k])).None?
    ensures Hydrated(setup, fetch) == setup
  {
    FailedFetchesKeepCode(setup, setup, Matches(setup), fetch);
  }

  /** A fetched file whose content has no `$` lands verbatim between triple quotes,
      in place of the first occurrence of the match's text, and nothing else changes. */
  lemma SubstituteVerbatim(code: string, fullMatch: string, path: string, fetch: Fetch, k: nat)
    requires fetch(path).Some? && '$' !in fetch(path).value
    requires OccursAt(code, fullMatch, k) && forall j :: 0 <= j < k ==> !OccursAt(code, fullMatch, j)
    ensures Substitute(code, fullMatch, path, fetch)
         == code[..k] + "= \"\"\"" + fetch(path).value + "\"\"\"" + code[k + |fullMatch|..]
  {
    var content := fetch(path).value;
    var rest := code[k + |fullMatch|..];
    assert IndexOf(code, fullMatch) == Some(k);
    LiteralExpands(content, fullMatch, code[..k], rest);
  }

  lemma LiteralExpands(content: string, matched: string, before: string, after: string)
    requires '$' !in content
    ensures Expand(Literal(content), matched, before, after) == Literal(content)
  {
    assert '$' !in "= \"\"\"" && '$' !in "\"\"\"";
    ExpandLiteral(Literal(content), matched, before, after);
  }

  /** If the match's text no longer occurs in the current code, the step changes nothing. */
  lemma SubstituteAbsent(code: string, fullMatch: string, path: string, fetch: Fetch)
    requires forall j :: !OccursAt(code, fullMatch, j)
    ensures Substitute(code, fullMatch, path, fetch) == code
  {
  }

  /** Setup code without `=` is run as written, whatever the fetches return. */
  lemma NoAssignmentUnchanged(setup: string, fetch: Fetch)
    requires '=' !in setup
    ensures Hydrated(setup, fetch) == setup
  {
    NoEqualsNoMatches(setup);
  }

  /** In `x=="f"` the first `=` is followed by `=`, not a quote, so the only match
      starts at the second `=`, and its path is `f`. */
  lemma ComparisonOperatorMatches()
    ensures var s := "x==\"f\"";
      && Matches(s) == [Match(2, 3, 6)]
      && FullText(s, Match(2, 3, 6)) == "=\"f\""
      && PathText(s, Match(2, 3, 6)) == "f"
  {
    var s := "x==\"f\"";
    assert MatchAt(s, 0) == None;
    assert MatchAt(s, 1) == None by {
      assert SkipSpaces(s, 2) == 2;
    }
    assert MatchAt(s, 2) == Some(Match(2, 3, 6)) by {
      assert SkipSpaces(s, 3) == 3;
      assert FindClose(s, 4) == Some(5) by {
        assert FindClose(s, 5) == Some(5);
      }
    }
    assert FindFrom(s, 0) == Some(Match(2, 3, 6)) by {
      assert FindFrom(s, 1) == FindFrom(s, 2);
    }
    assert AllMatchesFrom(s, 6) == [];
  }

  lemma ExampleMatches()
    ensures Matches("d=\"a\"") == [Match(1, 2, 5)]
  {
    var s := "d=\"a\"";
    assert MatchAt(s, 0) == None;
    assert MatchAt(s, 1) == Some(Match(1, 2, 5)) by {
      assert SkipSpaces(s, 2) == 2;
      assert FindClose(s, 3) == Some(4) by {
        assert FindClose(s, 4) == Some(4);
      }
    }
    assert AllMatchesFrom(s, 5) == [];
  }

  lemma ExampleSubstitution(fetch: Fetch)
    requires fetch("a") == Some("hi")
    ensures Substitute("d=\"a\"", "=\"a\"", "a", fetch) == "d= \"\"\"hi\"\"\""
  {
    var s, fm := "d=\"a\"", "=\"a\"";
    assert s[1..5] == fm;
    assert s[0..4][0] != fm[0];
    SubstituteVerbatim(s, fm, "a", fetch, 1);
    assert s[..1] + "= \"\"\"" + "hi" + "\"\"\"" + s[5..] == "d= \"\"\"hi\"\"\"";
  }

  /** `$`-free text at the front of a replacement passes through the expansion unchanged. */
  lemma {:induction false} ExpandLiteralPrefix(p: string, rest: string, matched: string, before: string, after: string)
    requires '$' !in p
    ensures Expand(p + rest, matched, before, after) == p + Expand(rest, matched, before, after)
  {
    if p != [] {
      assert (p + rest)[0] == p[0] != '$';
      assert (p + rest)[1..] == p[1..] + rest;
      ExpandLiteralPrefix(p[1..], rest, matched, before, after);
      assert p == [p[0]] + p[1..];
    } else {
      assert p + rest == rest;
    }
  }

  /** Fetched content is not inserted verbatim: `replace` expands `$&` in it into the
      matched text, so a file holding `$&` turns `d="a"` into `d= """="a""""`. */
  lemma DollarContentExpands(fetch: Fetch)
    requires fetch("a") == Some("$&")
    ensures Substitute("d=\"a\"", "=\"a\"", "a", fetch) == "d= \"\"\"=\"a\"\"\"\""
  {
    var s, fm := "d=\"a\"", "=\"a\"";
    assert s[1..5] == fm;
    assert s[0..4][0] != fm[0];
    assert IndexOf(s, fm) == Some(1);
    var tail := "\"\"\"";
    ExpandLiteral(tail, fm, s[..1], s[5..]);
    assert Expand("$&" + tail, fm, s[..1], s[5..]) == fm + tail by {
      assert ("$&" + tail)[2..] == tail;
    }
    assert Literal("$&") == "= \"\"\"" + ("$&" + tail);
    ExpandLiteralPrefix("= \"\"\"", "$&" + tail, fm, s[..1], s[5..]);
    assert s[..1] + ("= \"\"\"" + (fm + tail)) + s[5..] == "d= \"\"\"=\"a\"\"\"\"";
  }

  /** `d="a"` with `a` fetched as `hi` becomes `d= """hi"""`. */
  lemma HydrationExample(fetch: Fetch)
    requires fetch("a") == Some("hi")
    ensures Hydrated("d=\"a\"", fetch) == "d= \"\"\"hi\"\"\""
  {
    var s, m := "d=\"a\"", Match(1, 2, 5);
    ExampleMatches();
    ExampleSubstitution(fetch);
    assert FullText(s, m) == "=\"a\"" && PathText(s, m) == "a";
    assert [m][1..] == [];
  }
}
