/** The comparison step of the run: `normalize = str => str.replace(/\r\n/g, '\n').trim()`. */
module Comparison {
  import opened Text

  /** `s.replace(/\r\n/g, '\n')`: a left-to-right scan that turns each
      non-overlapping CR LF pair into a single LF. */
  function ReplaceCrlf(s: string): (r: string)
    ensures |r| <= |s|
  {
    if |s| >= 2 && s[0] == '\r' && s[1] == '\n' then "\n" + ReplaceCrlf(s[2..])
    else if s == [] then []
    else [s[0]] + ReplaceCrlf(s[1..])
  }

  /** The text with every CR removed: what line-ending conversion must preserve. */
  function DropCr(s: string): (r: string)
    ensures |r| <= |s|
    ensures '\r' !in r
  {
    if s == [] then []
    else if s[0] == '\r' then DropCr(s[1..])
    else [s[0]] + DropCr(s[1..])
  }

  lemma DropCrAppend(a: string, b: string)
    ensures DropCr(a + b) == DropCr(a) + DropCr(b)
  {
    if a == [] {
      assert a + b == b;
    } else {
      assert (a + b)[0] == a[0];
      assert (a + b)[1..] == a[1..] + b;
      DropCrAppend(a[1..], b);
    }
  }

  /** Converting line endings only deletes CRs: every other character, LF included,
      survives in order. A corollary of `ReplaceCrlfDropsPairedCr`. */
  lemma ReplaceCrlfOnlyDropsCr(s: string)
    ensures DropCr(ReplaceCrlf(s)) == DropCr(s)
  {
    ReplaceCrlfDropsPairedCr(s);
    DropCrKeepCr(s);
  }

  /** Deleting some CRs and then all of them is deleting all of them. */
  lemma {:induction false} DropCrKeepCr(s: string)
    ensures DropCr(KeepCr(s)) == DropCr(s)
  {
    if s != [] {
      var head := if PairedCr(s, 0) then [] else [s[0]];
      DropCrKeepCr(s[1..]);
      DropCrAppend(head, KeepCr(s[1..]));
      assert DropCr(head) + DropCr(s[1..]) == DropCr(s);
    }
  }

  /** A text with no CR is left as it is. */
  lemma {:induction false} ReplaceCrlfWithoutCr(s: string)
    requires '\r' !in s
    ensures ReplaceCrlf(s) == s
  {
    if s != [] {
      assert s[0] != '\r';
      ReplaceCrlfWithoutCr(s[1..]);
    }
  }

  /** The scan can be split at any point that does not cut a CR LF pair. */
  lemma {:induction false} ReplaceCrlfAppend(a: string, b: string)
    requires !(a != [] && a[|a| - 1] == '\r' && b != [] && b[0] == '\n')
    ensures ReplaceCrlf(a + b) == ReplaceCrlf(a) + ReplaceCrlf(b)
  {
    if a == [] {
      assert a + b == b;
    } else if |a| >= 2 && a[0] == '\r' && a[1] == '\n' {
      ReplaceCrlfAppend(a[2..], b);
      assert a == "\r\n" + a[2..];
      ReplaceCrlfPairStep(a[2..], b);
    } else if |a| == 1 {
      ReplaceCrlfLastStep(a, b);
    } else {
      ReplaceCrlfAppend(a[1..], b);
      assert a == [a[0]] + a[1..];
      ReplaceCrlfCharStep(a[0], a[1..], b);
    }
  }

  lemma ReplaceCrlfPairStep(t: string, b: string)
    requires ReplaceCrlf(t + b) == ReplaceCrlf(t) + ReplaceCrlf(b)
    ensures ReplaceCrlf("\r\n" + t + b) == ReplaceCrlf("\r\n" + t) + ReplaceCrlf(b)
  {
    ConcatAssoc("\r\n", t, b);
    ReplaceCrlfPairHead(t + b);
    ReplaceCrlfPairHead(t);
    ConcatAssoc("\n", ReplaceCrlf(t), ReplaceCrlf(b));
  }

  lemma ConcatAssoc(x: string, y: string, z: string)
    ensures x + (y + z) == (x + y) + z
  {
  }

  lemma ReplaceCrlfLastStep(a: string, b: string)
    requires |a| == 1 && !(a[0] == '\r' && b != [] && b[0] == '\n')
    ensures ReplaceCrlf(a + b) == ReplaceCrlf(a) + ReplaceCrlf(b)
  {
    assert a == [a[0]] + [];
    ReplaceCrlfCharHead(a[0], []);
    ReplaceCrlfCharHead(a[0], b);
  }

  lemma ReplaceCrlfCharStep(c: char, t: string, b: string)
    requires t != [] && !(c == '\r' && t[0] == '\n')
    requires ReplaceCrlf(t + b) == ReplaceCrlf(t) + ReplaceCrlf(b)
    ensures ReplaceCrlf([c] + t + b) == ReplaceCrlf([c] + t) + ReplaceCrlf(b)
  {
    ConcatAssoc([c], t, b);
    assert (t + b)[0] == t[0];
    ReplaceCrlfCharHead(c, t + b);
    ReplaceCrlfCharHead(c, t);
    ConcatAssoc([c], ReplaceCrlf(t), ReplaceCrlf(b));
  }

  lemma ReplaceCrlfPairHead(t: string)
    ensures ReplaceCrlf("\r\n" + t) == "\n" + ReplaceCrlf(t)
  {
    assert ("\r\n" + t)[2..] == t;
  }

  lemma ReplaceCrlfCharHead(c: char, t: string)
    requires !(c == '\r' && t != [] && t[0] == '\n')
    ensures ReplaceCrlf([c] + t) == [c] + ReplaceCrlf(t)
  {
    assert ([c] + t)[1..] == t;
  }

  /** The character at `k` is a CR standing directly before an LF. */
  predicate PairedCr(s: string, k: nat) {
    k + 1 < |s| && s[k] == '\r' && s[k + 1] == '\n'
  }

  /** Character by character, independent of how the scan pairs characters: a CR is
      deleted exactly when an LF follows it, every other character is kept. */
  function KeepCr(s: string): string {
    if s == [] then []
    else (if PairedCr(s, 0) then [] else [s[0]]) + KeepCr(s[1..])
  }

  /** The CR LF pairs of the left-to-right scan never overlap, so the scan deletes
      exactly the CRs directly before an LF and nothing else. */
  lemma {:induction false} ReplaceCrlfDropsPairedCr(s: string)
    ensures ReplaceCrlf(s) == KeepCr(s)
  {
    if |s| >= 2 && s[0] == '\r' && s[1] == '\n' {
      ReplaceCrlfDropsPairedCr(s[2..]);
      assert s[1..][1..] == s[2..];
      assert !PairedCr(s[1..], 0);
      assert KeepCr(s[1..]) == "\n" + KeepCr(s[2..]);
    } else if s != [] {
      ReplaceCrlfDropsPairedCr(s[1..]);
      assert !PairedCr(s, 0);
    }
  }

  /** A CR that no LF follows survives the conversion, and the text on either side
      of it is converted on its own. */
  lemma ReplaceCrlfKeepsLoneCr(a: string, b: string)
    requires b == [] || b[0] != '\n'
    ensures ReplaceCrlf(a + "\r" + b) == ReplaceCrlf(a) + "\r" + ReplaceCrlf(b)
  {
    assert ("\r" + b)[0] == '\r';
    ReplaceCrlfAppend(a, "\r" + b);
    ConcatAssoc(a, "\r", b);
    ReplaceCrlfCharHead('\r', b);
    ConcatAssoc(ReplaceCrlf(a), "\r", ReplaceCrlf(b));
  }

  function TrimStart(s: string): (r: string)
    ensures |r| <= |s| && r == s[|s| - |r|..]
    ensures AllSpace(s[..|s| - |r|])
    ensures r != [] ==> !IsSpace(r[0])
  {
    if s != [] && IsSpace(s[0]) then TrimStart(s[1..]) else s
  }

  function TrimEnd(s: string): (r: string)
    ensures |r| <= |s| && r == s[..|r|]
    ensures AllSpace(s[|r|..])
    ensures r != [] ==> !IsSpace(r[|r| - 1])
  {
    if s != [] && IsSpace(s[|s| - 1]) then TrimEnd(s[..|s| - 1]) else s
  }

  /** `String.prototype.trim`. */
  function Trim(s: string): (r: string)
    ensures r != [] ==> !IsSpace(r[0]) && !IsSpace(r[|r| - 1])
  {
    TrimEnd(TrimStart(s))
  }

  lemma {:induction false} TrimStartUnique(s: string, lead: string, rest: string)
    requires s == lead + rest && AllSpace(lead)
    requires rest != [] ==> !IsSpace(rest[0])
    ensures TrimStart(s) == rest
  {
    if lead == [] {
      assert s == rest;
    } else {
      assert s[0] == lead[0];
      assert s[1..] == lead[1..] + rest;
      TrimStartUnique(s[1..], lead[1..], rest);
    }
  }

  lemma {:induction false} TrimEndUnique(s: string, rest: string, trail: string)
    requires s == rest + trail && AllSpace(trail)
    requires rest != [] ==> !IsSpace(rest[|rest| - 1])
    ensures TrimEnd(s) == rest
  {
    if trail == [] {
      assert s == rest;
    } else {
      var t := trail[..|trail| - 1];
      assert s[|s| - 1] == trail[|trail| - 1];
      assert s[..|s| - 1] == rest + t;
      TrimEndUnique(s[..|s| - 1], rest, t);
    }
  }

  /** Trim is fully determined: whatever splits `s` into white space, a core with
      no white space at either end, and white space, the core is `Trim(s)`. */
  lemma TrimUnique(s: string, lead: string, core: string, trail: string)
    requires s == lead + core + trail
    requires AllSpace(lead) && AllSpace(trail)
    requires core != [] ==> !IsSpace(core[0]) && !IsSpace(core[|core| - 1])
    ensures Trim(s) == core
  {
    if core == [] {
      assert s == lead + trail;
      assert AllSpace(s) by {
        forall k | 0 <= k < |s| ensures IsSpace(s[k]) {
          if k < |lead| { assert s[k] == lead[k]; } else { assert s[k] == trail[k - |lead|]; }
        }
      }
      TrimStartUnique(s, s, []);
      TrimEndUnique([], [], []);
    } else {
      assert s == lead + (core + trail);
      TrimStartUnique(s, lead, core + trail);
      TrimEndUnique(core + trail, core, trail);
    }
  }

  /** `normalize`: line endings first, then surrounding white space. */
  function Normalize(s: string): (r: string)
    ensures r != [] ==> !IsSpace(r[0]) && !IsSpace(r[|r| - 1])
  {
    Trim(ReplaceCrlf(s))
  }

  /** Every CR LF that does not follow a CR compares equal to a bare LF. */
  lemma CrlfEquivalentToLf(a: string, b: string)
    requires a == [] || a[|a| - 1] != '\r'
    ensures Normalize(a + "\r\n" + b) == Normalize(a + "\n" + b)
  {
    ConcatAssoc(a, "\r\n", b);
    ConcatAssoc(a, "\n", b);
    ReplaceCrlfAppend(a, "\r\n" + b);
    ReplaceCrlfAppend(a, "\n" + b);
    ReplaceCrlfPairHead(b);
    ReplaceCrlfCharHead('\n', b);
  }

  lemma ConvertCrCrLf()
    ensures ReplaceCrlf("a\r\r\nb") == "a\r\nb"
  {
    var x, y := "a\r", "\r\nb";
    ReplaceCrlfAppend(x, y);
    assert x + y == "a\r\r\nb";
    assert ReplaceCrlf(x) == x by {
      ReplaceCrlfWithoutCr("a");
      ReplaceCrlfAppend("a", "\r");
      assert "a" + "\r" == x;
    }
    assert ReplaceCrlf(y) == "\nb" by {
      assert y[2..] == "b";
      ReplaceCrlfWithoutCr("b");
    }
  }

  lemma ConvertCrLf()
    ensures ReplaceCrlf("a\r\nb") == "a\nb"
  {
    var x, y := "a", "\r\nb";
    ReplaceCrlfAppend(x, y);
    assert x + y == "a\r\nb";
    ReplaceCrlfWithoutCr(x);
    assert ReplaceCrlf(y) == "\nb" by {
      assert y[2..] == "b";
      ReplaceCrlfWithoutCr("b");
    }
  }

  /** A text that neither starts nor ends with white space is its own trim. */
  lemma TrimKeeps(s: string)
    requires s != [] ==> !IsSpace(s[0]) && !IsSpace(s[|s| - 1])
    ensures Trim(s) == s
  {
    assert s == [] + s + [];
    TrimUnique(s, [], s, []);
  }

  lemma NormalizeCrCrLf()
    ensures Normalize("a\r\r\nb") == "a\r\nb"
  {
    ConvertCrCrLf();
    TrimKeeps("a\r\nb");
  }

  lemma NormalizeCrLf()
    ensures Normalize("a\r\nb") == "a\nb"
  {
    ConvertCrLf();
    TrimKeeps("a\nb");
  }

  lemma NormalizeLf()
    ensures Normalize("a\nb") == "a\nb"
  {
    var s := "a\nb";
    assert '\r' !in s by {
      assert s[0] != '\r' && s[1] != '\r' && s[2] != '\r';
    }
    ReplaceCrlfWithoutCr(s);
    TrimKeeps(s);
  }

  /** A CR LF line break compares equal to a bare LF. */
  lemma CrlfExample()
    ensures Normalize("a\r\nb") == Normalize("a\nb")
  {
    NormalizeCrLf();
    NormalizeLf();
  }

  /** Normalising twice can differ from normalising once: one pass turns
      CR CR LF into CR LF, the next into LF. */
  lemma NormalizeNotIdempotent()
    ensures Normalize(Normalize("a\r\r\nb")) != Normalize("a\r\r\nb")
  {
    NormalizeCrCrLf();
    NormalizeCrLf();
    assert "a\nb" != "a\r\nb" by {
      assert "a\nb"[1] != "a\r\nb"[1];
    }
  }
}
