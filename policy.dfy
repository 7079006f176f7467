/** The lexical policy on the learner's submission: forbidden and required terms,
    compared case-insensitively, with empty terms ignored. */
module Policy {
  import opened Text

  /** `term && userCodeLower.includes(term.toLowerCase())` */
  predicate Forbids(code: string, term: string) {
    term != "" && Contains(Lower(code), Lower(term))
  }

  /** `term && !userCodeLower.includes(term.toLowerCase())` */
  predicate Lacks(code: string, term: string) {
    term != "" && !Contains(Lower(code), Lower(term))
  }

  /** Index of the forbidden term the run reports: the first, in list order,
      that is non-empty and whose lower-case form occurs in the lower-cased code. */
  function FirstForbidden(code: string, terms: seq<string>): (r: Option<nat>)
    ensures r.Some? ==> r.value < |terms| && Forbids(code, terms[r.value])
    ensures r.Some? ==> forall j :: 0 <= j < r.value ==> !Forbids(code, terms[j])
    ensures r.None? <==> forall j :: 0 <= j < |terms| ==> !Forbids(code, terms[j])
  {
    if terms == [] then None
    else if Forbids(code, terms[0]) then Some(0)
    else match FirstForbidden(code, terms[1..])
      case None => None
      case Some(k) => Some(k + 1)
  }

  /** Whether some non-empty required term is absent from the code. */
  function MissingRequired(code: string, terms: seq<string>): (missing: bool)
    ensures missing <==> exists j :: 0 <= j < |terms| && Lacks(code, terms[j])
  {
    if terms == [] then false
    else Lacks(code, terms[0]) || MissingRequired(code, terms[1..])
  }

  /** The forbidden-term loop of the run: stops at the first hit. */
  method CheckForbidden(ghost userCode: string, userCodeLower: string, terms: seq<string>)
    returns (violated: bool, term: string)
    requires userCodeLower == Lower(userCode)
    ensures violated <==> FirstForbidden(userCode, terms).Some?
    ensures violated ==> term == terms[FirstForbidden(userCode, terms).value]
  {
    violated, term := false, "";
    for i := 0 to |terms|
      invariant forall j :: 0 <= j < i ==> !Forbids(userCode, terms[j])
    {
      if terms[i] != "" && Contains(userCodeLower, Lower(terms[i])) {
        violated, term := true, terms[i];
        break;
      }
    }
  }

  /** The required-term loop of the run: stops at the first missing term. */
  method CheckRequired(ghost userCode: string, userCodeLower: string, terms: seq<string>)
    returns (missing: bool)
    requires userCodeLower == Lower(userCode)
    ensures missing == MissingRequired(userCode, terms)
  {
    missing := false;
    for i := 0 to |terms|
      invariant forall j :: 0 <= j < i ==> !Lacks(userCode, terms[j])
    {
      if terms[i] != "" && !Contains(userCodeLower, Lower(terms[i])) {
        missing := true;
        break;
      }
    }
  }

  /** Only the lower-case form of the code matters: any casing variant of a
      submission draws the same verdict from both checks. This holds because both
      checks read the code only through `Lower`; `VariantCaught`, `VariantPresent`
      and `VariantReported` state which casings of a term are found. */
  lemma {:induction false} CaseInsensitive(code: string, variant: string, forbidden: seq<string>, required: seq<string>)
    requires Lower(code) == Lower(variant)
    ensures FirstForbidden(code, forbidden) == FirstForbidden(variant, forbidden)
    ensures MissingRequired(code, required) == MissingRequired(variant, required)
    decreases |forbidden| + |required|
  {
    if forbidden != [] {
      CaseInsensitive(code, variant, forbidden[1..], []);
    }
    if required != [] {
      CaseInsensitive(code, variant, [], required[1..]);
    }
  }

  /** Lowering a slice is slicing the lowered text. */
  lemma LowerSlice(s: string, i: nat, j: nat)
    requires i <= j <= |s|
    ensures Lower(s)[i..j] == Lower(s[i..j])
  {
  }

  /** A non-empty term written into the code in any casing is a forbidden hit. */
  lemma VariantCaught(code: string, t: string, i: nat)
    requires t != "" && i + |t| <= |code| && Lower(code[i..i + |t|]) == Lower(t)
    ensures Forbids(code, t)
  {
    LowerSlice(code, i, i + |t|);
    assert OccursAt(Lower(code), Lower(t), i);
  }

  /** A required term written into the code in any casing is not missing. */
  lemma VariantPresent(code: string, t: string, i: nat)
    requires i + |t| <= |code| && Lower(code[i..i + |t|]) == Lower(t)
    ensures !Lacks(code, t)
  {
    LowerSlice(code, i, i + |t|);
    assert OccursAt(Lower(code), Lower(t), i);
  }

  /** A forbidden term present in any casing makes the check report a term no later
      in the list. */
  lemma VariantReported(code: string, terms: seq<string>, k: nat, i: nat)
    requires k < |terms| && terms[k] != ""
    requires i + |terms[k]| <= |code| && Lower(code[i..i + |terms[k]|]) == Lower(terms[k])
    ensures FirstForbidden(code, terms).Some? && FirstForbidden(code, terms).value <= k
  {
    VariantCaught(code, terms[k], i);
  }

  /** The empty term is skipped and `eval` is caught in `EVAL(1)`: the check
      reports the list's second entry. */
  lemma ForbiddenExample()
    ensures FirstForbidden("EVAL(1)", ["", "eval"]) == Some(1)
  {
    var code := Lower("EVAL(1)");
    assert code[0..4] == "eval";
    assert Lower("eval") == "eval";
    assert OccursAt(code, "eval", 0);
    assert Forbids("EVAL(1)", "eval");
    assert ["", "eval"][1..] == ["eval"];
  }
}
