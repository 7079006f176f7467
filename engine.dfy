/** The challenge runner: `loadChallenge` selects a catalog record and sets the
    per-page globals, `runCode` hydrates and runs the setup code, applies the term
    policy, runs the submission and the test expression, and judges the result. */
module Engine {
  import opened Text
  import opened Comparison
  import opened Policy
  import opened Hydration
  import opened Display

  /** A JSON value of a catalog field: a string, or any other value, of which the
      runner only observes truthiness (absent and null are falsy). */
  datatype Value = Str(s: string) | NonString(truthy: bool)

  predicate Truthy(v: Value) {
    if v.Str? then v.s != "" else v.truthy
  }

  /** One catalog record, restricted to the fields the runner judges with; `None`
      stands for an absent or null field. */
  datatype Record = Record(
    id: Option<string>,
    setupCode: Option<string>,
    testCode: Option<string>,
    flag: Option<string>,
    requiredTerms: Option<seq<string>>,
    forbiddenTerms: Option<seq<string>>,
    expected: Value)

  /** The parsed `challenges.json`. */
  datatype Catalog = NotArray | Records(records: seq<Record>)

  /** The page body after loading. */
  datatype Page = Loading | Shown | NoChallenge | CatalogFailed | NotFound(id: string)

  /** The `window.__*__` globals; `None` is `undefined`, before a load has set them. */
  datatype Globals = Globals(
    setupCode: Option<string>,
    testCode: Option<string>,
    flag: Option<string>,
    requiredTerms: Option<seq<string>>,
    forbiddenTerms: Option<seq<string>>,
    expected: Option<Value>)

  /** What `runPythonAsync` resolves to, after `toString()`: Python `None` arrives as `undefined`. */
  datatype PyValue = Undefined | PyText(text: string)

  datatype PyResult = Raised(error: string) | Returned(value: PyValue)

  /** The interpreter oracle: whether loading Pyodide failed, and what running a piece
      of code yields given everything the shared namespace has run before it. */
  datatype Interp = Interp(initError: Option<string>, exec: (seq<string>, string) -> PyResult)

  /** One run: the outcome shown and the code handed to the interpreter, in order. */
  datatype Run = Run(outcome: Outcome, ran: seq<string>)

  const CatalogPath: string := "challenges.json"
  const AssetPrefix: string := "assets/"
  const DefaultTest: string := "output"
  /** The TypeErrors the engine throws inside `runCode`, as `"" + err` prints them in
      V8 (Chrome, Edge, Node); other engines word them differently (Firefox prints
      `TypeError: result is undefined`). */
  const UndefinedToString: string := "TypeError: Cannot read properties of undefined (reading 'toString')"
  const UndefinedReplace: string := "TypeError: Cannot read properties of undefined (reading 'replace')"
  const ReplaceNotFunction: string := "TypeError: str.replace is not a function"

  /** `field || default` for a string field. */
  function OrElse(field: Option<string>, default: string): (r: string)
    ensures r == default || (field == Some(r) && r != "")
    ensures field.Some? && field.value != "" ==> r == field.value
  {
    if field.Some? && field.value != "" then field.value else default
  }

  /** `${window.__FLAG__}` */
  function FlagText(flag: Option<string>): string {
    if flag.Some? then flag.value else "undefined"
  }

  /** `challenges.find(ch => ch.id === challengeId)`, as an index. */
  function Find(records: seq<Record>, id: string): (r: Option<nat>)
    ensures r.Some? ==> r.value < |records| && records[r.value].id == Some(id)
    ensures r.Some? ==> forall j :: 0 <= j < r.value ==> records[j].id != Some(id)
    ensures r.None? <==> forall j :: 0 <= j < |records| ==> records[j].id != Some(id)
  {
    if records == [] then None
    else if records[0].id == Some(id) then Some(0)
    else match Find(records[1..], id)
      case None => None
      case Some(k) => Some(k + 1)
  }

  /** The expected output kept for the session: an asset path becomes the fetched
      text (or "" when the fetch throws), another truthy value is kept as it is,
      a falsy value becomes "". */
  function ResolveExpected(v: Value, fetch: Fetch): (r: Value)
    ensures r.Str? || (r == v && Truthy(v))
    ensures v.Str? && StartsWith(v.s, AssetPrefix) && fetch(v.s).Some? ==> r == Str(fetch(v.s).value)
    ensures v.Str? && StartsWith(v.s, AssetPrefix) && fetch(v.s).None? ==> r == Str("")
    ensures Truthy(v) && !(v.Str? && StartsWith(v.s, AssetPrefix)) ==> r == v
    ensures !Truthy(v) ==> r == Str("")
  {
    if Truthy(v) then
      if v.Str? && StartsWith(v.s, AssetPrefix) then Str(fetch(v.s).GetOr(""))
      else v
    else Str("")
  }

  /** The globals a successful load sets from record `c`. */
  function Configure(c: Record, fetch: Fetch): (g: Globals)
    ensures g.setupCode.Some? && g.testCode.Some? && g.flag.Some?
    ensures g.requiredTerms.Some? && g.forbiddenTerms.Some? && g.expected.Some?
    ensures g.testCode.value != ""
  {
    Globals(
      Some(OrElse(c.setupCode, "")),
      Some(OrElse(c.testCode, DefaultTest)),
      Some(OrElse(c.flag, "")),
      Some(c.requiredTerms.GetOr([])),
      Some(c.forbiddenTerms.GetOr([])),
      Some(ResolveExpected(c.expected, fetch)))
  }

  /** The setup code a run hands to the interpreter: `window.__SETUP_CODE__ || ""`, hydrated. */
  function SetupCode(g: Globals, fetch: Fetch): string {
    Hydrated(OrElse(g.setupCode, ""), fetch)
  }

  /** The setup run, if any: empty setup code is not run. */
  function SetupRun(setup: string): seq<string> {
    if setup != "" then [setup] else []
  }

  function TestCode(g: Globals): string {
    OrElse(g.testCode, DefaultTest)
  }

  /** The last step: `normalize(result.toString())` against `normalize(window.__EXPECTED__)`. */
  function Judge(result: PyValue, expected: Option<Value>, missingRequired: bool, flag: Option<string>): Outcome {
    match result
    case Undefined => Error(UndefinedToString)
    case PyText(t) =>
      match expected
      case None => Error(UndefinedReplace)
      case Some(NonString(_)) => Error(ReplaceNotFunction)
      case Some(Str(e)) =>
        if !missingRequired && Normalize(t) == Normalize(e) then Success(FlagText(flag))
        else Output(Normalize(t))
  }

  /** The submission and the test expression, run after the namespace has run `before`;
      `pre` is what this run has executed so far. */
  function Submit(g: Globals, userCode: string, before: seq<string>, pre: seq<string>, py: Interp): Run {
    var userResult := py.exec(before, userCode);
    if userResult.Raised? then Run(Error(userResult.error), pre + [userCode])
    else
      var ran := pre + [userCode, TestCode(g)];
      match py.exec(before + [userCode], TestCode(g))
      case Raised(e) => Run(Error(e), ran)
      case Returned(v) => Run(Judge(v, g.expected, MissingRequired(userCode, g.requiredTerms.GetOr([])), g.flag), ran)
  }

  /** Specification of `runCode` once the setup code is hydrated into `setup`. */
  function Execute(setup: string, g: Globals, userCode: string, history: seq<string>, py: Interp): Run {
    if py.initError.Some? then Run(Error(py.initError.value), [])
    else if setup != "" && py.exec(history, setup).Raised? then Run(Error(py.exec(history, setup).error), [setup])
    else
      var pre := SetupRun(setup);
      var forbidden := g.forbiddenTerms.GetOr([]);
      match FirstForbidden(userCode, forbidden)
      case Some(k) => Run(Forbidden(forbidden[k]), pre)
      case None => Submit(g, userCode, history + pre, pre, py)
  }

  /** A run gets as far as comparing: nothing threw before `normalizedResult ===
      normalizedExpected` is evaluated. */
  predicate ReachesComparison(setup: string, g: Globals, userCode: string, history: seq<string>, py: Interp) {
    var pre := SetupRun(setup);
    var test := py.exec(history + pre + [userCode], TestCode(g));
    && py.initError.None?
    && (setup == "" || py.exec(history, setup).Returned?)
    && FirstForbidden(userCode, g.forbiddenTerms.GetOr([])).None?
    && py.exec(history + pre, userCode).Returned?
    && test.Returned? && test.value.PyText?
    && g.expected.Some? && g.expected.value.Str?
  }

  /** `normalizedResult`, for a run that reaches the comparison. */
  function JudgedValue(setup: string, g: Globals, userCode: string, history: seq<string>, py: Interp): string
    requires ReachesComparison(setup, g, userCode, history, py)
  {
    Normalize(py.exec(history + SetupRun(setup) + [userCode], TestCode(g)).value.text)
  }

  /** The code runs in a fixed order, setup (when non-empty), then the submission,
      then the test expression, each step only after the previous one. */
  lemma RunOrder(setup: string, g: Globals, userCode: string, history: seq<string>, py: Interp)
    ensures var r := Execute(setup, g, userCode, history, py);
      var pre := SetupRun(setup);
      && (py.initError.Some? ==> r.ran == [])
      && (py.initError.None? ==>
            && |pre| <= |r.ran| <= |pre| + 2
            && r.ran[..|pre|] == pre
            && r.ran[|pre|..] == [userCode, TestCode(g)][..|r.ran| - |pre|])
  {
    var r := Execute(setup, g, userCode, history, py);
    var pre := SetupRun(setup);
    if py.initError.None? && |r.ran| > |pre| {
      assert r == Submit(g, userCode, history + pre, pre, py);
      if |r.ran| == |pre| + 1 {
        assert r.ran == pre + [userCode];
      } else {
        assert r.ran == pre + [userCode, TestCode(g)];
      }
    }
  }

  /** Every step of `ran` before the last one returned, and when the last one
      threw, its error is `outcome`. */
  predicate StopsAtError(history: seq<string>, ran: seq<string>, outcome: Outcome, py: Interp) {
    && (forall i :: 0 <= i < |ran| - 1 ==> py.exec(history + ran[..i], ran[i]).Returned?)
    && (ran != [] && py.exec(history + ran[..|ran| - 1], ran[|ran| - 1]).Raised? ==>
          outcome == Error(py.exec(history + ran[..|ran| - 1], ran[|ran| - 1]).error))
  }

  /** An exception ends the run: every step before the last one returned, and when
      the last one threw, its error is the message shown. */
  lemma ErrorStopsRun(setup: string, g: Globals, userCode: string, history: seq<string>, py: Interp)
    ensures var r := Execute(setup, g, userCode, history, py);
      StopsAtError(history, r.ran, r.outcome, py)
  {
    var r := Execute(setup, g, userCode, history, py);
    var pre := SetupRun(setup);
    if py.initError.Some? {
      assert r.ran == [];
    } else if setup != "" && py.exec(history, setup).Raised? {
      assert r == Run(Error(py.exec(history, setup).error), pre);
      SetupStopsAtError(setup, history, r.outcome, py);
    } else if FirstForbidden(userCode, g.forbiddenTerms.GetOr([])).Some? {
      assert r.ran == pre;
      SetupStopsAtError(setup, history, r.outcome, py);
    } else {
      assert r == Submit(g, userCode, history + pre, pre, py);
      SubmitStopsAtError(setup, g, userCode, history, py);
    }
  }

  lemma SetupStopsAtError(setup: string, history: seq<string>, outcome: Outcome, py: Interp)
    requires setup != "" && py.exec(history, setup).Raised? ==> outcome == Error(py.exec(history, setup).error)
    ensures StopsAtError(history, SetupRun(setup), outcome, py)
  {
    if setup != "" {
      assert SetupRun(setup)[..0] == [];
      assert history + [] == history;
    }
  }

  lemma SubmitStopsAtError(setup: string, g: Globals, userCode: string, history: seq<string>, py: Interp)
    requires setup == "" || py.exec(history, setup).Returned?
    ensures var r := Submit(g, userCode, history + SetupRun(setup), SetupRun(setup), py);
      StopsAtError(history, r.ran, r.outcome, py)
  {
    var pre := SetupRun(setup);
    var r := Submit(g, userCode, history + pre, pre, py);
    assert history + [] == history;
    if py.exec(history + pre, userCode).Returned? {
      var ran := pre + [userCode, TestCode(g)];
      assert r.ran == ran;
      assert ran[..|ran| - 1] == pre + [userCode];
      assert history + ran[..|ran| - 1] == history + pre + [userCode];
      forall i | 0 <= i < |ran| - 1
        ensures py.exec(history + ran[..i], ran[i]).Returned?
      {
        if i < |pre| {
          assert ran[i] == setup && ran[..i] == [];
        } else {
          assert ran[i] == userCode && ran[..i] == pre;
        }
      }
    } else {
      assert r.ran == pre + [userCode];
      assert r.ran[..|r.ran| - 1] == pre;
      assert r.ran[|r.ran| - 1] == userCode;
      forall i | 0 <= i < |r.ran| - 1
        ensures py.exec(history + r.ran[..i], r.ran[i]).Returned?
      {
        assert r.ran[i] == setup && r.ran[..i] == [];
      }
    }
  }

  /** A forbidden term ends the run right after the setup code, naming the first
      offending term; the submission and the test never run. No other outcome
      names a term. */
  lemma ForbiddenTermStopsRun(setup: string, g: Globals, userCode: string, history: seq<string>, py: Interp)
    ensures var r := Execute(setup, g, userCode, history, py);
      var forbidden := g.forbiddenTerms.GetOr([]);
      r.outcome.Forbidden? <==>
        && py.initError.None?
        && (setup == "" || py.exec(history, setup).Returned?)
        && FirstForbidden(userCode, forbidden).Some?
    ensures var r := Execute(setup, g, userCode, history, py);
      var forbidden := g.forbiddenTerms.GetOr([]);
      r.outcome.Forbidden? ==>
        && r.outcome.term == forbidden[FirstForbidden(userCode, forbidden).value]
        && r.ran == SetupRun(setup)
  {
  }

  /** A submission that writes a non-empty forbidden term in any casing is stopped
      right after the setup code: the message names the first forbidden term, which
      comes no later in the list, and neither the submission nor the test runs. */
  lemma ForbiddenVariantStopsRun(setup: string, g: Globals, userCode: string, history: seq<string>, py: Interp, k: nat, i: nat)
    requires py.initError.None?
    requires setup == "" || py.exec(history, setup).Returned?
    requires var forbidden := g.forbiddenTerms.GetOr([]);
      && k < |forbidden| && forbidden[k] != ""
      && i + |forbidden[k]| <= |userCode| && Lower(userCode[i..i + |forbidden[k]|]) == Lower(forbidden[k])
    ensures var r := Execute(setup, g, userCode, history, py);
      var forbidden := g.forbiddenTerms.GetOr([]);
      var first := FirstForbidden(userCode, forbidden);
      && first.Some? && first.value <= k
      && r.outcome == Forbidden(forbidden[first.value])
      && r.ran == SetupRun(setup)
  {
    VariantReported(userCode, g.forbiddenTerms.GetOr([]), k, i);
    ForbiddenTermStopsRun(setup, g, userCode, history, py);
  }

  /** Which stage decides the outcome. */
  lemma StagesReached(setup: string, g: Globals, userCode: string, history: seq<string>, py: Interp)
    ensures var r := Execute(setup, g, userCode, history, py);
      && (ReachesComparison(setup, g, userCode, history, py) ==>
            var pre := SetupRun(setup);
            r.outcome == Judge(py.exec(history + pre + [userCode], TestCode(g)).value, g.expected,
                               MissingRequired(userCode, g.requiredTerms.GetOr([])), g.flag))
      && (!ReachesComparison(setup, g, userCode, history, py) ==> r.outcome.Error? || r.outcome.Forbidden?)
  {
    var r := Execute(setup, g, userCode, history, py);
    var pre := SetupRun(setup);
    if py.initError.Some? {
      assert r.outcome.Error?;
    } else if setup != "" && py.exec(history, setup).Raised? {
      assert r.outcome.Error?;
    } else if FirstForbidden(userCode, g.forbiddenTerms.GetOr([])).Some? {
      assert r.outcome.Forbidden?;
    } else {
      assert r == Submit(g, userCode, history + pre, pre, py);
      SubmitStages(g, userCode, history + pre, pre, py);
    }
  }

  /** The stages after the term checks: the outcome is judged exactly when the
      submission and the test both return, a string meets a string expected value. */
  lemma SubmitStages(g: Globals, userCode: string, before: seq<string>, pre: seq<string>, py: Interp)
    ensures var r := Submit(g, userCode, before, pre, py);
      var test := py.exec(before + [userCode], TestCode(g));
      py.exec(before, userCode).Returned? && test.Returned? ==>
        r.outcome == Judge(test.value, g.expected, MissingRequired(userCode, g.requiredTerms.GetOr([])), g.flag)
    ensures var r := Submit(g, userCode, before, pre, py);
      var test := py.exec(before + [userCode], TestCode(g));
      var judged := py.exec(before, userCode).Returned? && test.Returned? && test.value.PyText?
                    && g.expected.Some? && g.expected.value.Str?;
      !judged ==> r.outcome.Error?
  {
    var test := py.exec(before + [userCode], TestCode(g));
    if py.exec(before, userCode).Returned? && test.Returned? {
      var missing := MissingRequired(userCode, g.requiredTerms.GetOr([]));
      JudgeSuccess(test.value, g.expected, missing, g.flag);
    }
  }

  /** Only a string result equal, after normalisation, to a string expected value
      with no required term missing succeeds. */
  lemma JudgeSuccess(result: PyValue, expected: Option<Value>, missingRequired: bool, flag: Option<string>)
    ensures var o := Judge(result, expected, missingRequired, flag);
      && (o.Success? <==> result.PyText? && expected.Some? && expected.value.Str? && !missingRequired
                           && Normalize(result.text) == Normalize(expected.value.s))
      && (o.Success? ==> o.flag == FlagText(flag))
      && (!o.Success? ==> o.Error? || (result.PyText? && o == Output(Normalize(result.text))))
  {
  }

  /** The verdict: success exactly when the run reaches the comparison, no required
      term is missing and the normalised values agree; the flag is what success shows. */
  lemma SuccessIff(setup: string, g: Globals, userCode: string, history: seq<string>, py: Interp)
    ensures var r := Execute(setup, g, userCode, history, py);
      r.outcome.Success? <==>
        && ReachesComparison(setup, g, userCode, history, py)
        && !MissingRequired(userCode, g.requiredTerms.GetOr([]))
        && JudgedValue(setup, g, userCode, history, py) == Normalize(g.expected.value.s)
    ensures var r := Execute(setup, g, userCode, history, py);
      r.outcome.Success? ==> r.outcome.flag == FlagText(g.flag)
  {
    StagesReached(setup, g, userCode, history, py);
    if ReachesComparison(setup, g, userCode, history, py) {
      var pre := SetupRun(setup);
      JudgeSuccess(py.exec(history + pre + [userCode], TestCode(g)).value, g.expected,
                   MissingRequired(userCode, g.requiredTerms.GetOr([])), g.flag);
    }
  }

  /** Every run that reaches the comparison shows either the flag or the normalised
      result; every other run shows an error or a forbidden term. */
  lemma CompletedRunShowsResult(setup: string, g: Globals, userCode: string, history: seq<string>, py: Interp)
    ensures var r := Execute(setup, g, userCode, history, py);
      ReachesComparison(setup, g, userCode, history, py) ==>
        r.outcome == Success(FlagText(g.flag)) || r.outcome == Output(JudgedValue(setup, g, userCode, history, py))
    ensures var r := Execute(setup, g, userCode, history, py);
      !ReachesComparison(setup, g, userCode, history, py) ==> r.outcome.Error? || r.outcome.Forbidden?
  {
    StagesReached(setup, g, userCode, history, py);
    if ReachesComparison(setup, g, userCode, history, py) {
      var pre := SetupRun(setup);
      JudgeSuccess(py.exec(history + pre + [userCode], TestCode(g)).value, g.expected,
                   MissingRequired(userCode, g.requiredTerms.GetOr([])), g.flag);
    }
  }

  /** A missing required term is silent: the submission and the test still run, and
      the run cannot succeed. */
  lemma MissingRequiredIsSilent(setup: string, g: Globals, userCode: string, history: seq<string>, py: Interp)
    requires MissingRequired(userCode, g.requiredTerms.GetOr([]))
    ensures var r := Execute(setup, g, userCode, history, py);
      var pre := SetupRun(setup);
      && !r.outcome.Success?
      && (&& py.initError.None?
          && (setup == "" || py.exec(history, setup).Returned?)
          && FirstForbidden(userCode, g.forbiddenTerms.GetOr([])).None?
          ==> && |r.ran| > |pre| && r.ran[|pre|] == userCode
              && (py.exec(history + pre, userCode).Returned? ==> r.ran == pre + [userCode, TestCode(g)]))
  {
  }

  /** The flag never influences anything but the success message: two globals that
      differ only in the flag run the same code, and show the same message unless
      both succeed. */
  lemma FlagNonInterference(setup: string, g: Globals, flag: Option<string>, userCode: string, history: seq<string>, py: Interp)
    ensures var r1 := Execute(setup, g, userCode, history, py);
      var r2 := Execute(setup, g.(flag := flag), userCode, history, py);
      && r1.ran == r2.ran
      && r1.outcome.Success? == r2.outcome.Success?
      && (!r1.outcome.Success? ==> r1.outcome == r2.outcome)
  {
  }

  lemma NormalizeEmpty()
    ensures Normalize("") == ""
  {
    ReplaceCrlfWithoutCr("");
    TrimKeeps("");
  }

  /** An asset whose fetch throws leaves "" as the expected output, so every run whose
      normalised output is non-empty shows that output instead of the flag. */
  lemma FailedAssetNeverSucceeds(c: Record, fetch: Fetch, setup: string, userCode: string, history: seq<string>, py: Interp)
    requires c.expected.Str? && StartsWith(c.expected.s, AssetPrefix) && fetch(c.expected.s).None?
    ensures var g := Configure(c, fetch);
      ReachesComparison(setup, g, userCode, history, py) && JudgedValue(setup, g, userCode, history, py) != "" ==>
        Execute(setup, g, userCode, history, py).outcome == Output(JudgedValue(setup, g, userCode, history, py))
  {
    var g := Configure(c, fetch);
    assert c.expected.s != "";
    assert g.expected == Some(Str(""));
    if ReachesComparison(setup, g, userCode, history, py) && JudgedValue(setup, g, userCode, history, py) != "" {
      NormalizeEmpty();
      SuccessIff(setup, g, userCode, history, py);
      CompletedRunShowsResult(setup, g, userCode, history, py);
    }
  }

  /** A test expression that yields the expected text succeeds for a submission that
      passes both term checks, whatever the setup code did. */
  lemma MatchingOutputSucceeds(setup: string, g: Globals, userCode: string, history: seq<string>, py: Interp, t: string)
    requires py.initError.None?
    requires setup == "" || py.exec(history, setup).Returned?
    requires FirstForbidden(userCode, g.forbiddenTerms.GetOr([])).None?
    requires !MissingRequired(userCode, g.requiredTerms.GetOr([]))
    requires py.exec(history + SetupRun(setup), userCode).Returned?
    requires py.exec(history + SetupRun(setup) + [userCode], TestCode(g)) == Returned(PyText(t))
    requires g.expected == Some(Str(t))
    ensures Execute(setup, g, userCode, history, py).outcome == Success(FlagText(g.flag))
  {
  }

  /** The browser window: the globals `loadChallenge` sets and the page body. */
  class Window {
    var setupCode: Option<string>
    var testCode: Option<string>
    var flag: Option<string>
    var requiredTerms: Option<seq<string>>
    var forbiddenTerms: Option<seq<string>>
    var expected: Option<Value>
    var page: Page

    /** The globals as one value. */
    function Snapshot(): Globals
      reads this
    {
      Globals(setupCode, testCode, flag, requiredTerms, forbiddenTerms, expected)
    }

    constructor ()
      ensures Snapshot() == Globals(None, None, None, None, None, None)
      ensures page == Loading
    {
      setupCode, testCode, flag := None, None, None;
      requiredTerms, forbiddenTerms, expected := None, None, None;
      page := Loading;
    }

    /** `loadChallenge`: `query` is the `challenge` search parameter, `catalog` what
        fetching and parsing `challenges.json` yields (None when either throws).
        Returns the paths fetched, in order. */
    method LoadChallenge(query: Option<string>, catalog: Option<Catalog>, fetch: Fetch) returns (fetched: seq<string>)
      modifies this
      ensures query.None? || query.value == "" ==>
        fetched == [] && page == NoChallenge && Snapshot() == old(Snapshot())
      ensures query.Some? && query.value != "" && catalog.None? ==>
        fetched == [CatalogPath] && page == CatalogFailed && Snapshot() == old(Snapshot())
      ensures query.Some? && query.value != "" && catalog.Some? &&
              (catalog.value.NotArray? || Find(catalog.value.records, query.value).None?) ==>
        fetched == [CatalogPath] && page == NotFound(query.value) && Snapshot() == old(Snapshot())
      ensures query.Some? && query.value != "" && catalog.Some? && catalog.value.Records? &&
              Find(catalog.value.records, query.value).Some? ==>
        var c := catalog.value.records[Find(catalog.value.records, query.value).value];
        && page == Shown
        && Snapshot() == Configure(c, fetch)
        && fetched == [CatalogPath] + (if Truthy(c.expected) && c.expected.Str? && StartsWith(c.expected.s, AssetPrefix)
                                       then [c.expected.s] else [])
    {
      fetched := [];
      if query.None? || query.value == "" {
        page := NoChallenge;
        return;
      }
      var challengeId := query.value;
      fetched := [CatalogPath];
      if catalog.None? {
        page := CatalogFailed;
        return;
      }
      var found := if catalog.value.Records? then Find(catalog.value.records, challengeId) else None;
      if found.None? {
        page := NotFound(challengeId);
        return;
      }
      var c := catalog.value.records[found.value];
      page := Shown;
      setupCode := Some(OrElse(c.setupCode, ""));
      testCode := Some(OrElse(c.testCode, DefaultTest));
      flag := Some(OrElse(c.flag, ""));
      requiredTerms := Some(c.requiredTerms.GetOr([]));
      forbiddenTerms := Some(c.forbiddenTerms.GetOr([]));
      if Truthy(c.expected) {
        if c.expected.Str? && StartsWith(c.expected.s, AssetPrefix) {
          fetched := fetched + [c.expected.s];
          var text := fetch(c.expected.s);
          expected := Some(Str(if text.Some? then text.value else ""));
        } else {
          expected := Some(c.expected);
        }
      } else {
        expected := Some(Str(""));
      }
    }

    /** `runCode` on the editor's `userCode`; `history` is the code the shared
        interpreter has run in earlier runs. Returns the outcome displayed and the
        code run, in order. */
    method RunCode(userCode: string, history: seq<string>, fetch: Fetch, py: Interp) returns (out: Outcome, ran: seq<string>)
      ensures Run(out, ran) == Execute(SetupCode(Snapshot(), fetch), Snapshot(), userCode, history, py)
    {
      ran := [];
      if py.initError.Some? {
        out := Error(py.initError.value);
        return;
      }
      ghost var g := Snapshot();
      ghost var pre := SetupRun(SetupCode(g, fetch));
      var setup := Hydrate(OrElse(setupCode, ""), fetch);
      if setup != "" {
        var setupResult := py.exec(history, setup);
        ran := [setup];
        if setupResult.Raised? {
          out := Error(setupResult.error);
          return;
        }
      }
      assert ran == pre;

      var userCodeLower := Lower(userCode);
      var forbidden := forbiddenTerms.GetOr([]);
      var violatedForbidden, term := CheckForbidden(userCode, userCodeLower, forbidden);
      if violatedForbidden {
        out := Forbidden(term);
        return;
      }
      var required := requiredTerms.GetOr([]);
      var missingRequired := CheckRequired(userCode, userCodeLower, required);

      var userResult := py.exec(history + ran, userCode);
      ran := ran + [userCode];
      if userResult.Raised? {
        out := Error(userResult.error);
        return;
      }
      var test := OrElse(testCode, DefaultTest);
      assert history + ran == history + pre + [userCode];
      var testResult := py.exec(history + ran, test);
      ran := ran + [test];
      assert ran == pre + [userCode, TestCode(g)];
      if testResult.Raised? {
        out := Error(testResult.error);
        return;
      }
      if testResult.value.Undefined? {
        out := Error(UndefinedToString);
        return;
      }
      var normalizedResult := Normalize(testResult.value.text);
      if expected.None? {
        out := Error(UndefinedReplace);
        return;
      }
      if expected.value.NonString? {
        out := Error(ReplaceNotFunction);
        return;
      }
      var normalizedExpected := Normalize(expected.value.s);
      if !missingRequired && !violatedForbidden && normalizedResult == normalizedExpected {
        out := Success(FlagText(flag));
      } else {
        out := Output(normalizedResult);
      }
    }
  }
}
