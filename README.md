# pynight challenge runner — a Dafny model

pynight is a browser-hosted Python exercise runner. Its engine (`js/engine.js`)
does two things:

- `loadChallenge` reads the `challenge` query parameter and fetches
  `challenges.json`. It selects the first record whose `id` equals the parameter,
  sets the `window.__*__` globals with their defaults, and resolves the expected
  output, which may be an `assets/` file to fetch.
- `runCode` hydrates the setup code: every `= "path"` becomes `= """<file content>"""`.
  It runs the setup code when it is non-empty, then checks the forbidden terms
  (case-insensitive, stops at the first hit and names it) and the required terms
  (silent). It runs the submission and then the test expression, normalises both
  sides (`\r\n` to `\n`, then trim), and shows one of four messages.

The model is split by concern:

- `text.dfy` (module `Text`): the JavaScript string primitives the engine relies
  on. These are the `\s`/`trim` white-space class, the line terminators `.`
  refuses, `toLowerCase`, and first-occurrence search (`indexOf`, `includes`).
- `comparison.dfy` (module `Comparison`): `normalize`, its line-ending scan and
  `trim`.
- `policy.dfy` (module `Policy`): the forbidden and required term checks, as
  functions and as the loops with `break` that the engine runs.
- `hydration.dfy` (module `Hydration`): a hand-written scanner for the global
  regular expression `/=\s*"(.*?)"/g`, with a declarative statement of what
  `matchAll` yields. It also holds `String.prototype.replace` with a string pattern
  (including `$$`, `$&`, `` $` `` and `$'` in the replacement) and the hydration
  loop as a method.
- `display.dfy` (module `Display`): the four output messages, and a parser showing
  that they never collide.
- `engine.dfy` (module `Engine`): the catalog, the globals, and the reference
  specification of a run (`Execute`). It also holds the class `Window`, whose
  fields are the globals: `LoadChallenge` assigns them, and `RunCode` is the
  imperative pipeline proved equal to `Execute`.

Two oracles stand for the code the engine calls but that is not part of this model:

- `fetch` is a function from a path to `Option<string>`. `None` means that
  `fetch` or `text()` threw. The HTTP status is never consulted, so a 404 body is
  content.
- The Python interpreter is `Interp`. It carries the error of a failed Pyodide
  load, and `exec(history, code)`, the result of running `code` after the shared
  namespace has run `history`. `RunCode` takes the history of earlier runs and
  returns the code it ran, so the persistent namespace is part of the model.

## Model

| member | source | states |
|---|---|---|
| Text.Lower | js/engine.js:140 | `toLowerCase` keeps the length and lowers each character on its own |
| Text.IndexOf | js/engine.js:124 | a result exists exactly when the pattern occurs; the result is the first position where it occurs |
| Comparison.ReplaceCrlf | js/engine.js:175 | `replace(/\r\n/g, '\n')` as a left-to-right scan; the text never grows (its exact effect is `ReplaceCrlfDropsPairedCr`) |
| Comparison.ReplaceCrlfDropsPairedCr | js/engine.js:175 | the conversion deletes exactly the CRs that stand directly before an LF and keeps every other character, in order |
| Comparison.ReplaceCrlfKeepsLoneCr | js/engine.js:175 | a CR not followed by an LF survives, and the text on either side of it is converted on its own |
| Comparison.ReplaceCrlfOnlyDropsCr | js/engine.js:175 | converting line endings only deletes CRs: every other character, LF included, is kept in order (a corollary of `ReplaceCrlfDropsPairedCr`) |
| Comparison.ReplaceCrlfWithoutCr | js/engine.js:175 | a text with no CR is unchanged by the line-ending conversion |
| Comparison.ReplaceCrlfAppend | js/engine.js:175 | the left-to-right scan can be split anywhere that does not cut a CR LF pair |
| Comparison.Trim | js/engine.js:175 | the result neither starts nor ends with ECMAScript white space |
| Comparison.TrimUnique | js/engine.js:175 | for every split of a text into white space, a core with no white space at either end, and white space, the core is what `trim` returns |
| Comparison.TrimKeeps | js/engine.js:175 | a text with no white space at either end is its own trim |
| Comparison.Normalize | js/engine.js:175-177 | the normalised text has no leading or trailing white space |
| Comparison.CrlfEquivalentToLf | js/engine.js:175 | a CR LF that does not follow a CR normalises the same as a bare LF, whatever surrounds it |
| Comparison.CrlfExample | js/engine.js:175 | `normalize("a\r\nb") == normalize("a\nb")` |
| Comparison.NormalizeCrLf | js/engine.js:175 | `normalize("a\r\nb")` is `"a\nb"` |
| Comparison.NormalizeCrCrLf | js/engine.js:175 | `normalize("a\r\r\nb")` is `"a\r\nb"`: one pass leaves a CR LF behind |
| Comparison.NormalizeNotIdempotent | js/engine.js:175 | normalising twice can differ from normalising once |
| Policy.FirstForbidden | js/engine.js:142-147 | the reported index is the first, in list order, of a non-empty term whose lower-case form occurs in the lower-cased code; no index exactly when no term is forbidden |
| Policy.MissingRequired | js/engine.js:154-160 | true exactly when some non-empty required term is absent from the code, compared case-insensitively |
| Policy.CheckForbidden | js/engine.js:140-149 | the loop flags a violation exactly when some term is forbidden, and then returns the first forbidden term in list order |
| Policy.CheckRequired | js/engine.js:154-160 | the loop's flag is exactly `MissingRequired` |
| Policy.CaseInsensitive | js/engine.js:140-156 | two submissions with the same lower-case form draw the same result from both checks |
| Policy.VariantCaught | js/engine.js:140-143 | a non-empty term that appears in the code in any casing is a forbidden hit |
| Policy.VariantPresent | js/engine.js:140-156 | a required term that appears in the code in any casing is not missing |
| Policy.VariantReported | js/engine.js:142-147 | a forbidden term present in any casing makes the check report a term at or before it in the list |
| Policy.ForbiddenExample | js/engine.js:142-147 | with terms `["", "eval"]`, the code `EVAL(1)` is caught by the second term: the empty term is skipped and case is ignored |
| Hydration.IsMatch | js/engine.js:114 | the expression, stated declaratively: `=`, white space, a quote, the shortest run of non-line-terminators up to the next quote; `MatchAt`, `FindFrom` and `ScanFrom` are proved against it |
| Hydration.SkipSpaces | js/engine.js:114 | `\s*` stops at the first non-white-space character |
| Hydration.FindClose | js/engine.js:114 | the lazy `(.*?)"` ends at the first quote, and fails at a line terminator or at the end of the text |
| Hydration.MatchAt | js/engine.js:114 | a match found at a position satisfies the expression; when none is found, no match starts there |
| Hydration.FindFrom | js/engine.js:114-115 | the leftmost match at or after a position, and no match before it |
| Hydration.AllMatchesFrom | js/engine.js:114-115 | the list satisfies the `matchAll` scan: each match is the leftmost one after the end of the previous one, and nothing matches after the last |
| Hydration.Matches | js/engine.js:115 | every listed entry is a match of the expression |
| Hydration.MatchesScan | js/engine.js:115 | `Matches` satisfies the `matchAll` scan from the start of the text |
| Hydration.ScanUnique | js/engine.js:114-115 | the scan has exactly one outcome, so `Matches` is the match list |
| Hydration.NoEqualsNoMatches | js/engine.js:114-115 | a text without `=` has no matches |
| Hydration.ComparisonOperatorMatches | js/engine.js:114-119 | in `x=="f"` the only match starts at the second `=`, its text is `="f"` and its path `f` |
| Hydration.ExampleMatches | js/engine.js:114-115 | `d="a"` has exactly one match, from the `=` to the closing quote |
| Hydration.Expand | js/engine.js:124 | GetSubstitution for a string pattern: `$$` gives `$`, `$&` the matched text, `` $` `` the text before it, `$'` the text after it, any other character is kept (its partners are `ExpandLiteral`, `ExpandLiteralPrefix` and `DollarContentExpands`) |
| Hydration.ExpandLiteralPrefix | js/engine.js:124 | `$`-free text at the front of a replacement passes through unchanged |
| Hydration.ReplaceFirst | js/engine.js:124 | `replace` with a string pattern: only the first occurrence is replaced, by the expanded replacement, and the text around it is kept (its partners are `SubstituteVerbatim` and `SubstituteAbsent`) |
| Hydration.Substitute | js/engine.js:118-127 | one loop iteration: a fetched file replaces the first occurrence of the match text, a failed fetch keeps the code |
| Hydration.SubstituteAll | js/engine.js:117-128 | the loop over a match list, each step applied to the code the previous step left |
| Hydration.Hydrated | js/engine.js:112-128 | the matches are taken once, from the original text, and applied in order (`Hydrate` is proved to compute it) |
| Hydration.DollarContentExpands | js/engine.js:124 | a fetched file holding `$&` is not inserted verbatim: `d="a"` becomes `d= """="a""""` |
| Hydration.ExpandLiteral | js/engine.js:124 | a replacement text without `$` is inserted literally |
| Hydration.LiteralExpands | js/engine.js:124 | the triple-quoted literal of a `$`-free file content is inserted literally |
| Hydration.Hydrate | js/engine.js:112-128 | the loop computes the matches once, on the original text, and applies each in order to the current code (`Hydrated`) |
| Hydration.FailedFetchesKeepCode | js/engine.js:120-127 | when every fetch throws, the code is unchanged |
| Hydration.UnfetchedSetupUnchanged | js/engine.js:117-128 | setup code whose referenced files all fail to fetch is run as written |
| Hydration.NoAssignmentUnchanged | js/engine.js:112-128 | setup code without `=` is run as written |
| Hydration.SubstituteVerbatim | js/engine.js:118-124 | a fetched file without `$` replaces the first occurrence of the match text by `= """content"""`, and the text around it is kept |
| Hydration.SubstituteAbsent | js/engine.js:124 | when the match text no longer occurs in the current code, the step changes nothing |
| Hydration.ExampleSubstitution | js/engine.js:124 | fetching `a` as `hi` turns `d="a"` into `d= """hi"""` in one step |
| Hydration.HydrationExample | js/engine.js:112-128 | the whole hydration of `d="a"` with `a` fetched as `hi` is `d= """hi"""` |
| Display.Render | js/engine.js:144-190 | the text written to the output box for each outcome (its partner is `ParseRender`) |
| Display.ParseRender | js/engine.js:144-190 | the four messages never collide: the displayed text determines the outcome |
| Engine.OrElse | js/engine.js:73-75 | a field defaults like JavaScript's logical or: a non-empty string is kept; absent, null or empty gives the default |
| Engine.Find | js/engine.js:34 | the first record whose `id` equals the parameter; no result exactly when no record has that id |
| Engine.ResolveExpected | js/engine.js:80-94 | an `assets/` string becomes the fetched text, or `""` when the fetch throws; another truthy value is kept; a falsy value becomes `""` |
| Engine.Configure | js/engine.js:73-94 | a loaded record sets every global, and the test code is never empty |
| Engine.Window.LoadChallenge | js/engine.js:16-94 | no parameter: nothing is fetched and nothing is set. Catalog failure or no matching record: only `challenges.json` is fetched and nothing is set. Otherwise the globals are those of the first matching record, and an `assets/` expected value is fetched after the catalog |
| Engine.Window.RunCode | js/engine.js:100-191 | the outcome and the code run are exactly those of `Execute` on the current globals with the hydrated setup code; this also shows that `!violatedForbidden` always holds at the comparison |
| Engine.SetupRun | js/engine.js:133-135 | empty setup code is not handed to the interpreter (used by `RunOrder` and `ErrorStopsRun`) |
| Engine.TestCode | js/engine.js:170 | the test code, or `"output"` when it is absent or empty, by JavaScript's logical or through `OrElse`, whose contract states it |
| Engine.FlagText | js/engine.js:183 | `${window.__FLAG__}`: the flag, or `undefined` before a load (used by `JudgeSuccess` and `SuccessIff`) |
| Engine.Judge | js/engine.js:170-187 | the last step: `toString` and `replace` throw on `undefined` and on a non-string expected value, and success needs no missing required term and equal normalised texts (stated by `JudgeSuccess`) |
| Engine.Submit | js/engine.js:165-190 | the submission, then the test expression, each run after everything before it; a thrown error is the message (stated by `SubmitStages` and `SubmitStopsAtError`) |
| Engine.Execute | js/engine.js:100-191 | the reference run: interpreter load, setup code when non-empty, forbidden check, then `Submit` (`Window.RunCode` is proved equal to it; `RunOrder`, `ErrorStopsRun`, `StagesReached` and `SuccessIff` state its properties) |
| Engine.RunOrder | js/engine.js:133-170 | the code runs in the order setup (only when non-empty), submission, test; nothing runs when the interpreter failed to load |
| Engine.ErrorStopsRun | js/engine.js:133-190 | every step before the last one returned; if the last one threw, its error is the message shown |
| Engine.ForbiddenTermStopsRun | js/engine.js:140-149 | a forbidden-term message appears exactly when the interpreter loaded, the setup code did not throw and some term is forbidden. It names the first forbidden term, and only the setup code has run |
| Engine.ForbiddenVariantStopsRun | js/engine.js:133-149 | a submission that writes a non-empty forbidden term in any casing stops right after the setup code, and the message names the first forbidden term, at or before that one in the list |
| Engine.StagesReached | js/engine.js:133-187 | a run that gets to the comparison is judged on the test result; every other run ends in an error or a forbidden term |
| Engine.SubmitStages | js/engine.js:165-187 | once past the term checks, the outcome is judged exactly when submission and test both return; otherwise it is an error |
| Engine.JudgeSuccess | js/engine.js:176-187 | success exactly for a string result equal after normalisation to a string expected value with no required term missing; success carries the flag; anything else is an error or the normalised result |
| Engine.SuccessIff | js/engine.js:182-187 | a run succeeds exactly when it reaches the comparison, no required term is missing and the normalised values agree; the success message carries the flag |
| Engine.CompletedRunShowsResult | js/engine.js:182-187 | a run that reaches the comparison shows the flag or the normalised result; any other run shows an error or a forbidden term |
| Engine.MissingRequiredIsSilent | js/engine.js:154-170 | a missing required term never yields success; past the forbidden check the submission still runs, and once it returns the test expression still runs |
| Engine.FlagNonInterference | js/engine.js:182-187 | changing the flag changes neither the code run nor whether the run succeeds, and it changes no message other than the success message |
| Engine.NormalizeEmpty | js/engine.js:177 | the empty expected value normalises to `""` |
| Engine.FailedAssetNeverSucceeds | js/engine.js:82-88 | when an `assets/` expected file fails to fetch, every run whose normalised result is non-empty shows that result, not the flag |
| Engine.MatchingOutputSucceeds | js/engine.js:175-183 | a test result equal to the expected string succeeds when both term checks pass, whatever the setup code did |

## Where the code and its specification differ

The model follows the code in each case below.

- Normalisation is not idempotent. `"a\r\r\nb"` becomes `"a\r\nb"` in one pass and
  `"a\nb"` in the next (`Comparison.NormalizeNotIdempotent`).
- The hydration pattern needs no identifier before `=`. Any `=`, including the
  second `=` of `==`, followed by optional white space and a quoted string on one
  line is a file reference (`Hydration.ComparisonOperatorMatches`). The text
  replaced is the whole match, from `=` on, and only its first occurrence in the
  current code is replaced.
- The required-term check ignores empty terms, and the forbidden-term check does
  too.
- An error thrown by the setup code is shown even when the submission holds a
  forbidden term, because the setup code runs before the term checks.
- The flag never leaks through the verdict within this model
  (`Engine.FlagNonInterference`). The Output message, however, shows the normalised
  value of the test expression. That value is computed in the namespace the
  submission has just run in, and Pyodide's `js` module lets Python read
  `window.__FLAG__`, so it can contain the flag's text.
- Fetched setup files are not inserted verbatim. `replace` with a string pattern
  expands `$$`, `$&`, `` $` `` and `$'` in the replacement, so a file that holds
  them changes shape (`Hydration.DollarContentExpands`). Only `$`-free content lands
  as written (`Hydration.SubstituteVerbatim`).
- A truthy expected value that is not a string makes `normalize` throw, and the
  run shows an error. Before a challenge has loaded, `window.__EXPECTED__` is
  `undefined` and the run also ends in an error.

## Left out

- Pyodide loading (js/engine.js:4-11): the lazy single promise is not modelled. A failed load is the oracle's `initError`.
- Python execution (js/engine.js:134, 165, 170): an oracle that returns either a thrown error's text or the value's `toString()`. `undefined` is kept, because `toString` on it throws; `null` is not distinguished from `undefined`.
- Network and JSON (js/engine.js:27-28, 83-84, 121-122): `fetch`, `json()` and `text()` are oracles. The catalog arrives already parsed, as a list of records or as "not an array".
- Record fields of the wrong JSON type are not modelled: a non-string `setup_code`, `test_code` or `flag`, a non-list term list, non-string list elements, or a record that is not an object. The model's record types only hold strings and lists of strings there. `expected` is the exception: any JSON value is modelled by its truthiness.
- DOM work (js/engine.js:21, 30, 37-68, 101-104): the theme stylesheet, description, stamp, tasks, example and starter code are not modelled. The page body is reduced to `Page`, the editor text is `RunCode`'s parameter, and the output box is the `Outcome` value (`Display.Render` gives its text). If that DOM code throws, for example on a truthy `tasks` that is not an array (js/engine.js:58), `loadChallenge` stops before any global is set. `Engine.Window.LoadChallenge` always sets them once a record is found.
- The `TypeError` texts of `Engine.Judge` are V8's. Other engines word them differently; Firefox, for example, prints `TypeError: result is undefined`.
- Engine.FlagNonInterference: holds only because the interpreter oracle cannot read or write the page globals. In the program, Pyodide's `js` module gives Python access to `window`, so a submission can read `window.__FLAG__` and return it as the test value.
- Engine.SuccessIff: holds only because the interpreter oracle cannot touch the page globals. The submission runs (js/engine.js:165) before `window.__TEST_CODE__`, `window.__EXPECTED__` and `window.__FLAG__` are read (lines 170, 177, 183), so `import js; js.window.__EXPECTED__ = "1"; output = "1"` succeeds whatever the expected value was.
- Engine.MatchingOutputSucceeds: states the expected value and the test code as `loadChallenge` left them. A submission that rewrites those globals through the `js` module changes what the run compares against.
- Engine.FailedAssetNeverSucceeds: holds only while the expected value stays as `loadChallenge` set it. A submission can overwrite `window.__EXPECTED__` through the `js` module. A run can also empty `window.__FORBIDDEN_TERMS__` (read at js/engine.js:142) for the next run, which the model's fixed globals do not capture.
- `console.warn` (js/engine.js:86, 126): logging only.
- Repeated fetches: the `fetch` oracle is a function, so within one hydration pass every fetch of the same path gives the same answer. In the program, two matches naming the same file fetch it twice (js/engine.js:121), and the second fetch can fail or return different content.
- Concurrency: overlapping `runCode` calls on the shared namespace are not modelled, and the model assumes every interpreter call and fetch terminates.
- Text.Lower: only ASCII letters are lowered. The full Unicode mapping of `toLowerCase` is not modelled.
- Strings are sequences of code points. JavaScript strings are UTF-16 code units, which differ only for characters outside the Basic Multilingual Plane.
- Engine.Window.constructor: it only fixes the state before any load (every global `undefined`). It states nothing about the source beyond that.
