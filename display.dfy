/** What a run writes to the output box: exactly one of four messages. */
module Display {
  import opened Text

  /** The outcome of one run; the flag travels only in `Success`. */
  datatype Outcome =
    | Success(flag: string)
    | Output(result: string)
    | Forbidden(term: string)
    | Error(message: string)

  const SuccessHeader: string := "\U{2705} SUCCESS\n"
  const OutputHeader: string := "\U{25B6}\U{FE0F} Python Output:\n"
  const ForbiddenHeader: string := "\U{274C} Forbidden term used: \""
  const ErrorHeader: string := "\U{26A0}\U{FE0F} Error while running code:\n"

  /** The text assigned to `outputEl.value`. */
  function Render(o: Outcome): string {
    match o
    case Success(f) => SuccessHeader + f
    case Output(r) => OutputHeader + r
    case Forbidden(t) => ForbiddenHeader + t + "\""
    case Error(m) => ErrorHeader + m
  }

  /** Reads a displayed text back into the outcome it shows. */
  function Parse(text: string): Option<Outcome> {
    if StartsWith(text, SuccessHeader) then Some(Success(text[|SuccessHeader|..]))
    else if StartsWith(text, OutputHeader) then Some(Output(text[|OutputHeader|..]))
    else if StartsWith(text, ErrorHeader) then Some(Error(text[|ErrorHeader|..]))
    else if StartsWith(text, ForbiddenHeader) && |text| > |ForbiddenHeader| && text[|text| - 1] == '"'
    then Some(Forbidden(text[|ForbiddenHeader|..|text| - 1]))
    else None
  }

  /** The four messages never collide: the displayed text determines the outcome,
      so only a success message can carry the flag in the flag's slot. */
  lemma ParseRender(o: Outcome)
    ensures Parse(Render(o)) == Some(o)
  {
    var t := Render(o);
    match o
    case Success(f) =>
      assert t[..|SuccessHeader|] == SuccessHeader;
    case Output(r) =>
      assert t[..|OutputHeader|] == OutputHeader;
      assert t[0] != SuccessHeader[0];
    case Error(m) =>
      assert t[..|ErrorHeader|] == ErrorHeader;
      assert t[0] != SuccessHeader[0] && t[0] != OutputHeader[0];
    case Forbidden(term) =>
      assert t[..|ForbiddenHeader|] == ForbiddenHeader;
      assert t[0] != SuccessHeader[0] && t[0] != OutputHeader[0] && t[0] != ErrorHeader[0];
      assert t[|ForbiddenHeader|..|t| - 1] == term;
  }
}
