/**
 * `parse_keepalived_data`: a single pass over the dump's lines that keeps one
 * scratch cell, the current group name, and builds a map from group name to
 * the fields seen inside that group's section.
 */
module DumpParser {
  import opened Wrappers
  import opened DumpSyntax

  /** One group's record: at most one value per field. */
  type Record = map<Field, string>

  /** The parse result, keyed by the stripped `VRRP Instance` name. */
  type Groups = map<string, Record>

  /** The loop's state: `group_name` (None before any header) and `vrrp_groups`. */
  datatype ParserState = ParserState(current: Option<string>, groups: Groups)

  /** A keyword line whose prefix test passed but whose full pattern did not match;
      the source then calls `.groups()` on `None` and raises. */
  datatype ParseError = MalformedLine(keyword: Keyword)

  /** What one line does to the scan. */
  datatype StepResult = Continue(next: ParserState) | Halt | Reject(error: ParseError)

  /** The state when a scan ends: the state reached, and whether an Interfaces marker stopped it. */
  datatype Scan = Scan(final: ParserState, halted: bool)

  const Initial := ParserState(None, map[])

  /** Python truthiness of `group_name`: set, and not the empty string. */
  predicate InsideGroup(st: ParserState)
  {
    st.current.Some? && st.current.value != ""
  }

  /** The current group, once set, always has a record: its header created one. */
  predicate Coherent(st: ParserState)
  {
    st.current.Some? ==> st.current.value in st.groups
  }

  /** One iteration of the `for` loop: the `if`/`elif` chain applied to one tagged line. */
  function Step(st: ParserState, line: Line): (r: StepResult)
    requires Coherent(st)
    ensures r.Continue? ==> Coherent(r.next) && st.groups.Keys <= r.next.groups.Keys
    ensures r.Halt? <==> line.Marker?
    ensures r.Reject? <==> (line.Header? && line.name.None?) || (line.FieldLine? && InsideGroup(st) && line.value.None?)
  {
    match line
    case Other => Continue(st)
    case Header(name) =>
      if name.None? then Reject(MalformedLine(VrrpInstance))
      else Continue(ParserState(name, st.groups[name.value := map[]]))
    case FieldLine(f, v) =>
      if !InsideGroup(st) then Continue(st)
      else if v.None? then Reject(MalformedLine(FieldKeyword(f)))
      else
        var g := st.current.value;
        Continue(ParserState(st.current, st.groups[g := st.groups[g][f := v.value]]))
    case Marker => Halt
  }

  /** The scan from state `st` over tagged lines, stopping at a marker or an error. */
  function Run(lines: seq<Line>, st: ParserState): (r: Result<Scan, ParseError>)
    requires Coherent(st)
    ensures r.Success? ==> Coherent(r.value.final) && st.groups.Keys <= r.value.final.groups.Keys
    ensures r.Success? && !r.value.halted ==> Marker !in lines
    decreases |lines|
  {
    if lines == [] then Success(Scan(st, false))
    else
      match Step(st, lines[0])
      case Continue(next) =>
        var r := Run(lines[1..], next);
        assert lines == [lines[0]] + lines[1..];
        r
      case Halt => Success(Scan(st, true))
      case Reject(e) => Failure(e)
  }

  /** The groups a finished scan returns. */
  function Outcome(r: Result<Scan, ParseError>): Result<Groups, ParseError>
  {
    match r
    case Success(s) => Success(s.final.groups)
    case Failure(e) => Failure(e)
  }

  /** A keyword tag whose full pattern did not match; the error the scan reports if it acts on it. */
  predicate Malformed(line: Line, e: ParseError)
  {
    match line
    case Header(None) => e == MalformedLine(VrrpInstance)
    case FieldLine(f, None) => e == MalformedLine(FieldKeyword(f))
    case _ => false
  }

  /** A scan fails only on a malformed tag, with that tag's error; a scan over none cannot fail. */
  lemma {:induction false} RunFailsOnMalformed(lines: seq<Line>, st: ParserState)
    requires Coherent(st)
    ensures Run(lines, st).Failure? ==> exists i | 0 <= i < |lines| :: Malformed(lines[i], Run(lines, st).error)
    ensures (forall i | 0 <= i < |lines| :: lines[i].Header? ==> lines[i].name.Some?)
      && (forall i | 0 <= i < |lines| :: lines[i].FieldLine? ==> lines[i].value.Some?)
      ==> Run(lines, st).Success?
    decreases |lines|
  {
    if lines != [] {
      var s := Step(st, lines[0]);
      if s.Continue? {
        RunFailsOnMalformed(lines[1..], s.next);
        if Run(lines, st).Failure? {
          var i :| 0 <= i < |lines[1..]| && Malformed(lines[1..][i], Run(lines, st).error);
          assert lines[i + 1] == lines[1..][i];
        }
      } else if s.Reject? {
        assert Malformed(lines[0], Run(lines, st).error);
      }
    }
  }

  /**
   * `parse_keepalived_data(data_lines)`. It raises only on a keyword line whose
   * full pattern does not match, and on a dump without such lines it returns.
   */
  function Parse(lines: seq<string>): (r: Result<Groups, ParseError>)
    ensures r.Failure? ==> exists i | 0 <= i < |lines| :: Malformed(Lex(lines[i]), r.error)
    ensures (forall i | 0 <= i < |lines| :: Lex(lines[i]).Header? ==> Lex(lines[i]).name.Some?)
      && (forall i | 0 <= i < |lines| :: Lex(lines[i]).FieldLine? ==> Lex(lines[i]).value.Some?)
      ==> r.Success?
  {
    RunFailsOnMalformed(LexAll(lines), Initial);
    Outcome(Run(LexAll(lines), Initial))
  }

  /** The source's loop, with `break` at the marker, computes the fold `Parse`. */
  method ParseKeepalivedData(dataLines: seq<string>) returns (r: Result<Groups, ParseError>)
    ensures r == Parse(dataLines)
  {
    ghost var tagged := LexAll(dataLines);
    ghost var whole := Outcome(Run(tagged, Initial));
    var st := Initial;
    var i := 0;
    while i < |dataLines|
      invariant 0 <= i <= |dataLines|
      invariant Coherent(st)
      invariant whole == Outcome(Run(tagged[i..], st))
    {
      var line := Lex(dataLines[i]);
      assert tagged[i..] == [line] + tagged[i + 1..];
      var step := Step(st, line);
      if step.Halt? {
        return Success(st.groups);
      } else if step.Reject? {
        return Failure(step.error);
      }
      st := step.next;
      i := i + 1;
    }
    return Success(st.groups);
  }
}
