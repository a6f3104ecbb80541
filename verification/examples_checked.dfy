/**
 * Worked inputs for the parser and the state files, with the results the
 * model gives for them.
 */
module WorkedExamples {
  import opened Wrappers
  import opened Text
  import opened DumpSyntax
  import opened DumpParser
  import opened ParserProperties
  import opened StatePersistence

  /** A line starting with a keyword, after any whitespace, passes that keyword's prefix test. */
  lemma KeywordLine(k: Keyword, lead: string, tail: string)
    requires AllSpace(lead)
    ensures HasKeyword(lead + KeywordText(k) + tail, k)
  {
    var kw := KeywordText(k);
    assert EqualIgnoringCase(kw, kw);
    KeywordLineStripped(k, lead, kw, tail);
    assert (kw + tail)[..|kw|] == kw;
  }

  /** `<lead><spelled> = <value>` with a one-line value is tagged with that value. */
  lemma AssignmentTag(k: Keyword, lead: string, spelled: string, value: string)
    requires k == VrrpInstance || k.FieldKeyword?
    requires k != FieldKeyword(LastTransition)
    requires AllSpace(lead) && EqualIgnoringCase(spelled, KeywordText(k))
    requires |value| > 0 && IsStripped(value) && '\n' !in value
    ensures Lex(lead + spelled + " = " + value) == if k == VrrpInstance then Header(Some(value)) else FieldLine(k.field, Some(value))
  {
    var line := lead + spelled + " = " + value;
    var empty: string := [];
    assert line == lead + spelled + " " + "=" + " " + value + empty;
    AssignedValueShape(k, lead, spelled, " ", " ", value, empty);
    if k == VrrpInstance {
      LexHeader(line);
    } else {
      assert FieldValue(line, k.field) == Some(value);
      LexField(line, k.field);
    }
  }

  const Header1: string := "VRRP Instance = VI_1"
  const State1: string := "  State = MASTER"
  const Transition1: string := "  " + "Last transition = " + "1532043820" + " " + "(Thu Jul 19 23:43:40 2018)"

  lemma Header1Tag()
    ensures Lex(Header1) == Header(Some("VI_1"))
  {
    assert Header1 == "" + KeywordText(VrrpInstance) + " = " + "VI_1";
    AssignmentTag(VrrpInstance, "", KeywordText(VrrpInstance), "VI_1");
  }

  lemma State1Tag()
    ensures Lex(State1) == FieldLine(State, Some("MASTER"))
  {
    assert State1 == "  " + KeywordText(FieldKeyword(State)) + " = " + "MASTER";
    AssignmentTag(FieldKeyword(State), "  ", KeywordText(FieldKeyword(State)), "MASTER");
  }

  /** `<lead>Last transition = <digits> <tail>` is tagged with the digits. */
  lemma TransitionTag(lead: string, digits: string, tail: string)
    requires AllSpace(lead) && |digits| > 0 && AllDigits(digits)
    ensures Lex(lead + "Last transition = " + digits + " " + tail) == FieldLine(LastTransition, Some(digits))
  {
    var k := FieldKeyword(LastTransition);
    var kw := KeywordText(k);
    var line := lead + "Last transition = " + digits + " " + tail;
    assert EqualIgnoringCase(kw, kw);
    assert line == lead + kw + " " + "=" + " " + digits + [' '] + tail;
    TransitionValueShape(lead, kw, " ", " ", digits, ' ', tail);
    assert FieldValue(line, LastTransition) == Some(digits);
    LexField(line, LastTransition);
  }

  lemma Transition1Tag()
    ensures Lex(Transition1) == FieldLine(LastTransition, Some("1532043820"))
  {
    TransitionTag("  ", "1532043820", "(Thu Jul 19 23:43:40 2018)");
  }

  /** Tagging three lines tags each of them. */
  lemma LexAllThree(a: string, b: string, c: string)
    ensures LexAll([a, b, c]) == [Lex(a), Lex(b), Lex(c)]
  {
  }

  lemma OneGroupRun()
    ensures Run([Header(Some("VI_1")), FieldLine(State, Some("MASTER")), FieldLine(LastTransition, Some("1532043820"))], Initial)
      == Success(Scan(ParserState(Some("VI_1"), map["VI_1" := map[State := "MASTER", LastTransition := "1532043820"]]), false))
  {
    var t1, t2, t3 := Header(Some("VI_1")), FieldLine(State, Some("MASTER")), FieldLine(LastTransition, Some("1532043820"));
    var s1 := ParserState(Some("VI_1"), map["VI_1" := map[]]);
    var s2 := ParserState(Some("VI_1"), map["VI_1" := map[State := "MASTER"]]);
    var s3 := ParserState(Some("VI_1"), map["VI_1" := map[State := "MASTER", LastTransition := "1532043820"]]);
    assert Step(s2, t3) == Continue(s3);
    assert Run([t3], s2) == Success(Scan(s3, false));
    assert Step(s1, t2) == Continue(s2);
    assert [t2, t3][1..] == [t3];
    assert Run([t2, t3], s1) == Success(Scan(s3, false));
    assert Step(Initial, t1) == Continue(s1);
    assert [t1, t2, t3][1..] == [t2, t3];
  }

  /** A header, its state and its last transition (the trailing date is dropped). */
  lemma OneGroupExample()
    ensures Parse([Header1, State1, Transition1])
      == Success(map["VI_1" := map[State := "MASTER", LastTransition := "1532043820"]])
  {
    Header1Tag();
    State1Tag();
    Transition1Tag();
    LexAllThree(Header1, State1, Transition1);
    OneGroupRun();
  }

  lemma OrphanStateLine()
    ensures IsFieldLine("State = MASTER")
  {
    var line := "State = MASTER";
    assert line == "" + KeywordText(FieldKeyword(State)) + " = MASTER";
    KeywordLine(FieldKeyword(State), "", " = MASTER");
  }

  /** A field line before any header is dropped. */
  lemma OrphanStateExample()
    ensures Parse(["State = MASTER"]) == Success(map[])
  {
    var line := "State = MASTER";
    OrphanStateLine();
    var empty: seq<string> := [];
    assert [line] + empty == [line];
    LeadingFieldLinesDropped([line], empty);
    assert Parse(empty) == Success(map[]);
  }

  lemma MarkerExampleLines()
    ensures Lex("VRRP Instance = A") == Header(Some("A"))
    ensures IsMarkerLine("------< Interfaces")
  {
    var header := "VRRP Instance = A";
    var marker := "------< Interfaces";
    assert header == "" + KeywordText(VrrpInstance) + " = " + "A";
    AssignmentTag(VrrpInstance, "", KeywordText(VrrpInstance), "A");
    assert marker == "" + KeywordText(InterfacesMarker) + "";
    KeywordLine(InterfacesMarker, "", "");
  }

  lemma SingleHeaderParse(line: string, name: string)
    requires Lex(line) == Header(Some(name))
    ensures Parse([line]) == Success(map[name := map[]])
  {
    var h := Header(Some(name));
    var s1 := ParserState(Some(name), map[name := map[]]);
    assert LexAll([line]) == [h];
    assert Step(Initial, h) == Continue(s1);
    assert [h][1..] == [];
    assert Run([h], Initial) == Success(Scan(s1, false));
  }

  /**
   * Three one-line pieces form a three-line dump. Kept apart from its one use,
   * where the surrounding `Lex` facts make the same step costly.
   */
  lemma ConcatThree(a: string, b: string, c: string)
    ensures [a] + [b] + [c] == [a, b, c]
  {
  }

  lemma HeaderThenMarker(header: string, marker: string, after: string, name: string)
    requires Lex(header) == Header(Some(name)) && IsMarkerLine(marker)
    ensures Parse([header, marker, after]) == Success(map[name := map[]])
  {
    MarkerEndsInput([header], marker, [after]);
    ConcatThree(header, marker, after);
    SingleHeaderParse(header, name);
  }

  /** Nothing after the interface listing's header is read. */
  lemma MarkerExample()
    ensures Parse(["VRRP Instance = A", "------< Interfaces", "VRRP Instance = B"]) == Success(map["A" := map[]])
  {
    MarkerExampleLines();
    HeaderThenMarker("VRRP Instance = A", "------< Interfaces", "VRRP Instance = B", "A");
  }

  /** A header spelled in lower case opens a group all the same. */
  lemma LowerCaseHeaderExample()
    ensures Parse(["vrrp instance = VI_1"]) == Success(map["VI_1" := map[]])
  {
    var line := "vrrp instance = VI_1";
    assert EqualIgnoringCase("vrrp instance", KeywordText(VrrpInstance));
    assert line == "" + "vrrp instance" + " = " + "VI_1";
    AssignmentTag(VrrpInstance, "", "vrrp instance", "VI_1");
    SingleHeaderParse(line, "VI_1");
  }

  /** `State=MASTER` inside a group passes the prefix test but not `\s+=\s+`: the parse fails. */
  lemma MalformedStateExample()
    ensures Parse([Header1, "State=MASTER"]) == Failure(MalformedLine(FieldKeyword(State)))
  {
    var line := "State=MASTER";
    var kw := KeywordText(FieldKeyword(State));
    assert line == "" + kw + "=MASTER";
    KeywordLine(FieldKeyword(State), "", "=MASTER");
    assert EqualIgnoringCase(kw, kw);
    KeywordLineStripped(FieldKeyword(State), "", kw, "=MASTER");
    assert LStrip(line)[|kw|..] == "=MASTER";
    assert SpacedEquals("=MASTER").None?;
    assert FieldValue(line, State).None?;
    Header1Tag();
    var st := ParserState(Some("VI_1"), map["VI_1" := map[]]);
    assert LexAll([Header1]) == [Header(Some("VI_1"))];
    assert Run([Header(Some("VI_1"))], Initial) == Success(Scan(st, false));
    MalformedFieldRejected(st, line, State);
    var empty: seq<string> := [];
    RejectedLineFailsParse([Header1], st, line, empty);
    assert [Header1] + [line] + empty == [Header1, line];
  }

  /** Into an empty directory: the saved group reads its state back, and another group reads as absent. */
  lemma SavedStateReads(group: string, other: string, state: string)
    requires IsStripped(state) && '\r' !in state && other != group
    ensures GetOldState(SaveState(map[], group, state), group) == Some(state)
    ensures GetOldState(SaveState(map[], group, state), other) == None
  {
    SaveStrippedThenGet(map[], group, state);
    SaveLeavesOthers(map[], group, other, state);
  }

  /** A saved state reads back; a group never saved reads as absent. */
  lemma SavedStateExample()
    ensures GetOldState(SaveState(map[], "VI_1", "MASTER"), "VI_1") == Some("MASTER")
    ensures GetOldState(SaveState(map[], "VI_1", "MASTER"), "VI_2") == None
  {
    var state := "MASTER";
    assert IsStripped(state) && '\r' !in state;
    assert "VI_2" != "VI_1" by {
      assert "VI_2"[3] != "VI_1"[3];
    }
    SavedStateReads("VI_1", "VI_2", state);
  }
}
