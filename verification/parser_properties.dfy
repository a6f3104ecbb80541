/**
 * What `parse_keepalived_data` promises about its input lines: the marker
 * ends the input, field lines outside a group are dropped, a header resets
 * its group, a field line writes one key, and every key of the result comes
 * from a header seen before the marker.
 */
module ParserProperties {
  import opened Wrappers
  import opened Text
  import opened DumpSyntax
  import opened DumpParser

  /** Continues a finished scan over more lines, unless it halted or failed. */
  function Resume(r: Result<Scan, ParseError>, more: seq<Line>): Result<Scan, ParseError>
    requires r.Success? ==> Coherent(r.value.final)
  {
    match r
    case Failure(e) => Failure(e)
    case Success(s) => if s.halted then r else Run(more, s.final)
  }

  /** Scanning `a + b` is scanning `a` and then, if nothing stopped it, `b`. */
  lemma {:induction false} RunAppend(a: seq<Line>, b: seq<Line>, st: ParserState)
    requires Coherent(st)
    ensures Run(a + b, st) == Resume(Run(a, st), b)
    decreases |a|
  {
    if a == [] {
      assert a + b == b;
    } else {
      assert (a + b)[0] == a[0];
      assert (a + b)[1..] == a[1..] + b;
      match Step(st, a[0])
      case Continue(next) =>
        RunAppend(a[1..], b, next);
      case Halt =>
      case Reject(e) =>
    }
  }

  /** Nothing after a marker is ever looked at. */
  lemma MarkerEndsScan(prefix: seq<Line>, suffix: seq<Line>, st: ParserState)
    requires Coherent(st)
    ensures Outcome(Run(prefix + [Marker] + suffix, st)) == Outcome(Run(prefix, st))
  {
    assert prefix + [Marker] + suffix == prefix + ([Marker] + suffix);
    RunAppend(prefix, [Marker] + suffix, st);
    assert ([Marker] + suffix)[0] == Marker;
  }

  /** A line the `------< Interfaces` prefix test accepts. */
  predicate IsMarkerLine(line: string)
  {
    HasKeyword(line, InterfacesMarker)
  }

  /** `parse(prefix + [marker] + suffix) == parse(prefix)`. */
  lemma MarkerEndsInput(prefix: seq<string>, marker: string, suffix: seq<string>)
    requires IsMarkerLine(marker)
    ensures Parse(prefix + [marker] + suffix) == Parse(prefix)
  {
    LexMarker(marker);
    LexAllAppend(prefix + [marker], suffix);
    LexAllAppend(prefix, [marker]);
    assert LexAll([marker]) == [Marker];
    MarkerEndsScan(LexAll(prefix), LexAll(suffix), Initial);
  }

  /** A scan outside any group over lines without a header changes nothing and cannot fail. */
  lemma {:induction false} NoHeaderKeepsState(lines: seq<Line>, st: ParserState)
    requires Coherent(st) && !InsideGroup(st)
    requires forall i | 0 <= i < |lines| :: !lines[i].Header?
    ensures Run(lines, st).Success? && Run(lines, st).value.final == st
    decreases |lines|
  {
    if lines != [] && !lines[0].Marker? {
      NoHeaderKeepsState(lines[1..], st);
    }
  }

  /** Without a `VRRP Instance` line the result is the empty map. */
  lemma NoHeaderNoGroups(lines: seq<string>)
    requires forall i | 0 <= i < |lines| :: !HasKeyword(lines[i], VrrpInstance)
    ensures Parse(lines) == Success(map[])
  {
    var tagged := LexAll(lines);
    forall i | 0 <= i < |lines| ensures !tagged[i].Header? {
      LexHeader(lines[i]);
    }
    NoHeaderKeepsState(tagged, Initial);
  }

  /** Outside a group, field lines, even ones whose full pattern would not match, can be deleted without changing the scan. */
  lemma {:induction false} OrphanFieldLinesDropped(st: ParserState, fields: seq<Line>, rest: seq<Line>)
    requires Coherent(st) && !InsideGroup(st)
    requires forall i | 0 <= i < |fields| :: fields[i].FieldLine?
    ensures Run(fields + rest, st) == Run(rest, st)
    decreases |fields|
  {
    if fields == [] {
      assert fields + rest == rest;
    } else {
      assert (fields + rest)[0] == fields[0];
      assert (fields + rest)[1..] == fields[1..] + rest;
      OrphanFieldLinesDropped(st, fields[1..], rest);
    }
  }

  /** A line one of the four field prefix tests accepts, well-formed or not. */
  predicate IsFieldLine(line: string)
  {
    || HasKeyword(line, FieldKeyword(State))
    || HasKeyword(line, FieldKeyword(LastTransition))
    || HasKeyword(line, FieldKeyword(Interface))
    || HasKeyword(line, FieldKeyword(VirtualRouterId))
  }

  lemma FieldLineTagged(line: string)
    requires IsFieldLine(line)
    ensures Lex(line).FieldLine?
  {
    if HasKeyword(line, FieldKeyword(State)) {
      LexField(line, State);
    } else if HasKeyword(line, FieldKeyword(LastTransition)) {
      LexField(line, LastTransition);
    } else if HasKeyword(line, FieldKeyword(Interface)) {
      LexField(line, Interface);
    } else {
      LexField(line, VirtualRouterId);
    }
  }

  /** Field lines before the first header are dropped, not attached to a default group. */
  lemma LeadingFieldLinesDropped(fields: seq<string>, rest: seq<string>)
    requires forall i | 0 <= i < |fields| :: IsFieldLine(fields[i])
    ensures Parse(fields + rest) == Parse(rest)
  {
    var tagged := LexAll(fields);
    forall i | 0 <= i < |fields| ensures tagged[i].FieldLine? {
      FieldLineTagged(fields[i]);
    }
    LexAllAppend(fields, rest);
    OrphanFieldLinesDropped(Initial, tagged, LexAll(rest));
  }

  /** A header whose name strips to "" creates the entry "" but silences the field lines after it. */
  lemma EmptyNameSilencesFields(st: ParserState, fields: seq<Line>, rest: seq<Line>)
    requires Coherent(st)
    requires forall i | 0 <= i < |fields| :: fields[i].FieldLine?
    ensures Run([Header(Some(""))] + fields + rest, st) == Run([Header(Some(""))] + rest, st)
    ensures Run([Header(Some(""))] + rest, st).Success? ==> "" in Run([Header(Some(""))] + rest, st).value.final.groups
  {
    var next := ParserState(Some(""), st.groups["" := map[]]);
    assert ([Header(Some(""))] + fields + rest)[1..] == fields + rest;
    assert ([Header(Some(""))] + rest)[1..] == rest;
    OrphanFieldLinesDropped(next, fields, rest);
  }

  /** A field tag met outside a group, wherever it stands, can be deleted without changing the scan. */
  lemma FieldLineOutsideGroupDropped(a: seq<Line>, line: Line, b: seq<Line>, st: ParserState)
    requires Coherent(st) && line.FieldLine?
    requires Run(a, st).Success? && !Run(a, st).value.halted ==> !InsideGroup(Run(a, st).value.final)
    ensures Run(a + [line] + b, st) == Run(a + b, st)
  {
    assert a + [line] + b == a + ([line] + b);
    RunAppend(a, [line] + b, st);
    RunAppend(a, b, st);
    var r := Run(a, st);
    if r.Success? && !r.value.halted {
      OrphanFieldLinesDropped(r.value.final, [line], b);
    }
  }

  /** Deleting one line from the middle of a dump deletes its tag from the middle of the tagged dump. */
  lemma LexAllAround(pre: seq<string>, line: string, rest: seq<string>)
    ensures LexAll(pre + [line] + rest) == LexAll(pre) + [Lex(line)] + LexAll(rest)
    ensures LexAll(pre + rest) == LexAll(pre) + LexAll(rest)
  {
    LexAllAppend(pre + [line], rest);
    LexAllAppend(pre, [line]);
    LexAllAppend(pre, rest);
  }

  /** A field line anywhere before the first `VRRP Instance` line can be deleted without changing the result. */
  lemma OrphanFieldLineDropped(pre: seq<string>, line: string, rest: seq<string>)
    requires forall i | 0 <= i < |pre| :: !HasKeyword(pre[i], VrrpInstance)
    requires IsFieldLine(line)
    ensures Parse(pre + [line] + rest) == Parse(pre + rest)
  {
    var tagged := LexAll(pre);
    forall i | 0 <= i < |pre| ensures !tagged[i].Header? {
      LexHeader(pre[i]);
    }
    NoHeaderKeepsState(tagged, Initial);
    FieldLineTagged(line);
    LexAllAround(pre, line, rest);
    FieldLineOutsideGroupDropped(tagged, Lex(line), LexAll(rest), Initial);
  }

  /** After a header tag named "" and no other header tag, a scan that did not stop is outside any group. */
  lemma EmptyHeaderLeavesNoGroup(a: seq<Line>, b: seq<Line>, st: ParserState)
    requires Coherent(st)
    requires forall i | 0 <= i < |b| :: !b[i].Header?
    ensures Run(a + [Header(Some(""))] + b, st).Success? && !Run(a + [Header(Some(""))] + b, st).value.halted
      ==> !InsideGroup(Run(a + [Header(Some(""))] + b, st).value.final)
  {
    var h := Header(Some(""));
    assert a + [h] + b == a + ([h] + b);
    RunAppend(a, [h] + b, st);
    var r := Run(a, st);
    if r.Success? && !r.value.halted {
      var next := ParserState(Some(""), r.value.final.groups["" := map[]]);
      assert ([h] + b)[1..] == b;
      NoHeaderKeepsState(b, next);
    }
  }

  /**
   * A field line after a header whose name strips to "", with no other header
   * line between them, can be deleted without changing the result.
   */
  lemma EmptyNameFieldLineDropped(before: seq<string>, header: string, between: seq<string>, line: string, rest: seq<string>)
    requires HeaderName(header) == Some("")
    requires forall i | 0 <= i < |between| :: !HasKeyword(between[i], VrrpInstance)
    requires IsFieldLine(line)
    ensures Parse(before + [header] + between + [line] + rest) == Parse(before + [header] + between + rest)
  {
    var pre := before + [header] + between;
    var tw := LexAll(between);
    forall i | 0 <= i < |between| ensures !tw[i].Header? {
      LexHeader(between[i]);
    }
    LexHeader(header);
    assert LexAll(pre) == LexAll(before) + [Header(Some(""))] + tw by {
      LexAllAround(before, header, between);
    }
    EmptyHeaderLeavesNoGroup(LexAll(before), tw, Initial);
    FieldLineTagged(line);
    LexAllAround(pre, line, rest);
    FieldLineOutsideGroupDropped(LexAll(pre), Lex(line), LexAll(rest), Initial);
  }

  /** A line that passes none of the six prefix tests, such as `Priority = 100`. */
  ghost predicate IsOtherLine(line: string)
  {
    forall k: Keyword :: !HasKeyword(line, k)
  }

  lemma OtherLineTagged(line: string)
    requires IsOtherLine(line)
    ensures Lex(line) == Other
  {
    assert Classify(line).None? by {
      assert !HasKeyword(line, VrrpInstance);
      assert !HasKeyword(line, FieldKeyword(State));
      assert !HasKeyword(line, FieldKeyword(LastTransition));
      assert !HasKeyword(line, FieldKeyword(Interface));
      assert !HasKeyword(line, FieldKeyword(VirtualRouterId));
      assert !HasKeyword(line, InterfacesMarker);
    }
  }

  /** An untagged line, wherever it stands, can be deleted without changing the scan. */
  lemma OtherTagDropped(a: seq<Line>, b: seq<Line>, st: ParserState)
    requires Coherent(st)
    ensures Run(a + [Other] + b, st) == Run(a + b, st)
  {
    assert a + [Other] + b == a + ([Other] + b);
    assert ([Other] + b)[0] == Other && ([Other] + b)[1..] == b;
    RunAppend(a, [Other] + b, st);
    RunAppend(a, b, st);
  }

  /** A line that passes no prefix test is ignored: deleting it leaves the result, or the error, unchanged. */
  lemma OtherLineDropped(pre: seq<string>, line: string, rest: seq<string>)
    requires IsOtherLine(line)
    ensures Parse(pre + [line] + rest) == Parse(pre + rest)
  {
    OtherLineTagged(line);
    LexAllAround(pre, line, rest);
    OtherTagDropped(LexAll(pre), LexAll(rest), Initial);
  }

  /** A header makes its name current and gives it a fresh, empty record; nothing else changes. */
  lemma HeaderStep(st: ParserState, name: string)
    requires Coherent(st)
    ensures Step(st, Header(Some(name))).Continue?
    ensures Step(st, Header(Some(name))).next.current == Some(name)
    ensures Step(st, Header(Some(name))).next.groups.Keys == st.groups.Keys + {name}
    ensures Step(st, Header(Some(name))).next.groups[name] == map[]
    ensures forall g | g in st.groups && g != name :: Step(st, Header(Some(name))).next.groups[g] == st.groups[g]
  {
  }

  /** A well-formed header line is such a header: it opens its group with an empty record. */
  lemma HeaderResetsRecord(st: ParserState, line: string, name: string)
    requires Coherent(st)
    requires HasKeyword(line, VrrpInstance) && HeaderName(line) == Some(name)
    ensures Step(st, Lex(line)) == Continue(ParserState(Some(name), st.groups[name := map[]]))
  {
    LexHeader(line);
  }

  /** A header line that passes the prefix test but not the full pattern is an error wherever it stands. */
  lemma MalformedHeaderRejected(st: ParserState, line: string)
    requires Coherent(st)
    requires HasKeyword(line, VrrpInstance) && HeaderName(line).None?
    ensures Step(st, Lex(line)) == Reject(MalformedLine(VrrpInstance))
  {
    LexHeader(line);
  }

  /** What a group held before its header, and which group was current, cannot influence the scan from that header on. */
  lemma HeaderForgetsPast(st1: ParserState, st2: ParserState, name: string, rest: seq<Line>)
    requires Coherent(st1) && Coherent(st2)
    requires st1.groups - {name} == st2.groups - {name}
    ensures Run([Header(Some(name))] + rest, st1) == Run([Header(Some(name))] + rest, st2)
  {
    assert st1.groups[name := map[]] == (st1.groups - {name})[name := map[]];
    assert st2.groups[name := map[]] == (st2.groups - {name})[name := map[]];
    assert ([Header(Some(name))] + rest)[1..] == rest;
  }

  /** Inside a group a field line sets exactly that field of the current record, overwriting any earlier value. */
  lemma FieldStep(st: ParserState, f: Field, v: string)
    requires Coherent(st) && InsideGroup(st)
    ensures Step(st, FieldLine(f, Some(v))).Continue?
    ensures Step(st, FieldLine(f, Some(v))).next.current == st.current
    ensures Step(st, FieldLine(f, Some(v))).next.groups.Keys == st.groups.Keys
    ensures Step(st, FieldLine(f, Some(v))).next.groups[st.current.value].Keys == st.groups[st.current.value].Keys + {f}
    ensures Step(st, FieldLine(f, Some(v))).next.groups[st.current.value][f] == v
    ensures forall f' | f' in st.groups[st.current.value] && f' != f ::
      Step(st, FieldLine(f, Some(v))).next.groups[st.current.value][f'] == st.groups[st.current.value][f']
    ensures forall g | g in st.groups && g != st.current.value :: Step(st, FieldLine(f, Some(v))).next.groups[g] == st.groups[g]
  {
  }

  /** A well-formed field line inside a group writes its value under its field in the current record. */
  lemma FieldLineWritesOneKey(st: ParserState, line: string, f: Field, v: string)
    requires Coherent(st) && InsideGroup(st)
    requires HasKeyword(line, FieldKeyword(f)) && FieldValue(line, f) == Some(v)
    ensures Step(st, Lex(line))
      == Continue(ParserState(st.current, st.groups[st.current.value := st.groups[st.current.value][f := v]]))
  {
    LexField(line, f);
  }

  /** Inside a group, a field line that passes the prefix test but not the full pattern is an error. */
  lemma MalformedFieldRejected(st: ParserState, line: string, f: Field)
    requires Coherent(st) && InsideGroup(st)
    requires HasKeyword(line, FieldKeyword(f)) && FieldValue(line, f).None?
    ensures Step(st, Lex(line)) == Reject(MalformedLine(FieldKeyword(f)))
  {
    LexField(line, f);
  }

  /** A rejected line ends the whole parse with its error, whatever follows it. */
  lemma RejectedLineFailsParse(prefix: seq<string>, st: ParserState, line: string, suffix: seq<string>)
    requires Run(LexAll(prefix), Initial) == Success(Scan(st, false))
    requires Step(st, Lex(line)).Reject?
    ensures Parse(prefix + [line] + suffix) == Failure(Step(st, Lex(line)).error)
  {
    var tail := [line] + suffix;
    assert prefix + [line] + suffix == prefix + tail;
    LexAllAppend(prefix, tail);
    RunAppend(LexAll(prefix), LexAll(tail), Initial);
    assert LexAll(tail)[0] == Lex(line);
  }

  /** The names of the well-formed headers before the first marker line. */
  function HeaderNamesUntilMarker(lines: seq<string>): set<string>
    decreases |lines|
  {
    if lines == [] || IsMarkerLine(lines[0]) then {}
    else if HeaderName(lines[0]).Some? then {HeaderName(lines[0]).value} + HeaderNamesUntilMarker(lines[1..])
    else HeaderNamesUntilMarker(lines[1..])
  }

  /** The names of the well-formed header tags before the first marker tag. */
  function TaggedNamesUntilMarker(lines: seq<Line>): set<string>
    decreases |lines|
  {
    if lines == [] || lines[0].Marker? then {}
    else if lines[0].Header? && lines[0].name.Some? then {lines[0].name.value} + TaggedNamesUntilMarker(lines[1..])
    else TaggedNamesUntilMarker(lines[1..])
  }

  lemma {:induction false} RunKeys(lines: seq<Line>, st: ParserState)
    requires Coherent(st)
    requires Run(lines, st).Success?
    ensures Run(lines, st).value.final.groups.Keys == st.groups.Keys + TaggedNamesUntilMarker(lines)
    decreases |lines|
  {
    if lines != [] && !lines[0].Marker? {
      RunKeys(lines[1..], Step(st, lines[0]).next);
    }
  }

  lemma {:induction false} TaggedNames(lines: seq<string>)
    ensures TaggedNamesUntilMarker(LexAll(lines)) == HeaderNamesUntilMarker(lines)
    decreases |lines|
  {
    if lines != [] {
      LexMarker(lines[0]);
      LexHeader(lines[0]);
      assert LexAll(lines)[1..] == LexAll(lines[1..]);
      TaggedNames(lines[1..]);
    }
  }

  /** The keys of a successful parse are exactly the names of the headers before the first marker. */
  lemma ResultKeysAreHeaderNames(lines: seq<string>)
    requires Parse(lines).Success?
    ensures Parse(lines).value.Keys == HeaderNamesUntilMarker(lines)
  {
    RunKeys(LexAll(lines), Initial);
    TaggedNames(lines);
  }

  /** Every stored field value is stripped and one line long; a transition time is a digit string. */
  predicate WellFormedValue(f: Field, v: string)
  {
    IsStripped(v) && '\n' !in v && (f == LastTransition ==> |v| > 0 && AllDigits(v))
  }

  predicate WellFormedRecord(rec: Record)
  {
    forall f | f in rec :: WellFormedValue(f, rec[f])
  }

  /** Group names are stripped and one line long, and every record is well formed. */
  predicate WellFormedGroups(groups: Groups)
  {
    forall n | n in groups :: IsStripped(n) && '\n' !in n && WellFormedRecord(groups[n])
  }

  /** What a tagged line carries is stripped and one line long. */
  predicate WellFormedTag(line: Line)
  {
    match line
    case Header(Some(n)) => IsStripped(n) && '\n' !in n
    case FieldLine(f, Some(v)) => WellFormedValue(f, v)
    case _ => true
  }

  lemma LexWellFormed(line: string)
    ensures WellFormedTag(Lex(line))
  {
  }

  lemma {:induction false} RunKeepsWellFormed(lines: seq<Line>, st: ParserState)
    requires Coherent(st) && WellFormedGroups(st.groups)
    requires forall i | 0 <= i < |lines| :: WellFormedTag(lines[i])
    requires Run(lines, st).Success?
    ensures WellFormedGroups(Run(lines, st).value.final.groups)
    decreases |lines|
  {
    if lines != [] {
      var s := Step(st, lines[0]);
      if s.Continue? {
        assert WellFormedTag(lines[0]);
        assert WellFormedGroups(s.next.groups);
        RunKeepsWellFormed(lines[1..], s.next);
      }
    }
  }

  /** Whatever a successful parse stores is stripped, and `last_transition` is a non-empty run of digits. */
  lemma ParsedValuesWellFormed(lines: seq<string>)
    requires Parse(lines).Success?
    ensures WellFormedGroups(Parse(lines).value)
  {
    var tagged := LexAll(lines);
    forall i | 0 <= i < |lines| ensures WellFormedTag(tagged[i]) {
      LexWellFormed(lines[i]);
    }
    RunKeepsWellFormed(tagged, Initial);
  }

  lemma StartsWithCaseInsensitive(x: string, y: string, p: string)
    requires EqualIgnoringCase(x, y)
    ensures StartsWithIgnoringCase(x, p) == StartsWithIgnoringCase(y, p)
  {
    if |p| <= |x| {
      assert forall i | 0 <= i < |p| :: ToLower(x[..|p|][i]) == ToLower(y[..|p|][i]);
    }
  }

  lemma CaseVariantsEqual(k: Keyword, spelled: string, tail: string)
    requires EqualIgnoringCase(spelled, KeywordText(k))
    ensures EqualIgnoringCase(spelled + tail, KeywordText(k) + tail)
  {
    var kw := KeywordText(k);
    var u1, u2 := spelled + tail, kw + tail;
    forall i | 0 <= i < |u1| ensures ToLower(u1[i]) == ToLower(u2[i]) {
      if i < |kw| {
        assert u1[i] == spelled[i] && u2[i] == kw[i];
      } else {
        assert u1[i] == u2[i];
      }
    }
  }

  /** Two lines whose stripped forms agree up to case pass the same prefix tests. */
  lemma SameClassification(line1: string, line2: string)
    requires EqualIgnoringCase(LStrip(line1), LStrip(line2))
    ensures Classify(line1) == Classify(line2)
  {
    var u1, u2 := LStrip(line1), LStrip(line2);
    StartsWithCaseInsensitive(u1, u2, KeywordText(VrrpInstance));
    StartsWithCaseInsensitive(u1, u2, KeywordText(FieldKeyword(State)));
    StartsWithCaseInsensitive(u1, u2, KeywordText(FieldKeyword(LastTransition)));
    StartsWithCaseInsensitive(u1, u2, KeywordText(FieldKeyword(Interface)));
    StartsWithCaseInsensitive(u1, u2, KeywordText(FieldKeyword(VirtualRouterId)));
    StartsWithCaseInsensitive(u1, u2, KeywordText(InterfacesMarker));
  }

  /** Everything the full pattern extracts depends only on what follows `<keyword>\s+=\s+`. */
  lemma SameExtraction(line1: string, line2: string, k: Keyword)
    requires AfterEquals(line1, k) == AfterEquals(line2, k)
    ensures AssignedValue(line1, k) == AssignedValue(line2, k)
    ensures k == FieldKeyword(LastTransition) ==> TransitionValue(line1) == TransitionValue(line2)
  {
  }

  /** A line's tag depends only on its classification and on what follows its keyword's `=`. */
  lemma SameTag(line1: string, line2: string, k: Keyword)
    requires Classify(line1) == Classify(line2) == Some(k)
    requires AfterEquals(line1, k) == AfterEquals(line2, k)
    ensures Lex(line1) == Lex(line2)
  {
    SameExtraction(line1, line2, k);
  }

  /** A case variant of a keyword line passes the same prefix test as the line spelled as in the source. */
  lemma VariantClassified(k: Keyword, lead: string, spelled: string, tail: string)
    requires AllSpace(lead) && EqualIgnoringCase(spelled, KeywordText(k))
    ensures Classify(lead + spelled + tail) == Classify(lead + KeywordText(k) + tail) == Some(k)
  {
    var kw := KeywordText(k);
    var line1, line2 := lead + spelled + tail, lead + kw + tail;
    KeywordLineStripped(k, lead, spelled, tail);
    KeywordLineStripped(k, lead, kw, tail);
    CaseVariantsEqual(k, spelled, tail);
    SameClassification(line1, line2);
    assert (kw + tail)[..|kw|] == kw;
    assert HasKeyword(line2, k) by {
      assert EqualIgnoringCase(kw, kw);
    }
    ClassifyIffKeyword(line2, k);
  }

  /** A case variant leaves the same text after `<keyword>\s+=\s+`. */
  lemma VariantAfterEquals(k: Keyword, lead: string, spelled: string, tail: string)
    requires AllSpace(lead) && EqualIgnoringCase(spelled, KeywordText(k))
    ensures AfterEquals(lead + spelled + tail, k) == AfterEquals(lead + KeywordText(k) + tail, k)
  {
    var kw := KeywordText(k);
    KeywordLineStripped(k, lead, spelled, tail);
    KeywordLineStripped(k, lead, kw, tail);
    CaseVariantsEqual(k, spelled, tail);
    assert (spelled + tail)[|kw|..] == tail == (kw + tail)[|kw|..];
  }

  /** Keyword text may be written in any ASCII case: the line is tagged as if spelled as in the source. */
  lemma KeywordCaseIrrelevant(k: Keyword, lead: string, spelled: string, tail: string)
    requires AllSpace(lead) && EqualIgnoringCase(spelled, KeywordText(k))
    ensures Lex(lead + spelled + tail) == Lex(lead + KeywordText(k) + tail)
  {
    VariantClassified(k, lead, spelled, tail);
    VariantAfterEquals(k, lead, spelled, tail);
    SameTag(lead + spelled + tail, lead + KeywordText(k) + tail, k);
  }
}
