/**
 * The line grammar of keepalived's legacy plaintext state dump, as
 * `parse_keepalived_data` recognises it: which keyword a line starts with,
 * and the value its stricter `<keyword>\s+=\s+...` pattern extracts.
 */
module DumpSyntax {
  import opened Wrappers
  import opened Text

  /** The four attributes a group record can carry, stored in Python under
      the keys "state", "last_transition", "interface" and "vrid". */
  datatype Field = State | LastTransition | Interface | VirtualRouterId

  /** The leading keywords the parser tests for, in the order it tests them. */
  datatype Keyword = VrrpInstance | FieldKeyword(field: Field) | InterfacesMarker

  function KeywordText(k: Keyword): string
  {
    match k
    case VrrpInstance => "VRRP Instance"
    case FieldKeyword(State) => "State"
    case FieldKeyword(LastTransition) => "Last transition"
    case FieldKeyword(Interface) => "Interface"
    case FieldKeyword(VirtualRouterId) => "Virtual Router ID"
    case InterfacesMarker => "------< Interfaces"
  }

  /** The bare prefix test `re.match(r'^\s*<keyword>', line, re.IGNORECASE)`. */
  predicate HasKeyword(line: string, k: Keyword)
  {
    StartsWithIgnoringCase(LStrip(line), KeywordText(k))
  }

  /** The first keyword of the `if`/`elif` chain whose prefix test accepts the line. */
  function Classify(line: string): (r: Option<Keyword>)
    ensures r.Some? ==> HasKeyword(line, r.value)
  {
    if HasKeyword(line, VrrpInstance) then Some(VrrpInstance)
    else if HasKeyword(line, FieldKeyword(State)) then Some(FieldKeyword(State))
    else if HasKeyword(line, FieldKeyword(LastTransition)) then Some(FieldKeyword(LastTransition))
    else if HasKeyword(line, FieldKeyword(Interface)) then Some(FieldKeyword(Interface))
    else if HasKeyword(line, FieldKeyword(VirtualRouterId)) then Some(FieldKeyword(VirtualRouterId))
    else if HasKeyword(line, InterfacesMarker) then Some(InterfacesMarker)
    else None
  }

  /** The first two characters of a keyword's text, lower-cased; they tell every keyword apart. */
  function KeywordHead(k: Keyword): (r: (char, char))
    ensures |KeywordText(k)| >= 2
    ensures r.0 == ToLower(KeywordText(k)[0]) && r.1 == ToLower(KeywordText(k)[1])
  {
    match k
    case VrrpInstance => ('v', 'r')
    case FieldKeyword(State) => ('s', 't')
    case FieldKeyword(LastTransition) => ('l', 'a')
    case FieldKeyword(Interface) => ('i', 'n')
    case FieldKeyword(VirtualRouterId) => ('v', 'i')
    case InterfacesMarker => ('-', '-')
  }

  /** No two keyword prefixes can both accept a line: the `elif` chain's order never decides anything. */
  lemma KeywordsExclusive(line: string, k1: Keyword, k2: Keyword)
    requires HasKeyword(line, k1) && HasKeyword(line, k2)
    ensures k1 == k2
  {
    var u := LStrip(line);
    var h1, h2 := KeywordHead(k1), KeywordHead(k2);
    assert h1.0 == ToLower(u[0]) == h2.0;
    assert h1.1 == ToLower(u[1]) == h2.1;
  }

  /** The classifier picks a keyword exactly when that keyword's prefix test accepts the line. */
  lemma ClassifyIffKeyword(line: string, k: Keyword)
    ensures Classify(line) == Some(k) <==> HasKeyword(line, k)
  {
    if HasKeyword(line, k) {
      ClassifyFindsSome(line, k);
      KeywordsExclusive(line, Classify(line).value, k);
    }
  }

  /** A line that passes any prefix test takes some branch of the chain. */
  lemma ClassifyFindsSome(line: string, k: Keyword)
    requires HasKeyword(line, k)
    ensures Classify(line).Some?
  {
    ClassifyAnyKeyword(line);
    match k
    case VrrpInstance =>
    case FieldKeyword(State) =>
    case FieldKeyword(LastTransition) =>
    case FieldKeyword(Interface) =>
    case FieldKeyword(VirtualRouterId) =>
    case InterfacesMarker =>
  }

  /** If any of the six prefix tests passes, the chain takes a branch. */
  lemma ClassifyAnyKeyword(line: string)
    ensures || HasKeyword(line, VrrpInstance)
            || HasKeyword(line, FieldKeyword(State))
            || HasKeyword(line, FieldKeyword(LastTransition))
            || HasKeyword(line, FieldKeyword(Interface))
            || HasKeyword(line, FieldKeyword(VirtualRouterId))
            || HasKeyword(line, InterfacesMarker)
            ==> Classify(line).Some?
  {
  }

  /**
   * What `\s+=\s+` leaves of `t`: the rest after a non-empty whitespace run,
   * `=`, and the whole whitespace run that follows; None when `t` does not
   * start with that shape. Greedy matching and backtracking agree here,
   * because `=` is not whitespace.
   */
  function SpacedEquals(t: string): (r: Option<string>)
    ensures r.Some? ==> |r.value| < |t| && IsSuffix(r.value, t)
    ensures r.Some? ==> r.value == [] || !IsSpace(r.value[0])
  {
    if t == [] || !IsSpace(t[0]) then None
    else
      var t1 := LStrip(t);
      if t1 == [] || t1[0] != '=' then None
      else
        var t2 := t1[1..];
        if t2 == [] || !IsSpace(t2[0]) then None
        else
          assert IsSuffix(t2, t1);
          SuffixTransitive(t, t1, t2);
          SuffixTransitive(t, t2, LStrip(t2));
          Some(LStrip(t2))
  }

  /** The text after `^\s*<keyword>\s+=\s+`, or None when the line does not start with that shape. */
  function AfterEquals(line: string, k: Keyword): (r: Option<string>)
    ensures r.Some? ==> HasKeyword(line, k)
    ensures r.Some? ==> |r.value| < |line| && IsSuffix(r.value, line)
    ensures r.Some? ==> r.value == [] || !IsSpace(r.value[0])
  {
    var u := LStrip(line);
    var kw := KeywordText(k);
    if !StartsWithIgnoringCase(u, kw) then None
    else
      var t := u[|kw|..];
      var r := SpacedEquals(t);
      if r.None? then None
      else
        assert IsSuffix(t, u);
        SuffixTransitive(line, u, t);
        SuffixTransitive(line, t, r.value);
        r
  }

  /** `(.*)$` can match all of `s`: `.` stops at a newline and `$` also matches before a final one. */
  predicate NoInnerNewline(s: string)
  {
    forall i | 0 <= i < |s| - 1 :: s[i] != '\n'
  }

  /** Stripping a string whose only newline can be its last character leaves no newline. */
  lemma StripKeepsNoNewline(s: string)
    requires NoInnerNewline(s)
    ensures '\n' !in Strip(s)
  {
    var l := LStrip(s);
    var v := RStrip(l);
    var i := |s| - |l|;
    assert Strip(s) == v;
    forall m | 0 <= m < |v| ensures v[m] != '\n' {
      assert v[m] == l[m];
      assert l[m] == s[i + m];
      if i + m == |s| - 1 {
        assert m == |v| - 1;
        assert IsSpace('\n');
      }
    }
  }

  /** The stripped group of `^\s*<keyword>\s+=\s+(.*)$`, or None when `re.match` fails. */
  function AssignedValue(line: string, k: Keyword): (r: Option<string>)
    ensures r.Some? ==> HasKeyword(line, k)
    ensures r.Some? ==> IsStripped(r.value) && '\n' !in r.value
  {
    match AfterEquals(line, k)
    case None => None
    case Some(rest) =>
      if NoInnerNewline(rest) then
        StripKeepsNoNewline(rest);
        Some(Strip(rest))
      else None
  }

  /** `d` occurs in `line` at index `i` and is followed there by a whitespace character. */
  predicate DigitsThenSpaceAt(line: string, i: int, d: string)
  {
    0 <= i && i + |d| < |line| && line[i..i + |d|] == d && IsSpace(line[i + |d|])
  }

  lemma DigitsInSuffix(line: string, rest: string, d: string)
    requires IsSuffix(rest, line)
    requires |d| < |rest| && d == rest[..|d|] && IsSpace(rest[|d|])
    ensures DigitsThenSpaceAt(line, |line| - |rest|, d)
  {
    var i := |line| - |rest|;
    assert line[i..i + |d|] == rest[..|d|];
    assert line[i + |d|] == rest[|d|];
  }

  /** The group of `^\s*Last transition\s+=\s+(\d+)\s`: a digit run that must be followed by whitespace. */
  function TransitionValue(line: string): (r: Option<string>)
    ensures r.Some? ==> HasKeyword(line, FieldKeyword(LastTransition))
    ensures r.Some? ==> |r.value| > 0 && AllDigits(r.value)
    ensures r.Some? ==> exists i :: DigitsThenSpaceAt(line, i, r.value)
  {
    match AfterEquals(line, FieldKeyword(LastTransition))
    case None => None
    case Some(rest) =>
      var d := DigitRun(rest);
      if |d| > 0 && |d| < |rest| && IsSpace(rest[|d|]) then
        DigitsInSuffix(line, rest, d);
        Some(d)
      else None
  }

  /** The value a field line stores, or None when its full pattern does not match. */
  function FieldValue(line: string, f: Field): (r: Option<string>)
    ensures r.Some? ==> HasKeyword(line, FieldKeyword(f))
    ensures r.Some? ==> IsStripped(r.value) && '\n' !in r.value
    ensures r.Some? && f == LastTransition ==> |r.value| > 0 && AllDigits(r.value)
  {
    if f == LastTransition then
      var r := TransitionValue(line);
      if r.Some? then DigitsAreStripped(r.value); r else r
    else AssignedValue(line, FieldKeyword(f))
  }

  /** The stripped name of a `VRRP Instance = <name>` header. */
  function HeaderName(line: string): Option<string>
  {
    AssignedValue(line, VrrpInstance)
  }

  /**
   * A line as the parser's `if`/`elif` chain sees it. A keyword line carries
   * the value its full pattern extracts, or None when that pattern does not
   * match (the source evaluates it, and raises, only on the branch it takes).
   */
  datatype Line =
    | Header(name: Option<string>)
    | FieldLine(field: Field, value: Option<string>)
    | Marker
    | Other

  /** Tags a line by the first prefix test that accepts it. */
  function Lex(line: string): Line
  {
    match Classify(line)
    case None => Other
    case Some(VrrpInstance) => Header(HeaderName(line))
    case Some(FieldKeyword(f)) => FieldLine(f, FieldValue(line, f))
    case Some(InterfacesMarker) => Marker
  }

  /** A line is tagged Header exactly when the `VRRP Instance` prefix test accepts it. */
  lemma LexHeader(line: string)
    ensures Lex(line).Header? <==> HasKeyword(line, VrrpInstance)
    ensures Lex(line).Header? ==> Lex(line).name == HeaderName(line)
  {
    if HasKeyword(line, VrrpInstance) {
      assert Classify(line) == Some(VrrpInstance);
    } else {
      assert Classify(line) != Some(VrrpInstance);
    }
  }

  /** A line is tagged with field `f` exactly when that field's prefix test accepts it. */
  lemma LexField(line: string, f: Field)
    ensures Lex(line) == FieldLine(f, FieldValue(line, f)) <==> HasKeyword(line, FieldKeyword(f))
  {
    ClassifyIffKeyword(line, FieldKeyword(f));
  }

  /** A line is tagged Marker exactly when the `------< Interfaces` prefix test accepts it. */
  lemma LexMarker(line: string)
    ensures Lex(line) == Marker <==> HasKeyword(line, InterfacesMarker)
  {
    ClassifyIffKeyword(line, InterfacesMarker);
  }

  /** Tags a whole dump, line by line. */
  function LexAll(lines: seq<string>): (r: seq<Line>)
    ensures |r| == |lines|
    ensures forall i | 0 <= i < |lines| :: r[i] == Lex(lines[i])
  {
    MapLines(Lex, lines)
  }

  /** `f` applied to every element of `s`. */
  function MapLines<A, B>(f: A -> B, s: seq<A>): (r: seq<B>)
    ensures |r| == |s|
    ensures forall i | 0 <= i < |s| :: r[i] == f(s[i])
  {
    seq(|s|, i requires 0 <= i < |s| => f(s[i]))
  }

  lemma MapLinesAppend<A, B>(f: A -> B, a: seq<A>, b: seq<A>)
    ensures MapLines(f, a + b) == MapLines(f, a) + MapLines(f, b)
  {
    var whole, parts := MapLines(f, a + b), MapLines(f, a) + MapLines(f, b);
    forall i | 0 <= i < |whole| ensures whole[i] == parts[i] {
      if i < |a| {
        assert (a + b)[i] == a[i];
      } else {
        assert (a + b)[i] == b[i - |a|];
      }
    }
  }

  lemma LexAllAppend(a: seq<string>, b: seq<string>)
    ensures LexAll(a + b) == LexAll(a) + LexAll(b)
  {
    MapLinesAppend(Lex, a, b);
  }

  /** Leading whitespace goes, and a line then starts with its keyword in whatever case it was spelled. */
  lemma KeywordLineStripped(k: Keyword, lead: string, spelled: string, tail: string)
    requires AllSpace(lead) && EqualIgnoringCase(spelled, KeywordText(k))
    ensures LStrip(lead + spelled + tail) == spelled + tail
  {
    var h := KeywordHead(k);
    assert ToLower(spelled[0]) == h.0;
    assert !IsSpace(spelled[0]);
    assert lead + spelled + tail == lead + (spelled + tail);
    LStripSpaces(lead, spelled + tail);
    LStripNonSpace(spelled + tail);
  }

  /** `\s+=\s+` accepts whitespace, `=`, whitespace, and leaves exactly the rest. */
  lemma SpacedEqualsShape(ws1: string, ws2: string, rest: string)
    requires |ws1| > 0 && AllSpace(ws1) && |ws2| > 0 && AllSpace(ws2)
    requires rest == [] || !IsSpace(rest[0])
    ensures SpacedEquals(ws1 + "=" + ws2 + rest) == Some(rest)
  {
    var e := ['='] + ws2 + rest;
    var t := ws1 + e;
    assert ws1 + "=" + ws2 + rest == t;
    assert t[0] == ws1[0];
    assert e[0] == '=' && e[1..] == ws2 + rest;
    assert LStrip(t) == e by {
      LStripSpaces(ws1, e);
      assert !IsSpace('=');
      LStripNonSpace(e);
    }
    assert LStrip(ws2 + rest) == rest by {
      LStripSpaces(ws2, rest);
      LStripNonSpace(rest);
    }
    assert (ws2 + rest)[0] == ws2[0];
  }

  /** `^\s*<keyword>\s+=\s+` accepts a line of that shape, in any keyword case, and leaves exactly the rest. */
  lemma AfterEqualsShape(k: Keyword, lead: string, spelled: string, ws1: string, ws2: string, rest: string)
    requires AllSpace(lead) && EqualIgnoringCase(spelled, KeywordText(k))
    requires |ws1| > 0 && AllSpace(ws1) && |ws2| > 0 && AllSpace(ws2)
    requires rest == [] || !IsSpace(rest[0])
    ensures AfterEquals(lead + spelled + ws1 + "=" + ws2 + rest, k) == Some(rest)
  {
    var kw := KeywordText(k);
    var t := ws1 + "=" + ws2 + rest;
    assert lead + spelled + ws1 + "=" + ws2 + rest == lead + spelled + t;
    KeywordLineStripped(k, lead, spelled, t);
    assert (spelled + t)[..|kw|] == spelled;
    assert (spelled + t)[|kw|..] == t;
    SpacedEqualsShape(ws1, ws2, rest);
  }

  /** The `(.*)$` pattern accepts a one-line value with trailing whitespace, and `strip()` returns the value. */
  lemma AssignedValueShape(k: Keyword, lead: string, spelled: string, ws1: string, ws2: string, value: string, trail: string)
    requires AllSpace(lead) && EqualIgnoringCase(spelled, KeywordText(k))
    requires |ws1| > 0 && AllSpace(ws1) && |ws2| > 0 && AllSpace(ws2)
    requires IsStripped(value) && '\n' !in value
    requires AllSpace(trail) && NoInnerNewline(trail)
    ensures AssignedValue(lead + spelled + ws1 + "=" + ws2 + value + trail, k) == Some(value)
  {
    if value == [] {
      EmptyValueShape(k, lead, spelled, ws1, ws2, value, trail);
    } else {
      NonEmptyValueShape(k, lead, spelled, ws1, ws2, value, trail);
    }
  }

  lemma NonEmptyValueShape(k: Keyword, lead: string, spelled: string, ws1: string, ws2: string, value: string, trail: string)
    requires AllSpace(lead) && EqualIgnoringCase(spelled, KeywordText(k))
    requires |ws1| > 0 && AllSpace(ws1) && |ws2| > 0 && AllSpace(ws2)
    requires |value| > 0 && IsStripped(value) && '\n' !in value
    requires AllSpace(trail) && NoInnerNewline(trail)
    ensures AssignedValue(lead + spelled + ws1 + "=" + ws2 + value + trail, k) == Some(value)
  {
    var line := lead + spelled + ws1 + "=" + ws2 + value + trail;
    var rest := value + trail;
    assert AfterEquals(line, k) == Some(rest) by {
      assert line == lead + spelled + ws1 + "=" + ws2 + rest;
      AfterEqualsShape(k, lead, spelled, ws1, ws2, rest);
    }
    OneLineValue(value, trail);
    AssignedFromRest(line, k, rest);
    StripTrailing(value, trail);
  }

  /** With an empty value the second whitespace run takes the trailing whitespace too, and `(.*)` matches "". */
  lemma EmptyValueShape(k: Keyword, lead: string, spelled: string, ws1: string, ws2: string, value: string, trail: string)
    requires AllSpace(lead) && EqualIgnoringCase(spelled, KeywordText(k))
    requires |ws1| > 0 && AllSpace(ws1) && |ws2| > 0 && AllSpace(ws2)
    requires value == [] && AllSpace(trail)
    ensures AssignedValue(lead + spelled + ws1 + "=" + ws2 + value + trail, k) == Some(value)
  {
    var ws := ws2 + trail;
    AllSpaceAppend(ws2, trail);
    var line := lead + spelled + ws1 + "=" + ws2 + value + trail;
    assert line == lead + spelled + ws1 + "=" + ws + value;
    AfterEqualsShape(k, lead, spelled, ws1, ws, value);
    AssignedFromRest(line, k, value);
  }

  /** Once `\s+=\s+` has matched, `(.*)$` accepts the rest exactly when it has no inner newline. */
  lemma AssignedFromRest(line: string, k: Keyword, rest: string)
    requires AfterEquals(line, k) == Some(rest) && NoInnerNewline(rest)
    ensures AssignedValue(line, k) == Some(Strip(rest))
  {
  }

  /** Trailing whitespace after a stripped value is all that `strip()` removes. */
  lemma StripTrailing(value: string, trail: string)
    requires IsStripped(value) && AllSpace(trail)
    ensures Strip(value + trail) == value
  {
    var empty: string := [];
    assert empty + value + trail == value + trail;
    StripPadded(empty, value, trail);
  }

  lemma OneLineValue(value: string, trail: string)
    requires '\n' !in value && NoInnerNewline(trail)
    ensures NoInnerNewline(value + trail)
  {
    forall i | 0 <= i < |value + trail| - 1 ensures (value + trail)[i] != '\n' {
      if i < |value| {
        assert (value + trail)[i] == value[i];
      } else {
        assert (value + trail)[i] == trail[i - |value|];
      }
    }
  }

  /** `\d+\s` takes a digit run that is followed by whitespace, whatever comes after. */
  lemma TransitionValueShape(lead: string, spelled: string, ws1: string, ws2: string, digits: string, sp: char, tail: string)
    requires AllSpace(lead) && EqualIgnoringCase(spelled, KeywordText(FieldKeyword(LastTransition)))
    requires |ws1| > 0 && AllSpace(ws1) && |ws2| > 0 && AllSpace(ws2)
    requires |digits| > 0 && AllDigits(digits) && IsSpace(sp)
    ensures TransitionValue(lead + spelled + ws1 + "=" + ws2 + digits + [sp] + tail) == Some(digits)
  {
    var rest := digits + [sp] + tail;
    assert lead + spelled + ws1 + "=" + ws2 + digits + [sp] + tail == lead + spelled + ws1 + "=" + ws2 + rest;
    assert rest[0] == digits[0] && IsDigit(digits[0]);
    AfterEqualsShape(FieldKeyword(LastTransition), lead, spelled, ws1, ws2, rest);
    assert !IsDigit(sp);
    DigitRunStops(digits, sp, tail);
  }

  lemma {:induction false} DigitRunStops(digits: string, c: char, tail: string)
    requires AllDigits(digits) && !IsDigit(c)
    ensures DigitRun(digits + [c] + tail) == digits
    decreases |digits|
  {
    var s := digits + [c] + tail;
    if digits == [] {
      assert s[0] == c;
    } else {
      assert s[0] == digits[0];
      assert s[1..] == digits[1..] + [c] + tail;
      DigitRunStops(digits[1..], c, tail);
    }
  }

  /**
   * `line` is `<lead><spelled><ws1>=<ws2><rest>`: leading whitespace, the keyword
   * in any ASCII case, `\s+=\s+` taken greedily, and the rest.
   */
  predicate AssignmentShape(line: string, k: Keyword, lead: string, spelled: string, ws1: string, ws2: string, rest: string)
  {
    && line == lead + spelled + ws1 + "=" + ws2 + rest
    && AllSpace(lead) && EqualIgnoringCase(spelled, KeywordText(k))
    && |ws1| > 0 && AllSpace(ws1) && |ws2| > 0 && AllSpace(ws2)
    && (rest == [] || !IsSpace(rest[0]))
  }

  /** A string is what its suffix leaves, preceded by the rest. */
  lemma SplitAtSuffix(s: string, r: string)
    requires IsSuffix(r, s)
    ensures s == s[..|s| - |r|] + r
  {
  }

  /** What `\s+=\s+` accepted really was whitespace, `=` and whitespace. */
  lemma SpacedEqualsParts(t: string) returns (ws1: string, ws2: string)
    requires SpacedEquals(t).Some?
    ensures |ws1| > 0 && AllSpace(ws1) && |ws2| > 0 && AllSpace(ws2)
    ensures t == ws1 + "=" + ws2 + SpacedEquals(t).value
  {
    SpacedEqualsSteps(t);
    var t1 := LStrip(t);
    var t2 := t1[1..];
    ws1, ws2 := LeadingSpace(t), LeadingSpace(t2);
    SpacedEqualsJoin(t, ws1, t1, ws2, LStrip(t2));
  }

  lemma SpacedEqualsJoin(t: string, ws1: string, t1: string, ws2: string, r: string)
    requires t == ws1 + t1 && |t1| > 0 && t1[0] == '=' && t1[1..] == ws2 + r
    ensures t == ws1 + "=" + ws2 + r
  {
    assert t1 == "=" + t1[1..];
    assert ws1 + ("=" + (ws2 + r)) == ws1 + "=" + ws2 + r;
  }

  /** The tests `SpacedEquals` passed on the way to its result. */
  lemma SpacedEqualsSteps(t: string)
    requires SpacedEquals(t).Some?
    ensures |t| > 0 && IsSpace(t[0])
    ensures |LStrip(t)| > 1 && LStrip(t)[0] == '=' && IsSpace(LStrip(t)[1])
    ensures SpacedEquals(t) == Some(LStrip(LStrip(t)[1..]))
  {
  }

  /** The whitespace `LStrip` removes from a string that starts with whitespace: non-empty. */
  function LeadingSpace(s: string): (w: string)
    requires |s| > 0 && IsSpace(s[0])
    ensures |w| > 0 && AllSpace(w) && s == w + LStrip(s)
  {
    LStripDropsSpace(s);
    SplitAtSuffix(s, LStrip(s));
    assert LStrip(s) == LStrip(s[1..]);
    s[..|s| - |LStrip(s)|]
  }

  /** A line that passes a prefix test is leading whitespace, the keyword as spelled, and the rest. */
  lemma KeywordLineParts(line: string, kw: string) returns (lead: string, spelled: string)
    requires StartsWithIgnoringCase(LStrip(line), kw)
    ensures AllSpace(lead) && EqualIgnoringCase(spelled, kw)
    ensures line == lead + (spelled + LStrip(line)[|kw|..])
  {
    var u := LStrip(line);
    LStripDropsSpace(line);
    SplitAtSuffix(line, u);
    lead := line[..|line| - |u|];
    spelled := u[..|kw|];
    assert u == spelled + u[|kw|..];
  }

  /** A line `AfterEquals` accepts has the shape `^\s*<keyword>\s+=\s+`, followed by what it returns. */
  lemma AfterEqualsParts(line: string, k: Keyword) returns (lead: string, spelled: string, ws1: string, ws2: string)
    requires AfterEquals(line, k).Some?
    ensures AssignmentShape(line, k, lead, spelled, ws1, ws2, AfterEquals(line, k).value)
  {
    var kw := KeywordText(k);
    var t := LStrip(line)[|kw|..];
    assert AfterEquals(line, k) == SpacedEquals(t);
    lead, spelled := KeywordLineParts(line, kw);
    ws1, ws2 := SpacedEqualsParts(t);
    AppendShape(lead, spelled, t, ws1, ws2, SpacedEquals(t).value);
  }

  /** Regroups `lead + (spelled + t)` once `t` is known to be `ws1 + "=" + ws2 + r`. */
  lemma AppendShape(lead: string, spelled: string, t: string, ws1: string, ws2: string, r: string)
    requires t == ws1 + "=" + ws2 + r
    ensures lead + (spelled + t) == lead + spelled + ws1 + "=" + ws2 + r
  {
  }

  /** `^\s*<keyword>\s+=\s+(.*)$` yields `v` exactly when the line has that shape with a rest that strips to `v`. */
  lemma AssignedValueIff(line: string, k: Keyword, v: string)
    ensures AssignedValue(line, k) == Some(v) <==>
      exists lead, spelled, ws1, ws2, rest :: AssignmentShape(line, k, lead, spelled, ws1, ws2, rest) && NoInnerNewline(rest) && v == Strip(rest)
  {
    if AssignedValue(line, k) == Some(v) {
      var rest := AfterEquals(line, k).value;
      var lead, spelled, ws1, ws2 := AfterEqualsParts(line, k);
      assert AssignmentShape(line, k, lead, spelled, ws1, ws2, rest) && NoInnerNewline(rest) && v == Strip(rest);
    }
    if exists lead, spelled, ws1, ws2, rest :: AssignmentShape(line, k, lead, spelled, ws1, ws2, rest) && NoInnerNewline(rest) && v == Strip(rest) {
      var lead, spelled, ws1, ws2, rest :| AssignmentShape(line, k, lead, spelled, ws1, ws2, rest) && NoInnerNewline(rest) && v == Strip(rest);
      AfterEqualsShape(k, lead, spelled, ws1, ws2, rest);
      AssignedFromRest(line, k, rest);
    }
  }

  /** A digit run followed by a whitespace character splits its string into the run, that character and a tail. */
  lemma DigitRunParts(rest: string) returns (sp: char, tail: string)
    requires |DigitRun(rest)| < |rest| && IsSpace(rest[|DigitRun(rest)|])
    ensures IsSpace(sp) && rest == DigitRun(rest) + [sp] + tail
  {
    var d := DigitRun(rest);
    sp, tail := rest[|d|], rest[|d| + 1..];
    assert rest == rest[..|d|] + [sp] + tail;
  }

  /** An accepted transition line is `\s+=\s+`, the digits, a whitespace character and a tail. */
  lemma TransitionValueParts(line: string) returns (lead: string, spelled: string, ws1: string, ws2: string, sp: char, tail: string)
    requires TransitionValue(line).Some?
    ensures AssignmentShape(line, FieldKeyword(LastTransition), lead, spelled, ws1, ws2, TransitionValue(line).value + [sp] + tail)
    ensures IsSpace(sp)
  {
    var rest := AfterEquals(line, FieldKeyword(LastTransition)).value;
    assert TransitionValue(line) == Some(DigitRun(rest));
    lead, spelled, ws1, ws2 := AfterEqualsParts(line, FieldKeyword(LastTransition));
    sp, tail := DigitRunParts(rest);
  }

  /** A transition line of that shape is accepted, and its digits are the value. */
  lemma TransitionValueFromShape(line: string, lead: string, spelled: string, ws1: string, ws2: string, d: string, sp: char, tail: string)
    requires AssignmentShape(line, FieldKeyword(LastTransition), lead, spelled, ws1, ws2, d + [sp] + tail)
    requires |d| > 0 && AllDigits(d) && IsSpace(sp)
    ensures TransitionValue(line) == Some(d)
  {
    var rest := d + [sp] + tail;
    AfterEqualsShape(FieldKeyword(LastTransition), lead, spelled, ws1, ws2, rest);
    assert !IsDigit(sp);
    DigitRunStops(d, sp, tail);
    assert rest[|d|] == sp;
  }

  /**
   * `^\s*Last transition\s+=\s+(\d+)\s` yields `d` exactly when `d` is a digit run
   * standing right after `\s+=\s+` and followed by a whitespace character.
   */
  lemma TransitionValueIff(line: string, d: string)
    ensures TransitionValue(line) == Some(d) <==>
      exists lead, spelled, ws1, ws2, sp, tail ::
        AssignmentShape(line, FieldKeyword(LastTransition), lead, spelled, ws1, ws2, d + [sp] + tail)
        && |d| > 0 && AllDigits(d) && IsSpace(sp)
  {
    if TransitionValue(line) == Some(d) {
      var lead, spelled, ws1, ws2, sp, tail := TransitionValueParts(line);
      assert AssignmentShape(line, FieldKeyword(LastTransition), lead, spelled, ws1, ws2, d + [sp] + tail);
    }
    if exists lead, spelled, ws1, ws2, sp, tail ::
        AssignmentShape(line, FieldKeyword(LastTransition), lead, spelled, ws1, ws2, d + [sp] + tail)
        && |d| > 0 && AllDigits(d) && IsSpace(sp) {
      var lead, spelled, ws1, ws2, sp, tail :|
        AssignmentShape(line, FieldKeyword(LastTransition), lead, spelled, ws1, ws2, d + [sp] + tail)
        && |d| > 0 && AllDigits(d) && IsSpace(sp);
      TransitionValueFromShape(line, lead, spelled, ws1, ws2, d, sp, tail);
    }
  }
}
