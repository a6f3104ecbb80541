/**
 * The dump as keepalived writes it: for each instance a `VRRP Instance = <name>`
 * header followed by the instance's assignment lines, and after the instances
 * the interface listing. Rendering a list of instances and parsing the result
 * gives back the instances, the later of two equal names winning.
 */
module DumpRendering {
  import opened Wrappers
  import opened Text
  import opened DumpSyntax
  import opened DumpParser
  import opened ParserProperties

  /** One instance as the dump lists it. */
  datatype Entry = Entry(name: string, record: Record)

  /** An indentation in front of each assignment; the parser accepts any leading whitespace. */
  const Indent: string := "   "

  /** The line that opens the interface listing. */
  const MarkerLine: string := " ------< Interfaces >------\n"

  /** The order in which a group's fields are written. */
  const FieldOrder: seq<Field> := [State, LastTransition, Interface, VirtualRouterId]

  /** `<indent><keyword> = <value>` and a newline: the shape of every assignment in the dump. */
  function AssignmentLine(k: Keyword, v: string): string
  {
    Indent + KeywordText(k) + " = " + v + "\n"
  }

  /** An entry the dump can carry and the parser can keep: a non-empty one-line name and well-formed values. */
  predicate Renderable(e: Entry)
  {
    e.name != "" && IsStripped(e.name) && '\n' !in e.name && WellFormedRecord(e.record)
  }

  predicate AllRenderable(es: seq<Entry>)
  {
    forall i | 0 <= i < |es| :: Renderable(es[i])
  }

  /** `\s+=\s+(.*)$` followed by `strip()` reads back a stripped one-line value, the empty one included. */
  lemma AssignmentReadBack(k: Keyword, v: string)
    requires IsStripped(v) && '\n' !in v
    ensures AssignedValue(AssignmentLine(k, v), k) == Some(v)
  {
    var kw := KeywordText(k);
    assert EqualIgnoringCase(kw, kw);
    assert AllSpace(Indent) && IsSpace(' ') && IsSpace('\n');
    if v == [] {
      var line := AssignmentLine(k, v);
      assert line == Indent + kw + " " + "=" + " \n" + v;
      AfterEqualsShape(k, Indent, kw, " ", " \n", v);
      AssignedFromRest(line, k, v);
    } else {
      assert AssignmentLine(k, v) == Indent + kw + " " + "=" + " " + v + "\n";
      AssignedValueShape(k, Indent, kw, " ", " ", v, "\n");
    }
  }

  /** `Last transition\s+=\s+(\d+)\s` reads back the digits; the newline is the whitespace it needs. */
  lemma TransitionReadBack(v: string)
    requires |v| > 0 && AllDigits(v)
    ensures TransitionValue(AssignmentLine(FieldKeyword(LastTransition), v)) == Some(v)
  {
    var k := FieldKeyword(LastTransition);
    var kw := KeywordText(k);
    assert EqualIgnoringCase(kw, kw);
    assert AllSpace(Indent) && IsSpace(' ') && IsSpace('\n');
    var empty: string := [];
    assert AssignmentLine(k, v) == Indent + kw + " " + "=" + " " + v + ['\n'] + empty;
    TransitionValueShape(Indent, kw, " ", " ", v, '\n', empty);
  }

  /** A written field line is tagged with the field and the value it was written from. */
  lemma FieldLineReadBack(f: Field, v: string)
    requires WellFormedValue(f, v)
    ensures Lex(AssignmentLine(FieldKeyword(f), v)) == FieldLine(f, Some(v))
  {
    var line := AssignmentLine(FieldKeyword(f), v);
    if f == LastTransition {
      TransitionReadBack(v);
    } else {
      AssignmentReadBack(FieldKeyword(f), v);
    }
    assert FieldValue(line, f) == Some(v);
    LexField(line, f);
  }

  /** A written header is tagged with the name it was written from. */
  lemma HeaderLineReadBack(name: string)
    requires IsStripped(name) && '\n' !in name
    ensures Lex(AssignmentLine(VrrpInstance, name)) == Header(Some(name))
  {
    var line := AssignmentLine(VrrpInstance, name);
    AssignmentReadBack(VrrpInstance, name);
    LexHeader(line);
  }

  /** The marker line passes the `------< Interfaces` test. */
  lemma MarkerLineEndsScan()
    ensures IsMarkerLine(MarkerLine)
  {
    var kw := KeywordText(InterfacesMarker);
    assert EqualIgnoringCase(kw, kw);
    assert AllSpace(" ");
    assert MarkerLine == " " + kw + " >------\n";
    KeywordLineStripped(InterfacesMarker, " ", kw, " >------\n");
    assert (kw + " >------\n")[..|kw|] == kw;
  }

  /** The line for field `f`, if `rec` has it. */
  function OneFieldLine(rec: Record, f: Field): seq<string>
  {
    if f in rec then [AssignmentLine(FieldKeyword(f), rec[f])] else []
  }

  /** The tag that line should receive. */
  function OneFieldTag(rec: Record, f: Field): seq<Line>
  {
    if f in rec then [FieldLine(f, Some(rec[f]))] else []
  }

  /** The lines for the fields of `fs` that `rec` has, in the order of `fs`. */
  function FieldLines(rec: Record, fs: seq<Field>): seq<string>
  {
    if fs == [] then [] else OneFieldLine(rec, fs[0]) + FieldLines(rec, fs[1..])
  }

  /** The tags those lines should receive. */
  function FieldTags(rec: Record, fs: seq<Field>): seq<Line>
  {
    if fs == [] then [] else OneFieldTag(rec, fs[0]) + FieldTags(rec, fs[1..])
  }

  lemma OneFieldTagged(rec: Record, f: Field)
    requires WellFormedRecord(rec)
    ensures LexAll(OneFieldLine(rec, f)) == OneFieldTag(rec, f)
  {
    if f in rec {
      FieldLineReadBack(f, rec[f]);
    }
  }

  lemma {:induction false} FieldLinesTagged(rec: Record, fs: seq<Field>)
    requires WellFormedRecord(rec)
    ensures LexAll(FieldLines(rec, fs)) == FieldTags(rec, fs)
  {
    if fs != [] {
      FieldLinesTagged(rec, fs[1..]);
      OneFieldTagged(rec, fs[0]);
      LexAllAppend(OneFieldLine(rec, fs[0]), FieldLines(rec, fs[1..]));
    }
  }

  /** `base` with the fields of `rec` that `fs` names written over it. */
  function Overlay(base: Record, rec: Record, fs: seq<Field>): (r: Record)
    ensures forall f :: f in r <==> f in base || (f in rec && f in fs)
    ensures forall f | f in r :: r[f] == if f in rec && f in fs then rec[f] else base[f]
    decreases |fs|
  {
    if fs == [] then base
    else Overlay(if fs[0] in rec then base[fs[0] := rec[fs[0]]] else base, rec, fs[1..])
  }

  lemma EveryFieldListed(f: Field)
    ensures f in FieldOrder
  {
    match f
    case State => assert FieldOrder[0] == f;
    case LastTransition => assert FieldOrder[1] == f;
    case Interface => assert FieldOrder[2] == f;
    case VirtualRouterId => assert FieldOrder[3] == f;
  }

  /** Written in an order that lists every field, every field of a record arrives. */
  lemma OverlayCovers(rec: Record, fs: seq<Field>)
    requires forall f: Field :: f in fs
    ensures Overlay(map[], rec, fs) == rec
  {
    var r := Overlay(map[], rec, fs);
    assert r.Keys == rec.Keys;
  }

  lemma OverlayAllFields(rec: Record)
    ensures Overlay(map[], rec, FieldOrder) == rec
  {
    forall f: Field ensures f in FieldOrder {
      EveryFieldListed(f);
    }
    OverlayCovers(rec, FieldOrder);
  }

  /** A second write to a key replaces the first. */
  lemma UpdateTwice<K, V>(m: map<K, V>, k: K, a: V, b: V)
    ensures m[k := a][k := b] == m[k := b]
  {
  }

  /** Inside a group, field lines write their values into that group's record and nowhere else. */
  lemma {:induction false} FieldTagsRun(rec: Record, fs: seq<Field>, st: ParserState)
    requires InsideGroup(st) && Coherent(st)
    ensures Run(FieldTags(rec, fs), st)
      == Success(Scan(ParserState(st.current, st.groups[st.current.value := Overlay(st.groups[st.current.value], rec, fs)]), false))
    decreases |fs|
  {
    var g := st.current.value;
    var tags := FieldTags(rec, fs);
    if fs == [] {
      assert st.groups[g := st.groups[g]] == st.groups;
    } else {
      var f := fs[0];
      var rest := FieldTags(rec, fs[1..]);
      if f in rec {
        var next := ParserState(st.current, st.groups[g := st.groups[g][f := rec[f]]]);
        assert OneFieldTag(rec, f) == [FieldLine(f, Some(rec[f]))];
        assert tags == [FieldLine(f, Some(rec[f]))] + rest;
        assert tags[1..] == rest;
        assert Step(st, tags[0]) == Continue(next);
        FieldTagsRun(rec, fs[1..], next);
        UpdateTwice(st.groups, g, st.groups[g][f := rec[f]], Overlay(next.groups[g], rec, fs[1..]));
      } else {
        assert OneFieldTag(rec, f) == [];
        assert tags == rest;
        FieldTagsRun(rec, fs[1..], st);
      }
    }
  }

  /** One instance's section of the dump. */
  function GroupDump(e: Entry): seq<string>
  {
    [AssignmentLine(VrrpInstance, e.name)] + FieldLines(e.record, FieldOrder)
  }

  /** A section is tagged as its header followed by its field lines. */
  lemma GroupDumpTagged(e: Entry)
    requires Renderable(e)
    ensures LexAll(GroupDump(e)) == [Header(Some(e.name))] + FieldTags(e.record, FieldOrder)
  {
    var header := AssignmentLine(VrrpInstance, e.name);
    var body := FieldLines(e.record, FieldOrder);
    assert GroupDump(e) == [header] + body;
    HeaderLineReadBack(e.name);
    assert LexAll([header]) == [Header(Some(e.name))];
    FieldLinesTagged(e.record, FieldOrder);
    LexAllAppend([header], body);
  }

  /** The header opens the group with an empty record, which its field lines then fill. */
  lemma GroupTagsRun(e: Entry, st: ParserState)
    requires e.name != "" && Coherent(st)
    ensures Run([Header(Some(e.name))] + FieldTags(e.record, FieldOrder), st)
      == Success(Scan(ParserState(Some(e.name), st.groups[e.name := e.record]), false))
  {
    var header := Header(Some(e.name));
    var tags := FieldTags(e.record, FieldOrder);
    var started := ParserState(Some(e.name), st.groups[e.name := map[]]);
    assert Step(st, header) == Continue(started);
    assert ([header] + tags)[1..] == tags;
    FieldTagsRun(e.record, FieldOrder, started);
    OverlayAllFields(e.record);
    UpdateTwice(st.groups, e.name, map[], e.record);
  }

  /** A section opens its group and fills in its record, replacing any earlier record of that name. */
  lemma GroupDumpRun(e: Entry, st: ParserState)
    requires Renderable(e) && Coherent(st)
    ensures Run(LexAll(GroupDump(e)), st)
      == Success(Scan(ParserState(Some(e.name), st.groups[e.name := e.record]), false))
  {
    GroupDumpTagged(e);
    GroupTagsRun(e, st);
  }

  /** The dump of several instances, in order. */
  function RenderDump(es: seq<Entry>): seq<string>
  {
    if es == [] then [] else RenderDump(es[..|es| - 1]) + GroupDump(es[|es| - 1])
  }

  /** The groups the instances describe: a later instance replaces an earlier one of the same name. */
  function ToGroups(es: seq<Entry>): Groups
  {
    if es == [] then map[] else ToGroups(es[..|es| - 1])[es[|es| - 1].name := es[|es| - 1].record]
  }

  /** `ToGroups` has one key per instance name. */
  lemma {:induction false} ToGroupsKeys(es: seq<Entry>, n: string)
    ensures n in ToGroups(es) <==> exists i | 0 <= i < |es| :: es[i].name == n
  {
    if es != [] {
      var init := es[..|es| - 1];
      ToGroupsKeys(init, n);
      if n in ToGroups(init) {
        var i :| 0 <= i < |init| && init[i].name == n;
        assert es[i].name == n;
      }
      if exists i | 0 <= i < |es| :: es[i].name == n {
        var i :| 0 <= i < |es| && es[i].name == n;
        if i < |es| - 1 {
          assert init[i].name == n;
        }
      }
    }
  }

  /** An instance whose name no later instance repeats keeps its record in `ToGroups`. */
  lemma {:induction false} ToGroupsLastWins(es: seq<Entry>, i: int)
    requires 0 <= i < |es|
    requires forall j | i < j < |es| :: es[j].name != es[i].name
    ensures es[i].name in ToGroups(es) && ToGroups(es)[es[i].name] == es[i].record
  {
    if i < |es| - 1 {
      var init := es[..|es| - 1];
      assert init[i] == es[i];
      forall j | i < j < |init| ensures init[j].name != init[i].name {
        assert init[j] == es[j];
      }
      ToGroupsLastWins(init, i);
    }
  }

  /** Where the scan of a rendered dump stands: inside the last instance, with every instance recorded. */
  function ScanState(es: seq<Entry>): ParserState
  {
    if es == [] then Initial else ParserState(Some(es[|es| - 1].name), ToGroups(es))
  }

  lemma {:induction false} RenderedRun(es: seq<Entry>)
    requires AllRenderable(es)
    ensures Run(LexAll(RenderDump(es)), Initial) == Success(Scan(ScanState(es), false))
  {
    if es != [] {
      var init := es[..|es| - 1];
      var last := es[|es| - 1];
      assert Renderable(last);
      assert AllRenderable(init) by {
        forall i | 0 <= i < |init| ensures Renderable(init[i]) {
          assert init[i] == es[i];
        }
      }
      RenderedRun(init);
      var before := ScanState(init);
      assert before.groups == ToGroups(init);
      LexAllAppend(RenderDump(init), GroupDump(last));
      RunAppend(LexAll(RenderDump(init)), LexAll(GroupDump(last)), Initial);
      GroupDumpRun(last, before);
    }
  }

  /** Parsing a rendered dump returns the instances it was rendered from. */
  lemma RenderThenParse(es: seq<Entry>)
    requires AllRenderable(es)
    ensures Parse(RenderDump(es)) == Success(ToGroups(es))
  {
    RenderedRun(es);
  }

  /** The interface listing and whatever follows it change nothing. */
  lemma RenderWithInterfacesThenParse(es: seq<Entry>, trailer: seq<string>)
    requires AllRenderable(es)
    ensures Parse(RenderDump(es) + [MarkerLine] + trailer) == Success(ToGroups(es))
  {
    MarkerLineEndsScan();
    MarkerEndsInput(RenderDump(es), MarkerLine, trailer);
    RenderThenParse(es);
  }
}
