/**
 * The text a conversion returns. No emitted line holds a line break, so the
 * LaTeX text, split at its line breaks, gives back exactly the emitted
 * lines in order: one string per element of the engine's output.
 */
module Output {
  import opened Optional
  import opened Text
  import opened Inline
  import opened Blocks
  import opened Engine

  lemma NoNewlineIff(s: string)
    ensures NoNewline(s) <==> '\n' !in s
  {
    if '\n' in s {
      var k :| 0 <= k < |s| && s[k] == '\n';
    }
  }

  /** The group `(.+)` of `\s+(.+)$` holds no line break. */
  lemma {:induction false} SpacesFromNoNewline(t: string, k: nat)
    requires k <= |t| && AllIn(Space, t, 0, k)
    ensures SpacesFrom(t, k).Some? ==> '\n' !in SpacesFrom(t, k).value
    decreases k
  {
    if k > 0 {
      match DotsToEnd(t[k..])
      case Some(g) => NoNewlineIff(g);
      case None => SpacesFromNoNewline(t, k - 1);
    }
  }

  lemma StripNoNewline(s: string)
    requires '\n' !in s
    ensures '\n' !in Strip(s)
  {
    var lo := Span(Space, s, 0);
    var hi := SpanBack(s, lo, |s|);
    assert Strip(s) == s[lo..hi];
  }

  lemma SectionCommandNoNewline(n: nat)
    ensures '\n' !in SectionCommand(n)
  {
  }

  /** A heading is one line. */
  lemma HeadingNoNewline(line: string)
    ensures ConvertHeaders(line).Some? ==> '\n' !in ConvertHeaders(line).value
  {
    var n := Level(line);
    if ConvertHeaders(line).Some? {
      var t := line[n..];
      var title := HeaderTitle(line).value;
      SpacesFromNoNewline(t, Span(Space, t, 0));
      StripNoNewline(title);
      SectionCommandNoNewline(n);
      var h := ConvertInlineFormatting(Strip(title));
      assert ConvertHeaders(line).value == "\\" + SectionCommand(n) + "{" + h + "}";
    }
  }

  /** A list item of a line is one line. */
  lemma ItemNoNewline(line: string)
    requires '\n' !in line
    ensures ConvertListItem(line).Some? ==> '\n' !in ConvertListItem(line).value
  {
    if ConvertListItem(line).Some? {
      var e := if OrderedContent(line).Some? then OrderedMarkerEnd(line).value else BulletMarkerEnd(line).value;
      var t := line[e..];
      SpacesFromNoNewline(t, Span(Space, t, 0));
      var c := ItemMatch(line).value;
      var indent := line[..Indent(line)];
      assert '\n' !in c;
      assert '\n' !in indent;
      assert ConvertListItem(line).value == indent + "\\item " + ConvertInlineFormatting(c);
    }
  }

  /** The texts a class carries hold no line break. */
  predicate ClassNoNewline(c: LineClass) {
    match c
    case FenceLine => true
    case HeadingLine(h) => '\n' !in h
    case ItemLine(_, item) => '\n' !in item
    case TextLine(_, _, formatted) => '\n' !in formatted
  }

  lemma ClassifyNoNewline(line: string)
    requires '\n' !in line
    ensures ClassNoNewline(Classify(line))
  {
    HeadingNoNewline(line);
    ItemNoNewline(line);
  }

  /** No emitted line holds a line break. */
  predicate OutNoNewline(out: seq<OutLine>) {
    forall j :: 0 <= j < |out| ==> '\n' !in Render(out[j])
  }

  lemma MarkersNoNewline(k: ListKind)
    ensures '\n' !in BeginEnv(EnvName(k)) && '\n' !in EndEnv(EnvName(k))
    ensures '\n' !in BeginEnv("verbatim") && '\n' !in EndEnv("verbatim")
  {
  }

  /** The text fields of an emitted line hold no line break. */
  predicate FieldsNoNewline(o: OutLine) {
    match o
    case Verbatim(t) => '\n' !in t
    case Heading(t) => '\n' !in t
    case Item(_, t) => '\n' !in t
    case Paragraph(t) => '\n' !in t
    case _ => true
  }

  lemma RenderNoNewline(o: OutLine)
    requires FieldsNoNewline(o)
    ensures '\n' !in Render(o)
  {
    match o
    case BeginList(k) => MarkersNoNewline(k);
    case EndList(k) => MarkersNoNewline(k);
    case BeginVerbatim => MarkersNoNewline(Itemize);
    case EndVerbatim => MarkersNoNewline(Itemize);
    case _ =>
  }

  /** One line emits at least one line, none with a line break. */
  lemma StepNoNewline(m: Mode, line: string, c: LineClass)
    requires '\n' !in line && ClassNoNewline(c)
    ensures OutNoNewline(Dispatch(m, line, c).out) && |Dispatch(m, line, c).out| >= 1
  {
    var out := Dispatch(m, line, c).out;
    forall j | 0 <= j < |out| ensures '\n' !in Render(out[j]) {
      assert FieldsNoNewline(out[j]);
      RenderNoNewline(out[j]);
    }
  }

  lemma OutNoNewlineAppend(a: seq<OutLine>, b: seq<OutLine>)
    requires OutNoNewline(a) && OutNoNewline(b)
    ensures OutNoNewline(a + b)
  {
    assert forall j :: 0 <= j < |a + b| ==> (a + b)[j] == if j < |a| then a[j] else b[j - |a|];
  }

  /** The loop emits at least one line per input line, none with a line
      break, when the input lines have none. */
  lemma {:induction false} RunNoNewline(m: Mode, lines: seq<string>)
    requires forall i :: 0 <= i < |lines| ==> '\n' !in lines[i]
    ensures OutNoNewline(Run(m, lines).out) && |Run(m, lines).out| >= |lines|
    decreases |lines|
  {
    if lines != [] {
      var init := lines[..|lines| - 1];
      var line := lines[|lines| - 1];
      var r := Run(m, init);
      var s := Dispatch(r.mode, line, Classify(line));
      assert forall i :: 0 <= i < |init| ==> init[i] == lines[i];
      RunNoNewline(m, init);
      RunSnoc(m, init, line);
      SnocSplit(lines);
      ClassifyNoNewline(line);
      StepNoNewline(r.mode, line, Classify(line));
      OutNoNewlineAppend(r.out, s.out);
    }
  }

  /** The LaTeX text of a document splits back into exactly the emitted
      lines: output lines are neither merged nor broken. */
  lemma OutputLines(inCode: bool, markdownText: string)
    ensures var out := ConvertLines(inCode, Split(markdownText)).out;
      |out| >= 1 && Split(Join(RenderAll(out))) == RenderAll(out)
  {
    var lines := Split(markdownText);
    forall i | 0 <= i < |lines| ensures '\n' !in lines[i] {
      NoNewlineIff(lines[i]);
    }
    var r := Run(Mode(inCode, None), lines);
    RunNoNewline(Mode(inCode, None), lines);
    MarkersNoNewline(Itemize);
    MarkersNoNewline(Enumerate);
    var out := ConvertLines(inCode, lines).out;
    OutNoNewlineAppend(r.out, CloseList(r.mode.open));
    var rendered := RenderAll(out);
    forall j | 0 <= j < |rendered| ensures NoNewline(rendered[j]) {
      NoNewlineIff(rendered[j]);
    }
    SplitJoin(rendered);
  }
}
