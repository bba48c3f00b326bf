/**
 * The document engine (`convert_content`) as a specification: one line at a
 * time, a dispatch in a fixed order (fence, inside a fenced block, heading,
 * list item, list closing, blank line, paragraph) over a mode made of the
 * fenced-block flag and the kind of the open list. The emitted lines are
 * kept as structured values and rendered to the strings the converter
 * writes.
 */
module Engine {
  import opened Optional
  import opened Text
  import opened Inline
  import opened Blocks

  /** The two list environments. */
  datatype ListKind = Itemize | Enumerate

  function EnvName(k: ListKind): string {
    match k
    case Itemize => "itemize"
    case Enumerate => "enumerate"
  }

  /** One emitted line: a marker (list or verbatim environment opened or
      closed) or a content line. */
  datatype OutLine =
    | BeginList(kind: ListKind)
    | EndList(kind: ListKind)
    | BeginVerbatim
    | EndVerbatim
    | Verbatim(text: string)
    | Heading(text: string)
    | Item(kind: ListKind, text: string)
    | Blank
    | Paragraph(text: string)

  /** `\begin{name}` and `\end{name}`. */
  function BeginEnv(name: string): string {
    "\\begin{" + name + "}"
  }

  function EndEnv(name: string): string {
    "\\end{" + name + "}"
  }

  /** The text of an emitted line. */
  function Render(o: OutLine): string {
    match o
    case BeginList(k) => BeginEnv(EnvName(k))
    case EndList(k) => EndEnv(EnvName(k))
    case BeginVerbatim => BeginEnv("verbatim")
    case EndVerbatim => EndEnv("verbatim")
    case Verbatim(t) => t
    case Heading(t) => t
    case Item(_, t) => t
    case Blank => ""
    case Paragraph(t) => t
  }

  function RenderAll(out: seq<OutLine>): (r: seq<string>)
    ensures |r| == |out|
    ensures forall j :: 0 <= j < |out| ==> r[j] == Render(out[j])
  {
    if out == [] then [] else RenderAll(out[..|out| - 1]) + [Render(out[|out| - 1])]
  }

  /** A sequence of strings that agrees with the rendering line by line is
      the rendering. */
  lemma RenderAllOf(xs: seq<string>, out: seq<OutLine>)
    requires |xs| == |out| && forall j :: 0 <= j < |out| ==> xs[j] == Render(out[j])
    ensures xs == RenderAll(out)
  {
  }

  lemma RenderAllAppend(a: seq<OutLine>, b: seq<OutLine>)
    ensures RenderAll(a + b) == RenderAll(a) + RenderAll(b)
  {
    var xs := RenderAll(a) + RenderAll(b);
    forall j | 0 <= j < |a + b| ensures xs[j] == Render((a + b)[j]) {
      if j < |a| {
        assert (a + b)[j] == a[j];
      } else {
        assert (a + b)[j] == b[j - |a|];
      }
    }
    RenderAllOf(xs, a + b);
  }

  /** The rendering of a finished run: the closing of the open list, if
      any, is one more rendered line. */
  lemma FinishRendered(r: Outcome, inList: bool, listType: Option<ListKind>)
    requires inList ==> listType.Some?
    requires r.mode.open == if inList then listType else None
    ensures RenderAll(Finish(r).out) ==
      RenderAll(r.out) + if inList then [EndEnv(EnvName(listType.value))] else []
  {
    RenderAllAppend(r.out, CloseList(r.mode.open));
    if !inList {
      assert CloseList(r.mode.open) == [];
    }
  }

  /** A fence: the stripped line starts with three backquotes. */
  predicate IsFence(line: string): (b: bool)
    ensures b ==> |line| >= 3 && Strip(line) != []
  {
    var s := Strip(line);
    |s| >= 3 && s[0] == '`' && s[1] == '`' && s[2] == '`'
  }

  /** A line that strips to nothing. */
  predicate IsBlank(line: string) {
    Strip(line) == []
  }

  /** The state between two lines: inside a fenced block or not, and the
      kind of the open list, if any (the source's `in_list` and
      `list_type`). */
  datatype Mode = Mode(inCode: bool, open: Option<ListKind>)

  /** The mode after some lines, and the lines they emitted. */
  datatype Outcome = Outcome(mode: Mode, out: seq<OutLine>)

  /** Closing the open list, if there is one. */
  function CloseList(open: Option<ListKind>): seq<OutLine> {
    if open.Some? then [EndList(open.value)] else []
  }

  /** Getting a list of kind k open: open one, switch from the other kind,
      or nothing when it is already open. */
  function OpenList(open: Option<ListKind>, k: ListKind): seq<OutLine> {
    if open.None? then [BeginList(k)]
    else if open.value != k then [EndList(open.value), BeginList(k)]
    else []
  }

  /** The list kind of an item line, by the test `^\s*\d+\.`. */
  function KindOf(line: string): ListKind {
    if IsOrdered(line) then Enumerate else Itemize
  }

  /** What the tests of the loop's dispatch make of a line outside a
      fenced block, in the order they are tried: a fence, a heading, a list
      item, or other text. Other text carries the two tests still to come
      (`is_list_line` and the blank-line test) and the line as formatted for
      a paragraph. */
  datatype LineClass =
    | FenceLine
    | HeadingLine(heading: string)
    | ItemLine(kind: ListKind, item: string)
    | TextLine(listLine: bool, blank: bool, formatted: string)

  function Classify(line: string): LineClass {
    if IsFence(line) then FenceLine
    else
      match ConvertHeaders(line)
      case Some(h) => HeadingLine(h)
      case None =>
        match ConvertListItem(line)
        case Some(item) => ItemLine(KindOf(line), item)
        case None => TextLine(IsListLine(line), IsBlank(line), ConvertInlineFormatting(line))
  }

  /** A blank line is never a list line. */
  predicate ValidClass(c: LineClass) {
    c.TextLine? && c.blank ==> !c.listLine
  }

  lemma ClassifyValid(line: string)
    ensures ValidClass(Classify(line))
  {
    if IsBlank(line) {
      assert Indent(line) == |line|;
    }
  }

  /** A line outside a fenced block that is not a fence: a heading closes
      the open list, an item opens or switches the list it needs, and other
      text closes the open list unless it is a list line. */
  function Outside(open: Option<ListKind>, c: LineClass): Outcome
    requires !c.FenceLine?
  {
    match c
    case HeadingLine(h) => Outcome(Mode(false, None), CloseList(open) + [Heading(h)])
    case ItemLine(k, item) => Outcome(Mode(false, Some(k)), OpenList(open, k) + [Item(k, item)])
    case TextLine(listLine, blank, formatted) =>
      var text := if blank then Blank else Paragraph(formatted);
      if open.Some? && !listLine then Outcome(Mode(false, None), [EndList(open.value), text])
      else Outcome(Mode(false, open), [text])
  }

  /** The body of the loop of `convert_content` for one line of class c. */
  function Dispatch(m: Mode, line: string, c: LineClass): (r: Outcome)
    ensures r.out != []
    ensures r.mode.inCode == (m.inCode != c.FenceLine?)
  {
    if c.FenceLine? then
      if !m.inCode then Outcome(Mode(true, None), CloseList(m.open) + [BeginVerbatim])
      else Outcome(Mode(false, m.open), [EndVerbatim])
    else if m.inCode then Outcome(m, [Verbatim(line)])
    else Outside(m.open, c)
  }

  /** The body of the loop of `convert_content` for one line. */
  function Step(m: Mode, line: string): (r: Outcome)
    ensures r.out != []
    ensures r.mode.inCode == (m.inCode != IsFence(line))
  {
    var c := Classify(line);
    assert c.FenceLine? <==> IsFence(line);
    Dispatch(m, line, c)
  }

  /** The dispatch of one line, branch by branch, in the terms the loop of
      `convert_content` tests. */
  lemma StepFence(m: Mode, line: string)
    requires IsFence(line)
    ensures Step(m, line) ==
      if !m.inCode then Outcome(Mode(true, None), CloseList(m.open) + [BeginVerbatim])
      else Outcome(Mode(false, m.open), [EndVerbatim])
  {
  }

  lemma StepVerbatim(m: Mode, line: string)
    requires !IsFence(line) && m.inCode
    ensures Step(m, line) == Outcome(m, [Verbatim(line)])
  {
  }

  lemma StepHeading(m: Mode, line: string)
    requires !IsFence(line) && !m.inCode && ConvertHeaders(line).Some?
    ensures Step(m, line) == Outcome(Mode(false, None), CloseList(m.open) + [Heading(ConvertHeaders(line).value)])
  {
  }

  lemma StepItem(m: Mode, line: string)
    requires !IsFence(line) && !m.inCode && ConvertHeaders(line).None? && ConvertListItem(line).Some?
    ensures var k := KindOf(line);
      Step(m, line) == Outcome(Mode(false, Some(k)), OpenList(m.open, k) + [Item(k, ConvertListItem(line).value)])
  {
  }

  lemma StepText(m: Mode, line: string)
    requires !IsFence(line) && !m.inCode && ConvertHeaders(line).None? && ConvertListItem(line).None?
    ensures Step(m, line) == Outside(m.open, TextLine(IsListLine(line), IsBlank(line), ConvertInlineFormatting(line)))
  {
  }

  /** The loop over the lines, from mode m. `Lists.RunWith` is the same loop
      with the line classifier passed in as a parameter; it is kept there
      only so that proofs about runs of items do not unfold `Classify`, and
      `Lists.RunIsRunWith` proves the two equal. */
  function Run(m: Mode, lines: seq<string>): (r: Outcome)
    ensures |r.out| >= |lines|
    decreases |lines|
  {
    if lines == [] then Outcome(m, [])
    else
      var r := Run(m, lines[..|lines| - 1]);
      var s := Step(r.mode, lines[|lines| - 1]);
      Outcome(s.mode, r.out + s.out)
  }

  /** The loop over some lines and then one more. */
  lemma RunSnoc(m: Mode, init: seq<string>, line: string)
    ensures var r := Run(m, init);
      Run(m, init + [line]) == Outcome(Step(r.mode, line).mode, r.out + Step(r.mode, line).out)
  {
    var lines := init + [line];
    assert lines[..|lines| - 1] == init;
    assert lines[|lines| - 1] == line;
  }

  /** The loop over two runs of lines is the loop over the first run and
      then over the second from where the first left off. */
  lemma {:induction false} RunAppend(m: Mode, a: seq<string>, b: seq<string>)
    ensures Run(m, a + b) == Outcome(Run(Run(m, a).mode, b).mode, Run(m, a).out + Run(Run(m, a).mode, b).out)
    decreases |b|
  {
    if b == [] {
      assert a + b == a;
    } else {
      var init := b[..|b| - 1];
      var line := b[|b| - 1];
      assert b == init + [line];
      assert a + b == (a + init) + [line];
      var q := Run(m, a);
      RunAppend(m, a, init);
      RunSnoc(m, a + init, line);
      RunSnoc(q.mode, init, line);
      var p := Run(q.mode, init);
      var s := Step(p.mode, line);
      AppendAssoc(q.out, p.out, s.out);
    }
  }

  /** The whole conversion of the lines: the loop from no open list, then the
      list left open is closed. The fenced-block flag is the converter's
      field, so it comes in and goes out. */
  function ConvertLines(inCode: bool, lines: seq<string>): (r: Outcome)
    ensures r.mode.open.None? && |r.out| >= |lines|
  {
    Finish(Run(Mode(inCode, None), lines))
  }

  /** After the loop: the list left open, if any, is closed. */
  function Finish(r: Outcome): Outcome {
    Outcome(Mode(r.mode.inCode, None), r.out + CloseList(r.mode.open))
  }
}
