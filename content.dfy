/**
 * What the converter keeps of its input. Leaving out the environment
 * markers, the output holds exactly one line for each input line that is not
 * a fence, in input order: the line itself inside a fenced block, and
 * otherwise the heading, item, blank or paragraph the line's own tests make
 * of it, whatever list is open around it. Whether a line is inside a fenced
 * block depends only on the parity of the fences before it.
 */
module Content {
  import opened Optional
  import opened Text
  import opened Engine

  /** Environment markers, as opposed to content lines. */
  predicate IsMarker(o: OutLine) {
    o.BeginList? || o.EndList? || o.BeginVerbatim? || o.EndVerbatim?
  }

  /** The content lines of an output, in order. */
  function Contents(out: seq<OutLine>): seq<OutLine>
    decreases |out|
  {
    if out == [] then []
    else (if IsMarker(out[0]) then [] else [out[0]]) + Contents(out[1..])
  }

  lemma {:induction false} ContentsAppend(a: seq<OutLine>, b: seq<OutLine>)
    ensures Contents(a + b) == Contents(a) + Contents(b)
    decreases |a|
  {
    if a == [] {
      assert a + b == b;
    } else {
      var h := if IsMarker(a[0]) then [] else [a[0]];
      assert (a + b)[0] == a[0];
      assert (a + b)[1..] == a[1..] + b;
      assert Contents(a + b) == h + Contents(a[1..] + b);
      ContentsAppend(a[1..], b);
      AppendAssoc(h, Contents(a[1..]), Contents(b));
    }
  }

  /** The number of fences among the lines. */
  function FenceCount(lines: seq<string>): (r: nat)
    ensures r <= |lines|
    decreases |lines|
  {
    if lines == [] then 0
    else FenceCount(lines[..|lines| - 1]) + (if IsFence(lines[|lines| - 1]) then 1 else 0)
  }

  /** Whether the lines leave a fenced block open, starting from inCode: an
      odd number of fences turns the flag over. */
  function CodeAfter(inCode: bool, lines: seq<string>): bool {
    inCode != (FenceCount(lines) % 2 == 1)
  }

  /** The content line a non-fence line of class c becomes outside a fenced
      block. */
  function ContentOf(c: LineClass): OutLine
    requires !c.FenceLine?
  {
    match c
    case HeadingLine(h) => Heading(h)
    case ItemLine(k, item) => Item(k, item)
    case TextLine(_, blank, formatted) => if blank then Blank else Paragraph(formatted)
  }

  /** The content one line contributes: nothing for a fence, the line as it
      is inside a fenced block, its own class's content line otherwise. */
  function LineContent(code: bool, line: string, c: LineClass): seq<OutLine> {
    if c.FenceLine? then [] else if code then [Verbatim(line)] else [ContentOf(c)]
  }

  /** The content of a conversion, line by line, without any list state. */
  function Expected(inCode: bool, lines: seq<string>): seq<OutLine>
    decreases |lines|
  {
    if lines == [] then []
    else
      var init := lines[..|lines| - 1];
      var line := lines[|lines| - 1];
      Expected(inCode, init) + LineContent(CodeAfter(inCode, init), line, Classify(line))
  }

  lemma ClassifyFence(line: string)
    ensures Classify(line).FenceLine? <==> IsFence(line)
  {
  }

  lemma ContentsOne(o: OutLine)
    ensures Contents([o]) == if IsMarker(o) then [] else [o]
  {
    assert [o][1..] == [];
  }

  /** At most two markers in front of a line add no content. */
  lemma ContentsAfterMarkers(p: seq<OutLine>, o: OutLine)
    requires |p| <= 2 && forall j :: 0 <= j < |p| ==> IsMarker(p[j])
    ensures Contents(p + [o]) == Contents([o])
  {
    ContentsAppend(p, [o]);
    if |p| == 1 {
      assert p == [p[0]];
      ContentsOne(p[0]);
    } else if |p| == 2 {
      assert p == [p[0]] + [p[1]];
      ContentsAppend([p[0]], [p[1]]);
      ContentsOne(p[0]);
      ContentsOne(p[1]);
    }
  }

  /** Outside a fenced block a line that is not a fence leaves its own
      content line, after the markers of the list it closes or opens. */
  lemma OutsideContent(open: Option<ListKind>, c: LineClass)
    requires !c.FenceLine?
    ensures Contents(Outside(open, c).out) == [ContentOf(c)]
  {
    var p := match c
      case HeadingLine(_) => CloseList(open)
      case ItemLine(k, _) => OpenList(open, k)
      case TextLine(listLine, _, _) => if open.Some? && !listLine then [EndList(open.value)] else [];
    assert Outside(open, c).out == p + [ContentOf(c)];
    ContentsAfterMarkers(p, ContentOf(c));
    ContentsOne(ContentOf(c));
  }

  /** One line: its content, and the flag turned over exactly by a fence. */
  lemma StepContent(m: Mode, line: string, c: LineClass)
    ensures Contents(Dispatch(m, line, c).out) == LineContent(m.inCode, line, c)
    ensures Dispatch(m, line, c).mode.inCode == (m.inCode != c.FenceLine?)
  {
    if c.FenceLine? {
      if !m.inCode {
        ContentsAfterMarkers(CloseList(m.open), BeginVerbatim);
        ContentsOne(BeginVerbatim);
      } else {
        ContentsOne(EndVerbatim);
      }
    } else if !m.inCode {
      OutsideContent(m.open, c);
    } else {
      ContentsOne(Verbatim(line));
    }
  }

  /** A fence turns the flag over, any other line leaves it. */
  lemma CodeAfterStep(inCode: bool, lines: seq<string>)
    requires lines != []
    ensures CodeAfter(inCode, lines) == (CodeAfter(inCode, lines[..|lines| - 1]) != IsFence(lines[|lines| - 1]))
  {
  }

  /** The loop keeps exactly the expected content, and ends inside a fenced
      block as the parity of the fences says. */
  lemma {:induction false} RunContent(m: Mode, lines: seq<string>)
    ensures Contents(Run(m, lines).out) == Expected(m.inCode, lines)
    ensures Run(m, lines).mode.inCode == CodeAfter(m.inCode, lines)
    decreases |lines|
  {
    if lines != [] {
      var init := lines[..|lines| - 1];
      var line := lines[|lines| - 1];
      var r := Run(m, init);
      var c := Classify(line);
      var s := Dispatch(r.mode, line, c);
      assert Run(m, lines) == Outcome(s.mode, r.out + s.out);
      assert Expected(m.inCode, lines) == Expected(m.inCode, init) + LineContent(CodeAfter(m.inCode, init), line, c);
      RunContent(m, init);
      StepContent(r.mode, line, c);
      ContentsAppend(r.out, s.out);
      CodeAfterStep(m.inCode, lines);
      ClassifyFence(line);
    }
  }

  /** The conversion keeps exactly the expected content; the closing of a
      list left open adds only a marker. */
  lemma ContentPreserved(inCode: bool, lines: seq<string>)
    ensures Contents(ConvertLines(inCode, lines).out) == Expected(inCode, lines)
    ensures ConvertLines(inCode, lines).mode.inCode == CodeAfter(inCode, lines)
  {
    var r := Run(Mode(inCode, None), lines);
    RunContent(Mode(inCode, None), lines);
    ContentsAppend(r.out, CloseList(r.mode.open));
  }

  /** One content line per input line that is not a fence. */
  lemma {:induction false} ExpectedLength(inCode: bool, lines: seq<string>)
    ensures |Expected(inCode, lines)| == |lines| - FenceCount(lines)
    decreases |lines|
  {
    if lines != [] {
      var line := lines[|lines| - 1];
      ExpectedLength(inCode, lines[..|lines| - 1]);
      ClassifyFence(line);
    }
  }

  /** No verbatim line of the output is a fence. */
  predicate NoFenceText(out: seq<OutLine>) {
    forall j :: 0 <= j < |out| && out[j].Verbatim? ==> !IsFence(out[j].text)
  }

  lemma NoFenceAppend(a: seq<OutLine>, b: seq<OutLine>)
    requires NoFenceText(a) && NoFenceText(b)
    ensures NoFenceText(a + b)
  {
    assert forall j :: 0 <= j < |a + b| ==> (a + b)[j] == if j < |a| then a[j] else b[j - |a|];
  }

  lemma LineNoFence(code: bool, line: string, c: LineClass)
    requires c.FenceLine? <==> IsFence(line)
    ensures NoFenceText(LineContent(code, line, c))
  {
  }

  /** A fence line never shows up in the output, not even inside a fenced
      block: every verbatim line is a line that is not a fence. */
  lemma {:induction false} NoFenceEmitted(inCode: bool, lines: seq<string>)
    ensures NoFenceText(Expected(inCode, lines))
    decreases |lines|
  {
    if lines != [] {
      var init := lines[..|lines| - 1];
      var line := lines[|lines| - 1];
      var a := Expected(inCode, init);
      var b := LineContent(CodeAfter(inCode, init), line, Classify(line));
      assert Expected(inCode, lines) == a + b;
      NoFenceEmitted(inCode, init);
      ClassifyFence(line);
      LineNoFence(CodeAfter(inCode, init), line, Classify(line));
      NoFenceAppend(a, b);
    }
  }
}
