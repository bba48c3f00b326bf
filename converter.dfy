/**
 * The converter object. Its one field is the fenced-block flag, which a
 * conversion reads at the start and leaves as the document leaves it; the
 * open list is local to one conversion. `ConvertContent` walks the lines
 * with an index and appends the LaTeX lines one by one, and is proved to
 * compute what the engine's specification says.
 */
module Converter {
  import opened Optional
  import opened Text
  import opened Inline
  import opened Blocks
  import opened Engine
  import opened Output

  class MarkdownToLatexConverter {
    /** Inside a fenced block; kept from one conversion to the next. */
    var inCodeBlock: bool

    constructor()
      ensures !inCodeBlock
    {
      inCodeBlock := false;
    }

    /** The body of the loop of `convert_content` for one line: what it
        appends to the output, and the new list state. The fenced-block flag
        is updated in place. */
    method ConvertLine(line: string, inList: bool, listType: Option<ListKind>)
      returns (emitted: seq<OutLine>, inList': bool, listType': Option<ListKind>)
      requires inList ==> listType.Some?
      modifies this
      ensures inList' ==> listType'.Some?
      ensures Step(Mode(old(inCodeBlock), if inList then listType else None), line) ==
        Outcome(Mode(inCodeBlock, if inList' then listType' else None), emitted)
    {
      ghost var before := Mode(inCodeBlock, if inList then listType else None);
      if IsFence(line) {
        StepFence(before, line);
        emitted, inList', listType' := [], inList, listType;
        if !inCodeBlock {
          inCodeBlock := true;
          if inList' {
            emitted := emitted + [EndList(listType'.value)];
            inList' := false;
          }
          emitted := emitted + [BeginVerbatim];
        } else {
          inCodeBlock := false;
          emitted := emitted + [EndVerbatim];
        }
      } else if inCodeBlock {
        StepVerbatim(before, line);
        emitted, inList', listType' := [Verbatim(line)], inList, listType;
      } else {
        emitted, inList', listType' := ConvertOutside(line, inList, listType);
      }
    }

    /** The rest of the loop body, for a line outside a fenced block that is
        not a fence: a heading, a list item, or other text. */
    method ConvertOutside(line: string, inList: bool, listType: Option<ListKind>)
      returns (emitted: seq<OutLine>, inList': bool, listType': Option<ListKind>)
      requires inList ==> listType.Some?
      requires !IsFence(line) && !inCodeBlock
      ensures inList' ==> listType'.Some?
      ensures Step(Mode(false, if inList then listType else None), line) ==
        Outcome(Mode(false, if inList' then listType' else None), emitted)
    {
      ghost var before := Mode(false, if inList then listType else None);
      inList', listType' := inList, listType;
      var header := ConvertHeaders(line);
      if header.Some? {
        StepHeading(before, line);
        emitted := [];
        if inList' {
          emitted := [EndList(listType'.value)];
          inList' := false;
        }
        emitted := emitted + [Heading(header.value)];
        return;
      }
      var listItem := ConvertListItem(line);
      if listItem.Some? {
        StepItem(before, line);
        var newListType := if IsOrdered(line) then Enumerate else Itemize;
        emitted := [];
        if !inList' {
          emitted := [BeginList(newListType)];
          inList' := true;
          listType' := Some(newListType);
        } else if listType' != Some(newListType) {
          emitted := [EndList(listType'.value), BeginList(newListType)];
          listType' := Some(newListType);
        }
        emitted := emitted + [Item(newListType, listItem.value)];
        return;
      }
      StepText(before, line);
      var text: OutLine;
      if IsBlank(line) {
        text := Blank;
      } else {
        var convertedLine := ConvertInlineFormatting(line);
        text := Paragraph(convertedLine);
      }
      if inList' && !IsListLine(line) {
        emitted := [EndList(listType'.value), text];
        inList' := false;
      } else {
        emitted := [text];
      }
    }

    /** `convert_content`: the document split at line breaks, converted line
        by line, any list left open closed, the lines joined again. */
    method ConvertContent(markdownText: string) returns (latex: string)
      modifies this
      ensures var r := ConvertLines(old(inCodeBlock), Split(markdownText));
        inCodeBlock == r.mode.inCode && latex == Join(RenderAll(r.out))
      ensures Split(latex) == RenderAll(ConvertLines(old(inCodeBlock), Split(markdownText)).out)
    {
      var lines := Split(markdownText);
      var latexLines: seq<string> := [];
      var i := 0;
      var inList := false;
      var listType: Option<ListKind> := None;
      ghost var start := Mode(inCodeBlock, None);

      while i < |lines|
        invariant 0 <= i <= |lines|
        invariant inList ==> listType.Some?
        invariant Run(start, lines[..i]).mode == Mode(inCodeBlock, if inList then listType else None)
        invariant latexLines == RenderAll(Run(start, lines[..i]).out)
        decreases |lines| - i
      {
        ghost var r := Run(start, lines[..i]);
        var emitted;
        emitted, inList, listType := ConvertLine(lines[i], inList, listType);
        RunSnoc(start, lines[..i], lines[i]);
        TakeSnoc(lines, i);
        RenderAllAppend(r.out, emitted);
        latexLines := latexLines + RenderAll(emitted);
        i := i + 1;
      }

      assert lines[..i] == lines;
      ghost var r := Run(start, lines);
      assert latexLines == RenderAll(r.out);
      FinishRendered(r, inList, listType);
      if inList {
        latexLines := latexLines + [EndEnv(EnvName(listType.value))];
      }
      assert latexLines == RenderAll(Finish(r).out);
      assert Finish(r) == ConvertLines(start.inCode, lines);
      latex := Join(latexLines);
      OutputLines(start.inCode, markdownText);
    }
  }
}
