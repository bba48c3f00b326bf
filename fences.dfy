/**
 * Fenced blocks: between two fences every line is written as it is, with
 * no heading, list or inline processing; the fences themselves become the
 * verbatim environment's markers; a fence left open is not closed, and the
 * converter stays inside the block for its next document.
 */
module Fences {
  import opened Optional
  import opened Text
  import opened Engine
  import opened Content
  import opened Lists

  /** The verbatim lines written for the lines of a block. */
  function Verbatims(lines: seq<string>): (r: seq<OutLine>)
    ensures |r| == |lines|
    ensures forall i :: 0 <= i < |lines| ==> r[i] == Verbatim(lines[i])
    decreases |lines|
  {
    if lines == [] then [] else Verbatims(lines[..|lines| - 1]) + [Verbatim(lines[|lines| - 1])]
  }

  /** No line is classed as a fence. */
  predicate NoFences(lines: seq<string>, classify: string -> LineClass) {
    forall i :: 0 <= i < |lines| ==> !classify(lines[i]).FenceLine?
  }

  /** Inside a block, lines that are not fences are written as they are and
      change nothing. */
  lemma {:induction false} RunWithVerbatim(m: Mode, lines: seq<string>, classify: string -> LineClass)
    requires m.inCode && NoFences(lines, classify)
    ensures RunWith(m, lines, classify) == Outcome(m, Verbatims(lines))
    decreases |lines|
  {
    if lines != [] {
      var init := lines[..|lines| - 1];
      assert NoFences(init, classify) by {
        assert forall i :: 0 <= i < |init| ==> init[i] == lines[i];
      }
      RunWithVerbatim(m, init, classify);
    }
  }

  /** The loop's classification of lines none of which is a fence. */
  lemma ClassifyNoFences(lines: seq<string>)
    requires forall i :: 0 <= i < |lines| ==> !IsFence(lines[i])
    ensures NoFences(lines, Classify)
  {
    forall i | 0 <= i < |lines|
      ensures !Classify(lines[i]).FenceLine?
    {
      ClassifyFence(lines[i]);
    }
  }

  /** Inside a block, any lines without a fence, headings and list items
      included, are written as they are. */
  lemma RunVerbatim(m: Mode, lines: seq<string>)
    requires m.inCode && forall i :: 0 <= i < |lines| ==> !IsFence(lines[i])
    ensures Run(m, lines) == Outcome(m, Verbatims(lines))
  {
    ClassifyNoFences(lines);
    RunIsRunWith(m, lines);
    RunWithVerbatim(m, lines, Classify);
  }

  /** A fence, then a body without fences, for any classification. */
  lemma FenceOpenWith(open: string, body: seq<string>, classify: string -> LineClass)
    requires classify(open).FenceLine? && NoFences(body, classify)
    ensures RunWith(Mode(false, None), [open] + body, classify) ==
      Outcome(Mode(true, None), [BeginVerbatim] + Verbatims(body))
  {
    var none := Mode(false, None);
    RunWithSnoc(none, [], open, classify);
    assert [] + [open] == [open];
    assert [] + ([] + [BeginVerbatim]) == [BeginVerbatim];
    assert RunWith(none, [open], classify) == Outcome(Mode(true, None), [BeginVerbatim]);
    RunWithVerbatim(Mode(true, None), body, classify);
    RunWithAppend(none, [open], body, classify);
  }

  /** A fence, a body without fences, a fence, for any classification, with
      the final close of the conversion. */
  lemma FencedBlockWith(open: string, body: seq<string>, close: string, classify: string -> LineClass)
    requires classify(open).FenceLine? && classify(close).FenceLine? && NoFences(body, classify)
    ensures Finish(RunWith(Mode(false, None), [open] + body, classify)) ==
      Outcome(Mode(true, None), [BeginVerbatim] + Verbatims(body))
    ensures Finish(RunWith(Mode(false, None), [open] + body + [close], classify)) ==
      Outcome(Mode(false, None), [BeginVerbatim] + Verbatims(body) + [EndVerbatim])
  {
    FenceOpenWith(open, body, classify);
    RunWithSnoc(Mode(false, None), [open] + body, close, classify);
    var x := [BeginVerbatim] + Verbatims(body);
    assert x + [] == x;
    assert (x + [EndVerbatim]) + [] == x + [EndVerbatim];
  }

  /** A fence, the body, a fence: the body between the verbatim markers,
      the flag cleared again. */
  lemma FencedBlock(open: string, body: seq<string>, close: string)
    requires IsFence(open) && IsFence(close)
    requires forall i :: 0 <= i < |body| ==> !IsFence(body[i])
    ensures ConvertLines(false, [open] + body + [close]) ==
      Outcome(Mode(false, None), [BeginVerbatim] + Verbatims(body) + [EndVerbatim])
  {
    ClassifyFence(open);
    ClassifyFence(close);
    ClassifyNoFences(body);
    ConvertWith(false, [open] + body + [close]);
    FencedBlockWith(open, body, close, Classify);
  }

  /** A fence that is never closed: the body follows the opening marker,
      no closing marker is written, and the flag stays set. */
  lemma UnterminatedFence(open: string, body: seq<string>)
    requires IsFence(open)
    requires forall i :: 0 <= i < |body| ==> !IsFence(body[i])
    ensures ConvertLines(false, [open] + body) == Outcome(Mode(true, None), [BeginVerbatim] + Verbatims(body))
  {
    ClassifyFence(open);
    ClassifyNoFences(body);
    ConvertWith(false, [open] + body);
    FencedBlockWith(open, body, open, Classify);
  }

  /** The next document on the same converter goes on inside the block:
      its lines before a fence are written as they are. */
  lemma BlockCarriesOver(lines: seq<string>)
    requires forall i :: 0 <= i < |lines| ==> !IsFence(lines[i])
    ensures ConvertLines(true, lines) == Outcome(Mode(true, None), Verbatims(lines))
  {
    RunVerbatim(Mode(true, None), lines);
  }
}
