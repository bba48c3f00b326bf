/**
 * How the converter opens, switches and closes lists, stated on the lines
 * of the document: an item opens the list of its kind, an item of the other
 * kind switches lists with nothing in between, a fence, a heading or a line
 * that is no list line closes the open list before its own output, and a
 * run of items comes out as one environment.
 */
module Lists {
  import opened Optional
  import opened Text
  import opened Inline
  import opened Blocks
  import opened Engine
  import opened Content

  /** Every list item is a list line. */
  lemma ItemListLine(line: string)
    ensures ConvertListItem(line).Some? ==> IsListLine(line)
  {
    if ConvertListItem(line).Some? {
      ItemIsListLine(line);
    }
  }

  /** With a list open, a fence, a heading or a line that is not a list line
      first closes the list, then gives its own output, and leaves no list
      open. */
  lemma ClosesList(m: Mode, line: string)
    requires !m.inCode && m.open.Some?
    requires IsFence(line) || ConvertHeaders(line).Some? || !IsListLine(line)
    ensures var s := Step(m, line);
      && |s.out| == 2
      && s.out[0] == EndList(m.open.value)
      && s.out[1] == (if IsFence(line) then BeginVerbatim else ContentOf(Classify(line)))
      && s.mode.open.None?
  {
    ItemListLine(line);
  }

  /** With a list open, a list line that is not an item (a marker and one
      space, such as `- `) keeps the list open and is written as a
      paragraph. */
  lemma KeepsList(m: Mode, line: string)
    requires NoNewline(line) && !m.inCode && m.open.Some?
    requires !IsFence(line) && ConvertHeaders(line).None? && IsListLine(line) && ConvertListItem(line).None?
    ensures Step(m, line) == Outcome(m, [Paragraph(ConvertInlineFormatting(line))])
  {
    ListLineNotItem(line);
    StepText(m, line);
    assert !IsBlank(line);
  }

  /** A line the loop takes as an item of kind k. */
  predicate ItemOfKind(line: string, k: ListKind) {
    !IsFence(line) && ConvertHeaders(line).None? && ConvertListItem(line).Some? && KindOf(line) == k
  }

  /** What the loop's dispatch makes of an item line. */
  lemma ClassifyItem(line: string, k: ListKind)
    requires ItemOfKind(line, k)
    ensures Classify(line) == ItemLine(k, ConvertListItem(line).value)
  {
  }

  /** An item opens the list of its kind when none is open, switches from
      the other kind by closing it and opening its own with nothing in
      between, and otherwise only adds itself. */
  lemma ItemStep(m: Mode, line: string, k: ListKind)
    requires !m.inCode && ItemOfKind(line, k)
    ensures var item := Item(k, ConvertListItem(line).value);
      && Step(m, line).mode == Mode(false, Some(k))
      && (m.open.None? ==> Step(m, line).out == [BeginList(k), item])
      && (m.open == Some(k) ==> Step(m, line).out == [item])
      && (m.open.Some? && m.open != Some(k) ==> Step(m, line).out == [EndList(m.open.value), BeginList(k), item])
  {
    ClassifyItem(line, k);
    DispatchItem(m, line, k, ConvertListItem(line).value);
  }

  /** The dispatch of a line of the item class, outside a fenced block. */
  lemma DispatchItem(m: Mode, line: string, k: ListKind, text: string)
    requires !m.inCode
    ensures var d := Dispatch(m, line, ItemLine(k, text));
      && d.mode == Mode(false, Some(k))
      && (m.open.None? ==> d.out == [BeginList(k), Item(k, text)])
      && (m.open == Some(k) ==> d.out == [Item(k, text)])
      && (m.open.Some? && m.open != Some(k) ==> d.out == [EndList(m.open.value), BeginList(k), Item(k, text)])
  {
  }

  /** The loop with the classification of lines passed in, so that a proof
      about a run of lines sees only the classes it needs. */
  function RunWith(m: Mode, lines: seq<string>, classify: string -> LineClass): Outcome
    decreases |lines|
  {
    if lines == [] then Outcome(m, [])
    else
      var r := RunWith(m, lines[..|lines| - 1], classify);
      var line := lines[|lines| - 1];
      var s := Dispatch(r.mode, line, classify(line));
      Outcome(s.mode, r.out + s.out)
  }

  lemma {:induction false} RunIsRunWith(m: Mode, lines: seq<string>)
    ensures Run(m, lines) == RunWith(m, lines, Classify)
    decreases |lines|
  {
    if lines != [] {
      RunIsRunWith(m, lines[..|lines| - 1]);
    }
  }

  lemma RunWithSnoc(m: Mode, init: seq<string>, line: string, classify: string -> LineClass)
    ensures var r := RunWith(m, init, classify);
      var s := Dispatch(r.mode, line, classify(line));
      RunWith(m, init + [line], classify) == Outcome(s.mode, r.out + s.out)
  {
    var lines := init + [line];
    assert lines[..|lines| - 1] == init;
  }

  /** The loop over two runs of lines is the loop over the first run and
      then over the second from where the first left off. */
  lemma {:induction false} RunWithAppend(m: Mode, a: seq<string>, b: seq<string>, classify: string -> LineClass)
    ensures var q := RunWith(m, a, classify);
      var p := RunWith(q.mode, b, classify);
      RunWith(m, a + b, classify) == Outcome(p.mode, q.out + p.out)
    decreases |b|
  {
    if b == [] {
      assert a + b == a;
    } else {
      var init := b[..|b| - 1];
      var line := b[|b| - 1];
      SnocSplit(b);
      AppendAssoc(a, init, [line]);
      var q := RunWith(m, a, classify);
      RunWithAppend(m, a, init, classify);
      RunWithSnoc(m, a + init, line, classify);
      RunWithSnoc(q.mode, init, line, classify);
      var p := RunWith(q.mode, init, classify);
      var s := Dispatch(p.mode, line, classify(line));
      AppendAssoc(q.out, p.out, s.out);
    }
  }

  /** Every line is classed as an item of kind k. */
  predicate ItemsOfKind(k: ListKind, lines: seq<string>, classify: string -> LineClass) {
    forall i :: 0 <= i < |lines| ==> classify(lines[i]).ItemLine? && classify(lines[i]).kind == k
  }

  /** The items written for such lines. */
  function ItemsWith(k: ListKind, lines: seq<string>, classify: string -> LineClass): (r: seq<OutLine>)
    requires ItemsOfKind(k, lines, classify)
    ensures |r| == |lines|
    ensures forall i :: 0 <= i < |lines| ==> r[i] == Item(k, classify(lines[i]).item)
    decreases |lines|
  {
    if lines == [] then []
    else
      var init := lines[..|lines| - 1];
      assert forall i :: 0 <= i < |init| ==> init[i] == lines[i];
      ItemsWith(k, init, classify) + [Item(k, classify(lines[|lines| - 1]).item)]
  }

  /** A run of items of kind k, from any open list, leaves the list of kind
      k open and adds the opening (or switch) once, then the items. */
  lemma {:induction false} RunWithItems(open: Option<ListKind>, k: ListKind, lines: seq<string>, classify: string -> LineClass)
    requires lines != [] && ItemsOfKind(k, lines, classify)
    ensures RunWith(Mode(false, open), lines, classify) ==
      Outcome(Mode(false, Some(k)), OpenList(open, k) + ItemsWith(k, lines, classify))
    decreases |lines|
  {
    var init := lines[..|lines| - 1];
    var line := lines[|lines| - 1];
    var item := Item(k, classify(line).item);
    assert ItemsOfKind(k, init, classify) by {
      assert forall i :: 0 <= i < |init| ==> init[i] == lines[i];
    }
    assert ItemsWith(k, lines, classify) == ItemsWith(k, init, classify) + [item];
    assert classify(line).ItemLine? && classify(line).kind == k;
    assert classify(line) == ItemLine(k, classify(line).item);
    if init == [] {
      assert ItemsWith(k, init, classify) == [];
      DispatchItem(Mode(false, open), line, k, classify(line).item);
    } else {
      RunWithItems(open, k, init, classify);
      DispatchItem(Mode(false, Some(k)), line, k, classify(line).item);
      AppendAssoc(OpenList(open, k), ItemsWith(k, init, classify), [item]);
    }
  }

  /** The loop's classification of lines that are all items of kind k. */
  lemma ClassifyItems(k: ListKind, lines: seq<string>)
    requires forall i :: 0 <= i < |lines| ==> ItemOfKind(lines[i], k)
    ensures ItemsOfKind(k, lines, Classify)
    ensures forall i :: 0 <= i < |lines| ==> ConvertListItem(lines[i]) == Some(Classify(lines[i]).item)
  {
    forall i | 0 <= i < |lines|
      ensures Classify(lines[i]).ItemLine? && Classify(lines[i]).kind == k
      ensures ConvertListItem(lines[i]) == Some(Classify(lines[i]).item)
    {
      ClassifyItem(lines[i], k);
    }
  }

  /** The whole conversion, with the loop's classification passed in. */
  lemma ConvertWith(inCode: bool, lines: seq<string>)
    ensures ConvertLines(inCode, lines) == Finish(RunWith(Mode(inCode, None), lines, Classify))
  {
    RunIsRunWith(Mode(inCode, None), lines);
  }

  /** A document of items of one kind is one list environment holding the
      formatted items in order. */
  lemma ListOfItems(k: ListKind, lines: seq<string>)
    requires lines != [] && forall i :: 0 <= i < |lines| ==> ItemOfKind(lines[i], k)
    ensures var r := ConvertLines(false, lines);
      && r.mode == Mode(false, None)
      && |r.out| == |lines| + 2
      && r.out[0] == BeginList(k) && r.out[|lines| + 1] == EndList(k)
      && forall i :: 0 <= i < |lines| ==> ConvertListItem(lines[i]).Some? && r.out[i + 1] == Item(k, ConvertListItem(lines[i]).value)
  {
    ClassifyItems(k, lines);
    ListWith(k, lines);
    ItemsAround(k, lines, Classify, ConvertListItem);
  }

  /** The list around the items of such lines, read line by line through
      `item`, the item each line is converted to. */
  lemma ItemsAround(k: ListKind, lines: seq<string>, classify: string -> LineClass, item: string -> Option<string>)
    requires ItemsOfKind(k, lines, classify)
    requires forall i :: 0 <= i < |lines| ==> item(lines[i]) == Some(classify(lines[i]).item)
    ensures var out := [BeginList(k)] + ItemsWith(k, lines, classify) + [EndList(k)];
      && |out| == |lines| + 2
      && out[0] == BeginList(k) && out[|lines| + 1] == EndList(k)
      && forall i :: 0 <= i < |lines| ==> out[i + 1] == Item(k, item(lines[i]).value)
  {
    Bracketed(BeginList(k), ItemsWith(k, lines, classify), EndList(k));
  }

  /** ListOfItems in terms of the loop's classification. */
  lemma ListWith(k: ListKind, lines: seq<string>)
    requires lines != [] && ItemsOfKind(k, lines, Classify)
    ensures ConvertLines(false, lines) ==
      Outcome(Mode(false, None), [BeginList(k)] + ItemsWith(k, lines, Classify) + [EndList(k)])
  {
    ConvertWith(false, lines);
    RunWithItems(None, k, lines, Classify);
  }

  lemma Bracketed(b: OutLine, x: seq<OutLine>, e: OutLine)
    ensures var y := [b] + x + [e];
      |y| == |x| + 2 && y[0] == b && y[|x| + 1] == e && forall i :: 0 <= i < |x| ==> y[i + 1] == x[i]
  {
  }

  /** Items of one kind followed by items of the other come out as the two
      lists one after the other: the first list is closed and the second
      opened with nothing between them. */
  lemma SwitchedLists(j: ListKind, a: seq<string>, k: ListKind, b: seq<string>)
    requires j != k && a != [] && b != []
    requires forall i :: 0 <= i < |a| ==> ItemOfKind(a[i], j)
    requires forall i :: 0 <= i < |b| ==> ItemOfKind(b[i], k)
    ensures ConvertLines(false, a + b).out == ConvertLines(false, a).out + ConvertLines(false, b).out
  {
    ClassifyItems(j, a);
    ClassifyItems(k, b);
    var none := Mode(false, None);
    RunAppend(none, a, b);
    RunIsRunWith(none, a);
    RunIsRunWith(Mode(false, Some(j)), b);
    RunIsRunWith(none, b);
    RunWithItems(None, j, a, Classify);
    RunWithItems(Some(j), k, b, Classify);
    RunWithItems(None, k, b, Classify);
    SwitchShape(ItemsWith(j, a, Classify), ItemsWith(k, b, Classify), j, k);
  }

  lemma SwitchShape(x: seq<OutLine>, y: seq<OutLine>, j: ListKind, k: ListKind)
    ensures ([BeginList(j)] + x) + ([EndList(j), BeginList(k)] + y) + [EndList(k)] ==
      ([BeginList(j)] + x + [EndList(j)]) + ([BeginList(k)] + y + [EndList(k)])
  {
  }
}
