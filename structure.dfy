/**
 * The shape of the converter's output: list environments are opened and
 * closed in matching pairs, verbatim markers alternate from the fenced-block
 * flag the conversion starts with (so an unclosed fence leaves
 * `\begin{verbatim}` open, and a conversion started inside a block may
 * open with `\end{verbatim}`), a list never opens inside another list or inside a
 * verbatim block, items stand only in a list of their own kind, headings and
 * blank lines only outside lists, verbatim text only inside a verbatim block,
 * and no list is left open at the end. The rules are a reader of the output
 * that tracks the open environments; the converter's output always passes
 * it.
 */
module Structure {
  import opened Optional
  import opened Text
  import opened Blocks
  import opened Engine

  /** The reader's state after one emitted line, or `None` when the line is
      out of place. The state is a `Mode`: the verbatim environment is open,
      and which list environment is open. */
  function Next(c: Mode, o: OutLine): Option<Mode> {
    match o
    case BeginList(k) => if !c.inCode && c.open.None? then Some(Mode(false, Some(k))) else None
    case EndList(k) => if !c.inCode && c.open == Some(k) then Some(Mode(false, None)) else None
    case BeginVerbatim => if !c.inCode && c.open.None? then Some(Mode(true, None)) else None
    case EndVerbatim => if c.inCode then Some(Mode(false, None)) else None
    case Verbatim(_) => if c.inCode then Some(c) else None
    case Heading(_) => if !c.inCode && c.open.None? then Some(c) else None
    case Item(k, _) => if !c.inCode && c.open == Some(k) then Some(c) else None
    case Blank => if !c.inCode && c.open.None? then Some(c) else None
    case Paragraph(_) => if !c.inCode then Some(c) else None
  }

  /** The reader run over a whole output. */
  function Scan(c: Mode, out: seq<OutLine>): Option<Mode>
    decreases |out|
  {
    if out == [] then Some(c)
    else match Next(c, out[0])
      case Some(c1) => Scan(c1, out[1..])
      case None => None
  }

  /** Reading two outputs one after the other. */
  lemma {:induction false} ScanAppend(c: Mode, a: seq<OutLine>, b: seq<OutLine>)
    ensures Scan(c, a + b) == match Scan(c, a) case Some(c1) => Scan(c1, b) case None => None
    decreases |a|
  {
    if a != [] {
      assert (a + b)[0] == a[0];
      assert (a + b)[1..] == a[1..] + b;
      match Next(c, a[0])
      case Some(c1) => ScanAppend(c1, a[1..], b);
      case None =>
    } else {
      assert a + b == b;
    }
  }

  /** Inside a verbatim block no list is open. */
  predicate Consistent(m: Mode) {
    m.inCode ==> m.open.None?
  }

  /** One line's emissions are in place, and leave the reader in the mode
      the converter moves to. */
  lemma StepWellFormed(m: Mode, line: string, c: LineClass)
    requires Consistent(m) && ValidClass(c)
    ensures Consistent(Dispatch(m, line, c).mode)
    ensures Scan(m, Dispatch(m, line, c).out) == Some(Dispatch(m, line, c).mode)
  {
    var out := Dispatch(m, line, c).out;
    if c.FenceLine? && !m.inCode && m.open.Some? {
      ScanPair(m, EndList(m.open.value), BeginVerbatim);
    } else if !c.FenceLine? && !m.inCode {
      match c
      case HeadingLine(h) =>
        if m.open.Some? {
          ScanPair(m, EndList(m.open.value), Heading(h));
        }
      case ItemLine(k, item) =>
        if m.open.None? {
          ScanPair(m, BeginList(k), Item(k, item));
        } else if m.open.value != k {
          assert out == [EndList(m.open.value)] + [BeginList(k), Item(k, item)];
          ScanAppend(m, [EndList(m.open.value)], [BeginList(k), Item(k, item)]);
          ScanPair(Mode(false, None), BeginList(k), Item(k, item));
        }
      case TextLine(listLine, blank, formatted) =>
        if m.open.Some? && !listLine {
          ScanPair(m, EndList(m.open.value), out[1]);
        }
    }
  }

  /** Reading two lines. */
  lemma ScanPair(c: Mode, a: OutLine, b: OutLine)
    ensures Scan(c, [a, b]) == match Next(c, a) case Some(c1) => Next(c1, b) case None => None
  {
    assert [a, b][1..] == [b];
    assert [b][1..] == [];
    if Next(c, a).Some? {
      var c1 := Next(c, a).value;
      assert Scan(c, [a, b]) == Scan(c1, [b]);
      if Next(c1, b).Some? {
        assert Scan(c1, [b]) == Scan(Next(c1, b).value, []);
      }
    }
  }

  /** The loop's emissions are in place, whatever the lines. */
  lemma {:induction false} RunWellFormed(m: Mode, lines: seq<string>)
    requires Consistent(m)
    ensures Consistent(Run(m, lines).mode)
    ensures Scan(m, Run(m, lines).out) == Some(Run(m, lines).mode)
    decreases |lines|
  {
    if lines != [] {
      var init := lines[..|lines| - 1];
      var r := Run(m, init);
      RunWellFormed(m, init);
      ClassifyValid(lines[|lines| - 1]);
      StepWellFormed(r.mode, lines[|lines| - 1], Classify(lines[|lines| - 1]));
      ScanAppend(m, r.out, Step(r.mode, lines[|lines| - 1]).out);
    }
  }

  /** The whole output is well formed, and ends with no list open; it ends
      inside a verbatim block exactly when the converter's flag is left set. */
  lemma ConvertWellFormed(inCode: bool, lines: seq<string>)
    ensures var r := ConvertLines(inCode, lines);
      Scan(Mode(inCode, None), r.out) == Some(r.mode) && r.mode.open.None?
  {
    var m := Mode(inCode, None);
    var r := Run(m, lines);
    RunWellFormed(m, lines);
    ScanAppend(m, r.out, CloseList(r.mode.open));
  }
}
