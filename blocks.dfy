/**
 * The line classifiers of the converter: headings (`convert_headers`), list
 * items (`convert_list_item`) and the list-line test (`is_list_line`). Each
 * pattern is anchored at the start of the line and is written out as the
 * spans its greedy parts consume; backtracking is modelled where it can
 * change the outcome (a run of spaces before `(.+)$`).
 */
module Blocks {
  import opened Optional
  import opened Text
  import opened Inline

  /** `(.+)$` at the front of u: `.+` takes the text up to the first line
      break, which must be the end of u or its one final character. */
  function DotsToEnd(u: string): (r: Option<string>)
    ensures r.Some? ==> r.value != [] && NoNewline(r.value) && (u == r.value || u == r.value + "\n")
  {
    var j := match Find(u, '\n', 0) case Some(j) => j case None => |u|;
    if 1 <= j && (j == |u| || j + 1 == |u|) then Some(u[..j]) else None
  }

  /** On a line without a break, `(.+)$` matches exactly when there is text. */
  lemma DotsToEndLine(u: string)
    requires NoNewline(u)
    ensures DotsToEnd(u) == (if u == [] then None else Some(u))
  {
    assert u[..|u|] == u;
  }

  /** `\s+(.+)$` at the front of t, with `\s+` given back one character at a
      time from k downwards until `(.+)$` matches the rest. */
  function SpacesFrom(t: string, k: nat): (r: Option<string>)
    requires k <= |t| && AllIn(Space, t, 0, k)
    decreases k
  {
    if k == 0 then None
    else match DotsToEnd(t[k..])
      case Some(g) => Some(g)
      case None => SpacesFrom(t, k - 1)
  }

  /** `\s+(.+)$` at the front of t: the group `(.+)`, if the pattern matches. */
  function SpacesThenDots(t: string): Option<string> {
    SpacesFrom(t, Span(Space, t, 0))
  }

  /** On a line without a break, `\s+(.+)$` matches when the line starts with
      a space and has a second character; the group is the text after the
      spaces, or the last space when nothing else follows. */
  lemma SpacesThenDotsLine(t: string)
    requires NoNewline(t)
    ensures var r := SpacesThenDots(t);
      && (r.Some? <==> |t| >= 2 && IsSpace(t[0]))
      && (r.Some? ==> r.value == if LStrip(t) != [] then LStrip(t) else t[|t| - 1..])
  {
    var k := Span(Space, t, 0);
    if 1 <= k {
      if k < |t| {
        DotsToEndLine(t[k..]);
      } else if 2 <= k {
        assert t[k..] == [];
        assert SpacesFrom(t, k) == SpacesFrom(t, k - 1);
        DotsToEndLine(t[k - 1..]);
      }
    }
  }

  /** The group that `\s+(.+)$` captures, when it matches, is the rest of the
      text after a non-empty run of spaces. */
  lemma {:induction false} SpacesFromShape(t: string, k: nat)
    requires k <= |t| && AllIn(Space, t, 0, k)
    ensures var r := SpacesFrom(t, k);
      r.Some? ==> exists j :: 1 <= j <= k && DotsToEnd(t[j..]) == r
    decreases k
  {
    if k > 0 && DotsToEnd(t[k..]).None? {
      SpacesFromShape(t, k - 1);
    }
  }

  /** The LaTeX sectioning command for a heading level; the source's last
      branch catches every level from 6 up. */
  function SectionCommand(level: nat): string {
    if level == 1 then "chapter"
    else if level == 2 then "section"
    else if level == 3 then "subsection"
    else if level == 4 then "subsubsection"
    else if level == 5 then "paragraph"
    else "subparagraph"
  }

  /** The six heading levels map to six different commands. */
  lemma SectionCommandsDistinct(a: nat, b: nat)
    requires 1 <= a <= 6 && 1 <= b <= 6 && a != b
    ensures SectionCommand(a) != SectionCommand(b)
  {
  }

  /** The number of `#` characters that open the line. */
  function Level(line: string): nat {
    Span(Hash, line, 0)
  }

  /** The group `(.+)` of `^(#{1,6})\s+(.+)$`, if the pattern matches.
      Seven or more `#` never match, as `#{1,6}` cannot stop in the middle
      of a run of `#` and still meet `\s+`. */
  function HeaderTitle(line: string): Option<string> {
    var n := Level(line);
    if 1 <= n <= 6 then SpacesThenDots(line[n..]) else None
  }

  /** The heading rendered from level n and the title group: the title
      stripped, then formatted. */
  function HeadingText(n: nat, title: string): string {
    "\\" + SectionCommand(n) + "{" + ConvertInlineFormatting(Strip(title)) + "}"
  }

  /** `convert_headers`. */
  function ConvertHeaders(line: string): (r: Option<string>)
    ensures r.Some? ==> 1 <= Level(line) <= 6
  {
    match HeaderTitle(line)
    case Some(title) => Some(HeadingText(Level(line), title))
    case None => None
  }

  /** Titles that strip to the same text give the same heading. */
  lemma HeadingTextStrip(n: nat, a: string, b: string)
    requires Strip(a) == Strip(b)
    ensures HeadingText(n, a) == HeadingText(n, b)
  {
  }

  /** On a line, the heading pattern matches exactly when one to six `#`
      are followed by a space and at least one more character, and its
      title strips to the stripped rest of the line. */
  lemma HeaderTitleSpec(line: string)
    requires NoNewline(line)
    ensures var n := Level(line);
      && (HeaderTitle(line).Some? <==> 1 <= n <= 6 && n + 2 <= |line| && IsSpace(line[n]))
      && (HeaderTitle(line).Some? ==> Strip(HeaderTitle(line).value) == Strip(line[n..]))
  {
    var n := Level(line);
    var t := line[n..];
    if 1 <= n <= 6 {
      SpacesThenDotsLine(t);
      var g := SpacesThenDots(t);
      if g.Some? {
        var k := Span(Space, t, 0);
        if LStrip(t) != [] {
          StripPadded(t, k, |t|);
          assert t[k..|t|] == g.value;
        } else {
          StripPadded(t, |t| - 1, |t|);
          assert t[|t| - 1..|t|] == g.value;
        }
      }
    }
  }

  /** On a line, `convert_headers` matches exactly when one to six `#` are
      followed by a space and at least one more character, and the title is
      the stripped rest of the line. */
  lemma HeaderSpec(line: string)
    requires NoNewline(line)
    ensures var n := Level(line);
      && (ConvertHeaders(line).Some? <==> 1 <= n <= 6 && n + 2 <= |line| && IsSpace(line[n]))
      && (ConvertHeaders(line).Some? ==> ConvertHeaders(line).value == HeadingText(n, line[n..]))
  {
    HeaderTitleSpec(line);
    if HeaderTitle(line).Some? {
      HeadingTextStrip(Level(line), HeaderTitle(line).value, line[Level(line)..]);
    }
  }

  /** `#` repeated n times. */
  function Hashes(n: nat): (r: string)
    ensures |r| == n && AllIn(Hash, r, 0, n)
  {
    if n == 0 then [] else Hashes(n - 1) + "#"
  }

  /** A heading written as n `#`, a space and a title comes back as the
      section command of level n around the formatted, stripped title. */
  lemma HeadingRoundTrip(n: nat, title: string)
    requires 1 <= n <= 6 && title != [] && NoNewline(title)
    ensures ConvertHeaders(Hashes(n) + " " + title) == Some(HeadingText(n, title))
  {
    var line := Hashes(n) + " " + title;
    SpanUnique(Hash, line, 0, n);
    assert line[n..] == " " + title;
    HeaderTitleSpec(line);
    StripSpaced(title);
    HeadingTextStrip(n, HeaderTitle(line).value, title);
  }

  /** `[-*+]`. */
  predicate IsBullet(c: char) {
    c == '-' || c == '*' || c == '+'
  }

  /** The indent: the run of spaces that opens the line, `^(\s*)`. */
  function Indent(line: string): nat {
    Span(Space, line, 0)
  }

  /** The end of `\d+\.` after the indent, if the line has one there. */
  function OrderedMarkerEnd(line: string): (r: Option<nat>)
    ensures r.Some? ==> Indent(line) + 2 <= r.value <= |line|
  {
    var w := Indent(line);
    var e := Span(Digit, line, w);
    if w < e < |line| && line[e] == '.' then Some(e + 1) else None
  }

  /** The end of `[-*+]` after the indent, if the line has one there. */
  function BulletMarkerEnd(line: string): (r: Option<nat>)
    ensures r.Some? ==> r.value == Indent(line) + 1 <= |line|
  {
    var w := Indent(line);
    if w < |line| && IsBullet(line[w]) then Some(w + 1) else None
  }

  /** The group `(.+)` of `^(\s*)(\d+)\.\s+(.+)$`. */
  function OrderedContent(line: string): Option<string> {
    match OrderedMarkerEnd(line)
    case Some(e) => SpacesThenDots(line[e..])
    case None => None
  }

  /** The group `(.+)` of `^(\s*)[-*+]\s+(.+)$`. */
  function BulletContent(line: string): Option<string> {
    match BulletMarkerEnd(line)
    case Some(e) => SpacesThenDots(line[e..])
    case None => None
  }

  /** The content group of the pattern that matches, the ordered one tried
      first. */
  function ItemMatch(line: string): Option<string> {
    if OrderedContent(line).Some? then OrderedContent(line) else BulletContent(line)
  }

  /** `convert_list_item`: the indent is kept and the content is formatted
      (but not stripped). */
  function ConvertListItem(line: string): (r: Option<string>)
    ensures r.Some? ==> IsListLine(line)
  {
    match ItemMatch(line)
    case Some(c) => Some(line[..Indent(line)] + "\\item " + ConvertInlineFormatting(c))
    case None => None
  }

  /** An item keeps the indent of its line, then `\item `. */
  lemma ItemPrefix(line: string)
    requires ConvertListItem(line).Some?
    ensures var r := ConvertListItem(line).value;
      && |r| >= Indent(line) + 6
      && r[..Indent(line)] == line[..Indent(line)]
      && r[Indent(line)..Indent(line) + 6] == "\\item "
  {
    var indent := line[..Indent(line)];
    var r := indent + "\\item " + ConvertInlineFormatting(ItemMatch(line).value);
    assert r[..|indent|] == indent && r[|indent|..|indent| + 6] == "\\item ";
  }

  /** `is_list_line`: `^\s*(\d+\.|-|\*|\+)\s+`, a marker after the indent
      and a space after the marker, with nothing required after that. */
  predicate IsListLine(line: string): (b: bool)
    ensures b ==> !AllIn(Space, line, 0, |line|)
  {
    (OrderedMarkerEnd(line).Some? && OrderedMarkerEnd(line).value < |line| && IsSpace(line[OrderedMarkerEnd(line).value]))
    || (BulletMarkerEnd(line).Some? && BulletMarkerEnd(line).value < |line| && IsSpace(line[BulletMarkerEnd(line).value]))
  }

  /** The test `^\s*\d+\.` that picks the list kind of an item. */
  predicate IsOrdered(line: string) {
    OrderedMarkerEnd(line).Some?
  }

  /** The end of the marker of a list line: the ordered one if present. */
  function MarkerEnd(line: string): nat
    requires IsListLine(line)
  {
    if OrderedMarkerEnd(line).Some? && OrderedMarkerEnd(line).value < |line| && IsSpace(line[OrderedMarkerEnd(line).value])
    then OrderedMarkerEnd(line).value
    else BulletMarkerEnd(line).value
  }

  /** Every list item is a list line, and its kind test says ordered exactly
      when the ordered pattern made the item. */
  lemma ItemIsListLine(line: string)
    requires ConvertListItem(line).Some?
    ensures IsListLine(line)
    ensures IsOrdered(line) <==> OrderedContent(line).Some?
  {
    if OrderedContent(line).Some? {
      var e := OrderedMarkerEnd(line).value;
      var t := line[e..];
      assert SpacesThenDots(t).Some?;
      SpacesFromShape(t, Span(Space, t, 0));
    } else {
      var e := BulletMarkerEnd(line).value;
      var t := line[e..];
      assert SpacesThenDots(t).Some?;
      SpacesFromShape(t, Span(Space, t, 0));
    }
  }

  /** The content a list line carries after its marker, as `\s+(.+)$` takes
      it on a line: the text after the spaces, or the last space. */
  function ItemContent(t: string): string {
    if LStrip(t) != [] then LStrip(t) else if t == [] then [] else t[|t| - 1..]
  }

  /** The ordered pattern on a line: it matches exactly when `\d+\.` is
      followed by a space and one more character. */
  lemma OrderedContentLine(line: string)
    requires NoNewline(line) && OrderedMarkerEnd(line).Some?
    ensures var e := OrderedMarkerEnd(line).value;
      && (OrderedContent(line).Some? <==> e + 2 <= |line| && IsSpace(line[e]))
      && (OrderedContent(line).Some? ==> OrderedContent(line).value == ItemContent(line[e..]))
  {
    var t := line[OrderedMarkerEnd(line).value..];
    assert NoNewline(t);
    SpacesThenDotsLine(t);
  }

  /** The bullet pattern on a line, likewise. */
  lemma BulletContentLine(line: string)
    requires NoNewline(line) && BulletMarkerEnd(line).Some?
    ensures var e := BulletMarkerEnd(line).value;
      && (BulletContent(line).Some? <==> e + 2 <= |line| && IsSpace(line[e]))
      && (BulletContent(line).Some? ==> BulletContent(line).value == ItemContent(line[e..]))
  {
    var t := line[BulletMarkerEnd(line).value..];
    assert NoNewline(t);
    SpacesThenDotsLine(t);
  }

  /** A line has at most one kind of marker. */
  lemma OneMarker(line: string)
    ensures !(OrderedMarkerEnd(line).Some? && BulletMarkerEnd(line).Some?)
  {
    if OrderedMarkerEnd(line).Some? {
      assert IsDigit(line[Indent(line)]);
    }
  }

  /** On a line, `convert_list_item` matches exactly the list lines with at
      least two characters after the marker, and yields the indent, `\item `
      and the formatted content. */
  lemma ListItemSpec(line: string)
    requires NoNewline(line)
    ensures ConvertListItem(line).Some? <==> IsListLine(line) && MarkerEnd(line) + 2 <= |line|
    ensures ConvertListItem(line).Some? ==>
      ConvertListItem(line).value ==
        line[..Indent(line)] + "\\item " + ConvertInlineFormatting(ItemContent(line[MarkerEnd(line)..]))
  {
    OneMarker(line);
    if OrderedMarkerEnd(line).Some? {
      OrderedContentLine(line);
    } else if BulletMarkerEnd(line).Some? {
      BulletContentLine(line);
    }
  }

  /** A list line that is not a list item has exactly one character after
      its marker, a space, so the line is not blank. */
  lemma ListLineNotItem(line: string)
    requires NoNewline(line) && IsListLine(line) && ConvertListItem(line).None?
    ensures MarkerEnd(line) + 1 == |line|
    ensures Strip(line) != []
  {
    ListItemSpec(line);
    var w := Indent(line);
    assert !IsSpace(line[w]);
  }
}
