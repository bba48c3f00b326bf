/**
 * Characters, spans, stripping, splitting and joining: the pieces of Python's
 * `re` and `str` behaviour that the converter's patterns rely on, written out
 * over `string` (a `seq<char>`).
 */
module Text {
  import opened Optional

  /** The character classes the converter's patterns use. `Space` is the ASCII
      part of Python's whitespace, the one set that both `\s` and `str.strip()`
      use; `Digit` is `\d` restricted to ASCII. */
  datatype CharClass = Space | Digit | Hash

  predicate IsSpace(c: char) {
    c == ' ' || c == '\t' || c == '\n' || c == '\r' || c == '\U{B}' || c == '\U{C}'
    || ('\U{1C}' <= c <= '\U{1F}')
  }

  predicate IsDigit(c: char) {
    '0' <= c <= '9'
  }

  predicate In(cls: CharClass, c: char) {
    match cls
    case Space => IsSpace(c)
    case Digit => IsDigit(c)
    case Hash => c == '#'
  }

  /** Every character of s[lo..hi] belongs to cls. */
  predicate AllIn(cls: CharClass, s: string, lo: nat, hi: nat)
    requires lo <= hi <= |s|
  {
    forall k :: lo <= k < hi ==> In(cls, s[k])
  }

  /** No character of s[lo..hi] is c. */
  predicate Absent(s: string, c: char, lo: nat, hi: nat)
    requires lo <= hi <= |s|
  {
    forall k :: lo <= k < hi ==> s[k] != c
  }

  /** A line: text with no line break in it (what `split('\n')` yields). */
  predicate NoNewline(s: string) {
    Absent(s, '\n', 0, |s|)
  }

  /** The end of the longest run of cls characters that starts at i: what a
      greedy `\s*`, `\d+` or `#+` consumes there. */
  function Span(cls: CharClass, s: string, i: nat): (j: nat)
    requires i <= |s|
    ensures i <= j <= |s| && AllIn(cls, s, i, j)
    ensures j < |s| ==> !In(cls, s[j])
    decreases |s| - i
  {
    if i < |s| && In(cls, s[i]) then Span(cls, s, i + 1) else i
  }

  /** The run is determined by its two defining properties. */
  lemma SpanUnique(cls: CharClass, s: string, i: nat, j: nat)
    requires i <= j <= |s| && AllIn(cls, s, i, j)
    requires j < |s| ==> !In(cls, s[j])
    ensures Span(cls, s, i) == j
  {
  }

  /** The start of the run of spaces that ends s[lo..hi]. */
  function SpanBack(s: string, lo: nat, hi: nat): (j: nat)
    requires lo <= hi <= |s|
    ensures lo <= j <= hi && AllIn(Space, s, j, hi)
    ensures lo < j ==> !IsSpace(s[j - 1])
    decreases hi - lo
  {
    if lo < hi && IsSpace(s[hi - 1]) then SpanBack(s, lo, hi - 1) else hi
  }

  lemma SpanBackUnique(s: string, lo: nat, hi: nat, j: nat)
    requires lo <= j <= hi <= |s| && AllIn(Space, s, j, hi)
    requires lo < j ==> !IsSpace(s[j - 1])
    ensures SpanBack(s, lo, hi) == j
  {
  }

  /** Python's `s.lstrip()` over the ASCII whitespace set. */
  function LStrip(s: string): (r: string)
    ensures |r| <= |s| && r == s[|s| - |r|..]
    ensures AllIn(Space, s, 0, |s| - |r|)
    ensures r != [] ==> !IsSpace(r[0])
  {
    s[Span(Space, s, 0)..]
  }

  /** Python's `s.strip()` over the ASCII whitespace set. */
  function Strip(s: string): (r: string)
    ensures |r| <= |s|
    ensures r == [] <==> AllIn(Space, s, 0, |s|)
  {
    var lo := Span(Space, s, 0);
    var hi := SpanBack(s, lo, |s|);
    assert lo == hi ==> AllIn(Space, s, 0, |s|);
    assert lo < hi ==> !IsSpace(s[lo]);
    s[lo..hi]
  }

  /** `s` is `Strip(s)` with a run of spaces on each side, and `Strip(s)`
      neither begins nor ends with a space. */
  lemma StripShape(s: string)
    ensures var r := Strip(s);
      && (r != [] ==> !IsSpace(r[0]) && !IsSpace(r[|r| - 1]))
      && exists lo :: 0 <= lo <= |s| - |r| && r == s[lo..lo + |r|]
                      && AllIn(Space, s, 0, lo) && AllIn(Space, s, lo + |r|, |s|)
  {
    var lo := Span(Space, s, 0);
    var hi := SpanBack(s, lo, |s|);
    assert lo < hi ==> !IsSpace(s[lo]);
    assert Strip(s) == s[lo..hi];
  }

  /** A run of a class inside a slice is a run of the class in the whole. */
  lemma AllInSlice(cls: CharClass, s: string, a: nat, b: nat, i: nat, j: nat)
    requires a <= b <= |s| && i <= j <= b - a && AllIn(cls, s[a..b], i, j)
    ensures AllIn(cls, s, a + i, a + j)
  {
    forall k | a + i <= k < a + j ensures In(cls, s[k]) {
      assert s[a..b][k - a] == s[k];
    }
  }

  /** Two adjacent runs of a class make one. */
  lemma AllInJoin(cls: CharClass, s: string, i: nat, j: nat, k: nat)
    requires i <= j <= k <= |s| && AllIn(cls, s, i, j) && AllIn(cls, s, j, k)
    ensures AllIn(cls, s, i, k)
  {
  }

  /** `Strip(s)` is s[lo..hi] when s[..lo] and s[hi..] are spaces and
      s[lo..hi] neither begins nor ends with one. */
  lemma StripAt(s: string, lo: nat, hi: nat)
    requires lo <= hi <= |s| && AllIn(Space, s, 0, lo) && AllIn(Space, s, hi, |s|)
    requires lo < hi ==> !IsSpace(s[lo]) && !IsSpace(s[hi - 1])
    ensures Strip(s) == s[lo..hi]
  {
    if lo == hi {
      AllInJoin(Space, s, 0, lo, |s|);
    } else {
      SpanUnique(Space, s, 0, lo);
      SpanBackUnique(s, lo, |s|, hi);
    }
  }

  /** Stripping ignores whatever spaces surround the text: `Strip(s)` equals
      `Strip(s[a..b])` when `s[..a]` and `s[b..]` are spaces. */
  lemma StripPadded(s: string, a: nat, b: nat)
    requires a <= b <= |s| && AllIn(Space, s, 0, a) && AllIn(Space, s, b, |s|)
    ensures Strip(s) == Strip(s[a..b])
  {
    var x := s[a..b];
    var lo := Span(Space, x, 0);
    var hi := SpanBack(x, lo, |x|);
    assert Strip(x) == x[lo..hi];
    PaddedAround(s, a, b, lo, hi);
    StripAt(s, a + lo, a + hi);
    SliceOfSlice(s, a, b, lo, hi);
  }

  /** The runs of spaces around the text of a padded slice, in the whole. */
  lemma PaddedAround(s: string, a: nat, b: nat, lo: nat, hi: nat)
    requires a <= b <= |s| && AllIn(Space, s, 0, a) && AllIn(Space, s, b, |s|)
    requires lo <= hi <= b - a && AllIn(Space, s[a..b], 0, lo) && AllIn(Space, s[a..b], hi, b - a)
    requires lo < hi ==> !IsSpace(s[a..b][lo]) && !IsSpace(s[a..b][hi - 1])
    ensures AllIn(Space, s, 0, a + lo) && AllIn(Space, s, a + hi, |s|)
    ensures lo < hi ==> !IsSpace(s[a + lo]) && !IsSpace(s[a + hi - 1])
  {
    AllInSlice(Space, s, a, b, 0, lo);
    AllInJoin(Space, s, 0, a, a + lo);
    AllInSlice(Space, s, a, b, hi, b - a);
    AllInJoin(Space, s, a + hi, b, |s|);
    if lo < hi {
      assert s[a + lo] == s[a..b][lo];
      assert s[a + hi - 1] == s[a..b][hi - 1];
    }
  }

  lemma SliceOfSlice<T>(s: seq<T>, a: nat, b: nat, i: nat, j: nat)
    requires a <= b <= |s| && i <= j <= b - a
    ensures s[a..b][i..j] == s[a + i..a + j]
  {
    forall k | 0 <= k < j - i
      ensures s[a..b][i..j][k] == s[a + i..a + j][k]
    {
    }
  }

  /** A space in front changes nothing that stripping keeps. */
  lemma StripSpaced(t: string)
    ensures Strip(" " + t) == Strip(t)
  {
    StripPadded(" " + t, 1, |t| + 1);
    assert (" " + t)[1..|t| + 1] == t;
  }

  /** The first c at or after position k, as Python's `str.find`. */
  function Find(s: string, c: char, k: nat): (r: Option<nat>)
    requires k <= |s|
    ensures r.Some? ==> k <= r.value < |s| && s[r.value] == c && Absent(s, c, k, r.value)
    ensures r.None? ==> Absent(s, c, k, |s|)
    decreases |s| - k
  {
    if k == |s| then None else if s[k] == c then Some(k) else Find(s, c, k + 1)
  }

  /** Python's `s.split('\n')`: always at least one piece, and no piece holds a
      line break. */
  function Split(s: string): (r: seq<string>)
    ensures |r| >= 1
    ensures forall k :: 0 <= k < |r| ==> NoNewline(r[k])
    decreases |s|
  {
    match Find(s, '\n', 0)
    case None => [s]
    case Some(j) => [s[..j]] + Split(s[j + 1..])
  }

  /** Python's `'\n'.join(ls)`. */
  function Join(ls: seq<string>): string {
    if |ls| == 0 then "" else if |ls| == 1 then ls[0] else ls[0] + "\n" + Join(ls[1..])
  }

  /** Joining the pieces of a split gives the text back. */
  lemma {:induction false} JoinSplit(s: string)
    ensures Join(Split(s)) == s
    decreases |s|
  {
    match Find(s, '\n', 0)
    case None =>
    case Some(j) =>
      JoinSplit(s[j + 1..]);
      assert s == s[..j] + "\n" + s[j + 1..];
  }

  /** Splitting the join of one or more lines gives those lines back. */
  lemma {:induction false} SplitJoin(ls: seq<string>)
    requires |ls| >= 1
    requires forall k :: 0 <= k < |ls| ==> NoNewline(ls[k])
    ensures Split(Join(ls)) == ls
    decreases |ls|
  {
    var x := ls[0];
    assert NoNewline(x);
    if |ls| == 1 {
      assert Find(x, '\n', 0) == None;
    } else {
      var s := Join(ls);
      assert s == x + "\n" + Join(ls[1..]);
      assert s[|x|] == '\n';
      assert Absent(s, '\n', 0, |x|) by {
        forall k | 0 <= k < |x| ensures s[k] != '\n' { assert s[k] == x[k]; }
      }
      FindFirst(s, '\n', 0, |x|);
      assert s[..|x|] == x;
      assert s[|x| + 1..] == Join(ls[1..]);
      SplitJoin(ls[1..]);
    }
  }

  /** `Find` stops at the first occurrence. */
  lemma FindFirst(s: string, c: char, k: nat, j: nat)
    requires k <= j < |s| && s[j] == c && Absent(s, c, k, j)
    ensures Find(s, c, k) == Some(j)
  {
  }

  /** Two sequence facts, proved here away from any particular sequence so
      they cost nothing where they are used. */
  lemma AppendAssoc<T>(x: seq<T>, y: seq<T>, z: seq<T>)
    ensures (x + y) + z == x + (y + z)
  {
  }

  lemma TakeSnoc<T>(s: seq<T>, i: nat)
    requires i < |s|
    ensures s[..i + 1] == s[..i] + [s[i]]
  {
  }

  lemma SnocSplit<T>(s: seq<T>)
    requires s != []
    ensures s == s[..|s| - 1] + [s[|s| - 1]]
  {
  }
}
