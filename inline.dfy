/**
 * The inline formatter (`convert_inline_formatting`): six substitution passes
 * applied to one line in a fixed order. Each pass is Python's `re.sub` for one
 * pattern, written as a scanner: it tries the pattern at the front of the
 * rest of the text, replaces a match and resumes after it, or copies one
 * character and moves on, so matches never overlap. The scanner carries the
 * character before the rest of the text, which the `(?<!...)` lookbehinds read
 * (in the input of the pass, not in its output).
 */
module Inline {
  import opened Optional
  import opened Text

  /** The patterns of the six passes:
      `Strong('*')` is `\*\*(.+?)\*\*`, `Strong('_')` is `__(.+?)__`,
      `Emphasis('*')` is `(?<!\*)\*([^*]+?)\*(?!\*)`,
      `Emphasis('_')` is `(?<!_)_([^_]+?)_(?!_)`, `Code` is `` `(.+?)` `` and
      `Cite` is `\[ref:([^\]]+)\]`. */
  datatype Pass = Strong(delim: char) | Emphasis(delim: char) | Code | Cite

  /** Width of the text before the captured group. */
  function OpenWidth(p: Pass): nat {
    match p
    case Strong(_) => 2
    case Emphasis(_) => 1
    case Code => 1
    case Cite => 5
  }

  /** Width of the text after the captured group. */
  function CloseWidth(p: Pass): nat {
    if p.Strong? then 2 else 1
  }

  /** The character every match of p begins with. */
  function Opener(p: Pass): char {
    match p
    case Strong(d) => d
    case Emphasis(d) => d
    case Code => '`'
    case Cite => '['
  }

  /** The character that closes a match of p. */
  function Closer(p: Pass): char {
    match p
    case Strong(d) => d
    case Emphasis(d) => d
    case Code => '`'
    case Cite => ']'
  }

  /** The LaTeX command a match of p becomes. */
  function Command(p: Pass): string {
    match p
    case Strong(_) => "textbf"
    case Emphasis(_) => "textit"
    case Code => "texttt"
    case Cite => "cite"
  }

  /** t begins with `[ref:`. */
  predicate CiteOpen(t: string) {
    |t| >= 5 && t[0] == '[' && t[1] == 'r' && t[2] == 'e' && t[3] == 'f' && t[4] == ':'
  }

  /** The pattern of p matches t[..n] at the front of t, where `before` is the
      character in front of t (`None` at the start of the text): the
      delimiters are in place, the group is not empty, `.` does not cross a
      line break, a `[^x]` group holds no x, and the lookarounds hold. */
  predicate IsMatch(p: Pass, before: Option<char>, t: string, n: nat) {
    OpenWidth(p) + 1 + CloseWidth(p) <= n <= |t| &&
    match p
    case Strong(d) =>
      t[0] == d && t[1] == d && t[n - 2] == d && t[n - 1] == d && '\n' !in t[2..n - 2]
    case Emphasis(d) =>
      t[0] == d && before != Some(d) && t[n - 1] == d && d !in t[1..n - 1] && (n == |t| || t[n] != d)
    case Code =>
      t[0] == '`' && t[n - 1] == '`' && '\n' !in t[1..n - 1]
    case Cite =>
      CiteOpen(t) && t[n - 1] == ']' && ']' !in t[5..n - 1]
  }

  /** The lazy search of `Strong` and `Code` for their closing delimiter,
      which would start at k: the first closer wins, a line break ends the
      search. */
  function LazyClose(p: Pass, t: string, k: nat): (r: Option<nat>)
    requires k <= |t|
    ensures r.Some? ==> k + CloseWidth(p) <= r.value <= |t|
    decreases |t| - k
  {
    var w := CloseWidth(p);
    if k + w > |t| then None
    else if t[k] == Closer(p) && t[k + w - 1] == Closer(p) then Some(k + w)
    else if t[k] == '\n' then None
    else LazyClose(p, t, k + 1)
  }

  /** The length of the match of p at the front of t, if any (see
      `MatchLenSpec`). */
  function MatchLen(p: Pass, before: Option<char>, t: string): (r: Option<nat>)
    requires t != []
    ensures r.Some? ==> OpenWidth(p) + 1 + CloseWidth(p) <= r.value <= |t|
  {
    match p
    case Strong(d) =>
      if |t| > 2 && t[0] == d && t[1] == d && t[2] != '\n' then LazyClose(p, t, 3) else None
    case Code =>
      if |t| > 1 && t[0] == '`' && t[1] != '\n' then LazyClose(p, t, 2) else None
    case Emphasis(d) =>
      if t[0] == d && before != Some(d) then
        match Find(t, d, 1)
        case Some(j) => if 2 <= j && (j + 1 == |t| || t[j + 1] != d) then Some(j + 1) else None
        case None => None
      else None
    case Cite =>
      if CiteOpen(t) then
        match Find(t, ']', 5)
        case Some(j) => if 6 <= j then Some(j + 1) else None
        case None => None
      else None
  }

  /** The lazy search finds the shortest match, or proves there is none. */
  lemma {:induction false} LazyCloseSpec(p: Pass, before: Option<char>, t: string, k: nat)
    requires p.Strong? || p.Code?
    requires OpenWidth(p) < k <= |t|
    requires t[0] == Closer(p) && t[OpenWidth(p) - 1] == Closer(p)
    requires '\n' !in t[OpenWidth(p)..k]
    requires forall n :: 0 < n < k + CloseWidth(p) ==> !IsMatch(p, before, t, n)
    ensures var r := LazyClose(p, t, k);
      && (r.Some? ==> IsMatch(p, before, t, r.value) && forall n :: 0 < n < r.value ==> !IsMatch(p, before, t, n))
      && (r.None? ==> forall n :: 0 < n <= |t| ==> !IsMatch(p, before, t, n))
    decreases |t| - k
  {
    var w := CloseWidth(p);
    if k + w <= |t| && !(t[k] == Closer(p) && t[k + w - 1] == Closer(p)) {
      if t[k] != '\n' {
        assert t[OpenWidth(p)..k + 1] == t[OpenWidth(p)..k] + [t[k]];
        LazyCloseSpec(p, before, t, k + 1);
      }
    }
  }

  /** `MatchLen` is the pattern's meaning: the shortest match at the front of
      t, as the lazy `+?` finds it (the other patterns have at most one), or
      none at all. */
  lemma MatchLenSpec(p: Pass, before: Option<char>, t: string)
    requires t != []
    ensures var r := MatchLen(p, before, t);
      && (r.Some? ==> IsMatch(p, before, t, r.value) && forall n :: 0 < n < r.value ==> !IsMatch(p, before, t, n))
      && (r.None? ==> forall n :: 0 < n <= |t| ==> !IsMatch(p, before, t, n))
  {
    match p
    case Strong(d) =>
      if |t| > 2 && t[0] == d && t[1] == d && t[2] != '\n' {
        LazyCloseSpec(p, before, t, 3);
      }
    case Code =>
      if |t| > 1 && t[0] == '`' && t[1] != '\n' {
        LazyCloseSpec(p, before, t, 2);
      }
    case Emphasis(d) =>
      if t[0] == d && before != Some(d) {
        var f := Find(t, d, 1);
      }
    case Cite =>
      if CiteOpen(t) {
        var f := Find(t, ']', 5);
      }
  }

  /** The replacement text: `\command{group}`. */
  function Wrap(p: Pass, group: string): (r: string)
    ensures |r| == |Command(p)| + 3 + |group|
    ensures '\n' !in group ==> '\n' !in r
  {
    "\\" + Command(p) + "{" + group + "}"
  }

  /** The character in front of t[n..] once the scan has read t[..n]. */
  function After(before: Option<char>, t: string, n: nat): Option<char>
    requires n <= |t|
  {
    if n == 0 then before else Some(t[n - 1])
  }

  /** `re.sub` of pass p over t, with `before` in front of t. Every
      replacement is longer than the text it replaces. */
  function Sub(p: Pass, before: Option<char>, t: string): (r: string)
    ensures |r| >= |t|
    ensures '\n' !in t ==> '\n' !in r
    decreases |t|
  {
    if t == [] then []
    else
      match MatchLen(p, before, t)
      case Some(n) =>
        assert forall c :: c in t[OpenWidth(p)..n - CloseWidth(p)] ==> c in t;
        Wrap(p, t[OpenWidth(p)..n - CloseWidth(p)]) + Sub(p, Some(t[n - 1]), t[n..])
      case None => [t[0]] + Sub(p, Some(t[0]), t[1..])
  }

  /** One pass over a whole text. */
  function Substitute(p: Pass, s: string): string {
    Sub(p, None, s)
  }

  /** The pattern of p matches at no position of t. */
  predicate NoMatch(p: Pass, before: Option<char>, t: string)
    decreases |t|
  {
    t == [] ||
    ((forall n :: 0 < n <= |t| ==> !IsMatch(p, before, t, n)) && NoMatch(p, Some(t[0]), t[1..]))
  }

  /** A pass leaves the text as it is exactly when its pattern occurs nowhere
      in it. */
  lemma {:induction false} SubUnchanged(p: Pass, before: Option<char>, t: string)
    ensures Sub(p, before, t) == t <==> NoMatch(p, before, t)
    decreases |t|
  {
    if t != [] {
      MatchLenSpec(p, before, t);
      var m := MatchLen(p, before, t);
      if m.Some? {
        assert OpenWidth(p) + CloseWidth(p) < |Command(p)| + 3 by {
          match p
          case Strong(_) =>
          case Emphasis(_) =>
          case Code =>
          case Cite =>
        }
        assert |Sub(p, before, t)| > |t|;
      } else {
        SubUnchanged(p, Some(t[0]), t[1..]);
        assert t == [t[0]] + t[1..];
      }
    }
  }

  /** `convert_inline_formatting`: bold, then italic, then inline code, then
      citations, each pass reading the previous pass's output. */
  function ConvertInlineFormatting(text: string): (r: string)
    ensures |r| >= |text|
    ensures '\n' !in text ==> '\n' !in r
  {
    var bold := Substitute(Strong('_'), Substitute(Strong('*'), text));
    var italic := Substitute(Emphasis('_'), Substitute(Emphasis('*'), bold));
    Substitute(Cite, Substitute(Code, italic))
  }

  /** Whether a match of p could begin at the front of u. */
  predicate CanOpen(p: Pass, u: string) {
    u != [] && (if p.Cite? then CiteOpen(u) else u[0] == Opener(p))
  }

  /** Where no match of p can begin, there is no match. */
  lemma {:induction false} NoOpenNoMatch(p: Pass, before: Option<char>, t: string)
    requires forall j :: 0 <= j < |t| ==> !CanOpen(p, t[j..])
    ensures NoMatch(p, before, t)
    decreases |t|
  {
    if t != [] {
      assert t[0..] == t;
      forall j | 0 <= j < |t| - 1 ensures !CanOpen(p, t[1..][j..]) {
        assert t[1..][j..] == t[j + 1..];
      }
      NoOpenNoMatch(p, Some(t[0]), t[1..]);
    }
  }

  /** Text with none of `*`, `_`, `` ` `` and no `[ref:` holds no inline markup. */
  predicate Plain(text: string) {
    '*' !in text && '_' !in text && '`' !in text && forall j :: 0 <= j < |text| ==> !CiteOpen(text[j..])
  }

  /** Plain text passes through the formatter unchanged. */
  lemma PlainUnchanged(text: string)
    requires Plain(text)
    ensures ConvertInlineFormatting(text) == text
  {
    forall p: Pass | p in [Strong('*'), Strong('_'), Emphasis('*'), Emphasis('_'), Code, Cite]
      ensures Substitute(p, text) == text
    {
      forall j | 0 <= j < |text| ensures !CanOpen(p, text[j..]) {
        assert text[j..][0] == text[j];
      }
      NoOpenNoMatch(p, None, text);
      SubUnchanged(p, None, text);
    }
  }

  /** A stretch without the pass's first character is copied as it is. */
  lemma {:induction false} CopiesPlain(p: Pass, before: Option<char>, a: string, b: string)
    requires Opener(p) !in a
    ensures Sub(p, before, a + b) == a + Sub(p, After(before, a, |a|), b)
    decreases |a|
  {
    if a != [] {
      var t := a + b;
      var rest := Sub(p, Some(a[0]), a[1..] + b);
      assert t[0] == a[0] && t[1..] == a[1..] + b;
      CopyStep(p, before, t);
      assert Sub(p, before, t) == [a[0]] + rest;
      CopiesPlain(p, Some(a[0]), a[1..], b);
      assert After(Some(a[0]), a[1..], |a| - 1) == After(before, a, |a|);
      var s := Sub(p, After(before, a, |a|), b);
      assert rest == a[1..] + s;
      AppendAssoc([a[0]], a[1..], s);
      assert [a[0]] + a[1..] == a;
    } else {
      assert a + b == b;
    }
  }

  /** Where no match can begin, the pass copies one character. */
  lemma CopyStep(p: Pass, before: Option<char>, t: string)
    requires t != [] && t[0] != Opener(p)
    ensures Sub(p, before, t) == [t[0]] + Sub(p, Some(t[0]), t[1..])
  {
    assert MatchLen(p, before, t).None?;
  }

  /** A pass whose first character does not occur leaves the text unchanged. */
  lemma Untouched(p: Pass, before: Option<char>, t: string)
    requires Opener(p) !in t
    ensures Sub(p, before, t) == t
  {
    CopiesPlain(p, before, t, []);
    assert t + [] == t;
  }

  /** The pass replaces the shortest match at the front of t. */
  lemma MatchFront(p: Pass, before: Option<char>, t: string, n: nat)
    requires IsMatch(p, before, t, n)
    requires forall n' :: 0 < n' < n ==> !IsMatch(p, before, t, n')
    ensures Sub(p, before, t) == Wrap(p, t[OpenWidth(p)..n - CloseWidth(p)]) + Sub(p, Some(t[n - 1]), t[n..])
  {
    ShortestMatch(p, before, t, n);
  }

  /** The shortest match is the one `MatchLen` finds. */
  lemma ShortestMatch(p: Pass, before: Option<char>, t: string, n: nat)
    requires IsMatch(p, before, t, n)
    requires forall n' :: 0 < n' < n ==> !IsMatch(p, before, t, n')
    ensures t != [] && MatchLen(p, before, t) == Some(n)
  {
    MatchLenSpec(p, before, t);
  }

  /** Text free of the formatter's special characters and of line breaks. */
  predicate Word(w: string) {
    '*' !in w && '_' !in w && '`' !in w && '[' !in w && ']' !in w && '\n' !in w
  }

  /** Without two delimiters in a row the strong pass has nothing to match. */
  lemma {:induction false} NoPairUntouched(d: char, before: Option<char>, t: string)
    requires forall i :: 0 <= i < |t| - 1 ==> t[i] != d || t[i + 1] != d
    ensures Sub(Strong(d), before, t) == t
    decreases |t|
  {
    if t != [] {
      assert MatchLen(Strong(d), before, t).None?;
      var u := t[1..];
      forall i | 0 <= i < |u| - 1 ensures u[i] != d || u[i + 1] != d {
        assert u[i] == t[i + 1] && u[i + 1] == t[i + 2];
      }
      NoPairUntouched(d, Some(t[0]), u);
      assert t == [t[0]] + u;
    }
  }

  /** `dd x dd` at the front becomes `\textbf{x}`. */
  lemma StrongFront(d: char, before: Option<char>, x: string, rest: string)
    requires x != [] && d !in x && '\n' !in x
    ensures Sub(Strong(d), before, [d, d] + x + [d, d] + rest) ==
            Wrap(Strong(d), x) + Sub(Strong(d), Some(d), rest)
  {
    var p := Strong(d);
    var t := [d, d] + x + [d, d] + rest;
    var n := |x| + 4;
    assert t[2..n - 2] == x;
    assert t[n..] == rest;
    forall k | 0 < k < n ensures !IsMatch(p, before, t, k) {
      if 5 <= k {
        assert t[k - 2] == x[k - 4];
      }
    }
    MatchFront(p, before, t, n);
  }

  /** `d y d` at the front, not followed by another d, becomes `\textit{y}`. */
  lemma EmphasisFront(d: char, before: Option<char>, y: string, rest: string)
    requires y != [] && d !in y && before != Some(d)
    requires rest == [] || rest[0] != d
    ensures Sub(Emphasis(d), before, [d] + y + [d] + rest) ==
            Wrap(Emphasis(d), y) + Sub(Emphasis(d), Some(d), rest)
  {
    var p := Emphasis(d);
    var t := [d] + y + [d] + rest;
    var n := |y| + 2;
    assert t[1..n - 1] == y;
    assert t[n..] == rest;
    forall k | 0 < k < n ensures !IsMatch(p, before, t, k) {
      if 3 <= k {
        assert t[k - 1] == y[k - 2];
      }
    }
    MatchFront(p, before, t, n);
  }

  /** `` `g` `` as the whole rest of the text becomes `\texttt{g}`. */
  lemma CodeWhole(before: Option<char>, g: string)
    requires g != [] && '`' !in g && '\n' !in g
    ensures Sub(Code, before, "`" + g + "`") == Wrap(Code, g)
  {
    var t := "`" + g + "`";
    var n := |g| + 2;
    assert t[1..n - 1] == g;
    forall k | 0 < k < n ensures !IsMatch(Code, before, t, k) {
      if 3 <= k {
        assert t[k - 1] == g[k - 2];
      }
    }
    MatchFront(Code, before, t, n);
    assert t[n..] == [];
  }

  /** `[ref:k]` at the front becomes `\cite{k}`. */
  lemma CiteFront(before: Option<char>, k: string, rest: string)
    requires k != [] && ']' !in k
    ensures Sub(Cite, before, "[ref:" + k + "]" + rest) == Wrap(Cite, k) + Sub(Cite, Some(']'), rest)
  {
    var t := "[ref:" + k + "]" + rest;
    var n := |k| + 6;
    assert t[5..n - 1] == k;
    assert t[n..] == rest;
    forall j | 0 < j < n ensures !IsMatch(Cite, before, t, j) {
      if 7 <= j {
        assert t[j - 1] == k[j - 6];
      }
    }
    MatchFront(Cite, before, t, n);
  }
}
