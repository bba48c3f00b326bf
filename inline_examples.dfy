/**
 * Worked inputs of the inline formatter. Each is proved for every choice of
 * the plain words in it, one pass at a time, and then for a literal line.
 */
module InlineExamples {
  import opened Optional
  import opened Inline

  /** A word checked character by character. */
  lemma WordByChars(w: string)
    requires forall i | 0 <= i < |w| :: w[i] != '*' && w[i] != '_' && w[i] != '`' && w[i] != '[' && w[i] != ']' && w[i] != '\n'
    ensures Word(w)
  {
  }

  /** The strong pass leaves `m*y*` alone. */
  lemma StrongSkipsSingles(before: Option<char>, m: string, y: string)
    requires Word(m) && Word(y) && y != []
    ensures Sub(Strong('*'), before, m + "*" + y + "*") == m + "*" + y + "*"
  {
    var tail := "*" + y + "*";
    assert m + "*" + y + "*" == m + tail;
    SingleDelimiters('*', y, []);
    assert tail == ['*'] + y + ['*'] + [];
    NoPairUntouched('*', before, m + tail);
  }

  /** The strong pass turns `**x**` into `\textbf{x}` and leaves `*y*` alone. */
  lemma BoldStep(x: string, m: string, y: string)
    requires Word(x) && Word(m) && Word(y) && x != [] && y != []
    ensures Substitute(Strong('*'), "**" + x + "**" + m + "*" + y + "*") ==
            Wrap(Strong('*'), x) + m + "*" + y + "*"
  {
    var rest := m + "*" + y + "*";
    assert "**" + x + "**" + m + "*" + y + "*" == ['*', '*'] + x + ['*', '*'] + rest;
    StrongFront('*', None, x, rest);
    StrongSkipsSingles(Some('*'), m, y);
  }

  /** The emphasis pass then turns `*y*` into `\textit{y}`. */
  lemma ItalicStep(x: string, m: string, y: string)
    requires Word(x) && Word(m) && Word(y) && y != []
    ensures Substitute(Emphasis('*'), Wrap(Strong('*'), x) + m + "*" + y + "*") ==
            Wrap(Strong('*'), x) + m + Wrap(Emphasis('*'), y)
  {
    var a := Wrap(Strong('*'), x) + m;
    var tail := "*" + y + "*";
    assert Wrap(Strong('*'), x) + m + "*" + y + "*" == a + tail;
    CopiesPlain(Emphasis('*'), None, a, tail);
    assert a[|a| - 1] in a;
    EmphasisFront('*', After(None, a, |a|), y, []);
    assert tail + [] == tail;
  }

  /** The characters the other passes look for are absent. */
  lemma BoldItalicClean(x: string, m: string, y: string)
    requires Word(x) && Word(m) && Word(y)
    ensures var s1 := Wrap(Strong('*'), x) + m + "*" + y + "*";
      var s2 := Wrap(Strong('*'), x) + m + Wrap(Emphasis('*'), y);
      '_' !in s1 && '_' !in s2 && '`' !in s2 && '[' !in s2
  {
    var b := Wrap(Strong('*'), x);
    var i := Wrap(Emphasis('*'), y);
    assert b == "\\textbf{" + x + "}";
    assert i == "\\textit{" + y + "}";
    assert '_' !in b && '`' !in b && '[' !in b;
    assert '_' !in i && '`' !in i && '[' !in i;
  }

  /** `**x** m *y*` becomes `\textbf{x} m \textit{y}`. */
  lemma BoldThenItalic(x: string, m: string, y: string)
    requires Word(x) && Word(m) && Word(y) && x != [] && y != []
    ensures ConvertInlineFormatting("**" + x + "**" + m + "*" + y + "*") ==
            Wrap(Strong('*'), x) + m + Wrap(Emphasis('*'), y)
  {
    BoldItalicClean(x, m, y);
    var s1 := Wrap(Strong('*'), x) + m + "*" + y + "*";
    var s2 := Wrap(Strong('*'), x) + m + Wrap(Emphasis('*'), y);
    BoldStep(x, m, y);
    Untouched(Strong('_'), None, s1);
    ItalicStep(x, m, y);
    Untouched(Emphasis('_'), None, s2);
    Untouched(Code, None, s2);
    Untouched(Cite, None, s2);
  }

  lemma BoldItalicWords(x: string, m: string, y: string)
    requires x == "bold" && m == " and " && y == "italic"
    ensures Word(x) && Word(m) && Word(y)
  {
    WordByChars(x);
    WordByChars(m);
    WordByChars(y);
  }

  lemma BoldItalicInput(line: string, x: string, m: string, y: string)
    requires line == "**bold** and *italic*"
    requires x == "bold" && m == " and " && y == "italic"
    ensures line == "**" + x + "**" + m + "*" + y + "*"
  {
  }

  lemma BoldItalicResult(x: string, m: string, y: string)
    requires x == "bold" && m == " and " && y == "italic"
    ensures Wrap(Strong('*'), x) + m + Wrap(Emphasis('*'), y) == "\\textbf{bold}" + " and " + "\\textit{italic}"
  {
    assert Wrap(Strong('*'), x) == "\\textbf{bold}";
    assert Wrap(Emphasis('*'), y) == "\\textit{italic}";
  }

  /** The line `**bold** and *italic*`. */
  lemma BoldAndItalicLine(line: string)
    requires line == "**bold** and *italic*"
    ensures ConvertInlineFormatting(line) == "\\textbf{bold}" + " and " + "\\textit{italic}"
  {
    var x, m, y := "bold", " and ", "italic";
    BoldItalicWords(x, m, y);
    BoldItalicInput(line, x, m, y);
    BoldItalicResult(x, m, y);
    BoldThenItalic(x, m, y);
  }

  /** The citation pass turns `[ref:k]` into `\cite{k}`. */
  lemma CiteStep(x: string, k: string, y: string)
    requires Word(x) && Word(k) && Word(y) && k != []
    ensures Substitute(Cite, x + "[ref:" + k + "]" + y) == x + Wrap(Cite, k) + y
  {
    var tail := "[ref:" + k + "]" + y;
    assert x + "[ref:" + k + "]" + y == x + tail;
    CopiesPlain(Cite, None, x, tail);
    CiteFront(After(None, x, |x|), k, y);
    Untouched(Cite, Some(']'), y);
  }

  lemma CiteClean(x: string, k: string, y: string)
    requires Word(x) && Word(k) && Word(y)
    ensures var s := x + "[ref:" + k + "]" + y;
      '*' !in s && '_' !in s && '`' !in s
  {
  }

  /** `x [ref:k] y` becomes `x \cite{k} y`. */
  lemma CitationInText(x: string, k: string, y: string)
    requires Word(x) && Word(k) && Word(y) && k != []
    ensures ConvertInlineFormatting(x + "[ref:" + k + "]" + y) == x + Wrap(Cite, k) + y
  {
    CiteClean(x, k, y);
    var s := x + "[ref:" + k + "]" + y;
    Untouched(Strong('*'), None, s);
    Untouched(Strong('_'), None, s);
    Untouched(Emphasis('*'), None, s);
    Untouched(Emphasis('_'), None, s);
    Untouched(Code, None, s);
    CiteStep(x, k, y);
  }

  lemma CitationWords(x: string, k: string, y: string)
    requires x == "See " && k == "Smith2020" && y == " for details."
    ensures Word(x) && Word(k) && Word(y)
  {
    WordByChars(x);
    WordByChars(k);
    WordByChars(y);
  }

  lemma CitationInput(line: string, x: string, k: string, y: string)
    requires line == "See [ref:Smith2020] for details."
    requires x == "See " && k == "Smith2020" && y == " for details."
    ensures line == x + "[ref:" + k + "]" + y
  {
  }

  lemma CitationResult(x: string, k: string, y: string)
    requires x == "See " && k == "Smith2020" && y == " for details."
    ensures x + Wrap(Cite, k) + y == "See " + "\\cite{Smith2020}" + " for details."
  {
    assert Wrap(Cite, k) == "\\cite{Smith2020}";
  }

  /** The line `See [ref:Smith2020] for details.`. */
  lemma CitationLine(line: string)
    requires line == "See [ref:Smith2020] for details."
    ensures ConvertInlineFormatting(line) == "See " + "\\cite{Smith2020}" + " for details."
  {
    var x, k, y := "See ", "Smith2020", " for details.";
    CitationWords(x, k, y);
    CitationInput(line, x, k, y);
    CitationResult(x, k, y);
    CitationInText(x, k, y);
  }

  /** In `d y d z` with y not empty, no two delimiters stand side by side. */
  lemma SingleDelimiters(d: char, y: string, z: string)
    requires d !in y && d !in z && y != []
    ensures var tail := [d] + y + [d] + z;
      forall i :: 0 <= i < |tail| - 1 ==> tail[i] != d || tail[i + 1] != d
  {
    var tail := [d] + y + [d] + z;
    forall i | 0 <= i < |tail| - 1 ensures tail[i] != d || tail[i + 1] != d {
      if i == 0 {
        assert tail[1] == y[0];
      } else if i <= |y| {
        assert tail[i] == y[i - 1];
      } else if i == |y| + 1 {
        assert tail[i + 1] == z[0];
      } else {
        assert tail[i] == z[i - |y| - 2];
      }
    }
  }

  /** Two single underscores around y: the strong pass keeps them. */
  lemma UnderscoreStrong(a: string, y: string, z: string)
    requires '_' !in a && '_' !in y && '_' !in z && y != []
    ensures Substitute(Strong('_'), a + "_" + y + "_" + z) == a + "_" + y + "_" + z
  {
    var tail := "_" + y + "_" + z;
    assert a + "_" + y + "_" + z == a + tail;
    CopiesPlain(Strong('_'), None, a, tail);
    SingleDelimiters('_', y, z);
    assert tail == ['_'] + y + ['_'] + z;
    NoPairUntouched('_', After(None, a, |a|), tail);
  }

  /** Two single underscores around y: the emphasis pass wraps y. */
  lemma UnderscoreEmphasis(a: string, y: string, z: string)
    requires '_' !in a && '_' !in y && '_' !in z && y != []
    ensures Substitute(Emphasis('_'), a + "_" + y + "_" + z) == a + Wrap(Emphasis('_'), y) + z
  {
    var tail := "_" + y + "_" + z;
    assert a + "_" + y + "_" + z == a + tail;
    CopiesPlain(Emphasis('_'), None, a, tail);
    if a != [] {
      assert a[|a| - 1] in a;
    }
    if z != [] {
      assert z[0] in z;
    }
    assert tail == ['_'] + y + ['_'] + z;
    EmphasisFront('_', After(None, a, |a|), y, z);
    Untouched(Emphasis('_'), Some('_'), z);
  }

  lemma SnakeClean(x: string, y: string, z: string)
    requires Word(x) && Word(y) && Word(z)
    ensures var s2 := x + Wrap(Emphasis('_'), y) + z;
      '*' !in x + "_" + y + "_" + z && '*' !in s2 && '`' !in s2 && '[' !in s2
  {
    var i := Wrap(Emphasis('_'), y);
    assert i == "\\textit{" + y + "}";
    assert '*' !in i && '`' !in i && '[' !in i;
  }

  /** `x_y_z` becomes `x\textit{y}z`: an identifier in snake case is set in
      italics between its underscores. */
  lemma SnakeCase(x: string, y: string, z: string)
    requires Word(x) && Word(y) && Word(z) && y != []
    ensures ConvertInlineFormatting(x + "_" + y + "_" + z) == x + Wrap(Emphasis('_'), y) + z
  {
    var s := x + "_" + y + "_" + z;
    var s2 := x + Wrap(Emphasis('_'), y) + z;
    SnakeClean(x, y, z);
    Untouched(Strong('*'), None, s);
    UnderscoreStrong(x, y, z);
    UnderscoreEmphasis(x, y, z);
    Untouched(Emphasis('*'), None, s);
    Untouched(Code, None, s2);
    Untouched(Cite, None, s2);
  }

  lemma SnakeWords(x: string, y: string, z: string)
    requires x == "snake" && y == "case" && z == "name"
    ensures Word(x) && Word(y) && Word(z)
  {
    WordByChars(x);
    WordByChars(y);
    WordByChars(z);
  }

  lemma SnakeInput(line: string, x: string, y: string, z: string)
    requires line == "snake_case_name"
    requires x == "snake" && y == "case" && z == "name"
    ensures line == x + "_" + y + "_" + z
  {
  }

  lemma SnakeResult(x: string, y: string, z: string)
    requires x == "snake" && y == "case" && z == "name"
    ensures x + Wrap(Emphasis('_'), y) + z == "snake" + "\\textit{case}" + "name"
  {
    assert Wrap(Emphasis('_'), y) == "\\textit{case}";
  }

  lemma SnakeCaseLine(line: string)
    requires line == "snake_case_name"
    ensures ConvertInlineFormatting(line) == "snake" + "\\textit{case}" + "name"
  {
    var x, y, z := "snake", "case", "name";
    SnakeWords(x, y, z);
    SnakeInput(line, x, y, z);
    SnakeResult(x, y, z);
    SnakeCase(x, y, z);
  }

  lemma CodeSpanClean(x: string, y: string, z: string)
    requires Word(x) && Word(y) && Word(z)
    ensures var g := x + Wrap(Emphasis('_'), y) + z;
      && '*' !in "`" + x + "_" + y + "_" + z + "`" && '*' !in "`" + g + "`"
      && '[' !in Wrap(Code, g) && '`' !in g && '\n' !in g
  {
    var w := Wrap(Emphasis('_'), y);
    assert w == "\\textit{" + y + "}";
    assert '*' !in w && '`' !in w && '[' !in w && '\n' !in w;
    var g := x + w + z;
    assert '*' !in g && '`' !in g && '[' !in g;
    assert Wrap(Code, g) == "\\texttt{" + g + "}";
  }

  lemma CodeSpanShape(x: string, y: string, z: string)
    ensures var g := x + Wrap(Emphasis('_'), y) + z;
      && "`" + x + "_" + y + "_" + z + "`" == ("`" + x) + "_" + y + "_" + (z + "`")
      && "`" + g + "`" == ("`" + x) + Wrap(Emphasis('_'), y) + (z + "`")
  {
  }

  /** `` `x_y_z` `` becomes `\texttt{x\textit{y}z}`: the emphasis pass runs
      before the code pass, so a code span is not protected from it. */
  lemma CodeSpanNotVerbatim(x: string, y: string, z: string)
    requires Word(x) && Word(y) && Word(z) && y != []
    ensures ConvertInlineFormatting("`" + x + "_" + y + "_" + z + "`") ==
            Wrap(Code, x + Wrap(Emphasis('_'), y) + z)
  {
    var s := "`" + x + "_" + y + "_" + z + "`";
    var g := x + Wrap(Emphasis('_'), y) + z;
    var s2 := "`" + g + "`";
    CodeSpanClean(x, y, z);
    CodeSpanShape(x, y, z);
    Untouched(Strong('*'), None, s);
    UnderscoreStrong("`" + x, y, z + "`");
    UnderscoreEmphasis("`" + x, y, z + "`");
    Untouched(Emphasis('*'), None, s);
    CodeWhole(None, g);
    Untouched(Cite, None, Wrap(Code, g));
  }
}
