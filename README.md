# md2tex conversion engine in Dafny

This project models the Markdown-to-LaTeX engine of `md2tex.py`, the class
`MarkdownToLatexConverter`, and proves what it does. It models the inline
formatter, the heading and list-item classifiers, the list-line test, and the
line loop of `convert_content`. The loop is an imperative method on a class
whose one field is the fenced-block flag. That method is proved equal to a
functional specification of the loop, and the properties of the converter
are proved about that specification.

Layout, one module per file:

- `text.dfy` (`Text`): character classes, the greedy runs of `\s*`, `\d+` and
  `#+`, `str.strip`, `str.lstrip`, `str.find`, and `split('\n')` and
  `'\n'.join` with their round trips.
- `inline.dfy` (`Inline`): the six passes of `convert_inline_formatting`.
  Each is a scanner that follows `re.sub`: leftmost match first, no overlap,
  the shortest match for the lazy `+?`, and the lookarounds of the emphasis
  patterns.
- `inline_examples.dfy` (`InlineExamples`): sample inputs of the
  formatter, proved for every choice of the plain words in them and then for
  the literal lines.
- `blocks.dfy` (`Blocks`): `convert_headers`, `convert_list_item` and
  `is_list_line`. Each anchored pattern is written as the spans its greedy
  parts consume. `$` also matches before a final line break.
- `engine.dfy` (`Engine`): the loop as a specification.
  - A mode is the fenced-block flag plus the open list.
  - The dispatch order is fixed: fence, inside a block, heading, item,
    closing a list, blank, paragraph.
  - The emitted lines are kept as tagged values (`OutLine`). `Render` maps
    each to the exact string the source appends.
- `structure.dfy`, `content.dfy`, `lists.dfy`, `fences.dfy`, `output.dfy`:
  the properties of the loop. They cover well-formed environments, one
  content line per non-fence line in order, how lists open, switch and
  close, verbatim blocks, and that the returned text splits back into the
  emitted lines.
- `converter.dfy` (`Converter`): the class with its `inCodeBlock` field, its
  constructor, and `ConvertContent`. `ConvertContent` has the source's
  `while` loop over an index, and appends to `latexLines` as the source
  does.

Four behaviours of the code that a reader might not expect, each proved:

- **Code spans are not verbatim.** The italic passes run before the code
  pass, so text inside backquotes is rewritten: `` `a_b_c` `` becomes
  `\texttt{a\textit{b}c}` (`InlineExamples.CodeSpanNotVerbatim`).
- **The fenced-block flag persists.** `in_code_block` is a field that
  `convert_content` never resets. A document that leaves a fence open makes
  the next document on the same object start inside the block
  (`Fences.BlockCarriesOver`, `Fences.UnterminatedFence`).
- **A bare list line keeps a list open.** An open list is closed only by a
  line that fails `is_list_line`, so a bare marker and space (`- `) keeps
  the list open and is written as a paragraph (`Lists.KeepsList`).
- **A heading needs only a space and one more character.** The title may
  strip to nothing, so `#  ` becomes `\chapter{}` (`Blocks.HeaderSpec`).

## Model

| member | source | states |
|---|---|---|
| Converter.MarkdownToLatexConverter.constructor | md2tex.py:20-21 | a new converter is not inside a fenced block |
| Converter.MarkdownToLatexConverter.ConvertContent | md2tex.py:89-176 | the returned text is the join of the rendered lines of the specification run on the split document, from the flag's old value. The flag is left as the run leaves it. Splitting the result gives back exactly the rendered lines |
| Converter.MarkdownToLatexConverter.ConvertLine | md2tex.py:98-170 | one pass of the loop body (fence, then verbatim, then the rest) appends exactly what the specification step emits. It moves the flag and the list state to the step's new mode |
| Converter.MarkdownToLatexConverter.ConvertOutside | md2tex.py:123-170 | the heading, list-item, list-closing, blank and paragraph branches, outside a block, emit what the specification step emits and leave its list state |
| Text.Split | md2tex.py:91 | `split('\n')` always yields at least one piece, and no piece holds a line break |
| Text.Join | md2tex.py:176 | `'\n'.join`; no contract of its own. Its meaning is given by `Text.JoinSplit` and `Text.SplitJoin`, which make it the inverse of `split('\n')` on lines without breaks |
| Text.JoinSplit | md2tex.py:91 | joining the pieces of a split gives back the text |
| Text.SplitJoin | md2tex.py:176 | splitting the join of one or more lines without breaks gives back those lines |
| Text.Span | md2tex.py:45 | a greedy run of one character class ends at the first character outside the class |
| Text.SpanUnique | md2tex.py:45 | the greedy run is determined by its end: all inside the class, the next character outside |
| Text.Strip | md2tex.py:50 | `strip()` (also used at md2tex.py:101 and 162) never lengthens the text and gives the empty string exactly when the text is all spaces; `Text.StripShape` and `Text.StripAt` pin its result down to the one slice with only spaces outside and none at either end |
| Text.StripShape | md2tex.py:50 | `strip()` leaves a slice of the text with only spaces around it, and it neither begins nor ends with a space |
| Text.StripAt | md2tex.py:50 | any slice with only spaces outside it and no space at either end is what `strip()` returns |
| Text.StripPadded | md2tex.py:50 | adding spaces around a text does not change what `strip()` returns |
| Inline.LazyCloseSpec | md2tex.py:26-35 | the lazy search for `**`, `__` or a backquote finds the shortest match, and when it finds none there is no match at all |
| Inline.MatchLen | md2tex.py:26-38 | the length of the match of a pass's pattern at the front of the text: when there is one, it covers at least the opener, one character and the closer, and stays inside the text. `Inline.MatchLenSpec` proves it is the shortest length at which the pattern matches |
| Inline.MatchLenSpec | md2tex.py:26-38 | for each of the six patterns, the match length found at the front is the shortest length at which the pattern matches, or there is no match of any length |
| Inline.ShortestMatch | md2tex.py:26-38 | the shortest length at which a pattern matches is the length the pass takes |
| Inline.MatchFront | md2tex.py:26-38 | a pass replaces the shortest match at the front by `\command{group}` and goes on after it |
| Inline.Sub | md2tex.py:26-38 | `re.sub` of one pass: the result is never shorter than the text and gains no line break. `Inline.MatchFront`, `Inline.CopiesPlain` and `Inline.SubUnchanged` state what it replaces |
| Inline.SubUnchanged | md2tex.py:26-38 | a pass leaves the text unchanged exactly when its pattern matches at no position |
| Inline.ConvertInlineFormatting | md2tex.py:23-40 | formatting never shortens a line and never puts a line break into a line that had none |
| Inline.PlainUnchanged | md2tex.py:23-40 | a line without `*`, `_`, a backquote or `[ref:` comes back unchanged |
| Inline.NoOpenNoMatch | md2tex.py:26-38 | where no match can begin, a pattern matches nowhere |
| Inline.CopiesPlain | md2tex.py:26-38 | a stretch of text without the pass's first character is copied as it is |
| Inline.Untouched | md2tex.py:26-38 | a pass whose first character does not occur leaves the text unchanged |
| Inline.NoPairUntouched | md2tex.py:26-27 | without two delimiters side by side, the strong pass changes nothing |
| Inline.StrongFront | md2tex.py:26-27 | `**x**` or `__x__` at the front, for a non-empty x without the delimiter or a line break, becomes `\textbf{x}` (`**a*b**` is outside this lemma) |
| Inline.EmphasisFront | md2tex.py:31-32 | `*y*` or `_y_` at the front, not preceded or followed by the same delimiter, becomes `\textit{y}` |
| Inline.CodeWhole | md2tex.py:35 | `` `g` ``, for a non-empty g without a backquote or a line break, becomes `\texttt{g}` |
| Inline.CiteFront | md2tex.py:38 | `[ref:k]` at the front becomes `\cite{k}` |
| InlineExamples.StrongSkipsSingles | md2tex.py:26 | the strong pass leaves single asterisks alone |
| InlineExamples.BoldStep | md2tex.py:26 | `**x**` becomes `\textbf{x}` while `*y*` stays |
| InlineExamples.ItalicStep | md2tex.py:31 | after the strong pass, `*y*` becomes `\textit{y}` |
| InlineExamples.BoldThenItalic | md2tex.py:23-40 | for all plain words x, m, y, `**x**m*y*` becomes `\textbf{x}m\textit{y}` |
| InlineExamples.BoldAndItalicLine | md2tex.py:23-40 | `**bold** and *italic*` becomes `\textbf{bold} and \textit{italic}` |
| InlineExamples.CiteStep | md2tex.py:38 | the citation pass turns `[ref:k]` inside text into `\cite{k}` |
| InlineExamples.CitationInText | md2tex.py:23-40 | for all plain words, `x[ref:k]y` becomes `x\cite{k}y` |
| InlineExamples.CitationLine | md2tex.py:23-40 | `See [ref:Smith2020] for details.` becomes `See \cite{Smith2020} for details.` |
| InlineExamples.SingleDelimiters | md2tex.py:27 | in `_y_z`, with y not empty, no two delimiters stand side by side |
| InlineExamples.UnderscoreStrong | md2tex.py:27 | the strong pass keeps two single underscores |
| InlineExamples.UnderscoreEmphasis | md2tex.py:32 | the emphasis pass wraps the text between two single underscores |
| InlineExamples.SnakeCase | md2tex.py:23-40 | for all plain words, `x_y_z` becomes `x\textit{y}z` |
| InlineExamples.SnakeCaseLine | md2tex.py:23-40 | `snake_case_name` becomes `snake\textit{case}name` |
| InlineExamples.CodeSpanNotVerbatim | md2tex.py:31-35 | `` `x_y_z` `` becomes `\texttt{x\textit{y}z}`: the italic pass reaches inside code spans |
| Blocks.DotsToEnd | md2tex.py:45 | `(.+)$` takes non-empty text without a line break, which is the rest of the text or the rest except one final line break |
| Blocks.DotsToEndLine | md2tex.py:45 | on a line, `(.+)$` matches exactly when the line is not empty, and takes all of it |
| Blocks.SpacesThenDotsLine | md2tex.py:45 | on a line, `\s+(.+)$` matches exactly when the line starts with a space and has a second character. The group is the text after the spaces, or the last space when nothing else follows |
| Blocks.SpacesFromShape | md2tex.py:45 | the group of `\s+(.+)$` is what `(.+)$` takes after a non-empty run of spaces |
| Blocks.ConvertHeaders | md2tex.py:42-65 | a heading is only found for one to six leading `#` |
| Blocks.SectionCommandsDistinct | md2tex.py:54-65 | the six levels map to six different sectioning commands |
| Blocks.HeaderTitleSpec | md2tex.py:45-50 | the heading pattern matches exactly when one to six `#` are followed by a space and one more character. Seven or more never match. The title strips to the stripped rest of the line |
| Blocks.HeadingTextStrip | md2tex.py:50-51 | titles that strip to the same text give the same heading |
| Blocks.HeaderSpec | md2tex.py:42-65 | both directions of when a line is a heading, and the heading is the level's command around the stripped, formatted rest of the line |
| Blocks.HeadingRoundTrip | md2tex.py:42-65 | n `#`, a space and a title, for n from 1 to 6, give the level-n command around exactly the stripped, formatted title |
| Blocks.ItemPrefix | md2tex.py:67-83 | an item keeps the line's indent as it is, then `\item ` |
| Blocks.ConvertListItem | md2tex.py:67-83 | `convert_list_item`: an item is only found on a line that passes `is_list_line`. `Blocks.ListItemSpec` gives both directions of when a line is an item, and the item as the indent, `\item ` and the formatted content |
| Blocks.ItemIsListLine | md2tex.py:70-87 | every item line is a list line, and the loop's kind test `^\s*\d+\.` says ordered exactly when the ordered pattern made the item |
| Blocks.OrderedContentLine | md2tex.py:70-74 | the ordered pattern matches exactly when `\d+\.` is followed by a space and one more character, and its content is the text after the spaces |
| Blocks.BulletContentLine | md2tex.py:77-81 | the same for `-`, `*` and `+` |
| Blocks.OneMarker | md2tex.py:70-77 | no line has both an ordered and a bullet marker after its indent |
| Blocks.ListItemSpec | md2tex.py:67-83 | both directions of when a line is an item: a list line with two characters after the marker. The item is the indent, `\item ` and the formatted content |
| Blocks.IsListLine | md2tex.py:85-87 | `is_list_line`: a line that passes it is not all spaces. `Blocks.ListLineNotItem` and `Blocks.ItemIsListLine` relate it to `convert_list_item` |
| Blocks.ListLineNotItem | md2tex.py:77-87 | a list line that is not an item ends right after its marker and a space, so it is not blank |
| Engine.ClassifyValid | md2tex.py:157-165 | a blank line is never a list line |
| Engine.IsFence | md2tex.py:101 | the fence test: a fence line has at least three characters and does not strip to nothing. `Content.ClassifyFence` states it as the loop tests it |
| Engine.Render | md2tex.py:103-170 | the exact string the loop appends for each emitted line: `\begin{...}`/`\end{...}` of `itemize`, `enumerate` or `verbatim`, a verbatim line as it is, a heading, an item or a paragraph as converted, a blank line as the empty string; no contract of its own. `Output.OutputLines` and `Engine.RenderAllAppend` are proved about it |
| Engine.StepFence | md2tex.py:101-115 | unfolds the specification's fence branch: a fence opens a block, after closing an open list, or it closes the block |
| Engine.StepVerbatim | md2tex.py:118-121 | unfolds the specification's in-block branch: any other line is emitted as it is and changes nothing |
| Engine.StepHeading | md2tex.py:124-132 | unfolds the specification's heading branch: a heading closes an open list, then is emitted |
| Engine.StepItem | md2tex.py:135-154 | unfolds the specification's item branch: an item opens or switches to the list of its kind, then is emitted |
| Engine.StepText | md2tex.py:156-170 | unfolds the specification's remaining branch: any other line closes an open list unless it is a list line, then is emitted blank or formatted |
| Engine.Dispatch | md2tex.py:98-170 | the loop body for a line of a given class: it always emits at least one line, and it turns the fenced-block flag over exactly when the line is a fence |
| Engine.Step | md2tex.py:98-170 | the loop body for one line: it emits at least one line and turns the flag over exactly when `IsFence` holds. `Converter.MarkdownToLatexConverter.ConvertLine` is proved to do exactly this step |
| Engine.RunSnoc | md2tex.py:97-170 | unfolds the specification's loop by one line: the loop over some lines and then one more is one more step |
| Engine.Run | md2tex.py:97-170 | the loop over the lines: at least one emitted line per input line. `Structure.RunWellFormed`, `Content.RunContent` and `Output.RunNoNewline` are proved about it |
| Engine.RunAppend | md2tex.py:97-170 | the loop over two runs of lines is the loop over the second from where the first left off |
| Engine.ConvertLines | md2tex.py:97-174 | the loop and the closing of the last list: no list is left open, and there is at least one emitted line per input line. `ConvertContent` is proved equal to it, and `Structure.ConvertWellFormed` and `Content.ContentPreserved` are proved about it |
| Engine.FinishRendered | md2tex.py:172-174 | closing the list left open adds exactly one `\end{...}` line, and only if a list is open |
| Engine.RenderAllAppend | md2tex.py:97-174 | rendering is line by line, so appending emitted lines appends rendered lines |
| Structure.StepWellFormed | md2tex.py:97-170 | every line's emissions are in place for a reader that tracks the open environments, and leave it in the converter's new mode |
| Structure.RunWellFormed | md2tex.py:97-170 | the same for any run of lines |
| Structure.ConvertWellFormed | md2tex.py:89-176 | the whole output passes the environment reader: list environments are opened and closed in pairs, do not nest, stay out of verbatim blocks, and none is left open; items are in a list of their kind; verbatim markers alternate from the flag's old value to its new one, so an unclosed fence leaves a `\begin{verbatim}` unclosed and a document started inside a block may begin with `\end{verbatim}` |
| Content.StepContent | md2tex.py:97-170 | every non-fence line leaves exactly one content line, its own, and only a fence turns the flag over |
| Content.RunContent | md2tex.py:97-170 | without the markers, the loop's output is the lines' own content lines in input order. The flag ends as the parity of the fences says |
| Content.ContentPreserved | md2tex.py:89-176 | the same for the whole conversion; closing the last list adds only a marker |
| Content.ExpectedLength | md2tex.py:97-170 | there is exactly one content line per input line that is not a fence |
| Content.NoFenceEmitted | md2tex.py:101-121 | no fence line is ever emitted, not even inside a block |
| Content.ClassifyFence | md2tex.py:101 | the loop takes a line as a fence exactly when its stripped text starts with three backquotes |
| Lists.ItemListLine | md2tex.py:67-87 | every line that `convert_list_item` accepts passes `is_list_line` |
| Lists.ClosesList | md2tex.py:101-159 | with a list open, a fence, a heading or a line that is not a list line first emits `\end{...}` and then its own line, and leaves no list open |
| Lists.KeepsList | md2tex.py:156-170 | with a list open, a list line that is not an item keeps the list open and is written as a paragraph |
| Lists.ItemStep | md2tex.py:135-154 | an item opens its list when none is open, switches from the other kind with nothing in between, or only adds itself |
| Lists.RunWithItems | md2tex.py:135-154 | a run of items of one kind opens or switches once, then emits the items in order |
| Lists.ListOfItems | md2tex.py:135-174 | a document of items of one kind is one list environment around its formatted items: one item line per input line, in order, each that line's own item |
| Lists.SwitchedLists | md2tex.py:146-150 | items of one kind followed by items of the other give the two lists one after the other |
| Fences.RunVerbatim | md2tex.py:117-121 | inside a block, lines without a fence, headings and items included, are written as they are |
| Fences.FencedBlock | md2tex.py:101-121 | a fence, a body and a fence give the body between `\begin{verbatim}` and `\end{verbatim}`, and the flag is clear again |
| Fences.UnterminatedFence | md2tex.py:101-176 | a fence never closed gives no `\end{verbatim}`, and the flag stays set |
| Fences.BlockCarriesOver | md2tex.py:89-121 | the next document on the same converter goes on inside the block |
| Output.HeadingNoNewline | md2tex.py:42-65 | a heading is one line |
| Output.ItemNoNewline | md2tex.py:67-83 | the item of a line is one line |
| Output.RunNoNewline | md2tex.py:97-170 | the loop emits at least one line per input line, and no emitted line holds a line break |
| Output.OutputLines | md2tex.py:89-176 | there is at least one emitted line, and splitting the returned text gives exactly the emitted lines: none is merged or broken |

## Left out

- `convert_file`, `convert_all_files` and `main` (md2tex.py:179-241) are left out. They are file reading and writing, directory creation, globbing, printing and the exit code.
- Unicode: `\s`, `\d` and `strip()` are limited to ASCII. Spaces are the ASCII whitespace that Python's `\s` and `str.strip()` share, including `\x1c` to `\x1f`. Digits are `0` to `9`. Text is a sequence of characters; decoding UTF-8 belongs to the file I/O.
- The regular-expression engine is not modelled in general. Each pattern the converter uses is written as its own scanner, with its backtracking where the backtracking can change the result.
- Python's truthiness test on the results of `convert_headers` and `convert_list_item` is modelled by `Some`. A heading begins with `\` and an item contains `\item `, so neither is ever empty.
- `Inline.ConvertInlineFormatting`: its own contract only bounds the result (length and line breaks). What it computes is stated by `Inline.PlainUnchanged`, `Inline.SubUnchanged`, `Inline.MatchFront` and the lemmas of `InlineExamples`.
- Concurrency and reuse of one converter by two threads are outside the model, which is sequential.
