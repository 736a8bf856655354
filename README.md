# tiles in Dafny

tiles is a small text-templating engine. `tile(s)` takes a multi-line
template and does three things:

- It trims the template with `__trim`. That drops the blank lines at both ends, removes the indentation all content lines share, and strips trailing whitespace.
- It scans each trimmed line for `@{expr}` markers. Every expression is evaluated in the caller's scope, and its text is trimmed again.
- It glues the pieces of a line side by side with `__append`. A value of several lines keeps its shape, and all its lines start in the column where the marker stood. Text after the marker continues on the first row.

The rows of all template lines are joined with line breaks.

This project models those three functions of `tiles.py` in Dafny and proves their properties:

- Module `Strings` holds the Python string operations the code relies on: `split`, `join`, `find`, `ljust`, `lstrip`, `rstrip`, `isspace` and slicing. Each is a function. What Python promises of it is stated either by its own contract (`SliceFrom`, `FindChar`, `LJust`, `Split`) or by a lemma beside it: `IndentSpec` for `lstrip`, `RStripSpec` for `rstrip`, and `JoinSplit` and `SplitJoin` for `join`, which has no contract of its own. Strings are Python 3 `str` values, so whitespace is Unicode whitespace; see "## Left out".
- Module `Dedent` models `__trim`. The method `TrimBlock` keeps the two loops of the source and is proved to compute the function `Trim`. `Trim` in turn is shown to:
  - drop the blank edges;
  - dedent every line by the least indentation;
  - be idempotent;
  - ignore indentation shared by all lines with content, whatever the blank lines hold.
- Module `RowBuffers` models `__append`. The class `RowBuffer` owns the row list, which `Append` updates in place with the loop of the source. `Append` is proved to produce `Spliced(old rows, block)`. The lemmas about `Spliced` state the column rule: every line of the block starts at the width of the widest old row, and rows below the block are untouched.
- Module `Tiles` models `tile`:
  - `Pieces` is the scan of one line into text and expression pieces.
  - `RenderLine` glues those pieces into rows.
  - `Render` is the whole result: rows or a `Failure`.
  - The methods `Tile` and `TileLine` are the two loops of the source, and they are proved to compute `Render` and `RenderLine`.
- Module `TileLaws` proves what `tile` promises:
  - The scan loses nothing: the pieces reassemble the line.
  - Each expression runs to the first `}` after its `@{`.
  - Every template line gives at least one row, and the rows keep the order of the lines.
  - A template without `@{` comes out as its trimmed lines.
  - The failures are characterised. A raised failure comes from an expression that raised it. An unfinished failure comes from an `@{` with no `}` after it. Conversely, any such `@{` makes the line fail. When every expression has a value, the line fails as unfinished exactly when such an `@{` exists.
  - A line with one multi-line value gives the expected rows, column by column.

`eval` and `str` of the caller's scope become a parameter `ev: string -> Result<string, string>`. Its error text stands for the exception that `eval` raises. A raised exception becomes a `Failure`:

- `Unfinished` is the "unfinished @{} expression" exception.
- `Raised(msg)` is an exception that the evaluation raised.

Where descriptions of tiles differ from the code, the model follows the code:

- An all-blank template, including `""`, trims to exactly one empty line and never to none. `split` always yields one piece, and the slice `s[0][-1:]` is whitespace that `rstrip` removes (`Dedent.TrimAllBlank`).
- `__append` pads only the rows that receive a line of the block. Rows below the block keep their width (`RowBuffers.SplicedKeeps`).
- For the line `prefix @{expr} suffix` where `expr` gives `A` and `BB`, the first row is `prefix A  suffix`, with two spaces and not one. The first row is padded to the width of the widest value line before the suffix is glued on. The second row is `       BB` (`TileLaws.PrefixSuffixExample`).

## Model

| member | source | states |
|---|---|---|
| Strings.IndentSpec | tiles.py:32 | `len(s) - len(s.lstrip())` counts whitespace only, and the character after it is not whitespace |
| Strings.IndentUnique | tiles.py:32 | any whitespace run followed by the end or by content is the indentation |
| Strings.BlankSpec | tiles.py:27 | `len(s.strip()) == 0` exactly when every character is whitespace |
| Strings.RStripSpec | tiles.py:39 | `rstrip` keeps a prefix that ends in content (or is empty) and removes only whitespace |
| Strings.StripEndUnique | tiles.py:39 | the end of the stripped text is the only end with those two properties |
| Strings.SliceFrom | tiles.py:39 | `s[n:]` is the suffix of `s` of length `len(s) - n` for `0 <= n <= len(s)`, `0` beyond, and `min(-n, len(s))` for negative `n` |
| Strings.FindChar | tiles.py:62 | `find("}", start)` is -1 when no `}` is at or after `start`, and otherwise the first one |
| Strings.FindMarker | tiles.py:58 | `find("@{", pos)` is -1 when no `@{` starts at or after `pos`, and otherwise the first one |
| Strings.LJust | tiles.py:47 | `ljust(w)` keeps the string as a prefix, pads with spaces only, and never cuts |
| Strings.Split | tiles.py:24 | `split("\n")` gives at least one piece and no piece holds a line break |
| Strings.JoinSplit | tiles.py:24 | joining the pieces of a split gives the text back |
| Strings.CutAtBreak | tiles.py:24 | a text is its part before a line break, the break and its part after |
| Strings.SplitJoin | tiles.py:69 | splitting the join of lines without breaks gives the lines back |
| Strings.SplitMarkerFree | tiles.py:24 | the pieces of a text without `@{` have none |
| Dedent.FirstSpec | tiles.py:26-31 | `top` after the first loop is -1 exactly when all lines are blank, and otherwise the first line with content |
| Dedent.LastSpec | tiles.py:26-29 | `bottom` is the last line with content, and 0 when there is none |
| Dedent.MinIndentSpec | tiles.py:26-34 | `left` is -1 exactly when all lines are blank, and otherwise the least indentation of a line with content, reached by one |
| Dedent.TrimBlock | tiles.py:23-40 | the two loops of `__trim` compute `Trim` |
| Dedent.DedentedIsRStripOfSlice | tiles.py:39 | one result line is `s[i][left:].rstrip()` |
| Dedent.DedentedNoBreak | tiles.py:39 | a result line has no line break |
| Dedent.DedentRangeAt | tiles.py:37-39 | result line `k` of the second loop comes from input line `top + k` |
| Dedent.DedentsUnique | tiles.py:39 | at most one row is a line less `left` whitespace characters and less its trailing whitespace |
| Dedent.DedentedShape | tiles.py:39 | when `left` is at most the indentation, the result line is that row, and blank lines give empty rows |
| Dedent.BlankDedentsToEmpty | tiles.py:39 | a blank line comes out empty |
| Dedent.DedentLine | tiles.py:32-39 | a line with content keeps content and loses exactly `left` columns of indentation |
| Dedent.TrimLinesAt | tiles.py:37-39 | result line `k` is input line `top + k` dedented by `left` |
| Dedent.TrimAllBlank | tiles.py:35-39 | a block without content trims to exactly `[""]` |
| Dedent.TrimLineAt | tiles.py:26-39 | with content, the result has `bottom - top + 1` lines, each its input line less `left` whitespace and its trailing whitespace |
| Dedent.TrimEdges | tiles.py:26-39 | with content, the first and last result lines have content and some line starts at column 0 |
| Dedent.TrimLineContent | tiles.py:32-39 | an input line with content lands in the result with its indentation less `left` |
| Dedent.TrimIsTrimmed | tiles.py:23-40 | every result is `[""]`, or is non-empty with content at both ends, no trailing whitespace, no line break and a line at column 0 |
| Dedent.DedentedByZero | tiles.py:39 | a line without trailing whitespace is unchanged by a dedent of 0 |
| Dedent.TrimmedIsFixed | tiles.py:23-40 | trimming the join of a trimmed block gives it back |
| Dedent.TrimmedLinesAreFixed | tiles.py:26-39 | a block with content at both ends, a line at column 0 and no trailing whitespace passes the second loop unchanged |
| Dedent.TrimIdempotent | tiles.py:23-40 | `__trim("\n".join(__trim(x))) == __trim(x)` |
| Dedent.PrefixedLine | tiles.py:27-32 | a whitespace prefix keeps blankness and adds its length to the indentation |
| Dedent.DedentedPrefixed | tiles.py:39 | dedenting `p + line` by `len(p) + m` is dedenting `line` by `m` |
| Dedent.PrefixedReindented | tiles.py:27-32 | putting the whitespace `p` in front of every line, blank ones included, indents the block by `p` |
| Dedent.ScanReindented | tiles.py:26-34 | when every line with content gains the whitespace `p` in front and every blank line is replaced by a blank line, the first loop finds the same `top` and `bottom` and a `left` larger by `len(p)` |
| Dedent.TrimLinesReindented | tiles.py:23-40 | such a re-indentation does not change the result |
| Dedent.TrimLineReindentedAt | tiles.py:37-39 | the same, line by line |
| Dedent.DedentedUnderPrefix | tiles.py:39 | a line under a whitespace prefix, dedented by the prefix more, gives the same row, and any blank line gives the same row as any other |
| Dedent.ContentMinIndent | tiles.py:32-34 | a line with content makes `left` a real indentation no larger than its own |
| Dedent.TrimIndentInvariant | tiles.py:23-40 | a template whose lines with content all carry the same extra whitespace in front, and whose other lines are blank (empty or not), trims to the same lines as the template without it |
| Dedent.TrimPrefixInvariant | tiles.py:23-40 | in particular, indenting every line of a text by the same whitespace does not change `__trim` of it |
| RowBuffers.MaxWidthSpec | tiles.py:43 | `w` bounds every row's length and is some row's length, and is 0 for no rows |
| RowBuffers.MaxWidthShift | tiles.py:43 | rows wider by `c`, row for row, have a `w` larger by `c` |
| RowBuffers.Spliced | tiles.py:44-46 | after `__append` there are `max(len(curr), len(val))` rows |
| RowBuffers.SplicedAt | tiles.py:44-47 | row `i` is the old row (or `""`) padded to `w` plus `val[i]` for `i < len(val)`, and the old row otherwise |
| RowBuffers.SplicedKeeps | tiles.py:44-47 | rows at index `len(val)` and beyond are unchanged |
| RowBuffers.SplicedColumn | tiles.py:43-47 | for `i < len(val)`, the new row starts with the old row, has spaces up to column `w` and `val[i]` from column `w` on |
| RowBuffers.SplicedWidth | tiles.py:43-47 | the new `w` is at least the old `w` plus the width of each line of `val` |
| RowBuffers.SplicedOntoEmpty | tiles.py:43-47 | appending to no rows gives `val` |
| RowBuffers.SplicedNothing | tiles.py:44 | appending an empty block changes nothing |
| RowBuffers.SplicedNoBreak | tiles.py:47 | rows and lines without line breaks give rows without line breaks |
| RowBuffers.GlueLength | tiles.py:55-67 | after appending blocks in turn to no rows, there are as many rows as the tallest block has lines |
| RowBuffers.RowBuffer.constructor | tiles.py:55 | a new buffer has no rows |
| RowBuffers.RowBuffer.Append | tiles.py:42-47 | the loop of `__append` leaves `Spliced(old rows, val)` in the buffer |
| Tiles.Tile | tiles.py:49-69 | the loop of `tile` over the trimmed lines computes `Render` |
| Tiles.TileLine | tiles.py:55-68 | the `while True` loop over one line computes `RenderLine`, the glued blocks of the scan's pieces, or the scan's failure |
| Tiles.ScanEnds | tiles.py:58-61 | with no `@{` left, the rest of the line is the last piece |
| Tiles.ScanUnfinished | tiles.py:62-64 | an `@{` with no `}` after it fails as unfinished |
| Tiles.ScanRaised | tiles.py:65 | an expression whose evaluation raises fails the line with that exception |
| Tiles.ScanNext | tiles.py:58-67 | otherwise the text before `@{` and the value come next, and the scan resumes after the `}` |
| Tiles.GlueStep | tiles.py:59-66 | appending the text and then the trimmed value glues their blocks on |
| Tiles.CollectSticky | tiles.py:54-68 | once a line fails, later lines do not change the failure |
| Tiles.CollectFails | tiles.py:54-68 | the first line that fails decides the failure of the template |
| TileLaws.PiecesSpec | tiles.py:57-67 | the pieces reassemble the rest of the line; text and values alternate, starting and ending with text; no text holds `@{`; no expression holds `}`; each value is the evaluation of its expression |
| TileLaws.LineRows | tiles.py:55-61 | every template line gives at least one row, and rows without line breaks when the line has none |
| TileLaws.LayoutNoBreak | tiles.py:55-61 | pieces whose texts hold no line break glue into rows that hold none, every value being trimmed and split at its breaks |
| TileLaws.GlueNoBreak | tiles.py:47 | gluing blocks without line breaks gives rows without line breaks |
| TileLaws.CollectRows | tiles.py:54-68 | lines that each give a row give at least one row each |
| TileLaws.CollectInOrder | tiles.py:54-68 | the rows of line `m` follow those of earlier lines and precede those of later lines |
| TileLaws.TileRows | tiles.py:54-69 | the output splits into exactly the collected rows, at least one per trimmed line |
| TileLaws.CollectFailsAt | tiles.py:54-68 | a failure comes from a line that fails after all earlier lines succeed |
| TileLaws.TileFails | tiles.py:54-69 | `tile` fails exactly when some trimmed line fails after the earlier ones succeed, and then with that failure |
| TileLaws.PlainLine | tiles.py:58-61 | a line without `@{` is one piece and gives exactly itself as its row |
| TileLaws.PlainLines | tiles.py:54-68 | lines without `@{` are their own rows |
| TileLaws.TrimMarkerFree | tiles.py:52 | trimming a template without `@{` gives lines without `@{` |
| TileLaws.PlainTemplate | tiles.py:52-69 | a template without `@{` renders to `"\n".join(__trim(s))` |
| TileLaws.UnclosedMarker | tiles.py:58-64 | a line whose first `@{` has no `}` after it fails as unfinished |
| TileLaws.UnclosedAnywhere | tiles.py:57-65 | the scan fails once it reaches an `@{` with no `}` after it, wherever that `@{` stands (an earlier expression may raise first) |
| TileLaws.UnclosedUnfinished | tiles.py:57-65 | when every expression has a value, that failure is the unfinished one |
| TileLaws.UnclosedLine | tiles.py:57-64 | a line with an `@{` that no `}` follows gives no rows, and fails as unfinished when every expression has a value |
| TileLaws.UnfinishedExactly | tiles.py:57-64 | when every expression has a value, a line fails as unfinished exactly when some `@{` on it has no `}` after it |
| TileLaws.RaisingMarker | tiles.py:58-65 | a line whose first expression raises fails with that exception |
| TileLaws.UnfinishedCause | tiles.py:57-64 | an unfinished failure means some `@{` has no `}` after it |
| TileLaws.RaisedCause | tiles.py:57-65 | a raised failure comes from an expression between an `@{` and a `}` that raised it |
| TileLaws.OneValuePieces | tiles.py:58-67 | `a@{x}b`, with no `@{` in `a` or `b` and no `}` in `x`, scans to text `a`, the value of `x` and text `b` |
| TileLaws.OneValueCut | tiles.py:58-62 | in `a@{x}b` the first `@{` follows `a`, the first `}` after it follows `x`, and no `@{` follows it |
| TileLaws.SplicedUnder | tiles.py:43-47 | gluing a block onto one row starts each of its lines at that row's width |
| TileLaws.OneValueGlue | tiles.py:59-66 | gluing `a`, a block and `b`: block lines start at column `len(a)`, and `b` follows the first row padded to the widest |
| TileLaws.OneValueRender | tiles.py:55-67 | the rows of `a@{x}b` are the blocks of `a`, the trimmed value and `b` glued in turn |
| TileLaws.OneValueRows | tiles.py:55-67 | `a@{x}b` gives one row per trimmed value line: `a`, the first line padded to `len(a)` plus the widest, then `b`; the other rows are `len(a)` spaces plus a line |
| TileLaws.ExampleGlue | tiles.py:43-47 | gluing the blocks `prefix `, the trimmed `A\nBB` and ` suffix` in turn gives the rows `prefix A  suffix` and `       BB` |
| TileLaws.PrefixSuffixExample | tiles.py:55-67 | `prefix @{expr} suffix` with value `A\nBB` gives `prefix A  suffix` and `       BB` |

## Left out

- Frame inspection (tiles.py:50-51): Python reflection with no counterpart. The caller's scope is folded into the evaluator parameter `ev`.
- `eval` and `str` (tiles.py:65): foreign code. They are the parameter `ev`, a pure function from expression text to value text or an exception message.
  - An expression that changes the caller's variables, so that later expressions see different values, is not modelled.
  - Neither are exceptions raised by `str` on its own, nor non-termination of `eval`.
- Exceptions: a failing `tile` is an `Err` result instead of a raised exception. The text "unifinished @{} expression" (tiles.py:64) is the value `Unfinished`.
- `str.isspace` beyond U+00FF: `IsWs` covers the whitespace characters up to U+00FF only.
- Python 2 byte strings: the model is of Python 3 `str`, whose `isspace`, `strip` and `rstrip` treat the separators U+001C..U+001F, NEL and NO-BREAK SPACE as whitespace. A Python 2 `str` (a byte string, as in example2.py) treats only space, tab, line feed, vertical tab, form feed and carriage return as whitespace. With a byte-string template those other characters would count as content.
- Strings are sequences of characters. There is no encoding and no Unicode normalisation.
- example2.py is not part of this model. It is a script that calls `tile` and prints the result.
