/** What `tile` promises, proved about the model in module `Tiles`: how a
    line falls into pieces, how many rows a line and a template give and in
    which order, what a template without `@{` gives, where a value's lines
    land, and when the result is a failure. */
module TileLaws {
  import opened Strings
  import opened Results
  import opened Dedent
  import opened RowBuffers
  import opened Tiles

  /** The template text a piece was scanned from. */
  function SourceOf(p: Piece): string
  {
    match p
    case Text(t) => t
    case Value(e, _) => "@{" + e + "}"
  }

  /** The template text a sequence of pieces was scanned from. */
  function Source(ps: seq<Piece>): string
  {
    if ps == [] then [] else SourceOf(ps[0]) + Source(ps[1..])
  }

  /** The shape of a successful scan: text and values alternate, starting
      and ending with text; no text holds an `@{`; no expression holds a
      `}`; and every value is what the expression evaluates to. */
  predicate Scanned(ev: Evaluator, ps: seq<Piece>)
  {
    |ps| % 2 == 1 &&
    forall k :: 0 <= k < |ps| ==>
      if k % 2 == 0 then ps[k].Text? && MarkerFree(ps[k].text)
      else ps[k].Value? && '}' !in ps[k].expr && ev(ps[k].expr) == Ok(ps[k].value)
  }

  /** The text from `pos` up to the first `@{` holds no `@{`. */
  lemma TextBeforeMarker(line: string, pos: nat, stop: nat)
    requires pos <= stop <= |line|
    requires forall j :: pos <= j < stop ==> !MarkerAt(line, j)
    ensures MarkerFree(line[pos..stop])
  {
    forall i | 0 <= i < stop - pos ensures !MarkerAt(line[pos..stop], i) {
      assert MarkerAt(line[pos..stop], i) ==> MarkerAt(line, pos + i);
    }
  }

  /** Cutting a line at an `@{ ... }`. */
  lemma CutAtMarker(line: string, pos: nat, start: nat, end: nat)
    requires pos <= start && start + 2 <= end < |line|
    requires MarkerAt(line, start) && line[end] == '}'
    ensures line[pos..] == line[pos..start] + ("@{" + line[start + 2..end] + "}") + line[end + 1..]
  {
    assert line[pos..] == line[pos..start] + line[start..start + 2] + line[start + 2..end] + line[end..end + 1] + line[end + 1..];
    assert line[start..start + 2] == "@{";
    assert line[end..end + 1] == "}";
  }

  lemma SourceCons2(a: Piece, b: Piece, rest: seq<Piece>)
    ensures Source([a, b] + rest) == SourceOf(a) + (SourceOf(b) + Source(rest))
  {
    assert ([a, b] + rest)[1..] == [b] + rest;
    assert ([b] + rest)[1..] == rest;
  }

  /** Two more pieces in front of a successful scan keep its shape. */
  lemma ScannedCons(ev: Evaluator, t: string, expr: string, v: string, rest: seq<Piece>)
    requires Scanned(ev, rest) && MarkerFree(t)
    requires '}' !in expr && ev(expr) == Ok(v)
    ensures Scanned(ev, [Text(t), Value(expr, v)] + rest)
  {
    var ps := [Text(t), Value(expr, v)] + rest;
    forall k | 2 <= k < |ps| ensures ps[k] == rest[k - 2] {
    }
  }

  /** The expression between an `@{` and the first `}` after it holds no `}`. */
  lemma ExprBeforeBrace(line: string, start: nat, end: nat)
    requires start + 2 <= end < |line| && end == FindChar(line, '}', start)
    ensures '}' !in line[start + 2..end]
  {
    var expr := line[start + 2..end];
    forall i | 0 <= i < |expr| ensures expr[i] != '}' {
      assert expr[i] == line[start + 2 + i];
    }
  }

  /** The scan of a line from `pos` takes it apart without loss: the pieces
      put back together are the line from `pos` on, and they have the shape
      of `Scanned`. So each expression runs from an `@{` to the first `}`
      after it, and the scan goes on just after that `}`. */
  lemma {:induction false} PiecesSpec(ev: Evaluator, line: string, pos: nat)
    requires pos <= |line| && Pieces(ev, line, pos).Ok?
    ensures Source(Pieces(ev, line, pos).value) == line[pos..]
    ensures Scanned(ev, Pieces(ev, line, pos).value)
    decreases |line| - pos
  {
    if FindMarker(line, pos) == -1 {
      PiecesLast(ev, line, pos);
    } else {
      var next := PiecesResume(ev, line, pos);
      PiecesSpec(ev, line, next);
      PiecesSpecStep(ev, line, pos, next);
    }
  }

  /** Where a successful scan goes on after it finds an `@{`: just after
      the `}` that closes it, where it succeeds too. */
  lemma PiecesResume(ev: Evaluator, line: string, pos: nat) returns (next: nat)
    requires pos <= |line| && Pieces(ev, line, pos).Ok? && FindMarker(line, pos) != -1
    ensures next == FindChar(line, '}', FindMarker(line, pos)) + 1
    ensures pos < next <= |line| && Pieces(ev, line, next).Ok?
  {
    var start := FindMarker(line, pos);
    var end := FindChar(line, '}', start);
    PiecesOkStep(ev, line, pos, start, end);
    next := end + 1;
  }

  /** The inductive step of `PiecesSpec`. */
  lemma PiecesSpecStep(ev: Evaluator, line: string, pos: nat, next: nat)
    requires pos <= |line| && Pieces(ev, line, pos).Ok? && FindMarker(line, pos) != -1
    requires next == FindChar(line, '}', FindMarker(line, pos)) + 1 && next <= |line|
    requires Pieces(ev, line, next).Ok?
    requires Source(Pieces(ev, line, next).value) == line[next..]
    requires Scanned(ev, Pieces(ev, line, next).value)
    ensures Source(Pieces(ev, line, pos).value) == line[pos..]
    ensures Scanned(ev, Pieces(ev, line, pos).value)
  {
    var start := FindMarker(line, pos);
    var end := next - 1;
    PiecesOkStep(ev, line, pos, start, end);
    var v := ev(line[start + 2..end]).value;
    var rest := Pieces(ev, line, next).value;
    PiecesCons(ev, line, pos, start, end, v, rest);
    SourceNext(line, pos, start, end, v, rest);
    ScannedNext(ev, line, pos, start, end, v, rest);
  }

  /** The scan from `pos` when it finds an `@{`, its `}` and a value. */
  lemma PiecesStep(ev: Evaluator, line: string, pos: nat, start: int, end: int, v: string)
    requires pos <= |line| && start == FindMarker(line, pos) && start != -1
    requires end == FindChar(line, '}', start) && start + 2 <= end < |line|
    requires ev(line[start + 2..end]) == Ok(v)
    ensures Pieces(ev, line, pos) ==
      Then([Text(line[pos..start]), Value(line[start + 2..end], v)], Pieces(ev, line, end + 1))
  {
  }

  /** A scan that succeeds and finds an `@{` finds its `}`, evaluates the
      expression without failure and succeeds on the rest of the line. */
  lemma PiecesOkStep(ev: Evaluator, line: string, pos: nat, start: int, end: int)
    requires pos <= |line| && Pieces(ev, line, pos).Ok?
    requires start == FindMarker(line, pos) && start != -1
    requires end == FindChar(line, '}', start)
    ensures start + 2 <= end < |line|
    ensures ev(line[start + 2..end]).Ok?
    ensures Pieces(ev, line, end + 1).Ok?
  {
  }

  /** The last step of `PiecesSpec`: no `@{` is left, the rest of the line
      is one piece of text. */
  lemma PiecesLast(ev: Evaluator, line: string, pos: nat)
    requires pos <= |line| && FindMarker(line, pos) == -1
    ensures Pieces(ev, line, pos) == Ok([Text(line[pos..])])
    ensures Source([Text(line[pos..])]) == line[pos..]
    ensures Scanned(ev, [Text(line[pos..])])
  {
    TextBeforeMarker(line, pos, |line|);
    assert line[pos..|line|] == line[pos..];
    assert [Text(line[pos..])][1..] == [];
  }

  /** A scan that finds `@{`, its `}` and a value goes on after the `}`. */
  lemma PiecesCons(ev: Evaluator, line: string, pos: nat, start: int, end: int, v: string, rest: seq<Piece>)
    requires pos <= |line| && start == FindMarker(line, pos) && start != -1
    requires end == FindChar(line, '}', start) && start + 2 <= end < |line|
    requires ev(line[start + 2..end]) == Ok(v)
    requires Pieces(ev, line, end + 1) == Ok(rest)
    ensures Pieces(ev, line, pos) == Ok([Text(line[pos..start]), Value(line[start + 2..end], v)] + rest)
  {
    PiecesStep(ev, line, pos, start, end, v);
  }

  /** One step of `PiecesSpec`, for the source: the text before an `@{`
      and the expression up to the next `}`, in front of the rest. */
  lemma SourceNext(line: string, pos: nat, start: nat, end: nat, v: string, rest: seq<Piece>)
    requires pos <= start && start + 2 <= end < |line|
    requires MarkerAt(line, start) && line[end] == '}'
    requires Source(rest) == line[end + 1..]
    ensures Source([Text(line[pos..start]), Value(line[start + 2..end], v)] + rest) == line[pos..]
  {
    SourceCons2(Text(line[pos..start]), Value(line[start + 2..end], v), rest);
    CutAtMarker(line, pos, start, end);
  }

  /** One step of `PiecesSpec`, for the shape of the pieces. */
  lemma ScannedNext(ev: Evaluator, line: string, pos: nat, start: int, end: int, v: string, rest: seq<Piece>)
    requires pos <= |line| && start == FindMarker(line, pos) && start != -1
    requires end == FindChar(line, '}', start) && start + 2 <= end < |line|
    requires ev(line[start + 2..end]) == Ok(v)
    requires Scanned(ev, rest)
    ensures Scanned(ev, [Text(line[pos..start]), Value(line[start + 2..end], v)] + rest)
  {
    TextBeforeMarker(line, pos, start);
    ExprBeforeBrace(line, start, end);
    ScannedCons(ev, line[pos..start], line[start + 2..end], v, rest);
  }


  /** No row holds a line break. */
  predicate NoBreaks(rows: seq<string>)
  {
    forall k :: 0 <= k < |rows| ==> '\n' !in rows[k]
  }

  /** The texts of pieces taken from a line without breaks have none. */
  lemma {:induction false} SourceNoBreak(ps: seq<Piece>)
    requires '\n' !in Source(ps)
    ensures forall k :: 0 <= k < |ps| && ps[k].Text? ==> '\n' !in ps[k].text
  {
    if ps != [] {
      SourceNoBreak(ps[1..]);
      forall k | 0 <= k < |ps| && ps[k].Text? ensures '\n' !in ps[k].text {
        if k == 0 {
          assert Source(ps) == ps[0].text + Source(ps[1..]);
        } else {
          assert ps[k] == ps[1..][k - 1];
        }
      }
    }
  }

  /** Gluing blocks without line breaks gives rows without line breaks. */
  lemma {:induction false} GlueNoBreak(bs: seq<seq<string>>)
    requires forall k :: 0 <= k < |bs| ==> NoBreaks(bs[k])
    ensures NoBreaks(Glue(bs))
  {
    if bs != [] {
      GlueNoBreak(bs[..|bs| - 1]);
      SplicedNoBreak(Glue(bs[..|bs| - 1]), bs[|bs| - 1]);
    }
  }

  /** Every template line gives at least one row (the text before its first
      `@{` starts the first row), and a line without breaks gives rows
      without breaks, since every value's lines have none. */
  lemma LineRows(ev: Evaluator, line: string)
    requires RenderLine(ev, line).Ok?
    ensures |RenderLine(ev, line).value| >= 1
    ensures '\n' !in line ==> NoBreaks(RenderLine(ev, line).value)
  {
    var ps := Pieces(ev, line, 0).value;
    PiecesSpec(ev, line, 0);
    var bs := Layout(ps);
    assert bs[0] == [ps[0].text];
    GlueLength(bs);
    if '\n' !in line {
      assert line[0..] == line;
      LayoutNoBreak(ps);
    }
  }

  /** Pieces whose texts hold no line break are laid out and glued into
      rows that hold none, since trimmed values are split at every break. */
  lemma LayoutNoBreak(ps: seq<Piece>)
    requires '\n' !in Source(ps)
    ensures NoBreaks(Glue(Layout(ps)))
  {
    SourceNoBreak(ps);
    var bs := Layout(ps);
    forall k | 0 <= k < |bs| ensures NoBreaks(bs[k]) {
      if ps[k].Value? {
        TrimIsTrimmed(ps[k].value);
      }
    }
    GlueNoBreak(bs);
  }

  /** Lines that each give at least one row give at least one row each,
      and lines whose rows hold no line break give rows that hold none. */
  lemma {:induction false} CollectRows(f: LineRenderer, lns: seq<string>, n: nat)
    requires n <= |lns| && Collect(f, lns, n).Ok?
    requires forall k :: 0 <= k < |lns| && f(lns[k]).Ok? ==> |f(lns[k]).value| >= 1
    ensures |Collect(f, lns, n).value| >= n
    ensures (forall k :: 0 <= k < |lns| && f(lns[k]).Ok? ==> NoBreaks(f(lns[k]).value)) ==>
      NoBreaks(Collect(f, lns, n).value)
  {
    if n > 0 {
      CollectRows(f, lns, n - 1);
    }
  }

  /** The rows of line `m` come right after the rows of the lines before
      it, and the rows of later lines come after them. */
  lemma {:induction false} CollectInOrder(f: LineRenderer, lns: seq<string>, m: nat, n: nat)
    requires m < n <= |lns| && Collect(f, lns, n).Ok?
    ensures Collect(f, lns, m).Ok? && f(lns[m]).Ok?
    ensures Collect(f, lns, m).value + f(lns[m]).value <= Collect(f, lns, n).value
    decreases n
  {
    if m < n - 1 {
      CollectInOrder(f, lns, m, n - 1);
    }
  }

  /** `tile` gives one line of text per row: as many as the trimmed
      template has lines or more, the rows of each template line in order. */
  lemma TileRows(ev: Evaluator, s: string)
    requires Render(ev, s).Ok?
    ensures Split(Render(ev, s).value) == Collect(Renderer(ev), Trim(s), |Trim(s)|).value
    ensures |Split(Render(ev, s).value)| >= |Trim(s)|
  {
    var lns := Trim(s);
    var f := Renderer(ev);
    TrimIsTrimmed(s);
    forall k | 0 <= k < |lns| && f(lns[k]).Ok?
      ensures |f(lns[k]).value| >= 1 && NoBreaks(f(lns[k]).value)
    {
      LineRows(ev, lns[k]);
    }
    CollectRows(f, lns, |lns|);
    SplitJoin(Collect(f, lns, |lns|).value);
  }

  /** Line `k` fails with `e` after the lines before it give rows. */
  predicate FailsAt(f: LineRenderer, lns: seq<string>, k: nat, e: Failure)
    requires k < |lns|
  {
    Collect(f, lns, k).Ok? && f(lns[k]) == Err(e)
  }

  /** Lines that fail fail at a line: the earlier lines give rows and that
      line fails the same way. */
  lemma {:induction false} CollectFailsAt(f: LineRenderer, lns: seq<string>, n: nat)
    requires n <= |lns| && Collect(f, lns, n).Err?
    ensures exists k :: 0 <= k < n && FailsAt(f, lns, k, Collect(f, lns, n).error)
  {
    var prev := Collect(f, lns, n - 1);
    if prev.Err? {
      CollectFailsAt(f, lns, n - 1);
      var k :| 0 <= k < n - 1 && FailsAt(f, lns, k, prev.error);
      assert FailsAt(f, lns, k, Collect(f, lns, n).error);
    } else {
      assert FailsAt(f, lns, n - 1, Collect(f, lns, n).error);
    }
  }

  /** `tile` fails exactly when some line of the trimmed template fails
      after all lines before it give rows, and then with that line's failure. */
  lemma TileFails(ev: Evaluator, s: string)
    ensures Render(ev, s).Err? <==>
      exists k, e :: 0 <= k < |Trim(s)| && FailsAt(Renderer(ev), Trim(s), k, e)
    ensures Render(ev, s).Err? ==>
      exists k :: 0 <= k < |Trim(s)| && FailsAt(Renderer(ev), Trim(s), k, Render(ev, s).error)
  {
    var lns, f := Trim(s), Renderer(ev);
    if Collect(f, lns, |lns|).Err? {
      CollectFailsAt(f, lns, |lns|);
    }
    forall k, e | 0 <= k < |lns| && FailsAt(f, lns, k, e) ensures Render(ev, s).Err? {
      CollectFails(f, lns, k, e);
    }
  }

  /** A line with no `@{` is its own single row; the evaluator is never
      consulted. */
  lemma PlainLine(ev: Evaluator, line: string)
    requires MarkerFree(line)
    ensures Pieces(ev, line, 0) == Ok([Text(line)])
    ensures RenderLine(ev, line) == Ok([line])
  {
    assert FindMarker(line, 0) == -1;
    assert line[0..] == line;
    assert Layout([Text(line)]) == [[line]];
    assert Glue([[line]]) == Spliced([], [line]);
    SplicedOntoEmpty([line]);
  }

  /** Template lines without `@{` are their own rows. */
  lemma {:induction false} PlainLines(ev: Evaluator, lns: seq<string>, n: nat)
    requires n <= |lns| && forall k :: 0 <= k < |lns| ==> MarkerFree(lns[k])
    ensures Collect(Renderer(ev), lns, n) == Ok(lns[..n])
  {
    if n > 0 {
      PlainLines(ev, lns, n - 1);
      PlainLine(ev, lns[n - 1]);
      assert lns[..n - 1] + [lns[n - 1]] == lns[..n];
    }
  }

  /** `__trim` takes pieces of the lines, so it adds no `@{`. */
  lemma TrimMarkerFree(s: string)
    requires MarkerFree(s)
    ensures forall k :: 0 <= k < |Trim(s)| ==> MarkerFree(Trim(s)[k])
  {
    var ls := Split(s);
    SplitMarkerFree(s);
    forall k | 0 <= k < |Trim(s)| ensures MarkerFree(Trim(s)[k]) {
      TrimLinesAt(ls, k);
      var line, left := ls[Top(ls) + k], MinIndent(ls, |ls|);
      DedentedIsRStripOfSlice(line, left);
      var tail := SliceFrom(line, left);
      MarkerFreeSlice(line, SliceStart(|line|, left), |line|);
      assert tail == line[SliceStart(|line|, left)..|line|];
      MarkerFreeSlice(tail, 0, |RStrip(tail)|);
      RStripSpec(tail);
      assert RStrip(tail) == tail[0..|RStrip(tail)|];
    }
  }

  /** A template without `@{` comes out as its trimmed lines, joined. */
  lemma PlainTemplate(ev: Evaluator, s: string)
    requires MarkerFree(s)
    ensures Render(ev, s) == Ok(Join(Trim(s)))
  {
    TrimMarkerFree(s);
    PlainLines(ev, Trim(s), |Trim(s)|);
    assert Trim(s)[..|Trim(s)|] == Trim(s);
  }

  /** `find("@{", pos)` is the first `@{` at or after `pos`. */
  lemma FindMarkerIs(line: string, pos: nat, i: nat)
    requires pos <= i && MarkerAt(line, i)
    requires forall j :: pos <= j < i ==> !MarkerAt(line, j)
    ensures FindMarker(line, pos) == i
  {
  }

  /** `find("}", i)` is the first `}` at or after `i`, or -1 when there is none. */
  lemma FindBraceIs(line: string, i: nat, e: int)
    requires e == -1 || (i <= e < |line| && line[e] == '}')
    requires forall j :: i <= j < |line| && (e == -1 || j < e) ==> line[j] != '}'
    ensures FindChar(line, '}', i) == e
  {
  }

  /** A line whose first `@{` has no `}` after it fails as unfinished,
      whatever the expressions would give. */
  lemma UnclosedMarker(ev: Evaluator, line: string, i: nat)
    requires MarkerAt(line, i) && forall j :: 0 <= j < i ==> !MarkerAt(line, j)
    requires forall j :: i <= j < |line| ==> line[j] != '}'
    ensures RenderLine(ev, line) == Err(Unfinished)
  {
    FindMarkerIs(line, 0, i);
    FindBraceIs(line, i, -1);
  }

  /** The scan from `pos` fails once it reaches an `@{` at `i` with no `}`
      after it, wherever that `@{` stands: an earlier expression may raise
      first, and otherwise the scan fails as unfinished. */
  lemma {:induction false} UnclosedAnywhere(ev: Evaluator, line: string, pos: nat, i: nat)
    requires pos <= |line| && pos <= i && MarkerAt(line, i)
    requires forall j :: i <= j < |line| ==> line[j] != '}'
    ensures Pieces(ev, line, pos).Err?
    decreases |line| - pos
  {
    var start := FindMarker(line, pos);
    assert start != -1 && start <= i;
    var end := FindChar(line, '}', start);
    if end != -1 {
      ClosingBrace(line, start, end);
      var r := ev(line[start + 2..end]);
      if r.Ok? {
        UnclosedAnywhere(ev, line, end + 1, i);
        PiecesStep(ev, line, pos, start, end, r.value);
      }
    }
  }

  /** When every expression has a value, that failure is `Unfinished`:
      a raised failure would need an expression that raised. */
  lemma UnclosedUnfinished(ev: Evaluator, line: string, pos: nat, i: nat)
    requires pos <= |line| && pos <= i && MarkerAt(line, i)
    requires forall j :: i <= j < |line| ==> line[j] != '}'
    requires forall e :: ev(e).Ok?
    ensures Pieces(ev, line, pos) == Err(Unfinished)
  {
    UnclosedAnywhere(ev, line, pos, i);
    if Pieces(ev, line, pos).error.Raised? {
      RaisedCause(ev, line, pos, Pieces(ev, line, pos).error.msg);
      assert false;
    }
  }

  /** A line with an `@{` that no `}` follows gives no rows; when every
      expression has a value, it fails as unfinished. */
  lemma UnclosedLine(ev: Evaluator, line: string, i: nat)
    requires MarkerAt(line, i) && forall j :: i <= j < |line| ==> line[j] != '}'
    ensures RenderLine(ev, line).Err?
    ensures (forall e :: ev(e).Ok?) ==> RenderLine(ev, line) == Err(Unfinished)
  {
    UnclosedAnywhere(ev, line, 0, i);
    if forall e :: ev(e).Ok? {
      UnclosedUnfinished(ev, line, 0, i);
    }
  }

  /** When every expression has a value, a line fails as unfinished exactly
      when some `@{` on it has no `}` after it. */
  lemma UnfinishedExactly(ev: Evaluator, line: string)
    requires forall e :: ev(e).Ok?
    ensures RenderLine(ev, line) == Err(Unfinished) <==>
            exists i :: MarkerAt(line, i) && forall j :: i <= j < |line| ==> line[j] != '}'
  {
    if RenderLine(ev, line) == Err(Unfinished) {
      UnfinishedCause(ev, line, 0);
    }
    if exists i :: MarkerAt(line, i) && forall j :: i <= j < |line| ==> line[j] != '}' {
      var i :| MarkerAt(line, i) && forall j :: i <= j < |line| ==> line[j] != '}';
      UnclosedLine(ev, line, i);
    }
  }

  /** A line whose first expression raises fails with that exception. */
  lemma RaisingMarker(ev: Evaluator, line: string, i: nat, e: nat, msg: string)
    requires MarkerAt(line, i) && forall j :: 0 <= j < i ==> !MarkerAt(line, j)
    requires i + 2 <= e < |line| && line[e] == '}' && forall j :: i <= j < e ==> line[j] != '}'
    requires ev(line[i + 2..e]) == Err(msg)
    ensures RenderLine(ev, line) == Err(Raised(msg))
  {
    FindMarkerIs(line, 0, i);
    FindBraceIs(line, i, e);
  }

  /** An unfinished scan met an `@{` with no `}` after it. */
  lemma {:induction false} UnfinishedCause(ev: Evaluator, line: string, pos: nat)
    requires pos <= |line| && Pieces(ev, line, pos) == Err(Unfinished)
    ensures exists i :: pos <= i && MarkerAt(line, i) && forall j :: i <= j < |line| ==> line[j] != '}'
    decreases |line| - pos
  {
    var start := FindMarker(line, pos);
    var end := FindChar(line, '}', start);
    if end != -1 {
      ClosingBrace(line, start, end);
      PiecesStep(ev, line, pos, start, end, ev(line[start + 2..end]).value);
      UnfinishedCause(ev, line, end + 1);
    }
  }

  /** The expression between the `@{` at `i` and the `}` at `e` raises `msg`. */
  predicate RaisesAt(ev: Evaluator, line: string, i: nat, e: nat, msg: string)
  {
    i + 2 <= e < |line| && MarkerAt(line, i) && line[e] == '}' && ev(line[i + 2..e]) == Err(msg)
  }

  /** A scan that raised met an expression, between an `@{` and a `}`, that
      raised that exception. */
  lemma {:induction false} RaisedCause(ev: Evaluator, line: string, pos: nat, msg: string)
    requires pos <= |line| && Pieces(ev, line, pos) == Err(Raised(msg))
    ensures exists i: nat, e: nat :: pos <= i && RaisesAt(ev, line, i, e, msg)
    decreases |line| - pos
  {
    var start := FindMarker(line, pos);
    PiecesFailStep(ev, line, pos);
    var end := FindChar(line, '}', start);
    ClosingBrace(line, start, end);
    var r := ev(line[start + 2..end]);
    if r.Ok? {
      PiecesStep(ev, line, pos, start, end, r.value);
      RaisedCause(ev, line, end + 1, msg);
    } else {
      ScanRaised(ev, line, pos, start, end, r.error, []);
      ThenNothing(Pieces(ev, line, pos));
      assert RaisesAt(ev, line, start, end, msg);
    }
  }

  /** A scan that fails finds an `@{`; one that fails other than as
      unfinished also finds the `}` after it. */
  lemma PiecesFailStep(ev: Evaluator, line: string, pos: nat)
    requires pos <= |line| && Pieces(ev, line, pos).Err?
    ensures FindMarker(line, pos) != -1
    ensures Pieces(ev, line, pos) != Err(Unfinished) ==> FindChar(line, '}', FindMarker(line, pos)) != -1
  {
  }

  /** The first `@{` of `a + tail` is where `tail` starts, when `a` holds
      none and `tail` starts with one. */
  lemma MarkerAfterFree(a: string, tail: string)
    requires MarkerFree(a) && MarkerAt(tail, 0)
    ensures FindMarker(a + tail, 0) == |a|
  {
    var line := a + tail;
    forall j | 0 <= j < |a| ensures !MarkerAt(line, j) {
      if j + 1 < |a| {
        assert MarkerAt(line, j) ==> MarkerAt(a, j);
      } else {
        assert line[j + 1] == tail[0];
      }
    }
    assert MarkerAt(line, |a|);
    FindMarkerIs(line, 0, |a|);
  }

  /** No `@{` starts in `p + b` at or after the end of `p` when `b` holds none. */
  lemma NoMarkerAfter(p: string, b: string)
    requires MarkerFree(b)
    ensures FindMarker(p + b, |p|) == -1
  {
    var line := p + b;
    forall j | |p| <= j < |line| ensures !MarkerAt(line, j) {
      assert MarkerAt(line, j) ==> MarkerAt(b, j - |p|);
    }
  }

  /** The `@{` of `a + "@{" + x + "}" + b` is the first one, right after `a`. */
  lemma OneValueMarker(a: string, x: string, b: string)
    requires MarkerFree(a)
    ensures FindMarker(a + "@{" + x + "}" + b, 0) == |a| && (a + "@{" + x + "}" + b)[0..|a|] == a
  {
    var line := a + "@{" + x + "}" + b;
    assert line == a + ("@{" + x + "}" + b);
    MarkerAfterFree(a, "@{" + x + "}" + b);
  }

  /** The `}` of `a + "@{" + x + "}" + b` is the first one after the `@{`
      when `x` holds none. */
  lemma OneValueBrace(a: string, x: string, b: string)
    requires '}' !in x
    ensures FindChar(a + "@{" + x + "}" + b, '}', |a|) == |a| + 2 + |x| < |a + "@{" + x + "}" + b|
  {
    var line := a + "@{" + x + "}" + b;
    var s, e := |a| + 2, |a| + 2 + |x|;
    forall j | |a| <= j < e ensures line[j] != '}' {
      if j < s {
        assert line[j] == "@{"[j - |a|];
      } else {
        assert line[j] == x[j - s];
      }
    }
    FindBraceIs(line, |a|, e);
  }

  /** Between the `@{` and the `}` of `a + "@{" + x + "}" + b` lies `x`. */
  lemma OneValueExpr(a: string, x: string, b: string)
    ensures (a + "@{" + x + "}" + b)[|a| + 2..|a| + 2 + |x|] == x
  {
    var line := a + "@{" + x + "}" + b;
    var s := |a| + 2;
    forall j | 0 <= j < |x| ensures line[s..s + |x|][j] == x[j] {
      assert line[s..s + |x|][j] == line[s + j];
    }
  }

  /** After the `}` of `a + "@{" + x + "}" + b` comes `b`, which holds no
      `@{`. */
  lemma OneValueRest(a: string, x: string, b: string)
    requires MarkerFree(b)
    ensures FindMarker(a + "@{" + x + "}" + b, |a| + 2 + |x| + 1) == -1
    ensures (a + "@{" + x + "}" + b)[|a| + 2 + |x| + 1..] == b
  {
    var line := a + "@{" + x + "}" + b;
    var p := a + "@{" + x + "}";
    assert line == p + b && |p| == |a| + 3 + |x|;
    NoMarkerAfter(p, b);
    assert line[|p|..] == b;
  }

  /** `line` is `a + "@{" + x + "}" + b` as the scan cuts it: its first
      `@{` right after `a`, the first `}` after that right after `x`, and
      no `@{` after the `}`. */
  predicate CutOnce(line: string, a: string, x: string, b: string)
  {
    |line| == |a| + 2 + |x| + 1 + |b| &&
    FindMarker(line, 0) == |a| && FindChar(line, '}', |a|) == |a| + 2 + |x| &&
    FindMarker(line, |a| + 2 + |x| + 1) == -1 &&
    line[0..|a|] == a && line[|a| + 2..|a| + 2 + |x|] == x && line[|a| + 2 + |x| + 1..] == b
  }

  /** A line with one expression `x` between text `a` and text `b`, where
      neither text holds an `@{` and `x` holds no `}`, is cut there. */
  lemma OneValueCut(a: string, x: string, b: string)
    requires MarkerFree(a) && MarkerFree(b) && '}' !in x
    ensures CutOnce(a + "@{" + x + "}" + b, a, x, b)
  {
    OneValueMarker(a, x, b);
    OneValueBrace(a, x, b);
    OneValueExpr(a, x, b);
    OneValueRest(a, x, b);
  }

  /** The scan of a line cut once. */
  lemma PiecesOfOne(ev: Evaluator, line: string, a: string, x: string, b: string, v: string)
    requires CutOnce(line, a, x, b) && ev(x) == Ok(v)
    ensures Pieces(ev, line, 0) == Ok([Text(a), Value(x, v), Text(b)])
  {
    var start, end := |a|, |a| + 2 + |x|;
    PiecesLast(ev, line, end + 1);
    PiecesCons(ev, line, 0, start, end, v, [Text(b)]);
    assert [Text(a), Value(x, v)] + [Text(b)] == [Text(a), Value(x, v), Text(b)];
  }

  /** The scan of a line with one expression `x` between text `a` and text
      `b`, where neither text holds an `@{` and `x` holds no `}`. */
  lemma OneValuePieces(ev: Evaluator, a: string, x: string, b: string, v: string)
    requires MarkerFree(a) && MarkerFree(b) && '}' !in x && ev(x) == Ok(v)
    ensures Pieces(ev, a + "@{" + x + "}" + b, 0) == Ok([Text(a), Value(x, v), Text(b)])
  {
    OneValueCut(a, x, b);
    PiecesOfOne(ev, a + "@{" + x + "}" + b, a, x, b, v);
  }

  /** The rows of three blocks glued in turn. */
  lemma GlueThree(a: string, t: seq<string>, b: string)
    ensures Glue([[a], t, [b]]) == Spliced(Spliced([a], t), [b])
  {
    assert [[a], t, [b]] == [[a], t] + [[b]];
    assert [[a], t] == [[a]] + [t];
    assert [[a]] == [] + [[a]];
    GlueSnoc([], [a]);
    GlueSnoc([[a]], t);
    GlueSnoc([[a], t], [b]);
    SplicedOntoEmpty([a]);
  }

  /** Gluing the block `t` onto the single row `a`: every line of `t`
      starts at column `|a|`, after `a` on the first row and after spaces
      on the others. */
  lemma SplicedUnder(a: string, t: seq<string>)
    requires |t| >= 1
    ensures var r := Spliced([a], t);
      |r| == |t| && r[0] == a + t[0] &&
      (forall k :: 1 <= k < |t| ==> r[k] == Spaces(|a|) + t[k]) &&
      MaxWidth(r) == |a| + MaxWidth(t)
  {
    var r := Spliced([a], t);
    MaxWidthSpec([a]);
    forall k | 0 <= k < |t| ensures r[k] == (if k == 0 then a else Spaces(|a|)) + t[k] {
      SplicedAt([a], t, k);
    }
    MaxWidthShift(r, t, |a|);
  }

  /** Gluing a single line `a`, the block `t` and a single line `b`: every
      line of `t` starts at column `|a|`, and `b` follows the first row
      padded to the width of the widest of those rows. */
  lemma OneValueGlue(a: string, t: seq<string>, b: string)
    requires |t| >= 1
    ensures var rows := Glue([[a], t, [b]]);
      |rows| == |t| &&
      rows[0] == LJust(a + t[0], |a| + MaxWidth(t)) + b &&
      forall k :: 1 <= k < |t| ==> rows[k] == Spaces(|a|) + t[k]
  {
    GlueThree(a, t, b);
    SplicedUnder(a, t);
    var r1 := Spliced([a], t);
    SplicedAt(r1, [b], 0);
    forall k | 1 <= k < |t| ensures Spliced(r1, [b])[k] == r1[k] {
      SplicedKeeps(r1, [b], k);
    }
  }

  /** A line with one expression whose value has the lines `t` (after
      `__trim`) gives one row per line of `t`: the first holds the text
      before the expression, the first line of `t`, spaces up to the width
      of the widest line of `t` and then the text after the expression; the
      others hold the remaining lines of `t`, each starting in the column
      where the expression stood. */
  lemma OneValueRows(ev: Evaluator, a: string, x: string, b: string, v: string)
    requires MarkerFree(a) && MarkerFree(b) && '}' !in x && ev(x) == Ok(v)
    ensures RenderLine(ev, a + "@{" + x + "}" + b) == Ok(Glue([[a], Trim(v), [b]]))
    ensures |Glue([[a], Trim(v), [b]])| == |Trim(v)|
    ensures Glue([[a], Trim(v), [b]])[0] == LJust(a + Trim(v)[0], |a| + MaxWidth(Trim(v))) + b
    ensures forall k :: 1 <= k < |Trim(v)| ==> Glue([[a], Trim(v), [b]])[k] == Spaces(|a|) + Trim(v)[k]
  {
    OneValueRender(ev, a, x, b, v);
    assert |Trim(v)| >= 1 by { TrimIsTrimmed(v); }
    OneValueGlue(a, Trim(v), b);
  }

  /** The rows of such a line are its three blocks glued in turn. */
  lemma OneValueRender(ev: Evaluator, a: string, x: string, b: string, v: string)
    requires MarkerFree(a) && MarkerFree(b) && '}' !in x && ev(x) == Ok(v)
    ensures RenderLine(ev, a + "@{" + x + "}" + b) == Ok(Glue([[a], Trim(v), [b]]))
  {
    var ps := [Text(a), Value(x, v), Text(b)];
    OneValuePieces(ev, a, x, b, v);
    assert Layout(ps) == [[a], Trim(v), [b]];
  }

  /** The text of the worked instance, cut where the scan cuts it. */
  lemma ExampleLine()
    ensures "prefix " + "@{" + "expr" + "}" + " suffix" == "prefix @{expr} suffix"
    ensures MarkerFree("prefix ") && MarkerFree(" suffix")
  {
    assert "prefix " + "@{" + "expr" + "}" + " suffix" == "prefix @{expr} suffix";
  }

  /** The rows of the worked instance, put together. */
  lemma ExampleRows()
    ensures LJust("prefix " + "A", 7 + 2) + " suffix" == "prefix A  suffix"
    ensures Spaces(7) + "BB" == "       BB"
  {
    assert Spaces(1) == " ";
    assert "prefix " + "A" == "prefix A";
    assert LJust("prefix A", 9) == "prefix A ";
    assert "prefix A " + " suffix" == "prefix A  suffix";
    assert Spaces(2) == "  ";
    assert Spaces(3) == "   ";
    assert Spaces(4) == "    ";
    assert Spaces(5) == "     ";
    assert Spaces(6) == "      ";
    assert Spaces(7) == "       ";
  }

  /** The value of the worked instance trims to its two lines. */
  lemma ExampleValue()
    ensures Trim("A\nBB") == ["A", "BB"] && MaxWidth(["A", "BB"]) == 2
  {
    var t := ["A", "BB"];
    assert Join(t) == "A\nBB";
    assert !IsBlank("A") && Indent("A") == 0 by { IndentSpec("A"); }
    assert !IsBlank("BB") by { IndentSpec("BB"); }
    assert IsTrimmed(t);
    TrimmedIsFixed(t);
  }

  /** The blocks of the worked instance glue into its two rows. */
  lemma ExampleGlue()
    ensures Glue([["prefix "], Trim("A\nBB"), [" suffix"]]) == ["prefix A  suffix", "       BB"]
  {
    ExampleValue();
    ExampleRows();
    var rows := Glue([["prefix "], Trim("A\nBB"), [" suffix"]]);
    OneValueGlue("prefix ", Trim("A\nBB"), " suffix");
    assert |rows| == 2;
    assert rows[0] == LJust("prefix " + "A", 7 + 2) + " suffix";
    assert rows[1] == Spaces(7) + "BB";
  }

  /** A worked instance: with `expr` giving two lines `A` and `BB`, the line
      `prefix @{expr} suffix` gives two rows. `BB` starts in the column of
      the expression, and ` suffix` follows the first row padded to the
      width of `BB`. */
  lemma PrefixSuffixExample(ev: Evaluator)
    requires ev("expr") == Ok("A\nBB")
    ensures RenderLine(ev, "prefix @{expr} suffix") == Ok(["prefix A  suffix", "       BB"])
  {
    ExampleLine();
    OneValueRender(ev, "prefix ", "expr", " suffix", "A\nBB");
    ExampleGlue();
  }
}
