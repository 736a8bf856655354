/** `tile(s)` of tiles.py: trim the template, then scan each of its lines
    left to right. The line falls into pieces of literal text and `@{expr}`
    expressions; each piece becomes a block (the text as one line, the
    expression as the trimmed lines of its value), and the blocks are glued
    side by side with `__append`, so a value of several lines keeps its
    shape and every one of its lines starts in the same column. The rows of
    all template lines, in order, are joined with line breaks.

    `Pieces` is the scan of one line, `Render` the whole computation; `Tile`
    and `TileLine` are the loops of the source, which append each block as
    soon as it is found, proved to compute `Render`. */
module Tiles {
  import opened Strings
  import opened Results
  import opened Dedent
  import opened RowBuffers

  /** Why `tile` gives no text. */
  datatype Failure =
    | Unfinished          // an `@{` with no `}` after it on its line
    | Raised(msg: string) // evaluating an expression raised an exception

  /** `str(eval(expr, globs, locs))` in the caller's scope: the text of the
      value, or the message of the exception that evaluation raised. */
  type Evaluator = string -> Result<string, string>

  /** What the scan of a line finds: literal text, or an expression (the
      text between `@{` and `}`) with the text of its value. */
  datatype Piece = Text(text: string) | Value(expr: string, value: string)

  /** The block `__append` glues on for a piece: text as a single line, a
      value as the lines `__trim` makes of it. */
  function Block(p: Piece): seq<string>
  {
    match p
    case Text(t) => [t]
    case Value(_, v) => Trim(v)
  }

  function Layout(ps: seq<Piece>): (bs: seq<seq<string>>)
    ensures |bs| == |ps| && forall k :: 0 <= k < |ps| ==> bs[k] == Block(ps[k])
  {
    seq(|ps|, k requires 0 <= k < |ps| => Block(ps[k]))
  }

  /** The pieces of one template line from index `pos` on: the text up to
      the next `@{` (or to the end), then the value of the expression
      between that `@{` and the next `}`, and so on from just after that
      `}`. The first failure in scanning order is the result. */
  function Pieces(ev: Evaluator, line: string, pos: nat): (r: Result<seq<Piece>, Failure>)
    requires pos <= |line|
    decreases |line| - pos
  {
    var start := FindMarker(line, pos);
    if start == -1 then Ok([Text(line[pos..])])
    else
      var end := FindChar(line, '}', start);
      if end == -1 then Err(Unfinished)
      else
        match ev(line[start + 2..end])
        case Err(msg) => Err(Raised(msg))
        case Ok(v) => Then([Text(line[pos..start]), Value(line[start + 2..end], v)], Pieces(ev, line, end + 1))
  }

  /** `r` with `first` in front of its pieces. */
  function Then(first: seq<Piece>, r: Result<seq<Piece>, Failure>): (r': Result<seq<Piece>, Failure>)
    ensures r'.Ok? <==> r.Ok?
  {
    match r
    case Err(e) => Err(e)
    case Ok(ps) => Ok(first + ps)
  }

  /** The rows of one template line. */
  function RenderLine(ev: Evaluator, line: string): Result<seq<string>, Failure>
  {
    match Pieces(ev, line, 0)
    case Err(e) => Err(e)
    case Ok(ps) => Ok(Glue(Layout(ps)))
  }

  /** What a template line gives: its rows or its failure. */
  type LineRenderer = string -> Result<seq<string>, Failure>

  /** `RenderLine` with the evaluator fixed. */
  function Renderer(ev: Evaluator): LineRenderer
  {
    line => RenderLine(ev, line)
  }

  /** The rows of the first `n` lines, each line's rows after the previous
      ones; the first line that fails decides the failure. */
  function Collect(f: LineRenderer, lns: seq<string>, n: nat): Result<seq<string>, Failure>
    requires n <= |lns|
  {
    if n == 0 then Ok([])
    else
      match Collect(f, lns, n - 1)
      case Err(e) => Err(e)
      case Ok(res) =>
        match f(lns[n - 1])
        case Err(e) => Err(e)
        case Ok(curr) => Ok(res + curr)
  }

  /** `tile(s)`. */
  function Render(ev: Evaluator, s: string): Result<string, Failure>
  {
    var lns := Trim(s);
    match Collect(Renderer(ev), lns, |lns|)
    case Err(e) => Err(e)
    case Ok(res) => Ok(Join(res))
  }

  /** The loop of `tile` over the template lines. */
  method Tile(ev: Evaluator, s: string) returns (r: Result<string, Failure>)
    ensures r == Render(ev, s)
  {
    var lns := TrimBlock(s);
    var res: seq<string> := [];
    for i := 0 to |lns|
      invariant Collect(Renderer(ev), lns, i) == Ok(res)
    {
      var curr := TileLine(ev, lns[i]);
      if curr.Err? {
        CollectFails(Renderer(ev), lns, i, curr.error);
        return Err(curr.error);
      }
      res := res + curr.value;
    }
    r := Ok(Join(res));
  }

  /** The `while True` loop of `tile` over one template line, with the row
      list `curr` that it appends each block to. */
  method TileLine(ev: Evaluator, line: string) returns (r: Result<seq<string>, Failure>)
    ensures r == RenderLine(ev, line)
  {
    var curr := new RowBuffer();
    var pos: nat := 0;
    ghost var done: seq<Piece> := [];
    ThenNothing(Pieces(ev, line, 0));
    while true
      invariant pos <= |line|
      invariant curr.rows == Glue(Layout(done))
      invariant Pieces(ev, line, 0) == Then(done, Pieces(ev, line, pos))
      decreases |line| - pos
    {
      var start := FindMarker(line, pos);
      var text := line[pos..if start == -1 then |line| else start];
      ghost var before := curr.rows;
      curr.Append([text]);
      if start == -1 {
        ScanEnds(ev, line, pos, done, before);
        done := done + [Text(text)];
        break;
      }
      var end := FindChar(line, '}', start);
      if end == -1 {
        ScanUnfinished(ev, line, pos, start, done);
        return Err(Unfinished);
      }
      ClosingBrace(line, start, end);
      var v := ev(line[start + 2..end]);
      if v.Err? {
        ScanRaised(ev, line, pos, start, end, v.error, done);
        return Err(Raised(v.error));
      }
      var val := TrimBlock(v.value);
      curr.Append(val);
      ghost var prev, at := done, pos;
      done := done + [Text(text), Value(line[start + 2..end], v.value)];
      pos := end + 1;
      ScanNext(ev, line, at, start, end, pos, v.value, prev, done);
      GlueStep(prev, text, line[start + 2..end], v.value, done);
    }
    r := Ok(curr.rows);
  }

  /** Where the scan finds no more `@{`, the rest of the line is the last
      piece. */
  lemma ScanEnds(ev: Evaluator, line: string, pos: nat, done: seq<Piece>, rows: seq<string>)
    requires pos <= |line| && FindMarker(line, pos) == -1
    requires rows == Glue(Layout(done))
    ensures Then(done, Pieces(ev, line, pos)) == Ok(done + [Text(line[pos..|line|])])
    ensures Spliced(rows, [line[pos..|line|]]) == Glue(Layout(done + [Text(line[pos..|line|])]))
  {
    assert line[pos..|line|] == line[pos..];
    LayoutSnoc(done, Text(line[pos..|line|]));
  }

  /** The `}` that closes an `@{` comes after the two characters of `@{`. */
  lemma ClosingBrace(line: string, start: int, end: int)
    requires MarkerAt(line, start) && end == FindChar(line, '}', start) && end != -1
    ensures start + 2 <= end < |line|
  {
  }

  /** Where the scan finds `@{` and no `}` after it, the line fails. */
  lemma ScanUnfinished(ev: Evaluator, line: string, pos: nat, start: int, done: seq<Piece>)
    requires pos <= |line| && start == FindMarker(line, pos) && start != -1
    requires FindChar(line, '}', start) == -1
    ensures Then(done, Pieces(ev, line, pos)) == Err(Unfinished)
  {
  }

  /** Where the expression between `@{` and `}` raises, the line fails
      with that exception. */
  lemma ScanRaised(ev: Evaluator, line: string, pos: nat, start: int, end: int, msg: string, done: seq<Piece>)
    requires pos <= |line| && start == FindMarker(line, pos) && start != -1
    requires end == FindChar(line, '}', start) && end != -1
    requires start + 2 <= end && ev(line[start + 2..end]) == Err(msg)
    ensures Then(done, Pieces(ev, line, pos)) == Err(Raised(msg))
  {
  }

  /** Where the expression between `@{` and `}` has a value, the text
      before the `@{` and the value are the next pieces, and the scan goes
      on just after the `}` (at `next`). */
  lemma ScanNext(ev: Evaluator, line: string, pos: nat, start: int, end: int, next: nat, v: string,
                 done: seq<Piece>, done': seq<Piece>)
    requires pos <= |line| && start == FindMarker(line, pos) && start != -1
    requires end == FindChar(line, '}', start) && end != -1 && next == end + 1
    requires start + 2 <= end && ev(line[start + 2..end]) == Ok(v)
    requires done' == done + [Text(line[pos..start]), Value(line[start + 2..end], v)]
    ensures Then(done, Pieces(ev, line, pos)) == Then(done', Pieces(ev, line, next))
    ensures Pieces(ev, line, 0) == Then(done, Pieces(ev, line, pos)) ==>
            Pieces(ev, line, 0) == Then(done', Pieces(ev, line, next))
  {
    ThenThen(done, [Text(line[pos..start]), Value(line[start + 2..end], v)], Pieces(ev, line, next));
  }

  /** Gluing a text piece and then a value onto the rows of earlier pieces. */
  lemma GlueStep(done: seq<Piece>, text: string, expr: string, v: string, done': seq<Piece>)
    requires done' == done + [Text(text), Value(expr, v)]
    ensures Spliced(Spliced(Glue(Layout(done)), [text]), Trim(v)) == Glue(Layout(done'))
  {
    LayoutSnoc(done, Text(text));
    LayoutSnoc(done + [Text(text)], Value(expr, v));
    assert done + [Text(text)] + [Value(expr, v)] == done';
  }

  /** Appending a piece's block to the rows of the earlier pieces. */
  lemma LayoutSnoc(ps: seq<Piece>, p: Piece)
    ensures Glue(Layout(ps + [p])) == Spliced(Glue(Layout(ps)), Block(p))
  {
    assert Layout(ps + [p]) == Layout(ps) + [Block(p)];
    GlueSnoc(Layout(ps), Block(p));
  }

  lemma ThenNothing(r: Result<seq<Piece>, Failure>)
    ensures Then([], r) == r
  {
    if r.Ok? {
      assert [] + r.value == r.value;
    }
  }

  lemma ThenThen(a: seq<Piece>, b: seq<Piece>, r: Result<seq<Piece>, Failure>)
    ensures Then(a, Then(b, r)) == Then(a + b, r)
  {
    if r.Ok? {
      assert a + (b + r.value) == (a + b) + r.value;
    }
  }

  /** Once a line fails, the whole template fails the same way. */
  lemma {:induction false} CollectSticky(f: LineRenderer, lns: seq<string>, n: nat, m: nat)
    requires n <= m <= |lns| && Collect(f, lns, n).Err?
    ensures Collect(f, lns, m) == Collect(f, lns, n)
    decreases m
  {
    if m > n {
      CollectSticky(f, lns, n, m - 1);
    }
  }

  /** The first line that fails decides what the template gives. */
  lemma CollectFails(f: LineRenderer, lns: seq<string>, i: nat, e: Failure)
    requires i < |lns| && Collect(f, lns, i).Ok? && f(lns[i]) == Err(e)
    ensures Collect(f, lns, |lns|) == Err(e)
  {
    assert Collect(f, lns, i + 1) == Err(e);
    CollectSticky(f, lns, i + 1, |lns|);
  }
}
