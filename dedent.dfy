/** `__trim` of tiles.py: cut a block into lines, drop the blank lines at
    both ends, remove the common indentation and the trailing whitespace.

    The first loop of `__trim` keeps three running values over the lines
    seen so far: `top` (first line with content, -1 while there is none),
    `bottom` (last line with content, 0 while there is none) and `left`
    (least indentation of a line with content, -1 while there is none).
    `First`, `Last` and `MinIndent` give those values for a prefix of the
    lines; `FirstSpec`, `LastSpec` and `MinIndentSpec` say what they mean.
    `TrimLines` is the list the second loop builds, `TrimBlock` is the
    method with both loops. */
module Dedent {
  import opened Strings

  /** No line has content. */
  predicate AllBlank(ls: seq<string>) {
    AllBlankUpTo(ls, |ls|)
  }

  /** `top` after the scan of the first `n` lines. */
  function First(ls: seq<string>, n: nat): (t: int)
    requires n <= |ls|
    ensures -1 <= t < n
  {
    if n == 0 then -1
    else
      var t := First(ls, n - 1);
      if t == -1 && !IsBlank(ls[n - 1]) then n - 1 else t
  }

  /** `bottom` after the scan of the first `n` lines. */
  function Last(ls: seq<string>, n: nat): (b: nat)
    requires n <= |ls|
    ensures n != 0 ==> b < n
    ensures First(ls, n) <= b
  {
    if n == 0 then 0
    else if !IsBlank(ls[n - 1]) then n - 1
    else Last(ls, n - 1)
  }

  /** `left` after the scan of the first `n` lines. */
  function MinIndent(ls: seq<string>, n: nat): (m: int)
    requires n <= |ls|
    ensures -1 <= m
  {
    if n == 0 then -1
    else
      var m := MinIndent(ls, n - 1);
      var line := ls[n - 1];
      if IsBlank(line) then m
      else if m == -1 || Indent(line) < m then Indent(line)
      else m
  }

  /** No line among the first `n` has content. */
  predicate AllBlankUpTo(ls: seq<string>, n: nat)
    requires n <= |ls|
  {
    forall j {:trigger IsBlank(ls[j])} :: 0 <= j < n ==> IsBlank(ls[j])
  }

  /** `top` is the first line with content, or -1 when there is none. */
  lemma {:induction false} FirstSpec(ls: seq<string>, n: nat)
    requires n <= |ls|
    ensures First(ls, n) == -1 <==> AllBlankUpTo(ls, n)
    ensures First(ls, n) != -1 ==> !IsBlank(ls[First(ls, n)])
    ensures forall j {:trigger IsBlank(ls[j])} :: 0 <= j < n && (First(ls, n) == -1 || j < First(ls, n)) ==> IsBlank(ls[j])
  {
    if n != 0 {
      FirstSpec(ls, n - 1);
    }
  }

  /** `bottom` is the last line with content, or 0 when there is none. */
  lemma {:induction false} LastSpec(ls: seq<string>, n: nat)
    requires n <= |ls|
    ensures AllBlankUpTo(ls, n) ==> Last(ls, n) == 0
    ensures !AllBlankUpTo(ls, n) ==> !IsBlank(ls[Last(ls, n)])
    ensures forall j {:trigger IsBlank(ls[j])} :: Last(ls, n) < j < n ==> IsBlank(ls[j])
  {
    if n != 0 {
      LastSpec(ls, n - 1);
    }
  }

  /** `left` is the least indentation of a line with content, or -1 when
      there is none. */
  lemma {:induction false} MinIndentSpec(ls: seq<string>, n: nat)
    requires n <= |ls|
    ensures MinIndent(ls, n) == -1 <==> AllBlankUpTo(ls, n)
    ensures forall j {:trigger IsBlank(ls[j])} :: 0 <= j < n && !IsBlank(ls[j]) ==> MinIndent(ls, n) <= Indent(ls[j])
    ensures MinIndent(ls, n) != -1 ==>
      exists j {:trigger IsBlank(ls[j])} :: 0 <= j < n && !IsBlank(ls[j]) && Indent(ls[j]) == MinIndent(ls, n)
  {
    if n != 0 {
      MinIndentSpec(ls, n - 1);
    }
  }

  predicate NoTrailingWs(s: string) {
    s == [] || !IsWs(s[|s| - 1])
  }

  /** `s[i][left:].rstrip()`: one line of the result, the part of `line`
      from where Python starts `[left:]` to its last character that is not
      whitespace. */
  function Dedented(line: string, left: int): (d: string)
    ensures NoTrailingWs(d)
  {
    var st := SliceStart(|line|, left);
    line[st..StripEnd(line, st, |line|)]
  }

  /** `Dedented` is the Python expression it stands for. */
  lemma DedentedIsRStripOfSlice(line: string, left: int)
    ensures Dedented(line, left) == RStrip(SliceFrom(line, left))
  {
    var st := SliceStart(|line|, left);
    StripEndShift(line, st, |line|);
    var e := StripEnd(line, st, |line|);
    assert line[st..][..e - st] == line[st..e];
  }

  /** A result line holds no line break when its input line holds none. */
  lemma DedentedNoBreak(line: string, left: int)
    requires '\n' !in line
    ensures '\n' !in Dedented(line, left)
  {
    var st := SliceStart(|line|, left);
    var d := Dedented(line, left);
    forall i | 0 <= i < |d| ensures d[i] != '\n' {
      assert d[i] == line[st + i];
    }
  }

  /** Lines `lo` to `hi - 1` of `ls`, each with `left` characters dropped
      and trailing whitespace stripped. */
  function DedentRange(ls: seq<string>, left: int, lo: nat, hi: nat): (r: seq<string>)
    requires lo <= hi <= |ls|
    ensures |r| == hi - lo
    decreases hi
  {
    if hi == lo then [] else DedentRange(ls, left, lo, hi - 1) + [Dedented(ls[hi - 1], left)]
  }

  /** Result line `k` comes from input line `lo + k`. */
  lemma {:induction false} DedentRangeAt(ls: seq<string>, left: int, lo: nat, hi: nat, k: nat)
    requires lo <= hi <= |ls| && k < hi - lo
    ensures DedentRange(ls, left, lo, hi)[k] == Dedented(ls[lo + k], left)
    decreases hi
  {
    if k < hi - 1 - lo {
      DedentRangeAt(ls, left, lo, hi - 1, k);
    }
  }

  /** The `top` that the second loop starts from: a block without content
      starts from line 0. */
  function Top(ls: seq<string>): nat
  {
    if First(ls, |ls|) == -1 then 0 else First(ls, |ls|)
  }

  /** The lines `__trim` returns for the lines of a split block. A block
      without content leaves `top` and `bottom` at 0 and `left` at -1, so its
      single result line is `s[0][-1:]` stripped. */
  function TrimLines(ls: seq<string>): (r: seq<string>)
    requires |ls| >= 1
    ensures |r| >= 1
  {
    DedentRange(ls, MinIndent(ls, |ls|), Top(ls), Last(ls, |ls|) + 1)
  }

  /** `__trim(text)`. */
  function Trim(text: string): seq<string>
  {
    TrimLines(Split(text))
  }

  /** The two loops of `__trim`, proved to compute `Trim`. */
  method TrimBlock(arg: string) returns (r: seq<string>)
    ensures r == Trim(arg)
  {
    var s := Split(arg);
    var top: int, bottom: int, left: int := -1, 0, -1;
    for i := 0 to |s|
      invariant top == First(s, i)
      invariant bottom == Last(s, i)
      invariant left == MinIndent(s, i)
    {
      if !IsBlank(s[i]) {
        bottom := i;
        if top == -1 {
          top := i;
        }
        var first := Indent(s[i]);
        if left == -1 || first < left {
          left := first;
        }
      }
    }
    if top == -1 {
      top := 0;
    }
    assert top == Top(s);
    assert TrimLines(s) == DedentRange(s, left, top, bottom + 1);
    r := [];
    for i := top to bottom + 1
      invariant r == DedentRange(s, left, top, i)
    {
      r := r + [Dedented(s[i], left)];
    }
  }

  /** `row` is `line` less its first `left` characters, which are
      whitespace, and less its trailing whitespace; a line without content
      gives an empty row. */
  predicate Dedents(line: string, left: int, row: string) {
    if IsBlank(line) then row == []
    else
      0 <= left && left + |row| <= |line| && IsBlank(line[..left]) &&
      line[left..left + |row|] == row && NoTrailingWs(row) &&
      IsBlank(line[left + |row|..])
  }

  /** At most one row fits that description. */
  lemma DedentsUnique(line: string, left: int, a: string, b: string)
    requires Dedents(line, left, a) && Dedents(line, left, b)
    ensures a == b
  {
    if !IsBlank(line) {
      var rest_a, rest_b := line[left + |a|..], line[left + |b|..];
      BlankSpec(rest_a);
      BlankSpec(rest_b);
      forall i | left + |a| <= i < |line| ensures IsWs(line[i]) {
        assert line[i] == rest_a[i - left - |a|];
      }
      forall i | left + |b| <= i < |line| ensures IsWs(line[i]) {
        assert line[i] == rest_b[i - left - |b|];
      }
      assert a == [] || line[left + |a| - 1] == a[|a| - 1];
      assert b == [] || line[left + |b| - 1] == b[|b| - 1];
      StripEndUnique(line, left, |line|, left + |a|);
      StripEndUnique(line, left, |line|, left + |b|);
    }
  }

  /** A line of whitespace only strips to nothing, whatever is cut from it. */
  lemma BlankDedentsToEmpty(line: string, left: int)
    requires IsBlank(line)
    ensures Dedented(line, left) == []
  {
    BlankSpec(line);
    StripEndBlank(line, SliceStart(|line|, left), |line|);
  }

  /** Dedenting a line with content by at most its indentation keeps the
      content and the rest of the indentation. */
  lemma DedentLine(line: string, n: nat)
    requires !IsBlank(line) && n <= Indent(line)
    ensures !IsBlank(Dedented(line, n))
    ensures Indent(Dedented(line, n)) == Indent(line) - n
  {
    var d := Dedented(line, n);
    var i := Indent(line) - n;
    IndentSpec(line);
    StripEndSpec(line, n, |line|);
    assert StripEnd(line, n, |line|) > Indent(line);
    assert d[i] == line[Indent(line)];
    forall j | 0 <= j < i ensures IsWs(d[j]) {
      assert d[j] == line[n + j];
    }
    IndentUnique(d, i);
  }

  /** A line dedented by at most its indentation (or any line without
      content) gives the row `Dedents` describes. */
  lemma DedentedShape(line: string, left: int)
    requires IsBlank(line) || 0 <= left <= Indent(line)
    ensures Dedents(line, left, Dedented(line, left))
  {
    if IsBlank(line) {
      BlankDedentsToEmpty(line, left);
    } else {
      var row := Dedented(line, left);
      IndentSpec(line);
      StripEndSpec(line, left, |line|);
      var front := line[..left];
      forall j | 0 <= j < left ensures IsWs(front[j]) {
        assert front[j] == line[j];
      }
      IndentUnique(front, left);
      var rest := line[left + |row|..];
      forall j | 0 <= j < |rest| ensures IsWs(rest[j]) {
        assert rest[j] == line[left + |row| + j];
      }
      IndentUnique(rest, |rest|);
    }
  }

  /** Result line `k` comes from input line `Top + k`. */
  lemma TrimLinesAt(ls: seq<string>, k: nat)
    requires |ls| >= 1 && k < |TrimLines(ls)|
    ensures Top(ls) + k < |ls|
    ensures TrimLines(ls)[k] == Dedented(ls[Top(ls) + k], MinIndent(ls, |ls|))
  {
    var top, bottom, left := Top(ls), Last(ls, |ls|), MinIndent(ls, |ls|);
    var r, d := TrimLines(ls), DedentRange(ls, left, top, bottom + 1);
    assert r == d;
    DedentRangeAt(ls, left, top, bottom + 1, k);
  }

  /** A block without content trims to exactly one empty line. */
  lemma TrimAllBlank(ls: seq<string>)
    requires |ls| >= 1 && AllBlank(ls)
    ensures TrimLines(ls) == [[]]
  {
    FirstSpec(ls, |ls|);
    LastSpec(ls, |ls|);
    var r := TrimLines(ls);
    assert |r| == 1;
    TrimLinesAt(ls, 0);
    assert IsBlank(ls[0]);
    BlankDedentsToEmpty(ls[0], MinIndent(ls, |ls|));
    assert r[0] == [];
  }

  /** With content, the result has one line per input line from the first to
      the last line with content, and each result line is its input line
      dedented by the least indentation of a line with content. */
  lemma TrimLineAt(ls: seq<string>, k: nat)
    requires |ls| >= 1 && !AllBlank(ls)
    ensures |TrimLines(ls)| == Last(ls, |ls|) - First(ls, |ls|) + 1
    ensures k < |TrimLines(ls)| ==>
      First(ls, |ls|) + k < |ls| &&
      Dedents(ls[First(ls, |ls|) + k], MinIndent(ls, |ls|), TrimLines(ls)[k])
  {
    FirstSpec(ls, |ls|);
    MinIndentSpec(ls, |ls|);
    if k < |TrimLines(ls)| {
      TrimLinesAt(ls, k);
      var line := ls[Top(ls) + k];
      assert IsBlank(line) || MinIndent(ls, |ls|) <= Indent(line);
      DedentedShape(line, MinIndent(ls, |ls|));
    }
  }

  /** With content, the first and last result lines have content and some
      result line starts at column 0. */
  lemma TrimEdges(ls: seq<string>)
    requires |ls| >= 1 && !AllBlank(ls)
    ensures var r := TrimLines(ls);
      !IsBlank(r[0]) && !IsBlank(r[|r| - 1]) &&
      exists k :: 0 <= k < |r| && !IsBlank(r[k]) && Indent(r[k]) == 0
  {
    FirstSpec(ls, |ls|);
    LastSpec(ls, |ls|);
    var top, bottom := First(ls, |ls|), Last(ls, |ls|);
    TrimLineContent(ls, top);
    TrimLineContent(ls, bottom);
    MinIndentSpec(ls, |ls|);
    var j :| 0 <= j < |ls| && !IsBlank(ls[j]) && Indent(ls[j]) == MinIndent(ls, |ls|);
    assert top <= j <= bottom;
    TrimLineContent(ls, j);
  }

  /** An input line with content comes out with content and with its
      indentation less the least one. */
  lemma TrimLineContent(ls: seq<string>, i: nat)
    requires i < |ls| && !IsBlank(ls[i])
    ensures Top(ls) <= i < Top(ls) + |TrimLines(ls)|
    ensures var row := TrimLines(ls)[i - Top(ls)];
      !IsBlank(row) && Indent(row) == Indent(ls[i]) - MinIndent(ls, |ls|)
  {
    FirstSpec(ls, |ls|);
    LastSpec(ls, |ls|);
    MinIndentSpec(ls, |ls|);
    var top, left := Top(ls), MinIndent(ls, |ls|);
    assert top <= i <= Last(ls, |ls|);
    TrimLinesAt(ls, i - top);
    DedentLine(ls[i], left);
  }

  /** The shape of every `__trim` result: one empty line, or lines without
      line breaks or trailing whitespace, the first and last with content and
      one of them starting at column 0. */
  predicate IsTrimmed(r: seq<string>) {
    r == [[]] ||
    (|r| >= 1 && !IsBlank(r[0]) && !IsBlank(r[|r| - 1]) &&
     (forall k :: 0 <= k < |r| ==> '\n' !in r[k] && NoTrailingWs(r[k])) &&
     exists k :: 0 <= k < |r| && !IsBlank(r[k]) && Indent(r[k]) == 0)
  }

  /** Every `__trim` result has that shape; in particular it is never empty. */
  lemma TrimIsTrimmed(text: string)
    ensures IsTrimmed(Trim(text)) && |Trim(text)| >= 1
  {
    var ls := Split(text);
    if AllBlank(ls) {
      TrimAllBlank(ls);
    } else {
      TrimEdges(ls);
      var r, top, left := TrimLines(ls), Top(ls), MinIndent(ls, |ls|);
      forall k | 0 <= k < |r| ensures '\n' !in r[k] && NoTrailingWs(r[k]) {
        TrimLinesAt(ls, k);
        DedentedNoBreak(ls[top + k], left);
      }
    }
  }

  /** Lines with no trailing whitespace come through a dedent by 0 unchanged. */
  lemma DedentedByZero(line: string)
    requires NoTrailingWs(line)
    ensures Dedented(line, 0) == line
  {
    assert StripEnd(line, 0, |line|) == |line|;
  }

  /** Trimming a trimmed block, joined back into text, gives it back. */
  lemma TrimmedIsFixed(r: seq<string>)
    requires IsTrimmed(r)
    ensures Trim(Join(r)) == r
  {
    if r == [[]] {
      TrimmedBlankIsFixed();
    } else {
      SplitJoin(r);
      TrimmedLinesAreFixed(r);
    }
  }

  /** The single empty line is the text `""`, which trims to it again. */
  lemma TrimmedBlankIsFixed()
    ensures Trim(Join([[]])) == [[]]
  {
    assert Split(Join([[]])) == [[]] by {
      assert FindChar([], '\n', 0) == -1;
    }
    assert AllBlank([[]]) by {
      assert IsBlank([]);
    }
    TrimAllBlank([[]]);
  }

  /** Lines with content at both ends, one of them at column 0, and no
      trailing whitespace are left as they are. */
  lemma TrimmedLinesAreFixed(r: seq<string>)
    requires IsTrimmed(r) && r != [[]]
    ensures TrimLines(r) == r
  {
    FirstSpec(r, |r|);
    LastSpec(r, |r|);
    MinIndentSpec(r, |r|);
    var j :| 0 <= j < |r| && !IsBlank(r[j]) && Indent(r[j]) == 0;
    assert First(r, |r|) == 0 && Last(r, |r|) == |r| - 1 && MinIndent(r, |r|) == 0;
    var t := TrimLines(r);
    assert |t| == |r|;
    forall k | 0 <= k < |r| ensures t[k] == r[k] {
      TrimLinesAt(r, k);
      DedentedByZero(r[k]);
    }
  }

  /** `__trim` is idempotent. */
  lemma TrimIdempotent(text: string)
    ensures Trim(Join(Trim(text))) == Trim(text)
  {
    TrimIsTrimmed(text);
    TrimmedIsFixed(Trim(text));
  }

  /** Every line of `ls` with the same prefix `p` in front. */
  function Prefixed(p: string, ls: seq<string>): (r: seq<string>)
    ensures |r| == |ls| && forall k :: 0 <= k < |ls| ==> r[k] == p + ls[k]
  {
    if ls == [] then [] else [p + ls[0]] + Prefixed(p, ls[1..])
  }

  /** Whitespace in front of a line does not change whether it is blank and
      adds its length to the indentation. */
  lemma PrefixedLine(p: string, line: string)
    requires IsBlank(p)
    ensures IsBlank(p + line) <==> IsBlank(line)
    ensures Indent(p + line) == |p| + Indent(line)
  {
    var q := p + line;
    var n := |p| + Indent(line);
    IndentSpec(p);
    IndentSpec(line);
    assert forall i :: 0 <= i < |p| ==> q[i] == p[i];
    assert forall i :: 0 <= i < |line| ==> q[|p| + i] == line[i];
    IndentUnique(q, n);
  }

  /** Dedenting `p + line` by `|p| + m` is dedenting `line` by `m`. */
  lemma DedentedPrefixed(p: string, line: string, m: nat)
    ensures Dedented(p + line, |p| + m) == Dedented(line, m)
  {
    var q, st := p + line, SliceStart(|line|, m);
    assert SliceStart(|q|, |p| + m) == |p| + st;
    StripEndPrefixed(p, line, st, |line|);
    var e := StripEnd(line, st, |line|);
    assert q[|p| + st..|p| + e] == line[st..e];
  }

  /** `qs` is `ls` indented by the whitespace `p`: every line with content
      has `p` in front of it, and every blank line is replaced by some blank
      line, longer, shorter or empty. */
  predicate Reindented(p: string, ls: seq<string>, qs: seq<string>)
  {
    |qs| == |ls| &&
    forall k :: 0 <= k < |ls| ==> if IsBlank(ls[k]) then IsBlank(qs[k]) else qs[k] == p + ls[k]
  }

  /** Putting `p` in front of every line, blank ones included, is one way
      of indenting by `p`. */
  lemma PrefixedReindented(p: string, ls: seq<string>)
    requires IsBlank(p)
    ensures Reindented(p, ls, Prefixed(p, ls))
  {
    forall k | 0 <= k < |ls| && IsBlank(ls[k]) ensures IsBlank(Prefixed(p, ls)[k]) {
      PrefixedLine(p, ls[k]);
    }
  }

  /** The scan of `__trim` sees the same lines with and without the
      indentation `p`, and every indentation grows by its length. */
  lemma {:induction false} ScanReindented(p: string, ls: seq<string>, qs: seq<string>, n: nat)
    requires IsBlank(p) && Reindented(p, ls, qs) && n <= |ls|
    ensures First(qs, n) == First(ls, n)
    ensures Last(qs, n) == Last(ls, n)
    ensures MinIndent(qs, n) == if MinIndent(ls, n) == -1 then -1 else |p| + MinIndent(ls, n)
  {
    if n != 0 {
      ScanReindented(p, ls, qs, n - 1);
      if !IsBlank(ls[n - 1]) {
        PrefixedLine(p, ls[n - 1]);
      }
    }
  }

  /** Indentation that every line with content shares is removed by
      `__trim`, whatever the blank lines hold. */
  lemma TrimLinesReindented(p: string, ls: seq<string>, qs: seq<string>)
    requires |ls| >= 1 && IsBlank(p) && Reindented(p, ls, qs)
    ensures TrimLines(qs) == TrimLines(ls)
  {
    ScanReindented(p, ls, qs, |ls|);
    var a, b := TrimLines(qs), TrimLines(ls);
    assert |a| == |b|;
    forall k | 0 <= k < |a| ensures a[k] == b[k] {
      TrimLineReindentedAt(p, ls, qs, k);
    }
  }

  /** One line of `TrimLinesReindented`. */
  lemma TrimLineReindentedAt(p: string, ls: seq<string>, qs: seq<string>, k: nat)
    requires |ls| >= 1 && IsBlank(p) && Reindented(p, ls, qs) && k < |TrimLines(ls)|
    ensures k < |TrimLines(qs)|
    ensures TrimLines(qs)[k] == TrimLines(ls)[k]
  {
    ScanReindented(p, ls, qs, |ls|);
    var top, m, m' := Top(ls), MinIndent(ls, |ls|), MinIndent(qs, |qs|);
    assert Top(qs) == top;
    TrimLinesAt(ls, k);
    TrimLinesAt(qs, k);
    var line, q := ls[top + k], qs[top + k];
    assert TrimLines(qs)[k] == Dedented(q, m');
    assert TrimLines(ls)[k] == Dedented(line, m);
    if !IsBlank(line) {
      ContentMinIndent(ls, top + k);
    }
    DedentedUnderPrefix(p, line, q, m, m');
  }

  /** A line under a whitespace prefix, dedented by the prefix more, gives
      the same row; so does any blank line in place of a blank one. */
  lemma DedentedUnderPrefix(p: string, line: string, q: string, m: int, m': int)
    requires IsBlank(p)
    requires if IsBlank(line) then IsBlank(q) else q == p + line && 0 <= m && m' == |p| + m
    ensures Dedented(q, m') == Dedented(line, m)
  {
    if IsBlank(line) {
      BlankDedentsToEmpty(line, m);
      BlankDedentsToEmpty(q, m');
    } else {
      DedentedPrefixed(p, line, m);
    }
  }

  /** A line with content makes the least indentation a real one. */
  lemma ContentMinIndent(ls: seq<string>, i: nat)
    requires i < |ls| && !IsBlank(ls[i])
    ensures 0 <= MinIndent(ls, |ls|) <= Indent(ls[i])
  {
    MinIndentSpec(ls, |ls|);
  }

  /** Indentation invariance on text: a template whose lines with content
      all carry the same whitespace `p` in front, and whose other lines are
      blank, trims to the same lines as the template without `p`. */
  lemma TrimIndentInvariant(p: string, text: string, indented: string)
    requires IsBlank(p) && Reindented(p, Split(text), Split(indented))
    ensures Trim(indented) == Trim(text)
  {
    TrimLinesReindented(p, Split(text), Split(indented));
  }

  /** In particular, putting the same whitespace (without a line break) in
      front of every line of a block trims to the same lines. */
  lemma TrimPrefixInvariant(p: string, text: string)
    requires IsBlank(p) && '\n' !in p
    ensures Trim(Join(Prefixed(p, Split(text)))) == Trim(text)
  {
    var ls := Split(text);
    var qs := Prefixed(p, ls);
    forall k | 0 <= k < |qs| ensures '\n' !in qs[k] {
      assert qs[k] == p + ls[k];
    }
    SplitJoin(qs);
    PrefixedReindented(p, ls);
    TrimIndentInvariant(p, text, Join(qs));
  }
}
