/** The Python string operations that tiles.py relies on, as pure functions
    over `string` (a `seq<char>`): whitespace tests, `lstrip`/`rstrip`,
    slicing from a start index, `find`, `ljust`, `split("\n")` and
    `"\n".join`. What the Python builtin promises is stated by a function's
    own contract or by the `...Spec` lemma beside it; the lemmas at the end
    relate `Split` and `Join`. */
module Strings {

  /** Python's `str.isspace` for the code points up to U+00FF: space, the
      controls TAB..CR, the separators U+001C..U+001F, NEL and NO-BREAK SPACE. */
  predicate IsWs(c: char) {
    c == ' ' || ('\t' <= c <= '\r') || ('\U{1C}' <= c <= '\U{1F}') || c == '\U{85}' || c == '\U{A0}'
  }

  /** `len(s) - len(s.lstrip())`: the number of leading whitespace characters. */
  function Indent(s: string): (n: nat)
    ensures n <= |s|
  {
    IndentFrom(s, 0)
  }

  /** The index of the first character at or after `i` that is not whitespace,
      or `|s|` when there is none. */
  function IndentFrom(s: string, i: nat): (n: nat)
    requires i <= |s|
    ensures i <= n <= |s|
    decreases |s| - i
  {
    if i < |s| && IsWs(s[i]) then IndentFrom(s, i + 1) else i
  }

  lemma {:induction false} IndentFromSpec(s: string, i: nat)
    requires i <= |s|
    ensures forall j :: i <= j < IndentFrom(s, i) ==> IsWs(s[j])
    ensures IndentFrom(s, i) < |s| ==> !IsWs(s[IndentFrom(s, i)])
    decreases |s| - i
  {
    if i < |s| && IsWs(s[i]) {
      IndentFromSpec(s, i + 1);
    }
  }

  /** `Indent` counts the whitespace in front of the first other character. */
  lemma IndentSpec(s: string)
    ensures forall i :: 0 <= i < Indent(s) ==> IsWs(s[i])
    ensures Indent(s) < |s| ==> !IsWs(s[Indent(s)])
  {
    IndentFromSpec(s, 0);
  }

  /** Any count of leading whitespace followed by an end or another
      character is the indentation. */
  lemma IndentUnique(s: string, n: nat)
    requires n <= |s|
    requires forall i :: 0 <= i < n ==> IsWs(s[i])
    requires n < |s| ==> !IsWs(s[n])
    ensures Indent(s) == n
  {
    IndentSpec(s);
  }

  /** A string is blank exactly when all its characters are whitespace. */
  lemma BlankSpec(s: string)
    ensures IsBlank(s) <==> forall i :: 0 <= i < |s| ==> IsWs(s[i])
  {
    IndentSpec(s);
  }

  /** `len(s.strip()) == 0`: the line holds whitespace only, so its
      indentation is all of it. */
  predicate IsBlank(s: string) {
    Indent(s) == |s|
  }

  /** `s.rstrip()`: the longest prefix of `s` that does not end in whitespace. */
  function RStrip(s: string): (r: string)
    ensures |r| <= |s|
  {
    s[..StripEnd(s, 0, |s|)]
  }

  /** Where `s[lo:n].rstrip()` ends in `s`: the least `e` in `lo..n` such
      that `s[e:n]` is whitespace only. */
  function StripEnd(s: string, lo: nat, n: nat): (e: nat)
    requires lo <= n <= |s|
    ensures lo <= e <= n
    ensures e == lo || !IsWs(s[e - 1])
    decreases n
  {
    if n > lo && IsWs(s[n - 1]) then StripEnd(s, lo, n - 1) else n
  }

  /** What `StripEnd` cuts off is whitespace only. */
  lemma {:induction false} StripEndSpec(s: string, lo: nat, n: nat)
    requires lo <= n <= |s|
    ensures forall i :: StripEnd(s, lo, n) <= i < n ==> IsWs(s[i])
    decreases n
  {
    if n > lo && IsWs(s[n - 1]) {
      StripEndSpec(s, lo, n - 1);
    }
  }

  /** Over whitespace only, `StripEnd` cuts everything. */
  lemma {:induction false} StripEndBlank(s: string, lo: nat, n: nat)
    requires lo <= n <= |s|
    requires forall i :: lo <= i < n ==> IsWs(s[i])
    ensures StripEnd(s, lo, n) == lo
    decreases n
  {
    if n > lo {
      StripEndBlank(s, lo, n - 1);
    }
  }

  /** `StripEnd` is the only end with those two properties. */
  lemma {:induction false} StripEndUnique(s: string, lo: nat, n: nat, e: nat)
    requires lo <= e <= n <= |s|
    requires e == lo || !IsWs(s[e - 1])
    requires forall i :: e <= i < n ==> IsWs(s[i])
    ensures StripEnd(s, lo, n) == e
    decreases n
  {
    if n > lo && IsWs(s[n - 1]) {
      StripEndUnique(s, lo, n - 1, e);
    }
  }

  /** Stripping a suffix of `s` from its start `st` is stripping `s` from `st`. */
  lemma {:induction false} StripEndShift(s: string, st: nat, n: nat)
    requires st <= n <= |s|
    ensures StripEnd(s[st..], 0, n - st) == StripEnd(s, st, n) - st
    decreases n
  {
    if n > st {
      assert s[st..][n - st - 1] == s[n - 1];
      StripEndShift(s, st, n - 1);
    }
  }

  /** Putting `p` in front of `s` moves `StripEnd` by `|p|`. */
  lemma {:induction false} StripEndPrefixed(p: string, s: string, lo: nat, n: nat)
    requires lo <= n <= |s|
    ensures StripEnd(p + s, |p| + lo, |p| + n) == |p| + StripEnd(s, lo, n)
    decreases n
  {
    if n > lo {
      assert (p + s)[|p| + n - 1] == s[n - 1];
      StripEndPrefixed(p, s, lo, n - 1);
    }
  }

  /** `rstrip` keeps a prefix whose last character is not whitespace, and
      what it removes is whitespace only. */
  lemma RStripSpec(s: string)
    ensures RStrip(s) == s[..|RStrip(s)|]
    ensures RStrip(s) == [] || !IsWs(RStrip(s)[|RStrip(s)| - 1])
    ensures forall i :: |RStrip(s)| <= i < |s| ==> IsWs(s[i])
  {
    StripEndSpec(s, 0, |s|);
  }

  /** The start index Python uses for `s[n:]` on a string of length `len`:
      a non-negative `n` is cut down to `len`, a negative `n` counts from the
      end and is raised to 0. */
  function SliceStart(len: nat, n: int): (i: nat)
    ensures i <= len
  {
    if 0 <= n then (if n <= len then n else len)
    else if -n <= len then len + n else 0
  }

  /** `s[n:]` for any integer `n`: a non-negative `n` drops `n` characters
      (all of them when `n > len(s)`), a negative `n` keeps the last `-n`. */
  function SliceFrom(s: string, n: int): (r: string)
    ensures 0 <= n ==> |r| == if n <= |s| then |s| - n else 0
    ensures n < 0 ==> |r| == if -n <= |s| then -n else |s|
    ensures r == s[|s| - |r|..]
  {
    s[SliceStart(|s|, n)..]
  }

  /** `s.find(c, start)` for a one-character needle. */
  function FindChar(s: string, c: char, start: nat): (r: int)
    ensures r == -1 || (start <= r < |s| && s[r] == c)
    ensures forall j :: start <= j < |s| && (r == -1 || j < r) ==> s[j] != c
    decreases |s| - start
  {
    if start >= |s| then -1
    else if s[start] == c then start
    else FindChar(s, c, start + 1)
  }

  /** Whether the two-character open token `@{` begins at index `i`. */
  predicate MarkerAt(s: string, i: int) {
    0 <= i && i + 1 < |s| && s[i] == '@' && s[i + 1] == '{'
  }

  /** `s.find("@{", start)`. */
  function FindMarker(s: string, start: nat): (r: int)
    ensures r == -1 || (start <= r && MarkerAt(s, r))
    ensures forall j :: start <= j < |s| && (r == -1 || j < r) ==> !MarkerAt(s, j)
    decreases |s| - start
  {
    if start + 1 >= |s| then -1
    else if MarkerAt(s, start) then start
    else FindMarker(s, start + 1)
  }

  /** No `@{` occurs anywhere in `s`. */
  predicate MarkerFree(s: string) {
    forall i :: 0 <= i < |s| ==> !MarkerAt(s, i)
  }

  function Spaces(n: nat): (r: string)
    ensures |r| == n && forall i :: 0 <= i < n ==> r[i] == ' '
  {
    if n == 0 then [] else Spaces(n - 1) + [' ']
  }

  /** `s.ljust(w)`: `s` right-padded with spaces to width `w`, never cut. */
  function LJust(s: string, w: nat): (r: string)
    ensures |r| == if |s| < w then w else |s|
    ensures r[..|s|] == s
    ensures forall i :: |s| <= i < |r| ==> r[i] == ' '
  {
    if |s| < w then s + Spaces(w - |s|) else s
  }

  /** `s.split("\n")`: the pieces between line breaks, always at least one. */
  function Split(s: string): (ls: seq<string>)
    ensures |ls| >= 1
    ensures forall k :: 0 <= k < |ls| ==> '\n' !in ls[k]
    decreases |s|
  {
    var i := FindChar(s, '\n', 0);
    if i == -1 then [s] else [s[..i]] + Split(s[i + 1..])
  }

  /** `"\n".join(ls)`. */
  function Join(ls: seq<string>): string
  {
    if |ls| == 0 then [] else if |ls| == 1 then ls[0] else ls[0] + "\n" + Join(ls[1..])
  }

  /** Joining the pieces of a split gives back the text. */
  lemma {:induction false} JoinSplit(s: string)
    ensures Join(Split(s)) == s
    decreases |s|
  {
    var i := FindChar(s, '\n', 0);
    if i != -1 {
      var rest := s[i + 1..];
      var ls := Split(s);
      JoinSplit(rest);
      assert ls == [s[..i]] + Split(rest);
      assert ls[1..] == Split(rest);
      assert Join(ls) == s[..i] + "\n" + rest;
      CutAtBreak(s, i);
    }
  }

  /** A text is the text before a line break, the break and the rest. */
  lemma CutAtBreak(s: string, i: nat)
    requires i < |s| && s[i] == '\n'
    ensures s[..i] + "\n" + s[i + 1..] == s
  {
    var t := s[..i] + "\n" + s[i + 1..];
    forall j | 0 <= j < |s| ensures t[j] == s[j] {
      if j < i {
        assert t[j] == s[..i][j];
      } else if j > i {
        assert t[j] == s[i + 1..][j - i - 1];
      }
    }
  }

  /** Splitting the join of lines that hold no line break gives back the lines. */
  lemma {:induction false} SplitJoin(ls: seq<string>)
    requires |ls| >= 1
    requires forall k :: 0 <= k < |ls| ==> '\n' !in ls[k]
    ensures Split(Join(ls)) == ls
  {
    var s := Join(ls);
    if |ls| == 1 {
      assert FindChar(s, '\n', 0) == -1;
    } else {
      var tail := Join(ls[1..]);
      assert s == ls[0] + "\n" + tail;
      assert s[|ls[0]|] == '\n';
      assert FindChar(s, '\n', 0) == |ls[0]|;
      assert s[..|ls[0]|] == ls[0];
      assert s[|ls[0]| + 1..] == tail;
      SplitJoin(ls[1..]);
    }
  }

  /** A piece of `s` that holds no `@{` holds none of its own. */
  lemma MarkerFreeSlice(s: string, a: nat, b: nat)
    requires a <= b <= |s| && MarkerFree(s)
    ensures MarkerFree(s[a..b])
  {
    forall i | 0 <= i < b - a ensures !MarkerAt(s[a..b], i) {
      assert MarkerAt(s[a..b], i) ==> MarkerAt(s, a + i);
    }
  }

  /** The pieces of a split text are pieces of the text, so they inherit
      the absence of `@{`. */
  lemma {:induction false} SplitMarkerFree(s: string)
    requires MarkerFree(s)
    ensures forall k :: 0 <= k < |Split(s)| ==> MarkerFree(Split(s)[k])
    decreases |s|
  {
    var i := FindChar(s, '\n', 0);
    if i == -1 {
      assert Split(s) == [s];
    } else {
      MarkerFreeSlice(s, 0, i);
      MarkerFreeSlice(s, i + 1, |s|);
      assert s[i + 1..|s|] == s[i + 1..];
      SplitMarkerFree(s[i + 1..]);
      assert Split(s) == [s[..i]] + Split(s[i + 1..]);
    }
  }
}
