/** `__append` of tiles.py: glue a block of lines to the right of the rows
    built so far. Every line of the block starts in the same column, the
    width of the widest row before the call; rows are padded with spaces up
    to that column, missing rows are added as empty ones, and rows below the
    block stay as they were. `RowBuffer` is the list the source mutates in
    place; `Spliced` says what it holds after one call. */
module RowBuffers {
  import opened Strings

  /** `max(len(s) for s in rows or [""])`. */
  function MaxWidth(rows: seq<string>): (w: nat)
  {
    WidestUpTo(rows, |rows|)
  }

  /** The width of the widest of the first `n` rows, 0 when `n` is 0. */
  function WidestUpTo(rows: seq<string>, n: nat): (w: nat)
    requires n <= |rows|
  {
    if n == 0 then 0
    else if WidestUpTo(rows, n - 1) < |rows[n - 1]| then |rows[n - 1]|
    else WidestUpTo(rows, n - 1)
  }

  lemma {:induction false} WidestUpToSpec(rows: seq<string>, n: nat)
    requires n <= |rows|
    ensures forall i :: 0 <= i < n ==> |rows[i]| <= WidestUpTo(rows, n)
    ensures n == 0 || exists i :: 0 <= i < n && |rows[i]| == WidestUpTo(rows, n)
  {
    if n > 0 {
      WidestUpToSpec(rows, n - 1);
    }
  }

  /** The common column is the width of the widest row: no row is wider,
      and some row is that wide unless there are none. */
  lemma MaxWidthSpec(rows: seq<string>)
    ensures forall i :: 0 <= i < |rows| ==> |rows[i]| <= MaxWidth(rows)
    ensures rows == [] ==> MaxWidth(rows) == 0
    ensures rows != [] ==> exists i :: 0 <= i < |rows| && |rows[i]| == MaxWidth(rows)
  {
    WidestUpToSpec(rows, |rows|);
  }

  /** Rows that are `c` wider, row for row, are `c` wider at their widest. */
  lemma MaxWidthShift(rows: seq<string>, narrow: seq<string>, c: nat)
    requires |rows| == |narrow| >= 1
    requires forall i :: 0 <= i < |rows| ==> |rows[i]| == c + |narrow[i]|
    ensures MaxWidth(rows) == c + MaxWidth(narrow)
  {
    MaxWidthSpec(rows);
    MaxWidthSpec(narrow);
    var i :| 0 <= i < |rows| && |rows[i]| == MaxWidth(rows);
    var j :| 0 <= j < |narrow| && |narrow[j]| == MaxWidth(narrow);
    assert |rows[j]| <= MaxWidth(rows);
    assert |narrow[i]| <= MaxWidth(narrow);
  }

  /** Row `i`, or the empty row that `__append` adds when there is none. */
  function RowOr(rows: seq<string>, i: nat): string
  {
    if i < |rows| then rows[i] else ""
  }

  function Max(a: nat, b: nat): nat
  {
    if a < b then b else a
  }

  /** The rows after `__append(rows, val)`. */
  function Spliced(rows: seq<string>, val: seq<string>): (r: seq<string>)
    ensures |r| == Max(|rows|, |val|)
  {
    SplicedFrom(rows, val, MaxWidth(rows), 0)
  }

  /** Row `i` after gluing `val` on at column `w`: for a line of the block,
      the old row, or an empty one, padded to `w` and followed by the line;
      otherwise the old row. */
  function SplicedRow(rows: seq<string>, val: seq<string>, w: nat, i: nat): string
  {
    if i < |val| then LJust(RowOr(rows, i), w) + val[i] else RowOr(rows, i)
  }

  /** Rows `i` onwards after gluing `val` on at column `w`. */
  function SplicedFrom(rows: seq<string>, val: seq<string>, w: nat, i: nat): (r: seq<string>)
    requires i <= Max(|rows|, |val|)
    ensures |r| == Max(|rows|, |val|) - i
    decreases Max(|rows|, |val|) - i
  {
    if i == Max(|rows|, |val|) then []
    else [SplicedRow(rows, val, w, i)] + SplicedFrom(rows, val, w, i + 1)
  }

  lemma {:induction false} SplicedFromAt(rows: seq<string>, val: seq<string>, w: nat, i: nat, k: nat)
    requires i <= k < Max(|rows|, |val|)
    ensures SplicedFrom(rows, val, w, i)[k - i] == SplicedRow(rows, val, w, k)
    decreases k - i
  {
    var r := SplicedFrom(rows, val, w, i);
    assert r == [SplicedRow(rows, val, w, i)] + SplicedFrom(rows, val, w, i + 1);
    if i < k {
      SplicedFromAt(rows, val, w, i + 1, k);
      assert r[k - i] == SplicedFrom(rows, val, w, i + 1)[k - (i + 1)];
    }
  }

  /** Row `i` of the rows after `__append`. */
  lemma SplicedAt(rows: seq<string>, val: seq<string>, i: nat)
    requires i < Max(|rows|, |val|)
    ensures Spliced(rows, val)[i] == SplicedRow(rows, val, MaxWidth(rows), i)
  {
    SplicedFromAt(rows, val, MaxWidth(rows), 0, i);
  }

  /** The rows `__append` leaves alone: those below the block. */
  lemma SplicedKeeps(rows: seq<string>, val: seq<string>, i: nat)
    requires |val| <= i < |rows|
    ensures Spliced(rows, val)[i] == rows[i]
  {
    SplicedAt(rows, val, i);
  }

  /** Line `i` of the block lands at column `MaxWidth(rows)` of row `i`,
      after the old row and spaces up to that column. */
  lemma SplicedColumn(rows: seq<string>, val: seq<string>, i: nat)
    requires i < |val|
    ensures var r, old_row, w := Spliced(rows, val)[i], RowOr(rows, i), MaxWidth(rows);
      |old_row| <= w && |r| == w + |val[i]| &&
      r[..|old_row|] == old_row &&
      (forall j :: |old_row| <= j < w ==> r[j] == ' ') &&
      r[w..] == val[i]
  {
    var r, old_row, w := Spliced(rows, val)[i], RowOr(rows, i), MaxWidth(rows);
    MaxWidthSpec(rows);
    SplicedAt(rows, val, i);
    var padded := LJust(old_row, w);
    assert r == padded + val[i];
    assert r[..|old_row|] == padded[..|old_row|];
  }

  /** The widest row afterwards is at least as wide as every line of the
      block placed at the common column, so the next block starts to the
      right of this one. */
  lemma SplicedWidth(rows: seq<string>, val: seq<string>, i: nat)
    requires i < |val|
    ensures MaxWidth(rows) + |val[i]| <= MaxWidth(Spliced(rows, val))
  {
    SplicedColumn(rows, val, i);
    MaxWidthSpec(Spliced(rows, val));
  }

  /** Appending to no rows gives the block itself. */
  lemma SplicedOntoEmpty(val: seq<string>)
    ensures Spliced([], val) == val
  {
    var r := Spliced([], val);
    forall i | 0 <= i < |val| ensures r[i] == val[i] {
      SplicedAt([], val, i);
      assert LJust("", 0) == "";
    }
  }

  /** Appending an empty block changes nothing. */
  lemma SplicedNothing(rows: seq<string>)
    ensures Spliced(rows, []) == rows
  {
    forall i | 0 <= i < |rows| ensures Spliced(rows, [])[i] == rows[i] {
      SplicedAt(rows, [], i);
    }
  }

  /** Rows without line breaks stay without line breaks. */
  lemma SplicedNoBreak(rows: seq<string>, val: seq<string>)
    requires forall i :: 0 <= i < |rows| ==> '\n' !in rows[i]
    requires forall i :: 0 <= i < |val| ==> '\n' !in val[i]
    ensures forall i :: 0 <= i < |Spliced(rows, val)| ==> '\n' !in Spliced(rows, val)[i]
  {
    var r := Spliced(rows, val);
    forall i | 0 <= i < |r| ensures '\n' !in r[i] {
      SplicedAt(rows, val, i);
      if i < |val| {
        SplicedColumn(rows, val, i);
        var old_row, w := RowOr(rows, i), MaxWidth(rows);
        forall j | 0 <= j < |r[i]| ensures r[i][j] != '\n' {
          if j < |old_row| {
            assert r[i][j] == r[i][..|old_row|][j];
          } else if j >= w {
            assert r[i][j] == r[i][w..][j - w];
          }
        }
      }
    }
  }

  /** The rows after appending each block of `bs` in turn to no rows. */
  function Glue(bs: seq<seq<string>>): seq<string>
  {
    if bs == [] then [] else Spliced(Glue(bs[..|bs| - 1]), bs[|bs| - 1])
  }

  /** Appending one more block glues it onto the rows of the earlier ones. */
  lemma GlueSnoc(bs: seq<seq<string>>, b: seq<string>)
    ensures Glue(bs + [b]) == Spliced(Glue(bs), b)
  {
    assert (bs + [b])[..|bs|] == bs;
  }

  /** There are as many rows as the longest block has lines. */
  lemma {:induction false} GlueLength(bs: seq<seq<string>>)
    ensures forall k :: 0 <= k < |bs| ==> |bs[k]| <= |Glue(bs)|
    ensures |Glue(bs)| == 0 || exists k :: 0 <= k < |bs| && |bs[k]| == |Glue(bs)|
  {
    if bs != [] {
      var init := bs[..|bs| - 1];
      GlueLength(init);
      assert forall k :: 0 <= k < |init| ==> init[k] == bs[k];
    }
  }

  /** The rows `__append` builds, kept in one list that each call updates. */
  class RowBuffer {
    var rows: seq<string>

    /** `curr = []`. */
    constructor ()
      ensures rows == []
    {
      rows := [];
    }

    /** `__append(curr, val)`. */
    method Append(val: seq<string>)
      modifies this
      ensures rows == Spliced(old(rows), val)
    {
      var w := MaxWidth(rows);
      ghost var orig := rows;
      for i := 0 to |val|
        invariant |rows| == Max(|orig|, i)
        invariant forall j :: 0 <= j < i ==> rows[j] == LJust(RowOr(orig, j), w) + val[j]
        invariant forall j :: i <= j < |rows| ==> rows[j] == orig[j]
      {
        if i >= |rows| {
          rows := rows + [""];
        }
        rows := rows[i := LJust(rows[i], w) + val[i]];
      }
      forall j | 0 <= j < |rows| ensures rows[j] == Spliced(orig, val)[j] {
        SplicedAt(orig, val, j);
      }
    }
  }
}
