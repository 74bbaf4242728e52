/** The correlation pair filter: a scan of the upper triangle (diagonal included)
    of a square correlation matrix, in row-major order, that keeps the pairs whose
    coefficient lies strictly outside [-0.5, 0.5] and whose variable names differ.
    The matrix itself (numpy's `corrcoef`) is an input. */
module Correlation {

  /** One reported line: the two variable names and their coefficient. */
  datatype Triple = Triple(first: string, second: string, coef: real)

  /** A cell of the upper triangle, as (row, column). */
  type Cell = (nat, nat)

  predicate IsSquare(m: seq<seq<real>>)
  {
    forall i :: 0 <= i < |m| ==> |m[i]| == |m|
  }

  /** The strict magnitude test `r > .5 or r < -.5`. */
  predicate Significant(r: real)
  {
    r > 0.5 || r < -0.5
  }

  /** The coefficient at a cell; the scan only ever asks inside the matrix. */
  function Coef(corr: seq<seq<real>>, c: Cell): real
  {
    if c.0 < |corr| && c.1 < |corr[c.0]| then corr[c.0][c.1] else 0.0
  }

  /** The name of a row or column; the scan only ever asks inside the matrix. */
  function Name(names: seq<string>, i: nat): string
  {
    if i < |names| then names[i] else ""
  }

  /** Whether the scan keeps a cell; self-pairs are excluded by NAME, not by index. */
  predicate Kept(corr: seq<seq<real>>, names: seq<string>, c: Cell)
  {
    Significant(Coef(corr, c)) && Name(names, c.0) != Name(names, c.1)
  }

  /** `p` comes strictly before `q` in row-major order. */
  predicate RowMajorBefore(p: Cell, q: Cell)
  {
    p.0 < q.0 || (p.0 == q.0 && p.1 < q.1)
  }

  /** Strictly increasing in row-major order: no cell twice, rows top to bottom, columns left to right. */
  predicate RowMajorSorted(sel: seq<Cell>)
  {
    forall a, b :: 0 <= a < b < |sel| ==> RowMajorBefore(sel[a], sel[b])
  }

  /** The cells (i, j) of row `i` with i <= j < jEnd that the scan keeps, left to right. */
  function RowSelection(corr: seq<seq<real>>, names: seq<string>, i: nat, jEnd: nat): seq<Cell>
    decreases jEnd
  {
    if jEnd <= i then []
    else
      RowSelection(corr, names, i, jEnd - 1)
      + (if Kept(corr, names, (i, jEnd - 1)) then [(i, jEnd - 1)] else [])
  }

  /** The cells of rows 0 .. iEnd-1 of an n x n matrix that the scan keeps, in scan order. */
  function Selection(corr: seq<seq<real>>, names: seq<string>, iEnd: nat): seq<Cell>
    decreases iEnd
  {
    if iEnd == 0 then []
    else Selection(corr, names, iEnd - 1) + RowSelection(corr, names, iEnd - 1, |corr|)
  }

  /** The reported line for a cell. */
  function ToTriple(corr: seq<seq<real>>, names: seq<string>, c: Cell): Triple
  {
    Triple(Name(names, c.0), Name(names, c.1), Coef(corr, c))
  }

  /** `out` reports the cells `sel`, one line per cell, in the same order. */
  predicate Reports(corr: seq<seq<real>>, names: seq<string>, out: seq<Triple>, sel: seq<Cell>)
  {
    |out| == |sel| && forall k :: 0 <= k < |sel| ==> out[k] == ToTriple(corr, names, sel[k])
  }

  /** The nested loops that build `sig_corr_coefs`. `titles` are the CSV column
      titles; `titles[1..]` names the rows and columns of `corr`. */
  method SignificantCorrelations(corr: seq<seq<real>>, titles: seq<string>) returns (out: seq<Triple>)
    requires IsSquare(corr) && |corr| < |titles|
    ensures Reports(corr, titles[1..], out, Selection(corr, titles[1..], |corr|))
  {
    var names := titles[1..];
    var n := |corr|;
    out := [];
    ghost var sel: seq<Cell> := [];
    for column := 0 to n
      invariant sel == Selection(corr, names, column)
      invariant Reports(corr, names, out, sel)
    {
      ghost var done := sel;
      for coef := column to n
        invariant sel == done + RowSelection(corr, names, column, coef)
        invariant Reports(corr, names, out, sel)
      {
        if corr[column][coef] > 0.5 || corr[column][coef] < -0.5 {
          if names[column] != names[coef] {
            out := out + [Triple(names[column], names[coef], corr[column][coef])];
            sel := sel + [(column, coef)];
          }
        }
      }
    }
  }

  /** With the matrix and names in range, a reported line is exactly
      `[names[i], names[j], corr[i][j]]` for its cell (i, j). */
  lemma ReportedLine(corr: seq<seq<real>>, names: seq<string>, out: seq<Triple>, k: nat)
    requires IsSquare(corr) && |corr| <= |names|
    requires Reports(corr, names, out, Selection(corr, names, |corr|))
    requires k < |out|
    ensures Selection(corr, names, |corr|)[k].0 <= Selection(corr, names, |corr|)[k].1 < |corr|
    ensures var (i, j) := Selection(corr, names, |corr|)[k];
      out[k] == Triple(names[i], names[j], corr[i][j])
  {
    SelectionBounds(corr, names, |corr|);
    var sel := Selection(corr, names, |corr|);
    assert sel[k] in sel;
    var (i, j) := sel[k];
    assert |corr[i]| == |corr|;
    assert Coef(corr, (i, j)) == corr[i][j];
  }

  /** Every reported cell lies in the first `iEnd` rows of the upper triangle, diagonal included. */
  lemma {:induction false} SelectionBounds(corr: seq<seq<real>>, names: seq<string>, iEnd: nat)
    ensures forall c :: c in Selection(corr, names, iEnd) ==> c.0 < iEnd && c.0 <= c.1 < |corr|
    decreases iEnd
  {
    if iEnd > 0 {
      SelectionBounds(corr, names, iEnd - 1);
      RowSelectionBounds(corr, names, iEnd - 1, |corr|);
    }
  }

  lemma {:induction false} RowSelectionBounds(corr: seq<seq<real>>, names: seq<string>, i: nat, jEnd: nat)
    ensures forall c :: c in RowSelection(corr, names, i, jEnd) ==> c.0 == i && i <= c.1 < jEnd
    decreases jEnd
  {
    if jEnd > i {
      RowSelectionBounds(corr, names, i, jEnd - 1);
    }
  }

  /** Every reported cell passes the filter. */
  lemma {:induction false} SelectionSound(corr: seq<seq<real>>, names: seq<string>, iEnd: nat)
    ensures forall c :: c in Selection(corr, names, iEnd) ==> Kept(corr, names, c)
    decreases iEnd
  {
    if iEnd > 0 {
      SelectionSound(corr, names, iEnd - 1);
      RowSelectionSound(corr, names, iEnd - 1, |corr|);
    }
  }

  lemma {:induction false} RowSelectionSound(corr: seq<seq<real>>, names: seq<string>, i: nat, jEnd: nat)
    ensures forall c :: c in RowSelection(corr, names, i, jEnd) ==> Kept(corr, names, c)
    decreases jEnd
  {
    if jEnd > i {
      RowSelectionSound(corr, names, i, jEnd - 1);
    }
  }

  /** Every kept cell of the upper triangle is reported. */
  lemma SelectionComplete(corr: seq<seq<real>>, names: seq<string>, i: nat, j: nat)
    requires i <= j < |corr| && Kept(corr, names, (i, j))
    ensures (i, j) in Selection(corr, names, |corr|)
  {
    RowSelectionComplete(corr, names, i, j, |corr|);
    SelectionContainsRow(corr, names, i, |corr|);
  }

  lemma {:induction false} RowSelectionComplete(corr: seq<seq<real>>, names: seq<string>, i: nat, j: nat, jEnd: nat)
    requires i <= j < jEnd && Kept(corr, names, (i, j))
    ensures (i, j) in RowSelection(corr, names, i, jEnd)
    decreases jEnd
  {
    if j < jEnd - 1 {
      RowSelectionComplete(corr, names, i, j, jEnd - 1);
    }
  }

  lemma {:induction false} SelectionContainsRow(corr: seq<seq<real>>, names: seq<string>, i: nat, iEnd: nat)
    requires i < iEnd
    ensures forall c :: c in RowSelection(corr, names, i, |corr|) ==> c in Selection(corr, names, iEnd)
    decreases iEnd
  {
    if i < iEnd - 1 {
      SelectionContainsRow(corr, names, i, iEnd - 1);
    }
  }

  /** The report is in strictly increasing row-major order of cells. */
  lemma {:induction false} SelectionRowMajor(corr: seq<seq<real>>, names: seq<string>, iEnd: nat)
    ensures RowMajorSorted(Selection(corr, names, iEnd))
    decreases iEnd
  {
    if iEnd > 0 {
      SelectionRowMajor(corr, names, iEnd - 1);
      RowSelectionSorted(corr, names, iEnd - 1, |corr|);
      SelectionBounds(corr, names, iEnd - 1);
      RowSelectionBounds(corr, names, iEnd - 1, |corr|);
      SortedConcat(Selection(corr, names, iEnd - 1), RowSelection(corr, names, iEnd - 1, |corr|));
    }
  }

  lemma {:induction false} RowSelectionSorted(corr: seq<seq<real>>, names: seq<string>, i: nat, jEnd: nat)
    ensures RowMajorSorted(RowSelection(corr, names, i, jEnd))
    decreases jEnd
  {
    if jEnd > i {
      RowSelectionSorted(corr, names, i, jEnd - 1);
      var prev := RowSelection(corr, names, i, jEnd - 1);
      RowSelectionBounds(corr, names, i, jEnd - 1);
      SortedConcat(prev, if Kept(corr, names, (i, jEnd - 1)) then [(i, jEnd - 1)] else []);
    }
  }

  lemma SortedConcat(p: seq<Cell>, q: seq<Cell>)
    requires RowMajorSorted(p) && RowMajorSorted(q)
    requires forall a, b :: a in p && b in q ==> RowMajorBefore(a, b)
    ensures RowMajorSorted(p + q)
  {
    var s := p + q;
    forall a, b | 0 <= a < b < |s| ensures RowMajorBefore(s[a], s[b]) {
      if b < |p| {
        assert s[a] == p[a] && s[b] == p[b];
      } else if a < |p| {
        assert s[a] == p[a] && s[b] == q[b - |p|];
        assert p[a] in p && q[b - |p|] in q;
      } else {
        assert s[a] == q[a - |p|] && s[b] == q[b - |p|];
      }
    }
  }

  /** No cell is reported twice, no pair is reported in both orders, and no
      cell of the diagonal is reported. */
  lemma NoRepeatedOrMirroredPair(corr: seq<seq<real>>, names: seq<string>)
    ensures forall c :: c in Selection(corr, names, |corr|) ==> c.0 < c.1
    ensures var sel := Selection(corr, names, |corr|);
      forall a, b :: 0 <= a < b < |sel| ==> sel[a] != sel[b]
    ensures forall c :: c in Selection(corr, names, |corr|) ==> (c.1, c.0) !in Selection(corr, names, |corr|)
  {
    var sel := Selection(corr, names, |corr|);
    SelectionRowMajor(corr, names, |corr|);
    SelectionSound(corr, names, |corr|);
    SelectionBounds(corr, names, |corr|);
    forall c | c in sel ensures c.0 < c.1 {
      assert Kept(corr, names, c);
    }
    forall a, b | 0 <= a < b < |sel| ensures sel[a] != sel[b] {
      assert RowMajorBefore(sel[a], sel[b]);
    }
  }

  /** When the variable names are pairwise distinct, excluding by name is excluding
      the diagonal: a cell is kept exactly when it is significant and off the diagonal. */
  lemma DistinctNamesExcludeOnlyDiagonal(corr: seq<seq<real>>, names: seq<string>, i: nat, j: nat)
    requires forall a, b :: 0 <= a < b < |names| ==> names[a] != names[b]
    requires i < |names| && j < |names|
    ensures Kept(corr, names, (i, j)) <==> Significant(Coef(corr, (i, j))) && i != j
  {
    if i > j {
      assert names[j] != names[i];
    }
  }

  /** Two distinct columns that share a name are never reported, however strongly they correlate. */
  lemma SharedNameHidesCorrelation()
    ensures Selection([[1.0, 0.9], [0.9, 1.0]], ["rate", "rate"], 2) == []
  {
  }
}
