/**
 * The in-memory table the pipeline works on: a pandas DataFrame seen as named columns of
 * cells, each column with the dtype flag `select_dtypes` reads, plus the index labels that
 * identify rows.
 */
module Frames {

  /** A cell: NaN/None/NaT, a number, a Python string, or a `datetime.date`. */
  datatype Cell = Null | Num(v: real) | Text(s: string) | Date(year: int, month: int, day: int)

  /** A column's dtype as `select_dtypes(exclude=["object"])` tells them apart. */
  datatype Dtype = Object | Numeric

  datatype Column = Column(dtype: Dtype, cells: seq<Cell>)

  /** The content of a DataFrame: its columns by name and its index labels, one per row. */
  datatype Frame = Frame(columns: map<string, Column>, index: seq<int>)

  /** Every column has one cell per row, and a numeric column holds only numbers and NaN. */
  predicate ColumnOk(col: Column, height: nat) {
    && |col.cells| == height
    && (col.dtype == Numeric ==> forall i :: 0 <= i < height ==> col.cells[i].Num? || col.cells[i].Null?)
  }

  predicate WellFormed(f: Frame) {
    forall c :: c in f.columns ==> ColumnOk(f.columns[c], |f.index|)
  }

  predicate AllNum(cells: seq<Cell>) {
    forall i :: 0 <= i < |cells| ==> cells[i].Num?
  }

  predicate NonNegative(cells: seq<Cell>) {
    forall i :: 0 <= i < |cells| ==> cells[i].Num? ==> cells[i].v >= 0.0
  }

  predicate NoNull(cells: seq<Cell>) {
    forall i :: 0 <= i < |cells| ==> cells[i] != Null
  }

  /** Row `i` as a map from column name to cell. */
  function Row(f: Frame, i: nat): (r: map<string, Cell>)
    requires WellFormed(f) && i < |f.index|
    ensures r.Keys == f.columns.Keys
    ensures forall c :: c in r ==> r[c] == f.columns[c].cells[i]
  {
    map c | c in f.columns :: f.columns[c].cells[i]
  }

  /** Two rows are equal exactly when they agree in every column. */
  lemma RowsEqual(f: Frame, i: nat, j: nat)
    requires WellFormed(f) && i < |f.index| && j < |f.index|
    ensures Row(f, i) == Row(f, j) <==> forall c :: c in f.columns ==> f.columns[c].cells[i] == f.columns[c].cells[j]
  {
    if forall c :: c in f.columns ==> f.columns[c].cells[i] == f.columns[c].cells[j] {
      assert forall c :: c in Row(f, i) ==> Row(f, i)[c] == Row(f, j)[c];
    }
  }

  predicate IndicesIn(idx: seq<nat>, n: nat) {
    forall k :: 0 <= k < |idx| ==> idx[k] < n
  }

  predicate Increasing(idx: seq<nat>) {
    forall k1, k2 :: 0 <= k1 < k2 < |idx| ==> idx[k1] < idx[k2]
  }

  predicate DistinctLabels(index: seq<int>) {
    forall i, j :: 0 <= i < j < |index| ==> index[i] != index[j]
  }

  function Pick<T>(s: seq<T>, idx: seq<nat>): (r: seq<T>)
    requires IndicesIn(idx, |s|)
    ensures |r| == |idx| && forall k :: 0 <= k < |idx| ==> r[k] == s[idx[k]]
  {
    seq(|idx|, k requires 0 <= k < |idx| => s[idx[k]])
  }

  /** `df.iloc[idx]`: the rows at the given positions, in that order, keeping their labels. */
  function Select(f: Frame, idx: seq<nat>): (r: Frame)
    requires WellFormed(f) && IndicesIn(idx, |f.index|)
    ensures WellFormed(r) && r.columns.Keys == f.columns.Keys
    ensures r.index == Pick(f.index, idx)
    ensures forall c :: c in r.columns ==>
      r.columns[c].dtype == f.columns[c].dtype && r.columns[c].cells == Pick(f.columns[c].cells, idx)
  {
    Frame(map c | c in f.columns :: Column(f.columns[c].dtype, Pick(f.columns[c].cells, idx)),
          Pick(f.index, idx))
  }

  lemma SelectRow(f: Frame, idx: seq<nat>, k: nat)
    requires WellFormed(f) && IndicesIn(idx, |f.index|) && k < |idx|
    ensures Row(Select(f, idx), k) == Row(f, idx[k])
  {
  }

  /** The positions holding `true`, ascending: selection by a boolean mask. */
  function Positions(mask: seq<bool>): (r: seq<nat>)
    ensures Increasing(r) && IndicesIn(r, |mask|) && |r| <= |mask|
    ensures forall i :: 0 <= i < |mask| ==> (mask[i] <==> i in r)
  {
    if mask == [] then []
    else
      var p := Positions(mask[..|mask| - 1]);
      assert forall i :: 0 <= i < |mask| - 1 ==> mask[..|mask| - 1][i] == mask[i];
      p + (if mask[|mask| - 1] then [|mask| - 1] else [])
  }

  /** The positions 0, 1, ..., n - 1. */
  function Identity(n: nat): (r: seq<nat>)
    ensures |r| == n && forall i :: 0 <= i < n ==> r[i] == i
  {
    seq(n, i => i)
  }

  /** Where the mask holds everywhere, every position is kept, in order. */
  lemma {:induction false} PositionsAll(mask: seq<bool>)
    requires forall i :: 0 <= i < |mask| ==> mask[i]
    ensures Positions(mask) == Identity(|mask|)
  {
    if mask != [] {
      PositionsAll(mask[..|mask| - 1]);
    }
  }

  lemma SelectAll(f: Frame)
    requires WellFormed(f)
    ensures Select(f, Identity(|f.index|)) == f
  {
    var idx := Identity(|f.index|);
    var r := Select(f, idx);
    assert r.index == f.index;
    forall c | c in f.columns
      ensures r.columns[c] == f.columns[c]
    {
      assert r.columns[c].cells == f.columns[c].cells;
    }
    assert r.columns == f.columns;
  }

  /** `a` is made of elements of `b`, taken at increasing positions. */
  ghost predicate IsSubsequence(a: seq<int>, b: seq<int>) {
    exists idx: seq<nat> :: SubsequenceWitness(a, b, idx)
  }

  ghost predicate SubsequenceWitness(a: seq<int>, b: seq<int>, idx: seq<nat>) {
    && Increasing(idx) && IndicesIn(idx, |b|) && |idx| == |a|
    && forall k :: 0 <= k < |a| ==> a[k] == b[idx[k]]
  }

  lemma SubsequenceRefl(a: seq<int>)
    ensures IsSubsequence(a, a)
  {
    assert SubsequenceWitness(a, a, Identity(|a|));
  }

  lemma SelectSubsequence(f: Frame, idx: seq<nat>)
    requires WellFormed(f) && IndicesIn(idx, |f.index|) && Increasing(idx)
    ensures IsSubsequence(Select(f, idx).index, f.index)
  {
    assert SubsequenceWitness(Select(f, idx).index, f.index, idx);
  }

  lemma SubsequenceTrans(a: seq<int>, b: seq<int>, c: seq<int>)
    requires IsSubsequence(a, b) && IsSubsequence(b, c)
    ensures IsSubsequence(a, c)
  {
    var i1 :| SubsequenceWitness(a, b, i1);
    var i2 :| SubsequenceWitness(b, c, i2);
    var i3 := seq(|a|, k requires 0 <= k < |a| => i2[i1[k]]);
    assert SubsequenceWitness(a, c, i3);
  }

  /** Selecting rows at increasing positions keeps labels pairwise distinct. */
  lemma SelectDistinctLabels(f: Frame, idx: seq<nat>)
    requires WellFormed(f) && IndicesIn(idx, |f.index|) && Increasing(idx)
    requires DistinctLabels(f.index)
    ensures DistinctLabels(Select(f, idx).index)
  {
  }
}
