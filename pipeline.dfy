/**
 * What `clean_and_validate` guarantees as a whole: the listed numeric columns end up
 * non-negative numbers, the rows that come out are a subsequence of the rows that went in,
 * the defaults are in place, and the run aborts without the columns `miscellaneous` indexes.
 */
module Pipeline {
  import opened Wrappers
  import opened Text
  import opened Frames
  import opened Stages
  import opened Properties

  /** Column `c` is present and holds only non-negative numbers. */
  predicate CleanNumeric(f: Frame, c: string) {
    c in f.columns && f.columns[c].dtype == Numeric
    && AllNum(f.columns[c].cells) && NonNegative(f.columns[c].cells)
  }

  /** Column `c` is present and holds no null. */
  predicate Filled(f: Frame, c: string) {
    c in f.columns && NoNull(f.columns[c].cells)
  }

  // ===========================================================================
  // Frame conditions of the row-level operations
  // ===========================================================================

  /** Selecting rows keeps a column's dtype and every per-cell fact. */
  lemma SelectKeeps(f: Frame, idx: seq<nat>, c: string)
    requires WellFormed(f) && IndicesIn(idx, |f.index|) && c in f.columns
    ensures var g := Select(f, idx).columns[c];
      && g.dtype == f.columns[c].dtype
      && (AllNum(f.columns[c].cells) ==> AllNum(g.cells))
      && (NonNegative(f.columns[c].cells) ==> NonNegative(g.cells))
      && (NoNull(f.columns[c].cells) ==> NoNull(g.cells))
  {
    var cells := f.columns[c].cells;
    var picked := Select(f, idx).columns[c].cells;
    assert forall k :: 0 <= k < |picked| ==> picked[k] == cells[idx[k]];
  }

  /** Filling nulls leaves a column without nulls exactly as it was. */
  lemma FillNoNull(col: Column, v: Cell)
    requires (v.Num? || v.Text?) && NoNull(col.cells)
    ensures FillNull(col, v) == col
  {
    var r := FillNull(col, v);
    assert r.cells == col.cells;
  }

  /** `fillna` on any column keeps a numeric column's content; on column `c` it removes the nulls. */
  lemma FillKeeps(f: Frame, name: string, v: Cell, c: string)
    requires WellFormed(f) && name in f.columns && (v.Num? || v.Text?) && c in f.columns
    ensures var g := FillColumn(f, name, v);
      && (AllNum(f.columns[c].cells) ==> g.columns[c] == f.columns[c])
      && (NoNull(f.columns[c].cells) ==> NoNull(g.columns[c].cells))
      && (c == name ==> NoNull(g.columns[c].cells))
  {
    if c == name && NoNull(f.columns[c].cells) {
      FillNoNull(f.columns[c], v);
    }
    if c == name && AllNum(f.columns[c].cells) {
      assert NoNull(f.columns[c].cells);
      FillNoNull(f.columns[c], v);
    }
  }

  // ===========================================================================
  // The first three stages
  // ===========================================================================

  /** No column is both a numeric and a date column, and `term` is neither. */
  lemma NumericNotDate(c: string)
    requires c in NumericCols
    ensures c !in DateCols && c != "term"
  {
  }

  lemma TermNotListed()
    ensures "term" !in NumericCols && "term" !in DateCols
  {
  }

  /** After the first three stages every listed numeric column that is present is clean. */
  lemma PrepareNumeric(f: Frame, c: string)
    requires WellFormed(f) && c in f.columns && c in NumericCols
    ensures CleanNumeric(Prepare(f), c)
  {
    var f1 := CoerceNumeric(f);
    var f2 := AbsNumeric(f1);
    assert f2.columns[c].dtype == Numeric;
    assert AllNum(f2.columns[c].cells);
    NumericNotDate(c);
  }

  /** The first three stages map a numeric column that holds only numbers to one that still does. */
  lemma PrepareKeepsAllNum(f: Frame, c: string)
    requires WellFormed(f) && c in f.columns && c !in NumericCols && c !in DateCols
    requires AllNum(f.columns[c].cells)
    ensures AllNum(Prepare(f).columns[c].cells)
  {
    var f2 := AbsNumeric(CoerceNumeric(f));
    assert AllNum(f2.columns[c].cells);
  }

  // ===========================================================================
  // miscellaneous, in two parts
  // ===========================================================================

  /** `drop_duplicates` never empties a non-empty frame: its first row is always kept. */
  lemma DropDuplicatesNonEmpty(f: Frame)
    requires WellFormed(f) && |f.index| > 0
    ensures |DropDuplicates(f).index| > 0
  {
    assert !IsRepeat(f, 0);
    assert 0 in FirstOccurrences(f);
  }

  /** `emp_length` re-encoding leaves a column of numbers as it is. */
  lemma EmpLengthAllNum(col: Column)
    requires AllNum(col.cells)
    ensures EmpLength(col) == col
  {
    assert EmpLength(col).cells == col.cells;
  }

  /** The rows the re-encoding part keeps: in order, distinct if they were, never none of them. */
  lemma ReencodeRows(f: Frame)
    requires WellFormed(f) && Reencode(f).Ok?
    ensures var g := Reencode(f).value;
      && IsSubsequence(g.index, f.index)
      && (DistinctLabels(f.index) ==> DistinctLabels(g.index))
      && (|f.index| > 0 ==> |g.index| > 0)
      && "emp_length" in f.columns && "term" in f.columns
  {
    var f0 := ReplaceNa(f);
    var idx := FirstOccurrences(f0);
    SelectSubsequence(f0, idx);
    if DistinctLabels(f.index) {
      SelectDistinctLabels(f0, idx);
    }
    if |f.index| > 0 {
      DropDuplicatesNonEmpty(f0);
    }
  }

  /** A clean column other than `term` is still clean after the re-encoding part. */
  lemma ReencodeClean(f: Frame, c: string)
    requires WellFormed(f) && Reencode(f).Ok? && c != "term" && CleanNumeric(f, c)
    ensures CleanNumeric(Reencode(f).value, c)
  {
    var f0 := ReplaceNa(f);
    var idx := FirstOccurrences(f0);
    var f1 := DropDuplicates(f0);
    assert f0.columns[c] == f.columns[c] by {
      assert f0.columns[c].cells == f.columns[c].cells;
    }
    SelectKeeps(f0, idx, c);
    if c == "emp_length" {
      EmpLengthAllNum(f1.columns[c]);
    }
  }

  /** What the re-encoding part keeps: rows in order, and clean columns other than `term`. */
  lemma ReencodeFacts(f: Frame)
    requires WellFormed(f) && Reencode(f).Ok?
    ensures var g := Reencode(f).value;
      && IsSubsequence(g.index, f.index)
      && (DistinctLabels(f.index) ==> DistinctLabels(g.index))
      && (|f.index| > 0 ==> |g.index| > 0)
      && "emp_length" in f.columns && "term" in f.columns
      && (forall c :: c != "term" && CleanNumeric(f, c) ==> CleanNumeric(g, c))
  {
    ReencodeRows(f);
    forall c | c != "term" && CleanNumeric(f, c)
      ensures CleanNumeric(Reencode(f).value, c)
    {
      ReencodeClean(f, c);
    }
  }

  /** The defaults and the `member_id` drop, with the frame conditions they keep. */
  lemma FillAndDropFacts(f: Frame)
    requires WellFormed(f) && FillAndDrop(f).Ok?
    ensures "annual_inc" in f.columns && "verification_status" in f.columns && "member_id" in f.columns
    ensures "delinq_2yrs" in f.columns && "inq_last_6mths" in f.columns
    ensures var g := FillAndDrop(f).value;
      && IsSubsequence(g.index, f.index)
      && (DistinctLabels(f.index) ==> DistinctLabels(g.index))
      && Filled(g, "annual_inc") && Filled(g, "verification_status") && Filled(g, "member_id")
      && Filled(g, "delinq_2yrs") && Filled(g, "inq_last_6mths")
      && (forall c :: c in f.columns && AllNum(f.columns[c].cells) ==>
            && g.columns[c].dtype == f.columns[c].dtype && AllNum(g.columns[c].cells)
            && (NonNegative(f.columns[c].cells) ==> NonNegative(g.columns[c].cells)))
  {
    var f1 := FillColumn(f, "annual_inc", Num(0.0));
    var f2 := FillColumn(f1, "verification_status", Text("Not Verified"));
    var idx := Kept(f2.index, NullMemberLabels(f2));
    var f3 := DropNullMember(f2);
    var f4 := FillColumn(f3, "delinq_2yrs", Num(0.0));
    var g := FillColumn(f4, "inq_last_6mths", Num(0.0));
    assert g == FillAndDrop(f).value;
    SelectSubsequence(f2, idx);
    if DistinctLabels(f.index) {
      SelectDistinctLabels(f2, idx);
    }
    FillKeeps(f, "annual_inc", Num(0.0), "annual_inc");
    FillKeeps(f1, "verification_status", Text("Not Verified"), "annual_inc");
    FillKeeps(f1, "verification_status", Text("Not Verified"), "verification_status");
    forall c | c in {"annual_inc", "verification_status", "member_id"}
      ensures Filled(f4, c) && Filled(g, c)
    {
      if c != "member_id" {
        SelectKeeps(f2, idx, c);
      }
      FillKeeps(f3, "delinq_2yrs", Num(0.0), c);
      FillKeeps(f4, "inq_last_6mths", Num(0.0), c);
    }
    FillKeeps(f3, "delinq_2yrs", Num(0.0), "delinq_2yrs");
    FillKeeps(f4, "inq_last_6mths", Num(0.0), "delinq_2yrs");
    FillKeeps(f4, "inq_last_6mths", Num(0.0), "inq_last_6mths");
    forall c | c in f.columns && AllNum(f.columns[c].cells)
      ensures && g.columns[c].dtype == f.columns[c].dtype && AllNum(g.columns[c].cells)
              && (NonNegative(f.columns[c].cells) ==> NonNegative(g.columns[c].cells))
    {
      FillKeeps(f, "annual_inc", Num(0.0), c);
      FillKeeps(f1, "verification_status", Text("Not Verified"), c);
      SelectKeeps(f2, idx, c);
      FillKeeps(f3, "delinq_2yrs", Num(0.0), c);
      FillKeeps(f4, "inq_last_6mths", Num(0.0), c);
    }
  }

  /**
   * With distinct index labels, `FillAndDrop` keeps exactly the rows whose `member_id` is
   * present, in order; the four filled columns hold their defaults where the input was null
   * and the input's cell elsewhere, and every other column is the input's, row for row.
   */
  lemma FillAndDropDefaults(f: Frame)
    requires WellFormed(f) && FillAndDrop(f).Ok? && DistinctLabels(f.index)
    ensures "annual_inc" in f.columns && "verification_status" in f.columns && "member_id" in f.columns
    ensures "delinq_2yrs" in f.columns && "inq_last_6mths" in f.columns
    ensures var g := FillAndDrop(f).value; var idx := Positions(MemberMask(f));
      && g.index == Pick(f.index, idx)
      && (forall k :: 0 <= k < |idx| ==>
            && g.columns["annual_inc"].cells[k] == Default(f.columns["annual_inc"].cells[idx[k]], Num(0.0))
            && g.columns["verification_status"].cells[k]
                 == Default(f.columns["verification_status"].cells[idx[k]], Text("Not Verified"))
            && g.columns["delinq_2yrs"].cells[k] == Default(f.columns["delinq_2yrs"].cells[idx[k]], Num(0.0))
            && g.columns["inq_last_6mths"].cells[k] == Default(f.columns["inq_last_6mths"].cells[idx[k]], Num(0.0)))
      && (forall c ::
            c in f.columns && c != "annual_inc" && c != "verification_status" && c != "delinq_2yrs" && c != "inq_last_6mths"
            ==> g.columns[c] == Select(f, idx).columns[c])
  {
    FillAndDropFacts(f);
    var f1 := FillColumn(f, "annual_inc", Num(0.0));
    var f2 := FillColumn(f1, "verification_status", Text("Not Verified"));
    var f3 := DropNullMember(f2);
    var f4 := FillColumn(f3, "delinq_2yrs", Num(0.0));
    var g := FillColumn(f4, "inq_last_6mths", Num(0.0));
    assert g == FillAndDrop(f).value;
    var idx := Positions(MemberMask(f));
    assert MemberMask(f2) == MemberMask(f);
    DropNullMemberExact(f2);
    assert f3 == Select(f2, idx);
    forall k | 0 <= k < |idx|
      ensures g.columns["annual_inc"].cells[k] == Default(f.columns["annual_inc"].cells[idx[k]], Num(0.0))
      ensures g.columns["verification_status"].cells[k]
                == Default(f.columns["verification_status"].cells[idx[k]], Text("Not Verified"))
      ensures g.columns["delinq_2yrs"].cells[k] == Default(f.columns["delinq_2yrs"].cells[idx[k]], Num(0.0))
      ensures g.columns["inq_last_6mths"].cells[k] == Default(f.columns["inq_last_6mths"].cells[idx[k]], Num(0.0))
    {
      assert f3.columns["annual_inc"].cells[k] == f2.columns["annual_inc"].cells[idx[k]];
      assert f3.columns["verification_status"].cells[k] == f2.columns["verification_status"].cells[idx[k]];
      assert f3.columns["delinq_2yrs"].cells[k] == f.columns["delinq_2yrs"].cells[idx[k]];
      assert f3.columns["inq_last_6mths"].cells[k] == f.columns["inq_last_6mths"].cells[idx[k]];
    }
  }

  /**
   * Duplicates are removed before the re-encoding: two rows that `drop_duplicates` keeps
   * because their `term` texts differ (`" 36 months"` and `"36 months"`) are equal rows
   * once `term` is parsed.
   */
  lemma DuplicatesSurviveReencoding(f: Frame, k1: nat, k2: nat)
    requires WellFormed(f) && Reencode(f).Ok?
    requires var d := DropDuplicates(ReplaceNa(f));
      && k1 < k2 < |d.index| && "term" in d.columns
      && (forall c :: c in d.columns && c != "term" ==> d.columns[c].cells[k1] == d.columns[c].cells[k2])
      && TermCell(d.columns["term"].cells[k1]) == TermCell(d.columns["term"].cells[k2])
    ensures var d := DropDuplicates(ReplaceNa(f));
      Row(d, k1) != Row(d, k2)
    ensures var g := Reencode(f).value;
      Row(g, k1) == Row(g, k2)
  {
    DropDuplicatesDistinct(ReplaceNa(f));
    ReencodedRowsCollide(DropDuplicates(ReplaceNa(f)), k1, k2);
  }

  /** The two-row frame with columns `term` and `emp_length`. */
  lemma TwoRowsShape(a: Cell, b: Cell, e: Cell, f: Frame)
    requires f == Frame(map["term" := Column(Object, [a, b]), "emp_length" := Column(Numeric, [e, e])], [0, 1])
    requires e.Num?
    ensures WellFormed(f)
    ensures "term" in f.columns && f.columns["term"] == Column(Object, [a, b]) && "emp_length" in f.columns
    ensures forall c :: c in f.columns && c != "term" ==> f.columns[c].cells[0] == f.columns[c].cells[1]
  {
  }

  /** Without `"n/a"` in it, the replacement leaves the two-row frame as it is. */
  lemma TwoRowsNoNa(a: Cell, b: Cell, e: Cell, f: Frame)
    requires f == Frame(map["term" := Column(Object, [a, b]), "emp_length" := Column(Numeric, [e, e])], [0, 1])
    requires a != Text("n/a") && b != Text("n/a") && e.Num?
    ensures WellFormed(f) && ReplaceNa(f) == f
  {
    TwoRowsShape(a, b, e, f);
    var f0 := ReplaceNa(f);
    forall c | c in f.columns
      ensures f0.columns[c] == f.columns[c]
    {
      assert f0.columns[c].cells == f.columns[c].cells;
    }
  }

  /** Two different rows without `"n/a"` pass the replacement and `drop_duplicates` unchanged. */
  lemma TwoRowsKept(a: Cell, b: Cell, e: Cell, f: Frame)
    requires f == Frame(map["term" := Column(Object, [a, b]), "emp_length" := Column(Numeric, [e, e])], [0, 1])
    requires a != b && a != Text("n/a") && b != Text("n/a") && e.Num?
    ensures WellFormed(f) && DropDuplicates(ReplaceNa(f)) == f
  {
    TwoRowsShape(a, b, e, f);
    TwoRowsNoNa(a, b, e, f);
    assert Row(f, 0)["term"] != Row(f, 1)["term"];
    DropDuplicatesNoop(f);
  }

  /**
   * Two rows whose `term` texts differ but parse alike, with equal `emp_length`, both
   * survive `drop_duplicates` and are equal rows afterwards.
   */
  lemma TwoRowsCollide(a: Cell, b: Cell, e: Cell, f: Frame)
    requires f == Frame(map["term" := Column(Object, [a, b]), "emp_length" := Column(Numeric, [e, e])], [0, 1])
    requires a != b && a != Text("n/a") && b != Text("n/a") && e.Num?
    requires TermCell(a).Some? && TermCell(a) == TermCell(b)
    ensures WellFormed(f) && Reencode(f).Ok? && Reencode(f).value.index == [0, 1]
    ensures Row(Reencode(f).value, 0) == Row(Reencode(f).value, 1)
  {
    TwoRowsShape(a, b, e, f);
    TwoRowsKept(a, b, e, f);
    TwoTermsParse(a, b);
    assert Reencode(f).Ok?;
    DuplicatesSurviveReencoding(f, 0, 1);
  }

  lemma TwoTermsParse(a: Cell, b: Cell)
    requires TermCell(a).Some? && TermCell(b).Some?
    ensures ParseTermColumn(Column(Object, [a, b])).Some?
  {
    var cells := [a, b];
    assert forall i :: 0 <= i < |cells| ==> TermCell(cells[i]).Some?;
  }

  /** Such a pair exists: `term` written `" 36 months"` and `"36 months"`. */
  lemma DuplicatesSurviveExample(digits: string, padded: string, plain: string)
    requires digits == "36" && padded == " " + digits + " months" && plain == digits + " months"
    ensures var f := Frame(map["term" := Column(Object, [Text(padded), Text(plain)]),
                               "emp_length" := Column(Numeric, [Num(0.0), Num(0.0)])], [0, 1]);
      && WellFormed(f) && Reencode(f).Ok?
      && Reencode(f).value.index == [0, 1]
      && Row(Reencode(f).value, 0) == Row(Reencode(f).value, 1)
  {
    assert NatText(36) == digits;
    assert plain == [] + digits + " months";
    TermRoundTrip(36, " ", " months");
    TermRoundTrip(36, [], " months");
    assert padded[0] != plain[0];
    var f := Frame(map["term" := Column(Object, [Text(padded), Text(plain)]),
                       "emp_length" := Column(Numeric, [Num(0.0), Num(0.0)])], [0, 1]);
    TwoRowsCollide(Text(padded), Text(plain), Num(0.0), f);
  }

  /** Rows equal outside `term`, with `term` texts that parse alike, are equal after the re-encoding. */
  lemma ReencodedRowsCollide(d: Frame, k1: nat, k2: nat)
    requires WellFormed(d) && ReencodeColumns(d).Ok?
    requires k1 < k2 < |d.index| && "term" in d.columns
    requires forall c :: c in d.columns && c != "term" ==> d.columns[c].cells[k1] == d.columns[c].cells[k2]
    requires TermCell(d.columns["term"].cells[k1]) == TermCell(d.columns["term"].cells[k2])
    ensures var g := ReencodeColumns(d).value;
      Row(g, k1) == Row(g, k2)
  {
    var g := ReencodeColumns(d).value;
    forall c | c in g.columns
      ensures g.columns[c].cells[k1] == g.columns[c].cells[k2]
    {
      if c == "term" {
        assert g.columns[c] == ParseTermColumn(d.columns[c]).value;
        TermCellsCollide(d.columns[c], k1, k2);
      } else if c == "emp_length" {
        assert g.columns[c] == EmpLength(d.columns[c]);
        EmpLengthCellsCollide(d.columns[c], k1, k2);
      } else {
        assert g.columns[c] == d.columns[c];
      }
    }
    RowsEqual(g, k1, k2);
  }

  /** Two `term` cells that parse alike are equal in the parsed column. */
  lemma TermCellsCollide(col: Column, k1: nat, k2: nat)
    requires ParseTermColumn(col).Some? && k1 < |col.cells| && k2 < |col.cells|
    requires TermCell(col.cells[k1]) == TermCell(col.cells[k2])
    ensures var t := ParseTermColumn(col).value.cells;
      k1 < |t| && k2 < |t| && t[k1] == t[k2]
  {
    var t := ParseTermColumn(col).value.cells;
    assert Some(t[k1]) == TermCell(col.cells[k1]);
    assert Some(t[k2]) == TermCell(col.cells[k2]);
  }

  /** Two equal `emp_length` cells are equal after the re-encoding. */
  lemma EmpLengthCellsCollide(col: Column, k1: nat, k2: nat)
    requires k1 < |col.cells| && k2 < |col.cells| && col.cells[k1] == col.cells[k2]
    ensures var e := EmpLength(col).cells;
      e[k1] == e[k2]
  {
    var e := EmpLength(col).cells;
    assert e[k1] == EmpLengthCell(col.cells[k1]);
    assert e[k2] == EmpLengthCell(col.cells[k2]);
  }

  // ===========================================================================
  // clean_and_validate
  // ===========================================================================

  /** `clean_and_validate` succeeds exactly when both parts of `miscellaneous` do. */
  lemma Steps(f: Frame)
    requires WellFormed(f)
    ensures CleanAndValidate(f).Ok? <==> Reencode(Prepare(f)).Ok? && FillAndDrop(Reencode(Prepare(f)).value).Ok?
    ensures CleanAndValidate(f).Ok? ==> CleanAndValidate(f) == FillAndDrop(Reencode(Prepare(f)).value)
  {
  }

  /** Every listed numeric column that is present comes out holding only non-negative numbers. */
  lemma PipelineNumeric(f: Frame)
    requires WellFormed(f) && CleanAndValidate(f).Ok?
    ensures var g := CleanAndValidate(f).value;
      forall c :: c in NumericCols && c in f.columns ==> CleanNumeric(g, c)
  {
    var p := Prepare(f);
    var h := Reencode(p).value;
    Steps(f);
    var g := FillAndDrop(h).value;
    ReencodeFacts(p);
    FillAndDropFacts(h);
    forall c | c in NumericCols && c in f.columns
      ensures CleanNumeric(g, c)
    {
      NumericNotDate(c);
      PrepareNumeric(f, c);
    }
  }

  /**
   * The rows that come out are rows that went in, in their original order and under their
   * original labels; distinct labels stay distinct, and no column is added or removed.
   */
  lemma PipelineRows(f: Frame)
    requires WellFormed(f) && CleanAndValidate(f).Ok?
    ensures var g := CleanAndValidate(f).value;
      && g.columns.Keys == f.columns.Keys
      && IsSubsequence(g.index, f.index)
      && (DistinctLabels(f.index) ==> DistinctLabels(g.index))
  {
    var p := Prepare(f);
    var h := Reencode(p).value;
    Steps(f);
    var g := FillAndDrop(h).value;
    ReencodeFacts(p);
    FillAndDropFacts(h);
    SubsequenceTrans(g.index, h.index, f.index);
  }

  /**
   * A run that succeeds had every column `miscellaneous` indexes, and leaves no null
   * `member_id`, `annual_inc`, `verification_status`, `delinq_2yrs` or `inq_last_6mths`.
   */
  lemma PipelineDefaults(f: Frame)
    requires WellFormed(f) && CleanAndValidate(f).Ok?
    ensures "emp_length" in f.columns && "term" in f.columns && "annual_inc" in f.columns
    ensures "verification_status" in f.columns && "member_id" in f.columns
    ensures "delinq_2yrs" in f.columns && "inq_last_6mths" in f.columns
    ensures var g := CleanAndValidate(f).value;
      && Filled(g, "member_id") && Filled(g, "annual_inc") && Filled(g, "verification_status")
      && Filled(g, "delinq_2yrs") && Filled(g, "inq_last_6mths")
  {
    var p := Prepare(f);
    var h := Reencode(p).value;
    Steps(f);
    ReencodeFacts(p);
    FillAndDropFacts(h);
  }

  /** Without `emp_length`, or without `term`, the run raises `KeyError` for that column. */
  lemma PipelineMissingColumn(f: Frame)
    requires WellFormed(f)
    ensures "emp_length" !in f.columns ==> CleanAndValidate(f) == Err(KeyError("emp_length"))
    ensures "emp_length" in f.columns && "term" !in f.columns ==> CleanAndValidate(f) == Err(KeyError("term"))
  {
    var p := Prepare(f);
    var f1 := DropDuplicates(ReplaceNa(p));
    assert f1.columns.Keys == f.columns.Keys;
  }

  /**
   * Running the pipeline again on its own non-empty output aborts: `term` now holds numbers,
   * which `strip` rejects.
   */
  lemma PipelineRerunFails(f: Frame)
    requires WellFormed(f) && CleanAndValidate(f).Ok?
    requires |CleanAndValidate(f).value.index| > 0
    ensures CleanAndValidate(CleanAndValidate(f).value) == Err(TermError)
  {
    var p := Prepare(f);
    var h := Reencode(p).value;
    Steps(f);
    var g := FillAndDrop(h).value;
    FillAndDropFacts(h);
    TermColumnNumeric(p);
    RerunTerm(g);
  }

  /** After a successful re-encoding of a non-empty frame, `term` holds only numbers. */
  lemma TermColumnNumeric(f: Frame)
    requires WellFormed(f) && Reencode(f).Ok? && |Reencode(f).value.index| > 0
    ensures AllNum(Reencode(f).value.columns["term"].cells)
  {
    var f1 := DropDuplicates(ReplaceNa(f));
    var col := ParseTermColumn(f1.columns["term"]).value;
    assert Reencode(f).value.columns["term"] == col;
    forall i | 0 <= i < |col.cells|
      ensures col.cells[i].Num?
    {
      assert Some(col.cells[i]) == TermCell(f1.columns["term"].cells[i]);
    }
  }

  /** A non-empty frame whose `term` holds only numbers makes the pipeline raise on `term`. */
  lemma RerunTerm(g: Frame)
    requires WellFormed(g) && |g.index| > 0 && "emp_length" in g.columns && "term" in g.columns
    requires AllNum(g.columns["term"].cells)
    ensures CleanAndValidate(g) == Err(TermError)
  {
    var p := Prepare(g);
    TermNotListed();
    PrepareKeepsAllNum(g, "term");
    var f0 := ReplaceNa(p);
    assert f0.columns["term"].cells == p.columns["term"].cells;
    var idx := FirstOccurrences(f0);
    var f1 := DropDuplicates(f0);
    DropDuplicatesNonEmpty(f0);
    SelectKeeps(f0, idx, "term");
    var term := f1.columns["term"];
    assert AllNum(term.cells) && |term.cells| > 0;
    assert term.cells[0].Num?;
    assert TermCell(term.cells[0]).None?;
    assert ParseTermColumn(term).None?;
    assert ReencodeColumns(f1) == Err(TermError);
  }
}
