/**
 * What the cleaning stages and the composed pipeline guarantee, stated on the stage
 * functions of `Stages`.
 */
module Properties {
  import opened Wrappers
  import opened Text
  import opened Frames
  import opened Stages

  // ===========================================================================
  // Stage 1: numeric coercion
  // ===========================================================================

  /** Coercing a column twice is the same as once. */
  lemma NumericColumnIdempotent(col: Column)
    ensures NumericColumn(NumericColumn(col)) == NumericColumn(col)
  {
    assert NumericColumn(NumericColumn(col)).cells == NumericColumn(col).cells;
  }

  /** A second `check_if_numeric` changes nothing. */
  lemma CoerceNumericIdempotent(f: Frame)
    requires WellFormed(f)
    ensures CoerceNumeric(CoerceNumeric(f)) == CoerceNumeric(f)
  {
    var once := CoerceNumeric(f);
    var twice := CoerceNumeric(once);
    forall c | c in once.columns
      ensures twice.columns[c] == once.columns[c]
    {
      if c in NumericCols {
        assert twice.columns[c].cells == once.columns[c].cells;
      }
    }
    assert twice.columns == once.columns;
  }

  /**
   * `check_if_numeric` logs an error for a column exactly when the column is listed and
   * absent, and logs nothing about dates.
   */
  lemma {:induction false} NumericLogAbsent(names: seq<string>, present: set<string>, c: string)
    ensures NumericConversionFailed(c) in NumericLog(names, present) <==> c in names && c !in present
    ensures DateConversionFailed(c) !in NumericLog(names, present)
  {
    if names != [] {
      var init := names[..|names| - 1];
      NumericLogAbsent(init, present, c);
      assert names == init + [names[|names| - 1]];
    }
  }

  // ===========================================================================
  // Stage 2: sign normalisation
  // ===========================================================================

  /** A second `convert_to_positive` changes nothing. */
  lemma AbsNumericIdempotent(f: Frame)
    requires WellFormed(f)
    ensures AbsNumeric(AbsNumeric(f)) == AbsNumeric(f)
  {
    var once := AbsNumeric(f);
    var twice := AbsNumeric(once);
    forall c | c in once.columns
      ensures twice.columns[c] == once.columns[c]
    {
      if once.columns[c].dtype == Numeric {
        assert twice.columns[c].cells == once.columns[c].cells;
      }
    }
    assert twice.columns == once.columns;
  }

  // ===========================================================================
  // Stage 3: date parsing
  // ===========================================================================

  /** `"Mon-YYYY"` as `%b-%Y` prints it becomes the first day of that month. */
  lemma DateCellRoundTrip(year: int, month: int)
    requires 1 <= year <= 9999 && 1 <= month <= 12
    ensures DateCell(Text(MonthYearText(year, month))) == Some(Date(year, month, 1))
  {
    var s := MonthYearText(year, month);
    assert s !in NaTStrings by {
      assert forall u :: u in NaTStrings ==> |u| <= 3;
    }
    ParseMonthYearText(year, month);
  }

  /** A converted date column holds dates and nulls only, so converting it again changes nothing. */
  lemma ParseDateColumnIdempotent(col: Column)
    requires ParseDateColumn(col).Some?
    ensures ParseDateColumn(ParseDateColumn(col).value) == ParseDateColumn(col)
  {
    var once := ParseDateColumn(col).value;
    assert forall i :: 0 <= i < |once.cells| ==> DateCell(once.cells[i]) == Some(once.cells[i]);
    assert ParseDateColumn(once).value.cells == once.cells;
  }

  /** A second `convert_to_date` changes nothing. */
  lemma ParseDatesIdempotent(f: Frame)
    requires WellFormed(f)
    ensures ParseDates(ParseDates(f)) == ParseDates(f)
  {
    var once := ParseDates(f);
    var twice := ParseDates(once);
    forall c | c in once.columns
      ensures twice.columns[c] == once.columns[c]
    {
      if c in DateCols && ParseDateColumn(f.columns[c]).Some? {
        ParseDateColumnIdempotent(f.columns[c]);
      }
    }
    assert twice.columns == once.columns;
  }

  /**
   * `convert_to_date` logs an error for a column exactly when the column is listed and is
   * absent or fails to parse.
   */
  lemma {:induction false} DateLogFailed(names: seq<string>, columns: map<string, Column>, c: string)
    ensures DateConversionFailed(c) in DateLog(names, columns) <==>
      c in names && (c !in columns || ParseDateColumn(columns[c]).None?)
    ensures NumericConversionFailed(c) !in DateLog(names, columns)
  {
    if names != [] {
      var init := names[..|names| - 1];
      DateLogFailed(init, columns, c);
      assert names == init + [names[|names| - 1]];
    }
  }

  // ===========================================================================
  // Stage 4: "n/a" and duplicates
  // ===========================================================================

  /** Every row has a first occurrence: an equal row at or before it that repeats no earlier row. */
  lemma {:induction false} FirstOccurrence(f: Frame, i: nat) returns (j: nat)
    requires WellFormed(f) && i < |f.index|
    ensures j <= i && Row(f, j) == Row(f, i) && !IsRepeat(f, j)
    decreases i
  {
    if IsRepeat(f, i) {
      var j' :| 0 <= j' < i && Row(f, j') == Row(f, i);
      j := FirstOccurrence(f, j');
    } else {
      j := i;
    }
  }

  /** After `drop_duplicates` no two rows are equal. */
  lemma DropDuplicatesDistinct(f: Frame)
    requires WellFormed(f)
    ensures var r := DropDuplicates(f);
      forall k1, k2 :: 0 <= k1 < k2 < |r.index| ==> Row(r, k1) != Row(r, k2)
  {
    var idx := FirstOccurrences(f);
    var r := DropDuplicates(f);
    forall k1, k2 | 0 <= k1 < k2 < |r.index|
      ensures Row(r, k1) != Row(r, k2)
    {
      SelectRow(f, idx, k1);
      SelectRow(f, idx, k2);
      assert idx[k2] in idx;
    }
  }

  /** Every row of the input is still represented after `drop_duplicates`. */
  lemma DropDuplicatesComplete(f: Frame, i: nat)
    requires WellFormed(f) && i < |f.index|
    ensures var r := DropDuplicates(f);
      exists k :: 0 <= k < |r.index| && Row(r, k) == Row(f, i)
  {
    var j := FirstOccurrence(f, i);
    var idx := FirstOccurrences(f);
    assert j in idx;
    var k :| 0 <= k < |idx| && idx[k] == j;
    SelectRow(f, idx, k);
    var r := DropDuplicates(f);
    assert 0 <= k < |r.index| && Row(r, k) == Row(f, i);
  }

  /** Kept rows appear in their original order with their original labels. */
  lemma DropDuplicatesKeepsOrder(f: Frame)
    requires WellFormed(f)
    ensures IsSubsequence(DropDuplicates(f).index, f.index)
  {
    SelectSubsequence(f, FirstOccurrences(f));
  }

  /** Two equal rows leave exactly one row behind: the first. */
  lemma DuplicatePairCollapses(f: Frame, i: nat, j: nat)
    requires WellFormed(f) && i < j < |f.index| && Row(f, i) == Row(f, j)
    ensures j !in FirstOccurrences(f)
  {
  }

  /** A frame without duplicate rows passes through `drop_duplicates` unchanged. */
  lemma DropDuplicatesNoop(f: Frame)
    requires WellFormed(f)
    requires forall i, j :: 0 <= i < j < |f.index| ==> Row(f, i) != Row(f, j)
    ensures DropDuplicates(f) == f
  {
    PositionsAll(KeepMask(f));
    SelectAll(f);
  }

  /** A second `drop_duplicates` changes nothing. */
  lemma DropDuplicatesIdempotent(f: Frame)
    requires WellFormed(f)
    ensures DropDuplicates(DropDuplicates(f)) == DropDuplicates(f)
  {
    DropDuplicatesDistinct(f);
    DropDuplicatesNoop(DropDuplicates(f));
  }

  // ===========================================================================
  // Stage 4: emp_length and term
  // ===========================================================================

  /** `"<n> years"` is re-encoded to the digits of `n`. */
  lemma EmpLengthYears(n: nat)
    ensures EmpLengthCell(Text(NatText(n) + " years")) == Text(NatText(n))
  {
    var s := NatText(n) + " years";
    assert s != "10+ years" by {
      if |s| == 9 { assert s[2] == NatText(n)[2]; }
    }
    assert s[0] == NatText(n)[0];
    assert NoDigits(" years");
    KeepDigitsAppend(NatText(n), " years");
    assert NatText(n) + [] == NatText(n);
  }

  /** Re-encoding `emp_length` twice is the same as once. */
  lemma EmpLengthCellIdempotent(c: Cell)
    ensures EmpLengthCell(EmpLengthCell(c)) == EmpLengthCell(c)
  {
    if c.Text? {
      var r := EmpLengthCell(c);
      assert r.s != "10+ years" by { if |r.s| == 9 { assert IsDigit(r.s[2]) && !IsDigit("10+ years"[2]); } }
      assert r.s != "< 1 year" by { if |r.s| == 8 { assert IsDigit(r.s[0]) && !IsDigit("< 1 year"[0]); } }
    }
  }

  /**
   * `emp_length` is a listed numeric column, so any text `pd.to_numeric` cannot read has
   * become 0 before the re-encoding runs; the re-encoding then leaves that 0 alone.
   */
  lemma EmpLengthTextCoercedFirst(s: string)
    requires ParseDecimal(s).None?
    ensures EmpLengthCell(NaToNull(AbsCell(ToNumeric(Text(s))))) == Num(0.0)
  {
  }

  /** In particular `"<n> years"`, `"10+ years"` and `"< 1 year"` all end as 0 in the pipeline. */
  lemma EmpLengthYearsBecomeZero(n: nat)
    ensures EmpLengthCell(NaToNull(AbsCell(ToNumeric(Text(NatText(n) + " years"))))) == Num(0.0)
    ensures EmpLengthCell(NaToNull(AbsCell(ToNumeric(Text("10+ years"))))) == Num(0.0)
    ensures EmpLengthCell(NaToNull(AbsCell(ToNumeric(Text("< 1 year"))))) == Num(0.0)
  {
    var s := NatText(n) + " years";
    assert !IsNumeral(s[|NatText(n)|]);
    assert !IsNumeral("10+ years"[3]);
    assert !IsNumeral("< 1 year"[0]);
  }

  /** A token between leading blanks and a blank-led tail is what `term` parses. */
  lemma TermOfPaddedToken(lead: string, t: string, tail: string, v: int)
    requires AllSpace(lead) && t != [] && NoSpace(t) && (tail == [] || IsSpace(tail[0]))
    requires ParseInt(t) == Some(v)
    ensures TermCell(Text(lead + t + tail)) == Some(Num(v as real))
  {
    FirstTokenOfPadded(lead, t, tail);
  }

  /**
   * A first token that `int` does not read (`"abc"`, `"3.5"`) raises, so the cell aborts the
   * run whatever follows it.
   */
  lemma TermNonInteger(lead: string, t: string, tail: string)
    requires AllSpace(lead) && t != [] && NoSpace(t) && (tail == [] || IsSpace(tail[0]))
    requires ParseInt(t).None?
    ensures TermCell(Text(lead + t + tail)).None?
  {
    FirstTokenOfPadded(lead, t, tail);
  }

  /** `term` text of the shape `"<ws><n><ws><word>..."` becomes the integer `n`. */
  lemma TermRoundTrip(n: nat, lead: string, tail: string)
    requires AllSpace(lead) && (tail == [] || IsSpace(tail[0]))
    ensures TermCell(Text(lead + NatText(n) + tail)) == Some(Num(n as real))
  {
    ParseIntNatText(n);
    TermOfPaddedToken(lead, NatText(n), tail, n);
  }

  /**
   * The sign survives: the token `neg == "-<n>"` in `"<ws>-<n> months"` becomes `-n`, so
   * `term` can hold a negative number although `convert_to_positive` ran before it.
   */
  lemma TermKeepsSign(n: nat, v: int, neg: string, lead: string, tail: string)
    requires n > 0 && v == -(n as int) && neg == "-" + NatText(n)
    requires AllSpace(lead) && (tail == [] || IsSpace(tail[0]))
    ensures TermCell(Text(lead + neg + tail)) == Some(Num(v as real)) && v < 0
  {
    NegativeToken(n, neg, v);
    TermOfPaddedToken(lead, neg, tail, v);
  }

  /** `"-<n>"` is one token that parses to `-n`. */
  lemma NegativeToken(n: nat, neg: string, v: int)
    requires neg == "-" + NatText(n) && v == -(n as int)
    ensures neg != [] && NoSpace(neg) && ParseInt(neg) == Some(v)
  {
    NegativeTextNoSpace(n);
    ParseIntNatText(n);
  }

  /** A null, a number, or a blank `term` raises, aborting the run. */
  lemma TermRejects(c: Cell)
    requires c.Null? || c.Num? || (c.Text? && AllSpace(c.s))
    ensures TermCell(c).None?
  {
    if c.Text? {
      assert c.s + [] == c.s;
      LStripPadded(c.s, []);
      assert Strip(c.s) == [];
    }
  }

  // ===========================================================================
  // Stage 4: defaults and the member_id drop
  // ===========================================================================

  /** `~pd.isna(df['member_id'])`. */
  function MemberMask(f: Frame): (m: seq<bool>)
    requires WellFormed(f) && "member_id" in f.columns
    ensures |m| == |f.index| && forall i :: 0 <= i < |f.index| ==> (m[i] <==> f.columns["member_id"].cells[i] != Null)
  {
    seq(|f.index|, i requires 0 <= i < |f.index| => f.columns["member_id"].cells[i] != Null)
  }

  /**
   * With distinct index labels (as `read_csv` produces), dropping by label removes exactly the
   * rows whose `member_id` is null: every other row is kept, in order.
   */
  lemma DropNullMemberExact(f: Frame)
    requires WellFormed(f) && "member_id" in f.columns && DistinctLabels(f.index)
    ensures DropNullMember(f) == Select(f, Positions(MemberMask(f)))
  {
    var labels := NullMemberLabels(f);
    forall i | 0 <= i < |f.index|
      ensures LabelMask(f.index, labels)[i] == MemberMask(f)[i]
    {
      if f.index[i] in labels {
        var j :| 0 <= j < |f.index| && f.columns["member_id"].cells[j] == Null && f.index[j] == f.index[i];
        assert i == j;
      }
    }
    assert LabelMask(f.index, labels) == MemberMask(f);
  }
}
