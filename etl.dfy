/**
 * The `ETL` class of src/etl/ETL.py as imperative code over a mutable table. Each stage
 * method changes the table in place, as the source does through `df[col] = ...` and the
 * `inplace=True` calls, and is proved to compute the stage function of `Stages`; the
 * logger is the ghost sequence of the error lines it has been given.
 */
module Etl {
  import opened Wrappers
  import opened Text
  import opened Frames
  import opened Stages
  import opened Properties
  import opened Pipeline

  /**
   * `ETL.loan_condition`: 10 for `"10+"` and 0 for `"< 1 year"`, compared after
   * `strip()`; Python's implicit `None` for everything else.
   */
  function LoanCondition(empLength: string): (r: Option<int>)
    ensures r.Some? <==> Strip(empLength) == "10+" || Strip(empLength) == "< 1 year"
    ensures r.Some? ==> r.value == (if Strip(empLength) == "10+" then 10 else 0)
  {
    if Strip(empLength) == "10+" then Some(10)
    else if Strip(empLength) == "< 1 year" then Some(0)
    else None
  }

  /** Surrounding whitespace does not matter: a padded `"10+"` still maps to 10 ... */
  lemma LoanConditionTenPlusPadded(w1: string, w2: string)
    requires AllSpace(w1) && AllSpace(w2)
    ensures LoanCondition(w1 + "10+" + w2) == Some(10)
  {
    StripPadded(w1, "10+", w2);
  }

  /** ... and a padded `"< 1 year"` to 0. */
  lemma LoanConditionUnderOnePadded(w1: string, w2: string)
    requires AllSpace(w1) && AllSpace(w2)
    ensures LoanCondition(w1 + "< 1 year" + w2) == Some(0)
  {
    StripPadded(w1, "< 1 year", w2);
  }

  /**
   * The value the data actually holds for ten years or more, `"10+ years"`, is not
   * recognised: only the bare `"10+"` is.
   */
  lemma LoanConditionTenPlusYears()
    ensures LoanCondition("10+ years") == None
  {
    StripPadded([], "10+ years", []);
    assert [] + "10+ years" + [] == "10+ years";
  }

  /** The names of the first `i + 1` entries are those of the first `i` and entry `i`. */
  lemma PrefixStep(names: seq<string>, i: nat)
    requires i < |names|
    ensures names[..i + 1] == names[..i] + [names[i]]
    ensures forall c :: c in names[..i + 1] <==> c in names[..i] || c == names[i]
  {
    assert names[..i + 1] == names[..i] + [names[i]];
  }

  /** One more numeric column adds at most its own error line to the log. */
  lemma NumericLogStep(names: seq<string>, i: nat, present: set<string>)
    requires i < |names|
    ensures NumericLog(names[..i + 1], present) == NumericLog(names[..i], present)
      + (if names[i] in present then [] else [NumericConversionFailed(names[i])])
  {
    assert names[..i + 1][..i] == names[..i];
  }

  /** One more date column adds at most its own error line to the log. */
  lemma DateLogStep(names: seq<string>, i: nat, columns: map<string, Column>)
    requires i < |names|
    ensures DateLog(names[..i + 1], columns) == DateLog(names[..i], columns)
      + (if names[i] in columns && ParseDateColumn(columns[names[i]]).Some? then [] else [DateConversionFailed(names[i])])
  {
    assert names[..i + 1][..i] == names[..i];
  }

  /** A pandas DataFrame: named columns and index labels, changed in place. */
  class DataFrame {
    var columns: map<string, Column>
    var index: seq<int>

    /** The current content. */
    function Value(): Frame
      reads this
    {
      Frame(columns, index)
    }

    predicate Valid()
      reads this
    {
      WellFormed(Value())
    }

    constructor (f: Frame)
      requires WellFormed(f)
      ensures Valid() && Value() == f
    {
      columns := f.columns;
      index := f.index;
    }

    /** `df[name] = col`. */
    method Set(name: string, col: Column)
      requires Valid() && ColumnOk(col, |index|)
      modifies this
      ensures Valid() && Value() == SetColumn(old(Value()), name, col)
    {
      columns := columns[name := col];
    }

    /** `df[name].fillna(value=v, inplace=True)`. */
    method FillNa(name: string, v: Cell)
      requires Valid() && name in columns && (v.Num? || v.Text?)
      modifies this
      ensures Valid() && Value() == FillColumn(old(Value()), name, v)
    {
      columns := columns[name := FillNull(columns[name], v)];
    }

    /** `df.replace('n/a', np.nan, inplace=True)`. */
    method ReplaceNaInPlace()
      requires Valid()
      modifies this
      ensures Valid() && Value() == ReplaceNa(old(Value()))
    {
      columns := ReplaceNa(Value()).columns;
    }

    /** `df.drop_duplicates()`: a new frame; this one is left as it is. */
    method DropDuplicateRows() returns (r: DataFrame)
      requires Valid()
      ensures fresh(r) && r.Valid() && r.Value() == DropDuplicates(Value())
    {
      r := new DataFrame(DropDuplicates(Value()));
    }

    /** `df.drop(labels, inplace=True)`. */
    method Drop(labels: set<int>)
      requires Valid()
      modifies this
      ensures Valid() && Value() == DropLabels(old(Value()), labels)
    {
      var r := DropLabels(Value(), labels);
      columns, index := r.columns, r.index;
    }
  }

  /** The `ETL` class; its logger is modelled by the error lines logged so far. */
  class ETL {
    ghost var log: seq<LogEvent>

    constructor ()
      ensures log == []
    {
      log := [];
    }

    /**
     * `check_if_numeric`: every listed column that is present is coerced to numbers with 0
     * for what does not parse; an absent one raises `KeyError`, which is logged and skipped.
     */
    method CheckIfNumeric(df: DataFrame)
      requires df.Valid()
      modifies this, df
      ensures df.Valid() && df.Value() == CoerceNumeric(old(df.Value()))
      ensures log == old(log) + NumericLog(NumericCols, old(df.columns).Keys)
    {
      CoerceColumns(df, NumericCols);
      assert df.columns == CoerceNumeric(old(df.Value())).columns;
    }

    /** The loop of `check_if_numeric`, over the column names it is given. */
    method CoerceColumns(df: DataFrame, names: seq<string>)
      requires df.Valid()
      modifies this, df
      ensures df.Valid() && df.index == old(df.index) && df.columns.Keys == old(df.columns).Keys
      ensures forall c :: c in old(df.columns) ==>
        df.columns[c] == if c in names then NumericColumn(old(df.columns)[c]) else old(df.columns)[c]
      ensures log == old(log) + NumericLog(names, old(df.columns).Keys)
    {
      ghost var start := df.columns;
      for i := 0 to |names|
        invariant df.Valid() && df.index == old(df.index) && df.columns.Keys == start.Keys
        invariant forall c :: c in start ==>
          df.columns[c] == if c in names[..i] then NumericColumn(start[c]) else start[c]
        invariant log == old(log) + NumericLog(names[..i], start.Keys)
      {
        var name := names[i];
        PrefixStep(names, i);
        NumericLogStep(names, i, start.Keys);
        if name in df.columns {
          if name in names[..i] {
            NumericColumnIdempotent(start[name]);
          }
          df.Set(name, NumericColumn(df.columns[name]));
        } else {
          log := log + [NumericConversionFailed(name)];
        }
      }
      assert names[..|names|] == names;
    }

    /**
     * `convert_to_positive`: every column whose dtype is not `object`, as `select_dtypes`
     * picks them before the loop, gets the absolute value of each cell.
     */
    method ConvertToPositive(df: DataFrame)
      requires df.Valid()
      modifies df
      ensures df.Valid() && df.Value() == AbsNumeric(old(df.Value()))
    {
      ghost var start := df.columns;
      var todo := set c | c in df.columns && df.columns[c].dtype == Numeric;
      while todo != {}
        invariant todo <= start.Keys && forall c :: c in todo ==> start[c].dtype == Numeric
        invariant df.Valid() && df.index == old(df.index) && df.columns.Keys == start.Keys
        invariant forall c :: c in start ==>
          df.columns[c] == if start[c].dtype == Numeric && c !in todo then AbsColumn(start[c]) else start[c]
        decreases todo
      {
        var name :| name in todo;
        df.Set(name, AbsColumn(df.columns[name]));
        todo := todo - {name};
      }
      assert df.columns == AbsNumeric(old(df.Value())).columns;
    }

    /**
     * `convert_to_date`: each listed column is converted whole, or, when it is absent or
     * one of its cells does not parse, left as it was and an error logged.
     */
    method ConvertToDate(df: DataFrame)
      requires df.Valid()
      modifies this, df
      ensures df.Valid() && df.Value() == ParseDates(old(df.Value()))
      ensures log == old(log) + DateLog(DateCols, old(df.columns))
    {
      ParseColumns(df, DateCols);
      assert df.columns == ParseDates(old(df.Value())).columns;
    }

    /** The loop of `convert_to_date`, over the column names it is given. */
    method ParseColumns(df: DataFrame, names: seq<string>)
      requires df.Valid()
      modifies this, df
      ensures df.Valid() && df.index == old(df.index) && df.columns.Keys == old(df.columns).Keys
      ensures forall c :: c in old(df.columns) ==>
        df.columns[c] == if c in names && ParseDateColumn(old(df.columns)[c]).Some?
                         then ParseDateColumn(old(df.columns)[c]).value else old(df.columns)[c]
      ensures log == old(log) + DateLog(names, old(df.columns))
    {
      ghost var start := df.columns;
      for i := 0 to |names|
        invariant df.Valid() && df.index == old(df.index) && df.columns.Keys == start.Keys
        invariant forall c :: c in start ==>
          df.columns[c] == if c in names[..i] && ParseDateColumn(start[c]).Some?
                           then ParseDateColumn(start[c]).value else start[c]
        invariant log == old(log) + DateLog(names[..i], start)
      {
        var name := names[i];
        PrefixStep(names, i);
        DateLogStep(names, i, start);
        var parsed := None;
        if name in df.columns {
          if name in names[..i] && ParseDateColumn(start[name]).Some? {
            ParseDateColumnIdempotent(start[name]);
          }
          parsed := ParseDateColumn(df.columns[name]);
          assert parsed == ParseDateColumn(start[name]);
        }
        if parsed.Some? {
          df.Set(name, parsed.value);
        } else {
          log := log + [DateConversionFailed(name)];
        }
      }
      assert names[..|names|] == names;
    }

    /**
     * `miscellaneous`: "n/a" becomes null in the caller's frame; the rest works on the
     * de-duplicated copy, which is returned, or the exception that escapes.
     */
    method Miscellaneous(df: DataFrame) returns (r: Result<DataFrame, MiscError>)
      requires df.Valid()
      modifies df
      ensures df.Valid() && df.Value() == ReplaceNa(old(df.Value()))
      ensures r.Ok? <==> Stages.Miscellaneous(old(df.Value())).Ok?
      ensures r.Ok? ==> fresh(r.value) && r.value.Valid() && r.value.Value() == Stages.Miscellaneous(old(df.Value())).value
      ensures r.Err? ==> Stages.Miscellaneous(old(df.Value())) == Err(r.error)
    {
      df.ReplaceNaInPlace();
      var d := df.DropDuplicateRows();
      // The four in-place `emp_length` steps, which cannot fail once the column is there.
      if "emp_length" !in d.columns {
        return Err(KeyError("emp_length"));
      }
      d.Set("emp_length", EmpLength(d.columns["emp_length"]));
      // The two `apply` calls on `term`; either one raising aborts the run.
      if "term" !in d.columns {
        return Err(KeyError("term"));
      }
      var term := ParseTermColumn(d.columns["term"]);
      if term.None? {
        return Err(TermError);
      }
      d.Set("term", term.value);
      assert d.Value() == Reencode(old(df.Value())).value;
      r := FillDefaults(d);
    }

    /** The part of `miscellaneous` from the `annual_inc` default to its end, on frame `d`. */
    method FillDefaults(d: DataFrame) returns (r: Result<DataFrame, MiscError>)
      requires d.Valid()
      modifies d
      ensures r.Ok? <==> FillAndDrop(old(d.Value())).Ok?
      ensures r.Ok? ==> r.value == d && d.Valid() && d.Value() == FillAndDrop(old(d.Value())).value
      ensures r.Err? ==> FillAndDrop(old(d.Value())) == Err(r.error)
    {
      if "annual_inc" !in d.columns {
        return Err(KeyError("annual_inc"));
      }
      d.FillNa("annual_inc", Num(0.0));
      if "verification_status" !in d.columns {
        return Err(KeyError("verification_status"));
      }
      d.FillNa("verification_status", Text("Not Verified"));
      if "member_id" !in d.columns {
        return Err(KeyError("member_id"));
      }
      var labels := NullMemberLabels(d.Value());
      d.Drop(labels);
      if "delinq_2yrs" !in d.columns {
        return Err(KeyError("delinq_2yrs"));
      }
      d.FillNa("delinq_2yrs", Num(0.0));
      if "inq_last_6mths" !in d.columns {
        return Err(KeyError("inq_last_6mths"));
      }
      d.FillNa("inq_last_6mths", Num(0.0));
      r := Ok(d);
    }

    /**
     * `clean_and_validate`: the four stages in order on the caller's frame, which the first
     * three and the "n/a" replacement change in place; the cleaned frame is returned.
     */
    method CleanAndValidate(df: DataFrame) returns (r: Result<DataFrame, MiscError>)
      requires df.Valid()
      modifies this, df
      ensures r.Ok? <==> Stages.CleanAndValidate(old(df.Value())).Ok?
      ensures r.Ok? ==> fresh(r.value) && r.value.Valid() && r.value.Value() == Stages.CleanAndValidate(old(df.Value())).value
      ensures r.Err? ==> Stages.CleanAndValidate(old(df.Value())) == Err(r.error)
      ensures df.Valid() && df.Value() == ReplaceNa(Prepare(old(df.Value())))
      ensures log == old(log) + NumericLog(NumericCols, old(df.columns).Keys)
                              + DateLog(DateCols, AbsNumeric(CoerceNumeric(old(df.Value()))).columns)
      ensures r.Ok? ==> var out := r.value.Value();
        && IsSubsequence(out.index, old(df.index))
        && (forall c :: c in NumericCols && c in old(df.columns) ==> CleanNumeric(out, c))
        && Filled(out, "member_id") && Filled(out, "annual_inc") && Filled(out, "verification_status")
        && Filled(out, "delinq_2yrs") && Filled(out, "inq_last_6mths")
    {
      ghost var input := df.Value();
      CheckIfNumeric(df);
      ConvertToPositive(df);
      ConvertToDate(df);
      r := Miscellaneous(df);
      if r.Ok? {
        PipelineNumeric(input);
        PipelineRows(input);
        PipelineDefaults(input);
      }
    }
  }
}
