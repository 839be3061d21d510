/**
 * The four cleaning stages of `ETL.clean_and_validate` as functions on a frame's content.
 * The methods of `Etl.Etl` are proved to compute exactly these; the lemmas in
 * `Properties` state what the composed pipeline guarantees.
 */
module Stages {
  import opened Wrappers
  import opened Text
  import opened Frames

  /** The columns `check_if_numeric` coerces to numbers. */
  const NumericCols: seq<string> := [
    "loan_amnt", "funded_amnt", "funded_amnt_inv", "int_rate", "installment",
    "emp_length", "annual_inc", "dti", "delinq_2yrs", "inq_last_6mths", "mths_since_last_delinq",
    "mths_since_last_record", "open_acc", "pub_rec", "revol_bal", "revol_util", "total_acc",
    "out_prncp", "out_prncp_inv", "total_pymnt", "total_pymnt_inv", "total_rec_prncp",
    "total_rec_int", "total_rec_late_fee", "recoveries", "collection_recovery_fee",
    "last_pymnt_amnt", "policy_code"]

  /** The columns `convert_to_date` parses as `%b-%Y`. */
  const DateCols: seq<string> := ["issue_d", "earliest_cr_line", "last_credit_pull_d", "last_pymnt_d", "next_pymnt_d"]

  /** What the logger records: the error lines of the two tolerant stages. */
  datatype LogEvent = NumericConversionFailed(column: string) | DateConversionFailed(column: string)

  /** The exceptions `miscellaneous` lets escape, aborting the run. */
  datatype MiscError =
    | KeyError(column: string)   // a column it indexes is absent
    | TermError                  // `strip`, `split()[0]` or `int` failed on a `term` cell

  /** A vectorised cell-by-cell operation (`apply`, `replace`, `fillna`). */
  function MapCells(g: Cell -> Cell, cells: seq<Cell>): (r: seq<Cell>)
    ensures |r| == |cells| && forall i :: 0 <= i < |cells| ==> r[i] == g(cells[i])
  {
    seq(|cells|, i requires 0 <= i < |cells| => g(cells[i]))
  }

  /** `df[name] = col`. */
  function SetColumn(f: Frame, name: string, col: Column): (r: Frame)
    requires WellFormed(f) && ColumnOk(col, |f.index|)
    ensures WellFormed(r) && r.index == f.index && r.columns.Keys == f.columns.Keys + {name}
    ensures r.columns[name] == col
    ensures forall c :: c in f.columns && c != name ==> r.columns[c] == f.columns[c]
  {
    Frame(f.columns[name := col], f.index)
  }

  // ===========================================================================
  // Stage 1: check_if_numeric
  // ===========================================================================

  /** `pd.to_numeric(x, errors='coerce')` followed by `fillna(0)`, on one cell. */
  function ToNumeric(c: Cell): (r: Cell)
    ensures r.Num?
    ensures c.Num? ==> r == c
    ensures c.Text? && ParseDecimal(c.s).Some? ==> r == Num(ParseDecimal(c.s).value)
    ensures c.Null? || c.Date? || (c.Text? && ParseDecimal(c.s).None?) ==> r == Num(0.0)
  {
    match c
    case Num(_) => c
    case Text(s) => (match ParseDecimal(s) case Some(v) => Num(v) case None => Num(0.0))
    case _ => Num(0.0)
  }

  function NumericColumn(col: Column): (r: Column)
    ensures r.dtype == Numeric && |r.cells| == |col.cells| && AllNum(r.cells)
  {
    Column(Numeric, MapCells(ToNumeric, col.cells))
  }

  /** The frame after `check_if_numeric`. */
  function CoerceNumeric(f: Frame): (r: Frame)
    requires WellFormed(f)
    ensures WellFormed(r) && r.index == f.index && r.columns.Keys == f.columns.Keys
    ensures forall c :: c in f.columns && c in NumericCols ==>
      && r.columns[c].dtype == Numeric && AllNum(r.columns[c].cells)
      && forall i :: 0 <= i < |f.index| ==> r.columns[c].cells[i] == ToNumeric(f.columns[c].cells[i])
    ensures forall c :: c in f.columns && c !in NumericCols ==> r.columns[c] == f.columns[c]
  {
    Frame(map c | c in f.columns :: if c in NumericCols then NumericColumn(f.columns[c]) else f.columns[c],
          f.index)
  }

  /** The error lines `check_if_numeric` logs: one per listed column that is absent, in list order. */
  ghost function NumericLog(names: seq<string>, present: set<string>): (r: seq<LogEvent>)
    ensures |r| <= |names|
    ensures forall k :: 0 <= k < |r| ==> r[k].NumericConversionFailed? && r[k].column in names && r[k].column !in present
  {
    if names == [] then []
    else
      var last := names[|names| - 1];
      NumericLog(names[..|names| - 1], present) + (if last in present then [] else [NumericConversionFailed(last)])
  }

  // ===========================================================================
  // Stage 2: convert_to_positive
  // ===========================================================================

  /** `abs(x)`: NaN stays NaN. */
  function AbsCell(c: Cell): (r: Cell)
    ensures c.Num? ==> r.Num? && r.v >= 0.0 && (r.v == c.v || r.v == -c.v)
    ensures !c.Num? ==> r == c
  {
    if c.Num? && c.v < 0.0 then Num(-c.v) else c
  }

  /** `df[col].apply(lambda x: abs(x))` on a numeric column. */
  function AbsColumn(col: Column): (r: Column)
    ensures r.dtype == col.dtype && |r.cells| == |col.cells| && NonNegative(r.cells)
    ensures forall i :: 0 <= i < |col.cells| ==> r.cells[i] == AbsCell(col.cells[i])
  {
    Column(col.dtype, MapCells(AbsCell, col.cells))
  }

  /** The frame after `convert_to_positive`. */
  function AbsNumeric(f: Frame): (r: Frame)
    requires WellFormed(f)
    ensures WellFormed(r) && r.index == f.index && r.columns.Keys == f.columns.Keys
    ensures forall c :: c in r.columns && r.columns[c].dtype == Numeric ==> NonNegative(r.columns[c].cells)
    ensures forall c :: c in f.columns && f.columns[c].dtype == Numeric ==>
      && r.columns[c].dtype == Numeric
      && forall i :: 0 <= i < |f.index| ==> r.columns[c].cells[i] == AbsCell(f.columns[c].cells[i])
    ensures forall c :: c in f.columns && f.columns[c].dtype == Object ==> r.columns[c] == f.columns[c]
  {
    Frame(map c | c in f.columns ::
            if f.columns[c].dtype == Numeric then AbsColumn(f.columns[c])
            else f.columns[c],
          f.index)
  }

  // ===========================================================================
  // Stage 3: convert_to_date
  // ===========================================================================

  /** The texts pandas' `strptime` loop reads as a missing date (`NaT`) before trying the format. */
  const NaTStrings: set<string> := {"", "NaT", "nat", "NAT", "nan", "NaN", "NAN"}

  /** `pd.to_datetime(x, format='%b-%Y').date()` on one cell; `None` where it raises. */
  function DateCell(c: Cell): (r: Option<Cell>)
    ensures c.Null? ==> r == Some(Null)
    ensures c.Num? ==> r.None?
    ensures c.Date? ==> r == Some(c)
    ensures c.Text? && c.s in NaTStrings ==> r == Some(Null)
    ensures c.Text? && c.s !in NaTStrings ==> (r.Some? <==> ParseMonthYear(c.s).Some?)
    ensures c.Text? && c.s !in NaTStrings && r.Some? ==>
      r.value == Date(ParseMonthYear(c.s).value.0, ParseMonthYear(c.s).value.1, 1)
    ensures c.Text? && c.s !in NaTStrings && r.Some? ==> r.value.Date? && r.value.day == 1 && 1 <= r.value.month <= 12
  {
    match c
    case Null => Some(Null)
    case Num(_) => None
    case Date(_, _, _) => Some(c)
    case Text(s) =>
      if s in NaTStrings then Some(Null)
      else match ParseMonthYear(s)
        case None => None
        case Some(ym) => Some(Date(ym.0, ym.1, 1))
  }

  /** One date column converted whole, or `None` when any cell fails (the column stays as it was). */
  function ParseDateColumn(col: Column): (r: Option<Column>)
    ensures r.Some? <==> forall i :: 0 <= i < |col.cells| ==> DateCell(col.cells[i]).Some?
    ensures r.Some? ==>
      && r.value.dtype == Object && |r.value.cells| == |col.cells|
      && forall i :: 0 <= i < |col.cells| ==> Some(r.value.cells[i]) == DateCell(col.cells[i])
  {
    if forall i :: 0 <= i < |col.cells| ==> DateCell(col.cells[i]).Some? then
      Some(Column(Object, MapCells(c => match DateCell(c) case Some(d) => d case None => c, col.cells)))
    else
      None
  }

  /** The frame after `convert_to_date`. */
  function ParseDates(f: Frame): (r: Frame)
    requires WellFormed(f)
    ensures WellFormed(r) && r.index == f.index && r.columns.Keys == f.columns.Keys
    ensures forall c :: c in f.columns && c !in DateCols ==> r.columns[c] == f.columns[c]
    ensures forall c :: c in f.columns && c in DateCols && ParseDateColumn(f.columns[c]).None? ==>
      r.columns[c] == f.columns[c]
    ensures forall c :: c in f.columns && c in DateCols && ParseDateColumn(f.columns[c]).Some? ==>
      && r.columns[c].dtype == Object
      && forall i :: 0 <= i < |f.index| ==> Some(r.columns[c].cells[i]) == DateCell(f.columns[c].cells[i])
  {
    Frame(map c | c in f.columns ::
            if c in DateCols && ParseDateColumn(f.columns[c]).Some? then ParseDateColumn(f.columns[c]).value
            else f.columns[c],
          f.index)
  }

  /** The error lines `convert_to_date` logs: one per listed column that is absent or fails to parse. */
  ghost function DateLog(names: seq<string>, columns: map<string, Column>): (r: seq<LogEvent>)
    ensures |r| <= |names|
  {
    if names == [] then []
    else
      var last := names[|names| - 1];
      DateLog(names[..|names| - 1], columns)
        + (if last in columns && ParseDateColumn(columns[last]).Some? then [] else [DateConversionFailed(last)])
  }

  // ===========================================================================
  // Stage 4: miscellaneous
  // ===========================================================================

  function NaToNull(c: Cell): (r: Cell)
    ensures r != Text("n/a")
    ensures c == Text("n/a") ==> r == Null
    ensures c != Text("n/a") ==> r == c
  {
    if c == Text("n/a") then Null else c
  }

  /** `df.replace('n/a', np.nan, inplace=True)`. */
  function ReplaceNa(f: Frame): (r: Frame)
    requires WellFormed(f)
    ensures WellFormed(r) && r.index == f.index && r.columns.Keys == f.columns.Keys
    ensures forall c :: c in f.columns ==>
      && r.columns[c].dtype == f.columns[c].dtype
      && forall i :: 0 <= i < |f.index| ==>
           r.columns[c].cells[i] != Text("n/a")
           && (f.columns[c].cells[i] == Text("n/a") ==> r.columns[c].cells[i] == Null)
           && (f.columns[c].cells[i] != Text("n/a") ==> r.columns[c].cells[i] == f.columns[c].cells[i])
  {
    Frame(map c | c in f.columns :: Column(f.columns[c].dtype, MapCells(NaToNull, f.columns[c].cells)),
          f.index)
  }

  /** `df.duplicated()` at row `i`: an earlier row has the same cell in every column. */
  predicate IsRepeat(f: Frame, i: nat)
    requires WellFormed(f) && i < |f.index|
    ensures IsRepeat(f, i) ==> i > 0
  {
    exists j :: 0 <= j < i && Row(f, j) == Row(f, i)
  }

  /** `~df.duplicated()`: true at the rows that no earlier row repeats. */
  function KeepMask(f: Frame): (m: seq<bool>)
    requires WellFormed(f)
    ensures |m| == |f.index| && forall i :: 0 <= i < |f.index| ==> (m[i] <==> !IsRepeat(f, i))
  {
    seq(|f.index|, i requires 0 <= i < |f.index| => !IsRepeat(f, i))
  }

  /** The positions `drop_duplicates` keeps: the first occurrence of every distinct row. */
  function FirstOccurrences(f: Frame): (r: seq<nat>)
    requires WellFormed(f)
    ensures Increasing(r) && IndicesIn(r, |f.index|)
    ensures forall i :: 0 <= i < |f.index| ==> (i in r <==> !IsRepeat(f, i))
  {
    Positions(KeepMask(f))
  }

  /** `df.drop_duplicates()`. */
  function DropDuplicates(f: Frame): (r: Frame)
    requires WellFormed(f)
    ensures WellFormed(r) && r.columns.Keys == f.columns.Keys && |r.index| <= |f.index|
  {
    Select(f, FirstOccurrences(f))
  }

  /** The `emp_length` re-encoding, cell by cell: `fillna(0)`, the two exact replacements, then `[^0-9]+` removed. */
  function EmpLengthCell(c: Cell): (r: Cell)
    ensures c.Null? ==> r == Num(0.0)
    ensures c.Num? || c.Date? ==> r == c
    ensures c.Text? ==> r.Text? && AllDigits(r.s)
    ensures c == Text("10+ years") ==> r == Text("10")
    ensures c == Text("< 1 year") ==> r == Text("0")
    ensures c.Text? && c.s != "10+ years" && c.s != "< 1 year" ==> r == Text(KeepDigits(c.s))
  {
    match c
    case Null => Num(0.0)
    case Text(s) => Text(KeepDigits(if s == "10+ years" then "10" else if s == "< 1 year" then "0" else s))
    case _ => c
  }

  function EmpLength(col: Column): (r: Column)
    ensures r.dtype == col.dtype && |r.cells| == |col.cells|
    ensures forall h :: ColumnOk(col, h) ==> ColumnOk(r, h)
    ensures forall i :: 0 <= i < |col.cells| ==> r.cells[i] == EmpLengthCell(col.cells[i])
  {
    Column(col.dtype, MapCells(EmpLengthCell, col.cells))
  }

  /** `int(x.strip().split()[0])` on one `term` cell; `None` where Python raises. */
  function TermCell(c: Cell): (r: Option<Cell>)
    ensures r.Some? ==> c.Text? && r.value.Num?
  {
    match c
    case Text(s) =>
      (match FirstToken(Strip(s))
       case None => None
       case Some(t) =>
         match ParseInt(t)
         case None => None
         case Some(n) => Some(Num(n as real)))
    case _ => None
  }

  /**
   * The two `apply` calls on `term`: every cell converted to an integer, or `None` when one
   * raises. An empty column is returned as it is.
   */
  function ParseTermColumn(col: Column): (r: Option<Column>)
    ensures r.Some? ==> |r.value.cells| == |col.cells|
    ensures r.Some? && col.cells != [] ==>
      && r.value.dtype == Numeric
      && forall i :: 0 <= i < |col.cells| ==> Some(r.value.cells[i]) == TermCell(col.cells[i])
    ensures r.None? <==> exists i :: 0 <= i < |col.cells| && TermCell(col.cells[i]).None?
    ensures col.cells == [] ==> r == Some(col)
  {
    if col.cells == [] then Some(col)
    else if forall i :: 0 <= i < |col.cells| ==> TermCell(col.cells[i]).Some? then
      Some(Column(Numeric, MapCells(c => match TermCell(c) case Some(n) => n case None => c, col.cells)))
    else
      None
  }

  /** What `fillna(v)` leaves in a cell: `v` in place of a null, anything else as it was. */
  function Default(c: Cell, v: Cell): Cell {
    if c == Null then v else c
  }

  /**
   * `col.fillna(value=v)`. Filling a numeric column with a string turns it into an object
   * column when there was something to fill.
   */
  function FillNull(col: Column, v: Cell): (r: Column)
    requires v.Num? || v.Text?
    ensures |r.cells| == |col.cells| && NoNull(r.cells)
    ensures forall i :: 0 <= i < |col.cells| ==> r.cells[i] == Default(col.cells[i], v)
    ensures forall h :: ColumnOk(col, h) ==> ColumnOk(r, h)
  {
    var filled := MapCells(c => Default(c, v), col.cells);
    if v.Text? && exists i :: 0 <= i < |col.cells| && col.cells[i] == Null then Column(Object, filled)
    else Column(col.dtype, filled)
  }

  /** `df[name].fillna(value=v, inplace=True)` on a column that is present. */
  function FillColumn(f: Frame, name: string, v: Cell): (r: Frame)
    requires WellFormed(f) && name in f.columns && (v.Num? || v.Text?)
    ensures WellFormed(r) && r.index == f.index && r.columns.Keys == f.columns.Keys
    ensures r.columns[name] == FillNull(f.columns[name], v)
    ensures forall c :: c in f.columns && c != name ==> r.columns[c] == f.columns[c]
  {
    SetColumn(f, name, FillNull(f.columns[name], v))
  }

  /** The labels of the rows whose `member_id` is null: `df[pd.isna(df['member_id'])].index`. */
  function NullMemberLabels(f: Frame): (r: set<int>)
    requires WellFormed(f) && "member_id" in f.columns
    ensures forall i :: 0 <= i < |f.index| && f.columns["member_id"].cells[i] == Null ==> f.index[i] in r
    ensures forall l :: l in r ==>
      exists i :: 0 <= i < |f.index| && f.index[i] == l && f.columns["member_id"].cells[i] == Null
  {
    set i | 0 <= i < |f.index| && f.columns["member_id"].cells[i] == Null :: f.index[i]
  }

  /** `~df.index.isin(labels)`. */
  function LabelMask(index: seq<int>, labels: set<int>): (m: seq<bool>)
    ensures |m| == |index| && forall i :: 0 <= i < |index| ==> (m[i] <==> index[i] !in labels)
  {
    seq(|index|, i requires 0 <= i < |index| => index[i] !in labels)
  }

  /** The positions `df.drop(labels)` keeps: those whose label is not among `labels`. */
  function Kept(index: seq<int>, labels: set<int>): (r: seq<nat>)
    ensures Increasing(r) && IndicesIn(r, |index|)
    ensures forall i :: 0 <= i < |index| ==> (i in r <==> index[i] !in labels)
  {
    Positions(LabelMask(index, labels))
  }

  /** `df.drop(labels)`: every row carrying one of the labels goes, the rest keep their order. */
  function DropLabels(f: Frame, labels: set<int>): (r: Frame)
    requires WellFormed(f)
    ensures WellFormed(r) && r.columns.Keys == f.columns.Keys && |r.index| <= |f.index|
    ensures forall k :: 0 <= k < |r.index| ==> r.index[k] !in labels
  {
    Select(f, Kept(f.index, labels))
  }

  /** `df.drop(indexNames, inplace=True)` with the labels of the null-member rows. */
  function DropNullMember(f: Frame): (r: Frame)
    requires WellFormed(f) && "member_id" in f.columns
    ensures WellFormed(r) && r.columns.Keys == f.columns.Keys && |r.index| <= |f.index|
    ensures NoNull(r.columns["member_id"].cells)
  {
    var kept := Kept(f.index, NullMemberLabels(f));
    var r := DropLabels(f, NullMemberLabels(f));
    forall k | 0 <= k < |kept|
      ensures r.columns["member_id"].cells[k] != Null
    {
      var i := kept[k];
      assert f.index[i] in NullMemberLabels(f) || f.columns["member_id"].cells[i] != Null;
    }
    r
  }

  /**
   * The last part of `miscellaneous`: default `annual_inc` and `verification_status`, drop the
   * rows without `member_id`, default `delinq_2yrs` and `inq_last_6mths`.
   */
  function FillAndDrop(f: Frame): (r: Result<Frame, MiscError>)
    requires WellFormed(f)
    ensures r.Ok? ==> WellFormed(r.value) && r.value.columns.Keys == f.columns.Keys
  {
    if "annual_inc" !in f.columns then Err(KeyError("annual_inc")) else
    var f1 := FillColumn(f, "annual_inc", Num(0.0));
    if "verification_status" !in f1.columns then Err(KeyError("verification_status")) else
    var f2 := FillColumn(f1, "verification_status", Text("Not Verified"));
    if "member_id" !in f2.columns then Err(KeyError("member_id")) else
    var f3 := DropNullMember(f2);
    if "delinq_2yrs" !in f3.columns then Err(KeyError("delinq_2yrs")) else
    var f4 := FillColumn(f3, "delinq_2yrs", Num(0.0));
    if "inq_last_6mths" !in f4.columns then Err(KeyError("inq_last_6mths")) else
    Ok(FillColumn(f4, "inq_last_6mths", Num(0.0)))
  }

  /** The `emp_length` re-encoding and the `term` parse of `miscellaneous`. */
  function ReencodeColumns(f: Frame): (r: Result<Frame, MiscError>)
    requires WellFormed(f)
    ensures r.Ok? ==> WellFormed(r.value) && r.value.columns.Keys == f.columns.Keys && r.value.index == f.index
    ensures r.Ok? <==> "emp_length" in f.columns && "term" in f.columns && ParseTermColumn(f.columns["term"]).Some?
    ensures r.Ok? ==>
      && r.value.columns["emp_length"] == EmpLength(f.columns["emp_length"])
      && Some(r.value.columns["term"]) == ParseTermColumn(f.columns["term"])
      && forall c :: c in f.columns && c != "emp_length" && c != "term" ==> r.value.columns[c] == f.columns[c]
  {
    if "emp_length" !in f.columns then Err(KeyError("emp_length")) else
    var f2 := SetColumn(f, "emp_length", EmpLength(f.columns["emp_length"]));
    if "term" !in f2.columns then Err(KeyError("term")) else
    match ParseTermColumn(f2.columns["term"])
    case None => Err(TermError)
    case Some(term) => Ok(SetColumn(f2, "term", term))
  }

  /**
   * The first part of `miscellaneous`: "n/a" to null, `drop_duplicates`, then the
   * re-encoding of `emp_length` and `term`.
   */
  function Reencode(f: Frame): (r: Result<Frame, MiscError>)
    requires WellFormed(f)
    ensures r.Ok? ==> WellFormed(r.value) && r.value.columns.Keys == f.columns.Keys
    ensures r.Ok? ==> r.value.index == DropDuplicates(ReplaceNa(f)).index
  {
    ReencodeColumns(DropDuplicates(ReplaceNa(f)))
  }

  /** The frame `miscellaneous` returns, or the exception it raises. */
  function Miscellaneous(f: Frame): (r: Result<Frame, MiscError>)
    requires WellFormed(f)
    ensures r.Ok? ==> WellFormed(r.value) && r.value.columns.Keys == f.columns.Keys
  {
    match Reencode(f)
    case Err(e) => Err(e)
    case Ok(g) => FillAndDrop(g)
  }

  /** The first three stages of `clean_and_validate`, which never fail. */
  function Prepare(f: Frame): (r: Frame)
    requires WellFormed(f)
    ensures WellFormed(r) && r.index == f.index && r.columns.Keys == f.columns.Keys
  {
    ParseDates(AbsNumeric(CoerceNumeric(f)))
  }

  /** `clean_and_validate`: the four stages in their fixed order. */
  function CleanAndValidate(f: Frame): (r: Result<Frame, MiscError>)
    requires WellFormed(f)
    ensures r.Ok? ==> WellFormed(r.value) && r.value.columns.Keys == f.columns.Keys
  {
    Miscellaneous(Prepare(f))
  }
}
