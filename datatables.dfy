/**
 * In-memory tables: a name, column names and rows that map a column name
 * to a value. Appending one table to another, copying a range of rows,
 * de-duplicating column names, quoting values for SQL text, and rendering
 * a table as a JSON array.
 */
module DataTables {
  import opened GoStrings
  import opened Helpers

  /** A cell value; reading a column a row does not hold gives `Nil`. */
  datatype Value = Nil | Val(text: string)

  /** A column as the column list reports it: its name and the name of its type. */
  datatype Column = Column(name: string, typeName: string)

  type Row = map<string, Value>

  function Lookup(row: Row, col: string): Value
  {
    if col in row then row[col] else Nil
  }

  class DataTable {
    var name: string
    var cols: seq<string>
    var rows: seq<Row>

    constructor (name: string, cols: seq<string>, rows: seq<Row>)
      ensures this.name == name && this.cols == cols && this.rows == rows
    {
      this.name := name;
      this.cols := cols;
      this.rows := rows;
    }
  }

  /**
   * How a table operation ends: `Malformed` and `ColumnsDiffer` stand for the two errors
   * `AppendDataTable` returns; an index past the destination's columns is a run-time panic.
   */
  datatype Outcome = Done | Malformed | ColumnsDiffer | ColumnIndexOutOfRange


  // ---------------------------------------------------------------------
  // AppendDataTable
  // ---------------------------------------------------------------------

  /** The positional comparison of source and destination column names. */
  function CompareColumns(srcCols: seq<string>, destCols: seq<string>): Outcome
  {
    if srcCols == [] then Done
    else if destCols == [] then ColumnIndexOutOfRange
    else if srcCols[0] != destCols[0] then ColumnsDiffer
    else CompareColumns(srcCols[1..], destCols[1..])
  }

  /** The comparison passes exactly when the source columns begin the destination's. */
  lemma {:induction false} CompareColumnsPrefix(srcCols: seq<string>, destCols: seq<string>)
    ensures CompareColumns(srcCols, destCols) == Done <==>
      |srcCols| <= |destCols| && destCols[..|srcCols|] == srcCols
    ensures CompareColumns(srcCols, destCols) == ColumnIndexOutOfRange ==> |destCols| < |srcCols|
  {
    if srcCols != [] && destCols != [] {
      CompareColumnsPrefix(srcCols[1..], destCols[1..]);
      if srcCols[0] == destCols[0] && |srcCols| <= |destCols| {
        assert srcCols == [srcCols[0]] + srcCols[1..];
        assert destCols[..|srcCols|] == [destCols[0]] + destCols[1..][..|srcCols| - 1];
      }
    }
  }

  /** What `AppendDataTable` decides before it touches any row. */
  function AppendOutcome(srcName: string, srcCols: seq<string>, destCols: seq<string>): Outcome
  {
    if srcName == "" then Malformed
    else CompareColumns(srcCols, if destCols == [] then srcCols else destCols)
  }

  /** Appending works for a named source whose columns begin the destination's, or for an empty destination. */
  lemma AppendOutcomeDone(srcName: string, srcCols: seq<string>, destCols: seq<string>)
    ensures AppendOutcome(srcName, srcCols, destCols) == Done <==>
      srcName != "" && (destCols == [] || (|srcCols| <= |destCols| && destCols[..|srcCols|] == srcCols))
  {
    CompareColumnsPrefix(srcCols, if destCols == [] then srcCols else destCols);
  }

  /** The new rows: for every source row, the source values of the source columns. */
  function Projected(rows: seq<Row>, cols: seq<string>): (r: seq<Row>)
  {
    seq(|rows|, i requires 0 <= i < |rows| => map c | c in cols :: Lookup(rows[i], c))
  }

  /** Every appended row holds the source values for the source columns, and nothing else. */
  lemma ProjectedValues(rows: seq<Row>, cols: seq<string>)
    ensures |Projected(rows, cols)| == |rows|
    ensures forall i, c :: 0 <= i < |rows| && c in cols ==> Lookup(Projected(rows, cols)[i], c) == Lookup(rows[i], c)
    ensures forall i, c :: 0 <= i < |rows| && c !in cols ==> Lookup(Projected(rows, cols)[i], c) == Nil
  {
  }

  /** The row built column by column in `AppendDataTable`'s inner loop. */
  method NewRow(row: Row, cols: seq<string>) returns (oneRow: Row)
    ensures oneRow == map c | c in cols :: Lookup(row, c)
  {
    oneRow := map[];
    var j := 0;
    while j < |cols|
      invariant 0 <= j <= |cols|
      invariant oneRow == map c | c in cols[..j] :: Lookup(row, c)
    {
      assert forall c :: c in cols[..j + 1] <==> c in cols[..j] || c == cols[j] by {
        assert cols[..j + 1] == cols[..j] + [cols[j]];
      }
      oneRow := oneRow[cols[j] := Lookup(row, cols[j])];
      j := j + 1;
    }
    assert cols[..j] == cols;
  }

  /**
   * `AppendDataTable`: a source without a name is refused; an empty
   * destination first receives the source's columns; the column names
   * must then agree position by position; each source row becomes a new
   * destination row. The source is read before the destination changes,
   * so appending a table to itself doubles its rows.
   */
  method AppendDataTable(src: DataTable, dest: DataTable) returns (result: Outcome)
    modifies dest
    ensures result == AppendOutcome(old(src.name), old(src.cols), old(dest.cols))
    ensures dest.name == old(dest.name)
    ensures result == Done ==>
      dest.cols == (if old(dest.cols) == [] then old(src.cols) else old(dest.cols)) &&
      dest.rows == old(dest.rows) + Projected(old(src.rows), old(src.cols))
    ensures result != Done ==> dest.cols == old(dest.cols) && dest.rows == old(dest.rows)
  {
    if src.name == "" {
      return Malformed;
    }
    var destCols := dest.cols;
    var srcCols := src.cols;
    var rows := src.rows;
    ghost var destRows := dest.rows;
    if |dest.cols| == 0 {
      var i := 0;
      while i < |srcCols|
        invariant 0 <= i <= |srcCols|
        invariant dest.cols == srcCols[..i] && dest.rows == destRows && dest.name == old(dest.name)
      {
        dest.cols := dest.cols + [srcCols[i]];
        i := i + 1;
      }
      assert srcCols[..i] == srcCols;
      destCols := dest.cols;
    }
    var i := 0;
    while i < |srcCols|
      invariant 0 <= i <= |srcCols| && i <= |destCols|
      invariant dest.cols == destCols && dest.rows == destRows && dest.name == old(dest.name)
      invariant CompareColumns(srcCols[i..], destCols[i..]) == CompareColumns(srcCols, destCols)
    {
      if i >= |destCols| {
        assert destCols[i..] == [];
        return ColumnIndexOutOfRange;
      }
      assert srcCols[i..][1..] == srcCols[i + 1..] && destCols[i..][1..] == destCols[i + 1..];
      if srcCols[i] != destCols[i] {
        return ColumnsDiffer;
      }
      i := i + 1;
    }
    assert srcCols[i..] == [];
    i := 0;
    while i < |rows|
      invariant 0 <= i <= |rows|
      invariant dest.rows == destRows + Projected(rows[..i], srcCols)
      invariant dest.cols == destCols && dest.name == old(dest.name)
    {
      var oneRow := NewRow(rows[i], srcCols);
      assert Projected(rows[..i + 1], srcCols) == Projected(rows[..i], srcCols) + [oneRow];
      dest.rows := dest.rows + [oneRow];
      i := i + 1;
    }
    assert rows[..i] == rows;
    return Done;
  }

  // ---------------------------------------------------------------------
  // GetDataTableRange
  // ---------------------------------------------------------------------

  /** Rows `from` to `to`, inclusive, with `to` clamped to the last row. */
  function RangeRows(rows: seq<Row>, from: nat, to: int): (r: seq<Row>)
  {
    var last := if to >= |rows| then |rows| - 1 else to;
    if from > last then [] else rows[from..last + 1]
  }

  /** The copied rows are the source rows from `from` on, in order, up to the clamped `to`. */
  lemma RangeRowsShape(rows: seq<Row>, from: nat, to: int)
    ensures var last := if to >= |rows| then |rows| - 1 else to;
      |RangeRows(rows, from, to)| == (if from > last then 0 else last - from + 1) &&
      forall k :: 0 <= k < |RangeRows(rows, from, to)| ==> RangeRows(rows, from, to)[k] == rows[from + k]
  {
  }

  /**
   * `GetDataTableRange`: a source without a name is refused; otherwise the
   * source's column names are added to the destination and the rows in the
   * range are appended.
   */
  method GetDataTableRange(src: DataTable, dest: DataTable, from: nat, to: int) returns (result: Outcome)
    modifies dest
    ensures result == (if old(src.name) == "" then Malformed else Done)
    ensures dest.name == old(dest.name)
    ensures result == Done ==>
      dest.cols == old(dest.cols) + old(src.cols) &&
      dest.rows == old(dest.rows) + RangeRows(old(src.rows), from, to)
    ensures result != Done ==> dest.cols == old(dest.cols) && dest.rows == old(dest.rows)
  {
    if src.name == "" {
      return Malformed;
    }
    var srcCols := src.cols;
    var srcRows := src.rows;
    ghost var destCols := dest.cols;
    ghost var destRows := dest.rows;
    var i := 0;
    while i < |srcCols|
      invariant 0 <= i <= |srcCols|
      invariant dest.cols == destCols + srcCols[..i] && dest.rows == destRows && dest.name == old(dest.name)
    {
      assert srcCols[..i + 1] == srcCols[..i] + [srcCols[i]];
      dest.cols := dest.cols + [srcCols[i]];
      i := i + 1;
    }
    assert srcCols[..i] == srcCols;
    var srcRowCnt := |srcRows|;
    var last := to;
    if last >= srcRowCnt {
      last := srcRowCnt - 1;
    }
    var k: int := from;
    while k <= last
      invariant from <= k && (k <= last + 1 || k == from)
      invariant dest.rows == destRows + (if k == from then [] else srcRows[from..k])
      invariant dest.cols == destCols + srcCols && dest.name == old(dest.name)
    {
      if k > from {
        assert srcRows[from..k + 1] == srcRows[from..k] + [srcRows[k]];
      }
      dest.rows := dest.rows + [srcRows[k]];
      k := k + 1;
    }
    return Done;
  }

  // ---------------------------------------------------------------------
  // getDeDupedColNames
  // ---------------------------------------------------------------------

  /** The k-th name tried for a column: the name itself, then name_2, name_3, ... */
  function Candidate(namePart: string, k: nat): string
  {
    if k <= 1 then namePart else namePart + "_" + DecimalText(k)
  }

  /** Different attempts give different names. */
  lemma CandidateInjective(namePart: string, j: nat, k: nat)
    requires 1 <= j < k
    ensures Candidate(namePart, j) != Candidate(namePart, k)
  {
    if j >= 2 {
      var a := Candidate(namePart, j);
      var b := Candidate(namePart, k);
      if a == b {
        assert a[|namePart| + 1..] == Digits(j);
        assert b[|namePart| + 1..] == Digits(k);
        DigitsInjective(j, k);
      }
    }
  }

  /** A set that holds the first m attempts has at least m elements. */
  lemma {:induction false} AttemptsCount(namePart: string, s: set<string>, m: nat)
    requires forall k :: 1 <= k <= m ==> Candidate(namePart, k) in s
    ensures m <= |s|
  {
    if m > 0 {
      var s' := s - {Candidate(namePart, m)};
      forall k | 1 <= k <= m - 1
        ensures Candidate(namePart, k) in s'
      {
        CandidateInjective(namePart, k, m);
      }
      AttemptsCount(namePart, s', m - 1);
    }
  }

  lemma {:induction false} SetOfSeqSize(c: seq<string>)
    ensures |set x | x in c| <= |c|
  {
    if c != [] {
      SetOfSeqSize(c[..|c| - 1]);
      var init := c[..|c| - 1];
      assert (set x | x in c) == (set x | x in init) + {c[|c| - 1]} by {
        assert c == c[..|c| - 1] + [c[|c| - 1]];
      }
    }
  }

  /** The result names are pairwise different. */
  predicate DistinctNames(c: seq<string>)
  {
    forall i, j :: 0 <= i < j < |c| ==> c[i] != c[j]
  }

  /** `chosen` is an attempt for `name`, and every earlier attempt is taken in `prev`. */
  ghost predicate IsFirstFree(name: string, prev: seq<string>, chosen: string)
  {
    exists k :: 1 <= k && chosen == Candidate(name, k) && forall j :: 1 <= j < k ==> Candidate(name, j) in prev
  }

  /** The inner loop of `getDeDupedColNames`: the first attempt not yet in `c`. */
  method FreeName(c: seq<string>, namePart: string) returns (colName: string)
    ensures colName !in c
    ensures IsFirstFree(namePart, c, colName)
  {
    colName := namePart;
    var indx := 2;
    var found := true;
    while true
      invariant 2 <= indx <= |c| + 2
      invariant colName == Candidate(namePart, indx - 1)
      invariant forall j :: 1 <= j < indx - 1 ==> Candidate(namePart, j) in c
      decreases |c| + 2 - indx
    {
      found := ArrayElementExists(c, colName);
      if found {
        AttemptsCount(namePart, (set x | x in c), indx - 1);
        SetOfSeqSize(c);
        colName := namePart + "_" + DecimalText(indx);
      } else {
        break;
      }
      indx := indx + 1;
    }
  }

  /**
   * `getDeDupedColNames`: each column keeps its name unless an earlier
   * result already has it; then the first of name_2, name_3, ... that is
   * still free is used.
   */
  method GetDeDupedColNames(cols: seq<Column>) returns (c: seq<string>)
    ensures |c| == |cols|
    ensures DistinctNames(c)
    ensures forall i :: 0 <= i < |c| ==> IsFirstFree(cols[i].name, c[..i], c[i])
  {
    c := [];
    var i := 0;
    while i < |cols|
      invariant 0 <= i <= |cols|
      invariant |c| == i
      invariant DistinctNames(c)
      invariant forall m :: 0 <= m < i ==> IsFirstFree(cols[m].name, c[..m], c[m])
    {
      var colName := FreeName(c, cols[i].name);
      var c' := c + [colName];
      assert c'[..i] == c;
      assert forall m :: 0 <= m < i ==> c'[..m] == c[..m];
      c := c';
      i := i + 1;
    }
  }

  // ---------------------------------------------------------------------
  // needsSingleQuotes
  // ---------------------------------------------------------------------

  /** The text with every backslash-quote pair turned into a plain quote. */
  function Unescaped(strVal: string): string
  {
    ReplaceAll(strVal, ['\\', '"'], ['"'])
  }

  /** The shape that sends a value to the date parser: a date separator, a colon and a space. */
  predicate LooksLikeDate(s: string)
  {
    (Contains(s, "/") || Contains(s, "-")) && Contains(s, ":") && Contains(s, " ")
  }

  /**
   * `needsSingleQuotes`: the value as it goes into SQL text, and whether it
   * needs single quotes. `isDate` stands for the date parser succeeding.
   * Integers go in bare; dates and other text are quoted; "true" and
   * "false" in any letter case both become "0".
   */
  function NeedsSingleQuotes(strVal: string, isDate: string -> bool): (r: (string, bool))
    ensures ParsesAsInt(Unescaped(strVal)) ==> r == (Unescaped(strVal), false)
    ensures !r.1 <==> (ParsesAsInt(Unescaped(strVal)) ||
      ToLower(Unescaped(strVal)) == "true" || ToLower(Unescaped(strVal)) == "false")
    ensures r.1 ==> r.0 == Unescaped(strVal)
    ensures !ParsesAsInt(Unescaped(strVal)) && !r.1 ==> r.0 == "0"
  {
    var s := Unescaped(strVal);
    BooleanWordsAreNoDates(s);
    if ParsesAsInt(s) then (s, false)
    else if LooksLikeDate(s) && isDate(s) then (s, true)
    else if ToLower(s) == "false" then ("0", false)
    else if ToLower(s) == "true" then ("0", false)
    else if Contains(s, "\"") then (s, true)
    else (s, true)
  }

  /** "true" and "false" hold no colon, so they never reach the date parser. */
  lemma BooleanWordsAreNoDates(s: string)
    ensures ToLower(s) == "true" || ToLower(s) == "false" ==> !Contains(s, ":")
  {
    if Contains(s, ":") {
      var i := ContainsWitness(s, ":");
      assert s[i] == ':' && ToLower(s)[i] == ':';
    }
  }

  /** As written, "true" and "false" give the same SQL value. */
  lemma TrueAndFalseCollide(isDate: string -> bool)
    ensures NeedsSingleQuotes("true", isDate) == NeedsSingleQuotes("false", isDate) == ("0", false)
  {
    BooleanWordUnchanged("true");
    BooleanWordUnchanged("false");
  }

  /** A lower-case boolean word has nothing to unescape, lowers to itself and is not an integer. */
  lemma BooleanWordUnchanged(w: string)
    requires w == "true" || w == "false"
    ensures Unescaped(w) == w && ToLower(w) == w && !ParsesAsInt(w)
  {
    HeadAbsent(w, ['\\', '"']);
    ReplaceAllAbsent(w, ['\\', '"'], ['"']);
    LowerFixesLower(w);
    BooleanWordsAreNoIntegers(w);
  }

  /** `needsSingleQuotes` with SQLite's 1 for true and 0 for false. */
  function IntendedNeedsSingleQuotes(strVal: string, isDate: string -> bool): (r: (string, bool))
    ensures ToLower(Unescaped(strVal)) == "true" ==> r == ("1", false)
    ensures ToLower(Unescaped(strVal)) == "false" ==> r == ("0", false)
    ensures ToLower(Unescaped(strVal)) != "true" ==> r == NeedsSingleQuotes(strVal, isDate)
  {
    var s := Unescaped(strVal);
    BooleanWordsAreNoDates(s);
    BooleanWordsAreNoIntegers(s);
    if ParsesAsInt(s) then (s, false)
    else if LooksLikeDate(s) && isDate(s) then (s, true)
    else if ToLower(s) == "false" then ("0", false)
    else if ToLower(s) == "true" then ("1", false)
    else (s, true)
  }

  /** "true" and "false" in any letter case are not integers. */
  lemma BooleanWordsAreNoIntegers(s: string)
    ensures ToLower(s) == "true" || ToLower(s) == "false" ==> !ParsesAsInt(s)
  {
    if ToLower(s) == "true" || ToLower(s) == "false" {
      assert ToLower(s)[0] == 't' || ToLower(s)[0] == 'f';
      assert !IsDigit(s[0]) && s[0] != '-' && s[0] != '+';
    }
  }

  // ---------------------------------------------------------------------
  // GetDataTableJSON
  // ---------------------------------------------------------------------

  /** A value as `%v` prints it, with a missing value printed as "<nil>". */
  type RenderedRow = map<string, string>

  function Rendered(row: RenderedRow, col: string): string
  {
    if col in row then row[col] else "<nil>"
  }

  /** One `"name":value` member; text columns quote values that do not start an object. */
  function Member(col: Column, row: RenderedRow): string
  {
    var v := Rendered(row, col.name);
    var shown := if col.typeName == "string" && !StartsWith(v, "{") then "\"" + v + "\"" else v;
    "\"" + col.name + "\":" + shown
  }

  function RowObject(cols: seq<Column>, row: RenderedRow): string
  {
    "{" + Join(seq(|cols|, j requires 0 <= j < |cols| => Member(cols[j], row)), ",") + "}"
  }

  /** The object of every row, in order. */
  function RowObjects(cols: seq<Column>, rows: seq<RenderedRow>): (r: seq<string>)
    ensures |r| == |rows|
  {
    seq(|rows|, i requires 0 <= i < |rows| => RowObject(cols, rows[i]))
  }

  /** The whole table: the row objects, comma-separated, in brackets. */
  function TableJSON(cols: seq<Column>, rows: seq<RenderedRow>): string
  {
    "[" + Join(RowObjects(cols, rows), ",") + "]"
  }

  lemma {:induction false} JoinSnoc(parts: seq<string>, p: string, sep: string)
    ensures Join(parts + [p], sep) == if parts == [] then p else Join(parts, sep) + sep + p
    decreases |parts|
  {
    if |parts| >= 2 {
      JoinSnoc(parts[1..], p, sep);
      assert (parts + [p])[1..] == parts[1..] + [p];
    } else if |parts| == 1 {
      assert parts + [p] == [parts[0], p];
    }
  }

  lemma RowObjectsSnoc(cols: seq<Column>, rows: seq<RenderedRow>, row: RenderedRow)
    ensures RowObjects(cols, rows + [row]) == RowObjects(cols, rows) + [RowObject(cols, row)]
  {
    var rs := rows + [row];
    forall i | 0 <= i < |rs|
      ensures RowObjects(cols, rs)[i] == (RowObjects(cols, rows) + [RowObject(cols, row)])[i]
    {
    }
  }

  /** Adding a part to a bracketed, comma-joined list inserts it before the closing bracket. */
  lemma BracketedSnoc(objs: seq<string>, o: string)
    ensures var t := "[" + Join(objs, ",") + "]";
      "[" + Join(objs + [o], ",") + "]" == t[..|t| - 1] + (if objs == [] then "" else ",") + o + "]"
  {
    JoinSnoc(objs, o, ",");
    var t := "[" + Join(objs, ",") + "]";
    assert t[..|t| - 1] == "[" + Join(objs, ",");
  }

  /** One more row adds a comma and its object before the closing bracket. */
  lemma TableJSONAppend(cols: seq<Column>, rows: seq<RenderedRow>, row: RenderedRow)
    ensures TableJSON(cols, rows + [row]) ==
      TableJSON(cols, rows)[..|TableJSON(cols, rows)| - 1] + (if rows == [] then "" else ",") + RowObject(cols, row) + "]"
  {
    RowObjectsSnoc(cols, rows, row);
    BracketedSnoc(RowObjects(cols, rows), RowObject(cols, row));
  }

  /** A table without rows is "[]". */
  lemma TableJSONEmpty(cols: seq<Column>)
    ensures TableJSON(cols, []) == "[]"
  {
  }

  /** `GetDataTableJSON`: builds every row object, then joins them. */
  method GetDataTableJSON(cols: seq<Column>, rows: seq<RenderedRow>) returns (allJson: string)
    ensures allJson == TableJSON(cols, rows)
  {
    var jsnArry: seq<string> := [];
    var i := 0;
    while i < |rows|
      invariant 0 <= i <= |rows|
      invariant jsnArry == RowObjects(cols, rows[..i])
    {
      var sa: seq<string> := [];
      var j := 0;
      while j < |cols|
        invariant 0 <= j <= |cols|
        invariant sa == seq(j, m requires 0 <= m < j => Member(cols[m], rows[i]))
      {
        var v := Rendered(rows[i], cols[j].name);
        if cols[j].typeName == "string" {
          var s := v;
          if !StartsWith(s, "{") {
            v := "\"" + s + "\"";
          }
        }
        sa := sa + ["\"" + cols[j].name + "\":" + v];
        j := j + 1;
      }
      var oneJsn := "{" + Join(sa, ",") + "}";
      RowObjectsSnoc(cols, rows[..i], rows[i]);
      assert rows[..i + 1] == rows[..i] + [rows[i]];
      jsnArry := jsnArry + [oneJsn];
      i := i + 1;
    }
    assert rows[..i] == rows;
    allJson := "[" + Join(jsnArry, ",") + "]";
  }

  // ---------------------------------------------------------------------
  // valueExistsInArry
  // ---------------------------------------------------------------------

  /** A column name matches, exactly or ignoring letter case. */
  predicate NameMatches(name: string, e: string, ignoreCase: bool)
  {
    if ignoreCase then ToLower(name) == ToLower(e) else name == e
  }

  /** `valueExistsInArry`: whether some column has the name. */
  method ValueExistsInArry(arry: seq<Column>, e: string, ignoreCase: bool) returns (found: bool)
    ensures found <==> exists i :: 0 <= i < |arry| && NameMatches(arry[i].name, e, ignoreCase)
  {
    var i := 0;
    while i < |arry|
      invariant 0 <= i <= |arry|
      invariant forall k :: 0 <= k < i ==> !NameMatches(arry[k].name, e, ignoreCase)
    {
      if ignoreCase {
        if ToLower(arry[i].name) == ToLower(e) {
          return true;
        }
      } else {
        if arry[i].name == e {
          return true;
        }
      }
      i := i + 1;
    }
    return false;
  }
}
