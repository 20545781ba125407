/**
 * Text handling of SQL statements: the table name a statement refers to,
 * the clean-up of line breaks and tabs, the rewrite of the `group` keyword,
 * and the length limit on statements sent to the database.
 */
module SqlText {
  import opened GoStrings
  import opened Helpers

  // ---------------------------------------------------------------------
  // getTableNameFromSQLQuery
  // ---------------------------------------------------------------------

  /** The words after which a table name follows. */
  predicate IsTableKeyword(t: string)
  {
    t == "from" || t == "into"
  }

  /** The non-empty words of the lower-cased statement, split at single spaces. */
  function Tokens(sqlQuery: string): seq<string>
  {
    Filter(Split(ToLower(sqlQuery), ' '), "")
  }

  /** The word after the keyword: one trailing ";" dropped, cut at the first line break, trimmed. */
  function TableWord(v: string): string
  {
    var w := if EndsWith(v, ";") then v[..|v| - 1] else v;
    TrimSpace(Split(w, '\n')[0])
  }

  /**
   * The word after the first keyword that is followed by a word, or "" when
   * there is none. A name found among lower-case words is lower-case, on one
   * line and trimmed.
   */
  function TableNameIn(tokens: seq<string>): (r: string)
    ensures (forall j :: 0 <= j < |tokens| - 1 ==> !IsTableKeyword(tokens[j])) ==> r == ""
    ensures (forall k :: 0 <= k < |tokens| ==> IsLower(tokens[k])) ==> '\n' !in r && IsLower(r)
    ensures (forall k :: 0 <= k < |tokens| ==> IsLower(tokens[k])) && r != [] ==>
      !IsSpace(r[0]) && !IsSpace(r[|r| - 1])
  {
    if |tokens| < 2 then ""
    else if IsTableKeyword(tokens[0]) then
      TableWordShape(tokens[1]);
      TableWord(tokens[1])
    else
      assert forall j :: 0 <= j < |tokens| - 1 ==> tokens[1..][j] == tokens[j + 1];
      TableNameIn(tokens[1..])
  }

  /** What `getTableNameFromSQLQuery` returns: a lower-case, trimmed name without a line break. */
  function TableName(sqlQuery: string): (r: string)
    ensures '\n' !in r && IsLower(r)
    ensures r != [] ==> !IsSpace(r[0]) && !IsSpace(r[|r| - 1])
  {
    TokensShape(sqlQuery);
    TableNameIn(Tokens(sqlQuery))
  }

  /** The first keyword followed by a word decides the name. */
  lemma {:induction false} TableNameFound(tokens: seq<string>, i: nat)
    requires i + 1 < |tokens| && IsTableKeyword(tokens[i])
    requires forall j :: 0 <= j < i ==> !IsTableKeyword(tokens[j])
    ensures TableNameIn(tokens) == TableWord(tokens[i + 1])
  {
    if i > 0 {
      TableNameFound(tokens[1..], i - 1);
    }
  }

  /** The pieces of a lower-case text are lower-case and hold no separator. */
  lemma PiecesOfLower(s: string, sep: char)
    requires IsLower(s)
    ensures forall k :: 0 <= k < |Split(s, sep)| ==> IsLower(Split(s, sep)[k]) && sep !in Split(s, sep)[k]
  {
    JoinSplit(s, sep);
    SplitChars(s, sep);
  }

  /** The words of a statement are non-empty, free of spaces and lower-case. */
  lemma TokensShape(sqlQuery: string)
    ensures forall k :: 0 <= k < |Tokens(sqlQuery)| ==>
      Tokens(sqlQuery)[k] != "" && ' ' !in Tokens(sqlQuery)[k] && IsLower(Tokens(sqlQuery)[k])
  {
    var pieces := Split(ToLower(sqlQuery), ' ');
    var t := Tokens(sqlQuery);
    ToLowerIsLower(sqlQuery);
    PiecesOfLower(ToLower(sqlQuery), ' ');
    FilterShape(pieces, "");
    forall k | 0 <= k < |t|
      ensures t[k] != "" && ' ' !in t[k] && IsLower(t[k])
    {
      assert multiset(pieces)[t[k]] == multiset(t)[t[k]] > 0;
      var m :| 0 <= m < |pieces| && pieces[m] == t[k];
    }
  }

  /** The first line of a text holds no line break, and only characters of the text. */
  lemma FirstLineShape(w: string)
    ensures var piece := Split(w, '\n')[0];
      '\n' !in piece && forall j :: 0 <= j < |piece| ==> piece[j] in w
  {
    JoinSplit(w, '\n');
    SplitChars(w, '\n');
  }

  /** Text made of the characters of a lower-case text is lower-case. */
  lemma LowerByChars(piece: string, w: string)
    requires IsLower(w) && forall j :: 0 <= j < |piece| ==> piece[j] in w
    ensures IsLower(piece)
  {
    forall j | 0 <= j < |piece|
      ensures !('A' <= piece[j] <= 'Z')
    {
      var k :| 0 <= k < |w| && w[k] == piece[j];
    }
  }

  /** A slice keeps the absence of a line break and lower case. */
  lemma SliceShape(piece: string, a: nat, b: nat)
    requires a <= b <= |piece|
    ensures '\n' !in piece ==> '\n' !in piece[a..b]
    ensures IsLower(piece) ==> IsLower(piece[a..b])
  {
    assert forall j :: 0 <= j < b - a ==> piece[a..b][j] == piece[a + j];
  }

  /** The table name holds no line break, is lower-case for a lower-case word, and is trimmed. */
  lemma TableWordShape(v: string)
    ensures '\n' !in TableWord(v)
    ensures IsLower(v) ==> IsLower(TableWord(v))
    ensures TableWord(v) != [] ==>
      !IsSpace(TableWord(v)[0]) && !IsSpace(TableWord(v)[|TableWord(v)| - 1])
  {
    var w := if EndsWith(v, ";") then v[..|v| - 1] else v;
    var piece := Split(w, '\n')[0];
    FirstLineShape(w);
    TrimSpaceShape(piece);
    var a, b :| 0 <= a <= b <= |piece| && TrimSpace(piece) == piece[a..b];
    if IsLower(v) {
      assert IsLower(w);
      LowerByChars(piece, w);
    }
    SliceShape(piece, a, b);
  }

  /** `getTableNameFromSQLQuery`: a search for the first `from` or `into` followed by a word. */
  method GetTableNameFromSQLQuery(sqlQuery: string) returns (tblName: string)
    ensures tblName == TableName(sqlQuery)
  {
    var sqlQueryLower := ToLower(sqlQuery);
    var x := Split(sqlQueryLower, ' ');
    var vx := RemoveElement(x, "");
    var count := |vx|;
    var i := 0;
    while i < count
      invariant 0 <= i <= count
      invariant TableNameIn(vx[i..]) == TableNameIn(vx)
    {
      assert vx[i..][1..] == vx[i + 1..];
      var vxstr := vx[i];
      if vxstr == "from" || vxstr == "into" {
        if i + 1 < count {
          var v := vx[i + 1];
          if EndsWith(v, ";") {
            v := v[..|v| - 1];
          }
          tblName := TrimSpace(Split(v, '\n')[0]);
          return;
        }
      }
      i := i + 1;
    }
    return "";
  }

  // ---------------------------------------------------------------------
  // fixQuery
  // ---------------------------------------------------------------------

  /**
   * `fixQuery`: every line break and every tab becomes a space. The length
   * is kept, and every other character is unchanged.
   */
  function FixQuery(sqlx: string): (r: string)
    ensures |r| == |sqlx|
    ensures forall i :: 0 <= i < |sqlx| ==>
      r[i] == (if sqlx[i] == '\n' || sqlx[i] == '\t' then ' ' else sqlx[i])
    ensures '\n' !in r && '\t' !in r
  {
    ReplaceAllChar(sqlx, '\n', ' ');
    ReplaceAllChar(ReplaceAll(sqlx, "\n", " "), '\t', ' ');
    var r := ReplaceAll(ReplaceAll(sqlx, "\n", " "), "\t", " ");
    assert forall i :: 0 <= i < |r| ==> r[i] != '\n' && r[i] != '\t';
    r
  }

  // ---------------------------------------------------------------------
  // fixSQLQuery
  // ---------------------------------------------------------------------

  /** `fixSQLQuery`: lower-case, bracket the `group` keyword, lower-case again, then bracket `group;`. */
  function FixSQLQuery(sqlQuery: string): (r: string)
    ensures |r| >= |sqlQuery|
  {
    var first := ReplaceAll(ToLower(sqlQuery), " group ", " [Group] ");
    ReplaceAllNotShorter(ToLower(sqlQuery), " group ", " [Group] ");
    ReplaceAllNotShorter(ToLower(first), " group;", " [Group];");
    ReplaceAll(ToLower(first), " group;", " [Group];")
  }

  /**
   * The second lower-casing turns the first rewrite into " [group] ", so
   * only the rewrite of " group;" keeps its capital G.
   */
  lemma FixSQLQueryStages(sqlQuery: string)
    ensures FixSQLQuery(sqlQuery) ==
      ReplaceAll(ReplaceAll(ToLower(sqlQuery), " group ", " [group] "), " group;", " [Group];")
  {
    ToLowerIsLower(sqlQuery);
    LowerOfReplaceAll(ToLower(sqlQuery), " group ", " [Group] ");
    assert ToLower(" [Group] ") == " [group] ";
  }

  /** A statement without the keyword comes back lower-cased and otherwise unchanged. */
  lemma FixSQLQueryWithoutGroup(sqlQuery: string)
    requires !Contains(ToLower(sqlQuery), " group ") && !Contains(ToLower(sqlQuery), " group;")
    ensures FixSQLQuery(sqlQuery) == ToLower(sqlQuery)
  {
    var lower := ToLower(sqlQuery);
    ReplaceAllAbsent(lower, " group ", " [Group] ");
    ToLowerIsLower(sqlQuery);
    LowerFixesLower(lower);
    ReplaceAllAbsent(lower, " group;", " [Group];");
  }

  // ---------------------------------------------------------------------
  // The statement length limit of executeNonQuery and ExecuteNonQuery
  // ---------------------------------------------------------------------

  const MaxStatementLength: nat := 1_000_000_000
  const TooLongMessage: string := "query length exceeded max length of 1000000000 bytes"

  /** Either the call ends with a row count and an error, or the statement goes on to a transaction. */
  datatype Execution = Rejected(rowsAffected: int, error: string) | Proceeds(statement: string)

  /** `executeNonQuery` before it begins a transaction. */
  function CheckStatementLength(sqlStatement: string): (r: Execution)
    ensures r.Rejected? <==> |sqlStatement| > MaxStatementLength
    ensures r.Rejected? ==> r.rowsAffected == -1 && r.error == TooLongMessage
    ensures r.Proceeds? ==> r.statement == sqlStatement
  {
    if |sqlStatement| > MaxStatementLength then Rejected(-1, TooLongMessage)
    else Proceeds(sqlStatement)
  }

  /**
   * `ExecuteNonQuery` before it begins a transaction: `fixQuery` first, then
   * the same limit. Since the clean-up keeps the length, exactly the
   * over-long statements are rejected.
   */
  function PrepareStatement(sqlStatement: string): (r: Execution)
    ensures r.Rejected? <==> |sqlStatement| > MaxStatementLength
    ensures r.Rejected? ==> r.rowsAffected == -1 && r.error == TooLongMessage
    ensures r.Proceeds? ==> r.statement == FixQuery(sqlStatement)
  {
    CheckStatementLength(FixQuery(sqlStatement))
  }
}
