/** SQLParser: one SQL text becomes one statement record, by string slicing
    around the keywords. Every Java exception the slicing can throw is an Err
    carrying the exception's name (or, for an unknown column type, its
    message). */
module SqlParser {
  import opened Wrappers
  import opened JavaStrings
  import Schemas

  /** What indexing past the end of a split result throws. */
  const NoSuchToken: string := "ArrayIndexOutOfBoundsException"
  /** The message of Schema.Type.valueOf for a name that is not a type,
      before the name itself. */
  const NoSuchType: string := "No enum constant " + TypeClassName
  const TypeClassName: string := "edu.mora.db.table.Schema.Type."
  /** The start of the message parse fails with on an unknown statement. */
  const Unsupported: string := "Unsupported SQL: "

  datatype Condition = Condition(column: string, value: string)

  /** The five statement records. The assignments of an UPDATE are the
      entries of an insertion-ordered map, first-inserted key first. */
  datatype Statement =
    | CreateTable(tableName: string, columnNames: seq<string>, columnTypes: seq<Schemas.Type>)
    | Insert(tableName: string, values: seq<string>)
    | Select(tableName: string, where: Option<Condition>)
    | Update(tableName: string, assignments: seq<(string, string)>, where: Option<Condition>)
    | Delete(tableName: string, where: Option<Condition>)

  /** The failures a statement's own parser can report. */
  predicate SlicingFailure(msg: string)
  {
    msg == OutOfBounds || msg == NoSuchToken || NoSuchType <= msg
  }

  // ---------------------------------------------------------------------
  // Text clean-up
  // ---------------------------------------------------------------------

  /** Starts and ends with a single quote (one quote alone counts). */
  predicate Quoted(s: string)
  {
    |s| >= 1 && s[0] == '\'' && s[|s| - 1] == '\''
  }

  /** stripQuotes: drops the first and last unit of a quoted text and leaves
      any other text alone; a lone quote makes substring(1, 0) throw. */
  function StripQuotes(s: string): (r: Result<string>)
    ensures r.Err? <==> s == "'"
    ensures r.Err? ==> r.msg == OutOfBounds
    ensures !Quoted(s) ==> r == Ok(s)
    ensures r.Ok? ==> |r.value| == if Quoted(s) then |s| - 2 else |s|
  {
    QuotedTest(s);
    if "'" <= s && EndsWith(s, "'") then Substring(s, 1, |s| - 1) else Ok(s)
  }

  /** The test of stripQuotes is Quoted; of quoted texts only the lone quote
      is shorter than two units. */
  lemma QuotedTest(s: string)
    ensures ("'" <= s && EndsWith(s, "'")) == Quoted(s)
    ensures Quoted(s) && |s| < 2 <==> s == "'"
  {
    if s == "'" {
      assert Quoted(s);
    }
  }

  /** Quoting any text and stripping the quotes again gives the text back. */
  lemma StripQuotesOfQuoted(v: string)
    ensures StripQuotes("'" + v + "'") == Ok(v)
  {
    var s := "'" + v + "'";
    assert s[1..|s| - 1] == v;
  }

  /** stripSemi: one trailing semicolon is removed and the rest trimmed;
      text without one is returned as it is. */
  function StripSemi(s: string): (r: string)
    ensures !EndsWith(s, ";") ==> r == s
    ensures EndsWith(s, ";") ==> Trimmed(r) && |r| < |s|
  {
    if EndsWith(s, ";") then Trim(s[..|s| - 1]) else s
  }

  /** A terminating semicolon and the blanks before it are both removed. */
  lemma StripSemiOfTerminated(m: string, b: string)
    requires Trimmed(m) && AllBlank(b)
    ensures StripSemi(m + b + ";") == m
  {
    var s := m + b + ";";
    assert s[..|s| - 1] == [] + m + b;
    TrimAround([], m, b);
  }

  /** The comment-stripping loop of stripLeadingComments, from trimmed text:
      a leading block comment up to the first closing mark is dropped and
      the rest trimmed, until the text does not begin a comment or the
      comment is not closed. */
  function CommentsStrippedFrom(sql: string): (r: string)
    decreases |sql|
    ensures |r| <= |sql|
    ensures Trimmed(sql) ==> Trimmed(r)
    ensures "/*" <= r ==> IndexOf(r, "*/") < 0
  {
    if "/*" <= sql then
      var end := IndexOf(sql, "*/");
      if end < 0 then sql else CommentsStrippedFrom(Trim(sql[end + 2..]))
    else sql
  }

  /** stripLeadingComments, as a value: trimmed text that does not begin
      with a closed block comment. */
  function CommentsStripped(s: string): (r: string)
    ensures Trimmed(r) && |r| <= |s|
    ensures "/*" <= r ==> IndexOf(r, "*/") < 0
  {
    CommentsStrippedFrom(Trim(s))
  }

  /** stripLeadingComments: the loop that reassigns the text. */
  method StripLeadingComments(s: string) returns (sql: string)
    ensures sql == CommentsStripped(s)
  {
    sql := Trim(s);
    while "/*" <= sql
      invariant CommentsStrippedFrom(sql) == CommentsStripped(s)
      decreases |sql|
    {
      var end := IndexOf(sql, "*/");
      if end < 0 {
        break;
      }
      var rest := sql[end + 2..];
      var next := Trim(rest);
      assert |next| <= |rest| < |sql|;
      sql := next;
    }
  }

  /** A closed leading comment, an optimiser hint such as "/*+ FAST */"
      included, is discarded with the blanks after it. */
  lemma {:induction false} CommentDiscarded(body: string, rest: string)
    requires '*' !in body && (body == [] || body[0] != '/')
    ensures CommentsStrippedFrom("/*" + body + "*/" + rest) == CommentsStrippedFrom(Trim(rest))
  {
    var s := "/*" + body + "*/" + rest;
    var n := |body| + 2;
    assert s[n..n + 2] == "*/";
    assert OccursAt(s, "*/", n);
    forall j | 0 <= j < n
      ensures !OccursAt(s, "*/", j)
    {
      assert s[j..j + 2][0] == s[j] && s[j..j + 2][1] == s[j + 1];
      if j == 0 {
        assert s[j] == '/';
      } else if j == 1 {
        assert s[2] == if body == [] then '*' else body[0];
      } else {
        assert s[j] == body[j - 2];
      }
    }
    assert s[n + 2..] == rest;
  }

  // ---------------------------------------------------------------------
  // Pieces shared by several statements
  // ---------------------------------------------------------------------

  /** Schema.Type.valueOf on an upper-cased type name. */
  function TypeNamed(name: string): (r: Result<Schemas.Type>)
    ensures r == Ok(Schemas.INT) <==> name == "INT"
    ensures r == Ok(Schemas.STRING) <==> name == "STRING"
    ensures r.Err? ==> r.msg == NoSuchType + name
  {
    if name == "INT" then Ok(Schemas.INT)
    else if name == "STRING" then Ok(Schemas.STRING)
    else Err(NoSuchType + name)
  }

  /** The text of a WHERE condition, split at its first '=': the column is
      the trimmed text before it, the value the trimmed text after it less
      a trailing semicolon and its quotes. */
  function WhereCondition(afterWhere: string): (r: Result<Condition>)
    ensures r.Err? ==> SlicingFailure(r.msg)
    ensures r.Err? <==> '=' !in afterWhere || StripSemi(Trim(SplitFirst(afterWhere, '=')[1])) == "'"
  {
    var kv := SplitFirst(afterWhere, '=');
    if |kv| < 2 then Err(NoSuchToken)
    else
      var value :- StripQuotes(StripSemi(Trim(kv[1])));
      Ok(Condition(Trim(kv[0]), value))
  }

  /** The condition read from the trimmed text from index b on, where b is
      just past the WHERE keyword. */
  function ConditionAfter(sql: string, b: int): (r: Result<Condition>)
    ensures r.Err? ==> SlicingFailure(r.msg)
  {
    var afterWhere :- SubstringFrom(sql, b);
    WhereCondition(Trim(afterWhere))
  }

  // ---------------------------------------------------------------------
  // CREATE TABLE name (col TYPE, ...)
  // ---------------------------------------------------------------------

  /** One column definition: its first whitespace-separated word is the
      name, its second, upper-cased, the type. */
  function ColumnDef(def: string): (r: Result<(string, Schemas.Type)>)
    ensures r.Err? ==> SlicingFailure(r.msg)
  {
    var parts := SplitRuns(Trim(def), Whitespace);
    if |parts| < 2 then Err(NoSuchToken)
    else
      var t :- TypeNamed(Upper(parts[1]));
      Ok((parts[0], t))
  }

  /** The definitions in order; the first bad one decides the failure. */
  function ColumnsOf(defs: seq<string>): (r: Result<(seq<string>, seq<Schemas.Type>)>)
    ensures r.Err? ==> SlicingFailure(r.msg)
    ensures r.Ok? ==> |r.value.0| == |defs| && |r.value.1| == |defs|
  {
    if |defs| == 0 then Ok(([], []))
    else
      var init :- ColumnsOf(defs[..|defs| - 1]);
      var col :- ColumnDef(defs[|defs| - 1]);
      Ok((init.0 + [col.0], init.1 + [col.1]))
  }

  /** The loop of parseCreate that fills the name and type lists. */
  method ParseColumns(defs: seq<string>) returns (r: Result<(seq<string>, seq<Schemas.Type>)>)
    ensures r == ColumnsOf(defs)
  {
    var names: seq<string> := [];
    var types: seq<Schemas.Type> := [];
    for i := 0 to |defs|
      invariant ColumnsOf(defs[..i]) == Ok((names, types))
    {
      assert defs[..i + 1][..i] == defs[..i];
      var col := ColumnDef(defs[i]);
      if col.Err? {
        assert ColumnsOf(defs[..i + 1]) == Err(col.msg);
        PrefixFailureColumns(defs, i + 1);
        return Err(col.msg);
      }
      names := names + [col.value.0];
      types := types + [col.value.1];
    }
    assert defs[..|defs|] == defs;
    return Ok((names, types));
  }

  /** A failure among the first n definitions is the failure of them all. */
  lemma {:induction false} PrefixFailureColumns(defs: seq<string>, n: nat)
    requires n <= |defs| && ColumnsOf(defs[..n]).Err?
    ensures ColumnsOf(defs) == ColumnsOf(defs[..n])
    decreases |defs| - n
  {
    if n < |defs| {
      assert defs[..n + 1][..n] == defs[..n];
      PrefixFailureColumns(defs, n + 1);
    } else {
      assert defs[..n] == defs;
    }
  }

  /** parseCreate: the table name is the trimmed text between the twelfth
      unit and the first '(', the definitions the comma-separated pieces
      between that '(' and the last ')'. */
  function ParseCreate(sql: string): (r: Result<Statement>)
    ensures r.Ok? ==> r.value.CreateTable? && |r.value.columnNames| == |r.value.columnTypes|
    ensures r.Err? ==> SlicingFailure(r.msg)
  {
    var rest :- SubstringFrom(sql, |"CREATE TABLE"|);
    var remainder := Trim(rest);
    var open := FirstIndex(remainder, '(');
    var name :- Substring(remainder, 0, open);
    var list :- Substring(remainder, open + 1, LastIndex(remainder, ')'));
    var cols :- ColumnsOf(SplitAt(Trim(list), ','));
    Ok(CreateTable(Trim(name), cols.0, cols.1))
  }

  // ---------------------------------------------------------------------
  // INSERT INTO name VALUES (v, ...)
  // ---------------------------------------------------------------------

  /** One value: trimmed, then its quotes stripped. */
  function ValueOf(piece: string): (r: Result<string>)
    ensures r.Err? ==> r.msg == OutOfBounds
  {
    StripQuotes(Trim(piece))
  }

  /** The values in order; the first bad one decides the failure. */
  function ValuesOf(pieces: seq<string>): (r: Result<seq<string>>)
    ensures r.Err? ==> r.msg == OutOfBounds
    ensures r.Ok? ==> |r.value| == |pieces|
  {
    if |pieces| == 0 then Ok([])
    else
      var init :- ValuesOf(pieces[..|pieces| - 1]);
      var v :- ValueOf(pieces[|pieces| - 1]);
      Ok(init + [v])
  }

  /** One more value on top of those before it. */
  lemma ValuesStep(pieces: seq<string>, i: nat, vals: seq<string>)
    requires i < |pieces| && ValuesOf(pieces[..i]) == Ok(vals)
    ensures ValuesOf(pieces[..i + 1]) ==
      match ValueOf(pieces[i])
      case Ok(v) => Ok(vals + [v])
      case Err(e) => Err(e)
  {
    assert pieces[..i + 1][..i] == pieces[..i];
  }

  /** The loop of parseInsert that fills the value list. */
  method ParseValues(pieces: seq<string>) returns (r: Result<seq<string>>)
    ensures r == ValuesOf(pieces)
  {
    var vals: seq<string> := [];
    for i := 0 to |pieces|
      invariant ValuesOf(pieces[..i]) == Ok(vals)
    {
      ValuesStep(pieces, i, vals);
      var v := StripQuotes(Trim(pieces[i]));
      if v.Err? {
        PrefixFailureValues(pieces, i + 1);
        return Err(v.msg);
      }
      vals := vals + [v.value];
    }
    assert pieces[..|pieces|] == pieces;
    return Ok(vals);
  }

  /** A failure among the first n values is the failure of them all. */
  lemma {:induction false} PrefixFailureValues(pieces: seq<string>, n: nat)
    requires n <= |pieces| && ValuesOf(pieces[..n]).Err?
    ensures ValuesOf(pieces) == ValuesOf(pieces[..n])
    decreases |pieces| - n
  {
    if n < |pieces| {
      assert pieces[..n + 1][..n] == pieces[..n];
      PrefixFailureValues(pieces, n + 1);
    } else {
      assert pieces[..n] == pieces;
    }
  }

  /** parseInsert: the table is the third whitespace-separated word before
      the first VALUES (in any case); the values are the comma-separated
      pieces between the first '(' and the last ')' after it. */
  function ParseInsert(sql: string): (r: Result<Statement>)
    ensures r.Ok? ==> r.value.Insert?
    ensures r.Err? ==> SlicingFailure(r.msg)
  {
    InsertAt(sql, IndexOf(Upper(sql), "VALUES"))
  }

  /** The statement from the texts before and after the VALUES at index at. */
  function InsertAt(sql: string, at: int): (r: Result<Statement>)
    ensures r.Ok? ==> r.value.Insert?
    ensures r.Err? ==> SlicingFailure(r.msg)
  {
    var head :- Substring(sql, 0, at);
    var tail :- SubstringFrom(sql, at + |"VALUES"|);
    InsertParts(Trim(head), Trim(tail))
  }

  /** The statement from the trimmed texts before and after VALUES. */
  function InsertParts(head: string, tail: string): (r: Result<Statement>)
    ensures r.Ok? ==> r.value.Insert?
    ensures r.Err? ==> SlicingFailure(r.msg)
  {
    var words := SplitRuns(head, Whitespace);
    if |words| < 3 then Err(NoSuchToken)
    else
      var list :- Substring(tail, FirstIndex(tail, '(') + 1, LastIndex(tail, ')'));
      var vals :- ValuesOf(SplitAt(list, ','));
      Ok(Insert(words[2], vals))
  }

  // ---------------------------------------------------------------------
  // SELECT * FROM name [WHERE col = val]
  // ---------------------------------------------------------------------

  /** parseSelect: the table is the first space-separated word after the
      first FROM (in any case); a WHERE anywhere in the text brings a
      condition, read from the text after it. */
  function ParseSelect(sql: string): (r: Result<Statement>)
    ensures r.Ok? ==> r.value.Select?
    ensures r.Err? ==> SlicingFailure(r.msg)
    ensures r.Ok? ==> (r.value.where.Some? <==> IndexOf(Upper(Trim(sql)), "WHERE") >= 0)
  {
    var upper := Upper(Trim(sql));
    SelectAt(sql, IndexOf(upper, "FROM"), IndexOf(upper, "WHERE"))
  }

  /** parseSelect once FROM and WHERE are found at the given indices. */
  function SelectAt(sql: string, at: int, whereAt: int): (r: Result<Statement>)
    ensures r.Ok? ==> r.value.Select?
    ensures r.Err? ==> SlicingFailure(r.msg)
    ensures r.Ok? ==> (r.value.where.Some? <==> whereAt >= 0)
  {
    var afterFrom :- SubstringFrom(sql, at + |"FROM"|);
    var words := SplitRuns(Trim(afterFrom), Spaces);
    if |words| == 0 then Err(NoSuchToken)
    else if whereAt < 0 then Ok(Select(words[0], None))
    else
      var cond :- ConditionAfter(sql, whereAt + |"WHERE"|);
      Ok(Select(words[0], Some(cond)))
  }

  // ---------------------------------------------------------------------
  // UPDATE name SET col = val, ... [WHERE col = val]
  // ---------------------------------------------------------------------

  /** The keys of an insertion-ordered map, in order. */
  function Keys(m: seq<(string, string)>): (r: seq<string>)
    ensures |r| == |m| && forall i :: 0 <= i < |m| ==> r[i] == m[i].0
  {
    seq(|m|, i requires 0 <= i < |m| => m[i].0)
  }

  /** No key appears twice. */
  predicate DistinctKeys(m: seq<(string, string)>)
  {
    forall i, j :: 0 <= i < j < |m| ==> m[i].0 != m[j].0
  }

  /** The position of the entry for k, or -1. */
  function KeyIndex(m: seq<(string, string)>, k: string): (i: int)
    ensures i < 0 ==> i == -1 && forall j :: 0 <= j < |m| ==> m[j].0 != k
    ensures i >= 0 ==> i < |m| && m[i].0 == k
  {
    if |m| == 0 then -1
    else if m[|m| - 1].0 == k then |m| - 1
    else KeyIndex(m[..|m| - 1], k)
  }

  /** LinkedHashMap.get. */
  function Get(m: seq<(string, string)>, k: string): Option<string>
  {
    var i := KeyIndex(m, k);
    if i < 0 then None else Some(m[i].1)
  }

  /** LinkedHashMap.put: a present key takes the new value in its old place;
      a new key goes at the end. */
  function Put(m: seq<(string, string)>, k: string, v: string): (r: seq<(string, string)>)
    requires DistinctKeys(m)
    ensures DistinctKeys(r)
    ensures Keys(r) == if k in Keys(m) then Keys(m) else Keys(m) + [k]
  {
    var i := KeyIndex(m, k);
    if i < 0 then m + [(k, v)] else m[i := (k, v)]
  }

  /** After put the key reads the new value and every other key reads what
      it read before. */
  lemma GetPut(m: seq<(string, string)>, k: string, v: string, k2: string)
    requires DistinctKeys(m)
    ensures Get(Put(m, k, v), k2) == if k2 == k then Some(v) else Get(m, k2)
  {
    var r := Put(m, k, v);
    var i := KeyIndex(r, k2);
    var j := KeyIndex(m, k2);
    if i >= 0 && j >= 0 {
      assert r[j].0 == k2 || j == KeyIndex(m, k);
    }
  }

  /** One assignment: split at its first '='; the key is the trimmed text
      before it, the value the trimmed, quote-stripped text after it. */
  function AssignmentOf(pair: string): (r: Result<(string, string)>)
    ensures r.Err? ==> SlicingFailure(r.msg)
  {
    var kv := SplitFirst(pair, '=');
    if |kv| < 2 then Err(NoSuchToken)
    else
      var v :- StripQuotes(Trim(kv[1]));
      Ok((Trim(kv[0]), v))
  }

  /** The assignments put into the map in order; the first bad one decides
      the failure. */
  function AssignmentsOf(pairs: seq<string>): (r: Result<seq<(string, string)>>)
    ensures r.Err? ==> SlicingFailure(r.msg)
    ensures r.Ok? ==> DistinctKeys(r.value)
  {
    if |pairs| == 0 then Ok([])
    else
      var init :- AssignmentsOf(pairs[..|pairs| - 1]);
      var a :- AssignmentOf(pairs[|pairs| - 1]);
      Ok(Put(init, a.0, a.1))
  }

  /** One more assignment on top of those before it. */
  lemma AssignmentsStep(pairs: seq<string>, i: nat, assigns: seq<(string, string)>)
    requires i < |pairs| && AssignmentsOf(pairs[..i]) == Ok(assigns)
    ensures DistinctKeys(assigns)
    ensures AssignmentsOf(pairs[..i + 1]) ==
      match AssignmentOf(pairs[i])
      case Ok(a) => Ok(Put(assigns, a.0, a.1))
      case Err(e) => Err(e)
  {
    assert pairs[..i + 1][..i] == pairs[..i];
  }

  /** The loop of parseUpdate that fills the map. */
  method CollectAssignments(pairs: seq<string>) returns (r: Result<seq<(string, string)>>)
    ensures r == AssignmentsOf(pairs)
  {
    var assigns: seq<(string, string)> := [];
    for i := 0 to |pairs|
      invariant AssignmentsOf(pairs[..i]) == Ok(assigns)
    {
      AssignmentsStep(pairs, i, assigns);
      var a := AssignmentOf(pairs[i]);
      if a.Err? {
        PrefixFailureAssignments(pairs, i + 1);
        return Err(a.msg);
      }
      assigns := Put(assigns, a.value.0, a.value.1);
    }
    assert pairs[..|pairs|] == pairs;
    return Ok(assigns);
  }

  /** A failure among the first n assignments is the failure of them all. */
  lemma {:induction false} PrefixFailureAssignments(pairs: seq<string>, n: nat)
    requires n <= |pairs| && AssignmentsOf(pairs[..n]).Err?
    ensures AssignmentsOf(pairs) == AssignmentsOf(pairs[..n])
    decreases |pairs| - n
  {
    if n < |pairs| {
      assert pairs[..n + 1][..n] == pairs[..n];
      PrefixFailureAssignments(pairs, n + 1);
    } else {
      assert pairs[..n] == pairs;
    }
  }

  /** The value of the last well-formed assignment to k, or None. */
  function LastAssigned(pairs: seq<string>, k: string): Option<string>
  {
    if |pairs| == 0 then None
    else
      var a := AssignmentOf(pairs[|pairs| - 1]);
      if a.Ok? && a.value.0 == k then Some(a.value.1) else LastAssigned(pairs[..|pairs| - 1], k)
  }

  /** The assigned keys, each where it is first assigned. */
  function FirstAssigned(pairs: seq<string>): seq<string>
  {
    if |pairs| == 0 then []
    else
      var ks := FirstAssigned(pairs[..|pairs| - 1]);
      var a := AssignmentOf(pairs[|pairs| - 1]);
      if a.Err? || a.value.0 in ks then ks else ks + [a.value.0]
  }

  /** A column assigned more than once keeps the last value given to it. */
  lemma {:induction false} LastAssignmentWins(pairs: seq<string>, k: string)
    requires AssignmentsOf(pairs).Ok?
    ensures Get(AssignmentsOf(pairs).value, k) == LastAssigned(pairs, k)
  {
    if |pairs| > 0 {
      var init := pairs[..|pairs| - 1];
      var m := AssignmentsOf(init).value;
      var a := AssignmentOf(pairs[|pairs| - 1]).value;
      LastAssignmentWins(init, k);
      GetPut(m, a.0, a.1, k);
    }
  }

  /** The map lists the columns in the order of their first assignment. */
  lemma {:induction false} AssignmentOrder(pairs: seq<string>)
    requires AssignmentsOf(pairs).Ok?
    ensures Keys(AssignmentsOf(pairs).value) == FirstAssigned(pairs)
  {
    if |pairs| > 0 {
      AssignmentOrder(pairs[..|pairs| - 1]);
    }
  }

  /** parseUpdate: the table is the trimmed text between the sixth unit and
      the first " SET "; the assignments are the comma-separated pieces up
      to the first " WHERE " or the end; the condition follows " WHERE ". */
  function ParseUpdate(sql: string): (r: Result<Statement>)
    ensures r.Ok? ==> r.value.Update? && DistinctKeys(r.value.assignments)
    ensures r.Err? ==> SlicingFailure(r.msg)
  {
    var upper := Upper(sql);
    UpdateAt(sql, IndexOf(upper, " SET "), IndexOf(upper, " WHERE "))
  }

  /** parseUpdate once " SET " and " WHERE " are found at the given indices. */
  function UpdateAt(sql: string, setAt: int, whereAt: int): (r: Result<Statement>)
    ensures r.Ok? ==> r.value.Update? && DistinctKeys(r.value.assignments)
    ensures r.Ok? ==> (r.value.where.Some? <==> whereAt >= 0)
    ensures r.Err? ==> SlicingFailure(r.msg)
  {
    var table :- Substring(sql, |"UPDATE"|, setAt);
    var assignPart :- if whereAt < 0 then SubstringFrom(sql, setAt + 4) else Substring(sql, setAt + 4, whereAt);
    var assigns :- AssignmentsOf(SplitAt(Trim(assignPart), ','));
    if whereAt < 0 then Ok(Update(Trim(table), assigns, None))
    else
      var cond :- ConditionAfter(sql, whereAt + 6);
      Ok(Update(Trim(table), assigns, Some(cond)))
  }

  // ---------------------------------------------------------------------
  // DELETE FROM name [WHERE col = val]
  // ---------------------------------------------------------------------

  /** parseDelete: the table is the trimmed text between the first FROM and
      the first WHERE (in any case) or the end; the condition follows WHERE. */
  function ParseDelete(sql: string): (r: Result<Statement>)
    ensures r.Ok? ==> r.value.Delete?
    ensures r.Err? ==> SlicingFailure(r.msg)
    ensures r.Ok? ==> (r.value.where.Some? <==> IndexOf(Upper(sql), "WHERE") >= 0)
  {
    var upper := Upper(sql);
    DeleteAt(sql, IndexOf(upper, "FROM"), IndexOf(upper, "WHERE"))
  }

  /** parseDelete once FROM and WHERE are found at the given indices. */
  function DeleteAt(sql: string, fromAt: int, whereAt: int): (r: Result<Statement>)
    ensures r.Ok? ==> r.value.Delete?
    ensures r.Err? ==> SlicingFailure(r.msg)
    ensures r.Ok? ==> (r.value.where.Some? <==> whereAt >= 0)
  {
    var table :- Substring(sql, fromAt + |"FROM"|, if whereAt >= 0 then whereAt else |sql|);
    if whereAt < 0 then Ok(Delete(Trim(table), None))
    else
      var cond :- ConditionAfter(sql, whereAt + |"WHERE"|);
      Ok(Delete(Trim(table), Some(cond)))
  }

  // ---------------------------------------------------------------------
  // parse
  // ---------------------------------------------------------------------

  /** The text starts, in any case, with one of the five statement words. */
  predicate Recognised(upper: string)
  {
    "CREATE" <= upper || "INSERT" <= upper || "SELECT" <= upper || "UPDATE" <= upper || "DELETE" <= upper
  }

  /** parse: strips leading comments, picks the statement by its first word
      in any case, and rejects every other text. */
  function Parse(sql: string): (r: Result<Statement>)
    ensures !Recognised(Upper(CommentsStripped(sql))) ==> r == Err(Unsupported + CommentsStripped(sql))
  {
    var t := CommentsStripped(sql);
    var upper := Upper(t);
    if "CREATE" <= upper then ParseCreate(t)
    else if "INSERT" <= upper then ParseInsert(t)
    else if "SELECT" <= upper then ParseSelect(t)
    else if "UPDATE" <= upper then ParseUpdate(t)
    else if "DELETE" <= upper then ParseDelete(t)
    else Err(Unsupported + t)
  }

  /** None of a statement parser's own failures reads as an unsupported
      statement. */
  lemma SlicingNotUnsupported(msg: string)
    requires SlicingFailure(msg)
    ensures !(Unsupported <= msg)
  {
    if msg == OutOfBounds {
      assert msg[0] == 'S';
    } else if msg == NoSuchToken {
      assert msg[0] == 'A';
    } else {
      assert NoSuchType[0] == 'N';
      assert msg[0] == NoSuchType[0];
    }
  }

  /** parse reports "Unsupported SQL" exactly for text that does not begin
      with one of the five words, and otherwise yields the statement the
      word names or a failure of that statement's parser. */
  lemma ParseKinds(sql: string)
    ensures var t := CommentsStripped(sql); var r := Parse(sql);
      && (!Recognised(Upper(t)) <==> r.Err? && Unsupported <= r.msg)
      && (r.Ok? ==> (r.value.CreateTable? <==> "CREATE" <= Upper(t)))
      && (r.Ok? ==> (r.value.Insert? <==> "INSERT" <= Upper(t)))
      && (r.Ok? ==> (r.value.Select? <==> "SELECT" <= Upper(t)))
      && (r.Ok? ==> (r.value.Update? <==> "UPDATE" <= Upper(t)))
      && (r.Ok? ==> (r.value.Delete? <==> "DELETE" <= Upper(t)))
  {
    var t := CommentsStripped(sql);
    var u := Upper(t);
    var r := Parse(sql);
    if r.Err? && Recognised(u) {
      SlicingNotUnsupported(r.msg);
    }
    if !Recognised(u) {
      assert Unsupported <= Unsupported + t;
    }
  }
}
