/** The SQL texts each statement parser is written for, produced from the
    statement records, and the proofs that parse reads every such text back
    as the record it came from. */
module SqlRender {
  import opened Wrappers
  import opened JavaStrings
  import opened SqlParser
  import Schemas

  predicate IdentChar(c: char)
  {
    'a' <= c <= 'z' || 'A' <= c <= 'Z' || '0' <= c <= '9' || c == '_'
  }

  /** A table or column name: letters, digits and underscores. */
  predicate Ident(s: string)
  {
    |s| > 0 && forall i :: 0 <= i < |s| ==> IdentChar(s[i])
  }

  /** The text does not hold the keyword, in any case. */
  predicate Avoids(s: string, keyword: string)
  {
    IndexOf(Upper(s), keyword) < 0
  }

  /** A value as a quoted literal. */
  function Quote(v: string): string
  {
    "'" + v + "'"
  }

  function QuoteAll(vs: seq<string>): (r: seq<string>)
    ensures |r| == |vs| && forall i :: 0 <= i < |vs| ==> r[i] == Quote(vs[i])
  {
    seq(|vs|, i requires 0 <= i < |vs| => Quote(vs[i]))
  }

  // ---------------------------------------------------------------------
  // Facts about the pieces
  // ---------------------------------------------------------------------

  lemma IdentFacts(s: string)
    requires Ident(s)
    ensures NoSep(Whitespace, s) && NoSep(Spaces, s) && Trimmed(s)
    ensures '(' !in s && ')' !in s && ',' !in s && '=' !in s && ' ' !in s
    ensures forall i :: 0 <= i < |s| ==> !Blank(s[i])
    ensures forall i :: 0 <= i < |Upper(s)| ==> Upper(s)[i] != ' '
  {
  }

  /** Text that starts and ends with a non-blank and does not start with a
      slash comes out of comment stripping unchanged. */
  lemma PlainText(s: string)
    requires |s| > 0 && !Blank(s[0]) && s[0] != '/' && !Blank(s[|s| - 1])
    ensures CommentsStripped(s) == s
  {
    assert s == [] + s + [];
    TrimAround([], s, []);
  }

  /** A text too short for p, or of p's length but different, lacks p. */
  lemma Absent(s: string, p: string)
    requires |s| < |p| || (|s| == |p| && s != p)
    ensures IndexOf(s, p) < 0
  {
    assert s[0..|s|] == s;
  }

  /** A quoted value is trimmed already and reads back as the value. */
  lemma ValueOfQuoted(v: string)
    ensures ValueOf(Quote(v)) == Ok(v)
  {
    var q := Quote(v);
    assert q == [] + q + [];
    TrimAround([], q, []);
    StripQuotesOfQuoted(v);
  }

  lemma {:induction false} ValuesOfQuoted(vs: seq<string>)
    ensures ValuesOf(QuoteAll(vs)) == Ok(vs)
  {
    if |vs| > 0 {
      var n := |vs| - 1;
      var qs := QuoteAll(vs);
      assert qs[..n] == QuoteAll(vs[..n]);
      ValuesOfQuoted(vs[..n]);
      ValuesStep(qs, n, vs[..n]);
      ValueOfQuoted(vs[n]);
      assert qs[..n + 1] == qs;
      LastSplit(vs);
    }
  }

  /** The first three and the last of five elements, as the words of an INSERT statement are cut around VALUES. */
  lemma Fifths<T>(s: seq<T>)
    requires |s| == 5
    ensures s[..3] == [s[0], s[1], s[2]] && s[4..] == [s[4]]
  {
  }

  /** A non-empty sequence is its front followed by its last element. */
  lemma LastSplit<T>(s: seq<T>)
    requires |s| > 0
    ensures s[..|s| - 1] + [s[|s| - 1]] == s
  {
  }

  /** Quoted values joined by commas split back into the quoted values. */
  lemma SplitQuoted(vs: seq<string>)
    requires |vs| >= 1 && forall i :: 0 <= i < |vs| ==> ',' !in vs[i]
    ensures SplitAt(Join(QuoteAll(vs), ','), ',') == QuoteAll(vs)
  {
    var qs := QuoteAll(vs);
    forall k | 0 <= k < |qs|
      ensures ',' !in qs[k]
    {
      assert qs[k] == "'" + vs[k] + "'";
    }
    SplitAtJoin(qs, ',');
  }

  // ---------------------------------------------------------------------
  // Texts made of words separated by single spaces
  // ---------------------------------------------------------------------

  /** The index at which word i of the space-separated text starts. */
  function Lead(ws: seq<string>, i: nat): nat
    requires i <= |ws|
  {
    if i == 0 then 0 else |ws[0]| + 1 + Lead(ws[1..], i - 1)
  }

  function UpperAll(ws: seq<string>): (r: seq<string>)
    ensures |r| == |ws| && forall i :: 0 <= i < |ws| ==> r[i] == Upper(ws[i])
  {
    seq(|ws|, i requires 0 <= i < |ws| => Upper(ws[i]))
  }

  /** Word i starts at Lead(ws, i); what lies before it is the earlier words
      and a space. */
  lemma {:induction false} JoinSlices(ws: seq<string>, i: nat)
    requires i < |ws|
    ensures Lead(ws, i) + |ws[i]| <= |Join(ws, ' ')|
    ensures Join(ws, ' ')[Lead(ws, i)..] == Join(ws[i..], ' ')
    ensures i > 0 ==> Join(ws, ' ')[..Lead(ws, i)] == Join(ws[..i], ' ') + " "
  {
    if i == 0 {
      assert ws[0..] == ws;
      if |ws| > 1 {
        assert Join(ws, ' ') == ws[0] + [' '] + Join(ws[1..], ' ');
      }
    } else {
      var s := Join(ws, ' ');
      var tl := ws[1..];
      assert s == ws[0] + [' '] + Join(tl, ' ');
      JoinSlices(tl, i - 1);
      assert tl[i - 1..] == ws[i..];
      if i > 1 {
        assert tl[..i - 1] == ws[..i][1..];
        assert Join(ws[..i], ' ') == ws[0] + [' '] + Join(tl[..i - 1], ' ');
      }
    }
  }

  /** The words from i on: word i, a space, and the words after it. */
  lemma JoinRest(ws: seq<string>, i: nat)
    requires i + 1 < |ws|
    ensures Join(ws[i..], ' ') == ws[i] + " " + Join(ws[i + 1..], ' ')
  {
    assert ws[i..][1..] == ws[i + 1..];
  }

  /** The first and last units of the text are those of its first and last
      pieces, joined by c. */
  lemma {:induction false} JoinEdges(ws: seq<string>, c: char)
    requires |ws| >= 1 && forall i :: 0 <= i < |ws| ==> |ws[i]| > 0
    ensures var s := Join(ws, c);
      |s| > 0 && s[0] == ws[0][0] && s[|s| - 1] == ws[|ws| - 1][|ws[|ws| - 1]| - 1]
  {
    if |ws| > 1 {
      var tl := ws[1..];
      assert forall i :: 0 <= i < |tl| ==> tl[i] == ws[i + 1];
      JoinEdges(tl, c);
      var r := Join(tl, c);
      var s := ws[0] + [c] + r;
      assert Join(ws, c) == s;
      assert s[0] == ws[0][0];
      assert s[|s| - 1] == r[|r| - 1];
      assert tl[|tl| - 1] == ws[|ws| - 1];
    }
  }

  lemma {:induction false} UpperJoin(ws: seq<string>)
    ensures Upper(Join(ws, ' ')) == Join(UpperAll(ws), ' ')
  {
    if |ws| > 1 {
      UpperJoin(ws[1..]);
      assert UpperAll(ws)[1..] == UpperAll(ws[1..]);
      UpperConcat(ws[0] + [' '], Join(ws[1..], ' '));
      UpperConcat(ws[0], [' ']);
    }
  }

  lemma {:induction false} LeadUpper(ws: seq<string>, i: nat)
    requires i <= |ws|
    ensures Lead(UpperAll(ws), i) == Lead(ws, i)
  {
    if i > 0 {
      assert UpperAll(ws)[1..] == UpperAll(ws[1..]);
      LeadUpper(ws[1..], i - 1);
    }
  }

  /** A keyword without spaces is first found at the first word that starts
      with it, when no earlier word holds it. */
  lemma {:induction false} KeywordAt(us: seq<string>, i: nat, kw: string)
    requires i < |us| && ' ' !in kw && kw <= us[i]
    requires forall j :: 0 <= j < i ==> IndexOf(us[j], kw) < 0
    ensures IndexOf(Join(us, ' '), kw) == Lead(us, i)
  {
    var s := Join(us, ' ');
    if i == 0 {
      JoinSlices(us, 0);
      assert s[..|kw|] == us[0][..|kw|];
      assert OccursAt(s, kw, 0);
    } else {
      assert s == us[0] + [' '] + Join(us[1..], ' ');
      KeywordAt(us[1..], i - 1, kw);
      IndexOfBarrier(us[0], ' ', Join(us[1..], ' '), kw);
    }
  }

  /** A keyword without spaces that no word holds is not in the text. */
  lemma {:induction false} KeywordAbsent(us: seq<string>, kw: string)
    requires |us| >= 1 && ' ' !in kw
    requires forall j :: 0 <= j < |us| ==> IndexOf(us[j], kw) < 0
    ensures IndexOf(Join(us, ' '), kw) < 0
  {
    if |us| > 1 {
      assert Join(us, ' ') == us[0] + [' '] + Join(us[1..], ' ');
      KeywordAbsent(us[1..], kw);
      IndexOfBarrier(us[0], ' ', Join(us[1..], ' '), kw);
    }
  }

  /** Every word is non-empty and neither begins nor ends with a blank. */
  predicate Words(ws: seq<string>)
  {
    |ws| >= 1 &&
    forall i :: 0 <= i < |ws| ==> |ws[i]| > 0 && !Blank(ws[i][0]) && !Blank(ws[i][|ws[i]| - 1])
  }

  lemma WordsTrimmed(ws: seq<string>)
    requires Words(ws)
    ensures Trimmed(Join(ws, ' '))
  {
    JoinEdges(ws, ' ');
  }

  /** The text before word i, trimmed, is the earlier words. */
  lemma TextBefore(ws: seq<string>, i: nat)
    requires Words(ws) && 0 < i < |ws|
    ensures Lead(ws, i) <= |Join(ws, ' ')| && Trim(Join(ws, ' ')[..Lead(ws, i)]) == Join(ws[..i], ' ')
  {
    JoinSlices(ws, i);
    assert Words(ws[..i]);
    WordsTrimmed(ws[..i]);
    TrimAround([], Join(ws[..i], ' '), " ");
    assert [] + Join(ws[..i], ' ') + " " == Join(ws[..i], ' ') + " ";
  }

  /** The text after word i is a space and the later words. */
  lemma TextAfter(ws: seq<string>, i: nat, sql: string, b: nat)
    requires Words(ws) && i + 1 < |ws|
    requires sql == Join(ws, ' ') && b == Lead(ws, i) + |ws[i]|
    ensures b < |sql| && sql[b..] == " " + Join(ws[i + 1..], ' ')
    ensures Trim(sql[b..]) == Join(ws[i + 1..], ' ')
  {
    SpaceAfter(ws, i, sql, b);
    var t := Join(ws[i + 1..], ' ');
    WordsTail(ws, i + 1);
    assert " " + t + [] == " " + t;
    TrimAround(" ", t, []);
  }

  lemma SpaceAfter(ws: seq<string>, i: nat, sql: string, b: nat)
    requires i + 1 < |ws|
    requires sql == Join(ws, ' ') && b == Lead(ws, i) + |ws[i]|
    ensures b < |sql| && sql[b..] == " " + Join(ws[i + 1..], ' ')
  {
    var n := Lead(ws, i);
    var t := Join(ws[i + 1..], ' ');
    WordsFrom(ws, i, sql, n);
    JoinRest(ws, i);
    assert sql[n..] == ws[i] + (" " + t);
    DropTwice(sql, n, |ws[i]|);
    DropFront(ws[i], " " + t);
  }

  /** The text from the start of word i on is the words from i on. */
  lemma WordsFrom(ws: seq<string>, i: nat, sql: string, n: nat)
    requires i < |ws| && sql == Join(ws, ' ') && n == Lead(ws, i)
    ensures n + |ws[i]| <= |sql| && sql[n..] == Join(ws[i..], ' ')
  {
    JoinSlices(ws, i);
  }

  lemma DropTwice<T>(s: seq<T>, n: nat, k: nat)
    requires n + k <= |s|
    ensures s[n + k..] == s[n..][k..]
  {
  }

  lemma DropFront<T>(a: seq<T>, r: seq<T>)
    ensures (a + r)[|a|..] == r
  {
  }

  lemma WordsTail(ws: seq<string>, i: nat)
    requires Words(ws) && i < |ws|
    ensures Trimmed(Join(ws[i..], ' '))
  {
    assert Words(ws[i..]);
    WordsTrimmed(ws[i..]);
  }

  /** Upper-casing keeps the word structure. */
  lemma UpperWords(ws: seq<string>, i: nat)
    requires i <= |ws|
    ensures Upper(Join(ws, ' ')) == Join(UpperAll(ws), ' ')
    ensures Lead(UpperAll(ws), i) == Lead(ws, i)
  {
    UpperJoin(ws);
    LeadUpper(ws, i);
  }

  /** A text of words needs no trimming or comment stripping. */
  lemma WordsPlain(ws: seq<string>)
    requires Words(ws) && ws[0][0] != '/'
    ensures CommentsStripped(Join(ws, ' ')) == Join(ws, ' ')
  {
    JoinEdges(ws, ' ');
    PlainText(Join(ws, ' '));
  }

  /** The upper-cased text begins with the first word upper-cased. */
  lemma UpperStart(ws: seq<string>)
    requires |ws| >= 1
    ensures Upper(ws[0]) <= Upper(Join(ws, ' '))
  {
    if |ws| > 1 {
      UpperConcat(ws[0], [' '] + Join(ws[1..], ' '));
      assert Join(ws, ' ') == ws[0] + ([' '] + Join(ws[1..], ' '));
    }
  }

  /** An upper-case word of the language. */
  predicate Keyword(k: string)
  {
    Ident(k) && Upper(k) == k
  }

  lemma KeywordsHold()
    ensures Keyword("CREATE") && Keyword("TABLE") && Keyword("INSERT") && Keyword("INTO")
    ensures Keyword("VALUES") && Keyword("SELECT") && Keyword("FROM") && Keyword("WHERE")
    ensures Keyword("UPDATE") && Keyword("SET") && Keyword("DELETE")
  {
    Capitals("CREATE");
    Capitals("TABLE");
    Capitals("INSERT");
    Capitals("INTO");
    Capitals("VALUES");
    Capitals("SELECT");
    Capitals("FROM");
    Capitals("WHERE");
    Capitals("UPDATE");
    Capitals("SET");
    Capitals("DELETE");
  }

  lemma Capitals(k: string)
    requires |k| > 0 && forall i :: 0 <= i < |k| ==> 'A' <= k[i] <= 'Z'
    ensures Keyword(k)
  {
    UpperOfCaps(k);
  }

  /** Names separated by single spaces split back into the names. */
  lemma IdentWords(ws: seq<string>)
    requires |ws| >= 1 && forall i :: 0 <= i < |ws| ==> Ident(ws[i])
    ensures SplitRuns(Join(ws, ' '), Whitespace) == ws
    ensures SplitRuns(Join(ws, ' '), Spaces) == ws
  {
    forall i | 0 <= i < |ws|
      ensures |ws[i]| > 0 && NoSep(Whitespace, ws[i]) && NoSep(Spaces, ws[i])
    {
      IdentFacts(ws[i]);
    }
    SplitRunsWords(ws, ' ', Whitespace);
    SplitRunsWords(ws, ' ', Spaces);
  }

  // ---------------------------------------------------------------------
  // INSERT INTO t VALUES ('v1','v2',...)
  // ---------------------------------------------------------------------

  /** The quoted values, comma-separated, in parentheses. */
  function ValueList(vs: seq<string>): string
  {
    "(" + Join(QuoteAll(vs), ',') + ")"
  }

  function InsertWords(t: string, list: string): seq<string>
  {
    ["INSERT", "INTO", t, "VALUES", list]
  }

  /** The INSERT text: its words separated by single spaces. */
  function RenderInsert(t: string, vs: seq<string>): string
  {
    Join(InsertWords(t, ValueList(vs)), ' ')
  }

  /** A word that neither begins nor ends with a blank. */
  predicate Solid(w: string)
  {
    |w| > 0 && !Blank(w[0]) && !Blank(w[|w| - 1])
  }

  lemma InsertWordsHold(t: string, list: string)
    requires Ident(t) && Solid(list)
    ensures Words(InsertWords(t, list))
  {
    IdentFacts(t);
  }

  /** The text is dispatched to parseInsert. */
  lemma InsertDispatch(t: string, list: string)
    requires Ident(t) && Solid(list)
    ensures var sql := Join(InsertWords(t, list), ' '); Parse(sql) == ParseInsert(sql)
  {
    var ws := InsertWords(t, list);
    var sql := Join(ws, ' ');
    InsertWordsHold(t, list);
    WordsPlain(ws);
    UpperStart(ws);
    KeywordsHold();
    assert Upper(sql)[0] == 'I';
  }

  /** VALUES is found as the fourth word. */
  lemma InsertValues(t: string, list: string)
    requires Avoids(t, "VALUES")
    ensures IndexOf(Upper(Join(InsertWords(t, list), ' ')), "VALUES") == Lead(InsertWords(t, list), 3)
  {
    var ws := InsertWords(t, list);
    var us := UpperAll(ws);
    UpperWords(ws, 3);
    KeywordsHold();
    Absent("INSERT", "VALUES");
    Absent("INTO", "VALUES");
    KeywordAt(us, 3, "VALUES");
  }

  /** In a text of five words, what lies before the fourth. */
  lemma BeforeFourth(ws: seq<string>)
    requires Words(ws) && |ws| == 5
    ensures Lead(ws, 3) <= |Join(ws, ' ')|
    ensures Trim(Join(ws, ' ')[..Lead(ws, 3)]) == Join([ws[0], ws[1], ws[2]], ' ')
  {
    TextBefore(ws, 3);
    Fifths(ws);
  }

  /** In a text of five words, what lies after the fourth. */
  lemma AfterFourth(ws: seq<string>, n: nat)
    requires Words(ws) && |ws| == 5 && |ws[3]| == n
    ensures Lead(ws, 3) + n <= |Join(ws, ' ')|
    ensures Trim(Join(ws, ' ')[Lead(ws, 3) + n..]) == ws[4]
  {
    var sql := Join(ws, ' ');
    var b := Lead(ws, 3) + n;
    TextAfter(ws, 3, sql, b);
    Fifths(ws);
  }

  /** The text s holds a keyword of n units at index at, with head and tail
      the trimmed texts before and after it. */
  predicate CutAround(s: string, at: nat, n: nat, head: string, tail: string)
  {
    at + n <= |s| && Trim(s[..at]) == head && Trim(s[at + n..]) == tail
  }

  /** In a text of five words, the fourth separates the first three from
      the fifth. */
  lemma FourthCut(ws: seq<string>, n: nat)
    requires Words(ws) && |ws| == 5 && |ws[3]| == n
    ensures CutAround(Join(ws, ' '), Lead(ws, 3), n, Join([ws[0], ws[1], ws[2]], ' '), ws[4])
  {
    BeforeFourth(ws);
    AfterFourth(ws, n);
  }

  /** parseInsert reads the trimmed texts on either side of VALUES. */
  lemma InsertAtOf(sql: string, at: nat, head: string, tail: string)
    requires CutAround(sql, at, 6, head, tail)
    ensures InsertAt(sql, at) == InsertParts(head, tail)
  {
  }

  lemma InsertTarget(t: string)
    requires Ident(t)
    ensures SplitRuns(Join(["INSERT", "INTO", t], ' '), Whitespace) == ["INSERT", "INTO", t]
  {
    KeywordsHold();
    IdentWords(["INSERT", "INTO", t]);
  }

  /** The text between the parentheses of a parenthesised list. */
  lemma Parenthesised(j: string)
    ensures var tail := "(" + j + ")";
      Substring(tail, FirstIndex(tail, '(') + 1, LastIndex(tail, ')')) == Ok(j)
  {
    var tail := "(" + j + ")";
    assert tail[1..|tail| - 1] == j;
  }

  /** Quoted values joined by commas read back as the values. */
  lemma QuotedValuesRead(vs: seq<string>)
    requires |vs| >= 1 && forall i :: 0 <= i < |vs| ==> ',' !in vs[i]
    ensures ValuesOf(SplitAt(Join(QuoteAll(vs), ','), ',')) == Ok(vs)
  {
    SplitQuoted(vs);
    ValuesOfQuoted(vs);
  }

  /** The trimmed sides read as the statement. */
  lemma InsertPartsOf(t: string, vs: seq<string>)
    requires Ident(t)
    requires |vs| >= 1 && forall i :: 0 <= i < |vs| ==> ',' !in vs[i]
    ensures InsertParts(Join(["INSERT", "INTO", t], ' '), ValueList(vs)) == Ok(Insert(t, vs))
  {
    InsertTarget(t);
    Parenthesised(Join(QuoteAll(vs), ','));
    QuotedValuesRead(vs);
  }

  lemma InsertParsed(t: string, vs: seq<string>)
    requires Ident(t) && Avoids(t, "VALUES")
    requires |vs| >= 1 && forall i :: 0 <= i < |vs| ==> ',' !in vs[i]
    ensures ParseInsert(RenderInsert(t, vs)) == Ok(Insert(t, vs))
  {
    var list := ValueList(vs);
    var ws := InsertWords(t, list);
    InsertWordsHold(t, list);
    InsertValues(t, list);
    FourthCut(ws, 6);
    InsertAtOf(Join(ws, ' '), Lead(ws, 3), Join(["INSERT", "INTO", t], ' '), list);
    InsertPartsOf(t, vs);
  }

  /** parse reads a rendered INSERT back: the table name and every value. */
  lemma InsertRoundTrip(t: string, vs: seq<string>)
    requires Ident(t) && Avoids(t, "VALUES")
    requires |vs| >= 1 && forall i :: 0 <= i < |vs| ==> ',' !in vs[i]
    ensures Parse(RenderInsert(t, vs)) == Ok(Insert(t, vs))
  {
    InsertDispatch(t, ValueList(vs));
    InsertParsed(t, vs);
  }

  // ---------------------------------------------------------------------
  // Pieces shared by SELECT and DELETE
  // ---------------------------------------------------------------------

  /** A text lacks any pattern whose first unit it does not hold. */
  lemma Lacks(s: string, p: string)
    requires |p| > 0 && p[0] !in s
    ensures IndexOf(s, p) < 0
  {
    forall j | 0 <= j <= |s|
      ensures !OccursAt(s, p, j)
    {
      if j + |p| <= |s| {
        assert s[j..j + |p|][0] == s[j];
      }
    }
  }

  /** A WHERE condition as text: the column, an equals sign between
      spaces, and the quoted value. */
  function CondText(c: Condition): string
  {
    c.column + " = " + Quote(c.value)
  }

  /** The condition, if any, names its column by a name. */
  predicate Named(w: Option<Condition>)
  {
    w.Some? ==> Ident(w.value.column)
  }

  /** whereCondition reads the condition text back as the condition,
      whatever the value holds. */
  lemma ConditionRead(c: Condition)
    requires Ident(c.column)
    ensures WhereCondition(CondText(c)) == Ok(c)
  {
    var q := Quote(c.value);
    ConditionSplit(c);
    SidesTrimmed(c.column, q);
    ValueUnquoted(c.value);
  }

  lemma ConditionSplit(c: Condition)
    requires Ident(c.column)
    ensures SplitFirst(CondText(c), '=') == [c.column + " ", " " + Quote(c.value)]
  {
    IdentFacts(c.column);
    assert CondText(c) == (c.column + " ") + ['='] + (" " + Quote(c.value));
    SplitFirstAt(c.column + " ", '=', " " + Quote(c.value));
  }

  lemma SidesTrimmed(a: string, b: string)
    requires Trimmed(a) && Trimmed(b)
    ensures Trim(a + " ") == a && Trim(" " + b) == b
  {
    TrimAround([], a, " ");
    assert [] + a + " " == a + " ";
    TrimAround(" ", b, []);
    assert " " + b + [] == " " + b;
  }

  /** A quoted value has no semicolon to strip and loses its quotes. */
  lemma ValueUnquoted(v: string)
    ensures Trimmed(Quote(v)) && StripQuotes(StripSemi(Quote(v))) == Ok(v)
  {
    var q := Quote(v);
    assert q[|q| - 1] == '\'';
    assert !EndsWith(q, ";");
    StripQuotesOfQuoted(v);
  }

  lemma CondSolid(c: Condition)
    requires Ident(c.column)
    ensures Solid(CondText(c))
  {
    var s := CondText(c);
    assert s[0] == c.column[0];
    assert s[|s| - 1] == '\'';
  }

  /** The first space-separated word of a text of words is the first word. */
  lemma FirstWord(ws: seq<string>, s: string)
    requires Words(ws) && Ident(ws[0]) && s == Join(ws, ' ')
    ensures |SplitRuns(s, Spaces)| > 0 && SplitRuns(s, Spaces)[0] == ws[0]
  {
    IdentFacts(ws[0]);
    if |ws| == 1 {
      IdentWords(ws);
    } else {
      var tl := ws[1..];
      assert Words(tl);
      JoinEdges(tl, ' ');
      assert Join(ws, ' ') == ws[0] + [' '] + Join(tl, ' ');
      SplitRunsHead(ws[0], ' ', Join(tl, ' '), Spaces);
    }
  }

  /** A text of words is its own trimmed form. */
  lemma WordsSelf(ws: seq<string>)
    requires Words(ws)
    ensures Trim(Join(ws, ' ')) == Join(ws, ' ')
  {
    WordsTrimmed(ws);
    var s := Join(ws, ' ');
    assert [] + s + [] == s;
    TrimAround([], s, []);
  }

  // ---------------------------------------------------------------------
  // SELECT * FROM t [WHERE c = 'v']
  // ---------------------------------------------------------------------

  function SelectWords(t: string, w: Option<Condition>): seq<string>
  {
    match w
    case None => ["SELECT", "*", "FROM", t]
    case Some(c) => ["SELECT", "*", "FROM", t, "WHERE", CondText(c)]
  }

  /** The SELECT text: its words separated by single spaces. */
  function RenderSelect(t: string, w: Option<Condition>): string
  {
    Join(SelectWords(t, w), ' ')
  }

  lemma SelectWordsHold(t: string, w: Option<Condition>)
    requires Ident(t) && Named(w)
    ensures Words(SelectWords(t, w))
  {
    IdentFacts(t);
    if w.Some? {
      CondSolid(w.value);
    }
  }

  /** A text that comment stripping leaves alone and that starts with
      SELECT in any case goes to parseSelect. */
  lemma DispatchSelect(sql: string)
    requires CommentsStripped(sql) == sql && "SELECT" <= Upper(sql)
    ensures Parse(sql) == ParseSelect(sql)
  {
    assert Upper(sql)[0] == 'S';
  }

  /** A text of words whose first is a keyword needs no comment stripping
      and starts with that keyword in any case. */
  lemma Dispatched(ws: seq<string>)
    requires Words(ws) && Keyword(ws[0])
    ensures CommentsStripped(Join(ws, ' ')) == Join(ws, ' ')
    ensures ws[0] <= Upper(Join(ws, ' '))
  {
    assert ws[0][0] != '/';
    WordsPlain(ws);
    UpperStart(ws);
  }

  lemma SelectDispatch(t: string, w: Option<Condition>)
    requires Ident(t) && Named(w)
    ensures Parse(RenderSelect(t, w)) == ParseSelect(RenderSelect(t, w))
  {
    SelectWordsHold(t, w);
    KeywordsHold();
    Dispatched(SelectWords(t, w));
    DispatchSelect(RenderSelect(t, w));
  }

  /** The upper-cased text is the upper-cased words. */
  lemma SelectUpper(t: string, w: Option<Condition>)
    requires Ident(t) && Named(w)
    ensures var ws := SelectWords(t, w);
      Upper(Trim(Join(ws, ' '))) == Join(UpperAll(ws), ' ')
  {
    var ws := SelectWords(t, w);
    SelectWordsHold(t, w);
    WordsSelf(ws);
    UpperJoin(ws);
  }

  /** The first three upper-cased words: SELECT, * and FROM. */
  lemma SelectFront(t: string, w: Option<Condition>)
    ensures var us := UpperAll(SelectWords(t, w));
      us[0] == "SELECT" && us[1] == "*" && us[2] == "FROM"
  {
    Capitals("SELECT");
    Capitals("FROM");
    assert Upper("*") == "*";
  }

  lemma SelectFrom(t: string, w: Option<Condition>)
    ensures var us := UpperAll(SelectWords(t, w)); IndexOf(Join(us, ' '), "FROM") == Lead(us, 2)
  {
    var us := UpperAll(SelectWords(t, w));
    SelectFront(t, w);
    Lacks("SELECT", "FROM");
    Lacks("*", "FROM");
    KeywordAt(us, 2, "FROM");
  }

  lemma SelectWhere(t: string, c: Condition)
    requires Avoids(t, "WHERE")
    ensures var us := UpperAll(SelectWords(t, Some(c))); IndexOf(Join(us, ' '), "WHERE") == Lead(us, 4)
  {
    var us := UpperAll(SelectWords(t, Some(c)));
    SelectFront(t, Some(c));
    Capitals("WHERE");
    Lacks("SELECT", "WHERE");
    Lacks("*", "WHERE");
    Lacks("FROM", "WHERE");
    KeywordFifth(us, "WHERE");
  }

  /** A keyword that is the fifth word and in none of the first four is
      first found at the fifth. */
  lemma KeywordFifth(us: seq<string>, kw: string)
    requires |us| >= 5 && ' ' !in kw && us[4] == kw
    requires IndexOf(us[0], kw) < 0 && IndexOf(us[1], kw) < 0 && IndexOf(us[2], kw) < 0 && IndexOf(us[3], kw) < 0
    ensures IndexOf(Join(us, ' '), kw) == Lead(us, 4)
  {
    forall j | 0 <= j < 4
      ensures IndexOf(us[j], kw) < 0
    {
      if j < 2 {
        assert j == 0 || j == 1;
      } else {
        assert j == 2 || j == 3;
      }
    }
    assert kw[..|kw|] == kw;
    KeywordAt(us, 4, kw);
  }

  lemma SelectNoWhere(t: string)
    requires Avoids(t, "WHERE")
    ensures IndexOf(Join(UpperAll(SelectWords(t, None)), ' '), "WHERE") < 0
  {
    var us := UpperAll(SelectWords(t, None));
    SelectFront(t, None);
    Lacks("SELECT", "WHERE");
    Lacks("*", "WHERE");
    Lacks("FROM", "WHERE");
    KeywordAbsent(us, "WHERE");
  }

  /** FROM is found as the third word, and WHERE, when there is a
      condition, as the fifth. */
  lemma SelectKeywords(t: string, w: Option<Condition>)
    requires Ident(t) && Avoids(t, "WHERE") && Named(w)
    ensures var ws := SelectWords(t, w);
      KeywordIndex(Join(ws, ' '), "FROM") == Lead(ws, 2) &&
      KeywordIndex(Join(ws, ' '), "WHERE") == if w.Some? then Lead(ws, 4) else -1
  {
    var ws := SelectWords(t, w);
    SelectUpper(t, w);
    SelectFrom(t, w);
    LeadUpper(ws, 2);
    if w.Some? {
      SelectWhere(t, w.value);
      LeadUpper(ws, 4);
    } else {
      SelectNoWhere(t);
    }
  }

  /** The first space-separated word of the trimmed text from index b on. */
  function WordAfter(sql: string, b: nat): Option<string>
  {
    if b <= |sql| && |SplitRuns(Trim(sql[b..]), Spaces)| > 0 then Some(SplitRuns(Trim(sql[b..]), Spaces)[0])
    else None
  }

  /** The name after word i is the first space-separated word after it. */
  lemma TableAfterAt(ws: seq<string>, i: nat, sql: string, b: nat, t: string)
    requires Words(ws) && i + 1 < |ws| && ws[i + 1] == t && Ident(t)
    requires sql == Join(ws, ' ') && b == Lead(ws, i) + |ws[i]|
    ensures WordAfter(sql, b) == Some(t)
  {
    TextAfter(ws, i, sql, b);
    var rest := ws[i + 1..];
    assert Words(rest);
    var s := Join(rest, ' ');
    FirstWord(rest, s);
  }

  /** A condition as the last word reads back after the word before it. */
  lemma ConditionAfterAt(ws: seq<string>, i: nat, sql: string, b: nat, c: Condition)
    requires Words(ws) && i + 2 == |ws| && ws[i + 1] == CondText(c) && Ident(c.column)
    requires sql == Join(ws, ' ') && b == Lead(ws, i) + |ws[i]|
    ensures b <= |sql| && ConditionAfter(sql, b) == Ok(c)
  {
    LastAfter(ws, i, sql, b, CondText(c));
    ConditionText(sql, b, c);
  }

  lemma ConditionText(sql: string, b: nat, c: Condition)
    requires Ident(c.column) && b <= |sql| && Trim(sql[b..]) == CondText(c)
    ensures ConditionAfter(sql, b) == Ok(c)
  {
    ConditionRead(c);
  }

  /** Trimmed, the text after the last but one word is the last word. */
  lemma LastAfter(ws: seq<string>, i: nat, sql: string, b: nat, m: string)
    requires Words(ws) && i + 2 == |ws| && ws[i + 1] == m
    requires sql == Join(ws, ' ') && b == Lead(ws, i) + |ws[i]|
    ensures b <= |sql| && Trim(sql[b..]) == m
  {
    TextAfter(ws, i, sql, b);
    assert ws[i + 1..] == [ws[i + 1]];
  }

  /** selectAt with a table word and no WHERE. */
  lemma SelectAtNone(sql: string, at: nat, t: string)
    requires WordAfter(sql, at + |"FROM"|) == Some(t)
    ensures SelectAt(sql, at, -1) == Ok(Select(t, None))
  {
    assert SubstringFrom(sql, at + |"FROM"|) == Ok(sql[at + |"FROM"|..]);
  }

  /** selectAt with a table word and a readable condition after WHERE. */
  lemma SelectAtSome(sql: string, at: nat, whereAt: nat, t: string, c: Condition)
    requires WordAfter(sql, at + |"FROM"|) == Some(t) && ConditionAfter(sql, whereAt + |"WHERE"|) == Ok(c)
    ensures SelectAt(sql, at, whereAt) == Ok(Select(t, Some(c)))
  {
    assert SubstringFrom(sql, at + |"FROM"|) == Ok(sql[at + |"FROM"|..]);
  }

  /** Where the keyword is first found in the trimmed text, in any case. */
  function KeywordIndex(sql: string, kw: string): int
  {
    IndexOf(Upper(Trim(sql)), kw)
  }

  /** parseSelect once the two keywords are located. */
  lemma SelectOf(sql: string, at: int, whereAt: int)
    requires KeywordIndex(sql, "FROM") == at && KeywordIndex(sql, "WHERE") == whereAt
    ensures ParseSelect(sql) == SelectAt(sql, at, whereAt)
  {
  }

  /** parseSelect on a text whose keywords, table word and condition are
      located. */
  lemma SelectNoneOf(sql: string, at: nat, t: string)
    requires KeywordIndex(sql, "FROM") == at && KeywordIndex(sql, "WHERE") == -1 && WordAfter(sql, at + |"FROM"|) == Some(t)
    ensures ParseSelect(sql) == Ok(Select(t, None))
  {
    SelectOf(sql, at, -1);
    SelectAtNone(sql, at, t);
  }

  lemma SelectSomeOf(sql: string, at: nat, whereAt: nat, t: string, c: Condition)
    requires KeywordIndex(sql, "FROM") == at && KeywordIndex(sql, "WHERE") == whereAt
    requires WordAfter(sql, at + |"FROM"|) == Some(t) && ConditionAfter(sql, whereAt + |"WHERE"|) == Ok(c)
    ensures ParseSelect(sql) == Ok(Select(t, Some(c)))
  {
    SelectOf(sql, at, whereAt);
    SelectAtSome(sql, at, whereAt, t, c);
  }

  /** What parseSelect needs to know of the rendered words. */
  lemma SelectShape(t: string, w: Option<Condition>)
    requires Ident(t) && Avoids(t, "WHERE") && Named(w)
    ensures var ws := SelectWords(t, w); var sql := Join(ws, ' ');
      Words(ws) && |ws| == (if w.Some? then 6 else 4) && |ws[2]| == 4 && ws[3] == t &&
      (w.Some? ==> |ws[4]| == 5 && ws[5] == CondText(w.value)) &&
      KeywordIndex(sql, "FROM") == Lead(ws, 2) &&
      KeywordIndex(sql, "WHERE") == (if w.Some? then Lead(ws, 4) else -1)
  {
    SelectWordsHold(t, w);
    SelectKeywords(t, w);
  }

  /** parseSelect on words of that shape reads the table and condition. */
  lemma SelectFromShape(ws: seq<string>, t: string, w: Option<Condition>)
    requires Ident(t) && Named(w)
    requires Words(ws) && |ws| == (if w.Some? then 6 else 4) && |ws[2]| == 4 && ws[3] == t
    requires w.Some? ==> |ws[4]| == 5 && ws[5] == CondText(w.value)
    requires KeywordIndex(Join(ws, ' '), "FROM") == Lead(ws, 2)
    requires KeywordIndex(Join(ws, ' '), "WHERE") == (if w.Some? then Lead(ws, 4) else -1)
    ensures ParseSelect(Join(ws, ' ')) == Ok(Select(t, w))
  {
    if w.Some? {
      SelectShapeSome(ws, t, w.value);
    } else {
      SelectShapeNone(ws, t);
    }
  }

  lemma SelectShapeNone(ws: seq<string>, t: string)
    requires Ident(t) && Words(ws) && |ws| == 4 && |ws[2]| == 4 && ws[3] == t
    requires KeywordIndex(Join(ws, ' '), "FROM") == Lead(ws, 2)
    requires KeywordIndex(Join(ws, ' '), "WHERE") == -1
    ensures ParseSelect(Join(ws, ' ')) == Ok(Select(t, None))
  {
    var sql := Join(ws, ' ');
    var at := Lead(ws, 2);
    var b := at + |"FROM"|;
    TableAfterAt(ws, 2, sql, b, t);
    SelectNoneOf(sql, at, t);
  }

  lemma SelectShapeSome(ws: seq<string>, t: string, c: Condition)
    requires Ident(t) && Ident(c.column)
    requires Words(ws) && |ws| == 6 && |ws[2]| == 4 && ws[3] == t && |ws[4]| == 5 && ws[5] == CondText(c)
    requires KeywordIndex(Join(ws, ' '), "FROM") == Lead(ws, 2)
    requires KeywordIndex(Join(ws, ' '), "WHERE") == Lead(ws, 4)
    ensures ParseSelect(Join(ws, ' ')) == Ok(Select(t, Some(c)))
  {
    var sql := Join(ws, ' ');
    var at := Lead(ws, 2);
    var b := at + |"FROM"|;
    TableAfterAt(ws, 2, sql, b, t);
    var whereAt := Lead(ws, 4);
    var e := whereAt + |"WHERE"|;
    ConditionAfterAt(ws, 4, sql, e, c);
    SelectSomeOf(sql, at, whereAt, t, c);
  }

  /** parse reads a rendered SELECT back: the table name and the condition,
      whatever its value holds. */
  lemma SelectRoundTrip(t: string, w: Option<Condition>)
    requires Ident(t) && Avoids(t, "WHERE") && Named(w)
    ensures Parse(RenderSelect(t, w)) == Ok(Select(t, w))
  {
    SelectDispatch(t, w);
    SelectShape(t, w);
    var ws := SelectWords(t, w);
    SelectFromShape(ws, t, w);
  }

  // ---------------------------------------------------------------------
  // DELETE FROM t [WHERE c = 'v']
  // ---------------------------------------------------------------------

  function DeleteWords(t: string, w: Option<Condition>): seq<string>
  {
    match w
    case None => ["DELETE", "FROM", t]
    case Some(c) => ["DELETE", "FROM", t, "WHERE", CondText(c)]
  }

  /** The DELETE text: its words separated by single spaces. */
  function RenderDelete(t: string, w: Option<Condition>): string
  {
    Join(DeleteWords(t, w), ' ')
  }

  lemma DeleteWordsHold(t: string, w: Option<Condition>)
    requires Ident(t) && Named(w)
    ensures Words(DeleteWords(t, w))
  {
    IdentFacts(t);
    if w.Some? {
      CondSolid(w.value);
    }
  }

  /** A text that comment stripping leaves alone and that starts with
      DELETE in any case goes to parseDelete. */
  lemma DispatchDelete(sql: string)
    requires CommentsStripped(sql) == sql && "DELETE" <= Upper(sql)
    ensures Parse(sql) == ParseDelete(sql)
  {
    assert Upper(sql)[0] == 'D';
  }

  lemma DeleteDispatch(t: string, w: Option<Condition>)
    requires Ident(t) && Named(w)
    ensures Parse(RenderDelete(t, w)) == ParseDelete(RenderDelete(t, w))
  {
    DeleteWordsHold(t, w);
    KeywordsHold();
    Dispatched(DeleteWords(t, w));
    DispatchDelete(RenderDelete(t, w));
  }

  /** Where the keyword is first found in the text, in any case. */
  function UpperIndex(sql: string, kw: string): int
  {
    IndexOf(Upper(sql), kw)
  }

  /** The first two upper-cased words: DELETE and FROM. */
  lemma DeleteFront(t: string, w: Option<Condition>)
    ensures var us := UpperAll(DeleteWords(t, w)); us[0] == "DELETE" && us[1] == "FROM"
  {
    Capitals("DELETE");
    Capitals("FROM");
  }

  lemma DeleteFrom(t: string, w: Option<Condition>)
    ensures var us := UpperAll(DeleteWords(t, w)); IndexOf(Join(us, ' '), "FROM") == Lead(us, 1)
  {
    var us := UpperAll(DeleteWords(t, w));
    DeleteFront(t, w);
    Lacks("DELETE", "FROM");
    KeywordAt(us, 1, "FROM");
  }

  lemma DeleteWhere(t: string, c: Condition)
    requires Avoids(t, "WHERE")
    ensures var us := UpperAll(DeleteWords(t, Some(c))); IndexOf(Join(us, ' '), "WHERE") == Lead(us, 3)
  {
    var us := UpperAll(DeleteWords(t, Some(c)));
    DeleteFront(t, Some(c));
    Capitals("WHERE");
    Lacks("DELETE", "WHERE");
    Lacks("FROM", "WHERE");
    KeywordFourth(us, "WHERE");
  }

  /** A keyword that is the fourth word and in none of the first three is
      first found at the fourth. */
  lemma KeywordFourth(us: seq<string>, kw: string)
    requires |us| >= 4 && ' ' !in kw && us[3] == kw
    requires IndexOf(us[0], kw) < 0 && IndexOf(us[1], kw) < 0 && IndexOf(us[2], kw) < 0
    ensures IndexOf(Join(us, ' '), kw) == Lead(us, 3)
  {
    forall j | 0 <= j < 3
      ensures IndexOf(us[j], kw) < 0
    {
      assert j == 0 || j == 1 || j == 2;
    }
    assert kw[..|kw|] == kw;
    KeywordAt(us, 3, kw);
  }

  lemma DeleteNoWhere(t: string)
    requires Avoids(t, "WHERE")
    ensures IndexOf(Join(UpperAll(DeleteWords(t, None)), ' '), "WHERE") < 0
  {
    var us := UpperAll(DeleteWords(t, None));
    DeleteFront(t, None);
    Lacks("DELETE", "WHERE");
    Lacks("FROM", "WHERE");
    KeywordAbsent(us, "WHERE");
  }

  /** FROM is found as the second word, and WHERE, when there is a
      condition, as the fourth. */
  lemma DeleteKeywords(t: string, w: Option<Condition>)
    requires Avoids(t, "WHERE")
    ensures var ws := DeleteWords(t, w);
      UpperIndex(Join(ws, ' '), "FROM") == Lead(ws, 1) &&
      UpperIndex(Join(ws, ' '), "WHERE") == if w.Some? then Lead(ws, 3) else -1
  {
    var ws := DeleteWords(t, w);
    UpperJoin(ws);
    DeleteFrom(t, w);
    LeadUpper(ws, 1);
    if w.Some? {
      DeleteWhere(t, w.value);
      LeadUpper(ws, 3);
    } else {
      DeleteNoWhere(t);
    }
  }

  /** What parseDelete needs to know of the rendered words. */
  lemma DeleteShape(t: string, w: Option<Condition>)
    requires Ident(t) && Avoids(t, "WHERE") && Named(w)
    ensures var ws := DeleteWords(t, w); var sql := Join(ws, ' ');
      Words(ws) && |ws| == (if w.Some? then 5 else 3) && |ws[1]| == 4 && ws[2] == t &&
      (w.Some? ==> |ws[3]| == 5 && ws[4] == CondText(w.value)) &&
      UpperIndex(sql, "FROM") == Lead(ws, 1) &&
      UpperIndex(sql, "WHERE") == (if w.Some? then Lead(ws, 3) else -1)
  {
    DeleteWordsHold(t, w);
    DeleteKeywords(t, w);
  }

  /** Each word starts one space after the end of the word before it. */
  lemma {:induction false} LeadStep(ws: seq<string>, i: nat)
    requires i < |ws|
    ensures Lead(ws, i + 1) == Lead(ws, i) + |ws[i]| + 1
  {
    if i > 0 {
      LeadStep(ws[1..], i - 1);
    }
  }

  /** Trimmed, the text between word i and word i + 2 is word i + 1. */
  lemma MiddleWord(ws: seq<string>, i: nat, sql: string, b: nat, e: nat, m: string)
    requires Words(ws) && i + 2 < |ws| && ws[i + 1] == m
    requires sql == Join(ws, ' ') && b == Lead(ws, i) + |ws[i]| && e == Lead(ws, i + 2)
    ensures b <= e <= |sql| && Trim(sql[b..e]) == m
  {
    MiddleText(ws, i, sql, b, e, m);
    assert Trimmed(m);
    TrimAround(" ", m, " ");
  }

  /** The text between word i and word i + 2 is word i + 1 between spaces. */
  lemma MiddleText(ws: seq<string>, i: nat, sql: string, b: nat, e: nat, m: string)
    requires i + 2 < |ws| && ws[i + 1] == m
    requires sql == Join(ws, ' ') && b == Lead(ws, i) + |ws[i]| && e == Lead(ws, i + 2)
    ensures b <= e <= |sql| && sql[b..e] == " " + m + " "
  {
    MiddleBounds(ws, i, b, e);
    JoinSlices(ws, i + 2);
    SpaceAfter(ws, i, sql, b);
    JoinRest(ws, i + 1);
    var r := sql[b..];
    assert r == " " + m + " " + Join(ws[i + 2..], ' ');
    assert sql[b..e] == r[..|m| + 2];
  }

  lemma MiddleBounds(ws: seq<string>, i: nat, b: nat, e: nat)
    requires i + 2 < |ws| && b == Lead(ws, i) + |ws[i]| && e == Lead(ws, i + 2)
    ensures e == b + |ws[i + 1]| + 2
  {
    LeadStep(ws, i);
    LeadStep(ws, i + 1);
  }

  /** parseDelete once the two keywords are located. */
  lemma DeleteOf(sql: string, at: int, whereAt: int)
    requires UpperIndex(sql, "FROM") == at && UpperIndex(sql, "WHERE") == whereAt
    ensures ParseDelete(sql) == DeleteAt(sql, at, whereAt)
  {
  }

  lemma SubstringOk(s: string, b: nat, e: nat)
    requires b <= e <= |s|
    ensures Substring(s, b, e) == Ok(s[b..e])
  {
  }

  /** deleteAt with a table after FROM and no WHERE. */
  lemma DeleteAtNone(sql: string, at: nat, t: string)
    requires at + |"FROM"| <= |sql| && Trim(sql[at + |"FROM"|..]) == t
    ensures DeleteAt(sql, at, -1) == Ok(Delete(t, None))
  {
    assert sql[at + |"FROM"|..|sql|] == sql[at + |"FROM"|..];
    assert Substring(sql, at + |"FROM"|, |sql|) == Ok(sql[at + |"FROM"|..]);
  }

  /** deleteAt with a table between FROM and WHERE and a readable condition. */
  lemma DeleteAtSome(sql: string, at: nat, whereAt: nat, table: string, c: Condition)
    requires Substring(sql, at + |"FROM"|, whereAt) == Ok(table)
    requires ConditionAfter(sql, whereAt + |"WHERE"|) == Ok(c)
    ensures DeleteAt(sql, at, whereAt) == Ok(Delete(Trim(table), Some(c)))
  {
  }

  lemma DeleteShapeNone(ws: seq<string>, t: string)
    requires Words(ws) && |ws| == 3 && |ws[1]| == 4 && ws[2] == t
    requires UpperIndex(Join(ws, ' '), "FROM") == Lead(ws, 1)
    requires UpperIndex(Join(ws, ' '), "WHERE") == -1
    ensures ParseDelete(Join(ws, ' ')) == Ok(Delete(t, None))
  {
    var sql := Join(ws, ' ');
    var at := Lead(ws, 1);
    var b := at + |"FROM"|;
    LastAfter(ws, 1, sql, b, t);
    DeleteNoneOf(sql, at, t);
  }

  lemma DeleteNoneOf(sql: string, at: nat, t: string)
    requires UpperIndex(sql, "FROM") == at && UpperIndex(sql, "WHERE") == -1
    requires at + |"FROM"| <= |sql| && Trim(sql[at + |"FROM"|..]) == t
    ensures ParseDelete(sql) == Ok(Delete(t, None))
  {
    DeleteOf(sql, at, -1);
    DeleteAtNone(sql, at, t);
  }

  lemma DeleteShapeSome(ws: seq<string>, t: string, c: Condition)
    requires Ident(c.column)
    requires Words(ws) && |ws| == 5 && |ws[1]| == 4 && ws[2] == t && |ws[3]| == 5 && ws[4] == CondText(c)
    requires UpperIndex(Join(ws, ' '), "FROM") == Lead(ws, 1)
    requires UpperIndex(Join(ws, ' '), "WHERE") == Lead(ws, 3)
    ensures ParseDelete(Join(ws, ' ')) == Ok(Delete(t, Some(c)))
  {
    var sql := Join(ws, ' ');
    var at := Lead(ws, 1);
    var whereAt := Lead(ws, 3);
    var table := DeletePiecesSome(ws, sql, at, whereAt, t, c);
    DeleteSomeOf(sql, at, whereAt, table, c);
  }

  /** The pieces deleteAt reads from words of that shape. */
  lemma DeletePiecesSome(ws: seq<string>, sql: string, at: nat, whereAt: nat, t: string, c: Condition)
    returns (table: string)
    requires Ident(c.column)
    requires Words(ws) && |ws| == 5 && |ws[1]| == 4 && ws[2] == t && |ws[3]| == 5 && ws[4] == CondText(c)
    requires sql == Join(ws, ' ') && at == Lead(ws, 1) && whereAt == Lead(ws, 3)
    ensures Substring(sql, at + |"FROM"|, whereAt) == Ok(table) && Trim(table) == t
    ensures ConditionAfter(sql, whereAt + |"WHERE"|) == Ok(c)
  {
    var b := at + |"FROM"|;
    var e := whereAt + |"WHERE"|;
    MiddleWord(ws, 1, sql, b, whereAt, t);
    ConditionAfterAt(ws, 3, sql, e, c);
    table := sql[b..whereAt];
    SubstringOk(sql, b, whereAt);
  }

  /** parseDelete when FROM and WHERE are found, the text between them
      is a substring and a condition follows WHERE. */
  lemma DeleteSomeOf(sql: string, at: nat, whereAt: nat, table: string, c: Condition)
    requires UpperIndex(sql, "FROM") == at && UpperIndex(sql, "WHERE") == whereAt
    requires Substring(sql, at + |"FROM"|, whereAt) == Ok(table)
    requires ConditionAfter(sql, whereAt + |"WHERE"|) == Ok(c)
    ensures ParseDelete(sql) == Ok(Delete(Trim(table), Some(c)))
  {
    DeleteOf(sql, at, whereAt);
    DeleteAtSome(sql, at, whereAt, table, c);
  }

  /** parseDelete on words of that shape reads the table and condition. */
  lemma DeleteFromShape(ws: seq<string>, t: string, w: Option<Condition>)
    requires Named(w)
    requires Words(ws) && |ws| == (if w.Some? then 5 else 3) && |ws[1]| == 4 && ws[2] == t
    requires w.Some? ==> |ws[3]| == 5 && ws[4] == CondText(w.value)
    requires UpperIndex(Join(ws, ' '), "FROM") == Lead(ws, 1)
    requires UpperIndex(Join(ws, ' '), "WHERE") == (if w.Some? then Lead(ws, 3) else -1)
    ensures ParseDelete(Join(ws, ' ')) == Ok(Delete(t, w))
  {
    if w.Some? {
      DeleteShapeSome(ws, t, w.value);
    } else {
      DeleteShapeNone(ws, t);
    }
  }

  /** parse reads a rendered DELETE back: the table name and the condition,
      whatever its value holds. */
  lemma DeleteRoundTrip(t: string, w: Option<Condition>)
    requires Ident(t) && Avoids(t, "WHERE") && Named(w)
    ensures Parse(RenderDelete(t, w)) == Ok(Delete(t, w))
  {
    DeleteDispatch(t, w);
    DeleteShape(t, w);
    var ws := DeleteWords(t, w);
    DeleteFromShape(ws, t, w);
  }

  // ---------------------------------------------------------------------
  // CREATE TABLE t (c1 T1,c2 T2,...)
  // ---------------------------------------------------------------------

  /** The name Schema.Type.valueOf reads a column type from. */
  function TypeWord(ty: Schemas.Type): string
  {
    match ty
    case INT => "INT"
    case STRING => "STRING"
  }

  /** One column definition: the name, a space and the type. */
  function ColumnText(c: string, ty: Schemas.Type): string
  {
    Join([c, TypeWord(ty)], ' ')
  }

  function ColumnTexts(cs: seq<string>, ts: seq<Schemas.Type>): (r: seq<string>)
    requires |cs| == |ts|
    ensures |r| == |cs| && forall i :: 0 <= i < |cs| ==> r[i] == ColumnText(cs[i], ts[i])
  {
    seq(|cs|, i requires 0 <= i < |cs| => ColumnText(cs[i], ts[i]))
  }

  /** The column definitions, comma-separated, in parentheses. */
  function ColumnList(cs: seq<string>, ts: seq<Schemas.Type>): string
    requires |cs| == |ts|
  {
    "(" + Join(ColumnTexts(cs, ts), ',') + ")"
  }

  function CreateWords(t: string, list: string): seq<string>
  {
    ["CREATE", "TABLE", t, list]
  }

  /** The CREATE TABLE text: its words separated by single spaces. */
  function RenderCreate(t: string, cs: seq<string>, ts: seq<Schemas.Type>): string
    requires |cs| == |ts|
  {
    Join(CreateWords(t, ColumnList(cs, ts)), ' ')
  }

  /** Every element of the sequence is a name. */
  predicate Idents(cs: seq<string>)
  {
    forall i :: 0 <= i < |cs| ==> Ident(cs[i])
  }

  lemma TypeWordRead(ty: Schemas.Type)
    ensures Ident(TypeWord(ty)) && TypeNamed(Upper(TypeWord(ty))) == Ok(ty)
  {
    Capitals("INT");
    Capitals("STRING");
  }

  /** parseCreate reads a column definition back as its name and type. */
  lemma ColumnRead(c: string, ty: Schemas.Type)
    requires Ident(c)
    ensures Solid(ColumnText(c, ty)) && ',' !in ColumnText(c, ty)
    ensures ColumnDef(ColumnText(c, ty)) == Ok((c, ty))
  {
    var w := TypeWord(ty);
    TypeWordRead(ty);
    IdentFacts(c);
    IdentFacts(w);
    var ws := [c, w];
    assert Words(ws);
    WordsSelf(ws);
    IdentWords(ws);
    JoinEdges(ws, ' ');
    assert ColumnText(c, ty) == c + [' '] + w;
  }

  /** One more definition read after the others. */
  lemma ColumnsOfSnoc(ds: seq<string>, d: string, init: (seq<string>, seq<Schemas.Type>), col: (string, Schemas.Type))
    requires ColumnsOf(ds) == Ok(init) && ColumnDef(d) == Ok(col)
    ensures ColumnsOf(ds + [d]) == Ok((init.0 + [col.0], init.1 + [col.1]))
  {
    assert (ds + [d])[..|ds|] == ds;
  }

  /** The definitions read back in order as the names and the types. */
  lemma {:induction false} ColumnsRead(cs: seq<string>, ts: seq<Schemas.Type>)
    requires |cs| == |ts| && Idents(cs)
    ensures ColumnsOf(ColumnTexts(cs, ts)) == Ok((cs, ts))
    decreases |cs|
  {
    if |cs| == 0 {
      assert ColumnTexts(cs, ts) == [];
    } else {
      var n := |cs| - 1;
      var c, ty := cs[n], ts[n];
      var cs', ts' := cs[..n], ts[..n];
      assert Idents(cs');
      ColumnsRead(cs', ts');
      ColumnRead(c, ty);
      ColumnTextsSnoc(cs, ts);
      ColumnsOfSnoc(ColumnTexts(cs', ts'), ColumnText(c, ty), (cs', ts'), (c, ty));
      LastSplit(cs);
      LastSplit(ts);
    }
  }

  lemma ColumnTextsSnoc(cs: seq<string>, ts: seq<Schemas.Type>)
    requires |cs| == |ts| >= 1
    ensures var n := |cs| - 1;
      ColumnTexts(cs, ts) == ColumnTexts(cs[..n], ts[..n]) + [ColumnText(cs[n], ts[n])]
  {
  }

  /** The definitions joined by commas need no trimming and split back into
      the definitions. */
  lemma ColumnListSplit(cs: seq<string>, ts: seq<Schemas.Type>)
    requires |cs| == |ts| >= 1 && Idents(cs)
    ensures var j := Join(ColumnTexts(cs, ts), ',');
      Trim(j) == j && SplitAt(j, ',') == ColumnTexts(cs, ts)
  {
    var ds := ColumnTexts(cs, ts);
    ColumnPieces(cs, ts);
    SplitAtJoin(ds, ',');
    SolidJoin(ds, ',');
  }

  lemma ColumnPieces(cs: seq<string>, ts: seq<Schemas.Type>)
    requires |cs| == |ts| && Idents(cs)
    ensures var ds := ColumnTexts(cs, ts);
      forall k :: 0 <= k < |ds| ==> ',' !in ds[k] && Solid(ds[k])
  {
    var ds := ColumnTexts(cs, ts);
    forall k | 0 <= k < |ds|
      ensures ',' !in ds[k] && Solid(ds[k])
    {
      ColumnRead(cs[k], ts[k]);
    }
  }

  /** Pieces that start and end with non-blanks, joined, need no trimming. */
  lemma SolidJoin(ds: seq<string>, c: char)
    requires |ds| >= 1 && forall k :: 0 <= k < |ds| ==> Solid(ds[k])
    ensures Trim(Join(ds, c)) == Join(ds, c)
  {
    JoinEdges(ds, c);
    var j := Join(ds, c);
    assert [] + j + [] == j;
    TrimAround([], j, []);
  }

  /** parseCreate's cuts of the text after CREATE TABLE: the name before the
      first '(', the list between it and the last ')'. */
  lemma CreateCuts(t: string, j: string)
    requires Ident(t)
    ensures var rem := t + [' '] + ("(" + j + ")");
      && FirstIndex(rem, '(') == |t| + 1
      && LastIndex(rem, ')') == |rem| - 1
      && Substring(rem, 0, |t| + 1) == Ok(t + " ")
      && Substring(rem, |t| + 2, |rem| - 1) == Ok(j)
  {
    IdentFacts(t);
    var rem := t + [' '] + ("(" + j + ")");
    assert rem[|t| + 1] == '(';
    assert rem[..|t| + 1] == t + " ";
    assert '(' !in t + " ";
    assert rem[|t| + 2..|rem| - 1] == j;
  }

  lemma CreateWordsHold(t: string, cs: seq<string>, ts: seq<Schemas.Type>)
    requires Ident(t) && |cs| == |ts|
    ensures Words(CreateWords(t, ColumnList(cs, ts)))
  {
    IdentFacts(t);
    KeywordsHold();
    var list := ColumnList(cs, ts);
    assert list[0] == '(' && list[|list| - 1] == ')';
  }

  /** The text after CREATE TABLE, trimmed, is the name, a space and the list. */
  lemma CreateRemainder(t: string, cs: seq<string>, ts: seq<Schemas.Type>)
    requires Ident(t) && |cs| == |ts|
    ensures var sql := RenderCreate(t, cs, ts);
      |"CREATE TABLE"| <= |sql| && Trim(sql[|"CREATE TABLE"|..]) == t + [' '] + ColumnList(cs, ts)
  {
    var list := ColumnList(cs, ts);
    var ws := CreateWords(t, list);
    CreateWordsHold(t, cs, ts);
    assert Lead(ws, 1) == 7;
    TextAfter(ws, 1, Join(ws, ' '), |"CREATE TABLE"|);
    assert ws[2..] == [t, list];
  }

  /** parseCreate on a text whose part after CREATE TABLE, trimmed, is a
      name, a space and a parenthesised list that reads as the columns. */
  lemma CreateFrom(sql: string, t: string, j: string, cs: seq<string>, ts: seq<Schemas.Type>)
    requires Ident(t) && ColumnsOf(SplitAt(Trim(j), ',')) == Ok((cs, ts))
    requires |"CREATE TABLE"| <= |sql| && Trim(sql[|"CREATE TABLE"|..]) == t + [' '] + ("(" + j + ")")
    ensures ParseCreate(sql) == Ok(CreateTable(t, cs, ts))
  {
    CreateCuts(t, j);
    IdentFacts(t);
    SidesTrimmed(t, t);
  }

  /** parseCreate reads the rendered text back. */
  lemma CreateParsed(t: string, cs: seq<string>, ts: seq<Schemas.Type>)
    requires Ident(t) && |cs| == |ts| >= 1 && Idents(cs)
    ensures ParseCreate(RenderCreate(t, cs, ts)) == Ok(CreateTable(t, cs, ts))
  {
    var j := Join(ColumnTexts(cs, ts), ',');
    CreateRemainder(t, cs, ts);
    ColumnListSplit(cs, ts);
    ColumnsRead(cs, ts);
    CreateFrom(RenderCreate(t, cs, ts), t, j, cs, ts);
  }

  /** parse reads a rendered CREATE TABLE back: the table name and every
      column's name and type. */
  lemma CreateRoundTrip(t: string, cs: seq<string>, ts: seq<Schemas.Type>)
    requires Ident(t) && |cs| == |ts| >= 1 && Idents(cs)
    ensures Parse(RenderCreate(t, cs, ts)) == Ok(CreateTable(t, cs, ts))
  {
    var ws := CreateWords(t, ColumnList(cs, ts));
    CreateWordsHold(t, cs, ts);
    KeywordsHold();
    Dispatched(ws);
    assert Upper(Join(ws, ' '))[0] == 'C';
    CreateParsed(t, cs, ts);
  }

  // ---------------------------------------------------------------------
  // UPDATE t SET k1='v1',k2='v2',... [WHERE c = 'v']
  // ---------------------------------------------------------------------

  /** One assignment: the column, an equals sign and the quoted value. */
  function AssignText(a: (string, string)): string
  {
    a.0 + "=" + Quote(a.1)
  }

  function AssignTexts(m: seq<(string, string)>): (r: seq<string>)
    ensures |r| == |m| && forall i :: 0 <= i < |m| ==> r[i] == AssignText(m[i])
  {
    seq(|m|, i requires 0 <= i < |m| => AssignText(m[i]))
  }

  /** The assignments, comma-separated. */
  function AssignList(m: seq<(string, string)>): string
  {
    Join(AssignTexts(m), ',')
  }

  /** The WHERE clause, if any, with the space before it. */
  function WhereText(w: Option<Condition>): string
  {
    match w
    case None => ""
    case Some(c) => " WHERE " + CondText(c)
  }

  /** The UPDATE text: keyword, table, SET, the assignments and the clause. */
  function RenderUpdate(t: string, m: seq<(string, string)>, w: Option<Condition>): string
  {
    "UPDATE" + (" " + t + (" SET" + (" " + AssignList(m) + WhereText(w))))
  }

  /** Assignments parseUpdate can read back: at least one, each to a
      different column named by a name, and no value holding a comma or,
      in any case, the word WHERE between spaces. */
  predicate Assignable(m: seq<(string, string)>)
  {
    |m| >= 1 && DistinctKeys(m) &&
    forall i :: 0 <= i < |m| ==> Ident(m[i].0) && ',' !in m[i].1 && Avoids(m[i].1, " WHERE ")
  }

  /** A keyword between single spaces, as parseUpdate looks for SET and WHERE. */
  function Spaced(kw: string): string
  {
    " " + kw + " "
  }

  predicate Spaceless(s: string)
  {
    forall i :: 0 <= i < |s| ==> s[i] != ' '
  }

  /** A spaced keyword cannot start inside a text without spaces. */
  lemma SkipSpaceless(a: string, b: string, kw: string)
    requires Spaceless(a)
    ensures var p := Spaced(kw);
      IndexOf(a + b, p) == if IndexOf(b, p) < 0 then -1 else |a| + IndexOf(b, p)
  {
    var p := Spaced(kw);
    var s := a + b;
    forall i | 0 <= i < |a|
      ensures !OccursAt(s, p, i)
    {
      if i + |p| <= |s| {
        assert s[i..i + |p|][0] == a[i] != ' ' == p[0];
      }
    }
    IndexOfSkip(a, b, p);
  }

  /** A spaced keyword is found neither at the space before a word other than
      the keyword nor inside that word. */
  lemma SkipWord(x: string, r: string, kw: string)
    requires |x| > 0 && Spaceless(x) && x != kw && Spaceless(kw)
    requires |r| > 0 && r[0] == ' '
    ensures var p := Spaced(kw);
      IndexOf(" " + x + r, p) == if IndexOf(r, p) < 0 then -1 else 1 + |x| + IndexOf(r, p)
  {
    var p := Spaced(kw);
    var a := " " + x;
    var s := a + r;
    NotAtWord(x, r, kw);
    forall i | 0 <= i < |a|
      ensures !OccursAt(s, p, i)
    {
      if i > 0 && i + |p| <= |s| {
        assert s[i..i + |p|][0] == x[i - 1] != ' ' == p[0];
      }
    }
    IndexOfSkip(a, r, p);
  }

  lemma NotAtWord(x: string, r: string, kw: string)
    requires |x| > 0 && Spaceless(x) && x != kw && Spaceless(kw)
    requires |r| > 0 && r[0] == ' '
    ensures !OccursAt(" " + x + r, Spaced(kw), 0)
  {
    var p := Spaced(kw);
    var s := " " + x + r;
    if |p| <= |s| {
      var q := s[..|p|];
      if |x| < |kw| {
        assert q[1 + |x|] == r[0] == ' ' != kw[|x|] == p[1 + |x|];
      } else if |x| == |kw| {
        var i :| 0 <= i < |x| && x[i] != kw[i];
        assert q[1 + i] == x[i] != kw[i] == p[1 + i];
      } else {
        assert q[1 + |kw|] == x[|kw|] != ' ' == p[1 + |kw|];
      }
    }
  }

  /** A spaced keyword without '=' is not found at the space before a name
      followed by '='. */
  lemma NotAtAssign(k: string, rest: string, kw: string)
    requires Spaceless(k) && Spaceless(kw) && '=' !in kw
    ensures !OccursAt(" " + (k + "=" + rest), Spaced(kw), 0)
  {
    var p := Spaced(kw);
    var s := " " + (k + "=" + rest);
    if |p| <= |s| {
      var q := s[..|p|];
      if |kw| < |k| {
        assert q[1 + |kw|] == k[|kw|] != ' ' == p[1 + |kw|];
      } else if |kw| == |k| {
        assert q[1 + |kw|] == '=' != ' ' == p[1 + |kw|];
      } else {
        assert q[1 + |k|] == '=' != kw[|k|] == p[1 + |k|];
      }
    }
  }

  /** A text without p that ends in a unit p lacks is a barrier: p is found
      only after it. */
  lemma EndBarrier(a: string, b: string, p: string)
    requires |a| > 0 && a[|a| - 1] !in p && IndexOf(a, p) < 0
    ensures IndexOf(a + b, p) == if IndexOf(b, p) < 0 then -1 else |a| + IndexOf(b, p)
  {
    var n := |a| - 1;
    var h := a[..n];
    forall j | 0 <= j <= |h|
      ensures !OccursAt(h, p, j)
    {
      if OccursAt(h, p, j) {
        assert a[j..j + |p|] == h[j..j + |p|];
        assert OccursAt(a, p, j);
      }
    }
    assert h + [a[n]] + b == a + b;
    IndexOfBarrier(h, a[n], b, p);
  }

  /** An assignment whose value avoids " WHERE " avoids it too. */
  lemma AssignAvoids(k: string, v: string)
    requires Ident(k) && Avoids(v, " WHERE ")
    ensures Avoids(AssignText((k, v)), " WHERE ")
  {
    var p := " WHERE ";
    var uk, uv := Upper(k), Upper(v);
    IdentFacts(k);
    Lacks(uk, p);
    Lacks([], p);
    var tail := "'" + uv + "'";
    assert Upper(AssignText((k, v))) == uk + ['='] + tail;
    assert tail == [] + ['\''] + (uv + ['\''] + []);
    IndexOfBarrier(uv, '\'', [], p);
    IndexOfBarrier([], '\'', uv + ['\''] + [], p);
    IndexOfBarrier(uk, '=', tail, p);
  }

  /** Texts that avoid p, joined by commas, avoid p when p has no comma. */
  lemma {:induction false} JoinAvoids(xs: seq<string>, p: string)
    requires |xs| >= 1 && ',' !in p
    requires forall i :: 0 <= i < |xs| ==> IndexOf(Upper(xs[i]), p) < 0
    ensures IndexOf(Upper(Join(xs, ',')), p) < 0
  {
    if |xs| > 1 {
      var tl := xs[1..];
      assert forall i :: 0 <= i < |tl| ==> tl[i] == xs[i + 1];
      JoinAvoids(tl, p);
      var r := Join(tl, ',');
      assert Upper(Join(xs, ',')) == Upper(xs[0]) + [','] + Upper(r);
      IndexOfBarrier(Upper(xs[0]), ',', Upper(r), p);
    }
  }

  lemma ListAvoids(m: seq<(string, string)>)
    requires Assignable(m)
    ensures Avoids(AssignList(m), " WHERE ")
  {
    var xs := AssignTexts(m);
    forall i | 0 <= i < |xs|
      ensures IndexOf(Upper(xs[i]), " WHERE ") < 0
    {
      AssignAvoids(m[i].0, m[i].1);
    }
    JoinAvoids(xs, " WHERE ");
  }

  /** The list starts with the first column and '=', and ends with a quote. */
  lemma ListEdges(m: seq<(string, string)>)
    requires |m| >= 1 && Ident(m[0].0)
    ensures var a := AssignList(m); |a| > 0 && a[|a| - 1] == '\'' && Solid(a)
  {
    var xs := AssignTexts(m);
    forall i | 0 <= i < |xs|
      ensures |xs[i]| > 0
    {
    }
    JoinEdges(xs, ',');
    assert xs[0][0] == m[0].0[0];
    assert xs[|xs| - 1] == AssignText(m[|m| - 1]);
  }

  /** The upper-cased UPDATE text, piece by piece. */
  lemma UpperUpdate(t: string, m: seq<(string, string)>, w: Option<Condition>)
    ensures Upper(RenderUpdate(t, m, w)) ==
      "UPDATE" + (" " + Upper(t) + (" SET" + (" " + Upper(AssignList(m)) + Upper(WhereText(w)))))
  {
    var a, x := AssignList(m), WhereText(w);
    UpperOfCaps("UPDATE");
    UpperOfCaps(" ");
    UpperOfCaps(" SET");
    UpperConcat(" " + a, x);
    UpperConcat(" ", a);
    UpperConcat(" SET", " " + a + x);
    UpperConcat(" " + t, " SET" + (" " + a + x));
    UpperConcat(" ", t);
    UpperConcat("UPDATE", " " + t + (" SET" + (" " + a + x)));
  }

  lemma UpperWhere(c: Condition)
    ensures Upper(WhereText(Some(c))) == " WHERE " + Upper(CondText(c))
  {
    UpperOfCaps(" WHERE ");
    UpperConcat(" WHERE ", CondText(c));
  }

  /** parseUpdate finds " SET " right after the table name. */
  lemma SetFound(t: string, m: seq<(string, string)>, w: Option<Condition>)
    requires Ident(t) && Upper(t) != "SET"
    ensures IndexOf(Upper(RenderUpdate(t, m, w)), " SET ") == 7 + |t|
  {
    var u, a, x := Upper(t), Upper(AssignList(m)), Upper(WhereText(w));
    UpperUpdate(t, m, w);
    UpperName(t);
    SetAfter(u, a, x);
  }

  /** " SET " is first found after the word that follows UPDATE, when that
      word is not SET. */
  lemma SetAfter(u: string, a: string, x: string)
    requires |u| > 0 && Spaceless(u) && u != "SET"
    ensures IndexOf("UPDATE" + (" " + u + (" SET" + (" " + a + x))), " SET ") == 7 + |u|
  {
    var p := Spaced("SET");
    assert p == " SET ";
    var rest := a + x;
    var r := " SET" + (" " + a + x);
    assert r == p + rest;
    IndexOfStart(p, rest);
    SkipWord(u, r, "SET");
    assert Spaceless("UPDATE");
    SkipSpaceless("UPDATE", " " + u + r, "SET");
  }

  /** The list starts with the first column and '='. */
  lemma ListHead(m: seq<(string, string)>)
    requires |m| >= 1
    ensures var a, k := AssignList(m), m[0].0;
      |k| < |a| && a == k + "=" + a[|k| + 1..]
  {
    var xs := AssignTexts(m);
    var a, k := AssignList(m), m[0].0;
    if |xs| > 1 {
      assert a == xs[0] + [','] + Join(xs[1..], ',');
    }
    assert a[..|k| + 1] == k + "=";
    assert a == a[..|k| + 1] + a[|k| + 1..];
  }

  /** " WHERE " is not found at the space before a name and '='. */
  lemma NotBeforeList(k: string, tail: string, y: string)
    requires Ident(k)
    ensures !OccursAt(" " + (Upper(k + "=" + tail) + y), " WHERE ", 0)
  {
    IdentFacts(k);
    UpperConcat(k + "=", tail);
    UpperConcat(k, "=");
    assert " " + (Upper(k + "=" + tail) + y) == " " + (Upper(k) + "=" + (Upper(tail) + y));
    NotAtAssign(Upper(k), Upper(tail) + y, "WHERE");
  }

  /** In the text after SET, " WHERE " is found only as the clause's own. */
  lemma ClauseFound(m: seq<(string, string)>, w: Option<Condition>)
    requires Assignable(m)
    ensures var a := Upper(AssignList(m));
      IndexOf(" " + a + Upper(WhereText(w)), " WHERE ") == if w.None? then -1 else 1 + |a|
  {
    var p := " WHERE ";
    var a, x := Upper(AssignList(m)), Upper(WhereText(w));
    var l, k := AssignList(m), m[0].0;
    ListHead(m);
    NotBeforeList(k, l[|k| + 1..], x);
    ClauseAfterList(m, w);
    assert " " + a + x == " " + (a + x);
    IndexOfSkip(" ", a + x, p);
  }

  /** After the assignments, " WHERE " is found exactly where the clause is. */
  lemma ClauseAfterList(m: seq<(string, string)>, w: Option<Condition>)
    requires Assignable(m)
    ensures var a := Upper(AssignList(m));
      IndexOf(a + Upper(WhereText(w)), " WHERE ") == if w.None? then -1 else |a|
  {
    var p := " WHERE ";
    var a, x := Upper(AssignList(m)), Upper(WhereText(w));
    ListEdges(m);
    ListAvoids(m);
    assert a[|a| - 1] == '\'';
    EndBarrier(a, x, p);
    if w.Some? {
      UpperWhere(w.value);
      IndexOfStart(p, Upper(CondText(w.value)));
    } else {
      Absent(x, p);
    }
  }

  /** parseUpdate finds " WHERE " only where the clause starts. */
  lemma WhereFound(t: string, m: seq<(string, string)>, w: Option<Condition>)
    requires Ident(t) && Upper(t) != "WHERE" && Assignable(m)
    ensures IndexOf(Upper(RenderUpdate(t, m, w)), " WHERE ") ==
      if w.None? then -1 else 12 + |t| + |AssignList(m)|
  {
    var u, a, x := Upper(t), Upper(AssignList(m)), Upper(WhereText(w));
    assert Spaced("WHERE") == " WHERE ";
    assert Spaceless("UPDATE") && Spaceless("WHERE");
    UpperUpdate(t, m, w);
    UpperName(t);
    ClauseFound(m, w);
    var r := " " + a + x;
    AfterSet(r);
    SkipWord(u, " SET" + r, "WHERE");
    SkipSpaceless("UPDATE", " " + u + (" SET" + r), "WHERE");
  }

  lemma AfterSet(r: string)
    requires |r| > 0 && r[0] == ' '
    ensures IndexOf(" SET" + r, " WHERE ") == if IndexOf(r, " WHERE ") < 0 then -1 else 4 + IndexOf(r, " WHERE ")
  {
    assert Spaced("WHERE") == " WHERE ";
    assert Spaceless("SET") && Spaceless("WHERE");
    assert " SET" + r == " " + "SET" + r;
    SkipWord("SET", r, "WHERE");
  }

  /** An assignment reads back as its column and value. */
  lemma AssignRead(k: string, v: string)
    requires Ident(k)
    ensures AssignmentOf(AssignText((k, v))) == Ok((k, v))
  {
    var q := Quote(v);
    IdentFacts(k);
    assert AssignText((k, v)) == k + ['='] + q;
    SplitFirstAt(k, '=', q);
    SelfTrimmed(k);
    assert q[0] == q[|q| - 1] == '\'';
    SelfTrimmed(q);
    StripQuotesOfQuoted(v);
  }

  lemma SelfTrimmed(s: string)
    requires Trimmed(s)
    ensures Trim(s) == s
  {
    assert [] + s + [] == s;
    TrimAround([], s, []);
  }

  lemma UpperName(t: string)
    requires Ident(t)
    ensures |Upper(t)| > 0 && Spaceless(Upper(t))
  {
    IdentFacts(t);
  }

  /** put of a column not yet in the map appends it. */
  lemma PutNew(m: seq<(string, string)>, k: string, v: string)
    requires DistinctKeys(m) && forall j :: 0 <= j < |m| ==> m[j].0 != k
    ensures Put(m, k, v) == m + [(k, v)]
  {
  }

  lemma AssignmentsOfSnoc(ps: seq<string>, p: string, init: seq<(string, string)>, a: (string, string))
    requires AssignmentsOf(ps) == Ok(init) && AssignmentOf(p) == Ok(a)
    ensures DistinctKeys(init) && AssignmentsOf(ps + [p]) == Ok(Put(init, a.0, a.1))
  {
    assert (ps + [p])[..|ps|] == ps;
  }

  lemma AssignTextsSnoc(m: seq<(string, string)>)
    requires |m| >= 1
    ensures AssignTexts(m) == AssignTexts(m[..|m| - 1]) + [AssignText(m[|m| - 1])]
  {
  }

  /** The assignments read back in order as the map they came from. */
  lemma {:induction false} AssignmentsRead(m: seq<(string, string)>)
    requires DistinctKeys(m) && forall i :: 0 <= i < |m| ==> Ident(m[i].0)
    ensures AssignmentsOf(AssignTexts(m)) == Ok(m)
    decreases |m|
  {
    if |m| == 0 {
      assert AssignTexts(m) == [];
    } else {
      var n := |m| - 1;
      var init, a := m[..n], m[n];
      assert DistinctKeys(init);
      AssignmentsRead(init);
      AssignRead(a.0, a.1);
      AssignTextsSnoc(m);
      AssignmentsOfSnoc(AssignTexts(init), AssignText(a), init, a);
      PutNew(init, a.0, a.1);
      LastSplit(m);
    }
  }

  /** The list, trimmed, splits back into the assignments. */
  lemma ListSplit(m: seq<(string, string)>)
    requires Assignable(m)
    ensures Trim(" " + AssignList(m)) == AssignList(m)
    ensures SplitAt(AssignList(m), ',') == AssignTexts(m)
  {
    var xs := AssignTexts(m);
    forall i | 0 <= i < |xs|
      ensures ',' !in xs[i]
    {
      IdentFacts(m[i].0);
      assert xs[i] == m[i].0 + "=" + ("'" + m[i].1 + "'");
    }
    assert xs[|xs| - 1] == AssignText(m[|m| - 1]);
    SplitAtJoin(xs, ',');
    ListEdges(m);
    SidesTrimmed(AssignList(m), AssignList(m));
  }

  /** The cuts parseUpdate makes in the rendered text, at the index of
      " SET " and the index just past the assignments. */
  lemma UpdateCuts(t: string, m: seq<(string, string)>, w: Option<Condition>, setAt: nat, e: nat)
    requires setAt == 7 + |t| && e == setAt + 5 + |AssignList(m)|
    ensures var sql, a := RenderUpdate(t, m, w), AssignList(m);
      |sql| == e + |WhereText(w)| &&
      sql[6..setAt] == " " + t &&
      sql[setAt + 4..e] == " " + a &&
      sql[setAt + 4..] == " " + a + WhereText(w) &&
      sql[e..] == WhereText(w)
  {
    var sql, a, x := RenderUpdate(t, m, w), AssignList(m), WhereText(w);
    assert sql == "UPDATE" + " " + t + " SET" + (" " + a) + x;
    assert sql[6..setAt] == " " + t;
    assert sql[setAt + 4..e] == " " + a;
    assert sql[e..] == x;
  }

  /** The condition after WHERE reads back. */
  lemma ClauseRead(sql: string, b: nat, c: Condition)
    requires Ident(c.column) && b + 6 <= |sql| && sql[b..] == " WHERE " + CondText(c)
    ensures ConditionAfter(sql, b + 6) == Ok(c)
  {
    assert sql[b + 6..] == " " + CondText(c);
    CondSolid(c);
    SidesTrimmed(CondText(c), CondText(c));
    ConditionText(sql, b + 6, c);
  }

  /** updateAt without " WHERE ": the table before " SET ", the
      assignments after it. */
  lemma UpdateAtNone(sql: string, setAt: nat, t: string, m: seq<(string, string)>)
    requires 6 <= setAt && setAt + 4 <= |sql| && Trim(sql[6..setAt]) == t
    requires AssignmentsOf(SplitAt(Trim(sql[setAt + 4..]), ',')) == Ok(m)
    ensures UpdateAt(sql, setAt, -1) == Ok(Update(t, m, None))
  {
    var table, part := sql[6..setAt], sql[setAt + 4..];
    SubstringOk(sql, 6, setAt);
    assert Substring(sql, |"UPDATE"|, setAt) == Ok(table);
    assert SubstringFrom(sql, setAt + 4) == Ok(part);
    assert AssignmentsOf(SplitAt(Trim(part), ',')) == Ok(m);
  }

  /** updateAt with " WHERE ": the assignments between the two, the
      condition after it. */
  lemma UpdateAtSome(sql: string, setAt: nat, whereAt: nat, t: string, m: seq<(string, string)>, c: Condition)
    requires 6 <= setAt && setAt + 4 <= whereAt <= |sql| && Trim(sql[6..setAt]) == t
    requires AssignmentsOf(SplitAt(Trim(sql[setAt + 4..whereAt]), ',')) == Ok(m)
    requires ConditionAfter(sql, whereAt + 6) == Ok(c)
    ensures UpdateAt(sql, setAt, whereAt) == Ok(Update(t, m, Some(c)))
  {
    var table, part := sql[6..setAt], sql[setAt + 4..whereAt];
    SubstringOk(sql, 6, setAt);
    SubstringOk(sql, setAt + 4, whereAt);
    assert Substring(sql, |"UPDATE"|, setAt) == Ok(table);
    assert AssignmentsOf(SplitAt(Trim(part), ',')) == Ok(m);
  }

  /** Where the spaced clause starts in the rendered text, if there is one. */
  function ClauseAt(t: string, m: seq<(string, string)>, w: Option<Condition>): int
  {
    if w.None? then -1 else 12 + |t| + |AssignList(m)|
  }

  /** parseUpdate finds its two keywords in the rendered text. */
  lemma UpdateLocated(t: string, m: seq<(string, string)>, w: Option<Condition>)
    requires Ident(t) && Upper(t) != "SET" && Upper(t) != "WHERE" && Assignable(m)
    ensures var sql := RenderUpdate(t, m, w);
      ParseUpdate(sql) == UpdateAt(sql, 7 + |t|, ClauseAt(t, m, w))
  {
    SetFound(t, m, w);
    WhereFound(t, m, w);
  }

  /** updateAt at those places reads the table, the assignments and the
      condition back. */
  lemma UpdateCutsRead(t: string, m: seq<(string, string)>, w: Option<Condition>)
    requires Ident(t) && Assignable(m) && Named(w)
    ensures var sql := RenderUpdate(t, m, w);
      UpdateAt(sql, 7 + |t|, ClauseAt(t, m, w)) == Ok(Update(t, m, w))
  {
    var sql, a := RenderUpdate(t, m, w), AssignList(m);
    var setAt := 7 + |t|;
    var e := setAt + 5 + |a|;
    UpdateCuts(t, m, w, setAt, e);
    IdentFacts(t);
    SidesTrimmed(t, t);
    ListSplit(m);
    AssignmentsRead(m);
    if w.Some? {
      assert ClauseAt(t, m, w) == e;
      ClauseRead(sql, e, w.value);
      UpdateAtSome(sql, setAt, e, t, m, w.value);
    } else {
      assert sql[setAt + 4..] == " " + a;
      UpdateAtNone(sql, setAt, t, m);
    }
  }

  /** parseUpdate reads the rendered text back. */
  lemma UpdateParsed(t: string, m: seq<(string, string)>, w: Option<Condition>)
    requires Ident(t) && Upper(t) != "SET" && Upper(t) != "WHERE" && Assignable(m) && Named(w)
    ensures ParseUpdate(RenderUpdate(t, m, w)) == Ok(Update(t, m, w))
  {
    UpdateLocated(t, m, w);
    UpdateCutsRead(t, m, w);
  }

  /** A text that comment stripping leaves alone and that starts with
      UPDATE in any case goes to parseUpdate. */
  lemma DispatchUpdate(sql: string)
    requires CommentsStripped(sql) == sql && "UPDATE" <= Upper(sql)
    ensures Parse(sql) == ParseUpdate(sql)
  {
    assert Upper(sql)[0] == 'U';
  }

  /** The rendered UPDATE ends with the closing quote of its last value. */
  lemma UpdateEnd(t: string, m: seq<(string, string)>, w: Option<Condition>)
    requires Assignable(m) && Named(w)
    ensures var sql := RenderUpdate(t, m, w); |sql| > 0 && sql[|sql| - 1] == '\''
  {
    var sql, a, x := RenderUpdate(t, m, w), AssignList(m), WhereText(w);
    ListEdges(m);
    var q := " " + a + x;
    if w.Some? {
      CondSolid(w.value);
      assert q[|q| - 1] == CondText(w.value)[|CondText(w.value)| - 1];
    } else {
      assert q[|q| - 1] == a[|a| - 1];
    }
    assert sql == "UPDATE" + " " + t + " SET" + q;
  }

  lemma UpdateDispatch(t: string, m: seq<(string, string)>, w: Option<Condition>)
    requires Assignable(m) && Named(w)
    ensures Parse(RenderUpdate(t, m, w)) == ParseUpdate(RenderUpdate(t, m, w))
  {
    var sql := RenderUpdate(t, m, w);
    UpperUpdate(t, m, w);
    UpdateEnd(t, m, w);
    PlainText(sql);
    DispatchUpdate(sql);
  }

  /** parse reads a rendered UPDATE back: the table name, every assignment
      in order and the condition, whatever the values hold short of a comma
      or a spaced WHERE. */
  lemma UpdateRoundTrip(t: string, m: seq<(string, string)>, w: Option<Condition>)
    requires Ident(t) && Upper(t) != "SET" && Upper(t) != "WHERE" && Assignable(m) && Named(w)
    ensures Parse(RenderUpdate(t, m, w)) == Ok(Update(t, m, w))
  {
    UpdateDispatch(t, m, w);
    UpdateParsed(t, m, w);
  }
}
