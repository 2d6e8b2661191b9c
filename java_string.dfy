/** The java.lang.String operations the SQL parser is assembled from:
    trim, toUpperCase, startsWith, indexOf, lastIndexOf, substring and the
    three kinds of split it uses. A string is a sequence of UTF-16 units. */
module JavaStrings {
  import opened Wrappers

  /** What substring throws for indices outside the string. */
  const OutOfBounds: string := "StringIndexOutOfBoundsException"

  /** The units trim removes from both ends: U+0000 up to the space. */
  predicate Blank(c: char)
  {
    c <= ' '
  }

  predicate AllBlank(s: string)
  {
    forall i :: 0 <= i < |s| ==> Blank(s[i])
  }

  /** A string trim returns unchanged. */
  predicate Trimmed(s: string)
  {
    s == [] || (!Blank(s[0]) && !Blank(s[|s| - 1]))
  }

  /** The number of blank units at the front. */
  function Leading(s: string): (n: nat)
    ensures n <= |s|
    ensures forall i :: 0 <= i < n ==> Blank(s[i])
    ensures n < |s| ==> !Blank(s[n])
  {
    if |s| > 0 && Blank(s[0]) then 1 + Leading(s[1..]) else 0
  }

  /** The number of blank units at the back. */
  function Trailing(s: string): (n: nat)
    ensures n <= |s|
    ensures forall i :: |s| - n <= i < |s| ==> Blank(s[i])
    ensures n < |s| ==> !Blank(s[|s| - 1 - n])
  {
    if |s| > 0 && Blank(s[|s| - 1]) then 1 + Trailing(s[..|s| - 1]) else 0
  }

  /** String.trim: the slice between the leading and the trailing blanks. */
  function Trim(s: string): (r: string)
    ensures Trimmed(r) && |r| <= |s|
  {
    var a := Leading(s);
    if a == |s| then [] else s[a..|s| - Trailing(s)]
  }

  /** trim removes exactly the blanks around a trimmed string, so it is
      idempotent and undoes any blank padding. */
  lemma TrimAround(a: string, m: string, b: string)
    requires AllBlank(a) && AllBlank(b) && Trimmed(m)
    ensures Trim(a + m + b) == m
  {
    var s := a + m + b;
    if m == [] {
      assert s == a + b;
      assert Leading(s) == |s|;
    } else {
      assert s[|a|] == m[0];
      assert Leading(s) == |a|;
      assert s[|s| - 1 - |b|] == m[|m| - 1];
      assert Trailing(s) == |b|;
      assert s[|a|..|s| - |b|] == m;
    }
  }

  /** Character.toUpperCase on the ASCII letters; every other unit is kept. */
  function UpperChar(c: char): char
  {
    if 'a' <= c <= 'z' then (c as int - 32) as char else c
  }

  /** String.toUpperCase, unit by unit: the length never changes, so an index
      found in the upper-cased text is an index into the original. */
  function Upper(s: string): (r: string)
    ensures |r| == |s|
    ensures forall i :: 0 <= i < |s| ==> r[i] == UpperChar(s[i])
  {
    seq(|s|, i requires 0 <= i < |s| => UpperChar(s[i]))
  }

  lemma UpperConcat(a: string, b: string)
    ensures Upper(a + b) == Upper(a) + Upper(b)
  {
  }

  /** String.endsWith. */
  predicate EndsWith(s: string, suffix: string)
  {
    |suffix| <= |s| && s[|s| - |suffix|..] == suffix
  }

  /** p occurs in s starting at index i. */
  predicate OccursAt(s: string, p: string, i: int)
  {
    0 <= i && i + |p| <= |s| && s[i..i + |p|] == p
  }

  function IndexFrom(s: string, p: string, from: nat): (r: int)
    requires from <= |s|
    decreases |s| - from
    ensures r < 0 ==> r == -1 && forall j :: from <= j <= |s| ==> !OccursAt(s, p, j)
    ensures r >= 0 ==> from <= r && OccursAt(s, p, r)
    ensures r >= 0 ==> forall j :: from <= j < r ==> !OccursAt(s, p, j)
  {
    if from + |p| > |s| then -1
    else if s[from..from + |p|] == p then from
    else if from == |s| then -1
    else IndexFrom(s, p, from + 1)
  }

  /** String.indexOf(String): the first index where p occurs, or -1. */
  function IndexOf(s: string, p: string): (r: int)
    ensures r < 0 ==> r == -1 && forall j :: 0 <= j <= |s| ==> !OccursAt(s, p, j)
    ensures r >= 0 ==> OccursAt(s, p, r) && forall j :: 0 <= j < r ==> !OccursAt(s, p, j)
  {
    IndexFrom(s, p, 0)
  }

  /** A string that begins with p finds p at index 0. */
  lemma IndexOfStart(p: string, rest: string)
    ensures IndexOf(p + rest, p) == 0
  {
    assert OccursAt(p + rest, p, 0);
  }

  /** An occurrence that cannot start inside a is looked for in b alone. */
  lemma IndexOfSkip(a: string, b: string, p: string)
    requires forall i :: 0 <= i < |a| ==> !OccursAt(a + b, p, i)
    ensures IndexOf(a + b, p) == if IndexOf(b, p) < 0 then -1 else |a| + IndexOf(b, p)
  {
    var s := a + b;
    forall j | 0 <= j <= |b|
      ensures OccursAt(s, p, |a| + j) <==> OccursAt(b, p, j)
    {
      if j + |p| <= |b| {
        assert s[|a| + j..|a| + j + |p|] == b[j..j + |p|];
      }
    }
    var q := IndexOf(b, p);
    var end := if q < 0 then |s| + 1 else |a| + q;
    forall j | 0 <= j < end
      ensures !OccursAt(s, p, j)
    {
      if j >= |a| {
        assert !OccursAt(b, p, j - |a|);
      }
    }
    if q >= 0 {
      assert OccursAt(s, p, |a| + q);
    }
  }

  /** A unit that p does not contain separates two texts: p is found after
      the unit when it is absent before it. */
  lemma IndexOfBarrier(a: string, x: char, b: string, p: string)
    requires x !in p && IndexOf(a, p) < 0
    ensures IndexOf(a + [x] + b, p) == if IndexOf(b, p) < 0 then -1 else |a| + 1 + IndexOf(b, p)
  {
    var s := a + [x] + b;
    forall i | 0 <= i < |a + [x]|
      ensures !OccursAt((a + [x]) + b, p, i)
    {
      if i + |p| <= |a| {
        assert s[i..i + |p|] == a[i..i + |p|];
        assert !OccursAt(a, p, i);
      } else if i + |p| <= |s| {
        assert s[i..i + |p|][|a| - i] == x;
      }
    }
    assert s == (a + [x]) + b;
    IndexOfSkip(a + [x], b, p);
  }

  /** String.indexOf(int): the first index holding c, or -1. */
  function FirstIndex(s: string, c: char): (r: int)
    ensures r < 0 ==> r == -1 && c !in s
    ensures r >= 0 ==> r < |s| && s[r] == c && c !in s[..r]
  {
    if |s| == 0 then -1
    else if s[0] == c then 0
    else
      var r := FirstIndex(s[1..], c);
      assert s[1..][..(if r < 0 then 0 else r)] == s[1..1 + (if r < 0 then 0 else r)];
      if r < 0 then -1 else r + 1
  }

  /** String.lastIndexOf(int): the last index holding c, or -1. */
  function LastIndex(s: string, c: char): (r: int)
    ensures r < 0 ==> r == -1 && c !in s
    ensures r >= 0 ==> r < |s| && s[r] == c && c !in s[r + 1..]
  {
    if |s| == 0 then -1
    else if s[|s| - 1] == c then |s| - 1
    else
      var r := LastIndex(s[..|s| - 1], c);
      assert r >= 0 ==> s[r + 1..] == s[..|s| - 1][r + 1..] + [s[|s| - 1]];
      r
  }

  /** String.substring(b, e): fails unless 0 <= b <= e <= length. */
  function Substring(s: string, b: int, e: int): (r: Result<string>)
    ensures r.Ok? <==> 0 <= b <= e <= |s|
    ensures r.Ok? ==> |r.value| == e - b && r.value == s[b..e]
    ensures r.Err? ==> r.msg == OutOfBounds
  {
    if 0 <= b <= e <= |s| then Ok(s[b..e]) else Err(OutOfBounds)
  }

  /** String.substring(b): the suffix from b. */
  function SubstringFrom(s: string, b: int): (r: Result<string>)
    ensures r.Ok? <==> 0 <= b <= |s|
    ensures r.Ok? ==> r.value == s[b..]
  {
    Substring(s, b, |s|)
  }

  /** The pieces between the occurrences of c, before any are dropped. */
  function Pieces(s: string, c: char): (r: seq<string>)
    decreases |s|
    ensures |r| >= 1 && Join(r, c) == s
    ensures forall k :: 0 <= k < |r| ==> c !in r[k]
  {
    var i := FirstIndex(s, c);
    if i < 0 then [s]
    else
      var rest := Pieces(s[i + 1..], c);
      assert s == s[..i] + [c] + s[i + 1..];
      [s[..i]] + rest
  }

  /** The pieces put back together with c between neighbours. */
  function Join(xs: seq<string>, c: char): string
  {
    if |xs| == 0 then []
    else if |xs| == 1 then xs[0]
    else xs[0] + [c] + Join(xs[1..], c)
  }

  /** Splitting a join of c-free pieces gives the pieces back. */
  lemma {:induction false} PiecesJoin(xs: seq<string>, c: char)
    requires |xs| >= 1 && forall k :: 0 <= k < |xs| ==> c !in xs[k]
    ensures Pieces(Join(xs, c), c) == xs
  {
    if |xs| > 1 {
      var s := Join(xs, c);
      assert s == xs[0] + [c] + Join(xs[1..], c);
      assert s[|xs[0]|] == c;
      assert s[..|xs[0]|] == xs[0];
      assert FirstIndex(s, c) == |xs[0]|;
      assert s[|xs[0]| + 1..] == Join(xs[1..], c);
      PiecesJoin(xs[1..], c);
      assert Pieces(s, c) == [xs[0]] + xs[1..];
    }
  }

  /** Java's split with limit 0 discards the empty strings at the end. */
  function DropEmptyTail(xs: seq<string>): (r: seq<string>)
    ensures r <= xs
    ensures r == [] || r[|r| - 1] != []
    ensures forall k :: |r| <= k < |xs| ==> xs[k] == []
  {
    if |xs| > 0 && xs[|xs| - 1] == [] then DropEmptyTail(xs[..|xs| - 1]) else xs
  }

  /** String.split on a one-unit pattern such as ",": the text itself when
      the unit is absent, otherwise the pieces less the empty ones at the end. */
  function SplitAt(s: string, c: char): (r: seq<string>)
    ensures forall k :: 0 <= k < |r| ==> c !in r[k]
    ensures c !in s ==> r == [s]
    ensures c in s ==> r <= Pieces(s, c)
  {
    if c !in s then [s] else DropEmptyTail(Pieces(s, c))
  }

  /** String.split(p, 2) on a one-unit pattern: the text before the first
      occurrence and everything after it, or the text alone. */
  function SplitFirst(s: string, c: char): (r: seq<string>)
    ensures |r| == 1 <==> c !in s
    ensures |r| == 1 ==> r[0] == s
    ensures |r| != 1 ==> |r| == 2 && r[0] + [c] + r[1] == s && c !in r[0]
  {
    var i := FirstIndex(s, c);
    if i < 0 then [s]
    else
      assert s == s[..i] + [c] + s[i + 1..];
      [s[..i], s[i + 1..]]
  }

  /** The two run patterns of the parser: the regular expression \s+
      (space, tab, line feed, vertical tab, form feed, carriage return) and
      the regular expression of one or more spaces. */
  datatype Sep = Whitespace | Spaces

  predicate IsSep(k: Sep, c: char)
  {
    match k
    case Whitespace => c == ' ' || c == '\t' || c == '\n' || c == '\r' || c as int == 11 || c as int == 12
    case Spaces => c == ' '
  }

  predicate NoSep(k: Sep, s: string)
  {
    forall i :: 0 <= i < |s| ==> !IsSep(k, s[i])
  }

  /** The index of the first separator unit, or -1. */
  function FirstSep(s: string, k: Sep): (r: int)
    ensures r < 0 ==> r == -1 && NoSep(k, s)
    ensures r >= 0 ==> r < |s| && IsSep(k, s[r]) && forall i :: 0 <= i < r ==> !IsSep(k, s[i])
  {
    if |s| == 0 then -1
    else if IsSep(k, s[0]) then 0
    else
      var r := FirstSep(s[1..], k);
      if r < 0 then -1 else r + 1
  }

  /** The length of the run of separator units at the front. */
  function RunLength(s: string, k: Sep): (n: nat)
    ensures n <= |s|
    ensures forall i :: 0 <= i < n ==> IsSep(k, s[i])
    ensures n < |s| ==> !IsSep(k, s[n])
  {
    if |s| > 0 && IsSep(k, s[0]) then 1 + RunLength(s[1..], k) else 0
  }

  /** The pieces between maximal runs of separators, before any are dropped;
      a run at the very front yields an empty first piece. */
  function RunPieces(s: string, k: Sep): (r: seq<string>)
    decreases |s|
    ensures |r| >= 1
    ensures forall p :: 0 <= p < |r| ==> NoSep(k, r[p])
  {
    var i := FirstSep(s, k);
    if i < 0 then [s]
    else
      var n := RunLength(s[i..], k);
      [s[..i]] + RunPieces(s[i + n..], k)
  }

  /** String.split on a run pattern: the text itself when no separator
      occurs, otherwise the pieces less the empty ones at the end. */
  function SplitRuns(s: string, k: Sep): (r: seq<string>)
    ensures forall p :: 0 <= p < |r| ==> NoSep(k, r[p])
    ensures FirstSep(s, k) < 0 ==> r == [s]
  {
    if FirstSep(s, k) < 0 then [s] else DropEmptyTail(RunPieces(s, k))
  }

  /** A word followed by one separator: the word is the first piece and the
      remaining pieces are those of the rest. */
  lemma RunPiecesCons(w: string, x: char, rest: string, k: Sep)
    requires NoSep(k, w) && IsSep(k, x) && (rest == [] || !IsSep(k, rest[0]))
    ensures RunPieces(w + [x] + rest, k) == [w] + RunPieces(rest, k)
  {
    var s := w + [x] + rest;
    assert s[|w|] == x;
    assert forall i :: 0 <= i < |w| ==> s[i] == w[i];
    var i := FirstSep(s, k);
    assert i == |w|;
    assert s[i..] == [x] + rest;
    assert RunLength(rest, k) == 0;
    assert RunLength(s[i..], k) == 1;
    assert s[..i] == w && s[i + 1..] == rest;
  }

  /** Words separated by single separators split into exactly those words. */
  lemma {:induction false} SplitWords(ws: seq<string>, x: char, k: Sep)
    requires |ws| >= 1 && IsSep(k, x)
    requires forall i :: 0 <= i < |ws| ==> |ws[i]| > 0 && NoSep(k, ws[i])
    ensures RunPieces(Join(ws, x), k) == ws
  {
    if |ws| == 1 {
      assert FirstSep(ws[0], k) < 0;
    } else {
      var rest := Join(ws[1..], x);
      assert Join(ws, x) == ws[0] + [x] + rest;
      SplitWords(ws[1..], x, k);
      if |ws[1..]| == 1 {
        assert rest == ws[1];
      } else {
        assert rest == ws[1] + [x] + Join(ws[2..], x);
      }
      assert rest[0] == ws[1][0];
      RunPiecesCons(ws[0], x, rest, k);
      assert [ws[0]] + ws[1..] == ws;
    }
  }

  /** Split on a run pattern of words joined by one separator each. */
  lemma SplitRunsWords(ws: seq<string>, x: char, k: Sep)
    requires |ws| >= 1 && IsSep(k, x)
    requires forall i :: 0 <= i < |ws| ==> |ws[i]| > 0 && NoSep(k, ws[i])
    ensures SplitRuns(Join(ws, x), k) == ws
  {
    SplitWords(ws, x, k);
    var s := Join(ws, x);
    if FirstSep(s, k) < 0 {
      assert RunPieces(s, k) == [s];
    }
    var last := ws[|ws| - 1];
    assert last != [];
  }

  /** Splitting on one unit, pieces that do not hold it and of which the last
      is not empty come back as they were joined. */
  lemma SplitAtJoin(xs: seq<string>, c: char)
    requires |xs| >= 1 && xs[|xs| - 1] != []
    requires forall k :: 0 <= k < |xs| ==> c !in xs[k]
    ensures SplitAt(Join(xs, c), c) == xs
  {
    PiecesJoin(xs, c);
    var s := Join(xs, c);
    if c !in s {
      assert Pieces(s, c) == [s];
    }
  }

  /** The first run-split piece of a word, a separator and more text is the word. */
  lemma SplitRunsHead(w: string, x: char, rest: string, k: Sep)
    requires |w| > 0 && NoSep(k, w) && IsSep(k, x) && (rest == [] || !IsSep(k, rest[0]))
    ensures |SplitRuns(w + [x] + rest, k)| > 0 && SplitRuns(w + [x] + rest, k)[0] == w
  {
    var s := w + [x] + rest;
    RunPiecesCons(w, x, rest, k);
    assert s[|w|] == x;
    assert FirstSep(s, k) >= 0;
    var ps := RunPieces(s, k);
    assert ps[0] == w;
  }

  /** Split at the first c of a text whose part before that c has none. */
  lemma SplitFirstAt(a: string, c: char, b: string)
    requires c !in a
    ensures SplitFirst(a + [c] + b, c) == [a, b]
  {
    var s := a + [c] + b;
    assert s[|a|] == c;
    assert s[..|a|] == a && s[|a| + 1..] == b;
    assert forall i :: 0 <= i < |a| ==> s[i] == a[i];
  }

  /** Upper-casing leaves text without lower-case ASCII letters alone. */
  lemma UpperOfCaps(s: string)
    requires forall i :: 0 <= i < |s| ==> !('a' <= s[i] <= 'z')
    ensures Upper(s) == s
  {
  }
}
