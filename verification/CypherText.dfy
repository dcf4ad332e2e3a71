/** Embedding values in Cypher text, and Cypher text in SQL: what a lexer reads back. */
module CypherText {
  import opened Text
  import opened Numerals

  // ----- string literals -----

  /** JavaScript's `replace(/c/g, by)`. */
  function ReplaceAll(s: string, c: char, sub: string): string {
    if s == "" then ""
    else (if s[0] == c then sub else [s[0]]) + ReplaceAll(s[1..], c, sub)
  }

  function WithoutNul(s: string): string { ReplaceAll(s, '\0', "") }

  /** Backslashes first, so that the backslashes added for quotes are not escaped again. */
  function Escaped(s: string): string { ReplaceAll(ReplaceAll(s, '\\', "\\\\"), '\'', "\\'") }

  function CypherStr(value: string): string { "'" + Escaped(WithoutNul(value)) + "'" }

  /** `cypherStrList`: literals between brackets, a comma and a space between two. */
  function CypherStrList(values: seq<string>): string { "[" + Items(values) + "]" }

  function Items(values: seq<string>): string {
    if values == [] then ""
    else if |values| == 1 then CypherStr(values[0])
    else CypherStr(values[0]) + ", " + Items(values[1..])
  }

  // ----- the openCypher lexer -----

  function Unescape(c: char): Option<char> {
    match c
    case '\\' => Some('\\')
    case '\'' => Some('\'')
    case '"' => Some('"')
    case 'b' => Some(8 as char)
    case 'f' => Some(12 as char)
    case 'n' => Some('\n')
    case 'r' => Some('\r')
    case 't' => Some('\t')
    case _ => None
  }

  /** The rest of a literal whose opening quote was read: its value and what follows the closing quote. */
  function LexTail(s: string): Option<(string, string)> {
    if s == "" then None
    else if s[0] == '\'' then Some(("", s[1..]))
    else if s[0] == '\\' then
      if |s| < 2 then None else PutFirst(Unescape(s[1]), LexTail(s[2..]))
    else PutFirst(Some(s[0]), LexTail(s[1..]))
  }

  function PutFirst(c: Option<char>, tail: Option<(string, string)>): Option<(string, string)> {
    match (c, tail)
    case (Some(first), Some(t)) => Some(([first] + t.0, t.1))
    case _ => None
  }

  function LexString(s: string): Option<(string, string)> {
    if s == "" || s[0] != '\'' then None else LexTail(s[1..])
  }

  function LexItems(s: string): Option<(seq<string>, string)>
    decreases |s|
  {
    match LexString(s)
    case None => None
    case Some(first) =>
      if "]" <= first.1 then Some(([first.0], first.1[1..]))
      else if ", " <= first.1 && |first.1| < |s| then
        match LexItems(first.1[2..])
        case None => None
        case Some(more) => Some(([first.0] + more.0, more.1))
      else None
  }

  function LexList(s: string): Option<(seq<string>, string)> {
    if s == "" || s[0] != '[' then None
    else if "]" <= s[1..] then Some(([], s[2..]))
    else LexItems(s[1..])
  }

  lemma {:induction false} ReplaceConcat(s: string, t: string, c: char, sub: string)
    ensures ReplaceAll(s + t, c, sub) == ReplaceAll(s, c, sub) + ReplaceAll(t, c, sub)
  {
    if s == "" {
      assert s + t == t;
    } else {
      ReplaceConcat(s[1..], t, c, sub);
      assert (s + t)[1..] == s[1..] + t && (s + t)[0] == s[0];
      var first := if s[0] == c then sub else [s[0]];
      assert first + (ReplaceAll(s[1..], c, sub) + ReplaceAll(t, c, sub))
          == (first + ReplaceAll(s[1..], c, sub)) + ReplaceAll(t, c, sub);
    }
  }

  /** The two passes escape one character at a time. */
  lemma EscapedFirst(s: string)
    requires s != ""
    ensures Escaped(s) == (if s[0] == '\\' then "\\\\" else if s[0] == '\'' then "\\'" else [s[0]]) + Escaped(s[1..])
  {
    var first := if s[0] == '\\' then "\\\\" else [s[0]];
    ReplaceConcat(first, ReplaceAll(s[1..], '\\', "\\\\"), '\'', "\\'");
    if s[0] == '\\' {
      assert ReplaceAll("\\\\", '\'', "\\'") == "\\\\" by {
        assert "\\\\"[1..] == "\\";
        assert "\\"[1..] == "";
      }
    } else {
      assert [s[0]][1..] == "";
      assert ReplaceAll([s[0]], '\'', "\\'") == if s[0] == '\'' then "\\'" else [s[0]];
    }
  }

  lemma {:induction false} LexEscaped(s: string, rest: string)
    ensures LexTail(Escaped(s) + ("'" + rest)) == Some((s, rest))
  {
    var text := Escaped(s) + ("'" + rest);
    if s == "" {
      assert text == "'" + rest;
      assert text[1..] == rest;
    } else {
      EscapedFirst(s);
      LexEscaped(s[1..], rest);
      var tail := Escaped(s[1..]) + ("'" + rest);
      if s[0] == '\\' || s[0] == '\'' {
        assert text == ['\\', s[0]] + tail;
        assert text[2..] == tail && text[1] == s[0];
      } else {
        assert text == [s[0]] + tail;
        assert text[1..] == tail;
      }
      assert [s[0]] + s[1..] == s;
    }
  }

  /** A literal followed by anything is read as one string, the value without its NULs, and nothing more. */
  lemma StringRoundTrip(value: string, rest: string)
    ensures LexString(CypherStr(value) + rest) == Some((WithoutNul(value), rest))
  {
    hide LexTail, Escaped, WithoutNul;
    LexEscaped(WithoutNul(value), rest);
    var text := CypherStr(value) + rest;
    assert text[1..] == Escaped(WithoutNul(value)) + ("'" + rest);
  }

  lemma {:induction false} NulFreeStays(value: string)
    requires '\0' !in value
    ensures WithoutNul(value) == value
  {
    if value != "" {
      NulFreeStays(value[1..]);
      assert [value[0]] + value[1..] == value;
    }
  }

  /** What is read back is the value itself when it has no NUL, and a NUL may as well not be there. */
  lemma LiteralMeansItsValue(value: string, front: string, back: string, rest: string)
    requires '\0' !in value
    ensures LexString(CypherStr(value) + rest) == Some((value, rest))
    ensures CypherStr(front + "\0" + back) == CypherStr(front + back)
  {
    hide LexString, Escaped;
    NulFreeStays(value);
    StringRoundTrip(value, rest);
    ReplaceConcat(front + "\0", back, '\0', "");
    ReplaceConcat(front, "\0", '\0', "");
    ReplaceConcat(front, back, '\0', "");
    assert "\0"[1..] == "";
    assert ReplaceAll("\0", '\0', "") == "";
    assert ReplaceAll(front, '\0', "") + "" == ReplaceAll(front, '\0', "");
  }

  /** A list literal of values without NULs means just these values. */
  lemma ListMeansItsValues(values: seq<string>, rest: string)
    requires forall i :: 0 <= i < |values| ==> '\0' !in values[i]
    ensures LexList(CypherStrList(values) + rest) == Some((values, rest))
  {
    hide WithoutNul, CypherStrList, LexList;
    ListRoundTrip(values, rest);
    forall i | 0 <= i < |values| ensures WithoutNul(values[i]) == values[i] { NulFreeStays(values[i]); }
    assert AllWithoutNul(values) == values;
  }

  function AllWithoutNul(values: seq<string>): (r: seq<string>)
    ensures |r| == |values|
  {
    seq(|values|, i requires 0 <= i < |values| => WithoutNul(values[i]))
  }

  lemma {:induction false} ItemsRoundTrip(values: seq<string>, rest: string)
    requires values != []
    ensures LexItems(Items(values) + ("]" + rest)) == Some((AllWithoutNul(values), rest))
  {
    hide LexString, CypherStr, WithoutNul;
    var text := Items(values) + ("]" + rest);
    if |values| == 1 {
      StringRoundTrip(values[0], "]" + rest);
      assert ("]" + rest)[1..] == rest;
      assert AllWithoutNul(values) == [WithoutNul(values[0])];
    } else {
      var tail := Items(values[1..]) + ("]" + rest);
      ItemsRoundTrip(values[1..], rest);
      assert text == CypherStr(values[0]) + (", " + tail);
      StringRoundTrip(values[0], ", " + tail);
      assert (", " + tail)[2..] == tail;
      assert |CypherStr(values[0])| > 0 by { LiteralIsNotEmpty(values[0]); }
      assert (", " + tail)[0] == ',';
      assert AllWithoutNul(values) == [WithoutNul(values[0])] + AllWithoutNul(values[1..]);
    }
  }

  lemma LiteralIsNotEmpty(value: string)
    ensures |CypherStr(value)| >= 2 && CypherStr(value)[0] == '\''
  {
  }

  /** Reading a list literal followed by anything returns exactly the listed values. */
  lemma ListRoundTrip(values: seq<string>, rest: string)
    ensures LexList(CypherStrList(values) + rest) == Some((AllWithoutNul(values), rest))
  {
    hide CypherStr, LexItems;
    var text := CypherStrList(values) + rest;
    if values == [] {
      assert text[1..] == "]" + rest && text[2..] == rest;
      assert AllWithoutNul(values) == [];
    } else {
      assert text[1..] == Items(values) + ("]" + rest);
      LiteralIsNotEmpty(values[0]);
      assert Items(values)[0] == '\'' && text[0] == '[' && text[1..][0] == '\'';
      ItemsRoundTrip(values, rest);
    }
  }

  // ----- the dollar quote around a query -----

  predicate OccursAt(s: string, t: string, p: nat) { p + |t| <= |s| && s[p..p + |t|] == t }

  predicate Includes(s: string, t: string) { exists p :: 0 <= p <= |s| && OccursAt(s, t, p) }

  const PLAIN_TAG := "$cy$"

  function Tag(i: nat): string { "$cy" + Decimal(i) + "$" }

  /** Two tags that begin at the same place in a text are the same tag. */
  lemma OneTagPerPlace(s: string, p: nat, i: nat, j: nat)
    requires OccursAt(s, Tag(i), p) && OccursAt(s, Tag(j), p)
    ensures i == j
  {
    assert "$cy" + (Decimal(i) + "$") == Tag(i) && "$cy" + (Decimal(j) + "$") == Tag(j);
    OccursAfter(s, "$cy", Decimal(i) + "$", p);
    OccursAfter(s, "$cy", Decimal(j) + "$", p);
    SameNumeral(s, p + 3, Decimal(i), Decimal(j));
    DecimalRoundTrip(i);
    DecimalRoundTrip(j);
  }

  lemma OccursAfter(s: string, u: string, v: string, p: nat)
    requires OccursAt(s, u + v, p)
    ensures OccursAt(s, v, p + |u|)
  {
    assert s[p..p + |u + v|][|u|..] == s[p + |u|..p + |u| + |v|];
    assert (u + v)[|u|..] == v;
  }

  /** A numeral ends at the first '$'. */
  lemma SameNumeral(s: string, p: nat, x: string, y: string)
    requires AllDigits(x) && AllDigits(y)
    requires OccursAt(s, x + "$", p) && OccursAt(s, y + "$", p)
    ensures x == y
  {
    var m, n := |x|, |y|;
    if m < n {
      CharAt(s, y + "$", p, m);
      CharAt(s, x + "$", p, m);
    } else if n < m {
      CharAt(s, x + "$", p, n);
      CharAt(s, y + "$", p, n);
    } else {
      assert (x + "$")[..m] == x && (y + "$")[..n] == y;
    }
  }

  lemma CharAt(s: string, t: string, p: nat, k: nat)
    requires OccursAt(s, t, p) && k < |t|
    ensures s[p + k] == t[k]
  {
    assert s[p..p + |t|][k] == s[p + k];
  }

  lemma {:induction false} PlacesAreFew(places: set<nat>, n: nat)
    requires forall p :: p in places ==> p < n
    ensures |places| <= n
    decreases n
  {
    if n == 0 {
      assert places == {};
    } else {
      PlacesAreFew(places - {n - 1}, n - 1);
    }
  }

  /** The lowest number whose tag the query does not contain. */
  ghost predicate FirstFree(query: string, i: nat) {
    !Includes(query, "$cy" + Decimal(i) + "$")
    && forall j: nat :: j < i ==> Includes(query, "$cy" + Decimal(j) + "$")
  }

  /** The search ends within |query| + 2 tries with a tag the query does not contain. */
  method ChooseTag(query: string) returns (tag: string, ghost tries: nat)
    ensures !Includes(query, tag)
    ensures tag == "$cy$" || exists i :: 0 <= i <= |query| && FirstFree(query, i) && tag == "$cy" + Decimal(i) + "$"
    ensures tag == "$cy$" <==> !Includes(query, "$cy$")
    ensures 1 <= tries <= |query| + 2
  {
    tag, tries := PLAIN_TAG, 1;
    if Includes(query, tag) {
      var i := 0;
      ghost var places: set<nat> := {};
      tag, tries := Tag(0), 2;
      while Includes(query, tag)
        invariant tag == Tag(i) && tries == i + 2 && i <= |query|
        invariant |places| == i && forall j: nat :: j < i ==> Includes(query, "$cy" + Decimal(j) + "$")
        invariant forall p :: p in places ==> p < |query| && exists j :: 0 <= j < i && OccursAt(query, Tag(j), p)
        decreases |query| - i
      {
        ghost var p :| 0 <= p <= |query| && OccursAt(query, tag, p);
        if p in places {
          ghost var j :| 0 <= j < i && OccursAt(query, Tag(j), p);
          OneTagPerPlace(query, p, i, j);
          assert false;
        }
        places := places + {p};
        PlacesAreFew(places, |query|);
        i := i + 1;
        tag, tries := Tag(i), tries + 1;
      }
      assert FirstFree(query, i);
    }
  }

  /** The SQL text around a query. */
  function Assemble(graphName: string, tag: string, query: string, columns: string): string {
    "SELECT * FROM cypher(" + CypherStr(graphName) + ", " + tag + (" " + query + " " + tag + ") AS (" + columns + ")")
  }

  predicate FirstAt(s: string, t: string, p: nat) {
    OccursAt(s, t, p) && forall q :: 0 <= q < p ==> !OccursAt(s, t, q)
  }

  predicate NoSpace(tag: string) { forall i :: 0 <= i < |tag| ==> tag[i] != ' ' }

  /**
   * Behind the opening tag the closing one is the first occurrence, so the quoted text is the query and nothing
   * else.
   */
  lemma ClosingTagIsFirst(tag: string, query: string, after: string)
    requires tag != "" && NoSpace(tag) && !Includes(query, tag)
    ensures FirstAt(" " + query + " " + tag + after, tag, |query| + 2)
  {
    var s := " " + query + " " + tag + after;
    assert s[|query| + 2..|query| + 2 + |tag|] == tag;
    forall q | 0 <= q < |query| + 2 ensures !OccursAt(s, tag, q) {
      if q == 0 {
        assert s[0..0 + |tag|][0] == ' ';
      } else if q + |tag| <= |query| + 1 {
        assert query[q - 1..q - 1 + |tag|] == s[q..q + |tag|];
        assert !OccursAt(query, tag, q - 1);
      } else {
        assert s[q..q + |tag|][|query| + 1 - q] == ' ';
      }
    }
  }

  lemma TagsHaveNoSpace(i: nat)
    ensures NoSpace(PLAIN_TAG) && NoSpace(Tag(i)) && Tag(i) != ""
  {
    var d := Decimal(i);
    assert forall k :: 0 <= k < |d| ==> IsDigit(d[k]);
  }

  /**
   * What a server reads from the statement: after the opening words a literal that means the graph's name, then the
   * tag; from there on the text up to the next place where the tag stands is the query between two spaces, and behind
   * that tag only the columns follow.
   */
  ghost predicate ReadsAs(sql: string, graphName: string, tag: string, query: string, columns: string) {
    var opening := "SELECT * FROM cypher(";
    opening <= sql
    && match LexString(sql[|opening|..])
       case None => false
       case Some((name, rest)) =>
         && name == WithoutNul(graphName) && ", " + tag <= rest
         && var body := rest[2 + |tag|..];
            FirstAt(body, tag, |query| + 2)
            && body[..|query| + 2] == " " + query + " "
            && body[|query| + 2 + |tag|..] == ") AS (" + columns + ")"
  }

  lemma AssembledIs(graphName: string, tag: string, query: string, columns: string)
    ensures
      var body := " " + query + " " + tag + (") AS (" + columns + ")");
      Assemble(graphName, tag, query, columns)
      == "SELECT * FROM cypher(" + (CypherStr(graphName) + (", " + tag + body))
  {
    hide CypherStr;
  }

  lemma BodyReads(tag: string, query: string, end: string)
    ensures
      var body := " " + query + " " + tag + end;
      && (", " + tag + body)[2 + |tag|..] == body && body[..|query| + 2] == " " + query + " "
      && body[|query| + 2 + |tag|..] == end
  {
  }

  lemma StatementReads(graphName: string, tag: string, query: string, columns: string)
    requires tag != "" && NoSpace(tag) && !Includes(query, tag)
    ensures ReadsAs(Assemble(graphName, tag, query, columns), graphName, tag, query, columns)
  {
    hide LexString, CypherStr, WithoutNul, Includes, Assemble, FirstAt, NoSpace;
    var opening, end := "SELECT * FROM cypher(", ") AS (" + columns + ")";
    var body := " " + query + " " + tag + end;
    var rest := ", " + tag + body;
    AssembledIs(graphName, tag, query, columns);
    var sql := opening + (CypherStr(graphName) + rest);
    assert opening <= sql && sql[|opening|..] == CypherStr(graphName) + rest;
    StringRoundTrip(graphName, rest);
    ClosingTagIsFirst(tag, query, end);
    BodyReads(tag, query, end);
  }

  /** Building the statement: the tag chosen for the query also closes where it should. */
  method BuildStatement(graphName: string, query: string, columns: string) returns (sql: string, tag: string)
    ensures sql == Assemble(graphName, tag, query, columns)
    ensures ReadsAs(sql, graphName, tag, query, columns)
  {
    hide Includes, ReadsAs;
    ghost var tries;
    tag, tries := ChooseTag(query);
    sql := Assemble(graphName, tag, query, columns);
    if tag == PLAIN_TAG {
      TagsHaveNoSpace(0);
    } else {
      ghost var i :| 0 <= i <= |query| && tag == "$cy" + Decimal(i) + "$";
      TagsHaveNoSpace(i);
    }
    StatementReads(graphName, tag, query, columns);
  }
}
