/**
 Statement splitting and the automatic LIMIT of the SQL query runner.
 A query is the flat list of tokens the SQL lexer produces for it.
 */
module SqlStatements {
  import opened Text

  /**
   `Line` is a comment that runs to the end of its line; `closed` says that the line
   break belongs to the token. Every other line break is a `Blank` of its own. `Semi` is
   a semicolon that ends a statement, `Punct` any other punctuation at the top level, and
   `keyword` marks a keyword at the top level.
   */
  datatype Token =
    | Blank(text: string)
    | Block(text: string)
    | Line(body: string, closed: bool)
    | Semi
    | Punct(text: string)
    | Word(text: string, keyword: bool)

  type Tokens = seq<Token>

  const SPACE := Blank(" ")
  const BREAK := Blank("\n")
  const SEPARATOR: Tokens := [Semi, Blank("\n")]
  const LIMIT_TOKENS: Tokens := [Blank(" "), Word("LIMIT", true), Blank(" "), Word("1000", false)]

  predicate IsComment(t: Token) {
    t.Block? || t.Line?
  }

  /**
   What the splitter keeps with the statement whose semicolon it has just passed: a line
   break already belongs to the next statement.
   */
  predicate FollowsSemi(t: Token) {
    (t.Blank? && t != BREAK) || t.Line?
  }

  function TextOf(t: Token): string {
    match t
    case Blank(text) => text
    case Block(text) => text
    case Line(body, closed) => if closed then body + "\n" else body
    case Semi => ";"
    case Punct(text) => text
    case Word(text, _) => text
  }

  function Upper(s: string): string {
    if s == "" then ""
    else [if 'a' <= s[0] <= 'z' then (s[0] as int - 32) as char else s[0]] + Upper(s[1..])
  }

  // ----- splitting -----

  function FollowersLength(ts: Tokens): (n: nat)
    ensures n <= |ts|
    ensures forall i :: 0 <= i < n ==> FollowsSemi(ts[i])
    ensures n < |ts| ==> !FollowsSemi(ts[n])
  {
    if ts == [] || !FollowsSemi(ts[0]) then 0 else 1 + FollowersLength(ts[1..])
  }

  /** The length of the first statement of a token list. */
  function FirstLength(ts: Tokens): (n: nat)
    ensures n <= |ts|
    ensures ts != [] ==> n > 0
  {
    if ts == [] then 0
    else if ts[0].Semi? then 1 + FollowersLength(ts[1..])
    else 1 + FirstLength(ts[1..])
  }

  predicate AllBlank(ts: Tokens) {
    forall i :: 0 <= i < |ts| ==> ts[i].Blank?
  }

  /** Blanks that are left at the end make no statement. */
  function Split(ts: Tokens): seq<Tokens>
    decreases |ts|
  {
    if AllBlank(ts) then []
    else [ts[..FirstLength(ts)]] + Split(ts[FirstLength(ts)..])
  }

  // ----- cleaning one statement -----

  function ContentLength(s: Tokens): (n: nat)
    ensures n <= |s|
    ensures forall i :: n <= i < |s| ==> s[i].Blank? || IsComment(s[i])
    ensures n > 0 ==> !s[n - 1].Blank? && !IsComment(s[n - 1])
  {
    if s != [] && (s[|s| - 1].Blank? || IsComment(s[|s| - 1])) then ContentLength(s[..|s| - 1]) else |s|
  }

  function VisibleLength(s: Tokens): (n: nat)
    ensures n <= |s|
    ensures forall i :: n <= i < |s| ==> s[i].Blank?
    ensures n > 0 ==> !s[n - 1].Blank?
  {
    if s != [] && s[|s| - 1].Blank? then VisibleLength(s[..|s| - 1]) else |s|
  }

  function IndentLength(s: Tokens): (n: nat)
    ensures n <= |s|
    ensures forall i :: 0 <= i < n ==> s[i].Blank?
    ensures n < |s| ==> !s[n].Blank?
  {
    if s != [] && s[0].Blank? then 1 + IndentLength(s[1..]) else 0
  }

  function WithoutTrailingComments(s: Tokens): (r: Tokens)
    ensures |r| == |s|
  {
    var n := ContentLength(s);
    s[..n] + seq(|s| - n, _ => SPACE)
  }

  function WithoutTrailingSemi(s: Tokens): (r: Tokens)
    ensures |r| == |s|
  {
    var n := VisibleLength(s);
    if n > 0 && s[n - 1].Semi? then s[n - 1 := SPACE] else s
  }

  function OpenLast(t: Tokens): (r: Tokens)
    ensures |r| == |t|
    ensures forall i :: 0 <= i < |t| ==> r[i] == t[i] || (r[i].Line? && t[i].Line?)
  {
    if t != [] && t[|t| - 1].Line? then t[|t| - 1 := Line(t[|t| - 1].body, false)] else t
  }

  /** `str(stmt).strip()`: the line break that closes a final comment goes as well. */
  function Strip(s: Tokens): Tokens {
    var m := IndentLength(s);
    if m == |s| then [] else OpenLast(s[m..VisibleLength(s)])
  }

  function Trimmed(s: Tokens): Tokens {
    WithoutTrailingSemi(WithoutTrailingComments(s))
  }

  function Clean(s: Tokens): Tokens {
    Strip(Trimmed(s))
  }

  /** Nothing is left of the statement once its comments are dropped. */
  predicate IsEmpty(s: Tokens) {
    forall i :: 0 <= i < |s| ==> s[i].Blank? || IsComment(s[i])
  }

  function Kept(s: Tokens): seq<Tokens> {
    if IsEmpty(Trimmed(s)) then [] else [Clean(s)]
  }

  function CleanAll(raw: seq<Tokens>): seq<Tokens> {
    FlatMap(Kept, raw)
  }

  lemma CleanAllStep(raw: seq<Tokens>, i: nat)
    requires i < |raw|
    ensures CleanAll(raw[i..]) == Kept(raw[i]) + CleanAll(raw[i + 1..])
  {
    assert raw[i..][1..] == raw[i + 1..];
  }

  /** `split_sql_statements`. */
  function Statements(query: Tokens): (r: seq<Tokens>)
    ensures r != []
  {
    var result := CleanAll(Split(query));
    if result != [] then result else [[]]
  }

  /** `combine_sql_statements`. */
  function Combine(stmts: seq<Tokens>): Tokens {
    if stmts == [] then []
    else if |stmts| == 1 then stmts[0]
    else stmts[0] + SEPARATOR + Combine(stmts[1..])
  }

  // ----- the automatic limit -----

  function LastKeyword(s: Tokens): (r: int)
    ensures -1 <= r < |s|
    ensures r >= 0 ==> s[r].Word? && s[r].keyword
    ensures forall i :: r < i < |s| ==> !(s[i].Word? && s[i].keyword)
  {
    if s == [] then -1
    else if s[|s| - 1].Word? && s[|s| - 1].keyword then |s| - 1
    else LastKeyword(s[..|s| - 1])
  }

  /** `query_is_select_no_limit`. */
  predicate IsSelectNoLimit(s: Tokens) {
    var k := LastKeyword(s);
    k != -1 && Upper(TextOf(s[0])) == "SELECT" && Upper(s[k].text) !in {"LIMIT", "OFFSET"}
  }

  predicate EndsInPunctuation(s: Tokens) {
    s != [] && (s[|s| - 1].Semi? || s[|s| - 1].Punct?)
  }

  function AddLimit(s: Tokens): Tokens {
    if EndsInPunctuation(s) then s[..|s| - 1] + LIMIT_TOKENS + s[|s| - 1..] else s + LIMIT_TOKENS
  }

  function LimitLast(stmts: seq<Tokens>): (r: seq<Tokens>)
    requires stmts != [] && stmts[|stmts| - 1] != []
    ensures |r| == |stmts|
  {
    var last := stmts[|stmts| - 1];
    if IsSelectNoLimit(last) then stmts[|stmts| - 1 := AddLimit(last)] else stmts
  }

  /** A query without any statement makes the lookup of its first token fail. */
  function AutoLimit(query: Tokens): Result<Tokens, string> {
    var stmts := Statements(query);
    if stmts[|stmts| - 1] == [] then Failure("IndexError")
    else Success(Combine(LimitLast(stmts)))
  }

  // ----- the program -----

  method StripTrailingComments(a: array<Token>)
    modifies a
    ensures a[..] == WithoutTrailingComments(old(a[..]))
  {
    ghost var was := a[..];
    var idx := a.Length - 1;
    while idx >= 0
      invariant -1 <= idx < a.Length
      invariant ContentLength(was) <= idx + 1
      invariant a[..idx + 1] == was[..idx + 1]
      invariant forall i :: idx < i < a.Length ==> a[i] == SPACE
    {
      assert a[idx] == a[..idx + 1][idx] == was[idx];
      if a[idx].Blank? || IsComment(a[idx]) {
        a[idx] := SPACE;
      } else {
        break;
      }
      idx := idx - 1;
    }
  }

  method StripTrailingSemicolon(a: array<Token>)
    modifies a
    ensures a[..] == WithoutTrailingSemi(old(a[..]))
  {
    ghost var was := a[..];
    var idx := a.Length - 1;
    while idx >= 0
      invariant -1 <= idx < a.Length
      invariant a[..] == was
      invariant VisibleLength(was) == VisibleLength(was[..idx + 1])
    {
      assert was[..idx + 1][..idx] == was[..idx];
      if !a[idx].Blank? {
        if a[idx].Semi? {
          a[idx] := SPACE;
        }
        break;
      }
      idx := idx - 1;
    }
  }

  method CleanStatement(s: Tokens) returns (r: seq<Tokens>)
    ensures r == Kept(s)
  {
    var stmt := new Token[|s|](j requires 0 <= j < |s| => s[j]);
    assert stmt[..] == s;
    StripTrailingComments(stmt);
    StripTrailingSemicolon(stmt);
    r := if IsEmpty(stmt[..]) then [] else [Strip(stmt[..])];
  }

  method SplitSqlStatements(query: Tokens) returns (result: seq<Tokens>)
    ensures result == Statements(query)
  {
    var stack := Split(query);
    result := [];
    for i := 0 to |stack|
      invariant CleanAll(stack) == result + CleanAll(stack[i..])
    {
      var kept := CleanStatement(stack[i]);
      CleanAllStep(stack, i);
      result := result + kept;
    }
    if result == [] {
      result := [[]];
    }
  }

  method FindLastKeywordIdx(s: Tokens) returns (r: int)
    ensures r == LastKeyword(s)
  {
    var i := |s| - 1;
    while i >= 0
      invariant -1 <= i < |s|
      invariant LastKeyword(s) == LastKeyword(s[..i + 1])
    {
      assert s[..i + 1][..i] == s[..i];
      if s[i].Word? && s[i].keyword {
        return i;
      }
      i := i - 1;
    }
    return -1;
  }

  method ApplyAutoLimit(query: Tokens, shouldApply: bool) returns (r: Result<Tokens, string>)
    ensures r == if shouldApply then AutoLimit(query) else Success(query)
  {
    if !shouldApply {
      return Success(query);
    }
    var queries := SplitSqlStatements(query);
    var last := queries[|queries| - 1];
    if last == [] {
      return Failure("IndexError");
    }
    var k := FindLastKeywordIdx(last);
    if k != -1 && Upper(TextOf(last[0])) == "SELECT" && Upper(last[k].text) !in {"LIMIT", "OFFSET"} {
      queries := queries[|queries| - 1 := AddLimit(last)];
    }
    return Success(Combine(queries));
  }
}
