/**
 What the automatic limit prints, and which tokens of a statement the splitter keeps.
 */
module PrintedStatements {
  import opened Text
  import opened SqlStatements
  import opened AutoLimitLaws

  // ----- what is printed -----

  function Printed(ts: Tokens): string {
    FlatMap(TextOf, ts)
  }

  function PrintedAll(ss: seq<Tokens>): (r: seq<string>)
    ensures |r| == |ss| && forall i :: 0 <= i < |r| ==> r[i] == Printed(ss[i])
  {
    if ss == [] then [] else [Printed(ss[0])] + PrintedAll(ss[1..])
  }

  /** The text is the word, letter by letter in upper or lower case. */
  predicate Spells(text: string, word: string) {
    |text| == |word|
    && forall i :: 0 <= i < |word| ==> text[i] == word[i] || text[i] as int == word[i] as int + 32
  }

  predicate IsTopKeyword(t: Token) {
    t.Word? && t.keyword
  }

  /** It begins with SELECT, and its last top-level keyword is neither LIMIT nor OFFSET. */
  ghost predicate IsOpenSelect(s: Tokens) {
    s != [] && Spells(TextOf(s[0]), "SELECT")
    && exists k :: 0 <= k < |s| && IsTopKeyword(s[k]) && (forall i :: k < i < |s| ==> !IsTopKeyword(s[i]))
                   && !Spells(s[k].text, "LIMIT") && !Spells(s[k].text, "OFFSET")
  }

  lemma {:induction false} UpperSpells(text: string, word: string)
    requires forall i :: 0 <= i < |word| ==> 'A' <= word[i] <= 'Z'
    ensures Upper(text) == word <==> Spells(text, word)
  {
    if text != "" && word != "" {
      UpperSpells(text[1..], word[1..]);
      assert Upper(text)[1..] == Upper(text[1..]);
      assert Upper(text) == word <==> Upper(text)[0] == word[0] && Upper(text[1..]) == word[1..];
      SpellsCons(text, word);
    }
  }

  lemma SpellsCons(text: string, word: string)
    requires text != "" && word != ""
    ensures Spells(text, word) <==>
            (text[0] == word[0] || text[0] as int == word[0] as int + 32) && Spells(text[1..], word[1..])
  {
    if Spells(text[1..], word[1..]) {
      assert forall i :: 0 < i < |text| ==> text[i] == text[1..][i - 1];
      assert forall i :: 0 < i < |word| ==> word[i] == word[1..][i - 1];
    }
  }

  lemma OpenSelectIs(s: Tokens)
    requires s != []
    ensures IsSelectNoLimit(s) <==> IsOpenSelect(s)
  {
    UpperSpells(TextOf(s[0]), "SELECT");
    var k := LastKeyword(s);
    if k >= 0 {
      UpperSpells(s[k].text, "LIMIT");
      UpperSpells(s[k].text, "OFFSET");
      assert IsTopKeyword(s[k]);
    }
  }

  lemma PrintedConcat(a: Tokens, b: Tokens)
    ensures Printed(a + b) == Printed(a) + Printed(b)
  {
    FlatMapConcat(TextOf, a, b);
  }

  lemma PrintedLimit()
    ensures Printed(LIMIT_TOKENS) == " LIMIT 1000"
  {
    assert LIMIT_TOKENS == [Blank(" ")] + ([Word("LIMIT", true)] + ([Blank(" ")] + [Word("1000", false)]));
    PrintedConcat([Blank(" ")], [Word("LIMIT", true)] + ([Blank(" ")] + [Word("1000", false)]));
    PrintedConcat([Word("LIMIT", true)], [Blank(" ")] + [Word("1000", false)]);
    PrintedConcat([Blank(" ")], [Word("1000", false)]);
    FlatMapOne(TextOf, Blank(" "));
    FlatMapOne(TextOf, Word("LIMIT", true));
    FlatMapOne(TextOf, Word("1000", false));
  }

  lemma PrintedSeparator()
    ensures Printed(SEPARATOR) == ";\n"
  {
    assert SEPARATOR == [Semi] + [Blank("\n")];
    PrintedConcat([Semi], [Blank("\n")]);
    FlatMapOne(TextOf, Semi);
    FlatMapOne(TextOf, Blank("\n"));
  }

  /** Recombining writes the statements with a semicolon and a line break between them. */
  lemma {:induction false} PrintedCombine(ss: seq<Tokens>)
    ensures Printed(Combine(ss)) == JoinWith(";\n", PrintedAll(ss))
  {
    if |ss| > 1 {
      PrintedCombine(ss[1..]);
      PrintedConcat(ss[0] + SEPARATOR, Combine(ss[1..]));
      PrintedConcat(ss[0], SEPARATOR);
      PrintedSeparator();
      assert PrintedAll(ss)[1..] == PrintedAll(ss[1..]);
    }
  }

  lemma PrintedAddLimit(s: Tokens) returns (body: Tokens, mark: Tokens)
    requires s != [] && !s[|s| - 1].Semi?
    ensures s == body + mark && |mark| <= 1 && (mark != [] <==> s[|s| - 1].Punct?)
    ensures Printed(AddLimit(s)) == Printed(body) + " LIMIT 1000" + Printed(mark)
    ensures Printed(s) == Printed(body) + "" + Printed(mark)
  {
    var n := if s[|s| - 1].Punct? then |s| - 1 else |s|;
    body, mark := s[..n], s[n..];
    SplitAt(s, n);
    PrintedLimit();
    PrintedConcat(body, LIMIT_TOKENS);
    PrintedConcat(body + LIMIT_TOKENS, mark);
    PrintedConcat(body, mark);
    assert AddLimit(s) == body + LIMIT_TOKENS + mark;
    assert Printed(body) + "" == Printed(body);
  }

  /**
   The statements joined with a semicolon and a line break, the last one, which is `body`
   and a final punctuation mark if it has one, with ` LIMIT 1000` between these exactly
   when it is an open select.
   */
  ghost predicate PrintsLimited(stmts: seq<Tokens>, text: string, body: Tokens, mark: Tokens) {
    stmts != []
    && var init, last := stmts[..|stmts| - 1], stmts[|stmts| - 1];
    last != [] && last == body + mark && |mark| <= 1 && (mark != [] <==> last[|last| - 1].Punct?)
    && var limit := if IsOpenSelect(last) then " LIMIT 1000" else "";
    text == JoinWith(";\n", PrintedAll(init) + [Printed(body) + limit + Printed(mark)])
  }

  /**
   The printed result in full. Letters count in either case: ` LIMIT 1000` is added when
   the last statement begins with SELECT and has a top-level keyword, the last of which is
   neither LIMIT nor OFFSET.
   */
  lemma AutoLimitPrints(query: Tokens) returns (body: Tokens, mark: Tokens)
    requires AutoLimit(query).Success?
    ensures PrintsLimited(Statements(query), Printed(AutoLimit(query).value), body, mark)
  {
    StatementsOf(query);
    CleanSplitIs(query);
    assert Solid(LastStatement(query));
    AutoLimitFrom(query, Statements(query));
    body, mark := LimitedPrints(Statements(query));
  }

  lemma LimitedPrints(stmts: seq<Tokens>) returns (body: Tokens, mark: Tokens)
    requires stmts != [] && Solid(stmts[|stmts| - 1])
    ensures stmts[|stmts| - 1] != [] && PrintsLimited(stmts, Printed(Combine(LimitLast(stmts))), body, mark)
  {
    var init, last := stmts[..|stmts| - 1], stmts[|stmts| - 1];
    body, mark := PrintedAddLimit(last);
    OpenSelectIs(last);
    assert stmts == init + [last];
    LimitLastEnd(init, last);
    PrintedCombine(LimitLast(stmts));
    PrintedLast(init, if IsSelectNoLimit(last) then AddLimit(last) else last);
  }

  lemma PrintedLast(init: seq<Tokens>, last: Tokens)
    ensures PrintedAll(init + [last]) == PrintedAll(init) + [Printed(last)]
  {
  }

  // ----- reading the printed text again -----

  /** The tokens up to the next line break print as their line, and the break if there is one. */
  lemma {:induction false} PrintedLine(ts: Tokens)
    ensures var n := LineLength(ts);
            Printed(ts[..n]) == LineText(ts) + if n > 0 && EndsLine(ts[n - 1]) then "\n" else ""
  {
    if ts != [] {
      var n := LineLength(ts);
      assert ts[..n] == [ts[0]] + ts[1..][..n - 1];
      PrintedConcat([ts[0]], ts[1..][..n - 1]);
      FlatMapOne(TextOf, ts[0]);
      if !EndsLine(ts[0]) {
        PrintedLine(ts[1..]);
        assert n > 1 ==> ts[n - 1] == ts[1..][n - 2];
      }
    }
  }

  /** Lexing the printed tokens again groups them differently but leaves the text alone. */
  lemma {:induction false} RelexKeepsText(ts: Tokens)
    ensures Printed(Relex(ts)) == Printed(ts)
    decreases |ts|
  {
    if ts == [] {
    } else if ts[0].Line? && !ts[0].closed && |ts| > 1 {
      var n := LineLength(ts[1..]);
      var line := Line(ts[0].body + LineText(ts[1..]), n > 0 && EndsLine(ts[n]));
      RelexKeepsText(ts[1 + n..]);
      PrintedConcat([line], Relex(ts[1 + n..]));
      FlatMapOne(TextOf, line);
      PrintedSwallow(ts, n);
    } else {
      RelexKeepsText(ts[1..]);
      PrintedConcat([ts[0]], Relex(ts[1..]));
      PrintedConcat([ts[0]], ts[1..]);
      assert ts == [ts[0]] + ts[1..];
    }
  }

  lemma PrintedSwallow(ts: Tokens, n: nat)
    requires |ts| > 1 && ts[0].Line? && !ts[0].closed && n == LineLength(ts[1..])
    ensures Printed(ts) ==
            ts[0].body + LineText(ts[1..]) + (if n > 0 && EndsLine(ts[n]) then "\n" else "") + Printed(ts[1 + n..])
  {
    var line, rest := ts[1..][..n], ts[1 + n..];
    assert ts == [ts[0]] + (line + rest);
    PrintedConcat([ts[0]], line + rest);
    PrintedConcat(line, rest);
    FlatMapOne(TextOf, ts[0]);
    PrintedLine(ts[1..]);
    assert n > 0 ==> ts[1..][n - 1] == ts[n];
  }

  // ----- where statements are cut -----

  /** On the line of a semicolon: a line comment, or a blank other than the line break. */
  predicate IsOnLine(t: Token) {
    t.Line? || (t.Blank? && t.text != "\n")
  }

  /**
   A piece ends with the line of its semicolon: behind the semicolon it holds only what is
   on its line, and the next piece begins with the first token that is not.
   */
  lemma PiecesEndWithLine(query: Tokens, i: nat)
    requires i < |Split(query)|
    ensures var piece := Split(query)[i];
            (forall j, k :: 0 <= j < k < |piece| && piece[j].Semi? ==> IsOnLine(piece[k]))
            && (i < |Split(query)| - 1 ==>
                  HasSemi(piece) && Split(query)[i + 1] != [] && !IsOnLine(Split(query)[i + 1][0]))
  {
    var rest := SplitCutsAtSemicolons(query);
    assert CutAt(Split(query), rest, i);
  }

  // ----- which tokens a statement keeps -----

  /**
   A cleaned statement is a range of the raw one, but for the line break that closes a
   final line comment. In front of it are blanks only; behind it are blanks, the
   semicolon, and comments exactly when no semicolon follows them.
   */
  lemma KeptRange(r: Tokens) returns (m: nat, n: nat)
    requires RawShape(r) && Kept(r) != []
    ensures m < n <= |r| && |Kept(r)| == 1 && |Kept(r)[0]| == n - m
    ensures AllBlank(r[..m]) && !r[m].Blank? && !r[n - 1].Blank? && !r[n - 1].Semi?
    ensures forall i :: m <= i < n - 1 ==> Kept(r)[0][i - m] == r[i]
    ensures Kept(r)[0][n - 1 - m] == if r[n - 1].Line? then Line(r[n - 1].body, false) else r[n - 1]
    ensures forall i :: n <= i < |r| ==> r[i].Blank? || r[i].Semi? || (IsComment(r[i]) && !HasSemi(r[i..]))
    ensures IsComment(r[n - 1]) ==> HasSemi(r[n..])
  {
    TrimmedTokens(r);
    var t := Trimmed(r);
    m, n := StripBounds(t);
    KeptTail(r, n);
    assert forall i :: 0 <= i < m ==> r[..m][i] == r[i] && t[i].Blank?;
    StillVisible(r, t, m, n);
  }

  lemma StripBounds(t: Tokens) returns (m: nat, n: nat)
    requires !IsEmpty(t)
    ensures m < n <= |t| && n == VisibleLength(t) && |Strip(t)| == n - m && !t[m].Blank? && !t[n - 1].Blank?
    ensures forall i :: 0 <= i < m ==> t[i].Blank?
    ensures forall i :: m <= i < n - 1 ==> Strip(t)[i - m] == t[i]
    ensures Strip(t)[n - 1 - m] == if t[n - 1].Line? then Line(t[n - 1].body, false) else t[n - 1]
  {
    m, n := IndentLength(t), VisibleLength(t);
    BoundsApart(t);
    StripIs(t, m, n);
    OpenRange(t, m, n);
  }

  lemma BoundsApart(t: Tokens)
    requires !IsEmpty(t)
    ensures IndentLength(t) < VisibleLength(t)
  {
    var k :| 0 <= k < |t| && !t[k].Blank? && !IsComment(t[k]);
    assert IndentLength(t) <= k < VisibleLength(t);
  }

  lemma StripIs(t: Tokens, m: nat, n: nat)
    requires m == IndentLength(t) < n == VisibleLength(t)
    ensures Strip(t) == OpenLast(t[m..n])
  {
  }

  lemma OpenRange(t: Tokens, m: nat, n: nat)
    requires m < n <= |t|
    ensures |OpenLast(t[m..n])| == n - m
    ensures forall i :: m <= i < n - 1 ==> OpenLast(t[m..n])[i - m] == t[i]
    ensures OpenLast(t[m..n])[n - 1 - m] == if t[n - 1].Line? then Line(t[n - 1].body, false) else t[n - 1]
  {
    assert t[m..n][n - m - 1] == t[n - 1];
  }

  lemma StillVisible(r: Tokens, t: Tokens, m: nat, n: nat)
    requires RawShape(r) && t == Trimmed(r) && |t| == |r| && m < n <= |r|
    requires forall i :: 0 <= i < |r| ==> t[i] == r[i] || (t[i].Blank? && !IsSignificant(r[i]))
    requires !t[n - 1].Blank? && forall i :: 0 <= i < m ==> t[i].Blank?
    ensures forall i :: 0 <= i < n ==> t[i] == r[i]
  {
    var c := ContentLength(r);
    assert forall i :: c <= i < |r| ==> t[i].Blank?;
    assert n - 1 < c && (r[c - 1].Semi? ==> n < c);
  }

  lemma KeptTail(r: Tokens, n: nat)
    requires RawShape(r) && |Trimmed(r)| == |r| && n == VisibleLength(Trimmed(r)) > 0
    ensures forall i :: n <= i < |r| ==> r[i].Blank? || r[i].Semi? || (IsComment(r[i]) && !HasSemi(r[i..]))
    ensures IsComment(r[n - 1]) ==> HasSemi(r[n..])
  {
    var c := ContentLength(r);
    TrimmedFrom(r, c);
    forall i | n <= i < |r|
      ensures r[i].Blank? || r[i].Semi? || (IsComment(r[i]) && !HasSemi(r[i..]))
    {
      TailToken(r, n, c, i);
    }
    if IsComment(r[n - 1]) {
      assert n < c && r[n..][c - 1 - n].Semi?;
    }
  }

  lemma TailToken(r: Tokens, n: nat, c: nat, i: nat)
    requires RawShape(r) && c == ContentLength(r) && |Trimmed(r)| == |r| && n == VisibleLength(Trimmed(r)) <= i < |r|
    requires forall i :: 0 <= i < c && !(i == c - 1 && r[i].Semi?) ==> Trimmed(r)[i] == r[i]
    ensures r[i].Blank? || r[i].Semi? || (IsComment(r[i]) && !HasSemi(r[i..]))
  {
    if i >= c {
      assert forall j :: 0 <= j < |r[i..]| ==> r[i..][j] == r[i + j] && !r[i + j].Semi?;
    }
  }

  lemma TrimmedFrom(r: Tokens, c: nat)
    requires c == ContentLength(r) && |Trimmed(r)| == |r|
    ensures forall i :: c <= i < |r| ==> Trimmed(r)[i].Blank?
    ensures forall i :: 0 <= i < c && !(i == c - 1 && r[i].Semi?) ==> Trimmed(r)[i] == r[i]
    ensures c > 0 && r[c - 1].Semi? ==> Trimmed(r)[c - 1].Blank?
  {
    var w := WithoutTrailingComments(r);
    CommentsBlanked(r, w, c);
    VisibleOf(w, c);
    SemiBlanked(w, c);
  }

  lemma CommentsBlanked(r: Tokens, w: Tokens, c: nat)
    requires c == ContentLength(r) && w == WithoutTrailingComments(r)
    ensures forall i :: 0 <= i < c ==> w[i] == r[i]
    ensures forall i :: c <= i < |w| ==> w[i] == SPACE
  {
  }

  lemma SemiBlanked(w: Tokens, c: nat)
    requires c == VisibleLength(w)
    ensures WithoutTrailingSemi(w) == if c > 0 && w[c - 1].Semi? then w[c - 1 := SPACE] else w
  {
  }

  lemma VisibleOf(w: Tokens, c: nat)
    requires c <= |w| && (c > 0 ==> !w[c - 1].Blank?) && forall i :: c <= i < |w| ==> w[i].Blank?
    ensures VisibleLength(w) == c
  {
  }
}
