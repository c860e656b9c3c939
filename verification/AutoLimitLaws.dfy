/**
 What splitting a query, limiting its last statement and recombining it preserves,
 and when doing it a second time changes nothing.
 */
module AutoLimitLaws {
  import opened Text
  import opened SqlStatements

  // ----- the tokens that carry meaning -----

  predicate IsSignificant(t: Token) {
    !t.Blank? && !IsComment(t) && !t.Semi?
  }

  function Significant(ts: Tokens): Tokens {
    Filter(IsSignificant, ts)
  }

  // ----- shapes -----

  /** A statement as the splitter yields it: its semicolon closes it. */
  predicate RawShape(r: Tokens) {
    forall i, j :: 0 <= i < j < |r| && r[i].Semi? ==> FollowsSemi(r[j])
  }

  predicate HasContent(s: Tokens) {
    exists i :: 0 <= i < |s| && !s[i].Blank? && !IsComment(s[i])
  }

  /** A statement as `split_sql_statements` returns it. */
  predicate Solid(s: Tokens) {
    HasContent(s) && !s[0].Blank? && !s[|s| - 1].Blank?
    && forall i :: 0 <= i < |s| ==> !s[i].Semi?
  }

  predicate EndsInLine(s: Tokens) {
    s != [] && s[|s| - 1].Line?
  }

  predicate EndsInBlock(s: Tokens) {
    s != [] && s[|s| - 1].Block?
  }

  predicate AllSolid(ss: seq<Tokens>) {
    forall i :: 0 <= i < |ss| ==> Solid(ss[i])
  }

  lemma {:induction false} FirstShape(ts: Tokens)
    ensures RawShape(ts[..FirstLength(ts)])
    ensures FirstLength(ts) < |ts| ==> !FollowsSemi(ts[FirstLength(ts)])
  {
    var n := FirstLength(ts);
    if ts != [] && !ts[0].Semi? {
      FirstShape(ts[1..]);
      assert forall i :: 1 <= i < n ==> ts[..n][i] == ts[1..][..n - 1][i - 1];
    }
  }

  function Flatten(raw: seq<Tokens>): Tokens {
    if raw == [] then [] else raw[0] + Flatten(raw[1..])
  }

  predicate HasSemi(r: Tokens) {
    exists i :: 0 <= i < |r| && r[i].Semi?
  }

  lemma {:induction false} FirstEndsAtSemi(ts: Tokens)
    ensures FirstLength(ts) < |ts| ==> HasSemi(ts[..FirstLength(ts)])
  {
    var n := FirstLength(ts);
    if ts != [] && n < |ts| {
      if ts[0].Semi? {
        assert ts[..n][0].Semi?;
      } else {
        FirstEndsAtSemi(ts[1..]);
        var i :| 0 <= i < n - 1 && ts[1..][..n - 1][i].Semi?;
        assert ts[..n][i + 1].Semi?;
      }
    }
  }

  predicate CutAt(raw: seq<Tokens>, rest: Tokens, i: nat)
    requires i < |raw|
  {
    var next := if i < |raw| - 1 then raw[i + 1] else rest;
    raw[i] != [] && RawShape(raw[i])
    && (i < |raw| - 1 ==> next != [])
    && (next != [] ==> HasSemi(raw[i]) && !FollowsSemi(next[0]))
  }

  /** Cut after every semicolon and what goes with it, and nowhere else. */
  ghost predicate CutAtSemicolons(raw: seq<Tokens>, rest: Tokens) {
    forall i :: 0 <= i < |raw| ==> CutAt(raw, rest, i)
  }

  /** Only blanks after the last cut are dropped. */
  lemma {:induction false} SplitCutsAtSemicolons(ts: Tokens) returns (rest: Tokens)
    ensures Flatten(Split(ts)) + rest == ts && AllBlank(rest)
    ensures CutAtSemicolons(Split(ts), rest)
    decreases |ts|
  {
    if AllBlank(ts) {
      rest := ts;
    } else {
      var n := FirstLength(ts);
      FirstShape(ts);
      FirstEndsAtSemi(ts);
      rest := SplitCutsAtSemicolons(ts[n..]);
      CutCons(ts[..n], Split(ts[n..]), rest, ts[n..]);
      SplitAt(ts, n);
    }
  }

  lemma CutCons(head: Tokens, raw: seq<Tokens>, rest: Tokens, tail: Tokens)
    requires head != [] && RawShape(head) && CutAtSemicolons(raw, rest)
    requires Flatten(raw) + rest == tail
    requires tail != [] ==> HasSemi(head) && !FollowsSemi(tail[0])
    ensures Flatten([head] + raw) + rest == head + tail
    ensures CutAtSemicolons([head] + raw, rest)
  {
    var all := [head] + raw;
    assert all[1..] == raw;
    Associative(head, Flatten(raw), rest);
    if raw != [] {
      assert CutAt(raw, rest, 0) && Flatten(raw) == raw[0] + Flatten(raw[1..]);
      assert tail[0] == raw[0][0];
    }
    forall i | 0 <= i < |all|
      ensures CutAt(all, rest, i)
    {
      assert i > 0 ==> CutAt(raw, rest, i - 1);
    }
  }

  /** What trimming leaves is the statement up to its last real token. */
  lemma TrimmedTokens(r: Tokens)
    requires RawShape(r)
    ensures |Trimmed(r)| == |r|
    ensures forall i :: 0 <= i < |r| ==> !Trimmed(r)[i].Semi?
    ensures forall i :: 0 <= i < |r| ==> Trimmed(r)[i] == r[i] || (Trimmed(r)[i].Blank? && !IsSignificant(r[i]))
    ensures forall i, j :: 0 <= i <= j < |r| && IsSignificant(r[j]) ==> Trimmed(r)[i] == r[i]
  {
    var c := WithoutTrailingComments(r);
    var n := ContentLength(r);
    assert VisibleLength(c) == n by {
      assert n > 0 ==> c[n - 1] == r[n - 1];
      assert forall i :: n <= i < |c| ==> c[i].Blank?;
    }
    forall i | 0 <= i < |r| && r[i].Semi?
      ensures i == n - 1
    {
      assert i < n;
    }
  }

  /** Stripping takes blanks off both ends, and at most opens the final line comment. */
  lemma StripRange(s: Tokens, k: nat) returns (m: nat, n: nat)
    requires k < |s| && !s[k].Blank?
    ensures m <= k < n <= |s| && |Strip(s)| == n - m
    ensures !s[m].Blank? && !s[n - 1].Blank?
    ensures forall i :: 0 <= i < m || n <= i < |s| ==> s[i].Blank?
    ensures forall i :: 0 <= i < n - m ==> Strip(s)[i] == s[m + i] || (Strip(s)[i].Line? && s[m + i].Line?)
  {
    m, n := IndentLength(s), VisibleLength(s);
    assert m <= k < n;
    var v := s[m..n];
    assert Strip(s) == OpenLast(v);
    assert forall i :: 0 <= i < n - m ==> v[i] == s[m + i];
  }

  lemma SignificantPadded(front: Tokens, s: Tokens, back: Tokens)
    requires Significant(front) == [] && Significant(back) == []
    ensures Significant(front + s + back) == Significant(s)
  {
    FilterConcat(IsSignificant, front + s, back);
    FilterConcat(IsSignificant, front, s);
  }

  lemma SignificantRange(s: Tokens, m: nat, n: nat)
    requires m <= n <= |s|
    requires forall i :: 0 <= i < m || n <= i < |s| ==> s[i].Blank?
    ensures Significant(s) == Significant(s[m..n])
  {
    var front, back := s[..m], s[n..];
    FilterNone(IsSignificant, front);
    FilterNone(IsSignificant, back);
    assert s == front + s[m..n] + back;
    SignificantPadded(front, s[m..n], back);
  }

  lemma StripTokens(s: Tokens)
    requires HasContent(s)
    requires forall i :: 0 <= i < |s| ==> !s[i].Semi?
    ensures Solid(Strip(s)) && Significant(Strip(s)) == Significant(s)
  {
    var k :| 0 <= k < |s| && !s[k].Blank? && !IsComment(s[k]);
    var m, n := StripRange(s, k);
    StrippedIsSolid(s, Strip(s), m, n, k);
  }

  lemma StrippedIsSolid(s: Tokens, t: Tokens, m: nat, n: nat, k: nat)
    requires m <= k < n <= |s| && |t| == n - m && !s[k].Blank? && !IsComment(s[k])
    requires !s[m].Blank? && !s[n - 1].Blank?
    requires forall i :: 0 <= i < |s| ==> !s[i].Semi?
    requires forall i :: 0 <= i < m || n <= i < |s| ==> s[i].Blank?
    requires forall i :: 0 <= i < n - m ==> t[i] == s[m + i] || (t[i].Line? && s[m + i].Line?)
    ensures Solid(t) && Significant(t) == Significant(s)
  {
    SignificantRange(s, m, n);
    FilterSame(IsSignificant, t, s[m..n]);
    assert t[k - m] == s[k];
    assert t[0] == s[m + 0] || t[0].Line?;
    assert t[n - m - 1] == s[n - 1] || t[n - m - 1].Line?;
  }

  lemma KeptTokens(r: Tokens)
    requires RawShape(r)
    ensures Kept(r) == [] <==> Significant(r) == []
    ensures Kept(r) != [] ==> Solid(Kept(r)[0]) && Significant(Kept(r)[0]) == Significant(r)
  {
    TrimmedTokens(r);
    var t := Trimmed(r);
    FilterSame(IsSignificant, t, r);
    FilterNone(IsSignificant, t);
    if !IsEmpty(t) {
      var k :| 0 <= k < |t| && !t[k].Blank? && !IsComment(t[k]);
      StripTokens(t);
      assert IsSignificant(t[k]) && t[k] == r[k];
    }
  }

  // ----- conservation -----

  function SignificantAll(ss: seq<Tokens>): Tokens {
    FlatMap(Significant, ss)
  }

  lemma CleanCons(r: Tokens, raw: seq<Tokens>)
    ensures CleanAll([r] + raw) == Kept(r) + CleanAll(raw)
  {
    assert ([r] + raw)[1..] == raw;
  }

  /** Splitting and cleaning in one recursion. */
  function CleanSplit(ts: Tokens): seq<Tokens>
    decreases |ts|
  {
    if AllBlank(ts) then [] else Kept(ts[..FirstLength(ts)]) + CleanSplit(ts[FirstLength(ts)..])
  }

  lemma {:induction false} CleanSplitIs(ts: Tokens)
    ensures CleanAll(Split(ts)) == CleanSplit(ts)
    decreases |ts|
  {
    if !AllBlank(ts) {
      CleanSplitIs(ts[FirstLength(ts)..]);
      CleanCons(ts[..FirstLength(ts)], Split(ts[FirstLength(ts)..]));
    }
  }

  /** Every returned statement is solid, and no meaningful token is lost or moved. */
  lemma {:induction false} StatementsOf(ts: Tokens)
    ensures AllSolid(CleanSplit(ts))
    ensures SignificantAll(CleanSplit(ts)) == Significant(ts)
    decreases |ts|
  {
    if AllBlank(ts) {
      FilterNone(IsSignificant, ts);
    } else {
      var n := FirstLength(ts);
      FirstShape(ts);
      StatementsOf(ts[n..]);
      StatementsStep(ts[..n], ts[n..], CleanSplit(ts[n..]));
      SplitAt(ts, n);
    }
  }

  lemma StatementsStep(head: Tokens, tail: Tokens, rest: seq<Tokens>)
    requires RawShape(head)
    requires AllSolid(rest) && SignificantAll(rest) == Significant(tail)
    ensures AllSolid(Kept(head) + rest)
    ensures SignificantAll(Kept(head) + rest) == Significant(head + tail)
  {
    KeptTokens(head);
    KeptSignificant(head, Kept(head));
    FilterConcat(IsSignificant, head, tail);
    FlatMapConcat(Significant, Kept(head), rest);
  }

  lemma KeptSignificant(head: Tokens, kept: seq<Tokens>)
    requires |kept| <= 1 && (kept == [] ==> Significant(head) == [])
             && (kept != [] ==> Significant(kept[0]) == Significant(head))
    ensures SignificantAll(kept) == Significant(head)
  {
    if kept != [] {
      FlatMapOne(Significant, kept[0]);
      assert kept == [kept[0]];
    }
  }

  lemma {:induction false} SignificantCombine(ss: seq<Tokens>)
    ensures Significant(Combine(ss)) == SignificantAll(ss)
  {
    if |ss| == 1 {
      FlatMapOne(Significant, ss[0]);
      assert ss == [ss[0]];
    } else if |ss| > 1 {
      SignificantCombine(ss[1..]);
      SignificantSeparated(ss[0], Combine(ss[1..]));
    }
  }

  lemma SignificantSeparated(s: Tokens, rest: Tokens)
    ensures Significant(s + SEPARATOR + rest) == Significant(s) + Significant(rest)
  {
    FilterConcat(IsSignificant, s + SEPARATOR, rest);
    FilterConcat(IsSignificant, s, SEPARATOR);
    FilterNone(IsSignificant, SEPARATOR);
  }

  /** The limit is refused exactly when the query holds nothing but blanks, comments and semicolons. */
  lemma AutoLimitFails(query: Tokens)
    ensures AutoLimit(query).Failure? <==> Significant(query) == []
  {
    StatementsOf(query);
    CleanSplitIs(query);
    var ss := CleanAll(Split(query));
    if ss != [] {
      assert Solid(ss[|ss| - 1]);
      var k :| 0 <= k < |ss[0]| && !ss[0][k].Blank? && !IsComment(ss[0][k]);
      assert Solid(ss[0]) && IsSignificant(ss[0][k]);
      FilterNone(IsSignificant, ss[0]);
    }
  }

  lemma SignificantLast(init: seq<Tokens>, last: Tokens)
    ensures SignificantAll(init + [last]) == SignificantAll(init) + Significant(last)
  {
    FlatMapConcat(Significant, init, [last]);
    FlatMapOne(Significant, last);
  }

  const LIMIT_WORDS: Tokens := [Word("LIMIT", true), Word("1000", false)]

  /** The last statement of a query, in the form the limit is decided on. */
  function LastStatement(query: Tokens): Tokens {
    Statements(query)[|Statements(query)| - 1]
  }

  /**
   Splitting and recombining keep the meaningful tokens of a query in order. The only
   addition is LIMIT 1000 at the very end (before a final punctuation mark), and it is
   made exactly when the last statement is a select without a limit.
   */
  lemma AutoLimitConserves(query: Tokens) returns (front: Tokens)
    requires AutoLimit(query).Success?
    ensures LastStatement(query) != []
    ensures Significant(query) == front + FinalPunctuation(LastStatement(query))
    ensures Significant(AutoLimit(query).value) ==
            front + (if IsSelectNoLimit(LastStatement(query)) then LIMIT_WORDS else [])
            + FinalPunctuation(LastStatement(query))
  {
    StatementsOf(query);
    CleanSplitIs(query);
    front := CombinedConserves(CleanSplit(query));
  }

  lemma CombinedConserves(ss: seq<Tokens>) returns (front: Tokens)
    requires ss != [] && AllSolid(ss)
    ensures SignificantAll(ss) == front + FinalPunctuation(ss[|ss| - 1])
    ensures ss[|ss| - 1] != []
    ensures Significant(Combine(LimitLast(ss))) ==
            front + (if IsSelectNoLimit(ss[|ss| - 1]) then LIMIT_WORDS else []) + FinalPunctuation(ss[|ss| - 1])
  {
    assert Solid(ss[|ss| - 1]);
    front := LimitLastConserves(ss);
    SignificantCombine(LimitLast(ss));
  }

  function FinalPunctuation(s: Tokens): Tokens {
    if EndsInPunctuation(s) then s[|s| - 1..] else []
  }

  lemma LimitLastConserves(ss: seq<Tokens>) returns (front: Tokens)
    requires ss != [] && ss[|ss| - 1] != [] && !ss[|ss| - 1][|ss[|ss| - 1]| - 1].Semi?
    ensures var last := ss[|ss| - 1];
            SignificantAll(ss) == front + FinalPunctuation(last) &&
            SignificantAll(LimitLast(ss)) ==
            front + (if IsSelectNoLimit(last) then LIMIT_WORDS else []) + FinalPunctuation(last)
  {
    var last, init := ss[|ss| - 1], ss[..|ss| - 1];
    var final := if IsSelectNoLimit(last) then AddLimit(last) else last;
    assert ss == init + [last] && LimitLast(ss) == init + [final];
    SignificantLast(init, last);
    SignificantLast(init, final);
    var lastFront := SignificantAddLimit(last);
    front := SignificantAll(init) + lastFront;
    Associative(SignificantAll(init), lastFront, FinalPunctuation(last));
    Associative(SignificantAll(init), lastFront + LIMIT_WORDS, FinalPunctuation(last));
    Associative(SignificantAll(init), lastFront, LIMIT_WORDS);
  }

  lemma SignificantAddLimit(s: Tokens) returns (front: Tokens)
    requires s != [] && !s[|s| - 1].Semi?
    ensures Significant(s) == front + FinalPunctuation(s)
    ensures Significant(AddLimit(s)) == front + LIMIT_WORDS + FinalPunctuation(s)
  {
    LimitSignificant();
    if EndsInPunctuation(s) {
      var body, mark := s[..|s| - 1], s[|s| - 1..];
      front := Significant(body);
      FilterConcat(IsSignificant, body, mark);
      FilterConcat(IsSignificant, body + LIMIT_TOKENS, mark);
      FilterConcat(IsSignificant, body, LIMIT_TOKENS);
      SignificantMark(mark);
      assert s == body + mark;
    } else {
      front := Significant(s);
      FilterConcat(IsSignificant, s, LIMIT_TOKENS);
    }
  }

  lemma SignificantMark(mark: Tokens)
    requires |mark| == 1 && mark[0].Punct?
    ensures Significant(mark) == mark
  {
    assert Significant(mark) == [mark[0]] + Significant(mark[1..]);
  }

  lemma LimitSignificant()
    ensures Significant(LIMIT_TOKENS) == LIMIT_WORDS
  {
    assert LIMIT_TOKENS[1..] == [Word("LIMIT", true), Blank(" "), Word("1000", false)];
    assert LIMIT_TOKENS[1..][1..] == [Blank(" "), Word("1000", false)];
    assert LIMIT_TOKENS[1..][1..][1..] == [Word("1000", false)];
  }

  // ----- splitting what was recombined -----

  /** The pieces of recombined statements; `lead` is the line break in front of all but the first. */
  function Separated(lead: Tokens, ss: seq<Tokens>): seq<Tokens>
    decreases |ss|
  {
    if ss == [] then []
    else if |ss| == 1 then [lead + ss[0]]
    else [lead + ss[0] + [Semi]] + Separated([BREAK], ss[1..])
  }

  lemma {:induction false} FirstOfSeparated(s: Tokens, rest: Tokens)
    requires forall i :: 0 <= i < |s| ==> !s[i].Semi?
    requires rest != [] && !FollowsSemi(rest[0])
    ensures FirstLength(s + [Semi] + rest) == |s| + 1
  {
    var ts := s + [Semi] + rest;
    if s == [] {
      assert ts[1..] == rest;
      assert FollowersLength(rest) == 0;
    } else {
      assert ts[1..] == s[1..] + [Semi] + rest;
      FirstOfSeparated(s[1..], rest);
    }
  }

  lemma {:induction false} FirstOfWhole(s: Tokens)
    requires forall i :: 0 <= i < |s| ==> !s[i].Semi?
    ensures FirstLength(s) == |s|
  {
    if s != [] {
      FirstOfWhole(s[1..]);
    }
  }

  lemma SplitOne(s: Tokens)
    requires !AllBlank(s) && forall i :: 0 <= i < |s| ==> !s[i].Semi?
    ensures Split(s) == [s]
  {
    FirstOfWhole(s);
    assert s[..|s|] == s && s[|s|..] == [];
  }

  lemma SplitNext(s: Tokens, rest: Tokens)
    requires !AllBlank(s) && forall i :: 0 <= i < |s| ==> !s[i].Semi?
    requires rest != [] && !FollowsSemi(rest[0])
    ensures Split(s + [Semi] + rest) == [s + [Semi]] + Split(rest)
  {
    var ts := s + [Semi] + rest;
    FirstOfSeparated(s, rest);
    assert ts[..|s| + 1] == s + [Semi] && ts[|s| + 1..] == rest;
    assert ts[|s|] == Semi;
  }

  lemma LedSolid(lead: Tokens, s: Tokens)
    requires AllBlank(lead) && Solid(s)
    ensures !AllBlank(lead + s) && forall i :: 0 <= i < |lead + s| ==> !(lead + s)[i].Semi?
  {
    assert (lead + s)[|lead|] == s[0];
  }

  lemma {:induction false} SplitCombine(lead: Tokens, ss: seq<Tokens>)
    requires AllSolid(ss) && ss != [] && AllBlank(lead)
    ensures Split(lead + Combine(ss)) == Separated(lead, ss)
    decreases |ss|
  {
    assert Solid(ss[0]);
    if |ss| == 1 {
      LedSolid(lead, ss[0]);
      SplitOne(lead + ss[0]);
    } else {
      assert AllSolid(ss[1..]) && AllBlank([BREAK]);
      SplitCombine([BREAK], ss[1..]);
      SplitLed(lead, ss[0], Combine(ss[1..]));
    }
  }

  lemma SplitLed(lead: Tokens, s: Tokens, rest: Tokens)
    requires AllBlank(lead) && Solid(s)
    ensures Split(lead + (s + SEPARATOR + rest)) == [lead + s + [Semi]] + Split([BREAK] + rest)
  {
    LedSolid(lead, s);
    SplitNext(lead + s, [BREAK] + rest);
    Regroup(lead, s, Semi, BREAK, rest);
  }

  lemma Regroup<A>(a: seq<A>, b: seq<A>, x: A, y: A, c: seq<A>)
    ensures a + (b + [x, y] + c) == a + b + [x] + ([y] + c)
  {
  }

  lemma TrimmedSeparated(s: Tokens)
    ensures Trimmed(s + [Semi]) == s + [SPACE]
  {
    var r := s + [Semi];
    assert r[|s|] == Semi;
    assert ContentLength(r) == |s| + 1 && VisibleLength(r) == |s| + 1;
    assert WithoutTrailingComments(r) == r;
  }

  /** A solid statement with its separator cleans back to itself. */
  lemma KeptSeparated(lead: Tokens, s: Tokens)
    requires Solid(s) && !EndsInLine(s) && AllBlank(lead)
    ensures Kept(lead + s + [Semi]) == [s]
  {
    TrimmedSeparated(lead + s);
    StripSolid(lead, s, [SPACE]);
    var k :| 0 <= k < |s| && !s[k].Blank? && !IsComment(s[k]);
    assert (lead + s + [SPACE])[|lead| + k] == s[k];
  }

  lemma StripSolid(lead: Tokens, s: Tokens, blanks: Tokens)
    requires Solid(s) && !EndsInLine(s) && AllBlank(lead) && AllBlank(blanks)
    ensures Strip(lead + s + blanks) == s
  {
    var t := lead + s + blanks;
    var n := |lead| + |s|;
    assert t[n - 1] == s[|s| - 1] && t[|lead|] == s[0];
    assert VisibleLength(t) == n && IndentLength(t) == |lead|;
    assert t[|lead|..n] == s;
  }

  /** At the end of the query a solid statement loses exactly the comments it ends in. */
  lemma KeptLast(lead: Tokens, s: Tokens)
    requires Solid(s) && AllBlank(lead)
    ensures ContentLength(s) > 0 && Kept(lead + s) == [s[..ContentLength(s)]]
  {
    ContentIsPositive(s);
    var n := ContentLength(s);
    PrefixIsSolid(s, n);
    var blanks := seq(|s| - n, _ => SPACE);
    TrimmedLast(lead, s, n, blanks);
    KeptFront(lead, lead + s, s[..n], blanks, n - 1);
  }

  lemma ContentIsPositive(s: Tokens)
    requires HasContent(s)
    ensures ContentLength(s) > 0
  {
    var k :| 0 <= k < |s| && !s[k].Blank? && !IsComment(s[k]);
    assert k < ContentLength(s);
  }

  lemma PrefixIsSolid(s: Tokens, n: nat)
    requires Solid(s) && 0 < n <= |s| && !s[n - 1].Blank? && !IsComment(s[n - 1])
    ensures Solid(s[..n]) && !EndsInLine(s[..n]) && s[..n][n - 1] == s[n - 1]
  {
    assert !s[..n][n - 1].Blank? && !IsComment(s[..n][n - 1]);
  }

  lemma KeptFront(lead: Tokens, r: Tokens, front: Tokens, blanks: Tokens, k: nat)
    requires Trimmed(r) == lead + front + blanks && k < |front| && !front[k].Blank? && !IsComment(front[k])
    requires Solid(front) && !EndsInLine(front) && AllBlank(lead) && AllBlank(blanks)
    ensures Kept(r) == [front]
  {
    StripSolid(lead, front, blanks);
    assert (lead + front + blanks)[|lead| + k] == front[k];
  }

  lemma TrimmedLast(lead: Tokens, s: Tokens, n: nat, blanks: Tokens)
    requires n == ContentLength(s) > 0 && forall i :: 0 <= i < |s| ==> !s[i].Semi?
    requires |blanks| == |s| - n && forall i :: 0 <= i < |blanks| ==> blanks[i] == SPACE
    ensures Trimmed(lead + s) == lead + s[..n] + blanks
  {
    ContentBehind(lead, s);
    WithoutBehind(lead, s, n, blanks);
    var front := lead + s[..n];
    assert front[|front| - 1] == s[n - 1];
    VisibleFront(front, blanks);
  }

  lemma ContentBehind(lead: Tokens, s: Tokens)
    requires ContentLength(s) > 0
    ensures ContentLength(lead + s) == |lead| + ContentLength(s)
  {
    var r, m := lead + s, |lead| + ContentLength(s);
    assert r[m - 1] == s[ContentLength(s) - 1];
    assert forall i :: m <= i < |r| ==> r[i] == s[i - |lead|];
  }

  lemma WithoutBehind(lead: Tokens, s: Tokens, n: nat, blanks: Tokens)
    requires n <= |s| && ContentLength(lead + s) == |lead| + n
    requires |blanks| == |s| - n && forall i :: 0 <= i < |blanks| ==> blanks[i] == SPACE
    ensures WithoutTrailingComments(lead + s) == lead + s[..n] + blanks
  {
    assert (lead + s)[..|lead| + n] == lead + s[..n];
  }

  lemma VisibleFront(front: Tokens, blanks: Tokens)
    requires front != [] && !front[|front| - 1].Blank? && !front[|front| - 1].Semi? && AllBlank(blanks)
    ensures WithoutTrailingSemi(front + blanks) == front + blanks
  {
    var c := front + blanks;
    assert c[|front| - 1] == front[|front| - 1];
    assert VisibleLength(c) == |front|;
  }

  lemma KeptWhole(s: Tokens)
    requires Solid(s)
    ensures ContentLength(s) > 0 && Kept(s) == [s[..ContentLength(s)]]
  {
    KeptLast([], s);
    assert [] + s == s;
  }

  /** Every statement but the last survives being written next to its separator. */
  predicate Durable(ss: seq<Tokens>) {
    forall i :: 0 <= i < |ss| - 1 ==> Solid(ss[i]) && !EndsInLine(ss[i])
  }

  lemma {:induction false} CleanSeparated(lead: Tokens, ss: seq<Tokens>)
    requires Durable(ss) && ss != [] && Solid(ss[|ss| - 1]) && AllBlank(lead)
    ensures CleanAll(Separated(lead, ss)) == ss[..|ss| - 1] + Kept(ss[|ss| - 1])
    decreases |ss|
  {
    if |ss| == 1 {
      KeptLast(lead, ss[0]);
      KeptWhole(ss[0]);
      FlatMapOne(Kept, lead + ss[0]);
    } else {
      var rest := ss[1..];
      CleanSeparated([BREAK], rest);
      SeparatedStep(lead, ss[0], rest);
      KeepFirst(ss, Kept(ss[|ss| - 1]));
    }
  }

  lemma SeparatedStep(lead: Tokens, s: Tokens, rest: seq<Tokens>)
    requires rest != [] && Solid(s) && !EndsInLine(s) && AllBlank(lead)
    ensures CleanAll(Separated(lead, [s] + rest)) == [s] + CleanAll(Separated([BREAK], rest))
  {
    assert ([s] + rest)[1..] == rest;
    KeptSeparated(lead, s);
    CleanCons(lead + s + [Semi], Separated([BREAK], rest));
  }

  lemma KeepFirst<A>(ss: seq<A>, last: seq<A>)
    requires |ss| > 1
    ensures [ss[0]] + (ss[1..][..|ss| - 2] + last) == ss[..|ss| - 1] + last
    ensures [ss[0]] + ss[1..] == ss
  {
  }

  lemma StatementsFrom(query: Tokens, raw: seq<Tokens>, cleaned: seq<Tokens>)
    requires Split(query) == raw && CleanAll(raw) == cleaned != []
    ensures Statements(query) == cleaned
  {
  }

  /** So a second split only touches comments at the very end of the query. */
  lemma StatementsOfCombined(ss: seq<Tokens>)
    requires AllSolid(ss) && ss != []
    requires Durable(ss)
    ensures Statements(Combine(ss)) == ss[..|ss| - 1] + Kept(ss[|ss| - 1])
  {
    var last := ss[|ss| - 1];
    assert Solid(last);
    KeptWhole(last);
    assert [] + Combine(ss) == Combine(ss);
    SplitCombine([], ss);
    CleanSeparated([], ss);
    StatementsFrom(Combine(ss), Separated([], ss), ss[..|ss| - 1] + Kept(last));
  }

  // ----- the limit decision, twice -----

  lemma LimitedIsLimited(s: Tokens)
    requires Solid(s) && IsSelectNoLimit(s)
    ensures Solid(AddLimit(s)) && !IsSelectNoLimit(AddLimit(s))
    ensures !IsComment(AddLimit(s)[|AddLimit(s)| - 1])
  {
    var t := AddLimit(s);
    LimitIsLast(s);
    UpperLimit();
    var k := LastKeyword(t);
    assert HasContent(t) by {
      assert !t[k].Blank? && !IsComment(t[k]);
    }
    LimitedTokens(s);
  }

  /** The limit becomes the last keyword. */
  lemma LimitIsLast(s: Tokens)
    requires IsSelectNoLimit(s)
    ensures LastKeyword(AddLimit(s)) >= 0 && AddLimit(s)[LastKeyword(AddLimit(s))] == Word("LIMIT", true)
  {
    var t := AddLimit(s);
    var n := if EndsInPunctuation(s) then |s| - 1 else |s|;
    assert t[n + 1] == Word("LIMIT", true);
    assert LastKeyword(t) == n + 1;
  }

  lemma LimitedTokens(s: Tokens)
    requires Solid(s) && LastKeyword(s) >= 0
    ensures var t := AddLimit(s);
            t != [] && !t[0].Blank? && !t[|t| - 1].Blank? && !IsComment(t[|t| - 1])
            && forall i :: 0 <= i < |t| ==> !t[i].Semi?
  {
    var t := AddLimit(s);
    assert t[0] == s[0];
    assert EndsInPunctuation(s) ==> t[|t| - 1] == s[|s| - 1];
  }

  lemma UpperLimit()
    ensures Upper("LIMIT") == "LIMIT"
  {
    assert Upper("T") == "T" + Upper("");
    assert Upper("IT") == "I" + Upper("T");
    assert Upper("MIT") == "M" + Upper("IT");
    assert Upper("IMIT") == "I" + Upper("MIT");
    assert "LIMIT"[1..] == "IMIT";
  }

  lemma {:induction false} CombineLength(ss: seq<Tokens>, last: Tokens)
    ensures |Combine(ss + [last])| == |Combine(ss + [[]])| + |last|
  {
    if ss != [] {
      CombineLength(ss[1..], last);
      assert (ss + [last])[1..] == ss[1..] + [last] && (ss + [[]])[1..] == ss[1..] + [[]];
    }
  }

  // ----- reading the output again -----

  /** Only at the very end of a text can a line comment lack its line break. */
  predicate WellLexed(ts: Tokens) {
    forall i :: 0 <= i < |ts| - 1 && ts[i].Line? ==> ts[i].closed
  }

  predicate EndsLine(t: Token) {
    t == Blank("\n") || (t.Line? && t.closed)
  }

  /** The tokens up to the next line break, as one text. */
  function LineText(ts: Tokens): string {
    if ts == [] || ts[0] == Blank("\n") then ""
    else if EndsLine(ts[0]) then ts[0].body
    else TextOf(ts[0]) + LineText(ts[1..])
  }

  function LineLength(ts: Tokens): (n: nat)
    ensures n <= |ts|
  {
    if ts == [] then 0 else if EndsLine(ts[0]) then 1 else 1 + LineLength(ts[1..])
  }

  /** What the lexer makes of the printed tokens: an open line comment swallows the rest of its line. */
  function Relex(ts: Tokens): Tokens
    decreases |ts|
  {
    if ts == [] then []
    else if ts[0].Line? && !ts[0].closed && |ts| > 1 then
      var n := LineLength(ts[1..]);
      [Line(ts[0].body + LineText(ts[1..]), n > 0 && EndsLine(ts[n]))] + Relex(ts[1 + n..])
    else [ts[0]] + Relex(ts[1..])
  }

  lemma {:induction false} RelexWellLexed(ts: Tokens)
    requires WellLexed(ts)
    ensures Relex(ts) == ts
  {
    if ts != [] {
      assert forall i :: 0 <= i < |ts[1..]| ==> ts[1..][i] == ts[i + 1];
      RelexWellLexed(ts[1..]);
    }
  }

  predicate AllClosed(ts: Tokens) {
    forall i :: 0 <= i < |ts| && ts[i].Line? ==> ts[i].closed
  }

  lemma {:induction false} RelexClosedPrefix(a: Tokens, b: Tokens)
    requires AllClosed(a)
    ensures Relex(a + b) == a + Relex(b)
  {
    if a == [] {
      assert a + b == b;
    } else {
      RelexClosedPrefix(a[1..], b);
      assert (a + b)[1..] == a[1..] + b && (a + b)[0] == a[0];
    }
  }

  // ----- line comments at the end of a statement -----

  /** A cleaned statement of a lexed query: only its final token can be an open line comment. */
  predicate Lexical(s: Tokens) {
    Solid(s) && WellLexed(s) && (EndsInLine(s) ==> !s[|s| - 1].closed)
  }

  lemma StripInner(t: Tokens)
    ensures WellLexed(t) ==> WellLexed(Strip(t))
    ensures EndsInLine(Strip(t)) ==> !Strip(t)[|Strip(t)| - 1].closed
  {
    var m, n := IndentLength(t), VisibleLength(t);
    if m < |t| {
      assert !t[m].Blank? && m < n;
      OpenLastLexed(t, m, n);
    }
  }

  lemma OpenLastLexed(t: Tokens, m: nat, n: nat)
    requires m < n <= |t|
    ensures WellLexed(t) ==> WellLexed(OpenLast(t[m..n]))
    ensures EndsInLine(OpenLast(t[m..n])) ==> !OpenLast(t[m..n])[n - m - 1].closed
  {
    var v := t[m..n];
    assert forall i :: 0 <= i < |v| ==> v[i] == t[m + i];
  }

  lemma KeptLexical(r: Tokens)
    requires RawShape(r) && WellLexed(r) && Kept(r) != []
    ensures Lexical(Kept(r)[0])
  {
    KeptTokens(r);
    TrimmedTokens(r);
    StripInner(Trimmed(r));
  }

  lemma {:induction false} StatementsLexical(ts: Tokens)
    requires WellLexed(ts)
    ensures forall s :: s in CleanSplit(ts) ==> Lexical(s)
    decreases |ts|
  {
    if ts != [] {
      var n := FirstLength(ts);
      FirstShape(ts);
      StatementsLexical(ts[n..]);
      if Kept(ts[..n]) != [] {
        KeptLexical(ts[..n]);
      }
    }
  }

  /** A statement whose final line comment has swallowed the semicolon and the line break after it. */
  function Swallowed(s: Tokens): (r: Tokens)
    requires EndsInLine(s)
    ensures |r| == |s|
  {
    s[|s| - 1 := Line(s[|s| - 1].body + ";", true)]
  }

  /** The statement joins the first of the others if it has swallowed the semicolon between them. */
  function MergeOnce(s: Tokens, rest: seq<Tokens>): (m: seq<Tokens>)
    requires rest != []
    ensures m != []
  {
    if EndsInLine(s) then [Swallowed(s) + rest[0]] + rest[1..] else [s] + rest
  }

  /** The statements of a recombined text as the lexer sees them. */
  function Merge(ss: seq<Tokens>): (m: seq<Tokens>)
    ensures ss != [] ==> m != []
  {
    if ss == [] then []
    else if |ss| == 1 then [Relex(ss[0])]
    else MergeOnce(ss[0], Merge(ss[1..]))
  }

  /** An open line comment at the end of a statement takes the semicolon into its line. */
  lemma RelexOpenLine(line: Token, rest: Tokens)
    requires line.Line? && !line.closed
    ensures Relex([line] + SEPARATOR + rest) == [Line(line.body + ";", true)] + Relex(rest)
  {
    var ts := [line] + SEPARATOR + rest;
    assert ts[1..] == [Semi] + ([Blank("\n")] + rest);
    assert ts[1..][1..] == [Blank("\n")] + rest;
    assert LineLength(ts[1..]) == 2 && ts[2] == Blank("\n");
    assert LineText(ts[1..]) == ";" + LineText([Blank("\n")] + rest);
    assert ";" + "" == ";";
    assert ts[3..] == rest;
  }

  lemma RelexSeparator(s: Tokens, rest: Tokens)
    requires Lexical(s)
    ensures Relex(s + SEPARATOR + rest) == (if EndsInLine(s) then Swallowed(s) else s + SEPARATOR) + Relex(rest)
  {
    if EndsInLine(s) {
      var front, line := s[..|s| - 1], s[|s| - 1];
      assert s + SEPARATOR + rest == front + ([line] + SEPARATOR + rest);
      RelexClosedPrefix(front, [line] + SEPARATOR + rest);
      RelexOpenLine(line, rest);
      Associative(front, [Line(line.body + ";", true)], Relex(rest));
      assert Swallowed(s) == front + [Line(line.body + ";", true)];
    } else {
      RelexClosedPrefix(s + SEPARATOR, rest);
    }
  }

  lemma CombineGlued(g: Tokens, m: seq<Tokens>)
    requires m != []
    ensures Combine([g + m[0]] + m[1..]) == g + Combine(m)
  {
    assert ([g + m[0]] + m[1..])[1..] == m[1..];
    if |m| > 1 {
      assert (g + m[0]) + SEPARATOR + Combine(m[1..]) == g + (m[0] + SEPARATOR + Combine(m[1..]));
    }
  }

  lemma CombineCons(s: Tokens, m: seq<Tokens>)
    requires m != []
    ensures Combine([s] + m) == s + SEPARATOR + Combine(m)
  {
    assert ([s] + m)[1..] == m;
  }

  lemma {:induction false} RelexCombine(ss: seq<Tokens>)
    requires ss != [] && forall i :: 0 <= i < |ss| - 1 ==> Lexical(ss[i])
    ensures Relex(Combine(ss)) == Combine(Merge(ss))
  {
    if |ss| > 1 {
      var rest := ss[1..];
      RelexSeparator(ss[0], Combine(rest));
      RelexCombine(rest);
      if EndsInLine(ss[0]) {
        CombineGlued(Swallowed(ss[0]), Merge(rest));
      } else {
        CombineCons(ss[0], Merge(rest));
      }
    }
  }

  lemma GluedSolid(s: Tokens, m: Tokens)
    requires Solid(s) && EndsInLine(s) && Solid(m)
    ensures Solid(Swallowed(s) + m)
  {
    var k :| 0 <= k < |s| && !s[k].Blank? && !IsComment(s[k]);
    assert (Swallowed(s) + m)[k] == s[k];
  }

  lemma {:induction false} MergeShape(ss: seq<Tokens>)
    requires AllSolid(ss) && ss != []
    requires Solid(Relex(ss[|ss| - 1]))
    ensures AllSolid(Merge(ss)) && Durable(Merge(ss))
  {
    assert Solid(ss[0]);
    if |ss| > 1 {
      var rest := ss[1..];
      assert rest[|rest| - 1] == ss[|ss| - 1];
      assert forall i :: 0 <= i < |rest| ==> rest[i] == ss[i + 1];
      MergeShape(rest);
      var m := Merge(rest);
      if EndsInLine(ss[0]) {
        GluedSolid(ss[0], m[0]);
        var g := Swallowed(ss[0]) + m[0];
        assert g[|g| - 1] == m[0][|m[0]| - 1];
        MergeConsShape(g, m[1..]);
      } else {
        MergeConsShape(ss[0], m);
      }
    }
  }

  lemma MergeConsShape(g: Tokens, m: seq<Tokens>)
    requires Solid(g) && AllSolid(m) && Durable(m)
    requires m != [] ==> !EndsInLine(g)
    ensures AllSolid([g] + m) && Durable([g] + m)
  {
  }

  /** The limited last statement, printed and lexed: a final line comment takes the limit with it. */
  lemma RelexLimited(s: Tokens)
    requires Lexical(s)
    ensures var t := if IsSelectNoLimit(s) then AddLimit(s) else s;
            Solid(Relex(t))
            && (EndsInLine(s) ==> EndsInLine(Relex(t)))
            && (!EndsInLine(s) ==> Relex(t) == t)
  {
    if !IsSelectNoLimit(s) {
      RelexWellLexed(s);
    } else if !EndsInLine(s) {
      LimitedIsLimited(s);
      RelexWellLexed(AddLimit(s));
    } else {
      RelexSwallowedLimit(s);
    }
  }

  lemma RelexSwallowedLimit(s: Tokens)
    requires Lexical(s) && EndsInLine(s)
    ensures Solid(Relex(AddLimit(s))) && EndsInLine(Relex(AddLimit(s)))
  {
    var front, line := s[..|s| - 1], s[|s| - 1];
    var tail := [line] + LIMIT_TOKENS;
    assert AddLimit(s) == front + tail;
    RelexClosedPrefix(front, tail);
    LimitIsOneLine();
    assert tail[1..] == LIMIT_TOKENS;
    var swallowed := Line(line.body + LineText(LIMIT_TOKENS), false);
    assert Relex(tail) == [swallowed] + Relex(tail[5..]);
    assert Relex(AddLimit(s)) == front + [swallowed];
    var k :| 0 <= k < |s| && !s[k].Blank? && !IsComment(s[k]);
    assert (front + [swallowed])[k] == s[k];
  }

  lemma LimitIsOneLine()
    ensures LineLength(LIMIT_TOKENS) == 4 && !EndsLine(LIMIT_TOKENS[3])
  {
    assert LIMIT_TOKENS[1..] == [Word("LIMIT", true), Blank(" "), Word("1000", false)];
    assert LIMIT_TOKENS[1..][1..] == [Blank(" "), Word("1000", false)];
    assert LIMIT_TOKENS[1..][1..][1..] == [Word("1000", false)];
    assert LineLength([Word("1000", false)]) == 1 + LineLength([]);
    assert LineLength([Blank(" "), Word("1000", false)]) == 2;
    assert LineLength([Word("LIMIT", true), Blank(" "), Word("1000", false)]) == 3;
  }

  // ----- the second application -----

  /**
   The statement ends in a comment that is still at the end after the limit: a block
   comment is safe behind an added limit, a line comment is not.
   */
  predicate LosesComment(s: Tokens) {
    EndsInLine(s) || (EndsInBlock(s) && !IsSelectNoLimit(s))
  }

  lemma StatementsShape(query: Tokens)
    requires WellLexed(query) && AutoLimit(query).Success?
    ensures AllSolid(Statements(query))
    ensures forall i :: 0 <= i < |Statements(query)| ==> Lexical(Statements(query)[i])
  {
    StatementsOf(query);
    StatementsLexical(query);
    CleanSplitIs(query);
    assert forall i :: 0 <= i < |Statements(query)| ==> Statements(query)[i] in Statements(query);
  }

  /** Only line comments, which swallow the semicolon behind them, stand between the statements. */
  predicate Chained(ss: seq<Tokens>) {
    forall i :: 0 <= i < |ss| - 1 ==> EndsInLine(ss[i])
  }

  /** The last statement with the statements before it that run into it. */
  function LastGroup(ss: seq<Tokens>): Tokens {
    if Chained(ss) then Flatten(ss) else LastGroup(ss[1..])
  }

  lemma {:induction false} CombineLastToken(ss: seq<Tokens>)
    requires ss != [] && ss[|ss| - 1] != []
    ensures var last := ss[|ss| - 1];
            Combine(ss) != [] && Combine(ss)[|Combine(ss)| - 1] == last[|last| - 1]
  {
    if |ss| > 1 {
      CombineLastToken(ss[1..]);
    }
  }

  lemma AutoLimitFrom(query: Tokens, stmts: seq<Tokens>)
    requires stmts != [] && stmts[|stmts| - 1] != [] && Statements(query) == stmts
    ensures AutoLimit(query) == Success(Combine(LimitLast(stmts)))
  {
  }

  lemma LimitLastEnd(init: seq<Tokens>, last: Tokens)
    requires last != []
    ensures LimitLast(init + [last]) == init + [if IsSelectNoLimit(last) then AddLimit(last) else last]
  {
    assert (init + [last])[|init|] == last;
  }

  lemma CombinedDiffer(init: seq<Tokens>, a: Tokens, b: Tokens)
    requires |a| != |b| || (a != [] && a[|a| - 1] != b[|a| - 1])
    ensures Combine(init + [a]) != Combine(init + [b])
  {
    CombineLength(init, a);
    CombineLength(init, b);
    if a != [] && b != [] {
      CombineLastToken(init + [a]);
      CombineLastToken(init + [b]);
    }
  }

  /** Reapplying the limit to separable statements: nothing happens unless one of two guards fires. */
  lemma LimitAgain(ss: seq<Tokens>)
    requires AllSolid(ss) && Durable(ss) && ss != []
    ensures var last := ss[|ss| - 1];
            AutoLimit(Combine(ss)) == Success(Combine(ss)) <==> !IsComment(last[|last| - 1]) && !IsSelectNoLimit(last)
  {
    var init, last := ss[..|ss| - 1], ss[|ss| - 1];
    assert Solid(last) && ss == init + [last];
    StatementsOfCombined(ss);
    if IsComment(last[|last| - 1]) {
      KeptEndsInContent(last);
      var kept := Kept(last)[0];
      assert Kept(last) == [kept];
      EndsDiffer(init, last, kept);
    } else {
      KeptWhole(last);
      assert ContentLength(last) == |last| && last[..|last|] == last;
      AutoLimitFrom(Combine(ss), ss);
      LimitLastEnd(init, last);
      if IsSelectNoLimit(last) {
        CombinedDiffer(init, last, AddLimit(last));
      }
    }
  }

  lemma EndsDiffer(init: seq<Tokens>, last: Tokens, kept: Tokens)
    requires last != [] && kept != [] && IsComment(last[|last| - 1])
    requires !IsComment(kept[|kept| - 1]) && !IsComment(AddLimit(kept)[|AddLimit(kept)| - 1])
    requires Statements(Combine(init + [last])) == init + [kept]
    ensures AutoLimit(Combine(init + [last])) != Success(Combine(init + [last]))
  {
    AutoLimitFrom(Combine(init + [last]), init + [kept]);
    LimitLastEnd(init, kept);
    CombinedDiffer(init, last, if IsSelectNoLimit(kept) then AddLimit(kept) else kept);
  }

  lemma KeptEndsInContent(s: Tokens)
    requires Solid(s) && IsComment(s[|s| - 1])
    ensures |Kept(s)| == 1 && Kept(s)[0] != [] && !IsComment(Kept(s)[0][|Kept(s)[0]| - 1])
    ensures !IsComment(AddLimit(Kept(s)[0])[|AddLimit(Kept(s)[0])| - 1])
  {
    KeptWhole(s);
    var n := ContentLength(s);
    assert s[..n][n - 1] == s[n - 1];
    LimitedEndsInContent(s[..n]);
  }

  lemma LimitedEndsInContent(s: Tokens)
    requires s != [] && !IsComment(s[|s| - 1])
    ensures !IsComment(AddLimit(s)[|AddLimit(s)| - 1])
  {
    var t := AddLimit(s);
    assert EndsInPunctuation(s) ==> t[|t| - 1] == s[|s| - 1];
  }

  /**
   When a second application leaves the printed output of the first alone: the last
   statement keeps no comment at its end, and it is a select without a limit unless what
   it runs together with is none. All of this can be read off the statements of the query.
   */
  lemma AutoLimitIsFixedPoint(query: Tokens)
    requires WellLexed(query) && AutoLimit(query).Success?
    ensures var printed := Relex(AutoLimit(query).value);
            var stmts, last := Statements(query), LastStatement(query);
            AutoLimit(printed) == Success(printed) <==>
            !LosesComment(last) && (IsSelectNoLimit(last) || !IsSelectNoLimit(LastGroup(stmts)))
  {
    StatementsShape(query);
    PrintedAgain(Statements(query), LimitLast(Statements(query)));
  }

  lemma PrintedAgain(stmts: seq<Tokens>, limited: seq<Tokens>)
    requires AllSolid(stmts) && stmts != [] && forall i :: 0 <= i < |stmts| ==> Lexical(stmts[i])
    requires stmts[|stmts| - 1] != [] && limited == LimitLast(stmts)
    ensures var printed, last := Relex(Combine(limited)), stmts[|stmts| - 1];
            AutoLimit(printed) == Success(printed) <==>
            !LosesComment(last) && (IsSelectNoLimit(last) || !IsSelectNoLimit(LastGroup(stmts)))
  {
    var merged := Merge(limited);
    PrintedShape(stmts, limited, merged);
    LimitAgain(merged);
    if !LosesComment(stmts[|stmts| - 1]) {
      GroupDecides(stmts, limited);
    }
  }

  // ----- the last group, before and after -----

  /** The lexer changes nothing in a statement but the text of line comments. */
  predicate Alike(a: Tokens, b: Tokens) {
    |a| == |b| && a != [] && a[0] == b[0]
    && forall i :: 0 <= i < |a| ==> a[i] == b[i] || (a[i].Line? && b[i].Line?)
  }

  lemma AlikeDecides(a: Tokens, b: Tokens)
    requires Alike(a, b)
    ensures IsSelectNoLimit(a) == IsSelectNoLimit(b)
  {
    assert LastKeyword(a) == LastKeyword(b);
  }

  lemma AlikeGlued(s: Tokens, m: Tokens, g: Tokens)
    requires Solid(s) && EndsInLine(s) && Alike(m, g)
    ensures Alike(Swallowed(s) + m, s + g)
  {
    var k :| 0 <= k < |s| && !s[k].Blank? && !IsComment(s[k]);
    assert k < |s| - 1;
    forall i | 0 <= i < |s| + |m|
      ensures var x, y := (Swallowed(s) + m)[i], (s + g)[i];
              x == y || (x.Line? && y.Line?)
    {
      assert i >= |s| ==> (Swallowed(s) + m)[i] == m[i - |s|] && (s + g)[i] == g[i - |s|];
    }
  }

  /** The last of the merged statements is the last group, and it is the only one if all are chained. */
  predicate EndsInGroup(ss: seq<Tokens>, m: seq<Tokens>) {
    m != [] && Alike(m[|m| - 1], LastGroup(ss)) && (|m| == 1 <==> Chained(ss))
  }

  lemma {:induction false} GroupMerges(ss: seq<Tokens>)
    requires AllSolid(ss) && ss != [] && Relex(ss[|ss| - 1]) == ss[|ss| - 1]
    ensures EndsInGroup(ss, Merge(ss))
  {
    if |ss| == 1 {
      OneMerges(ss);
    } else {
      RestSolid(ss);
      GroupMerges(ss[1..]);
      GroupMergesStep(ss, Merge(ss[1..]));
    }
  }

  lemma OneMerges(ss: seq<Tokens>)
    requires |ss| == 1 && Solid(ss[0]) && Relex(ss[0]) == ss[0]
    ensures EndsInGroup(ss, Merge(ss))
  {
    GroupOfOne(ss);
  }

  lemma RestSolid(ss: seq<Tokens>)
    requires |ss| > 1 && AllSolid(ss)
    ensures AllSolid(ss[1..]) && Solid(ss[0]) && ss[1..][|ss| - 2] == ss[|ss| - 1]
  {
  }

  lemma GroupOfOne(ss: seq<Tokens>)
    requires |ss| == 1
    ensures LastGroup(ss) == ss[0]
  {
    assert Flatten(ss) == ss[0] + Flatten([]);
  }

  lemma GroupMergesStep(ss: seq<Tokens>, m: seq<Tokens>)
    requires |ss| > 1 && Solid(ss[0]) && Merge(ss[1..]) == m && EndsInGroup(ss[1..], m)
    ensures EndsInGroup(ss, Merge(ss))
  {
    ChainedCons(ss);
    var merged := MergeOnce(ss[0], m);
    assert Merge(ss) == merged;
    if EndsInLine(ss[0]) && |m| == 1 {
      AlikeGlued(ss[0], m[0], LastGroup(ss[1..]));
      FlattenChained(ss);
    } else {
      assert merged[|merged| - 1] == m[|m| - 1];
    }
  }

  lemma FlattenChained(ss: seq<Tokens>)
    requires |ss| > 1 && Chained(ss) && Chained(ss[1..])
    ensures LastGroup(ss) == ss[0] + LastGroup(ss[1..])
  {
  }

  lemma ChainedCons(ss: seq<Tokens>)
    requires |ss| > 1
    ensures Chained(ss) <==> EndsInLine(ss[0]) && Chained(ss[1..])
  {
    var rest := ss[1..];
    if EndsInLine(ss[0]) && Chained(rest) {
      forall i | 0 <= i < |ss| - 1
        ensures EndsInLine(ss[i])
      {
        assert i > 0 ==> ss[i] == rest[i - 1];
      }
    }
  }

  lemma {:induction false} GroupEnd(ss: seq<Tokens>) returns (front: Tokens)
    requires ss != []
    ensures LastGroup(ss) == front + ss[|ss| - 1]
  {
    if |ss| == 1 {
      front := [];
      GroupOfOne(ss);
    } else {
      var before := GroupEnd(ss[1..]);
      ChainedCons(ss);
      front := if Chained(ss) then ss[0] + before else before;
      Associative(ss[0], before, ss[|ss| - 1]);
    }
  }

  lemma LimitedGroup(front: Tokens, s: Tokens)
    requires Solid(s) && IsSelectNoLimit(s)
    ensures !IsSelectNoLimit(front + AddLimit(s))
  {
    LimitIsLast(s);
    UpperLimit();
    KeywordBehind(front, AddLimit(s));
  }

  lemma KeywordBehind(front: Tokens, t: Tokens)
    requires LastKeyword(t) >= 0
    ensures LastKeyword(front + t) == |front| + LastKeyword(t)
    ensures (front + t)[LastKeyword(front + t)] == t[LastKeyword(t)]
  {
    var all, k := front + t, LastKeyword(t);
    assert all[|front| + k] == t[k];
    assert forall i :: |front| + k < i < |all| ==> all[i] == t[i - |front|];
  }

  lemma GroupDecision(ss: seq<Tokens>)
    requires AllSolid(ss) && ss != [] && Relex(ss[|ss| - 1]) == ss[|ss| - 1]
    ensures var m := Merge(ss); IsSelectNoLimit(m[|m| - 1]) == IsSelectNoLimit(LastGroup(ss))
  {
    GroupMerges(ss);
    AlikeDecides(Merge(ss)[|Merge(ss)| - 1], LastGroup(ss));
  }

  lemma GroupDecides(stmts: seq<Tokens>, limited: seq<Tokens>)
    requires AllSolid(stmts) && stmts != [] && (forall i :: 0 <= i < |stmts| ==> Lexical(stmts[i]))
    requires stmts[|stmts| - 1] != [] && limited == LimitLast(stmts) && !LosesComment(stmts[|stmts| - 1])
    ensures var last, m := stmts[|stmts| - 1], Merge(limited);
            IsSelectNoLimit(m[|m| - 1]) <==> !IsSelectNoLimit(last) && IsSelectNoLimit(LastGroup(stmts))
  {
    var last := stmts[|stmts| - 1];
    LimitedSolid(stmts);
    RelexLimited(last);
    GroupDecision(limited);
    if IsSelectNoLimit(last) {
      var front := GroupEnd(limited);
      LimitedGroup(front, last);
    }
  }

  lemma PrintedShape(ss: seq<Tokens>, limited: seq<Tokens>, merged: seq<Tokens>)
    requires AllSolid(ss) && ss != [] && forall i :: 0 <= i < |ss| ==> Lexical(ss[i])
    requires ss[|ss| - 1] != [] && limited == LimitLast(ss) && merged == Merge(limited)
    ensures Relex(Combine(limited)) == Combine(merged) && AllSolid(merged) && Durable(merged)
    ensures var m := merged[|merged| - 1];
            m != [] && (IsComment(m[|m| - 1]) <==> LosesComment(ss[|ss| - 1]))
  {
    var last, final := ss[|ss| - 1], limited[|ss| - 1];
    assert Lexical(last);
    LimitedSolid(ss);
    LimitedEnd(last, final);
    MergedShape(limited, final);
  }

  lemma MergedShape(limited: seq<Tokens>, final: Tokens)
    requires AllSolid(limited) && limited != [] && limited[|limited| - 1] == final
    requires forall i :: 0 <= i < |limited| - 1 ==> Lexical(limited[i])
    requires Solid(Relex(final))
    ensures Relex(Combine(limited)) == Combine(Merge(limited))
    ensures AllSolid(Merge(limited)) && Durable(Merge(limited))
    ensures EndsWith(Merge(limited)[|Merge(limited)| - 1], Relex(final)[|Relex(final)| - 1])
  {
    RelexCombine(limited);
    MergeShape(limited);
    var t := Relex(final)[|Relex(final)| - 1];
    assert EndsWith(Relex(limited[|limited| - 1]), t);
    MergeLast(limited, t);
  }

  /** The limit hides a final block comment, but a final line comment hides the limit. */
  lemma LimitedEnd(s: Tokens, final: Tokens)
    requires Lexical(s) && final == if IsSelectNoLimit(s) then AddLimit(s) else s
    ensures final != [] && Solid(Relex(final))
    ensures IsComment(Relex(final)[|Relex(final)| - 1]) <==> LosesComment(s)
  {
    RelexLimited(s);
    if IsSelectNoLimit(s) {
      LimitedIsLimited(s);
    }
  }

  lemma LimitedSolid(ss: seq<Tokens>)
    requires AllSolid(ss) && ss != []
    ensures ss[|ss| - 1] != [] && AllSolid(LimitLast(ss))
  {
    var last := ss[|ss| - 1];
    assert Solid(last);
    if IsSelectNoLimit(last) {
      LimitedIsLimited(last);
    }
  }

  predicate EndsWith(s: Tokens, t: Token) {
    s != [] && s[|s| - 1] == t
  }

  /** Merging keeps the final token of the text. */
  lemma {:induction false} MergeLast(ss: seq<Tokens>, t: Token)
    requires ss != [] && EndsWith(Relex(ss[|ss| - 1]), t)
    ensures EndsWith(Merge(ss)[|Merge(ss)| - 1], t)
  {
    if |ss| > 1 {
      var rest := ss[1..];
      assert rest[|rest| - 1] == ss[|ss| - 1];
      MergeLast(rest, t);
      MergeLastStep(ss, Merge(rest), t);
    }
  }

  lemma MergeLastStep(ss: seq<Tokens>, m: seq<Tokens>, t: Token)
    requires |ss| > 1 && Merge(ss[1..]) == m != [] && EndsWith(m[|m| - 1], t)
    ensures EndsWith(Merge(ss)[|Merge(ss)| - 1], t)
  {
    var merged := MergeOnce(ss[0], m);
    assert Merge(ss) == merged;
    if EndsInLine(ss[0]) {
      if |m| == 1 {
        LastOfSum(Swallowed(ss[0]), m[0]);
      }
      assert |m| > 1 ==> merged[|merged| - 1] == m[|m| - 1];
    }
  }

  /** In particular limiting is idempotent when no statement has a comment before its semicolon. */
  lemma AutoLimitTwice(query: Tokens)
    requires WellLexed(query)
    requires forall s :: s in Statements(query) ==> s != [] && !IsComment(s[|s| - 1])
    ensures AutoLimit(query).Success? && Relex(AutoLimit(query).value) == AutoLimit(query).value
    ensures AutoLimit(AutoLimit(query).value) == AutoLimit(query)
  {
    var ss := Statements(query);
    assert forall i :: 0 <= i < |ss| ==> ss[i] in ss;
    assert !LosesComment(ss[|ss| - 1]);
    AutoLimitFrom(query, ss);
    StatementsShape(query);
    UncommentedPrint(ss, LimitLast(ss));
    GroupAlone(ss);
    AutoLimitIsFixedPoint(query);
  }

  lemma UncommentedPrint(ss: seq<Tokens>, limited: seq<Tokens>)
    requires ss != [] && AllSolid(ss) && forall i :: 0 <= i < |ss| ==> Lexical(ss[i])
    requires forall i :: 0 <= i < |ss| ==> ss[i] != [] && !IsComment(ss[i][|ss[i]| - 1])
    requires limited == LimitLast(ss)
    ensures Merge(limited) == limited && Relex(Combine(limited)) == Combine(limited)
  {
    var last := ss[|ss| - 1];
    assert Lexical(last);
    RelexLimited(last);
    MergeNothing(limited);
    RelexCombine(limited);
  }

  lemma {:induction false} GroupAlone(ss: seq<Tokens>)
    requires ss != [] && forall i :: 0 <= i < |ss| - 1 ==> !EndsInLine(ss[i])
    ensures LastGroup(ss) == ss[|ss| - 1]
  {
    if |ss| == 1 {
      GroupOfOne(ss);
    } else {
      assert !EndsInLine(ss[0]) && ss[1..][|ss| - 2] == ss[|ss| - 1];
      GroupAlone(ss[1..]);
    }
  }

  lemma {:induction false} MergeNothing(ss: seq<Tokens>)
    requires ss != [] && Relex(ss[|ss| - 1]) == ss[|ss| - 1]
    requires forall i :: 0 <= i < |ss| - 1 ==> !EndsInLine(ss[i])
    ensures Merge(ss) == ss
  {
    if |ss| > 1 {
      assert ss[1..][|ss| - 2] == ss[|ss| - 1];
      MergeNothing(ss[1..]);
    }
  }

  /**
   A query for which it fails: `SELECT -- c` with the semicolon on the next line. The
   limit is written into the comment, and the second application drops both.
   */
  lemma LineCommentIsNotStable()
    ensures var query := [Word("SELECT", true), Line("-- c", true), Semi];
            WellLexed(query) && AutoLimit(query).Success?
            && AutoLimit(Relex(AutoLimit(query).value)) != Success(Relex(AutoLimit(query).value))
  {
    var select, line := Word("SELECT", true), Line("-- c", true);
    var query := [select, line, Semi];
    assert query[1..] == [line, Semi] && query[1..][1..] == [Semi];
    assert FirstLength(query) == 3 && query[..3] == query && query[3..] == [];
    assert Split(query) == [query] + Split([]);
    var t := [select, line, SPACE];
    assert ContentLength(query) == 3 && WithoutTrailingComments(query) == query;
    assert VisibleLength(query) == 3;
    assert Trimmed(query) == t;
    assert VisibleLength(t) == 2 && t[0..2] == [select, line];
    assert IndentLength(t) == 0 && OpenLast([select, line]) == [select, Line("-- c", false)];
    assert !IsEmpty(t) by {
      assert t[0] == select;
    }
    assert Kept(query) == [[select, Line("-- c", false)]];
    assert CleanAll([query]) == Kept(query) by {
      CleanCons(query, []);
      assert [query] == [query] + [];
    }
    StatementsFrom(query, [query], Kept(query));
    assert EndsInLine(LastStatement(query));
    AutoLimitIsFixedPoint(query);
  }
}
