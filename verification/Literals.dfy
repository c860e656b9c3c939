/**
 The ClickHouse literal printer used for endpoint parameters
 (`_escape_string` and `_format_value`), and a reader for the literals it prints.
 */
module Literals {
  import opened Text

  datatype Value = Null | Int(i: int) | Str(s: string) | List(items: seq<Value>)

  const BACKSPACE: char := '\U{0008}'
  const FORMFEED: char := '\U{000C}'
  const NUL: char := '\0'

  /** Python's `s.replace(c, sub)` for a pattern of one character. */
  function Replace(s: string, c: char, sub: string): string {
    if s == "" then "" else (if s[0] == c then sub else [s[0]]) + Replace(s[1..], c, sub)
  }

  /** The eight replacements, one after the other over the whole string. */
  function EscapeInSequence(value: string): string {
    var e := Replace(value, '\\', "\\\\");
    var e := Replace(e, '\'', "\\'");
    var e := Replace(e, '\n', "\\n");
    var e := Replace(e, '\t', "\\t");
    var e := Replace(e, BACKSPACE, "\\b");
    var e := Replace(e, FORMFEED, "\\f");
    var e := Replace(e, '\r', "\\r");
    Replace(e, NUL, "\\0")
  }

  function EscapeString(value: string): string {
    "'" + EscapeInSequence(value) + "'"
  }

  function IntText(i: int): string {
    if i < 0 then "-" + Decimal(-i) else Decimal(i)
  }

  function Format(v: Value): string
    decreases v
  {
    match v
    case Null => "NULL"
    case Int(i) => IntText(i)
    case Str(s) => EscapeString(s)
    case List(items) => "[" + JoinWith(",", FormatEach(items)) + "]"
  }

  function FormatEach(items: seq<Value>): (texts: seq<string>)
    ensures |texts| == |items|
    decreases items
  {
    if items == [] then [] else [Format(items[0])] + FormatEach(items[1..])
  }

  // ----- one pass instead of eight -----

  /** The letter that follows the backslash in the escape of a special character. */
  function EscapeLetter(c: char): Option<char> {
    if c == '\\' || c == '\'' then Some(c)
    else if c == '\n' then Some('n')
    else if c == '\t' then Some('t')
    else if c == BACKSPACE then Some('b')
    else if c == FORMFEED then Some('f')
    else if c == '\r' then Some('r')
    else if c == NUL then Some('0')
    else None
  }

  function EscapeChar(c: char): (e: string)
    ensures 1 <= |e| <= 2
  {
    if EscapeLetter(c).Some? then ['\\', EscapeLetter(c).value] else [c]
  }

  function EscapePerChar(s: string): string {
    if s == "" then "" else EscapeChar(s[0]) + EscapePerChar(s[1..])
  }

  lemma {:induction false} ReplaceConcat(a: string, b: string, c: char, sub: string)
    ensures Replace(a + b, c, sub) == Replace(a, c, sub) + Replace(b, c, sub)
  {
    if a == "" {
      assert a + b == b;
    } else {
      assert (a + b)[1..] == a[1..] + b;
      ReplaceConcat(a[1..], b, c, sub);
    }
  }

  lemma EscapeConcat(a: string, b: string)
    ensures EscapeInSequence(a + b) == EscapeInSequence(a) + EscapeInSequence(b)
  {
    ReplaceConcat(a, b, '\\', "\\\\");
    var a1, b1 := Replace(a, '\\', "\\\\"), Replace(b, '\\', "\\\\");
    ReplaceConcat(a1, b1, '\'', "\\'");
    var a2, b2 := Replace(a1, '\'', "\\'"), Replace(b1, '\'', "\\'");
    ReplaceConcat(a2, b2, '\n', "\\n");
    var a3, b3 := Replace(a2, '\n', "\\n"), Replace(b2, '\n', "\\n");
    ReplaceConcat(a3, b3, '\t', "\\t");
    var a4, b4 := Replace(a3, '\t', "\\t"), Replace(b3, '\t', "\\t");
    ReplaceConcat(a4, b4, BACKSPACE, "\\b");
    var a5, b5 := Replace(a4, BACKSPACE, "\\b"), Replace(b4, BACKSPACE, "\\b");
    ReplaceConcat(a5, b5, FORMFEED, "\\f");
    var a6, b6 := Replace(a5, FORMFEED, "\\f"), Replace(b5, FORMFEED, "\\f");
    ReplaceConcat(a6, b6, '\r', "\\r");
    var a7, b7 := Replace(a6, '\r', "\\r"), Replace(b6, '\r', "\\r");
    ReplaceConcat(a7, b7, NUL, "\\0");
  }

  lemma ReplaceShort(s: string, c: char, sub: string)
    requires 1 <= |s| <= 2
    ensures |s| == 1 ==> Replace(s, c, sub) == if s[0] == c then sub else s
    ensures |s| == 2 && s[0] != c && s[1] != c ==> Replace(s, c, sub) == s
  {
    assert Replace(s[1..], c, sub) == if |s| == 1 then "" else if s[1] == c then sub + "" else [s[1]];
  }

  lemma EscapeOneChar(c: char)
    ensures EscapeInSequence([c]) == EscapeChar(c)
  {
    var e0 := [c];
    ReplaceShort(e0, '\\', "\\\\");
    var e1 := Replace(e0, '\\', "\\\\");
    ReplaceShort(e1, '\'', "\\'");
    var e2 := Replace(e1, '\'', "\\'");
    ReplaceShort(e2, '\n', "\\n");
    var e3 := Replace(e2, '\n', "\\n");
    ReplaceShort(e3, '\t', "\\t");
    var e4 := Replace(e3, '\t', "\\t");
    ReplaceShort(e4, BACKSPACE, "\\b");
    var e5 := Replace(e4, BACKSPACE, "\\b");
    ReplaceShort(e5, FORMFEED, "\\f");
    var e6 := Replace(e5, FORMFEED, "\\f");
    ReplaceShort(e6, '\r', "\\r");
    var e7 := Replace(e6, '\r', "\\r");
    ReplaceShort(e7, NUL, "\\0");
  }

  /** No later replacement touches what an earlier one wrote. */
  lemma {:induction false} SequentialIsPerChar(s: string)
    ensures EscapeInSequence(s) == EscapePerChar(s)
  {
    if s != "" {
      assert s == [s[0]] + s[1..];
      EscapeConcat([s[0]], s[1..]);
      EscapeOneChar(s[0]);
      SequentialIsPerChar(s[1..]);
    }
  }

  // ----- reading literals back -----

  function Unescape(letter: char): string {
    if letter == '\\' || letter == '\'' then [letter]
    else if letter == 'n' then "\n"
    else if letter == 't' then "\t"
    else if letter == 'b' then [BACKSPACE]
    else if letter == 'f' then [FORMFEED]
    else if letter == 'r' then "\r"
    else if letter == '0' then [NUL]
    else ['\\', letter]
  }

  /** Reads the rest of a quoted string; a doubled quote stands for one quote. */
  function ReadString(s: string): (r: Option<(string, string)>)
    ensures r.Some? ==> |r.value.1| < |s|
  {
    if s == "" then None
    else if s[0] == '\'' && (|s| == 1 || s[1] != '\'') then Some(("", s[1..]))
    else if s[0] == '\'' || s[0] == '\\' then
      if |s| == 1 then None else
      var head := if s[0] == '\'' then "'" else Unescape(s[1]);
      match ReadString(s[2..])
      case None => None
      case Some((tail, rest)) => Some((head + tail, rest))
    else
      match ReadString(s[1..])
      case None => None
      case Some((tail, rest)) => Some(([s[0]] + tail, rest))
  }

  function DigitRun(s: string): (n: nat)
    ensures n <= |s| && AllDigits(s[..n])
    ensures n < |s| ==> !IsDigit(s[n])
  {
    if s == "" || !IsDigit(s[0]) then 0
    else
      var n := DigitRun(s[1..]);
      assert forall i :: 1 <= i < n + 1 ==> s[i] == s[1..][..n][i - 1];
      n + 1
  }

  function ReadNat(s: string): (r: Option<(int, string)>)
    ensures r.Some? ==> |r.value.1| < |s|
  {
    var n := DigitRun(s);
    if n == 0 then None else Some((NumeralValue(s[..n]), s[n..]))
  }

  function ReadInt(s: string): (r: Option<(int, string)>)
    ensures r.Some? ==> |r.value.1| < |s|
  {
    if s != "" && s[0] == '-' then
      match ReadNat(s[1..])
      case None => None
      case Some((n, rest)) => Some((-n, rest))
    else
      match ReadNat(s)
      case None => None
      case Some((n, rest)) => Some((n, rest))
  }

  /** Reads one literal from the front of the text and returns what follows it. */
  function ReadValue(s: string): (r: Option<(Value, string)>)
    ensures r.Some? ==> |r.value.1| < |s|
    decreases |s|, 0
  {
    if s == "" then None
    else if |s| >= 4 && s[..4] == "NULL" then Some((Null, s[4..]))
    else if s[0] == '\'' then
      match ReadString(s[1..])
      case None => None
      case Some((text, rest)) => Some((Str(text), rest))
    else if s[0] == '[' then
      if |s| > 1 && s[1] == ']' then Some((List([]), s[2..])) else
      match ReadItems(s[1..])
      case None => None
      case Some((items, rest)) => Some((List(items), rest))
    else
      match ReadInt(s)
      case None => None
      case Some((i, rest)) => Some((Int(i), rest))
  }

  /** Reads `v,v,...,v]`. */
  function ReadItems(s: string): (r: Option<(seq<Value>, string)>)
    ensures r.Some? ==> |r.value.1| < |s|
    decreases |s|, 1
  {
    match ReadValue(s)
    case None => None
    case Some((v, rest)) =>
      if rest != "" && rest[0] == ']' then Some(([v], rest[1..]))
      else if rest != "" && rest[0] == ',' then
        match ReadItems(rest[1..])
        case None => None
        case Some((items, after)) => Some(([v] + items, after))
      else None
  }

  // ----- the round trip -----

  /** What may follow a printed literal inside a list, or at the end. */
  predicate Follows(rest: string) {
    rest == "" || rest[0] == ',' || rest[0] == ']'
  }

  lemma {:induction false} StringReadsBack(s: string, rest: string)
    requires Follows(rest)
    ensures ReadString(EscapePerChar(s) + "'" + rest) == Some((s, rest))
  {
    if s == "" {
      assert EscapePerChar(s) + "'" + rest == "'" + rest;
      assert ("'" + rest)[1..] == rest;
    } else {
      StringReadsBack(s[1..], rest);
      var tail := EscapePerChar(s[1..]) + "'" + rest;
      var e := EscapeChar(s[0]);
      assert EscapePerChar(s) + "'" + rest == e + tail;
      assert (e + tail)[|e|..] == tail;
      assert s == [s[0]] + s[1..];
    }
  }

  lemma NatReadsBack(n: nat, rest: string)
    requires Follows(rest)
    ensures ReadNat(Decimal(n) + rest) == Some((n, rest))
  {
    var s := Decimal(n) + rest;
    var k := DigitRun(s);
    assert forall i :: 0 <= i < k ==> IsDigit(s[..k][i]) && s[..k][i] == s[i];
    assert forall i :: 0 <= i < |Decimal(n)| ==> s[i] == Decimal(n)[i];
    assert |Decimal(n)| < |s| ==> s[|Decimal(n)|] == rest[0];
    assert k == |Decimal(n)|;
    assert s[..k] == Decimal(n) && s[k..] == rest;
    DecimalReadsBack(n);
  }

  lemma IntReadsBack(i: int, rest: string)
    requires Follows(rest)
    ensures ReadInt(IntText(i) + rest) == Some((i, rest))
  {
    if i < 0 {
      NegativeReadsBack(i, rest);
    } else {
      NatReadsBack(i, rest);
      assert (Decimal(i) + rest)[0] == Decimal(i)[0];
    }
  }

  lemma NegativeReadsBack(i: int, rest: string)
    requires i < 0 && Follows(rest)
    ensures ReadInt("-" + Decimal(-i) + rest) == Some((i, rest))
  {
    NatReadsBack(-i, rest);
    var s := "-" + Decimal(-i) + rest;
    Associative("-", Decimal(-i), rest);
    assert s[0] == '-' && s[1..] == Decimal(-i) + rest;
  }

  /** No printed literal is empty or starts with the closing bracket of a list. */
  lemma FormatStart(v: Value)
    ensures Format(v) != "" && Format(v)[0] != ']'
    ensures v.Int? ==> IsDigit(Format(v)[0]) || Format(v)[0] == '-'
  {
  }

  lemma NullReadsBack(rest: string)
    ensures ReadValue("NULL" + rest) == Some((Null, rest))
  {
    var s := "NULL" + rest;
    assert s[..4] == "NULL" && s[4..] == rest;
  }

  lemma IntLiteralReadsBack(i: int, rest: string)
    requires Follows(rest)
    ensures ReadValue(IntText(i) + rest) == Some((Int(i), rest))
  {
    var s := IntText(i) + rest;
    IntReadsBack(i, rest);
    assert s[0] == IntText(i)[0];
    assert IsDigit(s[0]) || s[0] == '-';
    assert |s| >= 4 ==> s[..4][0] == s[0] && "NULL"[0] == 'N';
  }

  lemma StringLiteralReadsBack(text: string, rest: string)
    requires Follows(rest)
    ensures ReadValue(EscapeString(text) + rest) == Some((Str(text), rest))
  {
    var s := EscapeString(text) + rest;
    SequentialIsPerChar(text);
    StringReadsBack(text, rest);
    assert s[1..] == EscapePerChar(text) + "'" + rest;
    assert s[0] == '\'';
    assert |s| >= 4 ==> s[..4][0] == s[0] && "NULL"[0] == 'N';
  }

  /**
   Printing and then reading is the identity, at every nesting depth and in the
   middle of a surrounding list.
   */
  lemma {:induction false} FormatReadsBack(v: Value, rest: string)
    requires Follows(rest)
    ensures ReadValue(Format(v) + rest) == Some((v, rest))
    decreases v, 1
  {
    match v
    case Null =>
      NullReadsBack(rest);
    case Int(i) =>
      IntLiteralReadsBack(i, rest);
    case Str(text) =>
      StringLiteralReadsBack(text, rest);
    case List(items) =>
      ListLiteralReadsBack(items, rest);
  }

  lemma {:induction false} ListLiteralReadsBack(items: seq<Value>, rest: string)
    requires Follows(rest)
    ensures ReadValue(Format(List(items)) + rest) == Some((List(items), rest))
    decreases items, 1
  {
    var body := JoinWith(",", FormatEach(items));
    var s := Format(List(items)) + rest;
    assert s[1..] == body + "]" + rest;
    assert s[0] == '[' && (|s| >= 4 ==> s[..4][0] == s[0] && "NULL"[0] == 'N');
    if items == [] {
      assert s[2..] == rest;
    } else {
      FormatStart(items[0]);
      ItemsReadBack(items, rest);
      assert body[0] == Format(items[0])[0];
      assert s[1] == body[0];
    }
  }

  lemma {:induction false} ItemsReadBack(items: seq<Value>, rest: string)
    requires items != []
    ensures ReadItems(JoinWith(",", FormatEach(items)) + "]" + rest) == Some((items, rest))
    decreases items, 0
  {
    var head := Format(items[0]);
    if |items| == 1 {
      FormatReadsBack(items[0], "]" + rest);
      Associative(head, "]", rest);
      assert items == [items[0]];
      assert ("]" + rest)[1..] == rest;
    } else {
      var tail := JoinWith(",", FormatEach(items[1..])) + "]" + rest;
      FormatReadsBack(items[0], "," + tail);
      ItemsReadBack(items[1..], rest);
      ItemsText(items, rest);
      assert ("," + tail)[1..] == tail;
      assert items == [items[0]] + items[1..];
    }
  }

  lemma ItemsText(items: seq<Value>, rest: string)
    requires |items| > 1
    ensures JoinWith(",", FormatEach(items)) + "]" + rest ==
            Format(items[0]) + ("," + (JoinWith(",", FormatEach(items[1..])) + "]" + rest))
  {
    assert FormatEach(items)[1..] == FormatEach(items[1..]);
    var head, tail := Format(items[0]), JoinWith(",", FormatEach(items[1..]));
    Regroup(head, ",", tail, "]" + rest);
    Associative(head + "," + tail, "]", rest);
    Associative(tail, "]", rest);
  }

  lemma Regroup(a: string, b: string, c: string, d: string)
    ensures a + b + c + d == a + (b + (c + d))
  {
  }

  /** So no two values share a literal. */
  lemma FormatIsInjective(v: Value, w: Value)
    requires Format(v) == Format(w)
    ensures v == w
  {
    FormatReadsBack(v, "");
    FormatReadsBack(w, "");
  }

  lemma {:induction false} NoLeadingZero(n: nat)
    requires n > 0
    ensures Decimal(n)[0] != '0'
  {
    if n >= 10 {
      NoLeadingZero(n / 10);
      assert Decimal(n)[0] == Decimal(n / 10)[0];
    }
  }

  /** An integer prints as digits without leading zeros, behind a minus sign exactly when it is negative. */
  lemma IntPrints(i: int)
    ensures var text := Format(Int(i));
            text != ""
            && (i == 0 ==> text == "0") && (i > 0 ==> AllDigits(text) && text[0] != '0')
            && (i < 0 ==> text[0] == '-' && |text| > 1 && AllDigits(text[1..]) && text[1] != '0')
  {
    if i > 0 {
      NoLeadingZero(i);
    } else if i < 0 {
      NoLeadingZero(-i);
      assert Format(Int(i))[1..] == Decimal(-i);
    }
  }

  // ----- endpoint parameters -----

  predicate IsLetterOrUnderscore(c: char) {
    'a' <= c <= 'z' || 'A' <= c <= 'Z' || c == '_'
  }

  predicate IsIdentifier(s: string) {
    s != "" && IsLetterOrUnderscore(s[0])
    && forall i :: 0 < i < |s| ==> IsLetterOrUnderscore(s[i]) || IsDigit(s[i])
  }

  /** `$` in the identifier pattern also matches just before one final newline. */
  predicate ValidName(s: string) {
    IsIdentifier(s) || (s != "" && s[|s| - 1] == '\n' && IsIdentifier(s[..|s| - 1]))
  }

  /** The letters, the underscore and the digits of ASCII, by number. */
  predicate IsWordNumber(n: int, first: bool) {
    65 <= n <= 90 || 97 <= n <= 122 || n == 95 || (!first && 48 <= n <= 57)
  }

  predicate IsWord(s: string) {
    s != "" && forall i :: 0 <= i < |s| ==> IsWordNumber(s[i] as int, i == 0)
  }

  /** A name is valid exactly when it is a word of these that begins with no digit, a final line break aside. */
  lemma ValidExactly(s: string)
    ensures ValidName(s) <==> IsWord(s) || (s != "" && s[|s| - 1] as int == 10 && IsWord(s[..|s| - 1]))
  {
    IdentifierExactly(s);
    if s != "" {
      IdentifierExactly(s[..|s| - 1]);
    }
  }

  lemma IdentifierExactly(s: string)
    ensures IsIdentifier(s) <==> IsWord(s)
  {
    if IsWord(s) {
      forall i | 0 < i < |s|
        ensures IsLetterOrUnderscore(s[i]) || IsDigit(s[i])
      {
        assert IsWordNumber(s[i] as int, i == 0);
      }
      assert IsWordNumber(s[0] as int, true);
    }
  }

  predicate IsParameterKey(key: string) {
    |key| >= 2 && key[..2] == "p_"
  }

  /** The text reads back as the last value the first n arguments give for the name. */
  ghost predicate IsBound(args: seq<(string, string)>, n: nat, name: string, text: string)
    requires n <= |args|
  {
    exists i :: 0 <= i < n && args[i].0 == "p_" + name && (forall j :: i < j < n ==> args[j].0 != args[i].0)
                && ReadValue(text) == Some((Str(args[i].1), ""))
  }

  lemma BoundNow(args: seq<(string, string)>, n: nat, name: string)
    requires n < |args| && args[n].0 == "p_" + name
    ensures IsBound(args, n + 1, name, Format(Str(args[n].1)))
  {
    FormatReadsBack(Str(args[n].1), "");
    assert Format(Str(args[n].1)) + "" == Format(Str(args[n].1));
  }

  lemma BoundBefore(args: seq<(string, string)>, n: nat, name: string, text: string)
    requires n < |args| && IsBound(args, n, name, text) && args[n].0 != "p_" + name
    ensures IsBound(args, n + 1, name, text)
  {
  }

  lemma OtherName(key: string, name: string)
    requires IsParameterKey(key) && name != key[2..]
    ensures key != "p_" + name
  {
    assert ("p_" + name)[2..] == name;
  }

  /**
   Extracts the `p_` arguments of a request. It fails exactly when one of their
   names is not an identifier; otherwise every name is bound to a literal that reads
   back as the last value given for it.
   */
  method ParametersFromRequest(args: seq<(string, string)>) returns (r: Result<map<string, string>, string>)
    ensures r.Failure? <==> exists i :: 0 <= i < |args| && IsParameterKey(args[i].0) && !ValidName(args[i].0[2..])
    ensures r.Success? ==>
              forall name :: name in r.value <==> exists i :: 0 <= i < |args| && args[i].0 == "p_" + name
    ensures r.Success? ==> forall name :: name in r.value ==> IsBound(args, |args|, name, r.value[name])
  {
    var parameters: map<string, string> := map[];
    for n := 0 to |args|
      invariant forall i :: 0 <= i < n && IsParameterKey(args[i].0) ==> ValidName(args[i].0[2..])
      invariant forall name :: name in parameters <==> exists i :: 0 <= i < n && args[i].0 == "p_" + name
      invariant forall name :: name in parameters ==> IsBound(args, n, name, parameters[name])
    {
      var (key, value) := args[n];
      ghost var before := parameters;
      if IsParameterKey(key) {
        var name := key[2..];
        assert key == "p_" + name;
        if !ValidName(name) {
          return Failure("Invalid parameter name: " + name);
        }
        BoundNow(args, n, name);
        parameters := parameters[name := Format(Str(value))];
      }
      forall name | name in before && !(IsParameterKey(key) && name == key[2..])
        ensures IsBound(args, n + 1, name, before[name])
      {
        if IsParameterKey(key) {
          OtherName(key, name);
        }
        BoundBefore(args, n, name, before[name]);
      }
    }
    return Success(parameters);
  }
}
