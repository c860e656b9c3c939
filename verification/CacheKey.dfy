/**
 The cache key of a query (`gen_query_hash`) and the annotation that is put in front
 of a query before it is sent to the database (`annotate_query`).
 */
module CacheKey {
  import opened Text

  /** The characters `str.split()` splits at. */
  predicate IsSpace(c: char) {
    '\t' <= c <= '\r' || '\U{001C}' <= c <= ' ' || c == '\U{0085}' || c == '\U{00A0}' || c == '\U{1680}'
    || '\U{2000}' <= c <= '\U{200A}' || c == '\U{2028}' || c == '\U{2029}' || c == '\U{202F}'
    || c == '\U{205F}' || c == '\U{3000}'
  }

  predicate AllSpace(s: string) {
    forall i :: 0 <= i < |s| ==> IsSpace(s[i])
  }

  /**
   The length of the shortest text that ends in the comment closer, or None when a
   line break or the end of the text comes first: `.*?` does not match a line break.
   */
  function CommentEnd(s: string): (r: Option<nat>)
    ensures r.Some? ==> 2 <= r.value <= |s|
  {
    if |s| < 2 then None
    else if s[0] == '*' && s[1] == '/' then Some(2)
    else if s[0] == '\n' then None
    else
      match CommentEnd(s[1..])
      case None => None
      case Some(n) => Some(n + 1)
  }

  predicate CloserAt(s: string, i: nat) {
    i + 1 < |s| && s[i] == '*' && s[i + 1] == '/'
  }

  /** The pattern stops at the first closer, and never looks past a line break. */
  lemma {:induction false} CommentEndIsFirstCloser(s: string, n: nat)
    requires n >= 2
    ensures CommentEnd(s) == Some(n) <==>
            CloserAt(s, n - 2) && forall i :: 0 <= i < n - 2 ==> s[i] != '\n' && !CloserAt(s, i)
  {
    if |s| >= 2 && !CloserAt(s, 0) && n > 2 {
      CommentEndIsFirstCloser(s[1..], n - 1);
      assert forall i: nat :: CloserAt(s[1..], i) <==> CloserAt(s, i + 1);
      assert forall i :: 1 <= i < |s| ==> s[i] == s[1..][i - 1];
    }
  }

  predicate OpensComment(s: string) {
    |s| >= 2 && s[0] == '/' && s[1] == '*' && CommentEnd(s[2..]).Some?
  }

  /** `COMMENTS_REGEX.sub("", s)`. */
  function StripComments(s: string): string
    decreases |s|
  {
    if s == "" then ""
    else if OpensComment(s) then StripComments(s[2 + CommentEnd(s[2..]).value..])
    else [s[0]] + StripComments(s[1..])
  }

  /** `"".join(s.split())`. */
  function Compact(s: string): string {
    if s == "" then "" else (if IsSpace(s[0]) then "" else [s[0]]) + Compact(s[1..])
  }

  function NormalForm(sql: string): string {
    Compact(StripComments(sql))
  }

  /** `digest` stands for the md5 of the lower-cased text; nothing is assumed about it. */
  function GenQueryHash(digest: string -> string, sql: string): string {
    digest(NormalForm(sql))
  }

  type Metadata = seq<(string, string)>

  function Entries(metadata: Metadata): seq<string> {
    if metadata == [] then []
    else [metadata[0].0 + ": " + metadata[0].1] + Entries(metadata[1..])
  }

  /** The annotation comment with the blank that separates it from the query. */
  function Comment(text: string): string {
    "/* " + text + " */ "
  }

  /** `should` is the runner's `should_annotate_query` flag. */
  function AnnotateQuery(should: bool, query: string, metadata: Metadata): string {
    if should then Comment(JoinWith(", ", Entries(metadata))) + query else query
  }

  // ----- texts in front that leave no trace -----

  lemma {:induction false} CompactConcat(a: string, b: string)
    ensures Compact(a + b) == Compact(a) + Compact(b)
  {
    if a == "" {
      assert a + b == b;
    } else {
      assert (a + b)[1..] == a[1..] + b;
      CompactConcat(a[1..], b);
    }
  }

  lemma {:induction false} CompactEmpty(s: string)
    ensures Compact(s) == "" <==> AllSpace(s)
  {
    if s != "" {
      CompactEmpty(s[1..]);
      assert s == [s[0]] + s[1..];
      assert AllSpace(s) <==> IsSpace(s[0]) && AllSpace(s[1..]);
    }
  }

  lemma {:induction false} CommentEndExtends(a: string, b: string)
    requires CommentEnd(a).Some?
    ensures CommentEnd(a + b) == CommentEnd(a)
  {
    if !(a[0] == '*' && a[1] == '/') {
      CommentEndExtends(a[1..], b);
      assert (a + b)[1..] == a[1..] + b;
    }
  }

  /** A text whose comments leave only blanks is stripped on its own, whatever follows. */
  lemma {:induction false} BlankPrefix(a: string, b: string)
    requires AllSpace(StripComments(a))
    ensures StripComments(a + b) == StripComments(a) + StripComments(b)
    decreases |a|
  {
    if a == "" {
      assert a + b == b;
    } else if OpensComment(a) {
      var n := CommentEnd(a[2..]).value;
      CommentStep(a, b);
      BlankPrefix(a[2 + n..], b);
    } else {
      BlankStep(a, b);
      BlankPrefix(a[1..], b);
      Associative([a[0]], StripComments(a[1..]), StripComments(b));
    }
  }

  lemma BlankStep(a: string, b: string)
    requires a != "" && !OpensComment(a) && AllSpace(StripComments(a))
    ensures StripComments(a) == [a[0]] + StripComments(a[1..]) && AllSpace(StripComments(a[1..]))
    ensures StripComments(a + b) == [a[0]] + StripComments(a[1..] + b)
  {
    var rest := StripComments(a[1..]);
    TextStep(a);
    assert IsSpace(StripComments(a)[0]);
    assert forall i :: 0 <= i < |rest| ==> rest[i] == StripComments(a)[i + 1];
    assert (a + b)[1..] == a[1..] + b && (a + b)[0] == a[0];
    TextStep(a + b);
  }

  lemma CommentStep(a: string, b: string)
    requires OpensComment(a)
    ensures StripComments(a) == StripComments(a[2 + CommentEnd(a[2..]).value..])
    ensures StripComments(a + b) == StripComments(a[2 + CommentEnd(a[2..]).value..] + b)
  {
    var n := CommentEnd(a[2..]).value;
    CommentGoes(a, n);
    CommentGoesBefore(a, b, n);
  }

  lemma CommentGoesBefore(a: string, b: string, n: nat)
    requires |a| >= 2 && a[0] == '/' && a[1] == '*' && CommentEnd(a[2..]) == Some(n)
    ensures StripComments(a + b) == StripComments(a[2 + n..] + b)
  {
    CommentEndExtends(a[2..], b);
    DropFromSum(a, b, 2);
    DropFromSum(a, b, 2 + n);
    CommentGoes(a + b, n);
  }

  lemma CommentGoes(s: string, n: nat)
    requires |s| >= 2 && s[0] == '/' && s[1] == '*' && CommentEnd(s[2..]) == Some(n)
    ensures StripComments(s) == StripComments(s[2 + n..])
  {
  }

  lemma TextStep(s: string)
    requires s != "" && !OpensComment(s)
    ensures StripComments(s) == [s[0]] + StripComments(s[1..])
  {
  }

  lemma PrefixIsInvisible(prefix: string, query: string)
    requires NormalForm(prefix) == ""
    ensures NormalForm(prefix + query) == NormalForm(query)
  {
    CompactEmpty(StripComments(prefix));
    BlankPrefix(prefix, query);
    CompactConcat(StripComments(prefix), StripComments(query));
  }

  /**
   A text put in front of queries leaves every cache key alone exactly when its own
   normal form is empty.
   */
  lemma InvisiblePrefixes(prefix: string)
    ensures (forall query: string :: NormalForm(prefix + query) == NormalForm(query)) <==> NormalForm(prefix) == ""
  {
    if forall query: string :: NormalForm(prefix + query) == NormalForm(query) {
      assert prefix + "" == prefix;
      assert NormalForm(prefix + "") == NormalForm("");
    }
    if NormalForm(prefix) == "" {
      forall query: string {
        PrefixIsInvisible(prefix, query);
      }
    }
  }

  // ----- comments and blanks in the middle -----

  /** No comment can begin in the text, whatever follows it. */
  predicate Plain(s: string) {
    forall i :: 0 <= i < |s| && s[i] == '/' ==> i + 1 < |s| && s[i + 1] != '*'
  }

  lemma {:induction false} PlainPrefix(a: string, rest: string)
    requires Plain(a)
    ensures StripComments(a + rest) == a + StripComments(rest)
  {
    if a == "" {
      assert a + rest == rest;
    } else {
      assert (a + rest)[1..] == a[1..] + rest && (a + rest)[0] == a[0];
      assert |a| > 1 ==> (a + rest)[1] == a[1];
      TextStep(a + rest);
      PlainPrefix(a[1..], rest);
      Associative([a[0]], a[1..], StripComments(rest));
      assert [a[0]] + a[1..] == a;
    }
  }

  /** The key of a text without comments is the text without its white space. */
  lemma PlainKey(s: string)
    requires Plain(s)
    ensures NormalForm(s) == Filter((c: char) => !IsSpace(c), s)
  {
    PlainPrefix(s, "");
    assert s + "" == s && s + StripComments("") == s;
    CompactIsFilter(s);
  }

  lemma SpacedKey(a: string, b: string)
    requires forall i :: 0 <= i < |a| ==> !IsSpace(a[i]) && a[i] != '/'
    requires forall i :: 0 <= i < |b| ==> !IsSpace(b[i]) && b[i] != '/'
    ensures NormalForm(a + " " + b) == a + b
  {
    var visible := (c: char) => !IsSpace(c);
    PlainKey(a + " " + b);
    FilterConcat(visible, a + " ", b);
    FilterConcat(visible, a, " ");
    FilterAll(visible, a);
    FilterAll(visible, b);
    FilterNone(visible, " ");
  }

  lemma {:induction false} CompactIsFilter(s: string)
    ensures Compact(s) == Filter((c: char) => !IsSpace(c), s)
  {
    if s != "" {
      CompactIsFilter(s[1..]);
    }
  }

  /** A one-line comment between two parts of a query, with or without blanks, leaves no trace in the key. */
  lemma CommentsAreInvisible(before: string, text: string, after: string)
    requires Plain(before) && Harmless(text)
    ensures NormalForm(before + (Comment(text) + after)) == NormalForm(before + after)
  {
    HarmlessComment(text);
    PlainPrefix(before, Comment(text) + after);
    PlainPrefix(before, after);
    PrefixIsInvisible(Comment(text), after);
    CompactConcat(before, StripComments(Comment(text) + after));
    CompactConcat(before, StripComments(after));
  }

  // ----- the annotation -----

  /** The text contains neither the comment closer nor a line break. */
  predicate Harmless(s: string) {
    forall i :: 0 <= i < |s| ==> s[i] != '\n' && (s[i] == '*' && i + 1 < |s| ==> s[i + 1] != '/')
  }

  lemma {:induction false} HarmlessEnd(s: string, rest: string)
    requires Harmless(s)
    ensures CommentEnd(s + " */" + rest) == Some(|s| + 3)
  {
    var t := s + " */" + rest;
    if s == "" {
      assert t[1..] == "*/" + rest && t[0] == ' ';
    } else {
      assert t[1..] == s[1..] + " */" + rest;
      assert t[0] == s[0] && t[1] == (if |s| > 1 then s[1] else ' ');
      HarmlessEnd(s[1..], rest);
    }
  }

  lemma HarmlessComment(text: string)
    requires Harmless(text)
    ensures NormalForm(Comment(text)) == ""
  {
    var c := Comment(text);
    assert c[2..] == (" " + text) + " */" + " ";
    HarmlessEnd(" " + text, " ");
    assert c[2 + |text| + 4..] == " ";
    assert StripComments(c) == StripComments(" ");
    assert StripComments(" ") == " " + StripComments("");
    assert Compact(" ") == "";
  }

  lemma {:induction false} HarmlessJoin(parts: seq<string>)
    requires forall i :: 0 <= i < |parts| ==> Harmless(parts[i])
    ensures Harmless(JoinWith(", ", parts))
  {
    if |parts| > 1 {
      var tail := JoinWith(", ", parts[1..]);
      HarmlessJoin(parts[1..]);
      var s := parts[0] + ", " + tail;
      assert forall i :: |parts[0]| + 2 <= i < |s| ==> s[i] == tail[i - |parts[0]| - 2];
      assert forall i :: 0 <= i < |parts[0]| ==> s[i] == parts[0][i];
    }
  }

  lemma {:induction false} HarmlessEntries(metadata: Metadata)
    requires forall i :: 0 <= i < |metadata| ==> Harmless(metadata[i].0) && Harmless(metadata[i].1)
    ensures |Entries(metadata)| == |metadata|
    ensures forall i :: 0 <= i < |metadata| ==> Harmless(Entries(metadata)[i])
  {
    if metadata != [] {
      var (k, v) := metadata[0];
      var e := k + ": " + v;
      assert forall i :: 0 <= i < |k| ==> e[i] == k[i];
      assert forall i :: |k| + 2 <= i < |e| ==> e[i] == v[i - |k| - 2];
      HarmlessEntries(metadata[1..]);
    }
  }

  /**
   Annotating a query does not change its cache key, so a stored result whose text is
   the annotated query still hashes to the stored hash of the bare query.
   */
  lemma AnnotationKeepsKey(digest: string -> string, should: bool, query: string, metadata: Metadata)
    requires forall i :: 0 <= i < |metadata| ==> Harmless(metadata[i].0) && Harmless(metadata[i].1)
    ensures GenQueryHash(digest, AnnotateQuery(should, query, metadata)) == GenQueryHash(digest, query)
  {
    if should {
      HarmlessEntries(metadata);
      HarmlessJoin(Entries(metadata));
      HarmlessComment(JoinWith(", ", Entries(metadata)));
      PrefixIsInvisible(Comment(JoinWith(", ", Entries(metadata))), query);
    }
  }

  // ----- which metadata leaves no trace -----

  const CLOSING := " */ "

  /**
   Whether a text, followed by the end of the annotation, disappears with the comments and
   blanks: read from inside a comment, or behind one that has been closed.
   */
  predicate Vanishes(inside: bool, s: string)
    decreases |s|
  {
    if s == "" then inside
    else if inside then
      s[0] != '\n' && if CloserAt(s, 0) then Vanishes(false, s[2..]) else Vanishes(true, s[1..])
    else if IsSpace(s[0]) then Vanishes(false, s[1..])
    else |s| >= 2 && s[0] == '/' && s[1] == '*' && Vanishes(true, s[2..])
  }

  lemma {:induction false} InsideVanishes(s: string)
    ensures var t := s + CLOSING;
            CommentEnd(t).Some? && AllSpace(StripComments(t[CommentEnd(t).value..])) <==> Vanishes(true, s)
    decreases |s|
  {
    var t := s + CLOSING;
    if s == "" {
      ClosingEnds();
    } else if s[0] != '\n' && CloserAt(s, 0) {
      DropFromSum(s, CLOSING, 2);
      OutsideVanishes(s[2..]);
    } else if s[0] != '\n' {
      DropFromSum(s, CLOSING, 1);
      InsideVanishes(s[1..]);
      InsideStep(t);
    }
  }

  lemma InsideStep(t: string)
    requires |t| >= 2 && t[0] != '\n' && !CloserAt(t, 0)
    ensures CommentEnd(t).Some? <==> CommentEnd(t[1..]).Some?
    ensures CommentEnd(t).Some? ==> t[CommentEnd(t).value..] == t[1..][CommentEnd(t[1..]).value..]
  {
    DropTwice(t, 1);
  }

  lemma DropTwice(t: string, n: nat)
    requires n <= |t|
    ensures forall m: nat :: m + n <= |t| ==> t[n..][m..] == t[n + m..]
  {
  }

  lemma ClosingEnds()
    ensures CommentEnd("" + CLOSING) == Some(3) && StripComments(("" + CLOSING)[3..]) == " "
  {
    assert "" + CLOSING == CLOSING && CLOSING[1..] == "*/ " && CLOSING[3..] == " ";
    TextStep(" ");
  }

  lemma {:induction false} OutsideVanishes(s: string)
    ensures AllSpace(StripComments(s + CLOSING)) <==> Vanishes(false, s)
    decreases |s|
  {
    var t := s + CLOSING;
    if s == "" {
      ClosingStays();
    } else if IsSpace(s[0]) {
      TextStep(t);
      DropFromSum(s, CLOSING, 1);
      SpaceCons(s[0], StripComments(t[1..]));
      OutsideVanishes(s[1..]);
    } else if |s| >= 2 && s[0] == '/' && s[1] == '*' {
      DropFromSum(s, CLOSING, 2);
      InsideVanishes(s[2..]);
      OpenedVanishes(t);
    } else {
      TextStep(t);
      SpaceCons(s[0], StripComments(t[1..]));
    }
  }

  lemma OpenedVanishes(t: string)
    requires |t| >= 2 && t[0] == '/' && t[1] == '*'
    ensures var rest := t[2..];
            AllSpace(StripComments(t))
            <==> CommentEnd(rest).Some? && AllSpace(StripComments(rest[CommentEnd(rest).value..]))
  {
    var rest := t[2..];
    if CommentEnd(rest).Some? {
      var n := CommentEnd(rest).value;
      DropTwice(t, 2);
      assert rest[n..] == t[2 + n..];
      CommentGoes(t, n);
    } else {
      TextStep(t);
      SpaceCons(t[0], StripComments(t[1..]));
    }
  }

  lemma SpaceCons(c: char, s: string)
    ensures AllSpace([c] + s) <==> IsSpace(c) && AllSpace(s)
  {
    assert forall i :: 0 <= i < |s| ==> s[i] == ([c] + s)[i + 1];
    assert ([c] + s)[0] == c;
  }

  lemma ClosingStays()
    ensures !AllSpace(StripComments("" + CLOSING))
  {
    assert "" + CLOSING == CLOSING && CLOSING[1..] == "*/ ";
    TextStep(CLOSING);
    TextStep("*/ ");
    SpaceCons(' ', StripComments("*/ "));
    SpaceCons('*', StripComments("*/ "[1..]));
  }

  /**
   A metadata text leaves the key of every query alone exactly when nothing is left of it:
   it has no line break inside a comment, and between a closer and the next opener only
   blanks. Without a closer that means without a line break.
   */
  lemma AnnotationIsInvisible(text: string)
    ensures (forall query: string :: NormalForm(Comment(text) + query) == NormalForm(query)) <==> Vanishes(true, text)
    ensures (forall i: nat :: !CloserAt(text, i)) ==> (Vanishes(true, text) <==> '\n' !in text)
  {
    InvisiblePrefixes(Comment(text));
    CompactEmpty(StripComments(Comment(text)));
    OpenedVanishes(Comment(text));
    assert Comment(text)[2..] == (" " + text) + CLOSING;
    InsideVanishes(" " + text);
    assert (" " + text)[1..] == text;
    if forall i: nat :: !CloserAt(text, i) {
      NoCloser(text);
    }
  }

  lemma {:induction false} NoCloser(s: string)
    requires forall i: nat :: !CloserAt(s, i)
    ensures Vanishes(true, s) <==> '\n' !in s
  {
    if s != "" {
      assert forall i: nat :: CloserAt(s[1..], i) ==> CloserAt(s, i + 1);
      NoCloser(s[1..]);
      assert s == [s[0]] + s[1..];
    }
  }

  // ----- what a closer lets through -----

  /**
   A comment closer inside the metadata ends the annotation early: what follows it
   becomes part of the key, so the bare query and the annotated one differ.
   */
  lemma CloserInMetadataLeaks(before: string, after: string, query: string)
    requires Harmless(before)
    ensures NormalForm(Comment(before + " */" + after) + query) == NormalForm(after + " */ " + query)
    ensures after != "" && after[0] != '/' && !IsSpace(after[0]) ==>
              NormalForm(Comment(before + " */" + after)) != NormalForm("")
  {
    LeakedStrip(before, after, query);
    LeakedStrip(before, after, "");
    var c := Comment(before + " */" + after);
    assert c + "" == c;
    if after != "" && after[0] != '/' && !IsSpace(after[0]) {
      TextStep(after + " */ " + "");
      assert NormalForm(c)[0] == after[0];
    }
  }

  lemma LeakedStrip(before: string, after: string, query: string)
    requires Harmless(before)
    ensures StripComments(Comment(before + " */" + after) + query) == StripComments(after + " */ " + query)
  {
    var rest := after + " */ " + query;
    var start := " " + before + " */";
    LeakedText(before, after, query);
    HarmlessEnd(" " + before, rest);
    DropPrefix("/*", start + rest);
    DropPrefix("/*" + start, rest);
    Associative("/*", start, rest);
  }

  lemma LeakedText(before: string, after: string, query: string)
    ensures Comment(before + " */" + after) + query == "/*" + (" " + before + " */" + (after + " */ " + query))
  {
    assert "/* " == "/*" + " ";
    Associative("/*", " ", before + " */" + after);
    Associative(" ", before + " */", after);
    Associative(" ", before, " */");
    Nested("/*", " " + before + " */", after, " */ ", query);
  }

  lemma Nested(a: string, b: string, c: string, d: string, e: string)
    ensures a + (b + c) + d + e == a + (b + (c + d + e))
  {
  }
}
