/**
 Text helpers shared by the other modules: optional values, decimal numerals and
 the facts about numeric suffixes that every generated name relies on.
 */
module Text {

  datatype Option<+T> = None | Some(value: T)

  datatype Result<+T, +E> = Success(value: T) | Failure(error: E)

  predicate IsDigit(c: char) {
    '0' <= c <= '9'
  }

  function DigitValue(c: char): nat
    requires IsDigit(c)
  {
    c as int - '0' as int
  }

  function DigitChar(d: nat): (c: char)
    requires d < 10
    ensures IsDigit(c) && DigitValue(c) == d
  {
    ('0' as int + d) as char
  }

  predicate AllDigits(s: string) {
    forall i :: 0 <= i < |s| ==> IsDigit(s[i])
  }

  /** The decimal numeral of a number, without leading zeros. */
  function Decimal(n: nat): (s: string)
    ensures |s| > 0 && AllDigits(s)
  {
    if n < 10 then [DigitChar(n)] else Decimal(n / 10) + [DigitChar(n % 10)]
  }

  /** The number a string of digits denotes. */
  function NumeralValue(s: string): nat
    requires AllDigits(s)
  {
    if s == "" then 0 else 10 * NumeralValue(s[..|s| - 1]) + DigitValue(s[|s| - 1])
  }

  /** Reading a printed number gives the number back, so numerals are injective. */
  lemma {:induction false} DecimalReadsBack(n: nat)
    ensures NumeralValue(Decimal(n)) == n
  {
    if n >= 10 {
      DecimalReadsBack(n / 10);
      var s := Decimal(n);
      assert s[..|s| - 1] == Decimal(n / 10);
    }
  }

  predicate EndsInDigit(s: string) {
    |s| > 0 && IsDigit(s[|s| - 1])
  }

  /** With one fixed stem of any shape, different numbers give different names. */
  lemma StemIsInjective(stem: string, m: nat, n: nat)
    requires stem + Decimal(m) == stem + Decimal(n)
    ensures m == n
  {
    assert Decimal(m) == (stem + Decimal(m))[|stem|..];
    assert Decimal(n) == (stem + Decimal(n))[|stem|..];
    DecimalReadsBack(m);
    DecimalReadsBack(n);
  }

  /** A numbered name never equals a name that does not end in a digit. */
  lemma NumberedEndsInDigit(stem: string, n: nat)
    ensures EndsInDigit(stem + Decimal(n))
  {
    var s := stem + Decimal(n);
    assert s[|s| - 1] == Decimal(n)[|Decimal(n)| - 1];
  }

  /** Longer numerals denote greater numbers. */
  lemma {:induction false} LongerNumeral(m: nat, n: nat)
    requires m <= n
    ensures |Decimal(m)| <= |Decimal(n)|
  {
    if m >= 10 {
      LongerNumeral(m / 10, n / 10);
    }
  }

  /** A prefix of the numeral of a positive number is the numeral of a positive number. */
  lemma {:induction false} NumeralPrefix(n: nat, k: nat) returns (m: nat)
    requires n > 0 && 0 < k <= |Decimal(n)|
    ensures m > 0 && Decimal(n)[..k] == Decimal(m)
  {
    if k == |Decimal(n)| {
      m := n;
    } else {
      m := NumeralPrefix(n / 10, k);
      assert Decimal(n)[..k] == Decimal(n / 10)[..k];
    }
  }

  /** Python's `sep.join(parts)`. */
  function JoinWith(sep: string, parts: seq<string>): string {
    if parts == [] then ""
    else if |parts| == 1 then parts[0]
    else parts[0] + sep + JoinWith(sep, parts[1..])
  }

  lemma {:induction false} JoinConcat(separator: string, a: seq<string>, b: seq<string>)
    requires a != [] && b != []
    ensures JoinWith(separator, a + b) == JoinWith(separator, a) + separator + JoinWith(separator, b)
  {
    if |a| == 1 {
      assert (a + b)[1..] == b;
    } else {
      JoinConcat(separator, a[1..], b);
      assert (a + b)[1..] == a[1..] + b;
      Associative(a[0] + separator, JoinWith(separator, a[1..]) + separator, JoinWith(separator, b));
      Associative(a[0] + separator, JoinWith(separator, a[1..]), separator);
    }
  }

  /** The pieces made from the elements of a list, in order. */
  function FlatMap<A, B>(f: A -> seq<B>, xs: seq<A>): seq<B> {
    if xs == [] then [] else f(xs[0]) + FlatMap(f, xs[1..])
  }

  lemma {:induction false} FlatMapConcat<A, B>(f: A -> seq<B>, xs: seq<A>, ys: seq<A>)
    ensures FlatMap(f, xs + ys) == FlatMap(f, xs) + FlatMap(f, ys)
  {
    if xs == [] {
      assert xs + ys == ys;
    } else {
      FlatMapConcat(f, xs[1..], ys);
      assert (xs + ys)[1..] == xs[1..] + ys;
      Associative(f(xs[0]), FlatMap(f, xs[1..]), FlatMap(f, ys));
    }
  }

  lemma FlatMapOne<A, B>(f: A -> seq<B>, x: A)
    ensures FlatMap(f, [x]) == f(x)
  {
    assert FlatMap(f, [x]) == f(x) + FlatMap(f, []);
  }

  lemma Associative<A>(a: seq<A>, b: seq<A>, c: seq<A>)
    ensures a + (b + c) == (a + b) + c
  {
  }

  lemma DropPrefix<A>(prefix: seq<A>, rest: seq<A>)
    ensures (prefix + rest)[|prefix|..] == rest
  {
  }

  lemma DropFromSum<A>(a: seq<A>, b: seq<A>, n: nat)
    requires n <= |a|
    ensures (a + b)[n..] == a[n..] + b
  {
  }

  lemma LastOfSum<A>(prefix: seq<A>, rest: seq<A>)
    requires rest != []
    ensures (prefix + rest)[|prefix + rest| - 1] == rest[|rest| - 1]
  {
  }

  lemma SplitAt<A>(s: seq<A>, n: nat)
    requires n <= |s|
    ensures s[..n] + s[n..] == s
  {
  }

  /** The elements that satisfy the predicate, in order. */
  function Filter<A>(p: A -> bool, xs: seq<A>): seq<A> {
    if xs == [] then [] else (if p(xs[0]) then [xs[0]] else []) + Filter(p, xs[1..])
  }

  lemma {:induction false} FilterConcat<A>(p: A -> bool, xs: seq<A>, ys: seq<A>)
    ensures Filter(p, xs + ys) == Filter(p, xs) + Filter(p, ys)
  {
    if xs == [] {
      assert xs + ys == ys;
    } else {
      FilterConcat(p, xs[1..], ys);
      assert (xs + ys)[1..] == xs[1..] + ys;
      Associative(if p(xs[0]) then [xs[0]] else [], Filter(p, xs[1..]), Filter(p, ys));
    }
  }

  lemma {:induction false} FilterNone<A>(p: A -> bool, xs: seq<A>)
    ensures Filter(p, xs) == [] <==> forall i :: 0 <= i < |xs| ==> !p(xs[i])
  {
    if xs != [] {
      FilterNone(p, xs[1..]);
      assert forall i :: 0 < i < |xs| ==> xs[i] == xs[1..][i - 1];
    }
  }

  lemma FilterOne<A>(p: A -> bool, x: A)
    ensures Filter(p, [x]) == if p(x) then [x] else []
  {
    assert Filter(p, [x]) == (if p(x) then [x] else []) + Filter(p, []);
  }

  lemma {:induction false} FilterAll<A>(p: A -> bool, xs: seq<A>)
    requires forall i :: 0 <= i < |xs| ==> p(xs[i])
    ensures Filter(p, xs) == xs
  {
    if xs != [] {
      FilterAll(p, xs[1..]);
      assert xs == [xs[0]] + xs[1..];
    }
  }

  /** Elements the filter drops may be replaced by others it drops. */
  lemma {:induction false} FilterSame<A>(p: A -> bool, xs: seq<A>, ys: seq<A>)
    requires |xs| == |ys| && forall i :: 0 <= i < |xs| ==> xs[i] == ys[i] || (!p(xs[i]) && !p(ys[i]))
    ensures Filter(p, xs) == Filter(p, ys)
  {
    if xs != [] {
      FilterSame(p, xs[1..], ys[1..]);
    }
  }
}
