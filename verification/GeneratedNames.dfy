/**
 Names made unique with numeric suffixes: the columns of a result (`fetch_columns`) and
 the slugs of dashboards (`generate_slug`).
 */
module GeneratedNames {
  import opened Text

  // ----- columns -----

  datatype Column = Column(name: string, friendlyName: string, dataType: Option<string>)

  type Described = seq<(string, Option<string>)>

  /** The next name, and the counter of duplicates after it. */
  function NextName(names: seq<string>, counter: nat, name: string): (string, nat) {
    if name in names then (name + Decimal(counter), counter + 1) else (name, counter)
  }

  function Names(columns: Described): (r: (seq<string>, nat))
    ensures |r.0| == |columns|
  {
    if columns == [] then ([], 1)
    else
      var (names, counter) := Names(columns[..|columns| - 1]);
      var (name, next) := NextName(names, counter, columns[|columns| - 1].0);
      (names + [name], next)
  }

  predicate Distinct(names: seq<string>) {
    forall i, j :: 0 <= i < j < |names| ==> names[i] != names[j]
  }

  /** How many of the columns are renamed. */
  function Renamed(columns: Described): nat {
    if columns == [] then 0
    else
      var n := |columns| - 1;
      Renamed(columns[..n]) + if columns[n].0 in Names(columns[..n]).0 then 1 else 0
  }

  lemma {:induction false} CounterCounts(columns: Described)
    ensures Names(columns).1 == 1 + Renamed(columns)
  {
    if columns != [] {
      CounterCounts(columns[..|columns| - 1]);
    }
  }

  /**
   A column keeps its own name exactly when no name before it is the same; otherwise it
   gets the number of columns renamed so far, itself included, appended.
   */
  lemma {:induction false} NameExactly(columns: Described, i: nat)
    requires i < |columns|
    ensures var names := Names(columns).0;
            |names| == |columns| && names[..i] == Names(columns[..i]).0
            && names[i] == if columns[i].0 in names[..i] then columns[i].0 + Decimal(1 + Renamed(columns[..i]))
                           else columns[i].0
  {
    var n := |columns| - 1;
    if i < n {
      NameExactly(columns[..n], i);
      assert columns[..n][..i] == columns[..i];
      assert Names(columns).0[..i] == Names(columns[..n]).0[..i];
    } else {
      CounterCounts(columns[..n]);
    }
  }

  /** No name is another one (or itself) with a positive number appended. */
  ghost predicate NumberFree(own: set<string>) {
    forall x, y, n: nat :: x in own && y in own && n > 0 ==> x != y + Decimal(n)
  }

  ghost predicate Over(columns: Described, own: set<string>) {
    forall i :: 0 <= i < |columns| ==> columns[i].0 in own
  }

  /** Every name is its column's own, or its column's own with a counter value below the bound. */
  ghost predicate OwnOrNumbered(columns: Described, names: seq<string>, bound: nat) {
    |names| == |columns|
    && forall i :: 0 <= i < |names| ==>
                     names[i] == columns[i].0 || exists k: nat :: 0 < k < bound && names[i] == columns[i].0 + Decimal(k)
  }

  /** Two different numbers behind number-free names make different names. */
  lemma NumberedDiffer(own: set<string>, y: string, k: nat, x: string, c: nat)
    requires NumberFree(own) && x in own && y in own && 0 < k < c
    ensures y + Decimal(k) != x + Decimal(c)
  {
    if y + Decimal(k) == x + Decimal(c) {
      LongerNumeral(k, c);
      var n := |y| - |x|;
      assert y == (x + Decimal(c))[..|y|] == x + Decimal(c)[..n];
      if n == 0 {
        StemIsInjective(x, k, c);
      } else {
        var d := NumeralPrefix(c, n);
      }
    }
  }

  lemma NumberedIsNew(columns: Described, own: set<string>, names: seq<string>, counter: nat, name: string)
    requires NumberFree(own) && Over(columns, own) && name in own && counter > 0
    requires OwnOrNumbered(columns, names, counter)
    ensures name + Decimal(counter) !in names
  {
    forall i | 0 <= i < |names|
      ensures names[i] != name + Decimal(counter)
    {
      if names[i] != columns[i].0 {
        var k: nat :| 0 < k < counter && names[i] == columns[i].0 + Decimal(k);
        NumberedDiffer(own, columns[i].0, k, name, counter);
      }
    }
  }

  lemma NextNameIsNew(
    front: Described, own: set<string>, names: seq<string>, counter: nat, column: (string, Option<string>))
    requires NumberFree(own) && Over(front, own) && column.0 in own && counter > 0
    requires Distinct(names) && OwnOrNumbered(front, names, counter)
    ensures var (name, next) := NextName(names, counter, column.0);
            Distinct(names + [name]) && OwnOrNumbered(front + [column], names + [name], next)
  {
    NumberedIsNew(front, own, names, counter, column.0);
    var (name, next) := NextName(names, counter, column.0);
    var all, columns := names + [name], front + [column];
    forall i | 0 <= i < |all|
      ensures all[i] == columns[i].0 || exists k: nat :: 0 < k < next && all[i] == columns[i].0 + Decimal(k)
    {
      if i < |names| && names[i] != front[i].0 {
        var k: nat :| 0 < k < counter && names[i] == front[i].0 + Decimal(k);
        assert all[i] == columns[i].0 + Decimal(k);
      }
    }
  }

  /** On names without numbered pairs every generated name is new. */
  lemma {:induction false} NamesAreDistinct(columns: Described, own: set<string>)
    requires NumberFree(own) && Over(columns, own)
    ensures Distinct(Names(columns).0) && OwnOrNumbered(columns, Names(columns).0, Names(columns).1)
    ensures Names(columns).1 > 0
  {
    if columns != [] {
      var n := |columns| - 1;
      var front := columns[..n];
      NamesAreDistinct(front, own);
      NextNameIsNew(front, own, Names(front).0, Names(front).1, columns[n]);
      assert front + [columns[n]] == columns;
      NamesSnoc(front, columns[n]);
    }
  }

  /** In particular when no name ends in a digit. */
  lemma DigitFreeNames(own: set<string>)
    requires forall x :: x in own ==> !EndsInDigit(x)
    ensures NumberFree(own)
  {
    forall x, y, n: nat | x in own && y in own && n > 0
      ensures x != y + Decimal(n)
    {
      NumberedEndsInDigit(y, n);
    }
  }

  lemma NamesSnoc(front: Described, column: (string, Option<string>))
    ensures var (names, counter) := Names(front);
            var (name, next) := NextName(names, counter, column.0);
            Names(front + [column]) == (names + [name], next)
  {
    assert (front + [column])[..|front|] == front;
  }

  function Repeated(first: string, name: string, times: nat, t: Option<string>): (columns: Described)
    ensures |columns| == times + 1
  {
    if times == 0 then [(first, t)] else Repeated(first, name, times - 1, t) + [(name, t)]
  }

  /** Repeating a column numbers it through, up to the name of the column in front. */
  lemma {:induction false} RepeatedNames(first: string, name: string, times: nat, t: Option<string>)
    requires first != name
    ensures var (names, counter) := Names(Repeated(first, name, times, t));
            names[0] == first && (times > 0 ==> name in names)
            && counter == (if times == 0 then 1 else times)
            && (times > 1 ==> names[times] == name + Decimal(times - 1))
  {
    if times == 0 {
      NamesSnoc([], (first, t));
      assert [] + [(first, t)] == [(first, t)] && Names([]).0 == [];
    } else {
      RepeatedNames(first, name, times - 1, t);
      NamesSnoc(Repeated(first, name, times - 1, t), (name, t));
    }
  }

  lemma RepeatedCollides(name: string, n: nat, t: Option<string>)
    requires n > 0
    ensures !Distinct(Names(Repeated(name + Decimal(n), name, n + 1, t)).0)
  {
    var first := name + Decimal(n);
    assert |first| > |name|;
    RepeatedNames(first, name, n + 1, t);
    var names := Names(Repeated(first, name, n + 1, t)).0;
    assert names[0] == names[n + 1];
  }

  lemma {:induction false} RepeatedOver(first: string, name: string, times: nat, t: Option<string>, own: set<string>)
    requires first in own && name in own
    ensures Over(Repeated(first, name, times, t), own)
  {
    if times > 0 {
      RepeatedOver(first, name, times - 1, t, own);
    }
  }

  /** A numbered pair of names has a result in which they collide. */
  lemma NumberedPair(own: set<string>, t: Option<string>) returns (columns: Described)
    requires !NumberFree(own)
    ensures Over(columns, own) && !Distinct(Names(columns).0)
  {
    var x, y, n: nat :| x in own && y in own && n > 0 && x == y + Decimal(n);
    columns := Repeated(x, y, n + 1, t);
    RepeatedCollides(y, n, t);
    RepeatedOver(x, y, n + 1, t, own);
  }

  /**
   The names of every result over these column names are pairwise distinct exactly when
   none of them is another one with a number appended.
   */
  lemma DistinctIffNumberFree(own: set<string>)
    ensures NumberFree(own) <==> forall columns: Described :: Over(columns, own) ==> Distinct(Names(columns).0)
  {
    if NumberFree(own) {
      forall columns: Described | Over(columns, own)
        ensures Distinct(Names(columns).0)
      {
        NamesAreDistinct(columns, own);
      }
    } else {
      var columns := NumberedPair(own, None);
    }
  }

  /** `dict(zip(names, row))`. */
  function RowDict<T>(names: seq<string>, row: seq<T>): map<string, T> {
    if names == [] || row == [] then map[]
    else if |names| <= |row| then RowDict(names[..|names| - 1], row)[names[|names| - 1] := row[|names| - 1]]
    else RowDict(names[..|row|], row)
  }

  lemma {:induction false} RowDictEntries<T>(names: seq<string>, row: seq<T>)
    requires |names| <= |row| && Distinct(names)
    ensures |RowDict(names, row)| == |names|
    ensures forall k :: k in RowDict(names, row) <==> k in names
    ensures forall i :: 0 <= i < |names| ==> names[i] in RowDict(names, row) && RowDict(names, row)[names[i]] == row[i]
  {
    if names != [] {
      RowDictEntries(names[..|names| - 1], row);
      assert names[|names| - 1] !in names[..|names| - 1];
    }
  }

  lemma WithOneMore<K, V>(m: map<K, V>, k: K, v: V)
    ensures |m[k := v]| == |m| + if k in m then 0 else 1
  {
    assert m[k := v].Keys == m.Keys + {k};
    assert k in m ==> m[k := v].Keys == m.Keys;
    assert |m[k := v].Keys| == |m[k := v]| && |m.Keys| == |m|;
  }

  lemma {:induction false} RowDictKeys<T>(names: seq<string>, row: seq<T>)
    requires |names| <= |row|
    ensures forall k :: k in RowDict(names, row) <==> k in names
    ensures |RowDict(names, row)| <= |names| && (|RowDict(names, row)| == |names| ==> Distinct(names))
  {
    if names != [] {
      var n := |names| - 1;
      var front := RowDict(names[..n], row);
      RowDictKeys(names[..n], row);
      WithOneMore(front, names[n], row[n]);
    }
  }

  /** Every cell of the row has an entry of its own under its column's name. */
  ghost predicate KeepsCells<T>(names: seq<string>, row: seq<T>)
    requires |names| == |row|
  {
    |RowDict(names, row)| == |row|
    && forall i :: 0 <= i < |row| ==> names[i] in RowDict(names, row) && RowDict(names, row)[names[i]] == row[i]
  }

  lemma KeepsCellsIffDistinct<T>(names: seq<string>, row: seq<T>)
    requires |names| == |row|
    ensures KeepsCells(names, row) <==> Distinct(names)
  {
    RowDictKeys(names, row);
    if Distinct(names) {
      RowDictEntries(names, row);
    }
  }

  /** So turning rows into dicts by these names never loses a cell exactly when no name is another one numbered. */
  lemma NoCellIsLost<T>(own: set<string>, cell: T)
    ensures NumberFree(own)
            <==> forall columns: Described, row: seq<T> :: Over(columns, own) && |row| == |columns| ==>
                                                            KeepsCells(Names(columns).0, row)
  {
    if NumberFree(own) {
      forall columns: Described, row: seq<T> | Over(columns, own) && |row| == |columns|
        ensures KeepsCells(Names(columns).0, row)
      {
        NamesAreDistinct(columns, own);
        KeepsCellsIffDistinct(Names(columns).0, row);
      }
    } else {
      var columns := NumberedPair(own, None);
      var row := seq(|columns|, _ => cell);
      KeepsCellsIffDistinct(Names(columns).0, row);
    }
  }

  method FetchColumns(columns: Described) returns (newColumns: seq<Column>)
    ensures |newColumns| == |columns|
    ensures forall i :: 0 <= i < |columns| ==>
                          newColumns[i] == Column(Names(columns).0[i], Names(columns).0[i], columns[i].1)
  {
    var columnNames: seq<string> := [];
    var duplicatesCounter := 1;
    newColumns := [];
    for n := 0 to |columns|
      invariant (columnNames, duplicatesCounter) == Names(columns[..n])
      invariant |newColumns| == n
      invariant forall i :: 0 <= i < n ==> newColumns[i] == Column(columnNames[i], columnNames[i], columns[i].1)
    {
      assert columns[..n + 1][..n] == columns[..n];
      var columnName := columns[n].0;
      if columnName in columnNames {
        columnName := columnName + Decimal(duplicatesCounter);
        duplicatesCounter := duplicatesCounter + 1;
      }
      columnNames := columnNames + [columnName];
      newColumns := newColumns + [Column(columnName, columnName, columns[n].1)];
    }
    assert columns[..|columns|] == columns;
  }

  // ----- slugs -----

  /** The slug tried after k refusals. */
  function Candidate(base: string, k: nat): string {
    if k == 0 then base else base + "_" + Decimal(k)
  }

  lemma CandidatesDiffer(base: string, j: nat, k: nat)
    requires j != k
    ensures Candidate(base, j) != Candidate(base, k)
  {
    if j > 0 && k > 0 && Candidate(base, j) == Candidate(base, k) {
      StemIsInjective(base + "_", j, k);
    }
    assert j == 0 ==> |Candidate(base, k)| > |base|;
    assert k == 0 ==> |Candidate(base, j)| > |base|;
  }

  lemma SubsetIsNotLarger(small: set<string>, large: set<string>)
    requires small <= large
    ensures |small| <= |large|
  {
    assert large == small + (large - small);
  }

  /**
   `base` is the slug of the dashboard's name. The search ends after at most one lookup
   more than there are slugs, with the first free candidate.
   */
  method GenerateSlug(existing: set<string>, base: string) returns (slug: string, lookups: nat)
    ensures slug !in existing
    ensures 1 <= lookups <= |existing| + 1
    ensures slug == if lookups == 1 then base else base + "_" + Decimal(lookups - 1)
    ensures slug == Candidate(base, lookups - 1) && forall k :: 0 <= k < lookups - 1 ==> Candidate(base, k) in existing
  {
    slug := base;
    var tries := 1;
    ghost var refused: set<string> := {};
    while slug in existing
      invariant tries >= 1 && slug == Candidate(base, tries - 1)
      invariant forall k :: 0 <= k < tries - 1 ==> Candidate(base, k) in existing
      invariant forall s :: s in refused <==> exists k :: 0 <= k < tries - 1 && s == Candidate(base, k)
      invariant |refused| == tries - 1 && refused <= existing
      decreases |existing| - |refused|
    {
      assert slug !in refused by {
        forall k | 0 <= k < tries - 1
          ensures Candidate(base, k) != slug
        {
          CandidatesDiffer(base, k, tries - 1);
        }
      }
      refused := refused + {slug};
      SubsetIsNotLarger(refused, existing);
      slug := base + "_" + Decimal(tries);
      tries := tries + 1;
    }
    SubsetIsNotLarger(refused, existing);
    lookups := tries;
  }
}
