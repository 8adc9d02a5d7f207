/** Ranking the modes after a search: each mode's total is the sum of its
    ratings over every desired pattern, and the modes are listed by
    descending total, equal totals keeping the order in which the modes
    were first met. */
module ModeRanking {
  import opened WordSearch

  /** One dict of the search result, read as (mode, ratings) entries. */
  type Row = seq<(string, seq<int>)>

  /** The dict from mode to total, as an association list in insertion
      order. */
  type Totals = seq<(string, int)>

  /** `sum` of a list of ratings. */
  function Sum(s: seq<int>): int
  {
    if s == [] then 0 else Sum(s[..|s| - 1]) + s[|s| - 1]
  }

  /** The modes of a totals list, in order. */
  function Keys(t: Totals): (ks: seq<string>)
  {
    seq(|t|, i requires 0 <= i < |t| => t[i].0)
  }

  lemma KeysConcat(a: Totals, b: Totals)
    ensures Keys(a + b) == Keys(a) + Keys(b)
  {
    assert |Keys(a + b)| == |Keys(a) + Keys(b)|;
    forall i | 0 <= i < |a| + |b| ensures Keys(a + b)[i] == (Keys(a) + Keys(b))[i] {
      if i >= |a| {
        assert (a + b)[i] == b[i - |a|];
      }
    }
  }

  lemma KeysCons(t: Totals)
    requires t != []
    ensures Keys(t) == [t[0].0] + Keys(t[1..])
  {
    assert t == [t[0]] + t[1..];
    KeysConcat([t[0]], t[1..]);
  }

  /** `d.get(m, 0)`. */
  function Get(t: Totals, m: string): int
  {
    if t == [] then 0 else if t[0].0 == m then t[0].1 else Get(t[1..], m)
  }

  /** `d[m] = d.get(m, 0) + v`: a known mode keeps its place and a new one
      is added last. */
  function AddTo(t: Totals, m: string, v: int): Totals
  {
    if t == [] then [(m, v)]
    else if t[0].0 == m then [(m, t[0].1 + v)] + t[1..]
    else [t[0]] + AddTo(t[1..], m, v)
  }

  /** The totals after the entries of one dict are added, in order. */
  function AddRow(t: Totals, row: Row): Totals
  {
    if row == [] then t
    else
      var k := |row| - 1;
      AddTo(AddRow(t, row[..k]), row[k].0, Sum(row[k].1))
  }

  /** The totals after every dict is added, in order. */
  function TotalsOf(rows: seq<Row>): Totals
  {
    if rows == [] then []
    else
      var k := |rows| - 1;
      AddRow(TotalsOf(rows[..k]), rows[k])
  }

  // ---------------------------------------------------------------------
  // Reference definitions
  // ---------------------------------------------------------------------

  /** The sum of the ratings of the entries of `row` for mode `m`. */
  function RowSum(row: Row, m: string): int
  {
    if row == [] then 0
    else
      var k := |row| - 1;
      RowSum(row[..k], m) + (if row[k].0 == m then Sum(row[k].1) else 0)
  }

  /** The sum of the ratings for mode `m` over every dict. */
  function ModeSum(rows: seq<Row>, m: string): int
  {
    if rows == [] then 0
    else
      var k := |rows| - 1;
      ModeSum(rows[..k], m) + RowSum(rows[k], m)
  }

  /** The modes of the entries of `rows`, dict after dict. */
  function AllModes(rows: seq<Row>): seq<string>
  {
    if rows == [] then []
    else
      var k := |rows| - 1;
      AllModes(rows[..k]) + RowModes(rows[k])
  }

  function RowModes(row: Row): (ms: seq<string>)
    ensures |ms| == |row| && forall j :: 0 <= j < |row| ==> ms[j] == row[j].0
  {
    if row == [] then [] else RowModes(row[..|row| - 1]) + [row[|row| - 1].0]
  }

  /** The first occurrence of each element, in order. */
  function FirstSeen(ms: seq<string>): seq<string>
  {
    if ms == [] then []
    else
      var k := |ms| - 1;
      var d := FirstSeen(ms[..k]);
      if ms[k] in d then d else d + [ms[k]]
  }

  /** Inserts `x` after every entry whose total is at least `x`'s. */
  function Insert(s: Totals, x: (string, int)): Totals
  {
    if s == [] then [x]
    else if s[0].1 >= x.1 then [s[0]] + Insert(s[1..], x)
    else [x] + s
  }

  /** `sorted(items, key=total, reverse=True)`: a stable sort by
      descending total, as insertion of each entry in turn. */
  function SortDesc(t: Totals): Totals
  {
    if t == [] then []
    else
      var k := |t| - 1;
      Insert(SortDesc(t[..k]), t[k])
  }

  predicate NonIncreasing(s: Totals)
  {
    forall a, b :: 0 <= a < b < |s| ==> s[a].1 >= s[b].1
  }

  /** The entries of `s` whose total is `v`, in order. */
  function WithTotal(s: Totals, v: int): Totals
  {
    if s == [] then []
    else (if s[0].1 == v then [s[0]] else []) + WithTotal(s[1..], v)
  }

  // ---------------------------------------------------------------------
  // The totals
  // ---------------------------------------------------------------------

  lemma {:induction false} GetAddTo(t: Totals, m: string, v: int, m': string)
    ensures Get(AddTo(t, m, v), m') == Get(t, m') + (if m == m' then v else 0)
  {
    if t != [] && t[0].0 != m {
      GetAddTo(t[1..], m, v, m');
    }
  }

  lemma {:induction false} KeysAddTo(t: Totals, m: string, v: int)
    ensures Keys(AddTo(t, m, v)) == Keys(t) + (if m in Keys(t) then [] else [m])
  {
    if t != [] {
      KeysCons(t);
      KeysCons(AddTo(t, m, v));
      if t[0].0 != m {
        KeysAddTo(t[1..], m, v);
      }
    }
  }

  lemma {:induction false} AddRowFacts(t: Totals, row: Row, m: string)
    ensures Get(AddRow(t, row), m) == Get(t, m) + RowSum(row, m)
    ensures Keys(AddRow(t, row)) == FirstSeenFrom(Keys(t), RowModes(row))
  {
    if row != [] {
      var k := |row| - 1;
      AddRowFacts(t, row[..k], m);
      GetAddTo(AddRow(t, row[..k]), row[k].0, Sum(row[k].1), m);
      KeysAddTo(AddRow(t, row[..k]), row[k].0, Sum(row[k].1));
      assert RowModes(row)[..k] == RowModes(row[..k]);
    }
  }

  /** The elements of `more` not yet in `known` (nor earlier in `more`)
      appended to `known`, in order. */
  function FirstSeenFrom(known: seq<string>, more: seq<string>): seq<string>
  {
    if more == [] then known
    else
      var k := |more| - 1;
      var d := FirstSeenFrom(known, more[..k]);
      if more[k] in d then d else d + [more[k]]
  }

  lemma {:induction false} FirstSeenFromEmpty(more: seq<string>)
    ensures FirstSeenFrom([], more) == FirstSeen(more)
  {
    if more != [] {
      FirstSeenFromEmpty(more[..|more| - 1]);
    }
  }

  lemma {:induction false} FirstSeenFromConcat(known: seq<string>, a: seq<string>, b: seq<string>)
    ensures FirstSeenFrom(FirstSeenFrom(known, a), b) == FirstSeenFrom(known, a + b)
  {
    if b != [] {
      var k := |b| - 1;
      FirstSeenFromConcat(known, a, b[..k]);
      assert (a + b)[..|a| + k] == a + b[..k];
    } else {
      assert a + b == a;
    }
  }

  /** Each mode's total is the sum of its ratings over every dict, and the
      modes appear in the order they were first met. */
  lemma {:induction false} TotalsAreSums(rows: seq<Row>, m: string)
    ensures Get(TotalsOf(rows), m) == ModeSum(rows, m)
    ensures Keys(TotalsOf(rows)) == FirstSeen(AllModes(rows))
  {
    if rows == [] {
    } else {
      var k := |rows| - 1;
      TotalsAreSums(rows[..k], m);
      AddRowFacts(TotalsOf(rows[..k]), rows[k], m);
      FirstSeenFromConcat([], AllModes(rows[..k]), RowModes(rows[k]));
      FirstSeenFromEmpty(AllModes(rows[..k]));
      FirstSeenFromEmpty(AllModes(rows));
    }
  }

  /** The first-seen list holds each element of its input once. */
  lemma {:induction false} FirstSeenFacts(ms: seq<string>)
    ensures Distinct(FirstSeen(ms))
    ensures forall m :: m in FirstSeen(ms) <==> m in ms
  {
    if ms != [] {
      var k := |ms| - 1;
      FirstSeenFacts(ms[..k]);
      assert ms == ms[..k] + [ms[k]];
    }
  }

  // ---------------------------------------------------------------------
  // The stable sort
  // ---------------------------------------------------------------------

  lemma {:induction false} WithTotalConcat(a: Totals, b: Totals, v: int)
    ensures WithTotal(a + b, v) == WithTotal(a, v) + WithTotal(b, v)
  {
    if a == [] {
      assert a + b == b;
    } else {
      var head := if a[0].1 == v then [a[0]] else [];
      calc {
        WithTotal(a + b, v);
        { assert (a + b)[0] == a[0]; assert (a + b)[1..] == a[1..] + b; }
        head + WithTotal(a[1..] + b, v);
        { WithTotalConcat(a[1..], b, v); }
        head + (WithTotal(a[1..], v) + WithTotal(b, v));
        (head + WithTotal(a[1..], v)) + WithTotal(b, v);
      }
    }
  }

  lemma WithTotalCons(e: (string, int), r: Totals, v: int)
    ensures WithTotal([e] + r, v) == (if e.1 == v then [e] else []) + WithTotal(r, v)
  {
    assert ([e] + r)[0] == e;
    assert ([e] + r)[1..] == r;
  }

  lemma {:induction false} WithTotalBelow(s: Totals, v: int)
    requires forall i :: 0 <= i < |s| ==> s[i].1 < v
    ensures WithTotal(s, v) == []
  {
    if s != [] {
      WithTotalBelow(s[1..], v);
    }
  }

  /** Insertion adds exactly `x`. */
  lemma {:induction false} InsertMembers(s: Totals, x: (string, int))
    ensures multiset(Insert(s, x)) == multiset(s) + multiset{x}
    ensures forall e :: e in Insert(s, x) <==> e == x || e in s
  {
    if s != [] && s[0].1 >= x.1 {
      InsertMembers(s[1..], x);
      assert s == [s[0]] + s[1..];
    }
  }

  /** Insertion into a non-increasing list keeps it non-increasing. */
  lemma {:induction false} InsertSorted(s: Totals, x: (string, int))
    requires NonIncreasing(s)
    ensures NonIncreasing(Insert(s, x))
  {
    if s != [] && s[0].1 >= x.1 {
      var r := Insert(s[1..], x);
      InsertSorted(s[1..], x);
      InsertMembers(s[1..], x);
      assert Insert(s, x) == [s[0]] + r;
      forall b | 0 < b < |Insert(s, x)|
        ensures s[0].1 >= Insert(s, x)[b].1
      {
        assert r[b - 1] in r;
        if r[b - 1] != x {
          var i :| 0 <= i < |s[1..]| && s[1..][i] == r[b - 1];
          assert s[1 + i] == r[b - 1];
        }
      }
    }
  }

  /** Insertion puts `x` after every entry of the same total. */
  lemma {:induction false} InsertStable(s: Totals, x: (string, int), v: int)
    requires NonIncreasing(s)
    ensures WithTotal(Insert(s, x), v) == WithTotal(s, v) + (if x.1 == v then [x] else [])
  {
    if s == [] {
      WithTotalCons(x, [], v);
      assert [x] + [] == [x];
    } else if s[0].1 >= x.1 {
      InsertStable(s[1..], x, v);
      InsertStableStep(s, x, v);
    } else {
      assert Insert(s, x) == [x] + s;
      WithTotalBelow(s, x.1);
      WithTotalCons(x, s, v);
    }
  }

  /** The step of `InsertStable` past a first entry of larger or equal
      total. */
  lemma InsertStableStep(s: Totals, x: (string, int), v: int)
    requires s != [] && s[0].1 >= x.1
    requires WithTotal(Insert(s[1..], x), v) == WithTotal(s[1..], v) + (if x.1 == v then [x] else [])
    ensures WithTotal(Insert(s, x), v) == WithTotal(s, v) + (if x.1 == v then [x] else [])
  {
    var r := Insert(s[1..], x);
    assert Insert(s, x) == [s[0]] + r;
    WithTotalCons(s[0], r, v);
    WithTotalCons(s[0], s[1..], v);
    assert s == [s[0]] + s[1..];
  }

  lemma {:induction false} SortDescSorted(t: Totals)
    ensures NonIncreasing(SortDesc(t))
  {
    if t != [] {
      var k := |t| - 1;
      SortDescSorted(t[..k]);
      InsertSorted(SortDesc(t[..k]), t[k]);
    }
  }

  lemma {:induction false} SortDescPermutes(t: Totals)
    ensures multiset(SortDesc(t)) == multiset(t)
  {
    if t != [] {
      var k := |t| - 1;
      var p, x := t[..k], t[k];
      SortDescPermutes(p);
      InsertMembers(SortDesc(p), x);
      calc {
        multiset(SortDesc(t));
        multiset(Insert(SortDesc(p), x));
        multiset(SortDesc(p)) + multiset{x};
        multiset(p) + multiset{x};
        { assert t == p + [x]; }
        multiset(t);
      }
    }
  }

  lemma {:induction false} SortDescStable(t: Totals, v: int)
    ensures WithTotal(SortDesc(t), v) == WithTotal(t, v)
  {
    if t != [] {
      var k := |t| - 1;
      SortDescStable(t[..k], v);
      SortDescSorted(t[..k]);
      InsertStable(SortDesc(t[..k]), t[k], v);
      WithTotalConcat(t[..k], [t[k]], v);
      WithTotalCons(t[k], [], v);
      assert [t[k]] + [] == [t[k]];
      assert t == t[..k] + [t[k]];
    }
  }

  /** The sort gives a non-increasing permutation of its input in which
      the entries of each total keep their input order. */
  lemma SortDescFacts(t: Totals)
    ensures NonIncreasing(SortDesc(t))
    ensures multiset(SortDesc(t)) == multiset(t)
    ensures forall v :: WithTotal(SortDesc(t), v) == WithTotal(t, v)
  {
    SortDescSorted(t);
    SortDescPermutes(t);
    forall v
      ensures WithTotal(SortDesc(t), v) == WithTotal(t, v)
    {
      SortDescStable(t, v);
    }
  }

  // ---------------------------------------------------------------------
  // Keys of the sorted totals
  // ---------------------------------------------------------------------

  lemma DistinctSeqCons(ms: seq<string>)
    requires ms != []
    ensures Distinct(ms) <==> ms[0] !in ms[1..] && Distinct(ms[1..])
  {
    if ms[0] !in ms[1..] && Distinct(ms[1..]) {
      forall a, b | 0 <= a < b < |ms| ensures ms[a] != ms[b] {
        if a == 0 {
          assert ms[b] == ms[1..][b - 1];
        } else {
          assert ms[a] == ms[1..][a - 1] && ms[b] == ms[1..][b - 1];
        }
      }
    }
    if Distinct(ms) {
      forall a, b | 0 <= a < b < |ms| - 1 ensures ms[1..][a] != ms[1..][b] {
        assert ms[a + 1] != ms[b + 1];
      }
      forall i | 0 <= i < |ms| - 1 ensures ms[1..][i] != ms[0] {
        assert ms[0] != ms[i + 1];
      }
    }
  }

  lemma DistinctCons(t: Totals)
    requires t != []
    ensures Distinct(Keys(t)) <==> t[0].0 !in Keys(t[1..]) && Distinct(Keys(t[1..]))
  {
    KeysCons(t);
    DistinctSeqCons(Keys(t));
  }

  lemma {:induction false} GetSnoc(t: Totals, x: (string, int), m: string)
    requires x.0 !in Keys(t)
    ensures Get(t + [x], m) == if m == x.0 then x.1 else Get(t, m)
  {
    if t == [] {
      assert [x][1..] == [];
    } else {
      assert (t + [x])[1..] == t[1..] + [x];
      KeysCons(t);
      GetSnoc(t[1..], x, m);
    }
  }

  /** Inserting an entry with a new key keeps keys distinct and the other
      keys' totals. */
  lemma {:induction false} InsertKeys(s: Totals, x: (string, int), m: string)
    requires Distinct(Keys(s)) && x.0 !in Keys(s)
    ensures Distinct(Keys(Insert(s, x)))
    ensures m in Keys(Insert(s, x)) <==> m == x.0 || m in Keys(s)
    ensures Get(Insert(s, x), m) == if m == x.0 then x.1 else Get(s, m)
  {
    if s == [] {
      assert Keys([x]) == [x.0];
    } else if s[0].1 >= x.1 {
      var r := Insert(s[1..], x);
      KeysCons(s);
      DistinctCons(s);
      InsertKeys(s[1..], x, m);
      InsertKeys(s[1..], x, s[0].0);
      assert Insert(s, x) == [s[0]] + r;
      assert ([s[0]] + r)[1..] == r;
      KeysConcat([s[0]], r);
      assert Keys([s[0]]) == [s[0].0];
      DistinctCons([s[0]] + r);
    } else {
      assert Insert(s, x) == [x] + s;
      assert ([x] + s)[1..] == s;
      KeysConcat([x], s);
      assert Keys([x]) == [x.0];
      DistinctCons([x] + s);
    }
  }

  /** Sorting totals with distinct keys keeps every key and its total. */
  lemma {:induction false} SortDescKeys(t: Totals, m: string)
    requires Distinct(Keys(t))
    ensures Distinct(Keys(SortDesc(t)))
    ensures m in Keys(SortDesc(t)) <==> m in Keys(t)
    ensures Get(SortDesc(t), m) == Get(t, m)
  {
    if t != [] {
      var k := |t| - 1;
      var p, x := t[..k], t[k];
      LastKeyFresh(t);
      SortDescKeys(p, m);
      SortDescKeys(p, x.0);
      InsertKeys(SortDesc(p), x, m);
      GetSnoc(p, x, m);
      assert SortDesc(t) == Insert(SortDesc(p), x);
    }
  }

  /** The last entry of an association list with distinct keys has a key
      the others lack. */
  lemma LastKeyFresh(t: Totals)
    requires t != [] && Distinct(Keys(t))
    ensures var k := |t| - 1;
      && t == t[..k] + [t[k]]
      && Keys(t) == Keys(t[..k]) + [t[k].0]
      && Distinct(Keys(t[..k]))
      && t[k].0 !in Keys(t[..k])
  {
    var k := |t| - 1;
    assert t == t[..k] + [t[k]];
    KeysConcat(t[..k], [t[k]]);
    var ks, ps := Keys(t), Keys(t[..k]);
    assert t[k].0 !in ps by {
      forall i | 0 <= i < k ensures ps[i] != t[k].0 {
        assert ks[i] != ks[k];
      }
    }
    assert Distinct(ps) by {
      forall a, b | 0 <= a < b < k ensures ps[a] != ps[b] {
        assert ks[a] != ks[b];
      }
    }
  }

  /** With distinct keys, looking up the key of entry `i` gives its total. */
  lemma {:induction false} GetOfDistinct(t: Totals, i: int)
    requires Distinct(Keys(t)) && 0 <= i < |t|
    ensures Get(t, t[i].0) == t[i].1
  {
    if i > 0 {
      DistinctCons(t);
      assert Keys(t)[0] != Keys(t)[i];
      GetOfDistinct(t[1..], i - 1);
    }
  }

  // ---------------------------------------------------------------------
  // The ranking as the source performs it
  // ---------------------------------------------------------------------

  /** The (mode, ratings) entries of the result structure. */
  ghost function RatingRows(results: Results): (rows: seq<Row>)
    reads Objects(results)
    ensures |rows| == |results|
    ensures forall pi :: 0 <= pi < |results| ==> |rows[pi]| == |results[pi]|
    ensures forall pi, j :: 0 <= pi < |results| && 0 <= j < |results[pi]| ==>
      rows[pi][j] == (results[pi][j].0, results[pi][j].1.ratings)
  {
    seq(|results|, (pi: int) requires 0 <= pi < |results| reads Objects(results) =>
      seq(|results[pi]|, (j: int) requires 0 <= j < |results[pi]| reads Objects(results) =>
        assert results[pi][j].1 in Objects(results);
        (results[pi][j].0, results[pi][j].1.ratings)))
  }

  /** `sort_modes`: adds up every dict's ratings per mode, in order, then
      lists the modes by descending total. */
  method SortModes(results: Results) returns (order: seq<string>, totals: Totals)
    ensures totals == TotalsOf(RatingRows(results))
    ensures order == Keys(SortDesc(totals))
  {
    ghost var rows := RatingRows(results);
    totals := [];
    for pi := 0 to |results|
      invariant totals == TotalsOf(rows[..pi])
    {
      var result := results[pi];
      assert rows[..pi + 1][..pi] == rows[..pi];
      for j := 0 to |result|
        invariant totals == AddRow(TotalsOf(rows[..pi]), rows[pi][..j])
      {
        var (mode, modeResult) := result[j];
        assert rows[pi][..j + 1][..j] == rows[pi][..j];
        totals := AddTo(totals, mode, Sum(modeResult.ratings));
      }
      assert rows[pi][..|result|] == rows[pi];
    }
    assert rows[..|results|] == rows;
    order := Keys(SortDesc(totals));
  }

  /** What the ranking promises: every mode met in the results is listed
      once, each with the sum of its ratings over every dict; totals do
      not increase along the list; and modes of equal total keep the
      order in which they were first met. */
  lemma RankingFacts(rows: seq<Row>)
    ensures var totals := TotalsOf(rows);
      var order := Keys(SortDesc(totals));
      && Distinct(order)
      && (forall m :: m in order <==> m in AllModes(rows))
      && (forall m :: Get(totals, m) == ModeSum(rows, m))
      && (forall a, b :: 0 <= a < b < |order| ==> ModeSum(rows, order[a]) >= ModeSum(rows, order[b]))
      && (forall v :: WithTotal(SortDesc(totals), v) == WithTotal(totals, v))
  {
    var totals := TotalsOf(rows);
    var sorted := SortDesc(totals);
    var order := Keys(sorted);
    forall m
      ensures Get(totals, m) == ModeSum(rows, m)
    {
      TotalsAreSums(rows, m);
    }
    TotalsAreSums(rows, "");
    FirstSeenFacts(AllModes(rows));
    SortDescFacts(totals);
    forall m
      ensures m in order <==> m in AllModes(rows)
      ensures Get(sorted, m) == Get(totals, m)
    {
      SortDescKeys(totals, m);
    }
    SortDescKeys(totals, "");
    forall a, b | 0 <= a < b < |order|
      ensures ModeSum(rows, order[a]) >= ModeSum(rows, order[b])
    {
      GetOfDistinct(sorted, a);
      GetOfDistinct(sorted, b);
    }
  }
}
