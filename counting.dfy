/**
 * The counting aggregations of the script: `Series.value_counts()` and
 * `groupby([...]).size().unstack(fill_value=0)`. Group keys are columns whose
 * cells may be missing; both pandas operations leave missing keys out.
 */
module Counting {
  import opened Common

  /** How many entries of `xs` carry the key `k`: the reference definition for every count below. */
  function Count<K(==)>(xs: seq<Option<K>>, k: K): (n: nat)
    ensures n <= |xs|
    ensures n == 0 <==> Some(k) !in xs
  {
    if |xs| == 0 then 0
    else
      assert xs == xs[..|xs| - 1] + [xs[|xs| - 1]];
      Count(xs[..|xs| - 1], k) + (if xs[|xs| - 1] == Some(k) then 1 else 0)
  }

  /** How many entries of `xs` are not missing. */
  function Present<K>(xs: seq<Option<K>>): (n: nat)
    ensures n <= |xs|
  {
    if |xs| == 0 then 0
    else Present(xs[..|xs| - 1]) + (if xs[|xs| - 1].Some? then 1 else 0)
  }

  lemma CountSnoc<K>(xs: seq<Option<K>>, x: Option<K>, k: K)
    ensures Count(xs + [x], k) == Count(xs, k) + (if x == Some(k) then 1 else 0)
  {
    assert (xs + [x])[..|xs|] == xs;
  }

  lemma PresentSnoc<K>(xs: seq<Option<K>>, x: Option<K>)
    ensures Present(xs + [x]) == Present(xs) + (if x.Some? then 1 else 0)
  {
    assert (xs + [x])[..|xs|] == xs;
  }

  /** A table of counts: one `(key, count)` entry per key. */
  type Tally<K> = seq<(K, nat)>

  function Keys<K>(t: Tally<K>): (ks: seq<K>)
    ensures |ks| == |t|
  {
    if |t| == 0 then [] else [t[0].0] + Keys(t[1..])
  }

  predicate Distinct<K(==)>(ks: seq<K>)
  {
    forall i, j :: 0 <= i < j < |ks| ==> ks[i] != ks[j]
  }

  /** The count of `k` in `t`, 0 when `t` has no entry for it (the fill value). */
  function Lookup<K(==)>(t: Tally<K>, k: K): nat
  {
    if |t| == 0 then 0 else if t[0].0 == k then t[0].1 else Lookup(t[1..], k)
  }

  /** The sum of the counts of `t`. */
  function Total<K>(t: Tally<K>): nat
  {
    if |t| == 0 then 0 else t[0].1 + Total(t[1..])
  }

  lemma KeysCons<K>(t: Tally<K>)
    requires |t| > 0
    ensures Keys(t) == [t[0].0] + Keys(t[1..])
  {
  }

  lemma DistinctCons<K>(k: K, ks: seq<K>)
    ensures Distinct([k] + ks) <==> k !in ks && Distinct(ks)
  {
    var s := [k] + ks;
    assert forall i :: 0 <= i < |ks| ==> s[i + 1] == ks[i];
    if k !in ks && Distinct(ks) {
      forall i, j | 0 <= i < j < |s| ensures s[i] != s[j] {
        if i > 0 { assert s[i] == ks[i - 1] && s[j] == ks[j - 1]; }
        else { assert s[j] == ks[j - 1]; }
      }
    }
    if Distinct(s) {
      forall i, j | 0 <= i < j < |ks| ensures ks[i] != ks[j] {
        assert s[i + 1] != s[j + 1];
      }
      forall i | 0 <= i < |ks| ensures ks[i] != k {
        assert s[0] != s[i + 1];
      }
    }
  }

  /** One more occurrence of `k`: its entry is incremented, or a new entry with count 1 is appended. */
  function Bump<K(==,!new)>(t: Tally<K>, k: K): (u: Tally<K>)
    requires Distinct(Keys(t))
    ensures Distinct(Keys(u))
    ensures forall j :: j in Keys(u) <==> j in Keys(t) || j == k
    ensures forall j :: Lookup(u, j) == Lookup(t, j) + (if j == k then 1 else 0)
    ensures Total(u) == Total(t) + 1
  {
    if |t| == 0 then [(k, 1)]
    else
      KeysCons(t);
      DistinctCons(t[0].0, Keys(t[1..]));
      if t[0].0 == k then
        var u := [(k, t[0].1 + 1)] + t[1..];
        assert u[1..] == t[1..];
        KeysCons(u);
        u
      else
        var rest := Bump(t[1..], k);
        var u := [t[0]] + rest;
        assert u[1..] == rest;
        KeysCons(u);
        DistinctCons(t[0].0, Keys(rest));
        u
  }

  /**
   * `Series.value_counts()`: one pass over the column, bumping the entry of
   * each non-missing key. Each key present in the column gets one entry,
   * whose count is the number of entries carrying it; the counts add up to
   * the number of non-missing entries.
   */
  function ValueCounts<K(==,!new)>(xs: seq<Option<K>>): (t: Tally<K>)
    ensures Distinct(Keys(t))
    ensures forall k :: k in Keys(t) <==> Some(k) in xs
    ensures forall k :: Lookup(t, k) == Count(xs, k)
    ensures Total(t) == Present(xs)
  {
    if |xs| == 0 then []
    else
      var init := xs[..|xs| - 1];
      assert xs == init + [xs[|xs| - 1]];
      var t := ValueCounts(init);
      match xs[|xs| - 1]
      case None => t
      case Some(k) => Bump(t, k)
  }

  /** The labels of one pivot axis: each element once, in first-seen order. */
  function Unique<K(==,!new)>(ks: seq<K>): (d: seq<K>)
    ensures Distinct(d)
    ensures forall k :: k in d <==> k in ks
  {
    if |ks| == 0 then []
    else
      var init := ks[..|ks| - 1];
      assert ks == init + [ks[|ks| - 1]];
      var d := Unique(init);
      if ks[|ks| - 1] in d then d else d + [ks[|ks| - 1]]
  }

  function Firsts<A, B>(ks: seq<(A, B)>): (r: seq<A>)
    ensures |r| == |ks|
  {
    seq(|ks|, i requires 0 <= i < |ks| => ks[i].0)
  }

  function Seconds<A, B>(ks: seq<(A, B)>): (r: seq<B>)
    ensures |r| == |ks|
  {
    seq(|ks|, i requires 0 <= i < |ks| => ks[i].1)
  }

  /** A frame with row labels `index`, column labels `columns` and `cells[i][j]` at row i, column j. */
  datatype Grid<A, B> = Grid(index: seq<A>, columns: seq<B>, cells: seq<seq<nat>>)

  predicate WellShaped<A, B>(g: Grid<A, B>)
  {
    |g.cells| == |g.index| && forall i :: 0 <= i < |g.index| ==> |g.cells[i]| == |g.columns|
  }

  /**
   * `.unstack(fill_value=0)` of a `(row, column)`-keyed count series: the
   * first key parts become the rows, the second the columns, and each cell
   * holds the count of its pair, 0 where the series has no entry.
   */
  function Unstack<A(==,!new), B(==,!new)>(sizes: Tally<(A, B)>): (g: Grid<A, B>)
    ensures WellShaped(g)
  {
    var index := Unique(Firsts(Keys(sizes)));
    var columns := Unique(Seconds(Keys(sizes)));
    Grid(index, columns,
      seq(|index|, i requires 0 <= i < |index| =>
        seq(|columns|, j requires 0 <= j < |columns| => Lookup(sizes, (index[i], columns[j])))))
  }

  ghost predicate HasRow<A, B(!new)>(pairs: seq<Option<(A, B)>>, a: A)
  {
    exists b :: Some((a, b)) in pairs
  }

  ghost predicate HasColumn<A(!new), B>(pairs: seq<Option<(A, B)>>, b: B)
  {
    exists a :: Some((a, b)) in pairs
  }

  lemma InFirsts<A, B>(ks: seq<(A, B)>, a: A)
    ensures a in Firsts(ks) <==> exists b :: (a, b) in ks
  {
    if a in Firsts(ks) {
      var i :| 0 <= i < |ks| && Firsts(ks)[i] == a;
      assert (a, ks[i].1) == ks[i];
    }
    if exists b :: (a, b) in ks {
      var b :| (a, b) in ks;
      var i :| 0 <= i < |ks| && ks[i] == (a, b);
      assert Firsts(ks)[i] == a;
    }
  }

  lemma InSeconds<A, B>(ks: seq<(A, B)>, b: B)
    ensures b in Seconds(ks) <==> exists a :: (a, b) in ks
  {
    if b in Seconds(ks) {
      var i :| 0 <= i < |ks| && Seconds(ks)[i] == b;
      assert (ks[i].0, b) == ks[i];
    }
    if exists a :: (a, b) in ks {
      var a :| (a, b) in ks;
      var i :| 0 <= i < |ks| && ks[i] == (a, b);
      assert Seconds(ks)[i] == b;
    }
  }

  /**
   * `groupby([first, second]).size().unstack(fill_value=0)` over a column of
   * key pairs (missing when either key is missing). The rows are exactly the
   * first keys that occur, the columns exactly the second keys, each once;
   * every cell holds the exact number of entries with its pair, and it is 0
   * exactly for the pairs that never occur.
   */
  function Pivot<A(==,!new), B(==,!new)>(pairs: seq<Option<(A, B)>>): (g: Grid<A, B>)
    ensures WellShaped(g)
    ensures Distinct(g.index) && Distinct(g.columns)
    ensures forall a :: a in g.index <==> HasRow(pairs, a)
    ensures forall b :: b in g.columns <==> HasColumn(pairs, b)
    ensures forall i, j :: 0 <= i < |g.index| && 0 <= j < |g.columns| ==>
              g.cells[i][j] == Count(pairs, (g.index[i], g.columns[j]))
    ensures forall i, j :: 0 <= i < |g.index| && 0 <= j < |g.columns| ==>
              (g.cells[i][j] == 0 <==> Some((g.index[i], g.columns[j])) !in pairs)
  {
    var sizes := ValueCounts(pairs);
    var g := Unstack(sizes);
    forall a ensures a in g.index <==> HasRow(pairs, a) {
      InFirsts(Keys(sizes), a);
    }
    forall b ensures b in g.columns <==> HasColumn(pairs, b) {
      InSeconds(Keys(sizes), b);
    }
    g
  }

  function SumRow(r: seq<nat>): nat
  {
    if |r| == 0 then 0 else SumRow(r[..|r| - 1]) + r[|r| - 1]
  }

  function SumGrid(cells: seq<seq<nat>>): nat
  {
    if |cells| == 0 then 0 else SumGrid(cells[..|cells| - 1]) + SumRow(cells[|cells| - 1])
  }

  /** Row `a` of the frame of exact pair counts, over the columns `bs`. */
  function CountRow<A(==), B(==)>(xs: seq<Option<(A, B)>>, a: A, bs: seq<B>): (r: seq<nat>)
    ensures |r| == |bs|
  {
    seq(|bs|, j requires 0 <= j < |bs| => Count(xs, (a, bs[j])))
  }

  function CountGrid<A(==), B(==)>(xs: seq<Option<(A, B)>>, rowKeys: seq<A>, bs: seq<B>): (c: seq<seq<nat>>)
    ensures |c| == |rowKeys|
  {
    seq(|rowKeys|, i requires 0 <= i < |rowKeys| => CountRow(xs, rowKeys[i], bs))
  }

  /** Whether the entry `x` is the pair `(a, b)` for some `b` in `bs`. */
  function HitsRow<A(==), B(==)>(x: Option<(A, B)>, a: A, bs: seq<B>): nat
  {
    if x.Some? && x.value.0 == a && x.value.1 in bs then 1 else 0
  }

  lemma {:induction false} CountRowSnoc<A, B>(xs: seq<Option<(A, B)>>, x: Option<(A, B)>, a: A, bs: seq<B>)
    requires Distinct(bs)
    ensures SumRow(CountRow(xs + [x], a, bs)) == SumRow(CountRow(xs, a, bs)) + HitsRow(x, a, bs)
  {
    if |bs| > 0 {
      var init := bs[..|bs| - 1];
      var last := bs[|bs| - 1];
      assert Distinct(init);
      CountRowSnoc(xs, x, a, init);
      assert CountRow(xs + [x], a, bs)[..|bs| - 1] == CountRow(xs + [x], a, init);
      assert CountRow(xs, a, bs)[..|bs| - 1] == CountRow(xs, a, init);
      CountSnoc(xs, x, (a, last));
      assert bs == init + [last];
      assert last !in init;
    }
  }

  /** Whether the entry `x` is a pair `(a, b)` with `a` in `rowKeys` and `b` in `bs`. */
  function HitsGrid<A(==), B(==)>(x: Option<(A, B)>, rowKeys: seq<A>, bs: seq<B>): nat
  {
    if x.Some? && x.value.0 in rowKeys && x.value.1 in bs then 1 else 0
  }

  lemma {:induction false} CountGridSnoc<A, B>(xs: seq<Option<(A, B)>>, x: Option<(A, B)>, rowKeys: seq<A>, bs: seq<B>)
    requires Distinct(rowKeys) && Distinct(bs)
    ensures SumGrid(CountGrid(xs + [x], rowKeys, bs)) == SumGrid(CountGrid(xs, rowKeys, bs)) + HitsGrid(x, rowKeys, bs)
  {
    if |rowKeys| > 0 {
      var init := rowKeys[..|rowKeys| - 1];
      var last := rowKeys[|rowKeys| - 1];
      assert Distinct(init);
      CountGridSnoc(xs, x, init, bs);
      assert CountGrid(xs + [x], rowKeys, bs)[..|rowKeys| - 1] == CountGrid(xs + [x], init, bs);
      assert CountGrid(xs, rowKeys, bs)[..|rowKeys| - 1] == CountGrid(xs, init, bs);
      CountRowSnoc(xs, x, last, bs);
      assert rowKeys == init + [last];
      assert last !in init;
    }
  }

  /** Labels `rowKeys` and `bs` that cover every pair of `xs` account for all its non-missing entries. */
  lemma {:induction false} CountGridTotal<A, B>(xs: seq<Option<(A, B)>>, rowKeys: seq<A>, bs: seq<B>)
    requires Distinct(rowKeys) && Distinct(bs)
    requires forall a, b :: Some((a, b)) in xs ==> a in rowKeys && b in bs
    ensures SumGrid(CountGrid(xs, rowKeys, bs)) == Present(xs)
  {
    if |xs| == 0 {
      assert forall i :: 0 <= i < |rowKeys| ==> SumRow(CountGrid(xs, rowKeys, bs)[i]) == 0 by {
        forall i | 0 <= i < |rowKeys| ensures SumRow(CountGrid(xs, rowKeys, bs)[i]) == 0 {
          ZeroRow(CountGrid(xs, rowKeys, bs)[i]);
        }
      }
      ZeroGrid(CountGrid(xs, rowKeys, bs));
    } else {
      var init := xs[..|xs| - 1];
      var x := xs[|xs| - 1];
      assert xs == init + [x];
      CountGridTotal(init, rowKeys, bs);
      CountGridSnoc(init, x, rowKeys, bs);
      PresentSnoc(init, x);
    }
  }

  lemma {:induction false} ZeroRow(r: seq<nat>)
    requires forall j :: 0 <= j < |r| ==> r[j] == 0
    ensures SumRow(r) == 0
  {
    if |r| > 0 { ZeroRow(r[..|r| - 1]); }
  }

  lemma {:induction false} ZeroGrid(c: seq<seq<nat>>)
    requires forall i :: 0 <= i < |c| ==> SumRow(c[i]) == 0
    ensures SumGrid(c) == 0
  {
    if |c| > 0 { ZeroGrid(c[..|c| - 1]); }
  }

  /** Conservation: the cells of a pivot add up to the number of entries with both keys present. */
  lemma PivotTotal<A(!new), B(!new)>(pairs: seq<Option<(A, B)>>)
    ensures SumGrid(Pivot(pairs).cells) == Present(pairs)
  {
    var g := Pivot(pairs);
    forall a, b | Some((a, b)) in pairs ensures a in g.index && b in g.columns {
      assert HasRow(pairs, a) && HasColumn(pairs, b);
    }
    CountGridTotal(pairs, g.index, g.columns);
    var c := CountGrid(pairs, g.index, g.columns);
    forall i | 0 <= i < |g.index| ensures g.cells[i] == c[i] {
      assert |g.cells[i]| == |c[i]|;
    }
    assert g.cells == c;
  }
}
