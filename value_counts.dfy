/**
 * `value_counts` as the stats view uses it: the number of occurrences of
 * each distinct value of a list, as a map. The row order of the pandas
 * result is not modelled.
 */
module ValueCounts {

  /** How often each value occurs in `xs`; values that do not occur are absent. */
  function Counts<K(==, !new)>(xs: seq<K>): (m: map<K, nat>)
    ensures forall x :: x in m <==> x in xs
    ensures forall x :: x in m ==> m[x] == multiset(xs)[x] && m[x] >= 1
  {
    if xs == [] then map[]
    else
      var front := xs[..|xs| - 1];
      var last := xs[|xs| - 1];
      assert xs == front + [last];
      Bump(Counts(front), last)
  }

  /** One more occurrence of `x`. */
  function Bump<K>(m: map<K, nat>, x: K): (m': map<K, nat>)
    ensures m'.Keys == m.Keys + {x}
    ensures m'[x] == (if x in m then m[x] else 0) + 1
    ensures forall k :: k in m && k != x ==> m'[k] == m[k]
  {
    m[x := (if x in m then m[x] else 0) + 1]
  }

  /** No value occurs twice. */
  predicate NoDuplicates<K(==)>(ks: seq<K>)
  {
    forall i, j :: 0 <= i < j < |ks| ==> ks[i] != ks[j]
  }

  /** The distinct values of `xs`, in order of first occurrence: the keys of the count table; the table's row order is not modelled. */
  function Distinct<K(==, !new)>(xs: seq<K>): (ks: seq<K>)
    ensures forall x :: x in ks <==> x in xs
    ensures NoDuplicates(ks)
  {
    if xs == [] then []
    else
      var front := xs[..|xs| - 1];
      var last := xs[|xs| - 1];
      var ks := Distinct(front);
      if last in front then ks else ks + [last]
  }

  /** The sum of the counts of the keys `ks`. */
  function SumOver<K(!new)>(m: map<K, nat>, ks: seq<K>): nat
    requires forall k :: k in ks ==> k in m
  {
    if ks == [] then 0
    else SumOver(m, ks[..|ks| - 1]) + m[ks[|ks| - 1]]
  }

  /** Counting a key the list does not hold leaves the sum alone. */
  lemma {:induction false} SumOverOther<K(!new)>(m: map<K, nat>, ks: seq<K>, x: K)
    requires forall k :: k in ks ==> k in m
    requires x !in ks
    ensures SumOver(Bump(m, x), ks) == SumOver(m, ks)
  {
    if ks != [] {
      SumOverOther(m, ks[..|ks| - 1], x);
    }
  }

  /** Raising the count of a key the list holds once raises the sum by as much. */
  lemma {:induction false} SumOverBump<K(!new)>(m: map<K, nat>, ks: seq<K>, x: K)
    requires forall k :: k in ks ==> k in m
    requires NoDuplicates(ks) && x in ks
    ensures SumOver(Bump(m, x), ks) == SumOver(m, ks) + 1
  {
    var front := ks[..|ks| - 1];
    var last := ks[|ks| - 1];
    if last == x {
      assert x !in front by {
        forall i | 0 <= i < |front| ensures front[i] != x {
          assert front[i] == ks[i];
        }
      }
      SumOverOther(m, front, x);
    } else {
      assert x in front by {
        var i :| 0 <= i < |ks| && ks[i] == x;
        assert front[i] == x;
      }
      SumOverBump(m, front, x);
    }
  }

  /** Every element is counted once: summed over the distinct values, the counts give the length of the list. */
  lemma {:induction false} CountsTotal<K(!new)>(xs: seq<K>)
    ensures forall k :: k in Distinct(xs) ==> k in Counts(xs)
    ensures SumOver(Counts(xs), Distinct(xs)) == |xs|
  {
    if xs != [] {
      var front := xs[..|xs| - 1];
      var last := xs[|xs| - 1];
      var m := Counts(front);
      var ks := Distinct(front);
      CountsTotal(front);
      assert Counts(xs) == Bump(m, last);
      if last in front {
        assert Distinct(xs) == ks;
        SumOverBump(m, ks, last);
      } else {
        assert Distinct(xs) == ks + [last];
        assert (ks + [last])[..|ks|] == ks;
        SumOverOther(m, ks, last);
      }
    }
  }

  /** Counting one more value at the end bumps its count. */
  lemma CountsSnoc<K(!new)>(xs: seq<K>, x: K)
    ensures Counts(xs + [x]) == Bump(Counts(xs), x)
  {
    assert (xs + [x])[..|xs|] == xs;
  }

  /** One occurrence is counted once. */
  lemma CountsOne<K(!new)>(t: K)
    ensures Counts([t]) == map[t := 1]
  {
    CountsSnoc([], t);
    assert [] + [t] == [t];
  }

  /** Two occurrences of the same value are counted twice. */
  lemma CountsTwo<K(!new)>(t: K)
    ensures Counts([t, t]) == map[t := 2]
  {
    CountsOne(t);
    CountsSnoc([t], t);
    assert [t] + [t] == [t, t];
  }

  /** Two occurrences of one value and one of another are counted as such. */
  lemma CountsTwoAndOne<K(!new)>(t: K, d: K)
    requires t != d
    ensures Counts([t, t, d]) == map[t := 2, d := 1]
  {
    CountsTwo(t);
    CountsSnoc([t, t], d);
    assert [t, t] + [d] == [t, t, d];
  }
}
