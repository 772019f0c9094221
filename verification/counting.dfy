/** The counting vocabulary of the statistics endpoints: LINQ `Count(pred)`,
    exact-match tallies over a sequence of keys, `GroupBy(key).ToDictionary(
    g => g.Key, g => g.Count())` and `Sum`. */
module Counting {

  /** `s.Count(p)`. */
  function Count<T>(s: seq<T>, p: T -> bool): (n: nat)
    ensures n <= |s|
  {
    if |s| == 0 then 0 else (if p(s[0]) then 1 else 0) + Count(s[1..], p)
  }

  /** `s.Where(p)`, keeping the order. */
  function Filter<T>(s: seq<T>, p: T -> bool): (r: seq<T>)
    ensures |r| == Count(s, p)
    ensures forall i | 0 <= i < |r| :: p(r[i]) && r[i] in s
    ensures forall i | 0 <= i < |s| && p(s[i]) :: s[i] in r
  {
    if |s| == 0 then []
    else
      var rest := Filter(s[1..], p);
      assert forall i | 1 <= i < |s| :: s[i] == s[1..][i - 1];
      (if p(s[0]) then [s[0]] else []) + rest
  }

  /** `s.Select(f)`. */
  function Select<T, U>(s: seq<T>, f: T -> U): (r: seq<U>)
    ensures |r| == |s| && forall i | 0 <= i < |s| :: r[i] == f(s[i])
  {
    seq(|s|, i requires 0 <= i < |s| => f(s[i]))
  }

  /** The elements whose key differs from `k`, plus the tally of `k` among
      the keys, make up the whole sequence. */
  lemma {:induction false} CountOthers<T, K>(s: seq<T>, key: T -> K, k: K, p: T -> bool)
    requires forall x :: p(x) <==> key(x) != k
    ensures Count(s, p) + multiset(Select(s, key))[k] == |s|
    decreases |s|
  {
    if |s| > 0 {
      CountOthers(s[1..], key, k, p);
      assert Select(s, key) == [key(s[0])] + Select(s[1..], key);
    }
  }

  /** Counting distributes over concatenation. */
  lemma {:induction false} CountConcat<T>(a: seq<T>, b: seq<T>, p: T -> bool)
    ensures Count(a + b, p) == Count(a, p) + Count(b, p)
    decreases |a|
  {
    if |a| == 0 {
      assert a + b == b;
    } else {
      assert (a + b)[1..] == a[1..] + b;
      assert (a + b)[0] == a[0];
      CountConcat(a[1..], b, p);
    }
  }

  /** Replacing one element changes the count by that element's contribution only. */
  lemma {:induction false} CountUpdate<T>(s: seq<T>, k: nat, x: T, p: T -> bool)
    requires k < |s|
    ensures Count(s[k := x], p) + (if p(s[k]) then 1 else 0) == Count(s, p) + (if p(x) then 1 else 0)
    decreases |s|
  {
    if k > 0 {
      assert s[k := x][1..] == s[1..][k - 1 := x];
      CountUpdate(s[1..], k - 1, x, p);
    }
  }

  /** Everything is counted exactly when every element satisfies `p`. */
  lemma {:induction false} CountAllIff<T>(s: seq<T>, p: T -> bool)
    ensures Count(s, p) == |s| <==> forall i | 0 <= i < |s| :: p(s[i])
    decreases |s|
  {
    if |s| > 0 {
      CountAllIff(s[1..], p);
      if Count(s, p) == |s| {
        forall i | 0 <= i < |s| ensures p(s[i]) {
          if i > 0 {
            assert s[i] == s[1..][i - 1];
          }
        }
      } else if p(s[0]) {
        assert !forall i | 0 <= i < |s| - 1 :: p(s[1..][i]);
        var i :| 0 <= i < |s| - 1 && !p(s[1..][i]);
        assert s[i + 1] == s[1..][i];
      }
    }
  }

  /** Nothing is counted exactly when no element satisfies `p`. */
  lemma {:induction false} CountZeroIff<T>(s: seq<T>, p: T -> bool)
    ensures Count(s, p) == 0 <==> forall i | 0 <= i < |s| :: !p(s[i])
    decreases |s|
  {
    if |s| > 0 {
      CountZeroIff(s[1..], p);
      if Count(s, p) == 0 {
        forall i | 0 <= i < |s| ensures !p(s[i]) {
          if i > 0 {
            assert s[i] == s[1..][i - 1];
          }
        }
      } else if !p(s[0]) {
        var i :| 0 <= i < |s| - 1 && p(s[1..][i]);
        assert s[i + 1] == s[1..][i];
      }
    }
  }

  /** A predicate and its negation split the sequence. */
  lemma {:induction false} CountComplement<T>(s: seq<T>, p: T -> bool, q: T -> bool)
    requires forall x :: q(x) <==> !p(x)
    ensures Count(s, p) + Count(s, q) == |s|
    decreases |s|
  {
    if |s| > 0 {
      CountComplement(s[1..], p, q);
    }
  }

  /** Counting is monotone in the predicate. */
  lemma {:induction false} CountMonotone<T>(s: seq<T>, p: T -> bool, q: T -> bool)
    requires forall x :: p(x) ==> q(x)
    ensures Count(s, p) <= Count(s, q)
    decreases |s|
  {
    if |s| > 0 {
      CountMonotone(s[1..], p, q);
    }
  }

  /** Two disjoint predicates count at most the whole sequence together. */
  lemma {:induction false} CountDisjoint<T>(s: seq<T>, p: T -> bool, q: T -> bool)
    requires forall x :: !(p(x) && q(x))
    ensures Count(s, p) + Count(s, q) <= |s|
    decreases |s|
  {
    if |s| > 0 {
      CountDisjoint(s[1..], p, q);
    }
  }

  /** Four predicates of which every element satisfies exactly one split
      the sequence into four counts. */
  lemma {:induction false} CountPartition4<T>(s: seq<T>, a: T -> bool, b: T -> bool, c: T -> bool, d: T -> bool)
    requires forall x :: (if a(x) then 1 else 0) + (if b(x) then 1 else 0)
                         + (if c(x) then 1 else 0) + (if d(x) then 1 else 0) == 1
    ensures Count(s, a) + Count(s, b) + Count(s, c) + Count(s, d) == |s|
    decreases |s|
  {
    if |s| > 0 {
      CountPartition4(s[1..], a, b, c, d);
    }
  }

  // --------------------------------------------------------- keyed tallies

  /** Pairwise distinct elements. */
  predicate Distinct<K(==)>(vs: seq<K>)
  {
    forall i, j | 0 <= i < j < |vs| :: vs[i] != vs[j]
  }

  /** Total multiplicity in `m` of the values listed in `vs`. */
  function SumOver<K(==)>(m: multiset<K>, vs: seq<K>): nat
  {
    if |vs| == 0 then 0 else m[vs[0]] + SumOver(m, vs[1..])
  }

  /** Number of keys not listed in `vs`. */
  function Outside<K(==)>(ks: seq<K>, vs: seq<K>): (n: nat)
    ensures n <= |ks|
  {
    if |ks| == 0 then 0 else (if ks[0] in vs then 0 else 1) + Outside(ks[1..], vs)
  }

  /** Adding one element raises the tally of `vs` by one exactly when it is listed. */
  lemma {:induction false} SumOverAddOne<K>(m: multiset<K>, x: K, vs: seq<K>)
    requires Distinct(vs)
    ensures SumOver(m + multiset{x}, vs) == SumOver(m, vs) + (if x in vs then 1 else 0)
    decreases |vs|
  {
    if |vs| > 0 {
      assert Distinct(vs[1..]);
      SumOverAddOne(m, x, vs[1..]);
      assert x in vs <==> x == vs[0] || x in vs[1..];
      assert x == vs[0] ==> x !in vs[1..];
    }
  }

  /** Tallying a list of distinct values counts every key listed there once:
      the tallies plus the keys outside the list make up the whole sequence. */
  lemma {:induction false} SumOverPartition<K>(ks: seq<K>, vs: seq<K>)
    requires Distinct(vs)
    ensures SumOver(multiset(ks), vs) + Outside(ks, vs) == |ks|
    decreases |ks|
  {
    if |ks| == 0 {
      SumOverEmpty(vs);
    } else {
      assert ks == [ks[0]] + ks[1..];
      assert multiset(ks) == multiset(ks[1..]) + multiset{ks[0]};
      SumOverPartition(ks[1..], vs);
      SumOverAddOne(multiset(ks[1..]), ks[0], vs);
    }
  }

  lemma {:induction false} SumOverEmpty<K>(vs: seq<K>)
    ensures SumOver(multiset{}, vs) == 0
    decreases |vs|
  {
    if |vs| > 0 {
      SumOverEmpty(vs[1..]);
    }
  }

  /** Nothing is outside a list that contains every key. */
  lemma {:induction false} OutsideZeroIff<K>(ks: seq<K>, vs: seq<K>)
    ensures Outside(ks, vs) == 0 <==> forall i | 0 <= i < |ks| :: ks[i] in vs
    decreases |ks|
  {
    if |ks| > 0 {
      OutsideZeroIff(ks[1..], vs);
      assert forall i | 1 <= i < |ks| :: ks[i] == ks[1..][i - 1];
    }
  }

  /** The tallies of distinct values never exceed the number of keys, and
      reach it exactly when every key is one of the values. */
  lemma TallyBound<K>(ks: seq<K>, vs: seq<K>)
    requires Distinct(vs)
    ensures SumOver(multiset(ks), vs) <= |ks|
    ensures SumOver(multiset(ks), vs) == |ks| <==> forall i | 0 <= i < |ks| :: ks[i] in vs
  {
    SumOverPartition(ks, vs);
    OutsideZeroIff(ks, vs);
  }

  // --------------------------------------------------------------- group by

  /** The distinct keys in order of first appearance (the enumeration order of
      `GroupBy`). */
  function FirstAppearance<K(==)>(ks: seq<K>): (r: seq<K>)
    ensures Distinct(r)
    ensures forall i | 0 <= i < |ks| :: ks[i] in r
    ensures forall i | 0 <= i < |r| :: r[i] in ks
    decreases |ks|
  {
    if |ks| == 0 then []
    else
      var d := FirstAppearance(ks[..|ks| - 1]);
      assert forall i | 0 <= i < |ks| - 1 :: ks[i] == ks[..|ks| - 1][i];
      if ks[|ks| - 1] in d then d else d + [ks[|ks| - 1]]
  }

  /** `GroupBy(key).ToDictionary(g => g.Key, g => g.Count())`, as the ordered
      list of its entries. */
  function GroupCounts<K(==)>(ks: seq<K>): (r: seq<(K, nat)>)
    ensures forall i | 0 <= i < |r| :: r[i].1 == multiset(ks)[r[i].0] && r[i].1 > 0
    ensures forall i | 0 <= i < |r| :: r[i].0 in ks
    ensures forall j | 0 <= j < |ks| :: exists i | 0 <= i < |r| :: r[i].0 == ks[j]
    ensures forall i, j | 0 <= i < j < |r| :: r[i].0 != r[j].0
  {
    var d := FirstAppearance(ks);
    var r := seq(|d|, i requires 0 <= i < |d| => (d[i], multiset(ks)[d[i]]));
    assert forall j | 0 <= j < |ks| :: r[IndexIn(d, ks[j])].0 == ks[j];
    r
  }

  function IndexIn<K(==)>(d: seq<K>, k: K): (i: nat)
    requires k in d
    ensures i < |d| && d[i] == k
  {
    if d[0] == k then 0 else 1 + IndexIn(d[1..], k)
  }

  /** Sum of the counts of a dictionary. */
  function SumCounts<K(==)>(r: seq<(K, nat)>): nat
  {
    if |r| == 0 then 0 else r[0].1 + SumCounts(r[1..])
  }

  lemma SumCountsIsSumOver<K>(m: multiset<K>, d: seq<K>)
    ensures SumCounts(seq(|d|, i requires 0 <= i < |d| => (d[i], m[d[i]]))) == SumOver(m, d)
    decreases |d|
  {
    if |d| > 0 {
      var r := seq(|d|, i requires 0 <= i < |d| => (d[i], m[d[i]]));
      assert r[1..] == seq(|d| - 1, i requires 0 <= i < |d| - 1 => (d[1..][i], m[d[1..][i]]));
      SumCountsIsSumOver(m, d[1..]);
    }
  }

  /** The group sizes add up to the number of grouped elements. */
  lemma GroupCountsSum<K>(ks: seq<K>)
    ensures SumCounts(GroupCounts(ks)) == |ks|
  {
    var d := FirstAppearance(ks);
    SumCountsIsSumOver(multiset(ks), d);
    TallyBound(ks, d);
  }

  // --------------------------------------------------------------------- sums

  /** `Sum` of integer amounts (money in cents). */
  function Sum(s: seq<int>): int
  {
    if |s| == 0 then 0 else s[0] + Sum(s[1..])
  }

  /** A sum of non-negative amounts is non-negative and bounds every amount. */
  lemma {:induction false} SumNonNegative(s: seq<int>)
    requires forall i | 0 <= i < |s| :: s[i] >= 0
    ensures Sum(s) >= 0
    ensures forall i | 0 <= i < |s| :: s[i] <= Sum(s)
    decreases |s|
  {
    if |s| > 0 {
      SumNonNegative(s[1..]);
      assert forall i | 1 <= i < |s| :: s[i] == s[1..][i - 1];
    }
  }
  /** The tallies of the listed values, in the order listed: the fields of
      a fixed-label distribution such as the gender or marital counts. */
  function Tallies<K(==)>(ks: seq<K>, vs: seq<K>): (r: seq<nat>)
    ensures |r| == |vs|
    ensures forall i | 0 <= i < |vs| :: r[i] == multiset(ks)[vs[i]]
    ensures Sum(r) == SumOver(multiset(ks), vs)
    decreases |vs|
  {
    if |vs| == 0 then []
    else
      var rest := Tallies(ks, vs[1..]);
      var r := [multiset(ks)[vs[0]]] + rest;
      assert r[1..] == rest;
      r
  }

  /** A fixed-label distribution: the tally of each label, which together
      never exceed the number of keys and reach it exactly when every key is
      one of the labels. */
  function Distribution<K(==)>(ks: seq<K>, vs: seq<K>): (r: seq<nat>)
    requires Distinct(vs)
    ensures |r| == |vs|
    ensures forall i | 0 <= i < |vs| :: r[i] == multiset(ks)[vs[i]]
    ensures Sum(r) <= |ks|
    ensures Sum(r) == |ks| <==> forall i | 0 <= i < |ks| :: ks[i] in vs
  {
    TallyBound(ks, vs);
    Tallies(ks, vs)
  }

  // ---------------------------------------------------------- multiplicities

  /** Filtering never adds an element. */
  lemma {:induction false} FilterSubMultiset<T>(s: seq<T>, p: T -> bool)
    ensures multiset(Filter(s, p)) <= multiset(s)
    decreases |s|
  {
    if |s| > 0 {
      FilterSubMultiset(s[1..], p);
      assert s == [s[0]] + s[1..];
    }
  }

  /** In a sequence without repetitions every element occurs once. */
  lemma {:induction false} DistinctOnce<T>(s: seq<T>, x: T)
    requires Distinct(s)
    ensures multiset(s)[x] <= 1
    decreases |s|
  {
    if |s| > 0 {
      assert Distinct(s[1..]);
      DistinctOnce(s[1..], x);
      assert s == [s[0]] + s[1..];
      assert s[0] !in s[1..];
    }
  }

  /** An element at two positions occurs at least twice. */
  lemma TwoPositions<T>(s: seq<T>, i: nat, j: nat)
    requires i < j < |s| && s[i] == s[j]
    ensures multiset(s)[s[i]] >= 2
  {
    assert s == s[..j] + s[j..];
    assert s[i] in s[..j];
    assert s[j] in s[j..];
  }

  // --------------------------------------------------------------- filters

  /** Two filters in a row are one filter by the conjunction. */
  lemma {:induction false} FilterFilter<T>(s: seq<T>, p: T -> bool, q: T -> bool, pq: T -> bool)
    requires forall x :: pq(x) <==> p(x) && q(x)
    ensures Filter(Filter(s, p), q) == Filter(s, pq)
    decreases |s|
  {
    if |s| > 0 {
      FilterFilter(s[1..], p, q, pq);
      var rest := Filter(s[1..], p);
      if p(s[0]) {
        var fp := Filter(s, p);
        assert fp == [s[0]] + rest;
        assert fp[0] == s[0] && fp[1..] == rest;
        assert Filter(fp, q) == (if q(s[0]) then [s[0]] else []) + Filter(rest, q);
      } else {
        assert Filter(s, p) == rest;
      }
    }
  }

  /** A filter every element passes keeps the whole sequence. */
  lemma {:induction false} FilterAll<T>(s: seq<T>, p: T -> bool)
    requires forall i | 0 <= i < |s| :: p(s[i])
    ensures Filter(s, p) == s
    decreases |s|
  {
    if |s| > 0 {
      assert forall i | 0 <= i < |s| - 1 :: s[1..][i] == s[i + 1];
      FilterAll(s[1..], p);
    }
  }

  /** Filters that agree on every element select the same elements. */
  lemma {:induction false} FilterSame<T>(s: seq<T>, p: T -> bool, q: T -> bool)
    requires forall i | 0 <= i < |s| :: p(s[i]) == q(s[i])
    ensures Filter(s, p) == Filter(s, q)
    decreases |s|
  {
    if |s| > 0 {
      assert forall i | 0 <= i < |s| - 1 :: s[1..][i] == s[i + 1];
      FilterSame(s[1..], p, q);
    }
  }

  /** Predicates that agree on every element count the same. */
  lemma {:induction false} CountSame<T>(s: seq<T>, p: T -> bool, q: T -> bool)
    requires forall i | 0 <= i < |s| :: p(s[i]) == q(s[i])
    ensures Count(s, p) == Count(s, q)
    decreases |s|
  {
    if |s| > 0 {
      assert forall i | 0 <= i < |s| - 1 :: s[1..][i] == s[i + 1];
      CountSame(s[1..], p, q);
    }
  }

  /** Filtering keeps a sequence free of repetitions. */
  lemma {:induction false} FilterDistinct<T>(s: seq<T>, p: T -> bool)
    requires Distinct(s)
    ensures Distinct(Filter(s, p))
    decreases |s|
  {
    if |s| > 0 {
      assert Distinct(s[1..]);
      FilterDistinct(s[1..], p);
      var rest := Filter(s[1..], p);
      assert s[0] !in s[1..];
      assert s[0] !in rest;
    }
  }

  /** The tally of a key is the count of the elements carrying it. */
  lemma {:induction false} TallyIsCount<T, K>(s: seq<T>, key: T -> K, k: K, p: T -> bool)
    requires forall x :: p(x) <==> key(x) == k
    ensures multiset(Select(s, key))[k] == Count(s, p)
    decreases |s|
  {
    if |s| > 0 {
      TallyIsCount(s[1..], key, k, p);
      assert Select(s, key) == [key(s[0])] + Select(s[1..], key);
    }
  }

  /** Disjoint predicates count their disjunction together. */
  lemma {:induction false} CountUnion<T>(s: seq<T>, p: T -> bool, q: T -> bool, pq: T -> bool)
    requires forall x :: !(p(x) && q(x))
    requires forall x :: pq(x) <==> p(x) || q(x)
    ensures Count(s, p) + Count(s, q) == Count(s, pq)
    decreases |s|
  {
    if |s| > 0 {
      CountUnion(s[1..], p, q, pq);
    }
  }
}
