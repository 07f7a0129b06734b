/**
 * A counting dictionary in the manner of Python's `defaultdict(int)`:
 * keys are kept in the order they were first counted (a Python dict
 * remembers insertion order), a missing key reads as 0, and `d[k] += 1`
 * bumps a key in place or appends it with count 1.
 */
module Counter {

  /** Key/count pairs, oldest key first. */
  type Counter<K> = seq<(K, nat)>

  /** No key appears twice. */
  predicate DistinctKeys<K(==)>(c: Counter<K>) {
    forall i, j :: 0 <= i < j < |c| ==> c[i].0 != c[j].0
  }

  /** Every stored count is positive (a key only enters by being counted). */
  predicate PositiveCounts<K(==)>(c: Counter<K>) {
    forall i :: 0 <= i < |c| ==> c[i].1 > 0
  }

  predicate Valid<K(==)>(c: Counter<K>) {
    DistinctKeys(c) && PositiveCounts(c)
  }

  /** The keys, in insertion order. */
  function KeySeq<K(==)>(c: Counter<K>): (ks: seq<K>)
    ensures |ks| == |c|
  {
    if c == [] then [] else [c[0].0] + KeySeq(c[1..])
  }

  /** `d[k]` on a defaultdict(int): the count of `k`, 0 when absent. */
  function Get<K(==)>(c: Counter<K>, k: K): nat {
    if c == [] then 0 else if c[0].0 == k then c[0].1 else Get(c[1..], k)
  }

  /** `d[k] += 1`. */
  function Bump<K(==)>(c: Counter<K>, k: K): Counter<K> {
    if c == [] then [(k, 1)]
    else if c[0].0 == k then [(k, c[0].1 + 1)] + c[1..]
    else [c[0]] + Bump(c[1..], k)
  }

  /** The sum of all counts. */
  function Total<K(==)>(c: Counter<K>): nat {
    if c == [] then 0 else c[0].1 + Total(c[1..])
  }

  /** Bumping `k` adds one to `k`'s count and leaves every other count alone. */
  lemma {:induction false} BumpGet<K>(c: Counter<K>, k: K, x: K)
    ensures Get(Bump(c, k), x) == Get(c, x) + (if x == k then 1 else 0)
  {
    if c != [] && c[0].0 != k {
      BumpGet(c[1..], k, x);
    }
  }

  /** Bumping adds exactly one to the total. */
  lemma {:induction false} BumpTotal<K>(c: Counter<K>, k: K)
    ensures Total(Bump(c, k)) == Total(c) + 1
  {
    if c != [] && c[0].0 != k {
      BumpTotal(c[1..], k);
      assert Bump(c, k)[1..] == Bump(c[1..], k);
    }
  }

  /** Insertion order: a known key keeps its place, a new key goes last. */
  lemma {:induction false} BumpKeys<K>(c: Counter<K>, k: K)
    ensures KeySeq(Bump(c, k)) == if k in KeySeq(c) then KeySeq(c) else KeySeq(c) + [k]
  {
    if c != [] && c[0].0 != k {
      BumpKeys(c[1..], k);
      assert Bump(c, k)[1..] == Bump(c[1..], k);
      assert KeySeq(c) == [c[0].0] + KeySeq(c[1..]);
    }
  }

  /** A key is present exactly when its count is positive. */
  lemma {:induction false} GetPositive<K>(c: Counter<K>, k: K)
    requires PositiveCounts(c)
    ensures Get(c, k) > 0 <==> k in KeySeq(c)
  {
    if c != [] {
      assert KeySeq(c) == [c[0].0] + KeySeq(c[1..]);
      GetPositive(c[1..], k);
    }
  }

  /** Bumping keeps keys distinct and counts positive. */
  lemma BumpValid<K>(c: Counter<K>, k: K)
    requires Valid(c)
    ensures Valid(Bump(c, k))
  {
    BumpDistinct(c, k);
    BumpPositive(c, k);
  }

  lemma {:induction false} BumpPositive<K>(c: Counter<K>, k: K)
    requires PositiveCounts(c)
    ensures PositiveCounts(Bump(c, k))
  {
    if c != [] && c[0].0 != k {
      BumpPositive(c[1..], k);
    }
  }

  lemma {:induction false} BumpDistinct<K>(c: Counter<K>, k: K)
    requires DistinctKeys(c)
    ensures DistinctKeys(Bump(c, k))
  {
    if c != [] && c[0].0 != k {
      BumpDistinct(c[1..], k);
      BumpKeys(c[1..], k);
      KeySeqAt(c[1..]);
      KeySeqAt(Bump(c[1..], k));
      assert c[0].0 !in KeySeq(c[1..]);
      ConsDistinct(c[0], Bump(c[1..], k));
    } else if c != [] {
      var r := Bump(c, k);
      forall i, j | 0 <= i < j < |r| ensures r[i].0 != r[j].0 {
        assert r[j] == c[j];
        if i > 0 {
          assert r[i] == c[i];
        }
      }
    }
  }

  /** Putting an entry whose key is new in front of a counter with distinct keys keeps them distinct. */
  lemma ConsDistinct<K>(h: (K, nat), t: Counter<K>)
    requires DistinctKeys(t)
    requires forall i :: 0 <= i < |t| ==> KeySeq(t)[i] == t[i].0
    requires h.0 !in KeySeq(t)
    ensures DistinctKeys([h] + t)
  {
    var r := [h] + t;
    forall i, j | 0 <= i < j < |r| ensures r[i].0 != r[j].0 {
      if i == 0 {
        assert r[j].0 == KeySeq(t)[j - 1];
      } else {
        assert r[i] == t[i - 1] && r[j] == t[j - 1];
      }
    }
  }

  /** The i-th key of KeySeq is the key of the i-th entry. */
  lemma {:induction false} KeySeqAt<K>(c: Counter<K>)
    ensures forall i :: 0 <= i < |c| ==> KeySeq(c)[i] == c[i].0
  {
    if c != [] {
      KeySeqAt(c[1..]);
    }
  }

  // ---- the "top N by count" view ----

  /** Counts never increase along `s`. */
  predicate DescendingByCount<K(==)>(s: Counter<K>) {
    forall i, j :: 0 <= i < j < |s| ==> s[i].1 >= s[j].1
  }

  /** Places `x` before the first entry whose count is not larger, so ties keep `x` first. */
  function InsertByCount<K(==)>(x: (K, nat), s: Counter<K>): Counter<K> {
    if s == [] then [x]
    else if s[0].1 <= x.1 then [x] + s
    else [s[0]] + InsertByCount(x, s[1..])
  }

  /**
   * Python's `sorted(d.items(), key=count, reverse=True)`: a stable sort by
   * count, largest first; entries with equal counts keep their dict order.
   */
  function SortByCount<K(==)>(c: Counter<K>): Counter<K> {
    if c == [] then [] else InsertByCount(c[0], SortByCount(c[1..]))
  }

  /** The entries of `s` that have count `v`, in order. */
  function WithCount<K(==)>(s: Counter<K>, v: nat): Counter<K> {
    if s == [] then []
    else if s[0].1 == v then [s[0]] + WithCount(s[1..], v)
    else WithCount(s[1..], v)
  }

  /** Inserting adds `x` and nothing else. */
  lemma {:induction false} InsertPermutes<K>(x: (K, nat), s: Counter<K>)
    ensures multiset(InsertByCount(x, s)) == multiset(s) + multiset{x}
  {
    if s != [] && s[0].1 > x.1 {
      InsertPermutes(x, s[1..]);
      assert s == [s[0]] + s[1..];
    }
  }

  /** Inserting under a bound keeps every count under that bound. */
  lemma {:induction false} InsertBounded<K>(x: (K, nat), s: Counter<K>, bound: nat)
    requires x.1 <= bound
    requires forall i :: 0 <= i < |s| ==> s[i].1 <= bound
    ensures forall i :: 0 <= i < |InsertByCount(x, s)| ==> InsertByCount(x, s)[i].1 <= bound
  {
    if s != [] && s[0].1 > x.1 {
      InsertBounded(x, s[1..], bound);
    }
  }

  /** Inserting into a descending sequence keeps it descending. */
  lemma {:induction false} InsertDescending<K>(x: (K, nat), s: Counter<K>)
    requires DescendingByCount(s)
    ensures DescendingByCount(InsertByCount(x, s))
  {
    var r := InsertByCount(x, s);
    if s != [] && s[0].1 > x.1 {
      var t := InsertByCount(x, s[1..]);
      InsertDescending(x, s[1..]);
      InsertBounded(x, s[1..], s[0].1);
      assert r == [s[0]] + t;
      forall i, j | 0 <= i < j < |r| ensures r[i].1 >= r[j].1 {
        assert r[j] == t[j - 1];
        if i > 0 {
          assert r[i] == t[i - 1];
        }
      }
    } else if s != [] {
      assert r == [x] + s;
      forall i, j | 0 <= i < j < |r| ensures r[i].1 >= r[j].1 {
        assert r[j] == s[j - 1];
        if i > 0 {
          assert r[i] == s[i - 1];
        }
      }
    }
  }

  /** Stability of one insertion: `x` lands ahead of every entry with its count. */
  lemma {:induction false} InsertWithCount<K>(x: (K, nat), s: Counter<K>)
    ensures forall v :: WithCount(InsertByCount(x, s), v) ==
                        if x.1 == v then [x] + WithCount(s, v) else WithCount(s, v)
  {
    if s != [] && s[0].1 > x.1 {
      InsertWithCount(x, s[1..]);
      assert s == [s[0]] + s[1..];
      forall v ensures WithCount(InsertByCount(x, s), v) ==
                       if x.1 == v then [x] + WithCount(s, v) else WithCount(s, v) {
        WithCountFirst(s[0], s[1..], v, x);
      }
    }
  }

  /** Unfolding WithCount at a head entry that is larger than `x` and so not equal to it in count. */
  lemma WithCountFirst<K>(h: (K, nat), t: Counter<K>, v: nat, x: (K, nat))
    requires h.1 > x.1
    requires forall v' :: WithCount(InsertByCount(x, t), v') ==
                          if x.1 == v' then [x] + WithCount(t, v') else WithCount(t, v')
    ensures WithCount([h] + InsertByCount(x, t), v) ==
            if x.1 == v then [x] + WithCount([h] + t, v) else WithCount([h] + t, v)
  {
    assert ([h] + InsertByCount(x, t))[1..] == InsertByCount(x, t);
    assert ([h] + t)[1..] == t;
  }

  /** The sort is descending, a permutation, and stable: each count class keeps its order. */
  lemma {:induction false} SortByCountSpec<K>(c: Counter<K>)
    ensures DescendingByCount(SortByCount(c))
    ensures multiset(SortByCount(c)) == multiset(c)
    ensures forall v :: WithCount(SortByCount(c), v) == WithCount(c, v)
  {
    if c != [] {
      SortByCountSpec(c[1..]);
      InsertPermutes(c[0], SortByCount(c[1..]));
      InsertDescending(c[0], SortByCount(c[1..]));
      InsertWithCount(c[0], SortByCount(c[1..]));
      assert c == [c[0]] + c[1..];
    }
  }

  /**
   * The top `n` entries by count: `sorted(..., reverse=True)[:n]`.
   * It is the first min(n, |c|) entries of the stable sort: entries of `c`
   * (each kept at most as often as it occurs), largest counts first, and no
   * entry left out has a larger count than any entry kept.
   */
  function TopByCount<K(==)>(c: Counter<K>, n: nat): (r: Counter<K>)
    ensures |r| == if |c| < n then |c| else n
    ensures DescendingByCount(r)
    ensures forall i :: 0 <= i < |r| ==> r[i] in c
    ensures forall x, i :: x in c && x !in r && 0 <= i < |r| ==> x.1 <= r[i].1
    ensures multiset(r) <= multiset(c)
    ensures |r| <= |SortByCount(c)| && r == SortByCount(c)[..|r|]
  {
    var sorted := SortByCount(c);
    SortByCountSpec(c);
    assert |sorted| == |c| by {
      assert |multiset(sorted)| == |multiset(c)|;
    }
    var k := if |c| < n then |c| else n;
    PrefixOfPermutation(sorted, c, k);
    PrefixDominates(sorted, c, k);
    sorted[..k]
  }

  /** A prefix of a permutation of `c` takes its entries from `c`, none more often than it occurs. */
  lemma PrefixOfPermutation<K>(sorted: Counter<K>, c: Counter<K>, k: nat)
    requires multiset(sorted) == multiset(c) && k <= |sorted|
    ensures multiset(sorted[..k]) <= multiset(c)
    ensures forall i :: 0 <= i < k ==> sorted[..k][i] in c
  {
    assert sorted == sorted[..k] + sorted[k..];
    forall i | 0 <= i < k ensures sorted[..k][i] in c {
      assert sorted[i] in multiset(sorted);
    }
  }

  /** In a descending permutation of `c`, no entry outside a prefix outranks an entry inside it. */
  lemma PrefixDominates<K>(sorted: Counter<K>, c: Counter<K>, k: nat)
    requires DescendingByCount(sorted) && multiset(sorted) == multiset(c) && k <= |sorted|
    ensures forall x, i :: x in c && x !in sorted[..k] && 0 <= i < k ==> x.1 <= sorted[..k][i].1
  {
    forall x, i | x in c && x !in sorted[..k] && 0 <= i < k ensures x.1 <= sorted[..k][i].1 {
      assert x in multiset(c);
      assert x in sorted;
      var j :| 0 <= j < |sorted| && sorted[j] == x;
      assert j >= k;
    }
  }
}
