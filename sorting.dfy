/**
 * `list.sort(key=lambda x: x['similarity'], reverse=True)` on the result
 * entries. Python's sort is stable also with `reverse=True`: entries with equal
 * similarity keep the order they had. The reference definition here is an
 * insertion sort; `SortedTiesAreUnique` shows that any sort with those two
 * properties gives the same list.
 */
module ScoreSort {
  import opened Records

  /** Similarity never increases from one entry to a later one. */
  predicate SortedDesc(s: seq<SimilarTask>)
  {
    forall p, q :: 0 <= p < q < |s| ==> s[p].similarity >= s[q].similarity
  }

  /** The entries of `s` whose similarity is `v`, in their order in `s`. */
  function WithScore(s: seq<SimilarTask>, v: real): seq<SimilarTask>
  {
    if s == [] then []
    else if s[0].similarity == v then [s[0]] + WithScore(s[1..], v)
    else WithScore(s[1..], v)
  }

  lemma WithScoreCons(x: SimilarTask, t: seq<SimilarTask>, v: real)
    ensures WithScore([x] + t, v) == if x.similarity == v then [x] + WithScore(t, v) else WithScore(t, v)
  {
    assert ([x] + t)[0] == x;
    assert ([x] + t)[1..] == t;
  }

  /** An entry scoring at least the head of a sorted list can go in front of it. */
  lemma SortedCons(h: SimilarTask, t: seq<SimilarTask>)
    requires SortedDesc(t)
    requires t != [] ==> h.similarity >= t[0].similarity
    ensures SortedDesc([h] + t)
  {
    forall p, q | 0 <= p < q < |[h] + t| ensures ([h] + t)[p].similarity >= ([h] + t)[q].similarity {
      if p == 0 {
        assert t[0].similarity >= t[q - 1].similarity;
      }
    }
  }

  /** Inserts `x` into a sorted list, in front of every entry it does not score below. */
  function Insert(x: SimilarTask, s: seq<SimilarTask>): (r: seq<SimilarTask>)
    requires SortedDesc(s)
    ensures SortedDesc(r)
    ensures multiset(r) == multiset(s) + multiset{x}
    ensures r[0] == x || (s != [] && r[0] == s[0])
  {
    if s == [] then [x]
    else if x.similarity >= s[0].similarity then
      SortedCons(x, s);
      [x] + s
    else
      var rest := Insert(x, s[1..]);
      SortedCons(s[0], rest);
      assert s == [s[0]] + s[1..];
      [s[0]] + rest
  }

  /** The entries of `s`, ordered by similarity, most similar first. */
  function SortBySimilarity(s: seq<SimilarTask>): (r: seq<SimilarTask>)
    ensures SortedDesc(r)
    ensures multiset(r) == multiset(s)
  {
    if s == [] then []
    else
      assert s == [s[0]] + s[1..];
      Insert(s[0], SortBySimilarity(s[1..]))
  }

  lemma InsertBehindHead(x: SimilarTask, s: seq<SimilarTask>)
    requires SortedDesc(s) && s != [] && x.similarity < s[0].similarity
    ensures Insert(x, s) == [s[0]] + Insert(x, s[1..])
  {
  }

  /** Inserting `x` puts it in front of every entry of equal similarity. */
  lemma {:induction false} InsertKeepsTies(x: SimilarTask, s: seq<SimilarTask>, v: real)
    requires SortedDesc(s)
    ensures WithScore(Insert(x, s), v) == if x.similarity == v then [x] + WithScore(s, v) else WithScore(s, v)
    decreases |s|
  {
    if s == [] {
      assert Insert(x, s) == [x] + [];
      WithScoreCons(x, [], v);
    } else if x.similarity >= s[0].similarity {
      assert Insert(x, s) == [x] + s;
      WithScoreCons(x, s, v);
    } else {
      InsertKeepsTies(x, s[1..], v);
      InsertBehindHead(x, s);
      WithScoreCons(s[0], Insert(x, s[1..]), v);
      assert s == [s[0]] + s[1..];
      WithScoreCons(s[0], s[1..], v);
    }
  }

  /** Stability: the entries of any one similarity keep their original order. */
  lemma {:induction false} SortIsStable(s: seq<SimilarTask>, v: real)
    ensures WithScore(SortBySimilarity(s), v) == WithScore(s, v)
    decreases |s|
  {
    if s != [] {
      SortIsStable(s[1..], v);
      InsertKeepsTies(s[0], SortBySimilarity(s[1..]), v);
    }
  }

  lemma {:induction false} WithScoreMembers(s: seq<SimilarTask>, v: real, x: SimilarTask)
    requires x in WithScore(s, v)
    ensures x in s && x.similarity == v
    decreases |s|
  {
    if s[0] != x || s[0].similarity != v {
      WithScoreMembers(s[1..], v, x);
    }
  }

  lemma WithScoreHead(t: seq<SimilarTask>)
    ensures t != [] ==> WithScore(t, t[0].similarity) == [t[0]] + WithScore(t[1..], t[0].similarity)
  {
  }

  /**
   * A sorted list is determined by its per-similarity subsequences: two sorted
   * lists that agree on every similarity's entries are equal.
   */
  lemma {:induction false} SortedTiesAreUnique(t: seq<SimilarTask>, u: seq<SimilarTask>)
    requires SortedDesc(t) && SortedDesc(u)
    requires forall v :: WithScore(t, v) == WithScore(u, v)
    ensures t == u
    decreases |t| + |u|
  {
    WithScoreHead(t);
    WithScoreHead(u);
    if t != [] && u != [] {
      var v1, v2 := t[0].similarity, u[0].similarity;
      assert t[0] in WithScore(u, v1);
      WithScoreMembers(u, v1, t[0]);
      assert u[0] in WithScore(t, v2);
      WithScoreMembers(t, v2, u[0]);
      assert v1 == v2;
      assert t[0] == u[0] by {
        assert WithScore(t, v1)[0] == t[0];
        assert WithScore(u, v1)[0] == u[0];
      }
      forall v ensures WithScore(t[1..], v) == WithScore(u[1..], v) {
        if v == v1 {
          assert WithScore(t, v) == [t[0]] + WithScore(t[1..], v);
          assert WithScore(u, v) == [u[0]] + WithScore(u[1..], v);
          assert WithScore(t, v)[1..] == WithScore(t[1..], v);
          assert WithScore(u, v)[1..] == WithScore(u[1..], v);
        } else {
          assert WithScore(t, v) == WithScore(t[1..], v);
          assert WithScore(u, v) == WithScore(u[1..], v);
        }
      }
      SortedTiesAreUnique(t[1..], u[1..]);
      assert t == [t[0]] + t[1..] && u == [u[0]] + u[1..];
    }
  }

  /** Any sorted list that keeps every similarity's entries in order is this sort's result. */
  lemma SortIsTheStableSort(s: seq<SimilarTask>, t: seq<SimilarTask>)
    requires SortedDesc(t)
    requires forall v :: WithScore(t, v) == WithScore(s, v)
    ensures t == SortBySimilarity(s)
  {
    forall v ensures WithScore(t, v) == WithScore(SortBySimilarity(s), v) {
      SortIsStable(s, v);
    }
    SortedTiesAreUnique(t, SortBySimilarity(s));
  }

  /** Two entries already in descending order stay as they are. */
  lemma SortPair(x: SimilarTask, y: SimilarTask)
    requires x.similarity >= y.similarity
    ensures SortBySimilarity([x, y]) == [x, y]
  {
    assert [x, y][1..] == [y];
    assert SortBySimilarity([y]) == [y];
  }

  /** `x` is an initial part of `y`. */
  predicate IsPrefix(x: seq<SimilarTask>, y: seq<SimilarTask>)
  {
    |x| <= |y| && x == y[..|x|]
  }

  /** Cutting a list short cuts each similarity's entries short. */
  lemma {:induction false} WithScoreOfPrefix(s: seq<SimilarTask>, n: nat, v: real)
    requires n <= |s|
    ensures IsPrefix(WithScore(s[..n], v), WithScore(s, v))
    decreases n
  {
    if n > 0 {
      WithScoreOfPrefix(s[1..], n - 1, v);
      assert s[..n] == [s[0]] + s[1..][..n - 1];
      WithScoreCons(s[0], s[1..][..n - 1], v);
      assert s == [s[0]] + s[1..];
      WithScoreCons(s[0], s[1..], v);
    }
  }
}
