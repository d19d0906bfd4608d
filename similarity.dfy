/**
 * The similarity score of `difflib.SequenceMatcher(None, a, b).ratio()`:
 * Ratcliff/Obershelp gestalt matching. The longest common block of the two
 * ranges is found (earliest in `a`, then earliest in `b`, among the longest),
 * the parts to its left and to its right are matched the same way, and the
 * score is 2*M/T for M matched characters out of T = |a| + |b|, or 1 when
 * both texts are empty. Scores are exact reals.
 */
module Similarity {

  /** A block (i, j, size) pairs a[i..i+size] with b[j..j+size]. */
  datatype Block = Block(i: nat, j: nat, size: nat)

  /** `m` lies inside a[alo..ahi] and b[blo..bhi], and its two sides are equal. */
  ghost predicate IsMatch(a: string, b: string, alo: nat, ahi: nat, blo: nat, bhi: nat, m: Block)
  {
    && alo <= m.i && m.i + m.size <= ahi <= |a|
    && blo <= m.j && m.j + m.size <= bhi <= |b|
    && forall p :: m.i <= p < m.i + m.size ==> a[p] == b[m.j + (p - m.i)]
  }

  /** Position (p, q) comes before (i, j) in the order difflib scans them. */
  predicate LexBefore(p: int, q: int, i: int, j: int)
  {
    p < i || (p == i && q < j)
  }

  /**
   * The contract of `find_longest_match`: `m` is a common block of the two
   * ranges, no common block is longer, and no common block of the same length
   * starts earlier in `a`, or at the same place in `a` and earlier in `b`.
   */
  ghost predicate IsLongestMatch(a: string, b: string, alo: nat, ahi: nat, blo: nat, bhi: nat, m: Block)
  {
    && IsMatch(a, b, alo, ahi, blo, bhi, m)
    && (forall i: nat, j: nat, k: nat :: IsMatch(a, b, alo, ahi, blo, bhi, Block(i, j, k)) ==> k <= m.size)
    && (forall i: nat, j: nat :: IsMatch(a, b, alo, ahi, blo, bhi, Block(i, j, m.size)) ==> !LexBefore(i, j, m.i, m.j))
  }

  /** The length of the common run starting at a[i] and b[j], within a[..ahi] and b[..bhi]. */
  function Run(a: string, b: string, i: nat, ahi: nat, j: nat, bhi: nat): (k: nat)
    requires i <= ahi <= |a| && j <= bhi <= |b|
    ensures IsMatch(a, b, i, ahi, j, bhi, Block(i, j, k))
    ensures i + k < ahi && j + k < bhi ==> a[i + k] != b[j + k]
    decreases ahi - i
  {
    if i < ahi && j < bhi && a[i] == b[j] then 1 + Run(a, b, i + 1, ahi, j + 1, bhi) else 0
  }

  /** Every common block starting at (i, j) is at most as long as the run there. */
  lemma {:induction false} RunIsMaximal(a: string, b: string, i: nat, ahi: nat, j: nat, bhi: nat, k: nat)
    requires IsMatch(a, b, i, ahi, j, bhi, Block(i, j, k))
    ensures k <= Run(a, b, i, ahi, j, bhi)
    decreases k
  {
    if k > 0 {
      RunIsMaximal(a, b, i + 1, ahi, j + 1, bhi, k - 1);
    }
  }

  /**
   * The scan of `find_longest_match` from position (i, j) on, in row-major
   * order, keeping the first run that is strictly longer than the best so far.
   */
  function Scan(a: string, b: string, alo: nat, ahi: nat, blo: nat, bhi: nat, i: nat, j: nat, best: Block): Block
    requires alo <= i <= ahi <= |a| && blo <= j <= bhi <= |b|
    decreases ahi - i, bhi - j
  {
    if i == ahi then best
    else if j == bhi then Scan(a, b, alo, ahi, blo, bhi, i + 1, blo, best)
    else
      var k := Run(a, b, i, ahi, j, bhi);
      Scan(a, b, alo, ahi, blo, bhi, i, j + 1, if k > best.size then Block(i, j, k) else best)
  }

  /** The run at (p, q) is shorter than `best`, or as long and not earlier. */
  ghost predicate NoBetterRun(a: string, b: string, ahi: nat, bhi: nat, p: nat, q: nat, best: Block)
    requires p <= ahi <= |a| && q <= bhi <= |b|
  {
    var k := Run(a, b, p, ahi, q, bhi);
    k <= best.size && (k == best.size ==> !LexBefore(p, q, best.i, best.j))
  }

  /**
   * The invariant of the scan at position (i, j): the best block so far is a
   * common block, it is the first position when empty, and no run visited
   * before (i, j) beats it.
   */
  ghost predicate ScanInvariant(a: string, b: string, alo: nat, ahi: nat, blo: nat, bhi: nat, i: nat, j: nat, best: Block)
  {
    && alo <= i <= ahi <= |a| && blo <= j <= bhi <= |b|
    && IsMatch(a, b, alo, ahi, blo, bhi, best)
    && (best.size == 0 ==> best.i == alo && best.j == blo)
    && !LexBefore(i, j, best.i, best.j)
    && forall p: nat, q: nat :: alo <= p < ahi && blo <= q < bhi && LexBefore(p, q, i, j) ==> NoBetterRun(a, b, ahi, bhi, p, q, best)
  }

  /** What the scan knows at its end: no run of the two ranges beats the common block `best`. */
  ghost predicate ScanDone(a: string, b: string, alo: nat, ahi: nat, blo: nat, bhi: nat, best: Block)
  {
    && alo <= ahi <= |a| && blo <= bhi <= |b|
    && IsMatch(a, b, alo, ahi, blo, bhi, best)
    && (best.size == 0 ==> best.i == alo && best.j == blo)
    && forall p: nat, q: nat :: alo <= p < ahi && blo <= q < bhi ==> NoBetterRun(a, b, ahi, bhi, p, q, best)
  }

  /** Past the last row every position has been visited. */
  lemma ScanFinished(a: string, b: string, alo: nat, ahi: nat, blo: nat, bhi: nat, j: nat, best: Block)
    requires ScanInvariant(a, b, alo, ahi, blo, bhi, ahi, j, best)
    ensures ScanDone(a, b, alo, ahi, blo, bhi, best)
  {
    forall p: nat, q: nat | alo <= p < ahi && blo <= q < bhi
      ensures NoBetterRun(a, b, ahi, bhi, p, q, best)
    {
      assert LexBefore(p, q, ahi, j);
    }
  }

  /** One step of the scan keeps its invariant. */
  lemma ScanStep(a: string, b: string, alo: nat, ahi: nat, blo: nat, bhi: nat, i: nat, j: nat, best: Block)
    requires ScanInvariant(a, b, alo, ahi, blo, bhi, i, j, best) && i < ahi && j < bhi
    ensures var k := Run(a, b, i, ahi, j, bhi);
      ScanInvariant(a, b, alo, ahi, blo, bhi, i, j + 1, if k > best.size then Block(i, j, k) else best)
  {
    var k := Run(a, b, i, ahi, j, bhi);
    var next := if k > best.size then Block(i, j, k) else best;
    forall p: nat, q: nat | alo <= p < ahi && blo <= q < bhi && LexBefore(p, q, i, j + 1)
      ensures NoBetterRun(a, b, ahi, bhi, p, q, next)
    {
      if LexBefore(p, q, i, j) {
        assert NoBetterRun(a, b, ahi, bhi, p, q, best);
      } else {
        assert p == i && q == j;
      }
    }
  }

  /** Moving from the end of a row to the start of the next keeps the invariant. */
  lemma ScanNextRow(a: string, b: string, alo: nat, ahi: nat, blo: nat, bhi: nat, i: nat, best: Block)
    requires ScanInvariant(a, b, alo, ahi, blo, bhi, i, bhi, best) && i < ahi
    ensures ScanInvariant(a, b, alo, ahi, blo, bhi, i + 1, blo, best)
  {
    forall p: nat, q: nat | alo <= p < ahi && blo <= q < bhi && LexBefore(p, q, i + 1, blo)
      ensures NoBetterRun(a, b, ahi, bhi, p, q, best)
    {
      assert LexBefore(p, q, i, bhi);
    }
  }

  /** The scan keeps its invariant up to its end. */
  lemma {:induction false} ScanKeepsBest(a: string, b: string, alo: nat, ahi: nat, blo: nat, bhi: nat, i: nat, j: nat, best: Block)
    requires ScanInvariant(a, b, alo, ahi, blo, bhi, i, j, best)
    ensures ScanDone(a, b, alo, ahi, blo, bhi, Scan(a, b, alo, ahi, blo, bhi, i, j, best))
    decreases ahi - i, bhi - j
  {
    if i == ahi {
      ScanFinished(a, b, alo, ahi, blo, bhi, j, best);
    } else if j == bhi {
      ScanNextRow(a, b, alo, ahi, blo, bhi, i, best);
      ScanKeepsBest(a, b, alo, ahi, blo, bhi, i + 1, blo, best);
    } else {
      var k := Run(a, b, i, ahi, j, bhi);
      ScanStep(a, b, alo, ahi, blo, bhi, i, j, best);
      ScanKeepsBest(a, b, alo, ahi, blo, bhi, i, j + 1, if k > best.size then Block(i, j, k) else best);
    }
  }

  /** What the finished scan knows about runs is the contract of `find_longest_match`. */
  lemma ScanIsLongest(a: string, b: string, alo: nat, ahi: nat, blo: nat, bhi: nat, r: Block)
    requires ScanDone(a, b, alo, ahi, blo, bhi, r)
    ensures IsLongestMatch(a, b, alo, ahi, blo, bhi, r)
  {
    forall i: nat, j: nat, k: nat | IsMatch(a, b, alo, ahi, blo, bhi, Block(i, j, k))
      ensures k <= r.size && (k == r.size ==> !LexBefore(i, j, r.i, r.j))
    {
      if k > 0 {
        RunIsMaximal(a, b, i, ahi, j, bhi, k);
        assert NoBetterRun(a, b, ahi, bhi, i, j, r);
      }
    }
  }

  /**
   * `find_longest_match(alo, ahi, blo, bhi)` without junk elements: a block
   * inside both ranges, whose sides begin with the same character when it is
   * not empty; `LongestMatchIsLongest` states the rest of its contract.
   */
  function LongestMatch(a: string, b: string, alo: nat, ahi: nat, blo: nat, bhi: nat): (m: Block)
    requires alo <= ahi <= |a| && blo <= bhi <= |b|
    ensures alo <= m.i && m.i + m.size <= ahi && blo <= m.j && m.j + m.size <= bhi
    ensures m.size > 0 ==> a[m.i] == b[m.j]
  {
    var m := Scan(a, b, alo, ahi, blo, bhi, alo, blo, Block(alo, blo, 0));
    ScanKeepsBest(a, b, alo, ahi, blo, bhi, alo, blo, Block(alo, blo, 0));
    assert m.size > 0 ==> a[m.i] == b[m.j + (m.i - m.i)];
    m
  }

  /** The block `LongestMatch` returns meets the contract of `find_longest_match`. */
  lemma LongestMatchIsLongest(a: string, b: string, alo: nat, ahi: nat, blo: nat, bhi: nat)
    requires alo <= ahi <= |a| && blo <= bhi <= |b|
    ensures IsLongestMatch(a, b, alo, ahi, blo, bhi, LongestMatch(a, b, alo, ahi, blo, bhi))
  {
    var m := Scan(a, b, alo, ahi, blo, bhi, alo, blo, Block(alo, blo, 0));
    ScanKeepsBest(a, b, alo, ahi, blo, bhi, alo, blo, Block(alo, blo, 0));
    ScanIsLongest(a, b, alo, ahi, blo, bhi, m);
  }

  /** The contract of `find_longest_match` determines its answer. */
  lemma LongestMatchIsUnique(a: string, b: string, alo: nat, ahi: nat, blo: nat, bhi: nat, m: Block)
    requires alo <= ahi <= |a| && blo <= bhi <= |b|
    requires IsLongestMatch(a, b, alo, ahi, blo, bhi, m)
    ensures m == LongestMatch(a, b, alo, ahi, blo, bhi)
  {
    var n := LongestMatch(a, b, alo, ahi, blo, bhi);
    LongestMatchIsLongest(a, b, alo, ahi, blo, bhi);
    assert IsMatch(a, b, alo, ahi, blo, bhi, Block(n.i, n.j, n.size));
    assert IsMatch(a, b, alo, ahi, blo, bhi, Block(m.i, m.j, m.size));
  }

  /**
   * `bs` is a sequence of non-empty common blocks of a[alo..ahi] and b[blo..bhi]
   * that increase strictly in both sequences and do not overlap.
   */
  ghost predicate Chain(a: string, b: string, bs: seq<Block>, alo: nat, ahi: nat, blo: nat, bhi: nat)
    decreases |bs|
  {
    if bs == [] then alo <= ahi <= |a| && blo <= bhi <= |b|
    else
      && IsMatch(a, b, alo, ahi, blo, bhi, bs[0])
      && bs[0].size > 0
      && Chain(a, b, bs[1..], bs[0].i + bs[0].size, ahi, bs[0].j + bs[0].size, bhi)
  }

  /** The blocks left of a block, the block, and the blocks right of it form one chain. */
  lemma {:induction false} ChainConcat(a: string, b: string, left: seq<Block>, m: Block, right: seq<Block>,
                                       alo: nat, ahi: nat, blo: nat, bhi: nat)
    requires Chain(a, b, left, alo, m.i, blo, m.j)
    requires IsMatch(a, b, alo, ahi, blo, bhi, m) && m.size > 0
    requires Chain(a, b, right, m.i + m.size, ahi, m.j + m.size, bhi)
    ensures Chain(a, b, left + [m] + right, alo, ahi, blo, bhi)
    decreases |left|
  {
    if left == [] {
      assert left + [m] + right == [m] + right;
      assert ([m] + right)[1..] == right;
    } else {
      var l := left[0];
      assert left + [m] + right == [l] + (left[1..] + [m] + right);
      assert IsMatch(a, b, l.i + l.size, ahi, l.j + l.size, bhi, m);
      ChainConcat(a, b, left[1..], m, right, l.i + l.size, ahi, l.j + l.size, bhi);
    }
  }

  /** The combination step of `get_matching_blocks`: a chain whose total adds up. */
  lemma Join(a: string, b: string, left: seq<Block>, m: Block, right: seq<Block>,
             alo: nat, ahi: nat, blo: nat, bhi: nat)
    requires Chain(a, b, left, alo, m.i, blo, m.j)
    requires IsMatch(a, b, alo, ahi, blo, bhi, m) && m.size > 0
    requires Chain(a, b, right, m.i + m.size, ahi, m.j + m.size, bhi)
    ensures Chain(a, b, left + [m] + right, alo, ahi, blo, bhi)
    ensures Total(left + [m] + right) == Total(left) + m.size + Total(right)
  {
    ChainConcat(a, b, left, m, right, alo, ahi, blo, bhi);
    TotalConcat(left + [m], right);
    TotalConcat(left, [m]);
    assert Total([m]) == m.size + Total([]);
  }

  /**
   * `get_matching_blocks` (without the final sentinel and without merging
   * adjacent blocks, neither of which changes the matched total): the longest
   * match of the range, preceded by the blocks of the part to its left and
   * followed by those of the part to its right.
   */
  function MatchingBlocks(a: string, b: string, alo: nat, ahi: nat, blo: nat, bhi: nat): (bs: seq<Block>)
    requires alo <= ahi <= |a| && blo <= bhi <= |b|
    ensures Chain(a, b, bs, alo, ahi, blo, bhi)
    decreases (ahi - alo) + (bhi - blo)
  {
    var m := LongestMatch(a, b, alo, ahi, blo, bhi);
    if m.size == 0 then []
    else
      var left := MatchingBlocks(a, b, alo, m.i, blo, m.j);
      var right := MatchingBlocks(a, b, m.i + m.size, ahi, m.j + m.size, bhi);
      LongestMatchIsLongest(a, b, alo, ahi, blo, bhi);
      Join(a, b, left, m, right, alo, ahi, blo, bhi);
      left + [m] + right
  }

  /** The total length of a list of blocks. */
  function Total(bs: seq<Block>): nat
  {
    if bs == [] then 0 else bs[0].size + Total(bs[1..])
  }

  lemma {:induction false} TotalConcat(xs: seq<Block>, ys: seq<Block>)
    ensures Total(xs + ys) == Total(xs) + Total(ys)
    decreases |xs|
  {
    if xs != [] {
      assert (xs + ys)[0] == xs[0];
      assert (xs + ys)[1..] == xs[1..] + ys;
      assert Total(xs + ys) == xs[0].size + Total(xs[1..] + ys);
      TotalConcat(xs[1..], ys);
    } else {
      assert xs + ys == ys;
    }
  }

  /** The blocks of a chain cover at most the whole of either range. */
  lemma {:induction false} ChainTotalBound(a: string, b: string, bs: seq<Block>, alo: nat, ahi: nat, blo: nat, bhi: nat)
    requires Chain(a, b, bs, alo, ahi, blo, bhi)
    ensures Total(bs) <= ahi - alo && Total(bs) <= bhi - blo
    decreases |bs|
  {
    if bs != [] {
      var m := bs[0];
      ChainTotalBound(a, b, bs[1..], m.i + m.size, ahi, m.j + m.size, bhi);
    }
  }

  /** A chain that covers both ranges entirely shows that the two ranges are equal. */
  lemma {:induction false} ChainCoversAll(a: string, b: string, bs: seq<Block>, alo: nat, ahi: nat, blo: nat, bhi: nat)
    requires Chain(a, b, bs, alo, ahi, blo, bhi)
    requires Total(bs) == ahi - alo == bhi - blo
    ensures a[alo..ahi] == b[blo..bhi]
    decreases |bs|
  {
    if bs != [] {
      var m := bs[0];
      ChainTotalBound(a, b, bs[1..], m.i + m.size, ahi, m.j + m.size, bhi);
      assert m.i == alo && m.j == blo;
      ChainCoversAll(a, b, bs[1..], m.i + m.size, ahi, m.j + m.size, bhi);
      BlockSidesEqual(a, b, alo, ahi, blo, bhi, m);
      assert a[alo..ahi] == a[alo..alo + m.size] + a[alo + m.size..ahi];
      assert b[blo..bhi] == b[blo..blo + m.size] + b[blo + m.size..bhi];
    }
  }

  /** The two sides of a common block are equal slices. */
  lemma BlockSidesEqual(a: string, b: string, alo: nat, ahi: nat, blo: nat, bhi: nat, m: Block)
    requires IsMatch(a, b, alo, ahi, blo, bhi, m)
    ensures a[m.i..m.i + m.size] == b[m.j..m.j + m.size]
  {
    var sa, sb := a[m.i..m.i + m.size], b[m.j..m.j + m.size];
    forall t | 0 <= t < |sa| ensures sa[t] == sb[t] {
      assert a[m.i + t] == b[m.j + (m.i + t - m.i)];
    }
  }

  /**
   * M: the number of characters the matching blocks of `a` and `b` pair up.
   * It is at most the length of either text, and it includes the whole longest
   * common block, so it is 0 exactly when that block is empty.
   */
  function Matched(a: string, b: string): (n: nat)
    ensures n <= |a| && n <= |b|
  {
    var bs := MatchingBlocks(a, b, 0, |a|, 0, |b|);
    ChainTotalBound(a, b, bs, 0, |a|, 0, |b|);
    Total(bs)
  }

  /** The matched total includes the whole longest common block, so it is 0 exactly when that block is empty. */
  lemma MatchedCoversLongest(a: string, b: string)
    ensures Matched(a, b) >= LongestMatch(a, b, 0, |a|, 0, |b|).size
    ensures Matched(a, b) == 0 <==> LongestMatch(a, b, 0, |a|, 0, |b|).size == 0
  {
    var m := LongestMatch(a, b, 0, |a|, 0, |b|);
    var bs := MatchingBlocks(a, b, 0, |a|, 0, |b|);
    if m.size > 0 {
      var left := MatchingBlocks(a, b, 0, m.i, 0, m.j);
      var right := MatchingBlocks(a, b, m.i + m.size, |a|, m.j + m.size, |b|);
      assert bs == left + [m] + right;
      TotalConcat(left + [m], right);
      TotalConcat(left, [m]);
      assert Total([m]) == m.size + Total([]);
    } else {
      assert bs == [];
    }
  }

  /** `SequenceMatcher(None, a, b).ratio()`: 2*M/T, or 1.0 for two empty texts. */
  function Ratio(a: string, b: string): (r: real)
    ensures 0.0 <= r <= 1.0
  {
    var t := |a| + |b|;
    if t == 0 then 1.0 else Fraction(2 * Matched(a, b), t)
  }

  /** x / t as an exact real, for 0 <= x <= t. */
  function Fraction(x: nat, t: nat): (r: real)
    requires 0 < t && x <= t
    ensures 0.0 <= r <= 1.0
    ensures r == 1.0 <==> x == t
    ensures r == 0.0 <==> x == 0
  {
    x as real / t as real
  }

  /** A text compared with itself scores 1; this includes two empty texts. */
  lemma RatioOfIdentical(a: string)
    ensures Ratio(a, a) == 1.0
  {
    var n := |a|;
    if n > 0 {
      var m := LongestMatch(a, a, 0, n, 0, n);
      LongestMatchIsLongest(a, a, 0, n, 0, n);
      assert IsMatch(a, a, 0, n, 0, n, Block(0, 0, n));
      MatchedCoversLongest(a, a);
      assert Matched(a, a) == n;
    }
  }

  /** The score is 1 exactly when the two texts are identical. */
  lemma RatioIsOneIff(a: string, b: string)
    ensures Ratio(a, b) == 1.0 <==> a == b
  {
    if a == b {
      RatioOfIdentical(a);
    }
    if Ratio(a, b) == 1.0 && |a| + |b| > 0 {
      var bs := MatchingBlocks(a, b, 0, |a|, 0, |b|);
      assert 2 * Matched(a, b) == |a| + |b|;
      ChainCoversAll(a, b, bs, 0, |a|, 0, |b|);
      assert a == a[0..|a|] && b == b[0..|b|];
    }
  }

  /** Some character common to both texts makes the matched total positive. */
  lemma SharedCharacterMatches(a: string, b: string, i: nat, j: nat)
    requires i < |a| && j < |b| && a[i] == b[j]
    ensures Matched(a, b) > 0
  {
    assert IsMatch(a, b, 0, |a|, 0, |b|, Block(i, j, 1));
    LongestMatchIsLongest(a, b, 0, |a|, 0, |b|);
    MatchedCoversLongest(a, b);
  }

  /** Texts with no character in common match nothing. */
  lemma DisjointTextsMatchNothing(a: string, b: string)
    requires forall i, j :: 0 <= i < |a| && 0 <= j < |b| ==> a[i] != b[j]
    ensures Matched(a, b) == 0
  {
    var m := LongestMatch(a, b, 0, |a|, 0, |b|);
    LongestMatchIsLongest(a, b, 0, |a|, 0, |b|);
    MatchedCoversLongest(a, b);
  }

  /** The score is 0 exactly when some text is non-empty and no character occurs in both. */
  lemma RatioIsZeroIff(a: string, b: string)
    ensures Ratio(a, b) == 0.0 <==> |a| + |b| > 0 && forall i, j :: 0 <= i < |a| && 0 <= j < |b| ==> a[i] != b[j]
  {
    if exists i, j :: 0 <= i < |a| && 0 <= j < |b| && a[i] == b[j] {
      var i, j :| 0 <= i < |a| && 0 <= j < |b| && a[i] == b[j];
      SharedCharacterMatches(a, b, i, j);
    } else {
      DisjointTextsMatchNothing(a, b);
    }
  }
}
