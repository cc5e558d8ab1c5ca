/**
 * Mixed-radix numbering of multi-dimensional range coordinates.
 *
 * A subarray with `counts[d]` ranges on dimension `d` has `Prod(counts)`
 * multi-dimensional ranges. Each is named either by a coordinate tuple
 * `c` (one range index per dimension) or by a single flattened id.
 * In row-major order the last dimension varies fastest, in col-major
 * order the first one does. The id is the dot product of the tuple with
 * a vector of offsets, and the tuple is recovered from the id by
 * repeated division.
 */
module MixedRadix {
  import opened Types
  import opened Arith

  function Prod(xs: seq<nat>): nat {
    if |xs| == 0 then 1 else xs[0] * Prod(xs[1..])
  }

  /** `c` names one range per dimension: each entry is below that dimension's count. */
  predicate InBounds(counts: seq<nat>, c: seq<nat>) {
    |c| == |counts| && forall d :: 0 <= d < |c| ==> c[d] < counts[d]
  }

  /** `c` lies between `lo` and `hi` on every dimension. */
  predicate InBox(c: seq<nat>, lo: seq<nat>, hi: seq<nat>)
    requires |lo| == |c| && |hi| == |c|
  {
    forall d :: 0 <= d < |c| ==> lo[d] <= c[d] <= hi[d]
  }

  /** Row-major: a step along dimension `d` skips all combinations of the later dimensions. */
  function RowOffsets(counts: seq<nat>): seq<nat> {
    seq(|counts|, d requires 0 <= d < |counts| => Prod(counts[d + 1..]))
  }

  /** Col-major: a step along dimension `d` skips all combinations of the earlier dimensions. */
  function ColOffsets(counts: seq<nat>): seq<nat> {
    seq(|counts|, d requires 0 <= d < |counts| => Prod(counts[..d]))
  }

  function Offsets(counts: seq<nat>, order: Order): seq<nat> {
    if order == RowMajor then RowOffsets(counts) else ColOffsets(counts)
  }

  function Dot(off: seq<nat>, c: seq<nat>): nat
    requires |off| == |c|
  {
    if |c| == 0 then 0 else off[0] * c[0] + Dot(off[1..], c[1..])
  }

  /** Row-major decoding: peel off the first (slowest) dimension by division. */
  function DecodeRow(counts: seq<nat>, i: nat): (c: seq<nat>)
    requires i < Prod(counts)
    ensures |c| == |counts|
    decreases |counts|
  {
    if |counts| == 0 then []
    else
      var p := Prod(counts[1..]);
      [i / p] + DecodeRow(counts[1..], i % p)
  }

  /** Col-major decoding: peel off the last (slowest) dimension by division. */
  function DecodeCol(counts: seq<nat>, i: nat): (c: seq<nat>)
    requires i < Prod(counts)
    ensures |c| == |counts|
    decreases |counts|
  {
    if |counts| == 0 then []
    else
      var n := |counts|;
      var p := Prod(counts[..n - 1]);
      ProdLast(counts);
      DecodeCol(counts[..n - 1], i % p) + [i / p]
  }

  function Decode(counts: seq<nat>, order: Order, i: nat): seq<nat>
    requires i < Prod(counts)
  {
    if order == RowMajor then DecodeRow(counts, i) else DecodeCol(counts, i)
  }

  /* ---------------- arithmetic helpers ---------------- */

  lemma {:induction false} ProdLast(xs: seq<nat>)
    requires |xs| > 0
    ensures Prod(xs) == Prod(xs[..|xs| - 1]) * xs[|xs| - 1]
    decreases |xs|
  {
    if |xs| > 1 {
      var n := |xs|;
      ProdLast(xs[1..]);
      var init := xs[..n - 1];
      assert xs[1..][..n - 2] == init[1..];
      var a, b, c := xs[0], Prod(init[1..]), xs[n - 1];
      assert Prod(xs[1..]) == b * c;
      assert Prod(init) == a * b;
      MulAssoc(a, b, c);
    } else {
      assert xs[..0] == [];
    }
  }

  /** The product is positive exactly when every count is. */
  lemma ProdPositive(xs: seq<nat>)
    ensures Prod(xs) > 0 <==> forall d :: 0 <= d < |xs| ==> xs[d] > 0
    decreases |xs|
  {
    if |xs| > 0 {
      ProdPositive(xs[1..]);
      assert forall d :: 1 <= d < |xs| ==> xs[d] == xs[1..][d - 1];
    }
  }

  /** The product is one exactly when every count is one. */
  lemma ProdOne(xs: seq<nat>)
    ensures Prod(xs) == 1 <==> forall d :: 0 <= d < |xs| ==> xs[d] == 1
    decreases |xs|
  {
    if |xs| > 0 {
      ProdOne(xs[1..]);
      assert forall d :: 1 <= d < |xs| ==> xs[d] == xs[1..][d - 1];
    }
  }

  /** Splits `i < k * p` into a quotient below `k` and a remainder below `p`. */
  lemma QuotRem(i: nat, p: nat, k: nat) returns (q: nat, r: nat)
    requires i < k * p
    ensures p > 0 && q == i / p && r == i % p
    ensures q < k && r < p && i == p * q + r
  {
    q, r := i / p, i % p;
    MulComm(q, p);
    MulCancelLt(q, k, p);
  }

  /** Joins a digit below `k` and a remainder below `p` into a number below `k * p`. */
  lemma Compose(i: int, p: nat, q: nat, x: nat, k: nat)
    requires x < p && q < k
    requires i == p * q + x
    ensures i < k * p && i / p == q && i % p == x
  {
    MulComm(p, q);
    MulSucc(q, p);
    MulMonoLe(q + 1, k, p);
    DivModUnique(i, p, q, x);
  }

  lemma RowOffsetsCons(counts: seq<nat>)
    requires |counts| > 0
    ensures RowOffsets(counts) == [Prod(counts[1..])] + RowOffsets(counts[1..])
  {
    var n := |counts|;
    forall d | 1 <= d < n
      ensures RowOffsets(counts)[d] == RowOffsets(counts[1..])[d - 1]
    {
      assert counts[d + 1..] == counts[1..][d..];
    }
  }

  lemma ColOffsetsSnoc(counts: seq<nat>)
    requires |counts| > 0
    ensures ColOffsets(counts) == ColOffsets(counts[..|counts| - 1]) + [Prod(counts[..|counts| - 1])]
  {
    var n := |counts|;
    forall d | 0 <= d < n - 1
      ensures ColOffsets(counts)[d] == ColOffsets(counts[..n - 1])[d]
    {
      assert counts[..d] == counts[..n - 1][..d];
    }
  }

  lemma DotSnoc(a: seq<nat>, b: seq<nat>, x: nat, y: nat)
    requires |a| == |b|
    ensures Dot(a + [x], b + [y]) == Dot(a, b) + x * y
    decreases |a|
  {
    if |a| > 0 {
      assert (a + [x])[1..] == a[1..] + [x];
      assert (b + [y])[1..] == b[1..] + [y];
      DotSnoc(a[1..], b[1..], x, y);
    }
  }

  /* ---------------- round trips ---------------- */

  /** Decoding an id yields an in-bounds tuple whose row-major id is the original one. */
  lemma {:induction false} DecodeRowCorrect(counts: seq<nat>, i: nat)
    requires i < Prod(counts)
    ensures InBounds(counts, DecodeRow(counts, i))
    ensures Dot(RowOffsets(counts), DecodeRow(counts, i)) == i
    decreases |counts|
  {
    if |counts| > 0 {
      var tail := counts[1..];
      var p := Prod(tail);
      assert Prod(counts) == counts[0] * p;
      var q, r := QuotRem(i, p, counts[0]);
      DecodeRowCorrect(tail, r);
      var c := DecodeRow(counts, i);
      var ct := DecodeRow(tail, r);
      assert c == [q] + ct;
      forall d | 1 <= d < |c|
        ensures c[d] < counts[d]
      {
        assert c[d] == ct[d - 1];
      }
      RowOffsetsCons(counts);
      assert c[1..] == ct;
      assert Dot(RowOffsets(counts), c) == p * q + Dot(RowOffsets(tail), ct);
    }
  }

  /** Every in-bounds tuple has a row-major id below the range count, which decodes back to it. */
  lemma {:induction false} EncodeRowCorrect(counts: seq<nat>, c: seq<nat>)
    requires InBounds(counts, c)
    ensures Dot(RowOffsets(counts), c) < Prod(counts)
    ensures DecodeRow(counts, Dot(RowOffsets(counts), c)) == c
    decreases |counts|
  {
    if |counts| > 0 {
      var tail := counts[1..];
      var p := Prod(tail);
      assert Prod(counts) == counts[0] * p;
      assert InBounds(tail, c[1..]);
      EncodeRowCorrect(tail, c[1..]);
      var x := Dot(RowOffsets(tail), c[1..]);
      RowOffsetsCons(counts);
      var i := Dot(RowOffsets(counts), c);
      assert i == p * c[0] + x;
      Compose(i, p, c[0], x, counts[0]);
      assert DecodeRow(counts, i) == [c[0]] + DecodeRow(tail, x);
    }
  }

  /** Decoding an id yields an in-bounds tuple whose col-major id is the original one. */
  lemma {:induction false} DecodeColCorrect(counts: seq<nat>, i: nat)
    requires i < Prod(counts)
    ensures InBounds(counts, DecodeCol(counts, i))
    ensures Dot(ColOffsets(counts), DecodeCol(counts, i)) == i
    decreases |counts|
  {
    if |counts| > 0 {
      var n := |counts|;
      var init := counts[..n - 1];
      var p := Prod(init);
      ProdLast(counts);
      MulComm(p, counts[n - 1]);
      var q, r := QuotRem(i, p, counts[n - 1]);
      DecodeColCorrect(init, r);
      var c := DecodeCol(counts, i);
      var ci := DecodeCol(init, r);
      assert c == ci + [q];
      forall d | 0 <= d < n - 1
        ensures c[d] < counts[d]
      {
        assert c[d] == ci[d];
      }
      ColOffsetsSnoc(counts);
      DotSnoc(ColOffsets(init), ci, p, q);
    }
  }

  /** Every in-bounds tuple has a col-major id below the range count, which decodes back to it. */
  lemma {:induction false} EncodeColCorrect(counts: seq<nat>, c: seq<nat>)
    requires InBounds(counts, c)
    ensures Dot(ColOffsets(counts), c) < Prod(counts)
    ensures DecodeCol(counts, Dot(ColOffsets(counts), c)) == c
    decreases |counts|
  {
    if |counts| > 0 {
      var n := |counts|;
      var init := counts[..n - 1];
      var p := Prod(init);
      ProdLast(counts);
      MulComm(p, counts[n - 1]);
      var ci := c[..n - 1];
      assert InBounds(init, ci);
      EncodeColCorrect(init, ci);
      var offs, last := ColOffsets(init), c[n - 1];
      var x := Dot(offs, ci);
      ColOffsetsSnoc(counts);
      assert c == ci + [last];
      DotSnoc(offs, ci, p, last);
      var i := Dot(offs + [p], ci + [last]);
      assert Dot(ColOffsets(counts), c) == i;
      Compose(i, p, last, x, counts[n - 1]);
      assert DecodeCol(counts, i) == DecodeCol(init, x) + [last];
    }
  }

  /** Round trip from ids, for either order. */
  lemma {:induction false} DecodeCorrect(counts: seq<nat>, order: Order, i: nat)
    requires i < Prod(counts)
    ensures InBounds(counts, Decode(counts, order, i))
    ensures Dot(Offsets(counts, order), Decode(counts, order, i)) == i
  {
    if order == RowMajor {
      DecodeRowCorrect(counts, i);
    } else {
      DecodeColCorrect(counts, i);
    }
  }

  /** Round trip from tuples, for either order. */
  lemma {:induction false} EncodeCorrect(counts: seq<nat>, order: Order, c: seq<nat>)
    requires InBounds(counts, c)
    ensures Dot(Offsets(counts, order), c) < Prod(counts)
    ensures Decode(counts, order, Dot(Offsets(counts, order), c)) == c
  {
    if order == RowMajor {
      EncodeRowCorrect(counts, c);
    } else {
      EncodeColCorrect(counts, c);
    }
  }

  /* ---------------- order of ids ---------------- */

  /** Strict row-major order on tuples of equal length: the first dimension is most significant. */
  predicate LexLess(a: seq<int>, b: seq<int>)
    decreases |a|
  {
    && |a| == |b| && |a| > 0
    && (a[0] < b[0] || (a[0] == b[0] && LexLess(a[1..], b[1..])))
  }

  /** Strict col-major order on tuples of equal length: the last dimension is most significant. */
  predicate ColexLess(a: seq<int>, b: seq<int>)
    decreases |a|
  {
    var n := |a|;
    && n == |b| && n > 0
    && (a[n - 1] < b[n - 1] || (a[n - 1] == b[n - 1] && ColexLess(a[..n - 1], b[..n - 1])))
  }

  predicate Before(order: Order, a: seq<int>, b: seq<int>) {
    if order == RowMajor then LexLess(a, b) else ColexLess(a, b)
  }

  /** A sequence strictly increasing in the given order (hence free of duplicates). */
  predicate SortedIn(order: Order, xs: seq<seq<int>>) {
    forall i, j :: 0 <= i < j < |xs| ==> Before(order, xs[i], xs[j])
  }

  lemma {:induction false} LexLessIrreflexive(a: seq<int>)
    ensures !LexLess(a, a)
    decreases |a|
  {
    if |a| > 0 {
      LexLessIrreflexive(a[1..]);
    }
  }

  lemma {:induction false} ColexLessIrreflexive(a: seq<int>)
    ensures !ColexLess(a, a)
    decreases |a|
  {
    if |a| > 0 {
      ColexLessIrreflexive(a[..|a| - 1]);
    }
  }

  /** Elements of a strictly sorted sequence are pairwise distinct. */
  lemma SortedDistinct(order: Order, xs: seq<seq<int>>)
    requires SortedIn(order, xs)
    ensures forall i, j :: 0 <= i < |xs| && 0 <= j < |xs| && i != j ==> xs[i] != xs[j]
  {
    forall i, j | 0 <= i < |xs| && 0 <= j < |xs| && i != j
      ensures xs[i] != xs[j]
    {
      if order == RowMajor {
        LexLessIrreflexive(xs[i]);
      } else {
        ColexLessIrreflexive(xs[i]);
      }
    }
  }

  /** Larger row-major ids decode to lexicographically larger tuples. */
  lemma {:induction false} DecodeRowMonotone(counts: seq<nat>, a: nat, b: nat)
    requires a < b < Prod(counts)
    ensures LexLess(DecodeRow(counts, a), DecodeRow(counts, b))
    decreases |counts|
  {
    if |counts| == 0 {
      assert false;
    }
    var tail := counts[1..];
    var p := Prod(tail);
    assert Prod(counts) == counts[0] * p;
    var qa, ra := QuotRem(a, p, counts[0]);
    var qb, rb := QuotRem(b, p, counts[0]);
    DivMonotone(a, b, p);
    var da, db := DecodeRow(counts, a), DecodeRow(counts, b);
    assert da == [qa] + DecodeRow(tail, ra);
    assert db == [qb] + DecodeRow(tail, rb);
    assert da[1..] == DecodeRow(tail, ra) && db[1..] == DecodeRow(tail, rb);
    if qa == qb {
      assert p * qa == p * qb;
      assert ra < rb;
      DecodeRowMonotone(tail, ra, rb);
    }
  }

  /** Larger col-major ids decode to larger tuples in col-major order. */
  lemma {:induction false} DecodeColMonotone(counts: seq<nat>, a: nat, b: nat)
    requires a < b < Prod(counts)
    ensures ColexLess(DecodeCol(counts, a), DecodeCol(counts, b))
    decreases |counts|
  {
    if |counts| == 0 {
      assert false;
    }
    var n := |counts|;
    var init := counts[..n - 1];
    var p := Prod(init);
    ProdLast(counts);
    MulComm(p, counts[n - 1]);
    var qa, ra := QuotRem(a, p, counts[n - 1]);
    var qb, rb := QuotRem(b, p, counts[n - 1]);
    DivMonotone(a, b, p);
    var da, db := DecodeCol(counts, a), DecodeCol(counts, b);
    assert da == DecodeCol(init, ra) + [qa];
    assert db == DecodeCol(init, rb) + [qb];
    assert da[..n - 1] == DecodeCol(init, ra) && db[..n - 1] == DecodeCol(init, rb);
    if qa == qb {
      assert p * qa == p * qb;
      assert ra < rb;
      DecodeColMonotone(init, ra, rb);
    }
  }

  /** Ids are numbered in the order of their tuples. */
  lemma DecodeMonotone(counts: seq<nat>, order: Order, a: nat, b: nat)
    requires a < b < Prod(counts)
    ensures Before(order, Decode(counts, order, a), Decode(counts, order, b))
  {
    if order == RowMajor {
      DecodeRowMonotone(counts, a, b);
    } else {
      DecodeColMonotone(counts, a, b);
    }
  }
}
