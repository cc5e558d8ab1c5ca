/**
 * Cross products of per-dimension lists, listed in row-major or
 * col-major order. The same construction describes three things of a
 * subarray: its multi-dimensional ranges (product of the 1D range
 * lists), its logical cells (product of the per-dimension cell lists)
 * and the tiles it touches (product of the per-dimension tile lists).
 */
module Product {
  import opened Types
  import opened Arith
  import opened MixedRadix

  function Lengths<T>(lists: seq<seq<T>>): (counts: seq<nat>)
    ensures |counts| == |lists|
    ensures forall d :: 0 <= d < |lists| ==> counts[d] == |lists[d]|
  {
    seq(|lists|, d requires 0 <= d < |lists| => |lists[d]|)
  }

  /** The tuple that takes entry `c[d]` of list `d` along every dimension `d`. */
  function Pick<T>(lists: seq<seq<T>>, c: seq<nat>): (x: seq<T>)
    requires InBounds(Lengths(lists), c)
    ensures |x| == |lists|
  {
    seq(|lists|, d requires 0 <= d < |lists| => lists[d][c[d]])
  }

  function Flatten<T>(xss: seq<seq<T>>): seq<T> {
    if |xss| == 0 then [] else xss[0] + Flatten(xss[1..])
  }

  function PrependEach<T>(x: T, xss: seq<seq<T>>): seq<seq<T>> {
    seq(|xss|, k requires 0 <= k < |xss| => [x] + xss[k])
  }

  function AppendEach<T>(xss: seq<seq<T>>, x: T): seq<seq<T>> {
    seq(|xss|, k requires 0 <= k < |xss| => xss[k] + [x])
  }

  /**
   * Row-major cross product: for each entry of the first list in turn,
   * all combinations of the remaining lists.
   */
  function RowProduct<T>(lists: seq<seq<T>>): seq<seq<T>>
    decreases |lists|
  {
    if |lists| == 0 then [[]]
    else
      var rest := RowProduct(lists[1..]);
      Flatten(seq(|lists[0]|, j requires 0 <= j < |lists[0]| => PrependEach(lists[0][j], rest)))
  }

  /**
   * Col-major cross product: for each entry of the last list in turn,
   * all combinations of the preceding lists.
   */
  function ColProduct<T>(lists: seq<seq<T>>): seq<seq<T>>
    decreases |lists|
  {
    if |lists| == 0 then [[]]
    else
      var n := |lists|;
      var rest := ColProduct(lists[..n - 1]);
      Flatten(seq(|lists[n - 1]|, j requires 0 <= j < |lists[n - 1]| => AppendEach(rest, lists[n - 1][j])))
  }

  function CrossProduct<T>(lists: seq<seq<T>>, order: Order): seq<seq<T>> {
    if order == RowMajor then RowProduct(lists) else ColProduct(lists)
  }

  /* ---------------- flattening ---------------- */

  lemma {:induction false} FlattenLength<T>(xss: seq<seq<T>>, m: nat)
    requires forall k :: 0 <= k < |xss| ==> |xss[k]| == m
    ensures |Flatten(xss)| == |xss| * m
    decreases |xss|
  {
    if |xss| > 0 {
      FlattenLength(xss[1..], m);
      MulSucc(|xss| - 1, m);
    }
  }

  /** In a concatenation of blocks of equal size `m`, entry `i` is entry `i % m` of block `i / m`. */
  lemma {:induction false} FlattenIndex<T>(xss: seq<seq<T>>, m: nat, i: nat)
    requires forall k :: 0 <= k < |xss| ==> |xss[k]| == m
    requires i < |xss| * m
    ensures m > 0 && i / m < |xss|
    ensures i < |Flatten(xss)| && Flatten(xss)[i] == xss[i / m][i % m]
    decreases |xss|
  {
    FlattenLength(xss, m);
    var q, r := QuotRem(i, m, |xss|);
    var rest := xss[1..];
    assert Flatten(xss) == xss[0] + Flatten(rest);
    if i < m {
      DivModUnique(i, m, 0, i);
    } else {
      FlattenLength(rest, m);
      MulSucc(|xss| - 1, m);
      FlattenIndex(rest, m, i - m);
      MulComm(m, q);
      MulSucc(q - 1, m);
      DivModUnique(i - m, m, q - 1, r);
      assert rest[q - 1] == xss[q];
    }
  }

  /* ---------------- sizes and indexing ---------------- */

  lemma {:induction false} RowProductLength<T>(lists: seq<seq<T>>)
    ensures |RowProduct(lists)| == Prod(Lengths(lists))
    decreases |lists|
  {
    if |lists| > 0 {
      var rest := RowProduct(lists[1..]);
      RowProductLength(lists[1..]);
      assert Lengths(lists)[1..] == Lengths(lists[1..]);
      var blocks := seq(|lists[0]|, j requires 0 <= j < |lists[0]| => PrependEach(lists[0][j], rest));
      FlattenLength(blocks, |rest|);
      MulComm(|lists[0]|, |rest|);
    }
  }

  lemma {:induction false} ColProductLength<T>(lists: seq<seq<T>>)
    ensures |ColProduct(lists)| == Prod(Lengths(lists))
    decreases |lists|
  {
    if |lists| > 0 {
      var n := |lists|;
      var rest := ColProduct(lists[..n - 1]);
      ColProductLength(lists[..n - 1]);
      assert Lengths(lists)[..n - 1] == Lengths(lists[..n - 1]);
      var last := |lists[n - 1]|;
      ProdLast(Lengths(lists));
      assert Prod(Lengths(lists)) == |rest| * last;
      var blocks := seq(last, j requires 0 <= j < last => AppendEach(rest, lists[n - 1][j]));
      FlattenLength(blocks, |rest|);
      MulComm(last, |rest|);
    }
  }

  /** Picking splits off the first dimension. */
  lemma PickCons<T>(lists: seq<seq<T>>, c: seq<nat>)
    requires InBounds(Lengths(lists), c) && |lists| > 0
    ensures InBounds(Lengths(lists[1..]), c[1..])
    ensures Pick(lists, c) == [lists[0][c[0]]] + Pick(lists[1..], c[1..])
  {
    var x := Pick(lists, c);
    assert InBounds(Lengths(lists[1..]), c[1..]);
    forall d | 1 <= d < |lists|
      ensures x[d] == Pick(lists[1..], c[1..])[d - 1]
    {
    }
  }

  /** Picking splits off the last dimension. */
  lemma PickSnoc<T>(lists: seq<seq<T>>, c: seq<nat>)
    requires InBounds(Lengths(lists), c) && |lists| > 0
    ensures InBounds(Lengths(lists[..|lists| - 1]), c[..|lists| - 1])
    ensures Pick(lists, c) == Pick(lists[..|lists| - 1], c[..|lists| - 1]) + [lists[|lists| - 1][c[|lists| - 1]]]
  {
    var n := |lists|;
    var x := Pick(lists, c);
    assert InBounds(Lengths(lists[..n - 1]), c[..n - 1]);
    forall d | 0 <= d < n - 1
      ensures x[d] == Pick(lists[..n - 1], c[..n - 1])[d]
    {
    }
  }

  /** Entry `i` of the row-major product is the tuple picked by the row-major decoding of `i`. */
  lemma {:induction false} RowProductAt<T>(lists: seq<seq<T>>, i: nat)
    requires i < Prod(Lengths(lists))
    ensures InBounds(Lengths(lists), DecodeRow(Lengths(lists), i))
    ensures i < |RowProduct(lists)|
    ensures RowProduct(lists)[i] == Pick(lists, DecodeRow(Lengths(lists), i))
    decreases |lists|
  {
    RowProductLength(lists);
    DecodeRowCorrect(Lengths(lists), i);
    if |lists| > 0 {
      var tail := lists[1..];
      var rest := RowProduct(tail);
      RowProductLength(tail);
      assert Lengths(lists)[1..] == Lengths(tail);
      var p := Prod(Lengths(tail));
      assert Prod(Lengths(lists)) == |lists[0]| * p;
      MulComm(|lists[0]|, p);
      var blocks := seq(|lists[0]|, j requires 0 <= j < |lists[0]| => PrependEach(lists[0][j], rest));
      FlattenIndex(blocks, p, i);
      var q, r := i / p, i % p;
      RowProductAt(tail, r);
      var c := DecodeRow(Lengths(lists), i);
      assert c == [q] + DecodeRow(Lengths(tail), r);
      PickCons(lists, c);
    }
  }

  /** Entry `i` of the col-major product is the tuple picked by the col-major decoding of `i`. */
  lemma {:induction false} ColProductAt<T>(lists: seq<seq<T>>, i: nat)
    requires i < Prod(Lengths(lists))
    ensures InBounds(Lengths(lists), DecodeCol(Lengths(lists), i))
    ensures i < |ColProduct(lists)|
    ensures ColProduct(lists)[i] == Pick(lists, DecodeCol(Lengths(lists), i))
    decreases |lists|
  {
    ColProductLength(lists);
    DecodeColCorrect(Lengths(lists), i);
    if |lists| > 0 {
      var n := |lists|;
      var init := lists[..n - 1];
      var rest := ColProduct(init);
      ColProductLength(init);
      assert Lengths(lists)[..n - 1] == Lengths(init);
      var p := Prod(Lengths(init));
      ProdLast(Lengths(lists));
      assert Prod(Lengths(lists)) == p * |lists[n - 1]|;
      MulComm(p, |lists[n - 1]|);
      var blocks := seq(|lists[n - 1]|, j requires 0 <= j < |lists[n - 1]| => AppendEach(rest, lists[n - 1][j]));
      FlattenIndex(blocks, p, i);
      var q, r := i / p, i % p;
      ColProductAt(init, r);
      var c := DecodeCol(Lengths(lists), i);
      assert c == DecodeCol(Lengths(init), r) + [q];
      PickSnoc(lists, c);
    }
  }

  /** The product holds one tuple per combination, at the position given by the mixed-radix id. */
  lemma CrossProductAt<T>(lists: seq<seq<T>>, order: Order, i: nat)
    requires i < Prod(Lengths(lists))
    ensures |CrossProduct(lists, order)| == Prod(Lengths(lists))
    ensures InBounds(Lengths(lists), Decode(Lengths(lists), order, i))
    ensures CrossProduct(lists, order)[i] == Pick(lists, Decode(Lengths(lists), order, i))
  {
    if order == RowMajor {
      RowProductLength(lists);
      RowProductAt(lists, i);
    } else {
      ColProductLength(lists);
      ColProductAt(lists, i);
    }
  }

  lemma CrossProductLength<T>(lists: seq<seq<T>>, order: Order)
    ensures |CrossProduct(lists, order)| == Prod(Lengths(lists))
  {
    if order == RowMajor {
      RowProductLength(lists);
    } else {
      ColProductLength(lists);
    }
  }

  /* ---------------- contents and order ---------------- */

  /** The position of the first occurrence of `v` in `xs`. */
  function IndexOf<T(==)>(xs: seq<T>, v: T): (k: nat)
    requires v in xs
    ensures k < |xs| && xs[k] == v
  {
    if xs[0] == v then 0 else 1 + IndexOf(xs[1..], v)
  }

  /** A tuple is in the product exactly when each of its entries is in the list of its dimension. */
  lemma CrossProductMember<T>(lists: seq<seq<T>>, order: Order, x: seq<T>)
    ensures x in CrossProduct(lists, order) <==>
              |x| == |lists| && forall d :: 0 <= d < |lists| ==> x[d] in lists[d]
  {
    var counts := Lengths(lists);
    CrossProductLength(lists, order);
    if x in CrossProduct(lists, order) {
      var i :| 0 <= i < |CrossProduct(lists, order)| && CrossProduct(lists, order)[i] == x;
      CrossProductAt(lists, order, i);
      var c := Decode(counts, order, i);
      assert forall d :: 0 <= d < |lists| ==> x[d] == lists[d][c[d]];
    }
    if |x| == |lists| && forall d :: 0 <= d < |lists| ==> x[d] in lists[d] {
      var c := seq(|lists|, d requires 0 <= d < |lists| => IndexOf(lists[d], x[d]));
      assert InBounds(counts, c);
      EncodeCorrect(counts, order, c);
      var i := Dot(Offsets(counts, order), c);
      CrossProductAt(lists, order, i);
      assert Pick(lists, c) == x;
    }
  }

  /** Each list of `ts` is the slice `lo[d]..hi[d]` of the list of `ss` along the same dimension. */
  ghost predicate SlicesOf<T>(ts: seq<seq<T>>, ss: seq<seq<T>>, lo: seq<nat>, hi: seq<nat>) {
    && |ts| == |ss| && |lo| == |ss| && |hi| == |ss|
    && forall d :: 0 <= d < |ss| ==> lo[d] <= hi[d] < |ss[d]| && ts[d] == ss[d][lo[d]..hi[d] + 1]
  }

  /** A tuple whose entries come from the slices is picked at indices inside the box. */
  lemma SlicePickInBox<T>(ss: seq<seq<T>>, ts: seq<seq<T>>, lo: seq<nat>, hi: seq<nat>, x: seq<T>)
    requires SlicesOf(ts, ss, lo, hi)
    requires |x| == |ts| && forall d :: 0 <= d < |ts| ==> x[d] in ts[d]
    ensures exists c :: InBounds(Lengths(ss), c) && InBox(c, lo, hi) && x == Pick(ss, c)
  {
    var n := |ss|;
    var c := seq(n, d requires 0 <= d < n => lo[d] + IndexOf(ts[d], x[d]));
    forall d | 0 <= d < n
      ensures lo[d] <= c[d] <= hi[d] && ss[d][c[d]] == x[d]
    {
      var k := IndexOf(ts[d], x[d]);
      assert ts[d][k] == ss[d][lo[d] + k];
    }
    assert InBounds(Lengths(ss), c) && InBox(c, lo, hi);
    assert x == Pick(ss, c);
  }

  /**
   * The product of the slices `lo[d]..hi[d]` of the lists `ss` holds
   * exactly the tuples picked at indices inside the box from `lo` to `hi`.
   */
  lemma CrossProductOfSlices<T>(ss: seq<seq<T>>, ts: seq<seq<T>>, lo: seq<nat>, hi: seq<nat>, order: Order, x: seq<T>)
    requires SlicesOf(ts, ss, lo, hi)
    ensures x in CrossProduct(ts, order) <==>
              exists c :: InBounds(Lengths(ss), c) && InBox(c, lo, hi) && x == Pick(ss, c)
  {
    CrossProductMember(ts, order, x);
    if x in CrossProduct(ts, order) {
      SlicePickInBox(ss, ts, lo, hi, x);
    }
    if exists c :: InBounds(Lengths(ss), c) && InBox(c, lo, hi) && x == Pick(ss, c) {
      var c :| InBounds(Lengths(ss), c) && InBox(c, lo, hi) && x == Pick(ss, c);
      forall d | 0 <= d < |ss|
        ensures x[d] in ts[d]
      {
        assert ts[d][c[d] - lo[d]] == ss[d][c[d]];
      }
    }
  }

  predicate StrictlyIncreasing(xs: seq<int>) {
    forall i, j :: 0 <= i < j < |xs| ==> xs[i] < xs[j]
  }

  /** Picking from strictly increasing lists keeps the row-major order of index tuples. */
  lemma {:induction false} PickLexLess(lists: seq<seq<int>>, c1: seq<nat>, c2: seq<nat>)
    requires forall d :: 0 <= d < |lists| ==> StrictlyIncreasing(lists[d])
    requires InBounds(Lengths(lists), c1) && InBounds(Lengths(lists), c2)
    requires LexLess(c1, c2)
    ensures LexLess(Pick(lists, c1), Pick(lists, c2))
    decreases |lists|
  {
    var x1, x2 := Pick(lists, c1), Pick(lists, c2);
    if c1[0] == c2[0] {
      var tail := lists[1..];
      assert InBounds(Lengths(tail), c1[1..]) && InBounds(Lengths(tail), c2[1..]);
      PickLexLess(tail, c1[1..], c2[1..]);
      assert x1[1..] == Pick(tail, c1[1..]);
      assert x2[1..] == Pick(tail, c2[1..]);
    }
  }

  /** Picking from strictly increasing lists keeps the col-major order of index tuples. */
  lemma {:induction false} PickColexLess(lists: seq<seq<int>>, c1: seq<nat>, c2: seq<nat>)
    requires forall d :: 0 <= d < |lists| ==> StrictlyIncreasing(lists[d])
    requires InBounds(Lengths(lists), c1) && InBounds(Lengths(lists), c2)
    requires ColexLess(c1, c2)
    ensures ColexLess(Pick(lists, c1), Pick(lists, c2))
    decreases |lists|
  {
    var n := |lists|;
    var x1, x2 := Pick(lists, c1), Pick(lists, c2);
    if c1[n - 1] == c2[n - 1] {
      var init := lists[..n - 1];
      assert InBounds(Lengths(init), c1[..n - 1]) && InBounds(Lengths(init), c2[..n - 1]);
      PickColexLess(init, c1[..n - 1], c2[..n - 1]);
      assert x1[..n - 1] == Pick(init, c1[..n - 1]);
      assert x2[..n - 1] == Pick(init, c2[..n - 1]);
    }
  }

  /** The product of strictly increasing lists is strictly increasing in its own order. */
  lemma CrossProductSorted(lists: seq<seq<int>>, order: Order)
    requires forall d :: 0 <= d < |lists| ==> StrictlyIncreasing(lists[d])
    ensures SortedIn(order, CrossProduct(lists, order))
  {
    var counts := Lengths(lists);
    var xs := CrossProduct(lists, order);
    CrossProductLength(lists, order);
    forall i, j | 0 <= i < j < |xs|
      ensures Before(order, xs[i], xs[j])
    {
      CrossProductAt(lists, order, i);
      CrossProductAt(lists, order, j);
      DecodeMonotone(counts, order, i, j);
      if order == RowMajor {
        PickLexLess(lists, Decode(counts, order, i), Decode(counts, order, j));
      } else {
        PickColexLess(lists, Decode(counts, order, i), Decode(counts, order, j));
      }
    }
  }
}
