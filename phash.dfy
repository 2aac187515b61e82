/**
 * The Phash_Bis class: a perceptual hash whose bits are ordered from the most
 * to the least visually significant DCT frequency, so that hashes sort
 * roughly by similarity.  The constructor builds the reorder table; `Hash`
 * thresholds the low-frequency block of the DCT output and emits one bit per
 * table entry.
 */
module Phash {
  import opened Wrappers
  import opened Reorder
  import opened OrderedArray
  import opened Threshold
  import opened Accumulator
  import opened Encoding

  /** The builder has placed layers 0 .. l-1 (in insertion order, not yet sorted). */
  ghost predicate LayersBelow(s: seq<Entry>, l: nat)
  {
    |s| == l * l && DistinctKeys(s) &&
    forall j :: 0 <= j < |s| ==>
      s[j].key < l * l && Pos(s[j].pair) == s[j].key && InBlock(s[j].pair, l)
  }

  /** Every entry holds a pair of the first l + 1 layers at the step Pos gives it. */
  ghost predicate PlacedBy(s: seq<Entry>, l: nat)
  {
    forall j :: 0 <= j < |s| ==> Pos(s[j].pair) == s[j].key && InBlock(s[j].pair, l + 1)
  }

  /** Layers below l, then the pairs (0, l) .. (u-1, l) at steps l*l, l*l + 2, ... */
  ghost predicate ColumnsPlaced(s: seq<Entry>, l: nat, u: nat)
  {
    |s| == l * l + u && DistinctKeys(s) && PlacedBy(s, l) &&
    (forall j :: 0 <= j < l * l ==> s[j].key < l * l) &&
    (forall j :: l * l <= j < |s| ==> s[j].key == l * l + 2 * (j - l * l))
  }

  /** All of layer l's column pairs, then the pairs (l, 0) .. (l, v-1) at steps l*l + 1, l*l + 3, ... */
  ghost predicate RowsPlaced(s: seq<Entry>, l: nat, v: nat)
  {
    |s| == l * l + l + 1 + v && DistinctKeys(s) && PlacedBy(s, l) &&
    (forall j :: 0 <= j < l * l ==> s[j].key < l * l) &&
    (forall j :: l * l <= j < l * l + l + 1 ==> s[j].key == l * l + 2 * (j - l * l)) &&
    (forall j :: l * l + l + 1 <= j < |s| ==> s[j].key == l * l + 2 * (j - l * l - l - 1) + 1)
  }

  lemma StartColumns(s: seq<Entry>, l: nat)
    requires LayersBelow(s, l)
    ensures ColumnsPlaced(s, l, 0)
  {
  }

  lemma StartRows(s: seq<Entry>, l: nat)
    requires ColumnsPlaced(s, l, l + 1)
    ensures RowsPlaced(s, l, 0)
  {
  }

  /** Assigning (u, l) at step l*l + 2u writes a fresh step: the table grows by that entry. */
  lemma ColumnStep(s: seq<Entry>, l: nat, u: nat)
    requires u <= l && ColumnsPlaced(s, l, u)
    ensures !HasKey(s, l * l + 2 * u)
    ensures ColumnsPlaced(Put(s, l * l + 2 * u, Pair(u, l)), l, u + 1)
  {
    var q := l * l;
    var k := q + 2 * u;
    forall j | 0 <= j < |s|
      ensures s[j].key < k
    {
      if j < q {
        assert s[j].key < q;
      } else {
        assert s[j].key == q + 2 * (j - q);
      }
    }
    PutFresh(s, k, Pair(u, l));
    PutKeepsKeysDistinct(s, k, Pair(u, l));
    assert Pos(Pair(u, l)) == k;
  }

  /** Assigning (l, v) at step l*l + 2v + 1 writes a fresh step: the table grows by that entry. */
  lemma RowStep(s: seq<Entry>, l: nat, v: nat)
    requires v < l && RowsPlaced(s, l, v)
    ensures !HasKey(s, l * l + 2 * v + 1)
    ensures RowsPlaced(Put(s, l * l + 2 * v + 1, Pair(l, v)), l, v + 1)
  {
    var q := l * l;
    var k := q + 2 * v + 1;
    forall j | 0 <= j < |s|
      ensures s[j].key != k
    {
      if j < q {
        assert s[j].key < q;
      } else if j < q + l + 1 {
        assert s[j].key == q + 2 * (j - q);
      } else {
        assert s[j].key == q + 2 * (j - q - l - 1) + 1;
      }
    }
    PutFresh(s, k, Pair(l, v));
    PutKeepsKeysDistinct(s, k, Pair(l, v));
    assert Pos(Pair(l, v)) == k;
  }

  /** After both inner loops, layer l is complete. */
  lemma LayerDone(s: seq<Entry>, l: nat)
    requires RowsPlaced(s, l, l)
    ensures LayersBelow(s, l + 1)
  {
    assert (l + 1) * (l + 1) == l * l + 2 * l + 1;
  }

  /** Sorting the K layers by step gives the reorder table. */
  lemma SortedLayers(s: seq<Entry>, k: nat)
    requires LayersBelow(s, k)
    ensures IsReorderTable(KSort(s), k)
  {
    var r := KSort(s);
    assert |r| == |s| by {
      assert |multiset(r)| == |multiset(s)|;
    }
    forall j | 0 <= j < |r|
      ensures r[j].key < k * k && Pos(r[j].pair) == r[j].key && InBlock(r[j].pair, k)
    {
      assert r[j] in multiset(s);
    }
    AscendingKeysAreIndices(r, k * k);
  }

  class PhashBis {
    /** N: side of the resampled grid and of the DCT output. */
    const size: nat
    /** K: side of the low-frequency block that is hashed. */
    const smallSize: nat
    /** The PHP array of steps to (u, v) pairs, in iteration order. */
    var reorder: seq<Entry>

    /** The reorder table built by the constructor: the object's invariant. */
    ghost predicate Valid()
      reads this
    {
      IsReorderTable(reorder, smallSize)
    }

    /** `new Phash_Bis()` takes N = 32 and K = 8. */
    constructor (mySize: nat := 32, mySmallSize: nat := 8)
      ensures size == mySize && smallSize == mySmallSize
      ensures Valid()
    {
      size := mySize;
      smallSize := mySmallSize;
      reorder := [];
      new;
      ghost var writes := InitCoefficients();
    }

    /**
     * Fills the reorder table layer by layer and sorts it by step.  Every
     * one of the `writes` assignments creates a new entry: no step is
     * written twice.
     */
    method InitCoefficients() returns (ghost writes: nat)
      requires reorder == []
      modifies this`reorder
      ensures IsReorderTable(reorder, smallSize)
      ensures writes == |reorder|
    {
      writes := 0;
      var l := 0;
      while l < smallSize
        invariant 0 <= l <= smallSize
        invariant LayersBelow(reorder, l) && writes == |reorder|
      {
        var stp := l * l;
        var u := 0;
        StartColumns(reorder, l);
        while u <= l
          invariant u <= l + 1 && stp == l * l + 2 * u
          invariant ColumnsPlaced(reorder, l, u) && writes == |reorder|
        {
          ColumnStep(reorder, l, u);
          reorder := Put(reorder, stp, Pair(u, l));
          writes := writes + 1;
          stp := stp + 2;
          u := u + 1;
        }
        stp := l * l + 1;
        var v := 0;
        StartRows(reorder, l);
        while v < l
          invariant v <= l && stp == l * l + 2 * v + 1
          invariant RowsPlaced(reorder, l, v) && writes == |reorder|
        {
          RowStep(reorder, l, v);
          reorder := Put(reorder, stp, Pair(l, v));
          writes := writes + 1;
          stp := stp + 2;
          v := v + 1;
        }
        LayerDone(reorder, l);
        l := l + 1;
      }
      SortedLayers(reorder, smallSize);
      reorder := KSort(reorder);
    }

    /** Lines 110-117: the threshold, the mean of the block without F[0][0]. */
    method Threshold(f: Matrix) returns (avg: real)
      requires HasBlock(f, smallSize) && smallSize * smallSize != 1
      ensures avg == Avg(f, smallSize)
    {
      var total := 0.0;
      var x := 0;
      while x < smallSize
        invariant 0 <= x <= smallSize
        invariant total == BlockSum(f, x, smallSize)
      {
        var y := 0;
        while y < smallSize
          invariant 0 <= y <= smallSize
          invariant total == BlockSum(f, x, smallSize) + RowSum(f[x], y)
        {
          total := total + f[x][y];
          y := y + 1;
        }
        x := x + 1;
      }
      total := total - f[0][0];
      avg := total / ((smallSize * smallSize - 1) as real);
    }

    /** Lines 118-126: one bit per table entry, doubling the accumulator each time. */
    method Accumulate(f: Matrix, avg: real) returns (hash: nat)
      requires TableInside(reorder, f)
      ensures hash == Weighted(Bits(f, avg, reorder))
    {
      hash := 0;
      var i := 0;
      while i < |reorder|
        invariant 0 <= i <= |reorder|
        invariant hash == Weighted(Bits(f, avg, reorder[..i]))
      {
        var ptr := reorder[i].pair;
        assert Bits(f, avg, reorder[..i + 1]) == Bits(f, avg, reorder[..i]) + [f[ptr.u][ptr.v] > avg];
        WeightedSnoc(Bits(f, avg, reorder[..i]), f[ptr.u][ptr.v] > avg);
        hash := hash * 2;
        if f[ptr.u][ptr.v] > avg {
          hash := hash + 1;
        }
        i := i + 1;
      }
      assert reorder[..i] == reorder;
    }

    /**
     * The hash of an image, given the DCT output of its N x N grey grid, or
     * None when the image file does not exist.
     */
    method Hash(image: Option<Matrix>) returns (r: Result<string, HashError>)
      requires Valid()
      requires image.Some? ==> IsSquare(image.value, size) && 0 < size && smallSize <= size
      ensures image.None? ==> r == Success("missing")
      ensures image.Some? && smallSize * smallSize == 1 ==> r == Failure(DivisionByZero)
      ensures image.Some? && smallSize * smallSize != 1 ==>
                HasBlock(image.value, smallSize) && TableInside(reorder, image.value) &&
                r == Encode(HashValue(image.value, smallSize, reorder), smallSize)
      ensures image.Some? && r.Success? ==> IsDigitString(r.value, smallSize * smallSize / 4)
    {
      if image.None? {
        return Success("missing");
      }
      var f := image.value;
      if smallSize * smallSize == 1 {
        return Failure(DivisionByZero);
      }
      var avg := Threshold(f);
      var hash := Accumulate(f, avg);
      r := Encode(hash, smallSize);
    }

    /** The hash with the evidently intended hexadecimal rendering of lines 130-131. */
    method HashHex(image: Option<Matrix>) returns (r: Result<string, HashError>)
      requires Valid()
      requires image.Some? ==> IsSquare(image.value, size) && 0 < size && smallSize <= size
      ensures image.None? ==> r == Success("missing")
      ensures image.Some? && smallSize * smallSize == 1 ==> r == Failure(DivisionByZero)
      ensures image.Some? && smallSize * smallSize != 1 ==>
                HasBlock(image.value, smallSize) && TableInside(reorder, image.value) &&
                r == Success(EncodeHex(HashValue(image.value, smallSize, reorder), smallSize))
      ensures image.Some? && smallSize * smallSize != 1 ==> IsDigitString(r.value, 16)
      ensures image.Some? && smallSize >= 2 && smallSize % 2 == 0 ==>
                |r.value| == smallSize * smallSize / 4 &&
                StringValue(r.value, 16) == HashValue(image.value, smallSize, reorder)
    {
      if image.None? {
        return Success("missing");
      }
      var f := image.value;
      if smallSize * smallSize == 1 {
        return Failure(DivisionByZero);
      }
      var avg := Threshold(f);
      var hash := Accumulate(f, avg);
      r := Success(EncodeHex(hash, smallSize));
      if smallSize >= 2 && smallSize % 2 == 0 {
        HashValueBound(f, smallSize, reorder);
        HexRoundTrip(hash, smallSize);
      }
    }
  }
}
