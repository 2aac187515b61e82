/**
 * The hash value: one bit per table entry, F[u][v] > avg, accumulated by
 * doubling, so that entry i of the table lands at weight 2^(K*K - 1 - i).
 */
module Accumulator {
  import opened Power
  import opened Reorder
  import opened Threshold

  function BitVal(b: bool): nat
  {
    if b then 1 else 0
  }

  /** Sum over i of b_i * 2^(n-1-i), for the n bits b_0 .. b_(n-1): the first bit weighs most. */
  function Weighted(bs: seq<bool>): nat
  {
    if bs == [] then 0 else BitVal(bs[0]) * Pow(2, |bs| - 1) + Weighted(bs[1..])
  }

  /** n bits give a value below 2^n. */
  lemma {:induction false} WeightedBound(bs: seq<bool>)
    ensures Weighted(bs) < Pow(2, |bs|)
  {
    if bs != [] {
      WeightedBound(bs[1..]);
      assert Pow(2, |bs|) == 2 * Pow(2, |bs| - 1);
    }
  }

  /** The bits of a followed by the bits of b weigh a's value shifted past b's. */
  lemma {:induction false} WeightedAppend(a: seq<bool>, b: seq<bool>)
    ensures Weighted(a + b) == Weighted(a) * Pow(2, |b|) + Weighted(b)
  {
    if a == [] {
      assert a + b == b;
    } else {
      assert (a + b)[1..] == a[1..] + b;
      WeightedAppend(a[1..], b);
      PowAdd(2, |a| - 1, |b|);
      var x, w, p, q := BitVal(a[0]), Weighted(a[1..]), Pow(2, |a| - 1), Pow(2, |b|);
      assert (a + b)[0] == a[0];
      assert Weighted(a + b) == x * Pow(2, |a| - 1 + |b|) + Weighted(a[1..] + b);
      Distributes(x, p, w, q);
    }
  }

  /** Doubling the accumulator and adding the next bit is the weighted sum of one more bit. */
  lemma WeightedSnoc(bs: seq<bool>, b: bool)
    ensures Weighted(bs + [b]) == 2 * Weighted(bs) + BitVal(b)
  {
    WeightedAppend(bs, [b]);
    assert Weighted([b]) == BitVal(b) * Pow(2, 0) + Weighted([]);
  }

  /** Dropping the last m bits is dividing by 2^m. */
  lemma WeightedShift(hi: seq<bool>, lo: seq<bool>)
    ensures Weighted(hi + lo) / Pow(2, |lo|) == Weighted(hi)
  {
    var h, l, p := Weighted(hi), Weighted(lo), Pow(2, |lo|);
    WeightedAppend(hi, lo);
    WeightedBound(lo);
    DivModMulAdd(h, p, l);
  }

  /** Bit i of the sequence is the bit of the value at weight 2^(n-1-i). */
  lemma WeightedBit(bs: seq<bool>, i: nat)
    requires i < |bs|
    ensures (Weighted(bs) / Pow(2, |bs| - 1 - i)) % 2 == BitVal(bs[i])
  {
    var hi, lo := bs[..i] + [bs[i]], bs[i + 1..];
    assert bs == hi + lo;
    WeightedShift(hi, lo);
    LastBit(bs[..i], bs[i]);
  }

  /** The last bit is the parity of the value. */
  lemma LastBit(bs: seq<bool>, b: bool)
    ensures Weighted(bs + [b]) % 2 == BitVal(b)
  {
    WeightedSnoc(bs, b);
    DivModMulAdd(Weighted(bs), 2, BitVal(b));
  }

  /** The first bit alone decides whether the value reaches 2^(n-1). */
  lemma WeightedMsb(bs: seq<bool>)
    requires |bs| >= 1
    ensures Weighted(bs) >= Pow(2, |bs| - 1) <==> bs[0]
  {
    WeightedBound(bs[1..]);
  }

  /** Every pair of the table indexes a coefficient of f. */
  predicate TableInside(t: seq<Entry>, f: Matrix)
  {
    forall i :: 0 <= i < |t| ==> t[i].pair.u < |f| && t[i].pair.v < |f[t[i].pair.u]|
  }

  /** The bit each table entry emits, in table order. */
  function Bits(f: Matrix, avg: real, t: seq<Entry>): seq<bool>
    requires TableInside(t, f)
  {
    seq(|t|, i requires 0 <= i < |t| => f[t[i].pair.u][t[i].pair.v] > avg)
  }

  /** The accumulator after the walk over a table of the K x K block. */
  function HashValue(f: Matrix, k: nat, t: seq<Entry>): nat
    requires HasBlock(f, k) && k * k != 1 && TableInside(t, f)
  {
    Weighted(Bits(f, Avg(f, k), t))
  }

  /** The hash of a K x K table fits in K*K bits. */
  lemma HashValueBound(f: Matrix, k: nat, t: seq<Entry>)
    requires HasBlock(f, k) && k * k != 1 && TableInside(t, f) && IsReorderTable(t, k)
    ensures HashValue(f, k, t) < Pow(2, k * k)
  {
    WeightedBound(Bits(f, Avg(f, k), t));
  }

  /** Table entry i decides the bit of weight 2^(K*K - 1 - i). */
  lemma HashValueBit(f: Matrix, k: nat, t: seq<Entry>, i: nat)
    requires HasBlock(f, k) && k * k != 1 && TableInside(t, f) && IsReorderTable(t, k)
    requires i < k * k
    ensures (HashValue(f, k, t) / Pow(2, k * k - 1 - i)) % 2
            == BitVal(f[t[i].pair.u][t[i].pair.v] > Avg(f, k))
  {
    WeightedBit(Bits(f, Avg(f, k), t), i);
  }

  /**
   * The most significant bit of the hash comes from the first table entry,
   * the pair (0, 0): it is set exactly when F[0][0] exceeds the threshold.
   */
  lemma HashValueMsb(f: Matrix, k: nat, t: seq<Entry>)
    requires HasBlock(f, k) && k >= 2 && TableInside(t, f) && IsReorderTable(t, k)
    ensures HashValue(f, k, t) >= Pow(2, k * k - 1) <==> f[0][0] > Avg(f, k)
  {
    FirstEntryIsDc(t, k);
    WeightedMsb(Bits(f, Avg(f, k), t));
  }
}
