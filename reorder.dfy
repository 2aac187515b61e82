/**
 * The "sort-friendly" bit order of the hash: the low-frequency K x K block of
 * DCT coefficients is walked layer by layer, layer l being the pairs whose
 * larger component is l.  Within a layer, pair (u, l) takes step l*l + 2u and
 * pair (l, v) (v < l) takes step l*l + 2v + 1.
 */
module Reorder {
  import opened Power

  /** A (row, column) index into the coefficient matrix. */
  datatype Pair = Pair(u: nat, v: nat)

  /** A step of the ordered PHP array that holds the table, with the pair stored there. */
  datatype Entry = Entry(key: nat, pair: Pair)

  function Max(p: Pair): nat
  {
    if p.u <= p.v then p.v else p.u
  }

  predicate InBlock(p: Pair, k: nat)
  {
    p.u < k && p.v < k
  }

  /** The step at which the table builder writes a pair (closed form of its two inner loops). */
  function Pos(p: Pair): (step: nat)
    ensures Max(p) * Max(p) <= step
  {
    if p.u <= p.v then p.v * p.v + 2 * p.u else p.u * p.u + 2 * p.v + 1
  }

  /** Layer l occupies exactly the steps l*l .. (l+1)*(l+1) - 1. */
  lemma PosLayer(p: Pair)
    ensures Max(p) * Max(p) <= Pos(p) < (Max(p) + 1) * (Max(p) + 1)
  {
    var m := Max(p);
    assert (m + 1) * (m + 1) == m * m + 2 * m + 1;
  }

  lemma {:induction false} SquareGap(a: nat, b: nat)
    requires a < b
    ensures (a + 1) * (a + 1) <= b * b
  {
    MulMonotone(a + 1, b, a + 1);
    MulMonotone(a + 1, b, b);
  }

  /** Two pairs never share a step. */
  lemma PosInjective(p: Pair, q: Pair)
    requires Pos(p) == Pos(q)
    ensures p == q
  {
    PosLayer(p);
    PosLayer(q);
    if Max(p) < Max(q) {
      SquareGap(Max(p), Max(q));
    } else if Max(q) < Max(p) {
      SquareGap(Max(q), Max(p));
    }
  }

  /** A pair lies in the K x K block exactly when its step is below K*K. */
  lemma PosInBlock(p: Pair, k: nat)
    ensures InBlock(p, k) <==> Pos(p) < k * k
  {
    PosLayer(p);
    var m := Max(p);
    if m < k {
      MulMonotone(m + 1, k, m + 1);
      MulMonotone(m + 1, k, k);
    } else {
      MulMonotone(k, m, k);
      MulMonotone(k, m, m);
    }
  }

  /**
   * The table the builder leaves behind: K*K entries, the i-th at step i, its
   * pair the one the layer formula sends to step i, inside the K x K block.
   */
  predicate IsReorderTable(t: seq<Entry>, k: nat)
  {
    |t| == k * k &&
    forall i :: 0 <= i < |t| ==> t[i].key == i && Pos(t[i].pair) == i && InBlock(t[i].pair, k)
  }

  /** Every pair of the K x K block is in the table exactly once, at the position Pos gives. */
  lemma EveryPairExactlyOnce(t: seq<Entry>, k: nat, p: Pair)
    requires IsReorderTable(t, k)
    requires InBlock(p, k)
    ensures Pos(p) < |t| && t[Pos(p)].pair == p
    ensures forall i :: 0 <= i < |t| && t[i].pair == p ==> i == Pos(p)
  {
    PosInBlock(p, k);
    PosInjective(t[Pos(p)].pair, p);
  }

  /** Layer 0 is the single pair (0, 0), and it comes first. */
  lemma FirstEntryIsDc(t: seq<Entry>, k: nat)
    requires IsReorderTable(t, k) && k >= 1
    ensures t[0].pair == Pair(0, 0)
  {
    PosInjective(t[0].pair, Pair(0, 0));
  }

  /** Position i of the table holds a pair of layer l exactly when l*l <= i < (l+1)*(l+1). */
  lemma TableLayers(t: seq<Entry>, k: nat, i: nat)
    requires IsReorderTable(t, k) && i < |t|
    ensures Max(t[i].pair) * Max(t[i].pair) <= i < (Max(t[i].pair) + 1) * (Max(t[i].pair) + 1)
  {
    PosLayer(t[i].pair);
  }
}
