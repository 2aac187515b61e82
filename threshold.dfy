/**
 * The threshold of the hash: the mean of the K x K low-frequency block of the
 * DCT output with the DC coefficient F[0][0] left out.  The DCT output itself
 * is an input here (a matrix of exact reals).
 */
module Threshold {

  type Matrix = seq<seq<real>>

  /** An n x n matrix, the shape the DCT step produces. */
  predicate IsSquare(f: Matrix, n: nat)
  {
    |f| == n && forall x :: 0 <= x < n ==> |f[x]| == n
  }

  /** Every row below `rows` has at least k columns. */
  predicate Covers(f: Matrix, rows: nat, k: nat)
  {
    rows <= |f| && forall x :: 0 <= x < rows ==> k <= |f[x]|
  }

  /** row[0] + ... + row[k-1] */
  function RowSum(row: seq<real>, k: nat): real
    requires k <= |row|
  {
    if k == 0 then 0.0 else RowSum(row, k - 1) + row[k - 1]
  }

  /** The sum of the rows x < rows of the columns y < k. */
  function BlockSum(f: Matrix, rows: nat, k: nat): real
    requires Covers(f, rows, k)
  {
    if rows == 0 then 0.0 else BlockSum(f, rows - 1, k) + RowSum(f[rows - 1], k)
  }

  /** The K x K block together with the DC coefficient the threshold subtracts. */
  predicate HasBlock(f: Matrix, k: nat)
  {
    Covers(f, k, k) && 0 < |f| && 0 < |f[0]|
  }

  /** (sum of the K x K block - F[0][0]) / (K*K - 1) */
  function Avg(f: Matrix, k: nat): real
    requires HasBlock(f, k) && k * k != 1
  {
    (BlockSum(f, k, k) - f[0][0]) / ((k * k - 1) as real)
  }

  /** f and g agree on the K x K block, except perhaps at the DC coefficient. */
  predicate SameAcBlock(f: Matrix, g: Matrix, k: nat)
    requires HasBlock(f, k) && HasBlock(g, k)
  {
    forall x, y :: 0 <= x < k && 0 <= y < k && (x, y) != (0, 0) ==> f[x][y] == g[x][y]
  }

  lemma {:induction false} RowSumAgree(r: seq<real>, s: seq<real>, k: nat, from: nat)
    requires k <= |r| && k <= |s| && from <= 1
    requires forall y :: from <= y < k ==> r[y] == s[y]
    ensures from == 0 ==> RowSum(r, k) == RowSum(s, k)
    ensures from == 1 && k >= 1 ==> RowSum(r, k) - r[0] == RowSum(s, k) - s[0]
  {
    if k > 1 {
      RowSumAgree(r, s, k - 1, from);
    }
  }

  lemma {:induction false} BlockSumIgnoresDc(f: Matrix, g: Matrix, rows: nat, k: nat)
    requires HasBlock(f, k) && HasBlock(g, k) && SameAcBlock(f, g, k)
    requires 1 <= rows <= k
    ensures BlockSum(f, rows, k) - f[0][0] == BlockSum(g, rows, k) - g[0][0]
  {
    if rows == 1 {
      RowSumAgree(f[0], g[0], k, 1);
    } else {
      BlockSumIgnoresDc(f, g, rows - 1, k);
      RowSumAgree(f[rows - 1], g[rows - 1], k, 0);
    }
  }

  /** The DC coefficient plays no part in the threshold. */
  lemma AvgIgnoresDc(f: Matrix, g: Matrix, k: nat)
    requires HasBlock(f, k) && HasBlock(g, k) && k >= 2
    requires SameAcBlock(f, g, k)
    ensures Avg(f, k) == Avg(g, k)
  {
    BlockSumIgnoresDc(f, g, k, k);
  }

  lemma {:induction false} RowSumUniform(r: seq<real>, k: nat, from: nat, c: real)
    requires k <= |r| && from <= 1
    requires forall y :: from <= y < k ==> r[y] == c
    ensures from == 0 ==> RowSum(r, k) == (k as real) * c
    ensures from == 1 && k >= 1 ==> RowSum(r, k) == r[0] + ((k - 1) as real) * c
  {
    if k > 1 {
      RowSumUniform(r, k - 1, from, c);
    }
  }

  lemma {:induction false} BlockSumUniform(f: Matrix, rows: nat, k: nat, c: real)
    requires HasBlock(f, k) && 1 <= rows <= k
    requires forall x, y :: 0 <= x < k && 0 <= y < k && (x, y) != (0, 0) ==> f[x][y] == c
    ensures BlockSum(f, rows, k) == f[0][0] + ((rows * k - 1) as real) * c
  {
    if rows == 1 {
      RowSumUniform(f[0], k, 1, c);
    } else {
      BlockSumUniform(f, rows - 1, k, c);
      RowSumUniform(f[rows - 1], k, 0, c);
      assert (rows * k - 1) as real == ((rows - 1) * k - 1) as real + k as real;
    }
  }

  /** The threshold is the mean of the K*K - 1 AC coefficients of the block. */
  lemma AvgOfUniformAc(f: Matrix, k: nat, c: real)
    requires HasBlock(f, k) && k >= 2
    requires forall x, y :: 0 <= x < k && 0 <= y < k && (x, y) != (0, 0) ==> f[x][y] == c
    ensures Avg(f, k) == c
  {
    BlockSumUniform(f, k, k, c);
    var n := (k * k - 1) as real;
    assert n != 0.0;
    assert BlockSum(f, k, k) - f[0][0] == n * c;
    assert (n * c) / n == c;
  }
}
