# Phash_Bis in Dafny

A verified model of the integer and bit logic of `Phash_Bis`. This PHP class
computes a perceptual image hash whose bits are ordered from the most to the
least visually significant DCT frequency, so that sorting hashes roughly
clusters similar images.

The model has two parts:

- **The reorder table.** The constructor calls `InitCoefficients`. Its loops
  write, layer by layer, the pair `(u, l)` at step `l*l + 2u` and the pair
  `(l, v)` at step `l*l + 2v + 1` into an ordered PHP array. Then `ksort`
  sorts that array by step. The model proves that the result has `K*K`
  entries keyed `0 .. K*K-1`, and that it holds each pair of the `K x K`
  block exactly once, at the step given by the closed form `Reorder.Pos`.
- **The hash.** The DCT output is an input matrix of exact reals. The
  threshold is the mean of the `K x K` block with `F[0][0]` left out. The
  accumulator is doubled once per table entry, and 1 is added when
  `F[u][v] > avg`. The result is rendered with `gmp_strval` and padded or cut
  to `K*K/4` characters. The model proves that table entry `i` decides the
  bit of weight `2^(K*K-1-i)`, and that the value stays below `2^(K*K)`. It
  also proves what the rendered string denotes.

Modules:

| module | content |
|---|---|
| `Reorder` | pairs, table entries, the closed form `Pos`, table properties |
| `OrderedArray` | PHP array assignment (`Put`) and `ksort` (`KSort`) on a sequence of entries |
| `Threshold` | block sums and the threshold `Avg` |
| `Accumulator` | the weighted bit sum and the hash value |
| `Encoding` | `gmp_strval` digits, the fixed-width `substr`, the hexadecimal correction |
| `Phash` | the class `PhashBis` with its loops |
| `Power`, `Wrappers` | powers and arithmetic helpers; `Option` and `Result` |

Where the code and its documentation disagree, the model follows the code:

- The width `K*K/4` is also passed to `gmp_strval` as the base, so the hash is
  hexadecimal only for `K = 8` (see Findings).
- A missing file produces the ordinary string `"missing"`, not a distinct
  failure.
- Nothing rejects `K > N` or `K < 2`. `K = 1` makes `/` divide by zero, and a
  base outside 2..62 makes `gmp_strval` fail. Both are modelled as the
  exceptions PHP 8 raises: `Failure(DivisionByZero)` and
  `Failure(InvalidBase)`.

## Model

| member | source | states |
|---|---|---|
| `Phash.PhashBis.constructor` | phash_bis.php:70-74 | stores N and K (by default 32 and 8, as `new Phash_Bis()` gives) and establishes `Valid()`: a reorder table of the K x K block (`IsReorderTable`) |
| `Phash.PhashBis.InitCoefficients` | phash_bis.php:50-63 | the two layer loops plus `ksort` build a table of K*K entries; entry i sits at step i, holds the pair `Pos` sends to i, and lies inside the block; the number of assignments equals the number of entries, so no step is written twice |
| `Phash.ColumnStep` | phash_bis.php:52-55 | step `l*l + 2u` is not yet in the array when `(u, l)` is assigned; the entry is appended, and the column pairs of layer l so far sit at `l*l, l*l+2, ...` |
| `Phash.RowStep` | phash_bis.php:56-61 | step `l*l + 2v + 1` is not yet in the array when `(l, v)` is assigned; the entry is appended at the odd offsets of layer l |
| `Phash.LayerDone` | phash_bis.php:50-62 | after both inner loops, layers 0..l hold exactly (l+1)^2 distinct steps below (l+1)^2 |
| `Phash.SortedLayers` | phash_bis.php:63 | `ksort` of the K completed layers is the reorder table: keys 0..K*K-1 in ascending order |
| `Reorder.Pos` | phash_bis.php:51-60 | the closed-form step of a pair is at least the square of its layer |
| `Reorder.PosLayer` | phash_bis.php:50-61 | layer l (pairs whose larger index is l) occupies exactly steps l*l .. (l+1)^2 - 1 |
| `Reorder.PosInjective` | phash_bis.php:51-60 | two pairs never get the same step |
| `Reorder.PosInBlock` | phash_bis.php:50-60 | a pair lies in the K x K block exactly when its step is below K*K |
| `Reorder.EveryPairExactlyOnce` | phash_bis.php:50-63 | each pair of the K x K block occurs in the table, at index `Pos(p)` and at no other index |
| `Reorder.FirstEntryIsDc` | phash_bis.php:50-55 | layer 0 contributes only (0, 0), and it is the first entry |
| `Reorder.TableLayers` | phash_bis.php:50-63 | the pair at table position i belongs to the layer l with l*l <= i < (l+1)^2 |
| `OrderedArray.IndexOf` | phash_bis.php:53-59 | finds the first entry under a key, or reports that there is none |
| `OrderedArray.PutFresh` | phash_bis.php:53-59 | `$a[$k] = $v` with a new key appends one entry at the end of the iteration order |
| `OrderedArray.PutKeepsKeysDistinct` | phash_bis.php:53-59 | assignment never creates a second entry under a key, and the key then holds the new value |
| `OrderedArray.Insert` | phash_bis.php:63 | inserting into a key-ascending array keeps it ascending and adds exactly that entry |
| `OrderedArray.KSort` | phash_bis.php:63 | `ksort` yields strictly ascending keys and a permutation of the entries |
| `OrderedArray.AscendingKeysAreIndices` | phash_bis.php:63-122 | after `ksort` of K*K entries with steps below K*K, the i-th entry visited has step i |
| `Threshold.AvgIgnoresDc` | phash_bis.php:110-117 | the threshold does not depend on F[0][0] |
| `Threshold.AvgOfUniformAc` | phash_bis.php:110-117 | when the K*K - 1 AC coefficients of the block all equal c, the threshold is c: it is their mean |
| `Phash.PhashBis.Threshold` | phash_bis.php:110-117 | the double loop and division yield `(block sum - F[0][0]) / (K*K - 1)` |
| `Phash.PhashBis.Accumulate` | phash_bis.php:118-126 | doubling and adding bits over the table yields the weighted sum of the bits, first bit heaviest |
| `Accumulator.WeightedSnoc` | phash_bis.php:123-125 | one doubling step plus the new bit is the weighted sum of one more bit |
| `Accumulator.WeightedBound` | phash_bis.php:118-126 | n bits give a value below 2^n |
| `Accumulator.WeightedBit` | phash_bis.php:118-126 | bit i of the sequence is the bit of weight 2^(n-1-i) of the value |
| `Accumulator.WeightedMsb` | phash_bis.php:118-126 | the first bit alone decides whether the value reaches 2^(n-1) |
| `Accumulator.HashValueBound` | phash_bis.php:118-126 | the hash value lies in 0 .. 2^(K*K) - 1 |
| `Accumulator.HashValueBit` | phash_bis.php:122-126 | table entry i decides the bit of weight 2^(K*K-1-i): it is set exactly when F at that pair exceeds the threshold |
| `Accumulator.HashValueMsb` | phash_bis.php:118-126 | the most significant bit comes from the first entry, (0, 0): it is set exactly when F[0][0] exceeds the threshold |
| `Encoding.Digits` | phash_bis.php:131 | `gmp_strval` digits: at least one, all below the base, no leading zero |
| `Encoding.DigitsRoundTrip` | phash_bis.php:131 | reading the digits of n back gives n |
| `Encoding.RenderFits` | phash_bis.php:131 | the rendering has at most w digits exactly when n < base^w, so padding rather than truncation happens exactly then |
| `Encoding.PadLast` | phash_bis.php:131 | `substr(str_repeat("0", w) . s, -w)` has length w; it left-pads a shorter s and keeps the last w characters of a longer one |
| `Encoding.PaddedRenderValue` | phash_bis.php:130-131 | the fixed-width rendering of n in base b denotes n mod b^w |
| `Encoding.PaddedRenderDigits` | phash_bis.php:131 | `gmp_strval` followed by the fixed-width `substr` yields only digits of the base |
| `Encoding.HexAlphabet` | phash_bis.php:22-131 | the base-16 digits are exactly `0`-`9` and `a`-`f` |
| `Encoding.Encode` | phash_bis.php:130-131 | the hash string exists exactly when the base K*K/4 is in 2..62, and then has exactly K*K/4 characters, each a digit of that base |
| `Encoding.EncodeValue` | phash_bis.php:130-131 | as written, the hash string keeps the accumulator only modulo w^w, with w = K*K/4 |
| `Encoding.EncodeCollision` | phash_bis.php:130-131 | with K = 4 the 16-bit accumulators 256 and 0 both give "0000" |
| `Encoding.EncodeHex` | phash_bis.php:128-131 | the hexadecimal rendering has exactly K*K/4 characters, all hexadecimal digits |
| `Encoding.HexRoundTrip` | phash_bis.php:128-131 | for even K, reading the hexadecimal hash back gives the K*K-bit accumulator |
| `Encoding.HexInjective` | phash_bis.php:128-131 | for even K, distinct K*K-bit accumulators have distinct hexadecimal hashes |
| `Encoding.DefaultIsHex` | phash_bis.php:22-131 | with the default K = 8, the code as written and the hexadecimal rendering agree |
| `Phash.PhashBis.Hash` | phash_bis.php:94-136 | a missing file gives "missing"; K*K = 1 gives a division by zero; otherwise the result is `Encode` of the hash value: threshold, table-ordered bits, `gmp_strval` with base K*K/4, fixed width, digits of that base only |
| `Phash.PhashBis.HashHex` | phash_bis.php:128-131 | the same hash, rendered in hexadecimal: only characters `0`-`9`, `a`-`f`; for even K it has K*K/4 characters and denotes the hash value exactly |

## Left out

- `ApplyDCT` and the coefficient vector `c` (phash_bis.php:43-45, 76-92) use floating-point `cos`, `sqrt` and `M_PI`. The DCT output is an input matrix.
- Image loading, resampling, grey merge and blue-channel extraction (phash_bis.php:66-68, 97-108) are GD library calls and file I/O. `Hash` takes `Option<Matrix>`: `None` stands for a file that does not exist.
- `microtime` (line 95) and the unused `$indexer` (line 58) have no effect on the result.
- Floating-point rounding: sums, the division by K*K - 1 and the comparisons are on exact reals.
- GMP is modelled by an unbounded `nat` accumulator, and `gmp_strval` as base-b digits with GMP's digit alphabet.
- `ksort` is modelled by its result: an insertion sort over entries with distinct keys. The library's own sorting algorithm is not modelled.
- PHP 7 behaviour is not modelled. There, division by zero gives a warning and a float (`0.0/0` is NAN for K = 1, so every comparison is false and the hash is all zero bits), and an invalid base gives a warning and `false`. PHP 8's exceptions are `Failure` results.
- For odd K, `K*K/4` is a PHP float. It is modelled as truncating integer division, which is what its conversion to int in `str_repeat`, `gmp_strval` and `substr` does.
- Phash.PhashBis.Hash: requires `Valid()` and an N x N matrix with 0 < N and K <= N. The source does not check this. With K > N, PHP reads missing coefficients as null with a warning, which is not modelled.
- Phash.PhashBis.HashHex: has the same requirements as `Hash`.
- Phash.PhashBis.InitCoefficients: requires an empty table, as left by the field initialiser. Its only caller is the constructor.
- Phash.PhashBis.constructor: takes natural numbers. Negative sizes passed to the PHP constructor are not modelled.

## Findings

| source | as written | input that shows it | evidently intended | confidence | as-written member | corrected member |
|---|---|---|---|---|---|---|
| phash_bis.php:130-131 | `gmp_strval($hash, $hash_len)` passes the width K*K/4 as the base, so the K*K-bit hash is written in base K*K/4 and cut to K*K/4 digits | K = 4: accumulators 256 and 0 both give "0000". In general only hash mod (K*K/4)^(K*K/4) survives, and K = 2 or K >= 16 fail with an invalid base | a hexadecimal string of K*K/4 digits (base 16), as the comments at lines 22, 33 and 128 say | high; not executed | `Encoding.EncodeCollision` | `Encoding.HexRoundTrip` |

`Phash.PhashBis.Hash` keeps the code as written. `Phash.PhashBis.HashHex` is
the same hash rendered with the corrected `Encoding.EncodeHex`.
