/**
 * The two operations of PHP's ordered array that the table builder uses:
 * element assignment `$a[$k] = $v` and `ksort`.  A PHP array is modelled as
 * the sequence of its entries in iteration order.
 */
module OrderedArray {
  import opened Reorder

  predicate HasKey(s: seq<Entry>, k: nat)
  {
    exists i :: 0 <= i < |s| && s[i].key == k
  }

  /** A PHP array never holds two entries under one key. */
  predicate DistinctKeys(s: seq<Entry>)
  {
    forall i, j :: 0 <= i < j < |s| ==> s[i].key != s[j].key
  }

  /** Iteration visits keys in strictly ascending order. */
  predicate Ascending(s: seq<Entry>)
  {
    forall i, j :: 0 <= i < j < |s| ==> s[i].key < s[j].key
  }

  /** The position of the first entry under key k, or |s| when there is none. */
  function IndexOf(s: seq<Entry>, k: nat): (i: nat)
    ensures i <= |s|
    ensures i < |s| ==> s[i].key == k
    ensures forall j :: 0 <= j < i ==> s[j].key != k
  {
    if s == [] then 0 else if s[0].key == k then 0 else 1 + IndexOf(s[1..], k)
  }

  /**
   * `$a[$k] = $p`: a new key is appended at the end of the iteration order,
   * an existing key keeps its place and gets the new value.
   */
  function Put(s: seq<Entry>, k: nat, p: Pair): seq<Entry>
  {
    var i := IndexOf(s, k);
    if i == |s| then s + [Entry(k, p)] else s[i := Entry(k, p)]
  }

  /** Assigning under a key not yet present appends one entry. */
  lemma PutFresh(s: seq<Entry>, k: nat, p: Pair)
    requires !HasKey(s, k)
    ensures Put(s, k, p) == s + [Entry(k, p)]
  {
  }

  /** Assigning never makes two entries share a key, and afterwards k holds p. */
  lemma PutKeepsKeysDistinct(s: seq<Entry>, k: nat, p: Pair)
    requires DistinctKeys(s)
    ensures DistinctKeys(Put(s, k, p))
    ensures Put(s, k, p)[IndexOf(s, k)] == Entry(k, p)
  {
  }

  /** Every key of a is a key of b when a's entries are among b's. */
  lemma KeysOfSubMultiset(a: seq<Entry>, b: seq<Entry>, k: nat)
    requires multiset(a) <= multiset(b)
    ensures HasKey(a, k) ==> HasKey(b, k)
  {
    if HasKey(a, k) {
      var i :| 0 <= i < |a| && a[i].key == k;
      assert a[i] in multiset(b);
      var j :| 0 <= j < |b| && b[j] == a[i];
    }
  }

  /** The tail of an ascending array is ascending, lies above its head and lacks the keys the array lacks. */
  lemma AscendingTail(s: seq<Entry>, k: nat)
    requires Ascending(s) && s != []
    ensures Ascending(s[1..])
    ensures forall j :: 0 <= j < |s[1..]| ==> s[0].key < s[1..][j].key
    ensures !HasKey(s, k) ==> !HasKey(s[1..], k)
  {
    if HasKey(s[1..], k) {
      var i :| 0 <= i < |s[1..]| && s[1..][i].key == k;
      assert s[i + 1].key == k;
    }
  }

  /** Inserts one entry into an ascending array at its key's place. */
  function Insert(e: Entry, s: seq<Entry>): (r: seq<Entry>)
    requires Ascending(s) && !HasKey(s, e.key)
    ensures Ascending(r)
    ensures multiset(r) == multiset(s) + multiset{e}
  {
    if s == [] || e.key < s[0].key then
      [e] + s
    else
      assert s == [s[0]] + s[1..];
      AscendingTail(s, e.key);
      var rest := Insert(e, s[1..]);
      InsertKeepsLowerBound(e, s[1..], rest, s[0].key);
      ConsAscending(s[0], rest);
      [s[0]] + rest
  }

  lemma ConsAscending(x: Entry, r: seq<Entry>)
    requires Ascending(r) && forall j :: 0 <= j < |r| ==> x.key < r[j].key
    ensures Ascending([x] + r)
  {
    forall i, j | 0 <= i < j < |[x] + r|
      ensures ([x] + r)[i].key < ([x] + r)[j].key
    {
      if i > 0 {
        assert ([x] + r)[i] == r[i - 1];
      }
      assert ([x] + r)[j] == r[j - 1];
    }
  }

  /** Entries drawn from e and an array whose keys all exceed k have keys above k, when e's does. */
  lemma InsertKeepsLowerBound(e: Entry, s: seq<Entry>, r: seq<Entry>, k: nat)
    requires multiset(r) == multiset(s) + multiset{e}
    requires k < e.key
    requires forall j :: 0 <= j < |s| ==> k < s[j].key
    ensures forall j :: 0 <= j < |r| ==> k < r[j].key
  {
    forall j | 0 <= j < |r|
      ensures k < r[j].key
    {
      assert r[j] in multiset(r);
      if r[j] != e {
        assert r[j] in multiset(s);
      }
    }
  }

  /** PHP's `ksort`: the same entries, reordered so that keys ascend. */
  function KSort(s: seq<Entry>): (r: seq<Entry>)
    requires DistinctKeys(s)
    ensures Ascending(r)
    ensures multiset(r) == multiset(s)
  {
    if s == [] then []
    else
      assert s == [s[0]] + s[1..];
      var rest := KSort(s[1..]);
      KeysOfSubMultiset(rest, s[1..], s[0].key);
      Insert(s[0], rest)
  }

  /** Keys of an ascending array are at least their position. */
  lemma {:induction false} AscendingLowerBound(s: seq<Entry>, i: nat)
    requires Ascending(s) && i < |s|
    ensures i <= s[i].key
  {
    if i > 0 {
      AscendingLowerBound(s, i - 1);
    }
  }

  /** Keys of an ascending array below n leave room for the entries after them. */
  lemma {:induction false} AscendingUpperBound(s: seq<Entry>, n: nat, i: nat)
    requires Ascending(s) && i < |s|
    requires forall j :: 0 <= j < |s| ==> s[j].key < n
    ensures s[i].key + (|s| - i) <= n
    decreases |s| - i
  {
    if i + 1 < |s| {
      AscendingUpperBound(s, n, i + 1);
    }
  }

  /** An ascending array of n entries whose keys are all below n is keyed 0, 1, ..., n-1. */
  lemma AscendingKeysAreIndices(s: seq<Entry>, n: nat)
    requires Ascending(s) && |s| == n
    requires forall j :: 0 <= j < |s| ==> s[j].key < n
    ensures forall i :: 0 <= i < |s| ==> s[i].key == i
  {
    forall i | 0 <= i < |s|
      ensures s[i].key == i
    {
      AscendingLowerBound(s, i);
      AscendingUpperBound(s, n, i);
    }
  }
}
