/** Keys are byte strings, compared byte by byte as unsigned values. */
module Keys {
  import opened Bits

  type Key = seq<byte>

  /** The outcome of judging an invariant; a verdict rather than a predicate keeps the invariant in one piece at every
      call. */
  datatype Verdict = Sound | Unsound

  predicate Less(a: Key, b: Key) {
    b != [] && (a == [] || a[0] < b[0] || (a[0] == b[0] && Less(a[1..], b[1..])))
  }

  predicate Step(keys: seq<Key>, i: nat)
    requires 0 < i < |keys|
  {
    Less(keys[i - 1], keys[i])
  }

  /** Every key of keys[lo..hi] is below its successor. */
  predicate Ascending(keys: seq<Key>, lo: nat, hi: nat)
    requires hi <= |keys|
  {
    forall i: nat :: lo < i < hi ==> Step(keys, i)
  }

  predicate StrictlySorted(keys: seq<Key>) {
    Ascending(keys, 0, |keys|)
  }

  ghost predicate NulFreeKey(key: Key) {
    forall i :: 0 <= i < |key| ==> key[i] != 0
  }

  ghost predicate NulFree(keys: seq<Key>) {
    forall i :: 0 <= i < |keys| ==> NulFreeKey(keys[i])
  }

  ghost predicate Triple(keys: seq<Key>, i: nat)
    requires 2 <= i < |keys|
  {
    keys[i] == keys[i - 1] == keys[i - 2]
  }

  /** No key stands three times in a row. */
  ghost predicate NoTriple(keys: seq<Key>) {
    forall i: nat :: 2 <= i < |keys| ==> !Triple(keys, i)
  }

  /** The lists the builder can read without running past the end of a key. */
  ghost predicate Readable(keys: seq<Key>) {
    StrictlySorted(keys) || (NulFree(keys) && NoTriple(keys))
  }

  lemma {:induction false} LessTransitive(a: Key, b: Key, c: Key)
    requires Less(a, b) && Less(b, c)
    ensures Less(a, c)
  {
    if a != [] && a[0] == b[0] == c[0] {
      LessTransitive(a[1..], b[1..], c[1..]);
    }
  }

  lemma {:induction false} LessIrreflexive(a: Key)
    ensures !Less(a, a)
  {
    if a != [] {
      LessIrreflexive(a[1..]);
    }
  }

  lemma {:induction false} SortedPairs(keys: seq<Key>, lo: nat, hi: nat, i: nat, j: nat)
    requires hi <= |keys| && Ascending(keys, lo, hi) && lo <= i < j < hi
    ensures Less(keys[i], keys[j])
    decreases j
  {
    assert Step(keys, j);
    if i + 1 < j {
      SortedPairs(keys, lo, hi, i, j - 1);
      LessTransitive(keys[i], keys[j - 1], keys[j]);
    }
  }

  lemma SortedDistinct(keys: seq<Key>, i: nat, j: nat)
    requires StrictlySorted(keys) && i < |keys| && j < |keys| && keys[i] == keys[j]
    ensures i == j
  {
    if i < j {
      SortedPairs(keys, 0, |keys|, i, j);
      LessIrreflexive(keys[i]);
    } else if j < i {
      SortedPairs(keys, 0, |keys|, j, i);
      LessIrreflexive(keys[i]);
    }
  }

  /** The byte at k, reading the terminator when the key ends there. */
  function At(key: Key, k: nat): byte
    requires k <= |key|
  {
    if k < |key| then key[k] else 0
  }

  predicate SharePrefix(a: Key, b: Key, k: nat) {
    k <= |a| && k <= |b| && a[..k] == b[..k]
  }

  lemma {:induction false} LessAt(a: Key, b: Key, k: nat)
    requires SharePrefix(a, b, k)
    requires k < |b| && (k == |a| || a[k] < b[k])
    ensures Less(a, b)
    decreases k
  {
    if k > 0 {
      assert a[0] == a[..k][0] == b[..k][0] == b[0];
      assert a[1..][..k - 1] == a[..k][1..] == b[..k][1..] == b[1..][..k - 1];
      LessAt(a[1..], b[1..], k - 1);
    }
  }

  /** A key is not above one that extends it. */
  lemma {:induction false} PrefixNotAbove(a: Key, b: Key)
    requires a <= b
    ensures !Less(b, a)
  {
    if a != [] {
      assert a[0] == b[0] && a[1..] <= b[1..];
      PrefixNotAbove(a[1..], b[1..]);
    }
  }

  lemma SharePrefixExtend(a: Key, b: Key, k: nat)
    requires SharePrefix(a, b, k) && k < |a| && k < |b| && a[k] == b[k]
    ensures SharePrefix(a, b, k + 1)
  {
    assert a[..k + 1] == a[..k] + [a[k]] == b[..k] + [b[k]] == b[..k + 1];
  }
}
