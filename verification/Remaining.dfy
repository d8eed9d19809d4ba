/** How many bytes, terminators included, are still to be arranged below a node:
    the measure that bounds the recursion and the size of the double array. */
module Remaining {
  import opened Bits
  import opened Keys

  function Left(key: Key, k: nat): nat {
    if k <= |key| then |key| + 1 - k else 0
  }

  function Work(keys: seq<Key>, i: nat, j: nat, k: nat): nat
    requires i <= j <= |keys|
    decreases j
  {
    if i == j then 0 else Work(keys, i, j - 1, k) + Left(keys[j - 1], k)
  }

  lemma {:induction false} WorkSplit(keys: seq<Key>, i: nat, m: nat, j: nat, k: nat)
    requires i <= m <= j <= |keys|
    ensures Work(keys, i, j, k) == Work(keys, i, m, k) + Work(keys, m, j, k)
    decreases j
  {
    if m < j {
      WorkSplit(keys, i, m, j - 1, k);
    }
  }

  /** One byte further down, every key that reaches k has one byte less. */
  lemma {:induction false} WorkStep(keys: seq<Key>, i: nat, j: nat, k: nat)
    requires i <= j <= |keys|
    requires forall x :: i <= x < j ==> k <= |keys[x]|
    ensures Work(keys, i, j, k) == Work(keys, i, j, k + 1) + (j - i)
    decreases j
  {
    if i < j {
      WorkStep(keys, i, j - 1, k);
    }
  }

  /** The work below one group of a node's keys is less than that below the node. */
  lemma WorkOfGroup(keys: seq<Key>, beg: nat, lo: nat, i: nat, j: nat, end: nat, k: nat)
    requires beg <= lo <= i < j <= end <= |keys|
    requires forall x :: beg <= x < end ==> k <= |keys[x]|
    ensures Work(keys, i, j, k + 1) < Work(keys, beg, end, k)
  {
    WorkStep(keys, beg, end, k);
    WorkSplit(keys, beg, i, end, k + 1);
    WorkSplit(keys, i, j, end, k + 1);
  }
}
