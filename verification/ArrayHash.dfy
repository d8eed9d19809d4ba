/** The array hash: a hash table whose buckets are byte buffers that hold keys and the
    positions of their values in one vector. Erased values stay in the vector as holes. */
module ArrayHash {
  import opened Maps
  import opened Options
  import opened Bits
  import opened Keys
  import opened Serialization
  import opened GrowthPolicy
  import opened ArrayBucket

  /** array_hash_iterator: a bucket and a place in it; past the last bucket at the end. */
  datatype Cursor = Cursor(bucket: nat, offset: Option<nat>)

  datatype Emplaced = Inserted | Present | TooLong | TooFull | TooManyBuckets

  function MaxSize(f: Format): nat {
    Pow2(8 * f.indexSize) - 1
  }

  // ---------- entries in the order of the table ----------

  ghost function All(lists: seq<seq<Entry>>): seq<Entry> {
    if lists == [] then [] else All(lists[..|lists| - 1]) + lists[|lists| - 1]
  }

  lemma {:induction false} AllSplit(lists: seq<seq<Entry>>, b: nat)
    requires b <= |lists|
    ensures All(lists) == All(lists[..b]) + All(lists[b..])
    decreases |lists|
  {
    if b == |lists| {
      assert lists[..b] == lists;
    } else {
      var front := lists[..|lists| - 1];
      AllSplit(front, b);
      assert front[..b] == lists[..b];
      assert lists[b..][..|lists| - b - 1] == front[b..];
    }
  }

  lemma AllAround(lists: seq<seq<Entry>>, b: nat)
    requires b < |lists|
    ensures All(lists) == All(lists[..b]) + lists[b] + All(lists[b + 1..])
    ensures All(lists[..b + 1]) == All(lists[..b]) + lists[b]
  {
    AllSplit(lists, b + 1);
    assert lists[..b + 1][..b] == lists[..b];
  }

  /** Another list in one bucket. */
  lemma AllUpdate(lists: seq<seq<Entry>>, b: nat, list: seq<Entry>)
    requires b < |lists|
    ensures All(lists[b := list]) == All(lists[..b]) + list + All(lists[b + 1..])
  {
    var r := lists[b := list];
    AllAround(r, b);
    assert r[..b] == lists[..b] && r[b + 1..] == lists[b + 1..];
  }

  /** The place of entry i of bucket b among all. */
  ghost function Rank(lists: seq<seq<Entry>>, b: nat, i: nat): nat
    requires b <= |lists|
  {
    |All(lists[..b])| + i
  }

  lemma AllAt(lists: seq<seq<Entry>>, b: nat, i: nat)
    requires b < |lists| && i < |lists[b]|
    ensures Rank(lists, b, i) < |All(lists)| && All(lists)[Rank(lists, b, i)] == lists[b][i]
  {
    hide All;
    AllAround(lists, b);
  }

  lemma {:induction false} AllIndex(lists: seq<seq<Entry>>, k: nat) returns (b: nat, i: nat)
    requires k < |All(lists)|
    ensures b < |lists| && i < |lists[b]| && k == Rank(lists, b, i)
  {
    var last := |lists| - 1;
    if k < |All(lists[..last])| {
      b, i := AllIndex(lists[..last], k);
      assert lists[..last][..b] == lists[..b];
    } else {
      b, i := last, k - |All(lists[..last])|;
    }
  }

  ghost predicate Distinct(es: seq<Entry>) {
    forall i, j :: 0 <= i < j < |es| ==> es[i].key != es[j].key && es[i].index != es[j].index
  }

  /** The entries, with their values, are the map. */
  ghost predicate Denotes(es: seq<Entry>, values: seq<nat>, m: map<Key, nat>) {
    && |m| == |es|
    && (forall i :: 0 <= i < |es| ==> es[i].index < |values| && es[i].key in m && m[es[i].key] == values[es[i].index])
    && (forall key :: key in m ==> HasKey(es, key))
  }

  ghost predicate HasKey(es: seq<Entry>, key: Key) {
    exists i :: 0 <= i < |es| && es[i].key == key
  }

  /** Where entry i of the longer sequence stands in the shorter one. */
  ghost function Old(i: nat, at: nat): nat {
    if i < at then i else if i == 0 then 0 else i - 1
  }

  /** r is es with one more entry at some place. */
  ghost predicate OneMore(es: seq<Entry>, r: seq<Entry>, at: nat) {
    && at < |r| == |es| + 1
    && forall i: nat :: i < |r| && i != at ==> r[i] == es[Old(i, at)]
  }

  lemma OneMoreAdded(a: seq<Entry>, b: seq<Entry>, e: Entry)
    ensures OneMore(a + b, a + [e] + b, |a|) && (a + [e] + b)[|a|] == e
  {
  }

  lemma OneMoreRemoved(es: seq<Entry>, k: nat)
    requires k < |es|
    ensures OneMore(Without(es, k), es, k)
  {
  }

  lemma HasMore(es: seq<Entry>, r: seq<Entry>, at: nat, key: Key)
    requires OneMore(es, r, at)
    ensures HasKey(r, key) <==> HasKey(es, key) || r[at].key == key
  {
    if HasKey(es, key) {
      var i: nat :| i < |es| && es[i].key == key;
      var j := if i < at then i else i + 1;
      assert Old(j, at) == i && r[j].key == key;
    }
    if HasKey(r, key) {
      var i: nat :| i < |r| && r[i].key == key;
      if i != at { assert es[Old(i, at)].key == key; }
    }
  }

  /** An entry with a fresh value. */
  lemma EntryAdded(es: seq<Entry>, r: seq<Entry>, at: nat, values: seq<nat>, value: nat, m: map<Key, nat>)
    requires OneMore(es, r, at) && Distinct(es) && Denotes(es, values, m) && r[at].key !in m && r[at].index == |values|
    ensures Distinct(r) && Denotes(r, values + [value], m[r[at].key := value])
  {
    hide HasKey;
    var m' := m[r[at].key := value];
    forall i: nat | i < |r| && i != at ensures r[i].key in m && r[i].index < |values| && r[i].key != r[at].key
    && m[r[i].key] == values[r[i].index] {
      assert es[Old(i, at)].key in m;
    }
    forall i: nat, j: nat | i < j < |r| ensures r[i].key != r[j].key && r[i].index != r[j].index {
      if i != at && j != at { assert Old(i, at) < Old(j, at); }
    }
    forall key | key in m' ensures HasKey(r, key) {
      HasMore(es, r, at, key);
    }
  }

  lemma EntryRemoved(es: seq<Entry>, r: seq<Entry>, at: nat, values: seq<nat>, m: map<Key, nat>)
    requires OneMore(es, r, at) && Distinct(r) && Denotes(r, values, m)
    ensures Distinct(es) && Denotes(es, values, m - {r[at].key})
  {
    hide HasKey;
    var m' := m - {r[at].key};
    forall i: nat | i < |es| ensures var j := if i < at then i else i + 1; j != at && Old(j, at) == i && es[i] == r[j] && r[j].key != r[at].key {}
    forall i: nat, j: nat | i < j < |es| ensures es[i].key != es[j].key && es[i].index != es[j].index {
      var i', j' := if i < at then i else i + 1, if j < at then j else j + 1;
      assert i' < j' && es[i] == r[i'] && es[j] == r[j'];
    }
    forall key | key in m' ensures HasKey(es, key) {
      HasMore(es, r, at, key);
    }
    assert r[at].key in m && m == m'[r[at].key := m[r[at].key]];
  }

  lemma ValueAssigned(es: seq<Entry>, k: nat, values: seq<nat>, value: nat, m: map<Key, nat>)
    requires Distinct(es) && Denotes(es, values, m) && k < |es|
    ensures es[k].index < |values|
    ensures Denotes(es, values[es[k].index := value], m[es[k].key := value])
  {
    assert es[k].key in m;
    assert m[es[k].key := value].Keys == m.Keys;
    SizeAssign(m, es[k].key, value);
  }

  /** The same entries in another order. */
  lemma Reordered(es: seq<Entry>, r: seq<Entry>, values: seq<nat>, m: map<Key, nat>)
    requires Denotes(es, values, m) && |r| == |es| && forall e :: e in r <==> e in es
    ensures Denotes(r, values, m)
  {
    forall i | 0 <= i < |r| ensures r[i].index < |values| && r[i].key in m && m[r[i].key] == values[r[i].index] {
      assert r[i] in es;
    }
    forall key | key in m ensures HasKey(r, key) {
      var i :| 0 <= i < |es| && es[i].key == key;
      assert es[i] in r;
    }
  }

  // ---------- the table ----------

  /** Every entry is in the bucket of its hash. */
  ghost predicate AtHome(hash: Key -> nat, lists: seq<seq<Entry>>, mask: nat) {
    forall b, i :: 0 <= b < |lists| && 0 <= i < |lists[b]| ==> BucketForHash(hash(lists[b][i].key), mask) == b
  }

  ghost predicate BucketsOk(f: Format, buckets: seq<seq<byte>>, lists: seq<seq<Entry>>) {
    && |lists| == |buckets|
    && forall b :: 0 <= b < |buckets| ==> BucketOk(f, buckets[b], lists[b])
  }

  /** The cursor stands at entry k. */
  ghost predicate CursorAt(f: Format, lists: seq<seq<Entry>>, c: Cursor, k: nat) {
    if c.bucket >= |lists| then c == Cursor(|lists|, None) && k == |All(lists)|
    else exists i: nat :: Stands(f, lists, c, k, i)
  }

  ghost predicate Stands(f: Format, lists: seq<seq<Entry>>, c: Cursor, k: nat, i: nat) {
    && c.bucket < |lists| && i < |lists[c.bucket]|
    && c.offset == Some(Offset(f, lists[c.bucket], i)) && k == Rank(lists, c.bucket, i)
  }

  lemma CursorEnd(f: Format, lists: seq<seq<Entry>>, c: Cursor, k: nat)
    requires CursorAt(f, lists, c, k)
    ensures k <= |All(lists)| && (k == |All(lists)| <==> c.bucket == |lists|) && c.bucket <= |lists|
  {
    if c.bucket < |lists| {
      var i: nat :| Stands(f, lists, c, k, i);
      AllAt(lists, c.bucket, i);
    }
  }

  lemma {:induction false} RankGrows(lists: seq<seq<Entry>>, a: nat, b: nat)
    requires a < b <= |lists|
    ensures Rank(lists, a, |lists[a]|) <= Rank(lists, b, 0)
    decreases b
  {
    hide All;
    AllAround(lists, b - 1);
    if a + 1 < b {
      RankGrows(lists, a, b - 1);
    }
  }

  lemma {:induction false} OffsetGrows(f: Format, es: seq<Entry>, i: nat, j: nat)
    requires i < j <= |es|
    ensures Offset(f, es, i) < Offset(f, es, j)
    decreases j
  {
    hide Image;
    OffsetStep(f, es, j - 1);
    if i + 1 < j {
      OffsetGrows(f, es, i, j - 1);
    }
  }

  lemma CursorUnique(f: Format, lists: seq<seq<Entry>>, c: Cursor, k: nat, c': Cursor, k': nat)
    requires CursorAt(f, lists, c, k) && CursorAt(f, lists, c', k')
    ensures c == c' <==> k == k'
  {
    hide All, Offset;
    CursorEnd(f, lists, c, k);
    CursorEnd(f, lists, c', k');
    if c.bucket < |lists| && c'.bucket < |lists| {
      var i: nat :| Stands(f, lists, c, k, i);
      var i': nat :| Stands(f, lists, c', k', i');
      if c.bucket < c'.bucket {
        RankGrows(lists, c.bucket, c'.bucket);
      } else if c'.bucket < c.bucket {
        RankGrows(lists, c'.bucket, c.bucket);
      } else if i < i' {
        OffsetGrows(f, lists[c.bucket], i, i');
      } else if i' < i {
        OffsetGrows(f, lists[c.bucket], i', i);
      }
    }
  }

  /** No entry of the home bucket has the key: no entry at all has it. */
  lemma HomeTells(hash: Key -> nat, lists: seq<seq<Entry>>, mask: nat, values: seq<nat>, m: map<Key, nat>, key: Key,
      home: nat)
    requires AtHome(hash, lists, mask) && Denotes(All(lists), values, m) && home == BucketForHash(hash(key), mask)
    requires home < |lists| ==> forall i :: 0 <= i < |lists[home]| ==> lists[home][i].key != key
    ensures key !in m
  {
    hide All;
    if key in m {
      var k :| 0 <= k < |All(lists)| && All(lists)[k].key == key;
      var b, i := AllIndex(lists, k);
      AllAt(lists, b, i);
    }
  }

  /** The do-while loop over the buckets: the first bucket from b on with an entry. */
  method FirstFrom(f: Format, buckets: seq<seq<byte>>, start: nat, ghost lists: seq<seq<Entry>>) returns (c: Cursor)
    requires BucketsOk(f, buckets, lists) && start <= |buckets|
    ensures CursorAt(f, lists, c, Rank(lists, start, 0))
  {
    hide BucketOk, All, Empty;
    var b := start;
    if b < |buckets| { EmptyOk(f, buckets[b], lists[b]); }
    while b < |buckets| && Empty(buckets[b])
      invariant start <= b <= |buckets| && Rank(lists, b, 0) == Rank(lists, start, 0)
      invariant b < |buckets| ==>
                  (buckets[b] != [] ==> |buckets[b]| >= SIZE_BYTES) && (Empty(buckets[b]) <==> lists[b] == [])
    {
      AllAround(lists, b);
      b := b + 1;
      if b < |buckets| { EmptyOk(f, buckets[b], lists[b]); }
    }
    if b < |buckets| {
      OffsetZero(f, lists[b]);
      c := Cursor(b, Some(0));
      assert Stands(f, lists, c, Rank(lists, start, 0), 0);
    } else {
      assert lists[..b] == lists;
      c := Cursor(b, None);
    }
  }

  /** operator++ */
  method Advance(f: Format, buckets: seq<seq<byte>>, c: Cursor, ghost lists: seq<seq<Entry>>, ghost k: nat)
      returns (c': Cursor)
    requires BucketsOk(f, buckets, lists) && CursorAt(f, lists, c, k) && c.bucket < |buckets|
    ensures CursorAt(f, lists, c', k + 1)
  {
    hide BucketOk, All;
    ghost var i: nat :| Stands(f, lists, c, k, i);
    AllAround(lists, c.bucket);
    var next := ArrayBucket.Next(f, buckets[c.bucket], c.offset.value, lists[c.bucket], i);
    if next.Some? {
      c' := Cursor(c.bucket, next);
      assert Stands(f, lists, c', k + 1, i + 1);
    } else {
      c' := FirstFrom(f, buckets, c.bucket + 1, lists);
    }
  }

  /** The entry under a cursor. */
  lemma CursorEntry(f: Format, buckets: seq<seq<byte>>, lists: seq<seq<Entry>>, c: Cursor, k: nat) returns (i: nat)
    requires BucketsOk(f, buckets, lists) && CursorAt(f, lists, c, k) && c.bucket < |buckets|
    ensures Stands(f, lists, c, k, i) && k < |All(lists)| && All(lists)[k] == lists[c.bucket][i]
    ensures var p, b := c.offset.value, buckets[c.bucket];
            && p + SIZE_BYTES <= |b| && p + SIZE_BYTES + ReadKeySize(b, p) <= |b|
            && IndexPosition(f, b, p) + f.indexSize <= |b|
            && KeyAt(b, p) == All(lists)[k].key && IndexAt(f, b, p) == All(lists)[k].index
            && ReadKeySize(b, p) == |All(lists)[k].key|
  {
    hide All, Offset, ReadKeySize;
    i :| Stands(f, lists, c, k, i);
    AllAt(lists, c.bucket, i);
    EntryRead(f, buckets[c.bucket], lists[c.bucket], i);
  }

  // ---------- clearing the holes ----------

  /** The same keys at the same places. */
  ghost predicate SameKeys(a: seq<seq<Entry>>, b: seq<seq<Entry>>) {
    && |a| == |b|
    && (forall j :: 0 <= j < |a| ==> |a[j]| == |b[j]|)
    && forall j, i :: 0 <= j < |a| && 0 <= i < |a[j]| ==> a[j][i].key == b[j][i].key
  }

  lemma {:induction false} SameKeysAll(a: seq<seq<Entry>>, b: seq<seq<Entry>>)
    requires SameKeys(a, b)
    ensures |All(a)| == |All(b)| && forall k :: 0 <= k < |All(a)| ==> All(a)[k].key == All(b)[k].key
  {
    if a != [] {
      SameKeysAll(a[..|a| - 1], b[..|b| - 1]);
    }
  }

  lemma {:induction false} SameKeysImage(f: Format, a: seq<Entry>, b: seq<Entry>)
    requires |a| == |b| && forall i :: 0 <= i < |a| ==> a[i].key == b[i].key
    ensures |Image(f, a)| == |Image(f, b)|
  {
    if a != [] {
      SameKeysImage(f, a[..|a| - 1], b[..|b| - 1]);
    }
  }

  /** Cursors stay where they are. */
  lemma SameKeysCursor(f: Format, a: seq<seq<Entry>>, b: seq<seq<Entry>>, c: Cursor, k: nat)
    requires SameKeys(a, b) && CursorAt(f, a, c, k)
    ensures CursorAt(f, b, c, k)
  {
    hide All, Image;
    if c.bucket >= |a| {
      SameKeysAll(a, b);
    } else {
      var i: nat :| Stands(f, a, c, k, i);
      SameKeysAll(a[..c.bucket], b[..c.bucket]);
      SameKeysImage(f, a[c.bucket][..i], b[c.bucket][..i]);
      assert Stands(f, b, c, k, i);
    }
  }

  /** The first loop of clear_old_erased_values: the values in the order of the table. */
  method Gather(f: Format, buckets: seq<seq<byte>>, values: seq<nat>, ghost lists: seq<seq<Entry>>)
      returns (r: seq<nat>)
    requires BucketsOk(f, buckets, lists) && forall k :: 0 <= k < |All(lists)| ==> All(lists)[k].index < |values|
    ensures |r| == |All(lists)| && forall k :: 0 <= k < |r| ==> r[k] == values[All(lists)[k].index]
  {
    hide BucketOk, All, ReadKeySize, Rank;
    r := [];
    RankZero(lists);
    var c := FirstFrom(f, buckets, 0, lists);
    CursorEnd(f, lists, c, |r|);
    while c.bucket < |buckets|
      invariant BucketsOk(f, buckets, lists) && CursorAt(f, lists, c, |r|) && |r| <= |All(lists)|
                && c.bucket <= |buckets|
      invariant |r| == |All(lists)| <==> c.bucket == |buckets|
      invariant forall k :: 0 <= k < |r| ==> r[k] == values[All(lists)[k].index]
      decreases |All(lists)| - |r|
    {
      ghost var i := CursorEntry(f, buckets, lists, c, |r|);
      var v := values[IndexAt(f, buckets[c.bucket], c.offset.value)];
      c := Advance(f, buckets, c, lists, |r|);
      r := r + [v];
      CursorEnd(f, lists, c, |r|);
    }
  }

  lemma RankZero(lists: seq<seq<Entry>>)
    ensures Rank(lists, 0, 0) == 0
  {
  }

  /** One renumbered entry. */
  ghost function Renumbered(lists: seq<seq<Entry>>, b: nat, i: nat, index: nat): seq<seq<Entry>>
    requires b < |lists| && i < |lists[b]|
  {
    lists[b := lists[b][i := lists[b][i].(index := index)]]
  }

  lemma RenumberedOk(f: Format, lists: seq<seq<Entry>>, c: Cursor, i: nat, k: nat, index: nat)
    requires Stands(f, lists, c, k, i)
    ensures var r := Renumbered(lists, c.bucket, i, index);
            && SameKeys(lists, r) && Stands(f, r, c, k, i)
            && k < |All(lists)| && All(r) == All(lists)[k := All(lists)[k].(index := index)]
  {
    hide All, Image;
    var b := c.bucket;
    var r := Renumbered(lists, b, i, index);
    AllAround(lists, b);
    AllUpdate(lists, b, r[b]);
    assert r[..b] == lists[..b] && r[b][..i] == lists[b][..i];
  }

  /** The second loop: entry k is given the position k. */
  method Renumber(f: Format, buckets: seq<seq<byte>>, ghost lists: seq<seq<Entry>>)
      returns (r: seq<seq<byte>>, ghost lists': seq<seq<Entry>>)
    requires BucketsOk(f, buckets, lists) && |All(lists)| <= MaxSize(f)
    ensures BucketsOk(f, r, lists') && |r| == |buckets| && SameKeys(lists, lists')
    ensures |All(lists')| == |All(lists)| && forall k :: 0 <= k < |All(lists)| ==>
              All(lists')[k] == All(lists)[k].(index := k)
    ensures forall b :: 0 <= b < |buckets| ==> |r[b]| == |buckets[b]|
  {
    hide BucketOk, All, Offset, ReadKeySize, Image, CursorAt, Renumbered;
    r, lists' := buckets, lists;
    RankZero(lists);
    var c := FirstFrom(f, r, 0, lists);
    CursorEnd(f, lists, c, 0);
    var ivalue: nat := 0;
    while c.bucket < |r|
      invariant BucketsOk(f, r, lists') && |r| == |buckets| && SameKeys(lists, lists') && CursorAt(f, lists', c, ivalue)
      invariant forall b :: 0 <= b < |buckets| ==> |r[b]| == |buckets[b]|
      invariant c.bucket <= |r| && ivalue <= |All(lists)| == |All(lists')|
                && (ivalue == |All(lists)| <==> c.bucket == |r|)
      invariant forall k :: 0 <= k < |All(lists)| ==>
                  All(lists')[k] == if k < ivalue then All(lists)[k].(index := k) else All(lists)[k]
      decreases |All(lists)| - ivalue
    {
      ghost var i := CursorEntry(f, r, lists', c, ivalue);
      RenumberedOk(f, lists', c, i, ivalue, ivalue);
      var bucket := SetIndex(f, r[c.bucket], c.offset.value, ivalue, lists'[c.bucket], i);
      RenumberStep(f, r, lists', c, i, ivalue, bucket);
      r := r[c.bucket := bucket];
      lists' := Renumbered(lists', c.bucket, i, ivalue);
      c := Advance(f, r, c, lists', ivalue);
      ivalue := ivalue + 1;
      CursorEnd(f, lists', c, ivalue);
    }
  }

  lemma RenumberStep(f: Format, buckets: seq<seq<byte>>, lists: seq<seq<Entry>>, c: Cursor, i: nat, k: nat,
      bucket: seq<byte>)
    requires BucketsOk(f, buckets, lists) && Stands(f, lists, c, k, i)
    requires BucketOk(f, bucket, lists[c.bucket][i := lists[c.bucket][i].(index := k)])
    ensures BucketsOk(f, buckets[c.bucket := bucket], Renumbered(lists, c.bucket, i, k))
    ensures CursorAt(f, Renumbered(lists, c.bucket, i, k), c, k)
  {
    hide BucketOk, All, Image;
    RenumberedOk(f, lists, c, i, k, k);
  }

  /** The map is the same with the values gathered and the entries renumbered. */
  lemma Compacted(es: seq<Entry>, r: seq<Entry>, values: seq<nat>, values': seq<nat>, m: map<Key, nat>)
    requires Distinct(es) && Denotes(es, values, m) && |r| == |es| == |values'|
    requires forall k :: 0 <= k < |es| ==> r[k] == es[k].(index := k) && values'[k] == values[es[k].index]
    ensures Distinct(r) && Denotes(r, values', m)
  {
    forall key | key in m ensures HasKey(r, key) {
      var i :| 0 <= i < |es| && es[i].key == key;
      assert r[i].key == key;
    }
  }

  // ---------- rehashing ----------

  /** The entries of es that a table with the mask keeps in bucket b, in their order. */
  ghost function Chosen(es: seq<Entry>, hash: Key -> nat, mask: nat, b: nat): (r: seq<Entry>)
    ensures |r| <= |es|
  {
    if es == [] then []
    else
      var rest := Chosen(es[..|es| - 1], hash, mask, b);
      if BucketForHash(hash(es[|es| - 1].key), mask) == b then rest + [es[|es| - 1]] else rest
  }

  lemma ChosenSnoc(es: seq<Entry>, k: nat, hash: Key -> nat, mask: nat, b: nat)
    requires k < |es|
    ensures Chosen(es[..k + 1], hash, mask, b)
              == if BucketForHash(hash(es[k].key), mask) == b then Chosen(es[..k], hash, mask,
                  b) + [es[k]] else Chosen(es[..k], hash, mask, b)
  {
    assert es[..k + 1][..k] == es[..k];
  }

  /** The image of a bucket grows up to what was counted for it. */
  lemma {:induction false} ChosenGrows(f: Format, es: seq<Entry>, k: nat, hash: Key -> nat, mask: nat, b: nat)
    requires k <= |es|
    ensures |Image(f, Chosen(es[..k], hash, mask, b))| <= |Image(f, Chosen(es, hash, mask, b))|
    decreases |es| - k
  {
    hide Image, EntryBytes, Chosen;
    if k == |es| {
      assert es[..k] == es;
    } else {
      ChosenSnoc(es, k, hash, mask, b);
      ImageSnoc(f, Chosen(es[..k], hash, mask, b), es[k]);
      ChosenGrows(f, es, k + 1, hash, mask, b);
    }
  }

  ghost predicate ListsChosen(lists: seq<seq<Entry>>, es: seq<Entry>, hash: Key -> nat, mask: nat) {
    forall b :: 0 <= b < |lists| ==> lists[b] == Chosen(es, hash, mask, b)
  }

  /** Sorted into buckets, the entries are the same. */
  ghost predicate Permuted(es: seq<Entry>, r: seq<Entry>) {
    && |r| == |es| && (forall e :: e in r <==> e in es)
    && (Distinct(es) ==> Distinct(r))
  }

  lemma PermutedMore(es: seq<Entry>, e: Entry, r: seq<Entry>, r': seq<Entry>, at: nat)
    requires Permuted(es, r) && OneMore(r, r', at) && r'[at] == e
    ensures Permuted(es + [e], r')
  {
    var all := es + [e];
    forall x ensures x in r' <==> x in all {
      if x in r' {
        var i: nat :| i < |r'| && r'[i] == x;
        if i != at { assert r[Old(i, at)] in r; }
      }
      if x in all && x != e {
        var i: nat :| i < |r| && r[i] == x;
        var j := if i < at then i else i + 1;
        assert Old(j, at) == i && r'[j] == x;
      }
    }
    if Distinct(all) {
      assert Distinct(es) by {
        forall i, j | 0 <= i < j < |es| ensures es[i].key != es[j].key && es[i].index != es[j].index {
          assert all[i] == es[i] && all[j] == es[j];
        }
      }
      forall i: nat | i < |r'| && i != at ensures r'[i].key != e.key && r'[i].index != e.index {
        assert r[Old(i, at)] in es;
        var j :| 0 <= j < |es| && es[j] == r'[i];
        assert all[j] == es[j] && all[|es|] == e;
      }
      forall i: nat, j: nat | i < j < |r'| ensures r'[i].key != r'[j].key && r'[i].index != r'[j].index {
        if i != at && j != at { assert Old(i, at) < Old(j, at); }
      }
    }
  }

  /** Appending an entry to one of the lists. */
  lemma AllPush(lists: seq<seq<Entry>>, b: nat, e: Entry)
    requires b < |lists|
    ensures OneMore(All(lists), All(lists[b := lists[b] + [e]]), Rank(lists, b, |lists[b]|))
    ensures All(lists[b := lists[b] + [e]])[Rank(lists, b, |lists[b]|)] == e
  {
    hide All;
    AllAround(lists, b);
    AllUpdate(lists, b, lists[b] + [e]);
    var before, after := All(lists[..b]) + lists[b], All(lists[b + 1..]);
    OneMoreAdded(before, after, e);
    assert before + [e] + after == All(lists[..b]) + (lists[b] + [e]) + after;
  }

  /** What the first pass of rehash_impl counts for the first k entries. */
  ghost predicate Counted(f: Format, es: seq<Entry>, k: nat, hash: Key -> nat, mask: nat, required: seq<nat>,
      bucketFor: seq<nat>) {
    && k <= |es| && |bucketFor| == k
    && (forall b :: 0 <= b < |required| ==> required[b] == |Image(f, Chosen(es[..k], hash, mask, b))|)
    && (forall j :: 0 <= j < k ==> bucketFor[j] == BucketForHash(hash(es[j].key), mask) < |required|)
  }

  lemma CountedStart(f: Format, es: seq<Entry>, hash: Key -> nat, mask: nat, required: seq<nat>)
    requires forall b :: 0 <= b < |required| ==> required[b] == 0
    ensures Counted(f, es, 0, hash, mask, required, [])
  {
  }

  lemma CountedStep(f: Format, es: seq<Entry>, k: nat, hash: Key -> nat, mask: nat, required: seq<nat>,
      bucketFor: seq<nat>, b: nat)
    requires Counted(f, es, k, hash, mask, required, bucketFor) && k < |es|
    requires b == BucketForHash(hash(es[k].key), mask) < |required|
    ensures Counted(f, es, k + 1, hash, mask, required[b := required[b] + Required(f, |es[k].key|)], bucketFor + [b])
  {
    hide Image, Chosen, BucketForHash, EntryBytes;
    var r := required[b := required[b] + Required(f, |es[k].key|)];
    forall x | 0 <= x < |r| ensures r[x] == |Image(f, Chosen(es[..k + 1], hash, mask, x))| {
      ChosenSnoc(es, k, hash, mask, x);
      ImageSnoc(f, Chosen(es[..k], hash, mask, x), es[k]);
    }
  }

  /** The first pass of rehash_impl. */
  method CountBytes(f: Format, hash: Key -> nat, buckets: seq<seq<byte>>, count: nat, mask: nat,
      ghost lists: seq<seq<Entry>>)
      returns (required: seq<nat>, bucketFor: seq<nat>)
    requires BucketsOk(f, buckets, lists) && MaskOf(count, mask) && count > 0
    ensures |required| == count && Counted(f, All(lists), |All(lists)|, hash, mask, required, bucketFor)
  {
    hide BucketOk, All, ReadKeySize, Rank, Counted, BucketForHash, Stands, Offset;
    required := seq(count, _ => 0);
    bucketFor := [];
    CountedStart(f, All(lists), hash, mask, required);
    ghost var k: nat := 0;
    RankZero(lists);
    var c := FirstFrom(f, buckets, 0, lists);
    CursorEnd(f, lists, c, k);
    while c.bucket < |buckets|
      invariant BucketsOk(f, buckets, lists) && CursorAt(f, lists, c, k) && k <= |All(lists)| && c.bucket <= |buckets|
      invariant k == |All(lists)| <==> c.bucket == |buckets|
      invariant |required| == count && Counted(f, All(lists), k, hash, mask, required, bucketFor)
      decreases |All(lists)| - k
    {
      ghost var i := CursorEntry(f, buckets, lists, c, k);
      CursorOffset(f, lists, c, k, i);
      var key := KeyAt(buckets[c.bucket], c.offset.value);
      var b := BucketForHash(hash(key), mask);
      BucketInside(hash(key), count, mask);
      CountedStep(f, All(lists), k, hash, mask, required, bucketFor, b);
      required := required[b := required[b] + Required(f, |key|)];
      bucketFor := bucketFor + [b];
      c := Advance(f, buckets, c, lists, k);
      k := k + 1;
      CursorEnd(f, lists, c, k);
    }
  }

  lemma CursorOffset(f: Format, lists: seq<seq<Entry>>, c: Cursor, k: nat, i: nat)
    requires Stands(f, lists, c, k, i)
    ensures c.offset.Some?
  {
  }

  /** The fresh buckets, filled up to entry k, have room for the rest. */
  ghost predicate Filling(f: Format, es: seq<Entry>, k: nat, hash: Key -> nat, mask: nat, required: seq<nat>,
      buckets: seq<seq<byte>>, lists: seq<seq<Entry>>) {
    && k <= |es| && |required| == |buckets| && BucketsOk(f, buckets, lists) && ListsChosen(lists, es[..k], hash, mask)
    && (forall b :: 0 <= b < |buckets| ==> |buckets[b]| == if required[b] == 0 then 0 else required[b] + SIZE_BYTES)
  }

  /** The reserved buckets. */
  method ReserveAll(f: Format, required: seq<nat>) returns (buckets: seq<seq<byte>>, ghost lists: seq<seq<Entry>>)
    ensures |buckets| == |required| && BucketsOk(f, buckets, lists) && forall b :: 0 <= b < |lists| ==> lists[b] == []
    ensures forall b :: 0 <= b < |buckets| ==> |buckets[b]| == if required[b] == 0 then 0 else required[b] + SIZE_BYTES
  {
    hide BucketOk;
    buckets, lists := [], [];
    while |buckets| < |required|
      invariant |buckets| <= |required| && BucketsOk(f, buckets, lists) && forall b :: 0 <= b < |lists| ==>
                  lists[b] == []
      invariant forall b :: 0 <= b < |buckets| ==>
                  |buckets[b]| == if required[b] == 0 then 0 else required[b] + SIZE_BYTES
    {
      var bucket := Reserved(f, required[|buckets|]);
      buckets := buckets + [bucket];
      lists := lists + [[]];
    }
  }

  /** The entry fits into the bytes that are left of its bucket. */
  lemma FillRoom(f: Format, es: seq<Entry>, k: nat, hash: Key -> nat, mask: nat, required: seq<nat>,
      bucketFor: seq<nat>, buckets: seq<seq<byte>>, lists: seq<seq<Entry>>)
    requires Filling(f, es, k, hash, mask, required, buckets, lists) && k < |es|
    requires Counted(f, es, |es|, hash, mask, required, bucketFor)
    ensures var b := bucketFor[k];
            b < |buckets| && BucketOk(f, buckets[b], lists[b])
            && |Image(f, lists[b])| + Required(f, |es[k].key|) + SIZE_BYTES <= |buckets[b]|
  {
    hide Image, Chosen, BucketForHash, BucketOk;
    var b := bucketFor[k];
    ChosenSnoc(es, k, hash, mask, b);
    ImageSnoc(f, Chosen(es[..k], hash, mask, b), es[k]);
    ChosenGrows(f, es, k + 1, hash, mask, b);
    assert es[..|es|] == es;
  }

  lemma FillStep(f: Format, es: seq<Entry>, k: nat, hash: Key -> nat, mask: nat, required: seq<nat>,
      buckets: seq<seq<byte>>, lists: seq<seq<Entry>>, b: nat, bucket: seq<byte>)
    requires Filling(f, es, k, hash, mask, required, buckets, lists) && k < |es|
    requires b == BucketForHash(hash(es[k].key), mask) < |buckets| && |bucket| == |buckets[b]|
    requires BucketOk(f, bucket, lists[b] + [es[k]])
    ensures Filling(f, es, k + 1, hash, mask, required, buckets[b := bucket], lists[b := lists[b] + [es[k]]])
  {
    hide Image, Chosen, BucketForHash, BucketOk;
    var r := lists[b := lists[b] + [es[k]]];
    forall x | 0 <= x < |r| ensures r[x] == Chosen(es[..k + 1], hash, mask, x) {
      ChosenSnoc(es, k, hash, mask, x);
    }
  }

  /** The second pass of rehash_impl: every entry goes to the end of its new bucket, in the bytes reserved for it. */
  method Refill(f: Format, hash: Key -> nat, buckets: seq<seq<byte>>, mask: nat, required: seq<nat>,
      bucketFor: seq<nat>, ghost lists: seq<seq<Entry>>)
      returns (filled: seq<seq<byte>>, ghost lists': seq<seq<Entry>>)
    requires BucketsOk(f, buckets, lists) && Counted(f, All(lists), |All(lists)|, hash, mask, required, bucketFor)
    requires EntriesOk(f, All(lists))
    ensures |filled| == |required| && BucketsOk(f, filled, lists') && ListsChosen(lists', All(lists), hash, mask)
    ensures Permuted(All(lists), All(lists')) && Filled(f, filled, lists', required)
  {
    hide BucketOk, All, ReadKeySize, Rank, Counted, BucketForHash, Stands, Offset, Filling, Permuted, Required, Image;
    hide EntryOk, Chosen;
    ghost var es := All(lists);
    filled, lists' := ReserveAll(f, required);
    FillStart(f, es, hash, mask, required, filled, lists');
    var ivalue: nat := 0;
    RankZero(lists);
    var c := FirstFrom(f, buckets, 0, lists);
    CursorEnd(f, lists, c, ivalue);
    while c.bucket < |buckets|
      invariant BucketsOk(f, buckets, lists) && CursorAt(f, lists, c, ivalue) && ivalue <= |es| && c.bucket <= |buckets|
      invariant ivalue == |es| <==> c.bucket == |buckets|
      invariant Filling(f, es, ivalue, hash, mask, required, filled, lists') && Permuted(es[..ivalue], All(lists'))
      invariant |filled| == |required|
      decreases |es| - ivalue
    {
      ghost var i := CursorEntry(f, buckets, lists, c, ivalue);
      CursorOffset(f, lists, c, ivalue, i);
      CountedLength(f, es, |es|, hash, mask, required, bucketFor, ivalue);
      var b := bucketFor[ivalue];
      var bucket, p := buckets[c.bucket], c.offset.value;
      filled, lists' := RefillOne(f, hash, mask, required, bucketFor, b, KeyAt(bucket, p), IndexAt(f, bucket, p),
          filled, es, ivalue, lists');
      c := Advance(f, buckets, c, lists, ivalue);
      ivalue := ivalue + 1;
      CursorEnd(f, lists, c, ivalue);
    }
    assert es[..|es|] == es;
    FillEnd(f, es, hash, mask, required, bucketFor, filled, lists');
  }

  /** append_iterator_in_reserved_bucket_no_check */
  method RefillOne(f: Format, ghost hash: Key -> nat, ghost mask: nat, ghost required: seq<nat>,
      ghost bucketFor: seq<nat>, b: nat,
                   key: Key, index: nat, buckets: seq<seq<byte>>, ghost es: seq<Entry>, ghost k: nat, ghost lists: seq<seq<Entry>>)
      returns (r: seq<seq<byte>>, ghost lists': seq<seq<Entry>>)
    requires Filling(f, es, k, hash, mask, required, buckets, lists) && k < |es| && Permuted(es[..k], All(lists))
             && EntriesOk(f, es)
    requires Counted(f, es, |es|, hash, mask, required, bucketFor) && b == bucketFor[k] && es[k] == Entry(key, index)
    ensures Filling(f, es, k + 1, hash, mask, required, r, lists') && Permuted(es[..k + 1], All(lists'))
            && |r| == |buckets|
  {
    hide BucketOk, All, Filling, Permuted, Required, Image, EntryOk, Chosen, BucketForHash;
    FillRoom(f, es, k, hash, mask, required, bucketFor, buckets, lists);
    FillLength(f, es, k, hash, mask, required, buckets, lists);
    assert EntryOk(f, es[k]);
    var bucket := AppendReserved(f, buckets[b], key, index, lists[b]);
    r := buckets[b := bucket];
    lists' := lists[b := lists[b] + [es[k]]];
    FillStep(f, es, k, hash, mask, required, buckets, lists, b, bucket);
    AllPush(lists, b, es[k]);
    PermutedMore(es[..k], es[k], All(lists), All(lists'), Rank(lists, b, |lists[b]|));
    assert es[..k + 1] == es[..k] + [es[k]];
  }

  lemma FillStart(f: Format, es: seq<Entry>, hash: Key -> nat, mask: nat, required: seq<nat>, buckets: seq<seq<byte>>,
      lists: seq<seq<Entry>>)
    requires |buckets| == |required| && BucketsOk(f, buckets, lists) && forall b :: 0 <= b < |lists| ==> lists[b] == []
    requires forall b :: 0 <= b < |buckets| ==> |buckets[b]| == if required[b] == 0 then 0 else required[b] + SIZE_BYTES
    ensures Filling(f, es, 0, hash, mask, required, buckets, lists) && Permuted(es[..0], All(lists))
  {
    NothingIn(lists);
    assert es[..0] == [];
  }

  lemma {:induction false} NothingIn(lists: seq<seq<Entry>>)
    requires forall b :: 0 <= b < |lists| ==> lists[b] == []
    ensures All(lists) == []
  {
    if lists != [] {
      NothingIn(lists[..|lists| - 1]);
    }
  }

  lemma FillLength(f: Format, es: seq<Entry>, k: nat, hash: Key -> nat, mask: nat, required: seq<nat>,
      buckets: seq<seq<byte>>, lists: seq<seq<Entry>>)
    requires Filling(f, es, k, hash, mask, required, buckets, lists)
    ensures |lists| == |buckets| == |required|
  {
  }

  lemma FillEnd(f: Format, es: seq<Entry>, hash: Key -> nat, mask: nat, required: seq<nat>, bucketFor: seq<nat>,
      buckets: seq<seq<byte>>, lists: seq<seq<Entry>>)
    requires Filling(f, es, |es|, hash, mask, required, buckets, lists)
    requires Counted(f, es, |es|, hash, mask, required, bucketFor)
    ensures BucketsOk(f, buckets, lists) && ListsChosen(lists, es, hash, mask) && Filled(f, buckets, lists, required)
  {
    assert es[..|es|] == es;
  }

  /** The bytes reserved for each bucket are those that its entries take, and the buffer has room for the marker behind
      them. */
  ghost predicate Filled(f: Format, buckets: seq<seq<byte>>, lists: seq<seq<Entry>>, required: seq<nat>) {
    && |buckets| == |lists| == |required|
    && (forall b :: 0 <= b < |buckets| ==> required[b] == |Image(f, lists[b])|)
    && (forall b :: 0 <= b < |buckets| ==> |buckets[b]| == if lists[b] == [] then 0 else required[b] + SIZE_BYTES)
  }

  lemma CountedLength(f: Format, es: seq<Entry>, k: nat, hash: Key -> nat, mask: nat, required: seq<nat>,
      bucketFor: seq<nat>, j: nat)
    requires Counted(f, es, k, hash, mask, required, bucketFor) && j < k
    ensures |bucketFor| == k && j < |es| && bucketFor[j] == BucketForHash(hash(es[j].key), mask) < |required|
  {
  }

  lemma {:induction false} ChosenHome(es: seq<Entry>, hash: Key -> nat, mask: nat, b: nat, i: nat)
    requires i < |Chosen(es, hash, mask, b)|
    ensures BucketForHash(hash(Chosen(es, hash, mask, b)[i].key), mask) == b
  {
    if i < |Chosen(es[..|es| - 1], hash, mask, b)| {
      ChosenHome(es[..|es| - 1], hash, mask, b, i);
    }
  }

  // ---------- the class ----------

  ghost function JudgeTable(f: Format, hash: Key -> nat, buckets: seq<seq<byte>>, lists: seq<seq<Entry>>, mask: nat,
                            values: seq<nat>, size: nat, m: map<Key, nat>): Verdict {
    if
      && BucketsOk(f, buckets, lists) && MaskOf(|buckets|, mask) && AtHome(hash, lists, mask)
      && Distinct(All(lists)) && Denotes(All(lists), values, m)
      && size == |m| && size <= |values| <= MaxSize(f)
    then Sound else Unsound
  }

  ghost predicate TableOk(f: Format, hash: Key -> nat, buckets: seq<seq<byte>>, lists: seq<seq<Entry>>, mask: nat,
                          values: seq<nat>, size: nat, m: map<Key, nat>) {
    JudgeTable(f, hash, buckets, lists, mask, values, size, m).Sound?
  }

  /** A new table. */
  lemma TableStart(f: Format, hash: Key -> nat, buckets: seq<seq<byte>>, mask: nat)
    requires MaskOf(|buckets|, mask) && forall b :: 0 <= b < |buckets| ==> buckets[b] == []
    ensures TableOk(f, hash, buckets, seq(|buckets|, _ => []), mask, [], 0, map[])
  {
    NothingIn(seq(|buckets|, _ => []));
  }

  /** Clearing the holes. */
  lemma TableCompacted(f: Format, hash: Key -> nat, buckets: seq<seq<byte>>, lists: seq<seq<Entry>>, mask: nat,
      values: seq<nat>, size: nat, m: map<Key, nat>,
                       buckets': seq<seq<byte>>, lists': seq<seq<Entry>>, values': seq<nat>)
    requires TableOk(f, hash, buckets, lists, mask, values, size, m)
    requires BucketsOk(f, buckets', lists') && |buckets'| == |buckets| && SameKeys(lists, lists')
    requires |All(lists')| == |All(lists)| == |values'|
    requires forall k :: 0 <= k < |All(lists)| ==>
               All(lists')[k] == All(lists)[k].(index := k) && values'[k] == values[All(lists)[k].index]
    ensures TableOk(f, hash, buckets', lists', mask, values', size, m) && |values'| == size
  {
    hide All, BucketOk, BucketForHash, Image;
    Compacted(All(lists), All(lists'), values, values', m);
    forall b, i | 0 <= b < |lists'| && 0 <= i < |lists'[b]| ensures BucketForHash(hash(lists'[b][i].key), mask) == b {
      assert lists'[b][i].key == lists[b][i].key;
    }
  }

  /** Another bucket count. */
  lemma TableRehashed(f: Format, hash: Key -> nat, buckets: seq<seq<byte>>, lists: seq<seq<Entry>>, mask: nat,
      values: seq<nat>, size: nat, m: map<Key, nat>,
                      buckets': seq<seq<byte>>, lists': seq<seq<Entry>>, mask': nat)
    requires TableOk(f, hash, buckets, lists, mask, values, size, m) && MaskOf(|buckets'|, mask')
    requires BucketsOk(f, buckets', lists') && ListsChosen(lists', All(lists), hash, mask')
             && Permuted(All(lists), All(lists'))
    ensures TableOk(f, hash, buckets', lists', mask', values, size, m)
  {
    hide All, BucketOk, BucketForHash, Image;
    Reordered(All(lists), All(lists'), values, m);
    forall b, i | 0 <= b < |lists'| && 0 <= i < |lists'[b]| ensures BucketForHash(hash(lists'[b][i].key), mask') == b {
      ChosenHome(All(lists), hash, mask', b, i);
    }
  }

  /** A new entry at the end of its bucket. */
  lemma TableAppended(f: Format, hash: Key -> nat, buckets: seq<seq<byte>>, lists: seq<seq<Entry>>, mask: nat,
      values: seq<nat>, size: nat, m: map<Key, nat>,
                      b: nat, bucket: seq<byte>, key: Key, value: nat)
    requires TableOk(f, hash, buckets, lists, mask, values, size, m) && b == BucketForHash(hash(key), mask) < |buckets|
    requires key !in m && |values| < MaxSize(f) && |lists| == |buckets|
    requires BucketOk(f, bucket, lists[b] + [Entry(key, |values|)])
    ensures TableOk(f, hash, buckets[b := bucket], lists[b := lists[b] + [Entry(key, |values|)]], mask,
        values + [value], size + 1, m[key := value])
  {
    hide All, BucketOk, BucketForHash, Image;
    var e := Entry(key, |values|);
    var lists' := lists[b := lists[b] + [e]];
    AllPush(lists, b, e);
    EntryAdded(All(lists), All(lists'), Rank(lists, b, |lists[b]|), values, value, m);
    assert |m[key := value]| == |m| + 1;
  }

  lemma AllErased(lists: seq<seq<Entry>>, b: nat, i: nat)
    requires b < |lists| && i < |lists[b]|
    ensures Rank(lists, b, i) < |All(lists)| && All(lists)[Rank(lists, b, i)] == lists[b][i]
    ensures All(lists[b := Without(lists[b], i)]) == Without(All(lists), Rank(lists, b, i))
  {
    hide All, Without;
    AllAt(lists, b, i);
    AllAround(lists, b);
    AllUpdate(lists, b, Without(lists[b], i));
    WithoutMiddle(All(lists[..b]), lists[b], All(lists[b + 1..]), i);
  }

  lemma WithoutMiddle(a: seq<Entry>, l: seq<Entry>, c: seq<Entry>, i: nat)
    requires i < |l|
    ensures a + Without(l, i) + c == Without(a + l + c, |a| + i)
  {
    var all := a + l + c;
    assert all[..|a| + i] == a + l[..i];
    assert all[|a| + i + 1..] == l[i + 1..] + c;
  }

  lemma HomeWithout(hash: Key -> nat, lists: seq<seq<Entry>>, mask: nat, b: nat, i: nat)
    requires AtHome(hash, lists, mask) && b < |lists| && i < |lists[b]|
    ensures AtHome(hash, lists[b := Without(lists[b], i)], mask)
  {
    hide BucketForHash;
    var r: seq<seq<Entry>> := lists[b := Without(lists[b], i)];
    forall x, j | 0 <= x < |r| && 0 <= j < |r[x]| ensures BucketForHash(hash(r[x][j].key), mask) == x {
      var j' := if x == b && i <= j then j + 1 else j;
      assert r[x][j] == lists[x][j'];
    }
  }

  /** An entry gone from its bucket; its value stays behind as a hole. */
  lemma TableErased(f: Format, hash: Key -> nat, buckets: seq<seq<byte>>, lists: seq<seq<Entry>>, mask: nat,
      values: seq<nat>, size: nat, m: map<Key, nat>,
                    b: nat, i: nat, bucket: seq<byte>)
    requires TableOk(f, hash, buckets, lists, mask, values, size, m) && |lists| == |buckets| && b < |lists|
             && i < |lists[b]|
    requires BucketOk(f, bucket, Without(lists[b], i))
    ensures size > 0 && lists[b][i].key in m
    ensures TableOk(f, hash, buckets[b := bucket], lists[b := Without(lists[b], i)], mask, values, size - 1,
        m - {lists[b][i].key})
  {
    hide All, BucketOk, AtHome, Without, Rank, HasKey, MaskOf;
    var lists' := lists[b := Without(lists[b], i)];
    var k := Rank(lists, b, i);
    AllErased(lists, b, i);
    HomeWithout(hash, lists, mask, b, i);
    OneMoreRemoved(All(lists), k);
    EntryRemoved(All(lists'), All(lists), k, values, m);
    SizeDrop(m, lists[b][i].key);
  }

  /** A value assigned through an iterator. */
  lemma TableAssigned(f: Format, hash: Key -> nat, buckets: seq<seq<byte>>, lists: seq<seq<Entry>>, mask: nat,
      values: seq<nat>, size: nat, m: map<Key, nat>, k: nat, value: nat)
    requires TableOk(f, hash, buckets, lists, mask, values, size, m) && k < |All(lists)|
    ensures var e := All(lists)[k];
            e.index < |values| && TableOk(f, hash, buckets, lists, mask, values[e.index := value], size,
                m[e.key := value]) && e.key in m
  {
    hide All, BucketOk, BucketForHash;
    ValueAssigned(All(lists), k, values, value, m);
    SizeAssign(m, All(lists)[k].key, value);
  }

  lemma TableFacts(f: Format, hash: Key -> nat, buckets: seq<seq<byte>>, lists: seq<seq<Entry>>, mask: nat,
      values: seq<nat>, size: nat, m: map<Key, nat>)
    requires TableOk(f, hash, buckets, lists, mask, values, size, m)
    ensures BucketsOk(f, buckets, lists) && MaskOf(|buckets|, mask) && size == |m| == |All(lists)|
            && size <= |values| <= MaxSize(f)
    ensures forall k :: 0 <= k < |All(lists)| ==>
              All(lists)[k].index < |values| && All(lists)[k].key in m
              && m[All(lists)[k].key] == values[All(lists)[k].index]
    ensures EntriesOk(f, All(lists)) && Distinct(All(lists))
    ensures forall key :: key in m ==> HasKey(All(lists), key)
  {
    hide All, BucketForHash, Image, EntryOk;
    forall k | 0 <= k < |All(lists)| ensures EntryOk(f, All(lists)[k]) {
      var b, i := AllIndex(lists, k);
      AllAt(lists, b, i);
      assert BucketOk(f, buckets[b], lists[b]);
    }
  }

  class ArrayHash {
    const f: Format
    const hash: Key -> nat
    var buckets: seq<seq<byte>>
    var values: seq<nat>
    var nbElements: nat
    var mask: nat
    ghost var lists: seq<seq<Entry>>
    ghost var contents: map<Key, nat>

    ghost predicate Valid()
      reads this
    {
      TableOk(f, hash, buckets, lists, mask, values, nbElements, contents)
    }

    /** The entries in the order of iteration. */
    ghost function Entries(): seq<Entry>
      reads this
    {
      All(lists)
    }

    ghost predicate At(c: Cursor, k: nat)
      reads this
    {
      CursorAt(f, lists, c, k)
    }

    constructor (f: Format, hash: Key -> nat, bucketCount: nat)
      requires bucketCount <= MAX_BUCKET_COUNT
      ensures Valid() && contents == map[] && this.f == f && this.hash == hash
      ensures bucketCount <= |buckets|
    {
      this.f, this.hash := f, hash;
      var count, m := Policy(bucketCount);
      buckets := seq(count.value, _ => []);
      values, nbElements, mask := [], 0, m;
      lists, contents := seq(count.value, _ => []), map[];
      new;
      TableStart(f, hash, buckets, mask);
    }

    /** The bucket of a key, and the key in it or the end of it. */
    method Search(key: Key) returns (home: nat, found: bool, p: nat, ghost i: nat)
      requires Valid()
      ensures |lists| == |buckets| && home == BucketForHash(hash(key), mask) && (|buckets| > 0 ==> home < |buckets|)
      ensures found <==> key in contents
      ensures found ==> home < |buckets| && i < |lists[home]| && lists[home][i].key == key
      ensures !found && home < |buckets| ==> i == |lists[home]|
      ensures home < |buckets| && buckets[home] != [] ==> i <= |lists[home]| && p == Offset(f, lists[home], i)
      ensures found ==> buckets[home] != []
    {
      hide JudgeTable, All, Offset, BucketForHash;
      TableFacts(f, hash, buckets, lists, mask, values, nbElements, contents);
      home := BucketForHash(hash(key), mask);
      BucketInside(hash(key), |buckets|, mask);
      found, p, i := false, 0, 0;
      if |buckets| > 0 && buckets[home] != [] {
        found, p, i := FindOrEnd(f, buckets[home], key, lists[home]);
      }
      SearchTells(key, home, found, i);
    }

    lemma SearchTells(key: Key, home: nat, found: bool, i: nat)
      requires Valid() && |lists| == |buckets| && home == BucketForHash(hash(key), mask)
      requires found ==> home < |lists| && i < |lists[home]| && lists[home][i].key == key
      requires !found && home < |lists| ==> forall j :: 0 <= j < |lists[home]| ==> lists[home][j].key != key
      ensures found <==> key in contents
    {
      hide All, BucketOk, BucketForHash;
      if found {
        AllAt(lists, home, i);
      } else {
        HomeTells(hash, lists, mask, values, contents, key, home);
      }
    }

    /** find */
    method Find(key: Key) returns (r: Option<nat>)
      requires Valid()
      ensures r == if key in contents then Some(contents[key]) else None
    {
      hide JudgeTable, All, Offset, BucketForHash, ReadKeySize;
      var home, found, p;
      ghost var i;
      home, found, p, i := Search(key);
      if !found {
        return None;
      }
      TableFacts(f, hash, buckets, lists, mask, values, nbElements, contents);
      AllAt(lists, home, i);
      EntryRead(f, buckets[home], lists[home], i);
      r := Some(values[IndexAt(f, buckets[home], p)]);
    }

    /** An iterator and its place tell each other. */
    lemma CursorTells(c: Cursor, k: nat, c': Cursor, k': nat)
      requires At(c, k) && At(c', k')
      ensures c == c' <==> k == k'
    {
      CursorUnique(f, lists, c, k, c', k');
    }

    /** find, as an iterator. */
    method FindAt(key: Key) returns (c: Cursor, ghost k: nat)
      requires Valid()
      ensures At(c, k) && k <= |Entries()| && (AtEnd(c) <==> k == |Entries()|)
      ensures k < |Entries()| <==> key in contents
      ensures k < |Entries()| ==> Entries()[k].key == key
    {
      hide JudgeTable, All, Offset, BucketForHash;
      var home, found, p;
      ghost var i;
      home, found, p, i := Search(key);
      BucketsHold();
      if !found {
        c, k := Cursor(|buckets|, None), |Entries()|;
        return;
      }
      AllAt(lists, home, i);
      c, k := Cursor(home, Some(p)), Rank(lists, home, i);
      assert Stands(f, lists, c, k, i);
    }

    /** clear_old_erased_values */
    method ClearOldErasedValues()
      requires Valid()
      modifies this
      ensures Valid() && contents == old(contents) && |values| == nbElements == old(nbElements)
      ensures mask == old(mask) && |buckets| == old(|buckets|) && SameKeys(old(lists), lists)
      ensures forall b :: 0 <= b < |buckets| ==> |buckets[b]| == |old(buckets)[b]|
    {
      hide JudgeTable, All, BucketsOk, Distinct;
      TableFacts(f, hash, buckets, lists, mask, values, nbElements, contents);
      if nbElements == |values| {
        return;
      }
      var newValues := Gather(f, buckets, values, lists);
      ghost var lists';
      var newBuckets;
      newBuckets, lists' := Renumber(f, buckets, lists);
      TableCompacted(f, hash, buckets, lists, mask, values, nbElements, contents, newBuckets, lists', newValues);
      buckets, lists, values := newBuckets, lists', newValues;
    }

    /** rehash_impl; false when the policy has no such bucket count. */
    method RehashImpl(bucketCount: nat, clear: bool) returns (ok: bool)
      requires Valid() && bucketCount > 0
      modifies this
      ensures Valid() && contents == old(contents) && nbElements == old(nbElements)
      ensures ok <==> bucketCount <= MAX_BUCKET_COUNT
      ensures ok ==> bucketCount <= |buckets| && forall k: nat :: bucketCount <= Pow2(k) ==> |buckets| <= Pow2(k)
    {
      hide JudgeTable, All, BucketsOk, Distinct, MaskOf, Counted, ListsChosen, Permuted, SameKeys;
      var count, newMask := Policy(bucketCount);
      if count.None? {
        return false;
      }
      if count.value == |buckets| {
        return true;
      }
      if clear {
        ClearOldErasedValues();
      }
      TableFacts(f, hash, buckets, lists, mask, values, nbElements, contents);
      var required, bucketFor := CountBytes(f, hash, buckets, count.value, newMask, lists);
      ghost var lists';
      var newBuckets;
      newBuckets, lists' := Refill(f, hash, buckets, newMask, required, bucketFor, lists);
      TableRehashed(f, hash, buckets, lists, mask, values, nbElements, contents, newBuckets, lists', newMask);
      buckets, lists, mask := newBuckets, lists', newMask;
      return true;
    }

    /** emplace_impl: the value first, then the entry that points to it; a key that is too long takes its value back. */
    method EmplaceImpl(home: nat, end: nat, key: Key, value: nat) returns (r: Emplaced)
      requires Valid() && key !in contents && home == BucketForHash(hash(key), mask) < |buckets| == |lists|
      requires buckets[home] != [] ==> end == Offset(f, lists[home], |lists[home]|)
      modifies this
      ensures Valid() && contents == if r.Inserted? then old(contents)[key := value] else old(contents)
      ensures r == if old(nbElements) >= MaxSize(f) then TooFull else if |key| > MaxKeySize(f) then TooLong else Inserted
      ensures nbElements == old(nbElements) + (if r.Inserted? then 1 else 0) && |buckets| == old(|buckets|)
    {
      hide JudgeTable, All, BucketsOk, Distinct, MaskOf, Offset, BucketForHash, Pow2, BucketOk, EntriesOk, Denotes;
      TableFacts(f, hash, buckets, lists, mask, values, nbElements, contents);
      ghost var before := lists[home];
      if |values| >= MaxSize(f) {
        ClearOldErasedValues();
        SameKeysEnd(f, before, lists[home]);
        if |values| >= MaxSize(f) {
          return TooFull;
        }
      }
      r := AppendEntry(home, end, key, value);
    }

    /** The end of emplace_impl. */
    method AppendEntry(home: nat, end: nat, key: Key, value: nat) returns (r: Emplaced)
      requires Valid() && key !in contents && home == BucketForHash(hash(key), mask) < |buckets| == |lists|
               && |values| < MaxSize(f)
      requires buckets[home] != [] ==> end == Offset(f, lists[home], |lists[home]|)
      modifies this
      ensures Valid() && contents == if r.Inserted? then old(contents)[key := value] else old(contents)
      ensures r == if |key| > MaxKeySize(f) then TooLong else Inserted
      ensures nbElements == old(nbElements) + (if r.Inserted? then 1 else 0) && |buckets| == old(|buckets|)
    {
      hide JudgeTable, All, BucketsOk, Distinct, MaskOf, Offset, BucketForHash, Pow2, BucketOk, EntriesOk, Denotes;
      BucketBound(home);
      AppendTable(home, key, value);
      values := values + [value];
      var bucket, _ := Append(f, buckets[home], end, key, |values| - 1, lists[home]);
      if bucket.None? {
        values := values[..|values| - 1];
        return TooLong;
      }
      ghost var e := Entry(key, |values| - 1);
      buckets := buckets[home := bucket.value];
      lists := lists[home := lists[home] + [e]];
      contents := contents[key := value];
      nbElements := nbElements + 1;
      return Inserted;
    }

    lemma BucketBound(home: nat)
      requires Valid() && home < |buckets|
      ensures |lists| == |buckets| && BucketOk(f, buckets[home], lists[home]) && nbElements <= |values| <= MaxSize(f)
    {
    }

    lemma AppendTable(home: nat, key: Key, value: nat)
      requires Valid() && key !in contents && home == BucketForHash(hash(key), mask) < |buckets| == |lists|
               && |values| < MaxSize(f)
      ensures forall bucket :: BucketOk(f, bucket, lists[home] + [Entry(key, |values|)]) ==>
                TableOk(f, hash, buckets[home := bucket], lists[home := lists[home] + [Entry(key, |values|)]], mask,
                    values + [value], nbElements + 1, contents[key := value])
    {
      hide TableOk, BucketOk;
      forall bucket | BucketOk(f, bucket, lists[home] + [Entry(key, |values|)])
        ensures TableOk(f, hash, buckets[home := bucket], lists[home := lists[home] + [Entry(key, |values|)]], mask,
            values + [value], nbElements + 1, contents[key := value])
      {
        TableAppended(f, hash, buckets, lists, mask, values, nbElements, contents, home, bucket, key, value);
      }
    }

    /** emplace: a key that is there stays as it is. Whether the load is high is up to the caller, but a table without
        buckets always grows. */
    method Emplace(key: Key, value: nat, highLoad: bool, clear: bool) returns (r: Emplaced)
      requires Valid() && f.growth > 0
      modifies this
      ensures Valid() && contents == if r.Inserted? then old(contents)[key := value] else old(contents)
      ensures key in old(contents) ==> r == Present
      ensures key !in old(contents) && r != TooManyBuckets ==>
                r == if old(nbElements) >= MaxSize(f) then TooFull else if |key| > MaxKeySize(f) then TooLong else Inserted
      ensures r.TooManyBuckets? <==> key !in old(contents) && (highLoad || old(|buckets|) == 0)
                                     && old(mask) + 1 > MAX_BUCKET_COUNT / f.growth
      ensures r.Present? || r.TooManyBuckets? || !(highLoad || old(|buckets|) == 0) ==> |buckets| == old(|buckets|)
      ensures !r.Present? && !r.TooManyBuckets? && (highLoad || old(|buckets|) == 0) ==>
                (old(mask) + 1) * f.growth <= |buckets|
      ensures nbElements == old(nbElements) + if r.Inserted? then 1 else 0
    {
      hide JudgeTable, All, Offset, BucketForHash, Pow2, NextBucketCount, MaxSize, MaxKeySize;
      NextInside(mask, f.growth);
      var home, found, p;
      ghost var i;
      home, found, p, i := Search(key);
      if found {
        return Present;
      }
      if highLoad || |buckets| == 0 {
        var next := NextBucketCount(mask, f.growth);
        if next.None? {
          return TooManyBuckets;
        }
        var ok := RehashImpl(next.value, clear);
        home, found, p, i := Search(key);
      }
      r := EmplaceImpl(home, p, key, value);
    }

    /** An assignment through the iterator of a key that is there. */
    method Assign(key: Key, value: nat) returns (found: bool)
      requires Valid()
      modifies this
      ensures Valid() && contents == if found then old(contents)[key := value] else old(contents)
      ensures found <==> key in old(contents)
      ensures !found ==> unchanged(this)
    {
      hide JudgeTable, All, Offset, BucketForHash, ReadKeySize;
      var home, p;
      ghost var i;
      home, found, p, i := Search(key);
      if !found {
        return;
      }
      TableFacts(f, hash, buckets, lists, mask, values, nbElements, contents);
      AllAt(lists, home, i);
      EntryRead(f, buckets[home], lists[home], i);
      TableAssigned(f, hash, buckets, lists, mask, values, nbElements, contents, Rank(lists, home, i), value);
      values := values[IndexAt(f, buckets[home], p) := value];
      contents := contents[key := value];
    }

    /** erase of a key. */
    method EraseKey(key: Key, clear: bool) returns (erased: bool)
      requires Valid()
      modifies this
      ensures Valid() && contents == old(contents) - {key}
      ensures erased <==> key in old(contents)
      ensures |values| == if clear then old(nbElements) else old(|values|)
    {
      hide JudgeTable, All, Offset, BucketForHash, ReadKeySize, Without, SameKeys;
      if clear {
        ClearOldErasedValues();
      }
      var home, p;
      ghost var i;
      home, erased, p, i := Search(key);
      if !erased {
        assert contents - {key} == contents;
        return;
      }
      BucketBound(home);
      var bucket, next := ArrayBucket.EraseAt(f, buckets[home], p, lists[home], i);
      TableErased(f, hash, buckets, lists, mask, values, nbElements, contents, home, i, bucket);
      buckets := buckets[home := bucket];
      lists := lists[home := Without(lists[home], i)];
      contents := contents - {key};
      nbElements := nbElements - 1;
    }

    /** erase_from_bucket: the value stays behind. */
    method EraseFromBucket(c: Cursor, ghost k: nat) returns (next: Cursor)
      requires Valid() && At(c, k) && k < |Entries()|
      modifies this
      ensures Valid() && contents == old(contents) - {old(Entries()[k].key)}
      ensures At(next, k) && Entries() == Without(old(Entries()), k) && values == old(values)
    {
      hide JudgeTable, All, Offset, BucketForHash, ReadKeySize, Without, Rank;
      ghost var was := lists;
      CursorInside(c, k);
      ghost var i := CursorEntry(f, buckets, lists, c, k);
      BucketBound(c.bucket);
      var bucket, rest := ArrayBucket.EraseAt(f, buckets[c.bucket], c.offset.value, lists[c.bucket], i);
      TableErased(f, hash, buckets, lists, mask, values, nbElements, contents, c.bucket, i, bucket);
      AllErased(lists, c.bucket, i);
      contents := contents - {lists[c.bucket][i].key};
      buckets := buckets[c.bucket := bucket];
      lists := lists[c.bucket := Without(lists[c.bucket], i)];
      nbElements := nbElements - 1;
      RanksKept(was, lists, c.bucket, i, k);
      BucketsHold();
      if rest.Some? {
        next := Cursor(c.bucket, rest);
        assert Stands(f, lists, next, k, i);
      } else {
        next := FirstFrom(f, buckets, c.bucket + 1, lists);
      }
    }

    /** erase through an iterator; the result is the iterator of the entry that follows. */
    method EraseAt(c: Cursor, clear: bool, ghost k: nat) returns (next: Cursor)
      requires Valid() && At(c, k) && k < |Entries()|
      modifies this
      ensures Valid() && contents == old(contents) - {old(Entries()[k].key)}
      ensures At(next, k) && |Entries()| == old(|Entries()|) - 1
      ensures |values| == if clear then old(nbElements) else old(|values|)
      ensures forall j :: 0 <= j < |Entries()| ==> Entries()[j].key == old(Entries())[if j < k then j else j + 1].key
    {
      hide JudgeTable, All, Without, SameKeys, CursorAt;
      if clear {
        ghost var before := lists;
        ClearOldErasedValues();
        SameKeysCursor(f, before, lists, c, k);
        SameKeysAll(before, lists);
      }
      WithoutKeys(Entries(), k);
      next := EraseFromBucket(c, k);
    }

    lemma CursorInside(c: Cursor, k: nat)
      requires Valid() && At(c, k) && k < |Entries()|
      ensures BucketsOk(f, buckets, lists) && c.bucket < |buckets|
    {
      CursorEnd(f, lists, c, k);
    }

    lemma BucketsHold()
      requires Valid()
      ensures BucketsOk(f, buckets, lists)
    {
    }

    lemma MaskHolds()
      requires Valid()
      ensures MaskOf(|buckets|, mask)
    {
    }

    /** begin */
    method Begin() returns (c: Cursor)
      requires Valid()
      ensures At(c, 0)
    {
      hide JudgeTable, All;
      BucketsHold();
      RankZero(lists);
      c := FirstFrom(f, buckets, 0, lists);
    }

    predicate AtEnd(c: Cursor)
      reads this
    {
      c.bucket == |buckets|
    }

    lemma EndTells(c: Cursor, k: nat)
      requires Valid() && At(c, k)
      ensures k <= |Entries()| && (AtEnd(c) <==> k == |Entries()|)
    {
      CursorEnd(f, lists, c, k);
    }

    /** operator++ */
    method Step(c: Cursor, ghost k: nat) returns (next: Cursor)
      requires Valid() && At(c, k) && k < |Entries()|
      ensures At(next, k + 1)
    {
      hide JudgeTable, All;
      CursorInside(c, k);
      next := Advance(f, buckets, c, lists, k);
    }

    /** key and value of the entry under an iterator. */
    method Read(c: Cursor, ghost k: nat) returns (key: Key, value: nat)
      requires Valid() && At(c, k) && k < |Entries()|
      ensures key == Entries()[k].key && key in contents && value == contents[key]
    {
      hide JudgeTable, All, ReadKeySize;
      CursorInside(c, k);
      TableFacts(f, hash, buckets, lists, mask, values, nbElements, contents);
      ghost var i := CursorEntry(f, buckets, lists, c, k);
      var bucket, p := buckets[c.bucket], c.offset.value;
      key, value := KeyAt(bucket, p), values[IndexAt(f, bucket, p)];
    }

    /** Iteration meets every key once. */
    lemma EntriesCover()
      requires Valid()
      ensures |Entries()| == |contents| == nbElements && Distinct(Entries())
      ensures forall key :: key in contents <==> HasKey(Entries(), key)
    {
      TableFacts(f, hash, buckets, lists, mask, values, nbElements, contents);
    }

    /** A bucket holds a key of the map if and only if the hash of the key leaves its number as remainder. */
    lemma KeyAtHome(key: Key, b: nat)
      requires Valid() && b < |lists|
      ensures |lists| == |buckets| && BucketOk(f, buckets[b], lists[b])
      ensures HasKey(lists[b], key) <==> key in contents && b == hash(key) % |buckets|
    {
      hide All, BucketForHash, Distinct;
      TableFacts(f, hash, buckets, lists, mask, values, nbElements, contents);
      BucketIsRemainder(hash(key), |buckets|, mask);
      if HasKey(lists[b], key) {
        var i: nat :| i < |lists[b]| && lists[b][i].key == key;
        AllAt(lists, b, i);
      } else if b == BucketForHash(hash(key), mask) {
        HomeTells(hash, lists, mask, values, contents, key, b);
      }
    }

    /** No stored key is too long, and a table of some size has a small mask. */
    lemma Bounds(key: Key)
      requires Valid()
      ensures nbElements == |contents| == |Entries()| <= MaxSize(f)
      ensures key in contents ==> |key| <= MaxKeySize(f)
      ensures mask <= |buckets|
    {
      hide All, BucketForHash;
      TableFacts(f, hash, buckets, lists, mask, values, nbElements, contents);
      if key in contents {
        var i :| 0 <= i < |Entries()| && Entries()[i].key == key;
        assert EntryOk(f, Entries()[i]);
      }
    }

    method Clear()
      requires Valid()
      modifies this
      ensures Valid() && contents == map[] && |buckets| == old(|buckets|)
    {
      hide JudgeTable, All, MaskOf;
      MaskHolds();
      TableStart(f, hash, seq(|buckets|, _ => []), mask);
      values := [];
      buckets := seq(|buckets|, _ => []);
      nbElements := 0;
      lists, contents := seq(|buckets|, _ => []), map[];
    }
  }

  /** The ranks of the entries from an erased one on. */
  lemma RanksKept(was: seq<seq<Entry>>, lists: seq<seq<Entry>>, b: nat, i: nat, k: nat)
    requires b < |was| && i < |was[b]| && lists == was[b := Without(was[b], i)] && k == Rank(was, b, i)
    ensures Rank(lists, b, i) == k
    ensures i + 1 == |was[b]| ==> Rank(lists, b + 1, 0) == k
  {
    hide All;
    assert lists[..b] == was[..b];
    AllAround(lists, b);
  }

  lemma WithoutKeys(es: seq<Entry>, k: nat)
    requires k < |es|
    ensures forall j :: 0 <= j < |Without(es, k)| ==> Without(es, k)[j].key == es[if j < k then j else j + 1].key
  {
  }

  lemma SameKeysEnd(f: Format, a: seq<Entry>, b: seq<Entry>)
    requires |a| == |b| && forall i :: 0 <= i < |a| ==> a[i].key == b[i].key
    ensures Offset(f, a, |a|) == Offset(f, b, |b|)
  {
    assert a[..|a|] == a && b[..|b|] == b;
    SameKeysImage(f, a, b);
  }
}
