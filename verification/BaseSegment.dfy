/** The compacted part of a dictionary: rebuilt at once, searched through a map or through a trie. */
module BaseSegment {
  import opened Maps
  import opened Options
  import opened Bits
  import opened Keys
  import opened Segments
  import opened Insertion
  import opened Remaining
  import opened Serialization
  import opened Snapshot
  import opened Strays
  import DS = DeltaSegment
  import Layout
  import T = Trie
  import TB = TrieBuilder
  import BV = BitVector
  import P = Predictive

  // ---------- items ----------

  /** The strings of a list of items by id. */
  ghost function ItemMap(items: seq<Item>): map<nat, Key> {
    if items == [] then map[] else ItemMap(items[..|items| - 1])[items[|items| - 1].id := items[|items| - 1].value]
  }

  lemma {:induction false} ItemMapAt(items: seq<Item>, i: nat)
    requires DistinctItems(items) && i < |items|
    ensures items[i].id in ItemMap(items) && ItemMap(items)[items[i].id] == items[i].value
  {
    if i < |items| - 1 {
      ItemMapAt(items[..|items| - 1], i);
    }
  }

  lemma {:induction false} ItemMapHas(items: seq<Item>, id: nat) returns (i: nat)
    requires id in ItemMap(items)
    ensures i < |items| && items[i].id == id
  {
    i := |items| - 1;
    if items[i].id != id {
      i := ItemMapHas(items[..|items| - 1], id);
    }
  }

  lemma ItemMapNext(items: seq<Item>, i: nat)
    requires i < |items|
    ensures ItemMap(items[..i + 1]) == ItemMap(items[..i])[items[i].id := items[i].value]
  {
    assert items[..i + 1][..i] == items[..i];
  }

  lemma ItemMapOrder(a: seq<Item>, b: seq<Item>)
    requires DistinctItems(a) && DistinctItems(b) && forall x :: x in a <==> x in b
    ensures ItemMap(a) == ItemMap(b)
  {
    forall id: nat | id in ItemMap(a) ensures id in ItemMap(b) && ItemMap(b)[id] == ItemMap(a)[id] {
      SameEntry(a, b, id);
    }
    forall id: nat | id in ItemMap(b) ensures id in ItemMap(a) {
      SameEntry(b, a, id);
    }
  }

  lemma SameEntry(a: seq<Item>, b: seq<Item>, id: nat)
    requires DistinctItems(a) && DistinctItems(b) && (forall x :: x in a <==> x in b) && id in ItemMap(a)
    ensures id in ItemMap(b) && ItemMap(b)[id] == ItemMap(a)[id]
  {
    var i := ItemMapHas(a, id);
    ItemMapAt(a, i);
    assert a[i] in b;
    var j :| 0 <= j < |b| && b[j] == a[i];
    ItemMapAt(b, j);
  }

  lemma {:induction false} ItemMapSize(items: seq<Item>)
    requires DistinctItems(items)
    ensures |ItemMap(items)| == |items|
  {
    if items != [] {
      var init := items[..|items| - 1];
      ItemMapSize(init);
      if items[|items| - 1].id in ItemMap(init) {
        var i := ItemMapHas(init, items[|items| - 1].id);
      }
      SizeEnter(ItemMap(init), items[|items| - 1].id, items[|items| - 1].value);
    }
  }

  /** The arena space of a list of items. */
  function ItemBytes(items: seq<Item>): nat {
    if items == [] then 0 else ItemBytes(items[..|items| - 1]) + |items[|items| - 1].value| + 1
  }

  lemma {:induction false} ItemBytesInserted(r: seq<Item>, p: nat, x: Item)
    requires p <= |r|
    ensures ItemBytes(Inserted(r, p, x)) == ItemBytes(r) + |x.value| + 1
  {
    var d := Inserted(r, p, x);
    if p == |r| {
      assert d[..|r|] == r;
    } else {
      ItemBytesInserted(r[..|r| - 1], p, x);
      assert d[..|r|] == Inserted(r[..|r| - 1], p, x);
    }
  }

  lemma InsertKeepsDistinct(items: seq<Item>, i: nat, r: seq<Item>, p: nat)
    requires DistinctItems(items) && i < |items| && DistinctItems(r) && p <= |r|
    requires forall x :: x in r <==> x in items[..i]
    ensures DistinctItems(Inserted(r, p, items[i]))
  {
    forall a | 0 <= a < |r| ensures r[a].id != items[i].id && r[a].value != items[i].value {
      assert r[a] in items[..i];
    }
  }

  /** Where an id goes in a list that rises by id. */
  method IdPosition(r: seq<Item>, id: nat) returns (p: nat)
    ensures p <= |r|
    ensures (forall a :: 0 <= a < p ==> r[a].id < id) && (p < |r| ==> id <= r[p].id)
  {
    p := 0;
    while p < |r| && r[p].id < id
      invariant p <= |r| && forall a :: 0 <= a < p ==> r[a].id < id
    {
      p := p + 1;
    }
  }

  ghost predicate ById(items: seq<Item>) {
    forall a, b :: 0 <= a < b < |items| ==> items[a].id < items[b].id
  }

  lemma InsertKeepsById(r: seq<Item>, p: nat, x: Item)
    requires ById(r) && p <= |r| && forall a :: 0 <= a < p ==> r[a].id < x.id
    requires p < |r| ==> x.id < r[p].id
    ensures ById(Inserted(r, p, x))
  {
  }

  /** The items in ascending order of ids. */
  method SortById(items: seq<Item>) returns (r: seq<Item>)
    requires DistinctItems(items)
    ensures ById(r) && DistinctItems(r) && |r| == |items| && ItemBytes(r) == ItemBytes(items) && forall x :: x in r <==>
              x in items
  {
    r := [];
    var i := 0;
    while i < |items|
      invariant i <= |items| && |r| == i && ById(r) && DistinctItems(r) && ItemBytes(r) == ItemBytes(items[..i])
      invariant forall x :: x in r <==> x in items[..i]
    {
      var p := IdPosition(r, items[i].id);
      SortStep(items, i, r, p);
      r := Inserted(r, p, items[i]);
      i := i + 1;
    }
    assert items[..i] == items;
  }

  lemma SortStep(items: seq<Item>, i: nat, r: seq<Item>, p: nat)
    requires DistinctItems(items) && i < |items| && |r| == i && ById(r) && DistinctItems(r)
             && ItemBytes(r) == ItemBytes(items[..i])
    requires forall x :: x in r <==> x in items[..i]
    requires p <= |r| && (forall a :: 0 <= a < p ==> r[a].id < items[i].id) && (p < |r| ==> items[i].id <= r[p].id)
    ensures var d := Inserted(r, p, items[i]);
            ById(d) && DistinctItems(d) && ItemBytes(d) == ItemBytes(items[..i + 1]) && forall x :: x in d <==>
              x in items[..i + 1]
  {
    hide ItemBytes;
    InsertKeepsDistinct(items, i, r, p);
    if p < |r| { assert r[p] in items[..i]; }
    InsertKeepsById(r, p, items[i]);
    ItemBytesInserted(r, p, items[i]);
    InsertedMembers(r, p, items[i]);
    ItemBytesNext(items, i);
    assert items[..i + 1] == items[..i] + [items[i]];
  }

  // ---------- sorted keys ----------

  lemma {:induction false} WorkInserted(keys: seq<Key>, p: nat, key: Key)
    requires p <= |keys|
    ensures Work(Inserted(keys, p, key), 0, |keys| + 1, 0) == Work(keys, 0, |keys|, 0) + |key| + 1
  {
    var d := Inserted(keys, p, key);
    if p == |keys| {
      WorkPrefix(d, keys, |keys|);
    } else {
      var init := keys[..|keys| - 1];
      WorkInserted(init, p, key);
      WorkPrefix(d, Inserted(init, p, key), |keys|);
      WorkPrefix(keys, init, |init|);
    }
  }

  lemma {:induction false} WorkPrefix(a: seq<Key>, b: seq<Key>, n: nat)
    requires n <= |a| && n <= |b| && a[..n] == b[..n]
    ensures Work(a, 0, n, 0) == Work(b, 0, n, 0)
  {
    if n > 0 {
      assert a[..n - 1] == a[..n][..n - 1] == b[..n - 1];
      assert a[n - 1] == a[..n][n - 1] == b[n - 1];
      WorkPrefix(a, b, n - 1);
    }
  }

  /** Of two different keys one is below the other. */
  lemma {:induction false} LessTotal(a: Key, b: Key)
    ensures Less(a, b) || a == b || Less(b, a)
  {
    if a != [] && b != [] && a[0] == b[0] {
      LessTotal(a[1..], b[1..]);
      assert a == [a[0]] + a[1..] && b == [b[0]] + b[1..];
    }
  }

  method KeyPosition(keys: seq<Key>, key: Key) returns (p: nat)
    requires StrictlySorted(keys)
    ensures p <= |keys| && (p > 0 ==> Less(keys[p - 1], key)) && (p < |keys| ==> keys[p] == key || Less(key, keys[p]))
  {
    p := 0;
    while p < |keys| && Less(keys[p], key)
      invariant p <= |keys| && (p > 0 ==> Less(keys[p - 1], key))
    {
      p := p + 1;
    }
    if p < |keys| {
      LessTotal(key, keys[p]);
    }
  }

  lemma InsertKeepsSorted(keys: seq<Key>, p: nat, key: Key)
    requires StrictlySorted(keys) && p <= |keys| && (p > 0 ==> Less(keys[p - 1], key))
             && (p < |keys| ==> Less(key, keys[p]))
    ensures StrictlySorted(Inserted(keys, p, key))
  {
    var d := Inserted(keys, p, key);
    forall i: nat | 0 < i < |d| ensures Step(d, i) {
      if i < p {
        assert Step(keys, i);
      } else if p + 1 < i {
        assert Step(keys, i - 1);
      }
    }
  }

  /** The keys are the strings of the items. */
  ghost predicate SameStrings(keys: seq<Key>, items: seq<Item>) {
    forall key :: key in keys <==> key in ValuesOf(items)
  }

  lemma NoKeys(keys: seq<Key>, items: seq<Item>)
    requires SameStrings(keys, items)
    ensures keys == [] <==> items == []
  {
    if keys != [] { assert keys[0] in ValuesOf(items); }
    if items != [] { assert items[|items| - 1].value in ValuesOf(items); }
  }

  lemma KeyEnters(items: seq<Item>, i: nat, keys: seq<Key>, p: nat)
    requires i < |items| && StrictlySorted(keys) && SameStrings(keys, items[..i]) && p <= |keys|
    requires (p > 0 ==> Less(keys[p - 1], items[i].value)) && (p < |keys| ==> Less(items[i].value, keys[p]))
    ensures var d := Inserted(keys, p, items[i].value);
            StrictlySorted(d) && SameStrings(d, items[..i + 1])
            && Work(d, 0, |d|, 0) == Work(keys, 0, |keys|, 0) + |items[i].value| + 1
  {
    hide Work, ValuesOf, Less;
    InsertKeepsSorted(keys, p, items[i].value);
    WorkInserted(keys, p, items[i].value);
    InsertedMembers(keys, p, items[i].value);
    SeenNext(items[..i], items[i]);
    assert items[..i + 1] == items[..i] + [items[i]];
  }

  lemma KeyKnown(items: seq<Item>, i: nat, keys: seq<Key>)
    requires i < |items| && SameStrings(keys, items[..i]) && items[i].value in keys
    ensures SameStrings(keys, items[..i + 1])
  {
    SeenNext(items[..i], items[i]);
    assert items[..i + 1] == items[..i] + [items[i]];
  }

  lemma ItemBytesNext(items: seq<Item>, i: nat)
    requires i < |items|
    ensures ItemBytes(items[..i + 1]) == ItemBytes(items[..i]) + |items[i].value| + 1
  {
    assert items[..i + 1][..i] == items[..i];
  }

  /** The strings of the items in ascending order, each once. */
  method SortedKeys(items: seq<Item>) returns (keys: seq<Key>)
    ensures StrictlySorted(keys) && SameStrings(keys, items)
    ensures |keys| <= |items| && Work(keys, 0, |keys|, 0) <= ItemBytes(items)
  {
    keys := [];
    var i := 0;
    while i < |items|
      invariant i <= |items| && StrictlySorted(keys) && SameStrings(keys, items[..i])
      invariant |keys| <= i && Work(keys, 0, |keys|, 0) <= ItemBytes(items[..i])
    {
      var p := KeyPosition(keys, items[i].value);
      ItemBytesNext(items, i);
      if p == |keys| || keys[p] != items[i].value {
        KeyEnters(items, i, keys, p);
        keys := Inserted(keys, p, items[i].value);
      } else {
        KeyKnown(items, i, keys);
      }
      i := i + 1;
    }
    assert items[..i] == items;
  }

  // ---------- the index ----------

  /** The trie holds the strings; local numbers lead to ids. */
  ghost predicate TrieIndexOk(strings: map<nat, Key>, t: T.Trie, keys: seq<Key>, ids: seq<nat>, local: seq<nat>) {
    && T.Represents(t, keys, ids) && StrictlySorted(keys) && |local| == |keys| == |ids| && Layout.Numbering(ids)
    && (forall i :: 0 <= i < |ids| ==> local[ids[i]] in strings && strings[local[ids[i]]] == keys[i])
    && (forall id :: id in strings ==> strings[id] in keys)
    && (T.BinMode(t) <==> !NulFree(keys)) && T.FirstFitted(t, keys, 8, ids)
  }

  /** The id behind a local number. */
  ghost function Global(local: seq<nat>, r: T.Answer): T.Answer {
    if !r.Id? then r else if r.id < |local| then T.Id(local[r.id]) else T.Absent
  }

  /** What the trie answers on a query on which it strays; Absent where it does not. */
  ghost function StrayOn(t: T.Trie, keys: seq<Key>, ids: seq<nat>, local: seq<nat>, value: Key): T.Answer
    requires |ids| == |keys|
  {
    if T.BinMode(t) then Global(local, T.Stray(keys, ids, value)) else T.Absent
  }

  /** The id of the string, or none where it is not held. */
  ghost predicate Exact(strings: map<nat, Key>, value: Key, r: T.Answer) {
    match r
    case Id(id) => id in strings && strings[id] == value
    case Absent => !DS.HasString(strings, value)
    case OutOfBounds => false
  }

  /** The exact answer, or the stray one where there is one. */
  ghost predicate AnswerOk(strings: map<nat, Key>, stray: T.Answer, value: Key, r: T.Answer) {
    if stray == T.Absent then Exact(strings, value, r) else r == stray
  }

  /** A string that is not held but passes for one that it extends, or for none in particular. */
  ghost predicate StrayOk(strings: map<nat, Key>, stray: T.Answer, value: Key) {
    stray != T.Absent ==>
      && !DS.HasString(strings, value) && !NulFreeKey(value)
      && (stray.Id? ==> stray.id in strings && strings[stray.id] < value)
  }

  /** Where there is a stray answer, the answer is wrong, and only there. */
  lemma ExactUnlessStray(strings: map<nat, Key>, stray: T.Answer, value: Key, r: T.Answer)
    requires StrayOk(strings, stray, value) && AnswerOk(strings, stray, value, r)
    ensures Exact(strings, value, r) <==> stray == T.Absent
  {
  }

  lemma TrieFinds(strings: map<nat, Key>, t: T.Trie, keys: seq<Key>, ids: seq<nat>, local: seq<nat>, value: Key,
      r: T.Answer)
    requires TrieIndexOk(strings, t, keys, ids, local) && T.AnswerOk(keys, ids, T.BinMode(t), value, r)
    ensures r.Id? ==> r.id < |local|
    ensures AnswerOk(strings, StrayOn(t, keys, ids, local, value), value, if r.Id? then T.Id(local[r.id]) else r)
  {
    hide T.Represents, T.FirstFitted, T.AnswerOk, T.Phantom, T.Overread, StrictlySorted;
    T.LookupIs(keys, ids, T.BinMode(t), value, r);
    StrayInside(keys, ids, value);
    if i: nat :| i < |keys| && keys[i] == value {
      T.RightAt(keys, ids, i);
    }
  }

  lemma StrayInside(keys: seq<Key>, ids: seq<nat>, value: Key)
    requires Layout.Numbering(ids) && |ids| == |keys|
    ensures T.Stray(keys, ids, value).Id? ==> T.Stray(keys, ids, value).id < |ids|
  {
    if i: nat :| T.Phantom(keys, i, value) && T.Stray(keys, ids, value) == T.Id(ids[i]) {
    }
  }

  /** A stray query is not stored, and holds a null byte. */
  lemma StrayNotStored(profile: nat, strings: map<nat, Key>, keys: seq<Key>, value: Key)
    requires Listed(strings, keys)
    ensures StrayOk(strings, Strayed(profile, strings, value), value)
  {
    hide T.Overread, Listed, NulFree, NulFreeKey;
    KeysAre(strings, keys);
    if i: nat :| T.Phantom(keys, i, value) {
      assert T.Taken(keys, i, value);
    }
    forall i: nat | T.Taken(keys, i, value) ensures !DS.HasString(strings, value) && !NulFreeKey(value) {
      TakenNotStored(strings, keys, i, value);
    }
    forall i: nat | T.Phantom(keys, i, value) ensures T.Taken(keys, i, value) && keys[i] < value {
      T.TakenIsBare(keys, i, value);
      InStrings(strings, keys, i);
    }
    forall i: nat | T.Overread(keys, i, value) ensures T.Taken(keys, i, value) {}
    forall i: nat | i < |keys|
      ensures IdOf(strings, keys[i]).Id? && IdOf(strings, keys[i]).id in strings
              && strings[IdOf(strings, keys[i]).id] == keys[i]
    {
      InStrings(strings, keys, i);
    }
  }

  lemma TakenNotStored(strings: map<nat, Key>, keys: seq<Key>, i: nat, value: Key)
    requires Listed(strings, keys) && T.Taken(keys, i, value)
    ensures !DS.HasString(strings, value) && !NulFreeKey(value)
  {
    hide T.Taken, NulFreeKey;
    T.TakenHasNul(keys, i, value);
    if value in keys {
      var j: nat :| j < |keys| && keys[j] == value;
      T.NoPhantomStored(keys, j);
    }
  }

  lemma IndexListed(strings: map<nat, Key>, t: T.Trie, keys: seq<Key>, ids: seq<nat>, local: seq<nat>)
    requires TrieIndexOk(strings, t, keys, ids, local)
    ensures Listed(strings, keys)
  {
    hide T.Represents, T.FirstFitted, StrictlySorted;
    forall key | key in keys ensures DS.HasString(strings, key) {
      var i: nat :| i < |keys| && keys[i] == key;
      assert local[ids[i]] in strings && strings[local[ids[i]]] == key;
    }
  }

  /** What the trie answers on a query on which it strays is told from the strings. */
  lemma StrayOnIs(strings: map<nat, Key>, t: T.Trie, keys: seq<Key>, ids: seq<nat>, local: seq<nat>, value: Key)
    requires TrieIndexOk(strings, t, keys, ids, local) && DS.Injective(strings)
    ensures StrayOn(t, keys, ids, local, value) == Strayed(COMPACT_MEMORY, strings, value)
  {
    hide T.Represents, T.FirstFitted, T.Phantom, T.Overread, NulFree, StrictlySorted;
    IndexListed(strings, t, keys, ids, local);
    KeysAre(strings, keys);
    if i: nat :| T.Phantom(keys, i, value) {
      StrayIsId(strings, t, keys, ids, local, value, i);
    }
  }

  lemma StrayIsId(strings: map<nat, Key>, t: T.Trie, keys: seq<Key>, ids: seq<nat>, local: seq<nat>, value: Key, i: nat)
    requires TrieIndexOk(strings, t, keys, ids, local) && DS.Injective(strings) && T.Phantom(keys, i, value)
    ensures Global(local, T.Stray(keys, ids, value)) == IdOf(strings, keys[i])
    ensures forall j: nat :: T.Phantom(keys, j, value) ==> j == i
  {
    hide T.Represents, T.FirstFitted, StrictlySorted, T.Stray;
    IndexListed(strings, t, keys, ids, local);
    T.StrayAt(keys, ids, i, value);
    InStrings(strings, keys, i);
    forall j: nat | T.Phantom(keys, j, value) ensures j == i {
      T.OneTaken(keys, i, j, value);
    }
  }

  lemma ValueUnused(items: seq<Item>, i: nat, index: map<Key, nat>)
    requires DistinctItems(items) && i < |items| && DS.IndexOk(ItemMap(items[..i]), index)
    ensures items[i].value !in index && items[i].id !in ItemMap(items[..i])
  {
    var init := items[..i];
    if items[i].value in index {
      var k := ItemMapHas(init, index[items[i].value]);
      ItemMapAt(init, k);
    }
    if items[i].id in ItemMap(init) {
      var k := ItemMapHas(init, items[i].id);
    }
  }

  /** The map from strings to ids. */
  method Fallback(items: seq<Item>) returns (index: map<Key, nat>)
    requires DistinctItems(items)
    ensures DS.IndexOk(ItemMap(items), index)
  {
    index := map[];
    var i := 0;
    while i < |items|
      invariant i <= |items| && DS.IndexOk(ItemMap(items[..i]), index)
    {
      ValueUnused(items, i, index);
      DS.IndexEnter(ItemMap(items[..i]), index, items[i].id, items[i].value);
      assert items[..i + 1][..i] == items[..i];
      index := index[items[i].value := items[i].id];
      i := i + 1;
    }
    assert items[..i] == items;
  }

  /** The ids behind the first n local numbers are right. */
  ghost predicate LocalsOk(strings: map<nat, Key>, keys: seq<Key>, ids: seq<nat>, local: seq<nat>, n: nat)
    requires |keys| == |ids|
  {
    forall i :: 0 <= i < |ids| && ids[i] < n && ids[i] < |local| ==>
      local[ids[i]] in strings && strings[local[ids[i]]] == keys[i]
  }

  /** Every local number is decoded and its string looked up in the map. */
  method MapLocals(t: T.Trie, index: map<Key, nat>, count: nat, ghost strings: map<nat, Key>, ghost keys: seq<Key>,
      ghost ids: seq<nat>) returns (local: seq<nat>)
    requires T.Represents(t, keys, ids) && count == |keys| == |ids| <= 0x800_0000
    requires DS.IndexOk(strings, index) && forall key :: key in keys ==> key in index
    ensures |local| == count && LocalsOk(strings, keys, ids, local, count)
  {
    local := seq(count, _ => INVALID_ID);
    var localId := 0;
    while localId < count
      invariant localId <= count == |local| && LocalsOk(strings, keys, ids, local, localId)
    {
      var key := T.Decode(t, localId, keys, ids);
      ghost var before := local;
      if key in index {
        local := local[localId := index[key]];
      }
      LocalsNext(strings, keys, ids, before, local, localId, key, index);
      localId := localId + 1;
    }
  }

  lemma LocalsNext(strings: map<nat, Key>, keys: seq<Key>, ids: seq<nat>, local: seq<nat>, local': seq<nat>, n: nat,
      key: Key, index: map<Key, nat>)
    requires |keys| == |ids| && LocalsOk(strings, keys, ids, local, n) && n < |local|
    requires local' == if key in index then local[n := index[key]] else local
    requires forall i :: 0 <= i < |ids| && ids[i] == n ==> key == keys[i]
    requires DS.IndexOk(strings, index) && forall k :: k in keys ==> k in index
    ensures LocalsOk(strings, keys, ids, local', n + 1)
  {
    forall i | 0 <= i < |ids| && ids[i] < n + 1 && ids[i] < |local'|
      ensures local'[ids[i]] in strings && strings[local'[ids[i]]] == keys[i]
    {
      if ids[i] == n { assert keys[i] in keys; }
    }
  }

  /** The keys of the items make a trie: they are sorted and none is empty. */
  lemma KeysAcceptable(keys: seq<Key>, items: seq<Item>)
    requires StrictlySorted(keys) && SameStrings(keys, items) && keys != [] && forall i :: 0 <= i < |items| ==>
               items[i].value != []
    ensures TB.Acceptable(keys)
  {
    assert keys[0] in keys;
    var i := ValueOfItem(items, keys[0]);
  }

  /** The trie over the strings of the items, with the map from local numbers to ids. */
  method BuildTrie(items: seq<Item>, keys: seq<Key>, index: map<Key, nat>)
      returns (t: T.Trie, local: seq<nat>, ghost ids: seq<nat>)
    requires DistinctItems(items) && (forall i :: 0 <= i < |items| ==> items[i].value != [])
             && DS.IndexOk(ItemMap(items), index)
    requires StrictlySorted(keys) && SameStrings(keys, items) && keys != []
    requires |keys| <= 0x800_0000 && 256 * (Work(keys, 0, |keys|, 0) + 1) < WORD_SIZE
    ensures TrieIndexOk(ItemMap(items), t, keys, ids, local)
  {
    hide T.Represents, T.FirstFitted, ItemMap, Less, ValuesOf, DS.IndexOk, NulFree;
    KeysAcceptable(keys, items);
    var built;
    built, ids := T.Build(keys, 8, false);
    t := built.value;
    KeysInIndex(items, keys, index);
    local := MapLocals(t, index, |keys|, ItemMap(items), keys, ids);
  }

  lemma KeysInIndex(items: seq<Item>, keys: seq<Key>, index: map<Key, nat>)
    requires DistinctItems(items) && DS.IndexOk(ItemMap(items), index) && SameStrings(keys, items)
    ensures forall key :: key in keys ==> key in index
    ensures forall id :: id in ItemMap(items) ==> ItemMap(items)[id] in keys
  {
    forall key | key in keys ensures key in index {
      var i := ValueOfItem(items, key);
      ItemMapAt(items, i);
    }
    forall id: nat | id in ItemMap(items) ensures ItemMap(items)[id] in keys {
      var i := ItemMapHas(items, id);
      ItemMapAt(items, i);
      HasId(items, i);
    }
  }

  lemma ItemMapInjective(items: seq<Item>)
    requires DistinctItems(items)
    ensures DS.Injective(ItemMap(items))
  {
    var m := ItemMap(items);
    forall a: nat, b: nat | a in m && b in m && m[a] == m[b] ensures a == b {
      var i := ItemMapHas(items, a);
      var j := ItemMapHas(items, b);
      ItemMapAt(items, i);
      ItemMapAt(items, j);
    }
  }

  lemma NotCompact(profile: nat, strings: map<nat, Key>, value: Key)
    requires profile != COMPACT_MEMORY
    ensures StrayOk(strings, Strayed(profile, strings, value), value)
  {
  }

  lemma NoTrieNoStray(profile: nat, strings: map<nat, Key>, value: Key)
    requires profile != COMPACT_MEMORY || Listed(strings, [])
    ensures Strayed(profile, strings, value) == T.Absent
  {
    if profile == COMPACT_MEMORY { KeysAre(strings, []); }
  }

  lemma NoTrieNoOverrun(profile: nat, strings: map<nat, Key>)
    requires profile != COMPACT_MEMORY || strings == map[]
    ensures forall value, prefix :: !Overruns(profile, strings, value, prefix)
  {
  }

  /** With "a" and "b", NUL, "c" held in the compact profile, find_id takes "a", NUL, NUL, "c" for "a". */
  lemma StrayExample(a: nat, b: nat, value: Key)
    requires a != b && value == [97, 0, 0, 99]
    ensures Strayed(COMPACT_MEMORY, map[a := [97], b := [98, 0, 99]], value) == T.Id(a)
  {
    var strings, keys: seq<Key> := map[a := [97], b := [98, 0, 99]], [[97], [98, 0, 99]];
    T.PhantomExample(keys, value);
    ExampleListed(a, b);
    KeysAre(strings, keys);
    InStrings(strings, keys, 0);
    forall i: nat | T.Phantom(keys, i, value) ensures i == 0 {
      T.OneTaken(keys, 0, i, value);
    }
  }

  lemma ExampleListed(a: nat, b: nat)
    requires a != b
    ensures Listed(map[a := [97], b := [98, 0, 99]], [[97], [98, 0, 99]])
  {
    var strings: map<nat, Key>, keys: seq<Key> := map[a := [97], b := [98, 0, 99]], [[97], [98, 0, 99]];
    assert Step(keys, 1);
    assert strings[a] == keys[0] && strings[b] == keys[1];
    forall key ensures key in keys <==> DS.HasString(strings, key) {
      assert key in keys <==> key == keys[0] || key == keys[1];
    }
  }

  // ---------- the segment ----------

  class BaseSegment {
    const profile: nat
    const arena: PackedStringArena
    var entries: seq<EntryLocation>
    var fallback: map<Key, nat>
    var trie: Option<T.Trie>
    var localToGlobal: seq<nat>
    var liveSize: nat
    ghost var keys: seq<Key>
    ghost var ids: seq<nat>

    /** The stored strings by id. */
    ghost var strings: map<nat, Key>

    /** What the table and the arena hold. */
    ghost function Held(): map<nat, Key>
      reads this, arena
    {
      Contents(entries, arena.bytes)
    }

    ghost predicate IndexedBy(strings: map<nat, Key>)
      reads this
    {
      if trie.Some? then TrieIndexOk(strings, trie.value, keys, ids, localToGlobal) else DS.IndexOk(strings, fallback)
    }

    ghost function Judge(): Verdict
      reads this, arena
    {
      if
        && arena.Valid() && TableOk(entries, arena.bytes) && |arena.bytes| <= MAX_OFFSET
        && IndexedBy(strings) && liveSize == |strings| && strings == Held() && DS.Injective(strings)
        && (trie.Some? <==> profile == COMPACT_MEMORY && strings != map[])
      then Sound else Unsound
    }

    ghost predicate Valid()
      reads this, arena
    {
      Judge().Sound?
    }

    /** What find_id answers on a query on which it strays. */
    ghost function Stray(value: Key): T.Answer
      reads this
    {
      Strayed(profile, strings, value)
    }

    constructor (profile: nat)
      ensures Valid() && fresh(arena) && strings == map[] && this.profile == profile
    {
      this.profile := profile;
      arena := new PackedStringArena();
      entries, fallback, trie, localToGlobal, liveSize := [], map[], None, [], 0;
      keys, ids, strings := [], [], map[];
    }

    /** There is a trie exactly for the compact profile, once anything is held; it lists the strings. */
    lemma TrieTells()
      requires Valid()
      ensures trie.Some? <==> profile == COMPACT_MEMORY && strings != map[]
      ensures trie.Some? ==> Listed(strings, keys)
      ensures trie.None? ==> profile != COMPACT_MEMORY || Listed(strings, [])
    {
      hide T.Represents, T.FirstFitted;
      if trie.Some? {
        IndexListed(strings, trie.value, keys, ids, localToGlobal);
      }
    }

    lemma StrayFacts(value: Key)
      requires Valid()
      ensures StrayOk(strings, Stray(value), value)
    {
      hide BaseSegment.Valid, Listed, StrayOk;
      TrieTells();
      if trie.Some? {
        StrayNotStored(profile, strings, keys, value);
      } else if profile == COMPACT_MEMORY {
        StrayNotStored(profile, strings, [], value);
      } else {
        NotCompact(profile, strings, value);
      }
    }

    method FindId(value: Key) returns (r: T.Answer)
      requires Valid()
      ensures AnswerOk(strings, Stray(value), value, r)
    {
      TrieTells();
      if trie.Some? {
        r := FindInTrie(value);
        return;
      }
      NoTrieNoStray(profile, strings, value);
      if value in fallback {
        return T.Id(fallback[value]);
      }
      return T.Absent;
    }

    method FindInTrie(value: Key) returns (r: T.Answer)
      requires Valid() && trie.Some?
      ensures AnswerOk(strings, Stray(value), value, r)
    {
      hide T.Represents, T.FirstFitted;
      var answer := T.Lookup(trie.value, value, keys, ids);
      TrieFinds(strings, trie.value, keys, ids, localToGlobal, value, answer);
      StrayOnIs(strings, trie.value, keys, ids, localToGlobal, value);
      r := if answer.Id? then T.Id(localToGlobal[answer.id]) else answer;
    }

    /** for_each_with_prefix: the ids it reports, in order. */
    method WithPrefix(prefix: Key) returns (found: seq<nat>)
      requires Valid()
      ensures Rising(found)
      ensures forall id: nat :: id in found <==>
                id in strings && (prefix <= strings[id] || Overruns(profile, strings, strings[id], prefix))
    {
      if trie.None? {
        NoTrieNoOverrun(profile, strings);
        found := ScanPrefix(entries, arena.bytes, prefix);
        return;
      }
      found := TriePrefix(prefix);
    }

    method TriePrefix(prefix: Key) returns (found: seq<nat>)
      requires Valid() && trie.Some?
      ensures Rising(found)
      ensures forall id: nat :: id in found <==>
                id in strings && (prefix <= strings[id] || Overruns(profile, strings, strings[id], prefix))
    {
      hide T.Represents, T.FirstFitted;
      ghost var lo;
      var results;
      results, lo := P.PredictiveSearch(trie.value, prefix, keys, ids);
      var globals := ToGlobals(results, localToGlobal, keys, ids, lo);
      FoundIds(strings, trie.value, keys, ids, localToGlobal, prefix, results, lo, globals);
      found := SortIds(globals);
      PrefixOrOverrun(strings, keys, prefix, globals);
      IndexListed(strings, trie.value, keys, ids, localToGlobal);
      forall id | id in strings
        ensures Overruns(profile, strings, strings[id], prefix)
                <==> exists i: nat :: P.Overrun(keys, i, prefix) && keys[i] == strings[id]
      {
        OverrunsWhen(strings, keys, strings[id], prefix);
      }
    }

    predicate ContainsId(id: nat): (r: bool)
      reads this, arena
      ensures Valid() ==> (r <==> id in strings)
    {
      Holds(entries, id)
    }

    method GetString(id: nat) returns (value: Key)
      requires Valid()
      ensures value == if id in strings then strings[id] else []
    {
      if !ContainsId(id) {
        return [];
      }
      value := arena.View(entries[id]);
    }

    /** The strings are laid out anew, in the order of their ids. */
    method RebuildStorage(items: seq<Item>)
      requires DistinctItems(items) && 1 + ItemBytes(items) <= MAX_OFFSET
      modifies arena, `entries, `liveSize
      ensures arena.Valid() && TableOk(entries, arena.bytes) && Held() == ItemMap(items) && liveSize == |items|
      ensures |arena.bytes| == 1 + ItemBytes(items)
    {
      hide Contents, DistinctItems;
      var sorted := SortById(items);
      ItemMapOrder(sorted, items);
      arena.Clear();
      entries := if sorted == [] then [] else seq(sorted[|sorted| - 1].id + 1, _ => NO_ENTRY);
      liveSize := 0;
      var i := 0;
      while i < |sorted|
        invariant i <= |sorted| && arena.Valid() && TableOk(entries, arena.bytes) && liveSize == i
        invariant forall k :: 0 <= k < |sorted| ==> sorted[k].id < |entries|
        invariant |arena.bytes| == 1 + ItemBytes(sorted[..i]) && Held() == ItemMap(sorted[..i])
      {
        ItemBytesNext(sorted, i);
        ItemBytesMono(sorted, i + 1);
        EnterItem(sorted[i]);
        ItemMapNext(sorted, i);
        liveSize := liveSize + 1;
        i := i + 1;
      }
      assert sorted[..i] == sorted;
    }

    method EnterItem(item: Item)
      requires arena.Valid() && TableOk(entries, arena.bytes) && item.id < |entries| && arena.Room(item.value)
      modifies arena, `entries
      ensures arena.Valid() && TableOk(entries, arena.bytes) && |entries| == old(|entries|)
      ensures Held() == old(Held())[item.id := item.value]
      ensures |arena.bytes| == old(|arena.bytes|) + |item.value| + 1
    {
      EnterString(entries, arena.bytes, item.id, item.value);
      var location := arena.Append(item.value);
      entries := entries[item.id := location];
    }

    /** The map for every profile, and the trie instead of it for the compact one. */
    method BuildLookup(items: seq<Item>)
      requires DistinctItems(items) && (forall i :: 0 <= i < |items| ==> items[i].value != [])
      requires 1 + ItemBytes(items) <= MAX_OFFSET && (profile == COMPACT_MEMORY ==> |items| <= 0x800_0000)
      modifies `fallback, `trie, `localToGlobal, `keys, `ids
      ensures IndexedBy(ItemMap(items)) && (trie.Some? <==> profile == COMPACT_MEMORY && items != [])
    {
      hide DistinctItems, ItemBytes, StrictlySorted, Work, T.FirstFitted;
      fallback := Fallback(items);
      var sortedKeys := SortedKeys(items);
      NoKeys(sortedKeys, items);
      trie, localToGlobal := None, [];
      if sortedKeys == [] {
        return;
      }
      if profile == COMPACT_MEMORY {
        WorkFits(Work(sortedKeys, 0, |sortedKeys|, 0));
        var t, local;
        t, local, ids := BuildTrie(items, sortedKeys, fallback);
        keys := sortedKeys;
        trie, localToGlobal := Some(t), local;
        fallback := map[];
      }
    }

    /** rebuild: afterwards the segment holds exactly the items. */
    method Rebuild(items: seq<Item>)
      requires DistinctItems(items) && (forall i :: 0 <= i < |items| ==> items[i].value != [])
      requires 1 + ItemBytes(items) <= MAX_OFFSET && (profile == COMPACT_MEMORY ==> |items| <= 0x800_0000)
      modifies this, arena
      ensures Valid() && strings == ItemMap(items) && |arena.bytes| == 1 + ItemBytes(items)
      ensures trie.Some? <==> profile == COMPACT_MEMORY && items != []
    {
      hide DistinctItems, ItemMap, ItemBytes, Contents, TableOk, TrieIndexOk, DS.IndexOk;
      RebuildStorage(items);
      BuildLookup(items);
      ItemMapSize(items);
      ItemMapInjective(items);
      strings := ItemMap(items);
    }
  }

  // ---------- prefix search ----------

  /** The ids behind the local numbers. */
  method ToGlobals(results: seq<(nat, Key)>, local: seq<nat>, ghost keys: seq<Key>, ghost ids: seq<nat>, ghost lo: nat)
      returns (globals: seq<nat>)
    requires P.Lists(results, keys, ids, lo) && |local| == |ids| && forall i :: 0 <= i < |ids| ==> ids[i] < |ids|
    ensures |globals| == |results|
    ensures forall a :: 0 <= a < |results| ==> results[a].0 < |local| && globals[a] == local[results[a].0]
  {
    globals := [];
    while |globals| < |results|
      invariant |globals| <= |results|
      invariant forall k :: 0 <= k < |globals| ==> results[k].0 < |local| && globals[k] == local[results[k].0]
    {
      assert results[|globals|] == (ids[lo + |globals|], keys[lo + |globals|]);
      globals := globals + [local[results[|globals|].0]];
    }
  }

  /** Predictive search gives the numbers of consecutive keys; these are their ids. */
  ghost predicate PrefixIds(strings: map<nat, Key>, keys: seq<Key>, found: seq<nat>, prefix: Key) {
    forall id: nat :: id in found <==>
      id in strings && exists i: nat :: P.Hit(keys, i, prefix) && keys[i] == strings[id]
  }

  /** A reported string begins with the prefix, or the prefix runs past its end. */
  lemma PrefixOrOverrun(strings: map<nat, Key>, keys: seq<Key>, prefix: Key, found: seq<nat>)
    requires PrefixIds(strings, keys, found, prefix) && forall id :: id in strings ==> strings[id] in keys
    ensures forall id: nat :: id in found <==>
              id in strings && (prefix <= strings[id] || exists i: nat :: P.Overrun(keys, i, prefix) && keys[i] == strings[id])
  {
    forall id: nat | id in strings
      ensures (exists i: nat :: P.Hit(keys, i, prefix) && keys[i] == strings[id])
              <==> prefix <= strings[id] || exists i: nat :: P.Overrun(keys, i, prefix) && keys[i] == strings[id]
    {
      var j :| 0 <= j < |keys| && keys[j] == strings[id];
      if prefix <= strings[id] {
        assert P.Hit(keys, j, prefix);
      }
      if exists i: nat :: P.Overrun(keys, i, prefix) && keys[i] == strings[id] {
        var i: nat :| P.Overrun(keys, i, prefix) && keys[i] == strings[id];
        assert P.Hit(keys, i, prefix);
      }
    }
  }

  lemma FoundIds(strings: map<nat, Key>, t: T.Trie, keys: seq<Key>, ids: seq<nat>, local: seq<nat>, prefix: Key,
                 found: seq<(nat, Key)>, lo: nat, globals: seq<nat>)
    requires TrieIndexOk(strings, t, keys, ids, local) && DS.Injective(strings)
    requires P.Hits(keys, prefix, lo, lo + |found|) && P.Lists(found, keys, ids, lo)
    requires |globals| == |found| && forall a :: 0 <= a < |found| ==>
               found[a].0 < |local| && globals[a] == local[found[a].0]
    ensures PrefixIds(strings, keys, globals, prefix)
    ensures forall a, b :: 0 <= a < b < |globals| ==> globals[a] != globals[b]
  {
    hide T.Represents, T.FirstFitted;
    forall a | 0 <= a < |globals| ensures globals[a] in strings && strings[globals[a]] == keys[lo + a] {
      assert found[a] == (ids[lo + a], keys[lo + a]);
    }
    forall a, b | 0 <= a < b < |globals| ensures globals[a] != globals[b] {
      if keys[lo + a] == keys[lo + b] { SortedDistinct(keys, lo + a, lo + b); }
    }
    forall id: nat ensures id in globals <==>
      id in strings && exists i: nat :: P.Hit(keys, i, prefix) && keys[i] == strings[id] {
      if id in globals {
        var a :| 0 <= a < |globals| && globals[a] == id;
        assert P.Hit(keys, lo + a, prefix);
      }
      if id in strings && exists i: nat :: P.Hit(keys, i, prefix) && keys[i] == strings[id] {
        var i: nat :| P.Hit(keys, i, prefix) && keys[i] == strings[id];
        assert strings[globals[i - lo]] == strings[id];
        assert globals[i - lo] == id;
      }
    }
  }

  lemma {:induction false} ItemBytesMono(items: seq<Item>, i: nat)
    requires i <= |items|
    ensures ItemBytes(items[..i]) <= ItemBytes(items)
  {
    if i == |items| {
      assert items[..i] == items;
    } else {
      assert items[..|items| - 1][..i] == items[..i];
      ItemBytesMono(items[..|items| - 1], i);
    }
  }

  lemma WorkFits(work: nat)
    requires work < MAX_OFFSET
    ensures 256 * (work + 1) < WORD_SIZE
  {
  }
}
