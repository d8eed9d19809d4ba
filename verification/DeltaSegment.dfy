/** The mutable part of a dictionary: recent strings with an index from string to id. */
module DeltaSegment {
  import opened Maps
  import opened Options
  import opened Bits
  import opened Keys
  import opened Segments
  import opened Serialization
  import DI = DeltaIndex
  import HO = HatOrder
  import HI = HatIterator

  /** The index leads from every string back to its id, and nowhere else. */
  ghost predicate IndexOk(strings: map<nat, Key>, index: map<Key, nat>) {
    && (forall k :: k in index ==> index[k] in strings && strings[index[k]] == k)
    && (forall id :: id in strings ==> strings[id] in index && index[strings[id]] == id)
  }

  ghost predicate HasString(strings: map<nat, Key>, value: Key) {
    exists id :: id in strings && strings[id] == value
  }

  ghost predicate Injective(strings: map<nat, Key>) {
    forall a, b :: a in strings && b in strings && strings[a] == strings[b] ==> a == b
  }

  lemma IndexEnter(strings: map<nat, Key>, index: map<Key, nat>, id: nat, value: Key)
    requires IndexOk(strings, index) && id !in strings && value !in index
    ensures IndexOk(strings[id := value], index[value := id])
  {
  }

  lemma IndexDrop(strings: map<nat, Key>, index: map<Key, nat>, id: nat)
    requires IndexOk(strings, index) && id in strings
    ensures IndexOk(strings - {id}, index - {strings[id]})
  {
    var value := strings[id];
    forall k | k in strings - {id} ensures strings[k] in index - {value} && (index - {value})[strings[k]] == k {
      assert index[strings[k]] == k;
    }
  }

  lemma {:induction false} IndexSize(strings: map<nat, Key>, index: map<Key, nat>)
    requires IndexOk(strings, index)
    ensures |index| == |strings|
    decreases |strings|
  {
    if strings == map[] {
      assert index == map[];
    } else {
      var id :| id in strings;
      IndexDrop(strings, index, id);
      SizeDrop(strings, id);
      SizeDrop(index, strings[id]);
      IndexSize(strings - {id}, index - {strings[id]});
    }
  }

  lemma IndexAt(strings: map<nat, Key>, index: map<Key, nat>, id: nat)
    requires IndexOk(strings, index) && id in strings
    ensures strings[id] in index && index[strings[id]] == id
  {
  }

  /** The ids of different strings are different. */
  lemma RangeIds(strings: map<nat, Key>, index: map<Key, nat>, prefix: Key, keys: seq<Key>, ids: seq<nat>)
    requires IndexOk(strings, index) && HI.RangeOf(keys, index, prefix) && |ids| == |keys|
    requires forall i :: 0 <= i < |keys| ==> keys[i] in index && ids[i] == index[keys[i]]
    ensures forall a, b :: 0 <= a < b < |ids| ==> ids[a] != ids[b]
    ensures forall id: nat :: id in ids <==> id in strings && prefix <= strings[id]
  {
    forall i | 0 <= i < |keys| ensures ids[i] in strings && strings[ids[i]] == keys[i] && prefix <= keys[i] {
      assert keys[i] in keys;
    }
    forall id: nat | id in strings && prefix <= strings[id] ensures id in ids {
      assert strings[id] in index && index[strings[id]] == id;
      assert strings[id] in keys;
      var i :| 0 <= i < |keys| && keys[i] == strings[id];
      assert ids[i] == id;
    }
  }

  ghost function JudgeParts(entries: seq<EntryLocation>, bytes: seq<byte>, index: map<Key, nat>,
      liveSize: nat): Verdict {
    if
      && TableOk(entries, bytes) && |bytes| <= MAX_OFFSET
      && IndexOk(Contents(entries, bytes), index) && liveSize == |Contents(entries, bytes)|
    then Sound else Unsound
  }

  /** Table, arena, index and size fit together. */
  ghost predicate PartsOk(entries: seq<EntryLocation>, bytes: seq<byte>, index: map<Key, nat>, liveSize: nat) {
    JudgeParts(entries, bytes, index, liveSize).Sound?
  }

  /** Entering a fresh string. */
  lemma InsertKeeps(entries: seq<EntryLocation>, bytes: seq<byte>, index: map<Key, nat>, liveSize: nat, id: nat,
      value: Key)
    requires PartsOk(entries, bytes, index, liveSize) && bytes != [] && |bytes| + |value| + 1 <= MAX_OFFSET
    requires id !in Contents(entries, bytes) && !HasString(Contents(entries, bytes), value)
    ensures var r := Widened(entries, id + 1)[id := EntryLocation(|bytes|, |value|)];
            && PartsOk(r, bytes + value + [0], index[value := id], liveSize + 1) && TableOk(r, bytes + value + [0])
            && Contents(r, bytes + value + [0]) == Contents(entries, bytes)[id := value]
    ensures value !in index && |index| == |Contents(entries, bytes)|
  {
    IndexSize(Contents(entries, bytes), index);
    var strings := Contents(entries, bytes);
    EnterString(entries, bytes, id, value);
    IndexEnter(strings, index, id, value);
    SizeEnter(strings, id, value);
  }

  lemma NotThere(strings: map<nat, Key>, id: nat)
    requires id !in strings
    ensures strings - {id} == strings
  {
  }

  /** Dropping a string. */
  lemma EraseKeeps(entries: seq<EntryLocation>, bytes: seq<byte>, index: map<Key, nat>, liveSize: nat, id: nat,
      value: Key)
    requires PartsOk(entries, bytes, index, liveSize)
    requires id in Contents(entries, bytes) && Contents(entries, bytes)[id] == value
    ensures id < |entries| && liveSize > 0 && value in index && index[value] == id
    ensures PartsOk(entries[id := NO_ENTRY], bytes, index - {value}, liveSize - 1)
    ensures Contents(entries[id := NO_ENTRY], bytes) == Contents(entries, bytes) - {id}
  {
    var strings := Contents(entries, bytes);
    DropString(entries, bytes, id);
    IndexDrop(strings, index, id);
    SizeDrop(strings, id);
    IndexAt(strings, index, id);
  }

  lemma PartsNew()
    ensures PartsOk([], [0], map[], 0) && Contents([], [0]) == map[]
  {
  }

  class DeltaSegment {
    const arena: PackedStringArena
    const index: DI.DeltaIndex
    var entries: seq<EntryLocation>
    var liveSize: nat

    ghost function Owned(): set<object>
      reads index.compact
    {
      {this, arena} + index.Owned()
    }

    ghost predicate Valid()
      reads this, index.compact, Owned()
    {
      && arena.Valid() && index.Valid() && arena !in index.Owned() && this !in index.Owned()
      && PartsOk(entries, arena.bytes, index.contents, liveSize) && strings == Contents(entries, arena.bytes)
    }

    /** The stored strings by id. */
    ghost var strings: map<nat, Key>

    constructor (kind: DI.Kind, hash: Key -> nat)
      ensures Valid() && strings == map[] && index.kind == kind && fresh(Owned())
    {
      hide DI.DeltaIndex.Valid, JudgeParts, Contents, TableOk;
      arena := new PackedStringArena();
      index := new DI.DeltaIndex(kind, hash);
      entries, liveSize, strings := [], 0, map[];
      new;
      PartsNew();
    }

    method FindId(value: Key) returns (r: Option<nat>)
      requires Valid()
      ensures r.Some? ==> r.value in strings && strings[r.value] == value
      ensures r.None? ==> !HasString(strings, value)
    {
      hide DI.DeltaIndex.Valid;
      r := index.Find(value);
    }

    predicate ContainsId(id: nat): (r: bool)
      requires Valid()
      reads this, index.compact, Owned()
      ensures r <==> id in strings
    {
      Holds(entries, id)
    }

    method GetString(id: nat) returns (value: Key)
      requires Valid()
      ensures value == if id in strings then strings[id] else []
    {
      hide DI.DeltaIndex.Valid;
      if !ContainsId(id) {
        return [];
      }
      value := arena.View(entries[id]);
    }

    /** insert. A string that the index refuses stays behind half inserted: under its id in the table,
        but neither in the index nor counted. */
    method Insert(id: nat, value: Key) returns (taken: bool)
      requires Valid() && arena.Room(value)
      requires id !in strings && !HasString(strings, value)
      modifies Owned()
      ensures taken <==> DI.Takes(index.kind, |old(strings)|, value)
      ensures taken ==> Valid() && strings == old(strings)[id := value] && fresh(Owned() - old(Owned()))
      ensures !taken ==> index.Valid() && HalfInserted(old(strings), old(index.contents), old(liveSize), id, value)
    {
      hide PartsOk, TableOk, Contents, DI.DeltaIndex.Valid, DI.Takes, HasString;
      taken := EnterBoth(id, value);
      if taken {
        liveSize := liveSize + 1;
        strings := strings[id := value];
      }
    }

    /** The string in the table and then in the index, if the index takes it. */
    method EnterBoth(id: nat, value: Key) returns (taken: bool)
      requires Valid() && arena.Room(value)
      requires id !in strings && !HasString(strings, value)
      modifies arena, `entries, index.Owned()
      ensures arena.Valid() && index.Valid() && arena !in index.Owned() && this !in index.Owned()
      ensures fresh(index.Owned() - old(index.Owned()))
      ensures taken <==> DI.Takes(index.kind, |strings|, value)
      ensures taken ==> PartsOk(entries, arena.bytes, index.contents, liveSize + 1)
      ensures TableOk(entries, arena.bytes) && Contents(entries, arena.bytes) == strings[id := value]
      ensures value !in old(index.contents) && (!taken ==> index.contents == old(index.contents))
    {
      hide PartsOk, TableOk, Contents, Widened, DI.DeltaIndex.Valid, DI.Takes, HasString;
      InsertKeeps(entries, arena.bytes, index.contents, liveSize, id, value);
      EnterTable(id, value);
      taken := index.InsertOrAssign(value, id);
    }

    /** The string in the arena and its location in the table. */
    method EnterTable(id: nat, value: Key)
      requires arena.Valid() && arena.Room(value)
      modifies arena, `entries
      ensures arena.Valid() && arena.bytes == old(arena.bytes) + value + [0]
      ensures entries == Widened(old(entries), id + 1)[id := EntryLocation(old(|arena.bytes|), |value|)]
    {
      if id >= |entries| {
        entries := Widened(entries, id + 1);
      }
      var location := arena.Append(value);
      entries := entries[id := location];
    }

    /** The table holds one string more than the index and the count tell of. */
    ghost predicate HalfInserted(was: map<nat, Key>, indexed: map<Key, nat>, size: nat, id: nat, value: Key)
      reads this, arena, index
    {
      && TableOk(entries, arena.bytes) && Contents(entries, arena.bytes) == was[id := value]
      && index.contents == indexed && value !in indexed && liveSize == size
    }

    method Erase(id: nat) returns (erased: bool)
      requires Valid()
      modifies Owned()
      ensures Valid() && strings == old(strings) - {id} && fresh(Owned() - old(Owned()))
      ensures erased <==> id in old(strings)
      ensures arena.bytes == old(arena.bytes)
    {
      hide JudgeParts, ViewOf, ValidLocation, DI.DeltaIndex.Valid;
      if !ContainsId(id) {
        NotThere(strings, id);
        return false;
      }
      var value := GetString(id);
      EraseKeeps(entries, arena.bytes, index.contents, liveSize, id, value);
      index.EraseFor(value, id);
      entries := entries[id := NO_ENTRY];
      liveSize := liveSize - 1;
      strings := strings - {id};
      return true;
    }

    /** for_each_with_prefix: through the index when it can list the strings with a prefix, else through the table. */
    method WithPrefix(prefix: Key) returns (found: seq<nat>)
      requires Valid()
      ensures Rising(found)
      ensures forall id: nat :: id in found <==> id in strings && prefix <= strings[id]
    {
      hide DI.DeltaIndex.Valid, HI.RangeOf, TableOk, Contents;
      if index.kind != DI.Compact {
        found := ScanPrefix(entries, arena.bytes, prefix);
        return;
      }
      var keys, ids := index.IdsWithPrefix(prefix);
      RangeIds(strings, index.contents, prefix, keys, ids);
      found := SortIds(ids);
    }

    method Clear()
      requires Valid()
      modifies Owned()
      ensures Valid() && strings == map[] && arena.bytes == [0] && fresh(Owned() - old(Owned()))
    {
      hide DI.DeltaIndex.Valid, JudgeParts, Contents, TableOk;
      arena.Clear();
      index.Clear();
      entries, liveSize, strings := [], 0, map[];
      PartsNew();
    }
  }
}
