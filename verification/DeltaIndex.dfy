/** The index of the delta from string to id: an array hash, a hat-trie or a plain hash map, as the profile has it. */
module DeltaIndex {
  import opened Options
  import opened Bits
  import opened Keys
  import opened Serialization
  import GP = GrowthPolicy
  import AB = ArrayBucket
  import AH = ArrayHash
  import HT = HatTrie
  import HO = HatOrder
  import HI = HatIterator

  datatype Kind = Fallback | ArrayMap | Compact

  const ARRAY_MAP_FORMAT := AB.Format(4, true, 2)
  const BURST_THRESHOLD: nat := 16384

  /** With fewer than 2^32 entries and a load factor of at least 0.1, a bigger table is never loaded. */
  const MAX_LOADED_BUCKETS: nat := 0x10_0000_0000

  /** The strings that an index takes when it holds so many: the two hash structures refuse longer ones, and the array
      hash more than its positions can tell apart. */
  predicate Takes(kind: Kind, held: nat, value: Key) {
    match kind
    case Fallback => true
    case ArrayMap => |value| <= 65533 && held < 0xFFFF_FFFF
    case Compact => |value| <= 65534
  }

  class DeltaIndex {
    const kind: Kind
    const arrayMap: AH.ArrayHash
    const compact: HT.HatTrie
    var fallback: map<Key, nat>
    ghost var contents: map<Key, nat>

    ghost function Owned(): set<object>
      reads compact
    {
      {this, arrayMap, compact} + HT.HashesOf(compact.nodes)
    }

    ghost predicate Valid()
      reads this, compact, Owned()
    {
      match kind
      case Fallback => fallback == contents
      case ArrayMap => arrayMap.Valid() && arrayMap.f == ARRAY_MAP_FORMAT && arrayMap.contents == contents
      case Compact => compact.Valid() && compact.contents == contents
    }

    constructor (kind: Kind, hash: Key -> nat)
      ensures Valid() && contents == map[] && this.kind == kind && fresh(Owned())
    {
      hide AH.ArrayHash.Valid, HT.HatTrie.Valid;
      this.kind := kind;
      arrayMap := new AH.ArrayHash(ARRAY_MAP_FORMAT, hash, 0);
      compact := new HT.HatTrie(hash, BURST_THRESHOLD);
      fallback, contents := map[], map[];
    }

    method Find(value: Key) returns (r: Option<nat>)
      requires Valid()
      ensures r == if value in contents then Some(contents[value]) else None
    {
      hide AH.ArrayHash.Valid, HT.HatTrie.Valid;
      match kind {
        case ArrayMap => r := arrayMap.Find(value);
        case Compact => r := compact.Find(value);
        case Fallback => r := if value in fallback then Some(fallback[value]) else None;
      }
    }

    /** A new string, or a new id for an old one; a string the index does not take leaves it as it was. */
    method InsertOrAssign(value: Key, id: nat) returns (taken: bool)
      requires Valid()
      modifies Owned()
      ensures Valid() && fresh(Owned() - old(Owned()))
      ensures taken <==> value in old(contents) || Takes(kind, |old(contents)|, value)
      ensures contents == if taken then old(contents)[value := id] else old(contents)
    {
      hide AH.ArrayHash.Valid, HT.HatTrie.Valid;
      taken := true;
      match kind {
        case ArrayMap => taken := InsertInArrayMap(value, id);
        case Compact => taken := InsertInCompact(value, id);
        case Fallback => fallback := fallback[value := id];
      }
      if taken {
        contents := contents[value := id];
      }
    }

    method InsertInArrayMap(value: Key, id: nat) returns (taken: bool)
      requires arrayMap.Valid() && arrayMap.f == ARRAY_MAP_FORMAT
      modifies arrayMap
      ensures arrayMap.Valid()
      ensures taken <==>
                value in old(arrayMap.contents)
                || (|value| <= 65533 && |old(arrayMap.contents)| < 0xFFFF_FFFF)
      ensures arrayMap.contents == if taken then old(arrayMap.contents)[value := id] else old(arrayMap.contents)
    {
      hide AH.ArrayHash.Valid, AH.MaxSize, AB.MaxKeySize;
      ArrayMapBounds();
      arrayMap.Bounds([]);
      var it := arrayMap.Find(value);
      if it.None? {
        var highLoad, clear := *, *;
        var e := arrayMap.Emplace(value, id, highLoad && |arrayMap.buckets| <= MAX_LOADED_BUCKETS, clear);
        taken := e.Inserted?;
      } else {
        taken := arrayMap.Assign(value, id);
      }
    }

    method InsertInCompact(value: Key, id: nat) returns (taken: bool)
      requires compact.Valid()
      modifies compact, HT.HashesOf(compact.nodes)
      ensures compact.Valid()
      ensures taken <==> value in old(compact.contents) || |value| <= 65534
      ensures compact.contents == if taken then old(compact.contents)[value := id] else old(compact.contents)
      ensures fresh(HT.HashesOf(compact.nodes) - old(HT.HashesOf(compact.nodes)))
    {
      hide HT.HatTrie.Valid;
      LeafKeySize();
      var it := compact.Find(value);
      if it.None? {
        var r := compact.Insert(value, id);
        taken := r.Added?;
      } else {
        taken := compact.Assign(value, id);
      }
    }

    /** The string goes if it leads to this id. */
    method EraseFor(value: Key, id: nat)
      requires Valid()
      modifies Owned()
      ensures Valid() && contents == if value in old(contents)
              && old(contents)[value] == id then old(contents) - {value} else old(contents)
      ensures fresh(Owned() - old(Owned()))
    {
      hide AH.ArrayHash.Valid, HT.HatTrie.Valid;
      var it := Find(value);
      if it != Some(id) {
        assert forall o :: o in Owned() ==> unchanged(o);
        return;
      }
      Erase(value);
    }

    method Erase(value: Key)
      requires Valid()
      modifies Owned()
      ensures Valid() && contents == old(contents) - {value} && fresh(Owned() - old(Owned()))
    {
      hide AH.ArrayHash.Valid, HT.HatTrie.Valid;
      match kind {
        case ArrayMap =>
          var clear := *;
          var _ := arrayMap.EraseKey(value, clear);
        case Compact =>
          var _ := compact.Erase(value);
        case Fallback =>
          fallback := fallback - {value};
      }
      contents := contents - {value};
    }

    /** The ids of the strings with a prefix, as the walk through the hat-trie meets them. */
    method IdsWithPrefix(prefix: Key) returns (keys: seq<Key>, ids: seq<nat>)
      requires Valid() && kind == Compact
      ensures HI.RangeOf(keys, contents, prefix) && |ids| == |keys|
      ensures forall i :: 0 <= i < |keys| ==> keys[i] in contents && ids[i] == contents[keys[i]]
    {
      hide HT.HatTrie.Valid, HI.RangeOf;
      keys, ids := HI.WithPrefix(compact, prefix);
    }

    method Clear()
      requires Valid()
      modifies Owned()
      ensures Valid() && contents == map[] && fresh(Owned() - old(Owned()))
    {
      hide AH.ArrayHash.Valid, HT.HatTrie.Valid;
      fallback := map[];
      match kind {
        case ArrayMap => arrayMap.Clear();
        case Compact => compact.Clear();
        case Fallback =>
      }
      contents := map[];
    }
  }

  lemma LeafKeySize()
    ensures AB.MaxKeySize(HT.LEAF_FORMAT) == 0xFFFE
  {
    Pow2Values();
    Pow2Add(8, 8);
  }

  lemma ArrayMapBounds()
    ensures AH.MaxSize(ARRAY_MAP_FORMAT) == 0xFFFF_FFFF && AB.MaxKeySize(ARRAY_MAP_FORMAT) == 0xFFFD
  {
    Pow2Values();
    Pow2Add(8, 8);
    Pow2Add(16, 16);
  }
}
