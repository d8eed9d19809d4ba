/** Strings in a packed arena, found by id through a table of locations. */
module Segments {
  import opened Bits
  import opened Keys
  import opened Insertion

  const MAX_OFFSET: nat := 0xFFFF_FFFF

  datatype EntryLocation = EntryLocation(offset: nat, length: nat)

  const NO_ENTRY: EntryLocation := EntryLocation(0, 0)

  predicate LiveAt(location: EntryLocation) {
    location.offset != 0
  }

  /** valid_location */
  predicate ValidLocation(location: EntryLocation, bytes: seq<byte>) {
    if !LiveAt(location) then location.length == 0
    else
      && location.offset < |bytes| && location.length < |bytes| - location.offset
      && bytes[location.offset + location.length] == 0
  }

  function ViewOf(location: EntryLocation, bytes: seq<byte>): Key
    requires ValidLocation(location, bytes)
  {
    if !LiveAt(location) then [] else bytes[location.offset..location.offset + location.length]
  }

  class PackedStringArena {
    var bytes: seq<byte>

    /** The first byte is never part of a string, so that no string has offset 0. */
    ghost predicate Valid()
      reads this
    {
      bytes != [] && bytes[0] == 0
    }

    predicate Room(value: Key)
      reads this
    {
      |value| <= 0xFFFF_FFFF && |bytes| + |value| + 1 <= 0xFFFF_FFFF
    }

    constructor ()
      ensures Valid() && bytes == [0]
    {
      bytes := [0];
    }

    method Append(value: Key) returns (location: EntryLocation)
      requires Valid() && Room(value)
      modifies this
      ensures Valid() && bytes == old(bytes) + value + [0]
      ensures LiveAt(location) && location == EntryLocation(old(|bytes|), |value|)
    {
      location := EntryLocation(|bytes|, |value|);
      bytes := bytes + value;
      bytes := bytes + [0];
    }

    function View(location: EntryLocation): Key
      requires ValidLocation(location, bytes)
      reads this
    {
      ViewOf(location, bytes)
    }

    method Clear()
      modifies this
      ensures Valid() && bytes == [0]
    {
      bytes := [0];
    }
  }

  // ---------- tables of locations ----------

  ghost predicate TableOk(entries: seq<EntryLocation>, bytes: seq<byte>) {
    forall id :: 0 <= id < |entries| ==> ValidLocation(entries[id], bytes)
  }

  predicate Holds(entries: seq<EntryLocation>, id: nat) {
    id < |entries| && LiveAt(entries[id])
  }

  /** The strings of a table by id. */
  ghost function Contents(entries: seq<EntryLocation>, bytes: seq<byte>): (m: map<nat, Key>)
    ensures forall id: nat :: id in m <==> Holds(entries, id)
    ensures TableOk(entries, bytes) ==> forall id: nat :: id in m ==>
              Holds(entries, id) && m[id] == ViewOf(entries[id], bytes)
  {
    map id: nat | id < |entries| && Holds(entries, id) :: if ValidLocation(entries[id], bytes) then ViewOf(entries[id],
        bytes) else []
  }

  /** resize: missing entries are empty. */
  function Widened(entries: seq<EntryLocation>, n: nat): (r: seq<EntryLocation>)
    ensures |r| == (if n <= |entries| then |entries| else n) && entries <= r
    ensures forall id: nat :: Holds(r, id) <==> Holds(entries, id)
  {
    if n <= |entries| then entries else entries + seq(n - |entries|, _ => NO_ENTRY)
  }

  /** Appending a string keeps all others. */
  lemma AppendKeeps(entries: seq<EntryLocation>, bytes: seq<byte>, value: Key)
    requires TableOk(entries, bytes)
    ensures TableOk(entries, bytes + value + [0])
    ensures Contents(entries, bytes + value + [0]) == Contents(entries, bytes)
  {
    var bytes' := bytes + value + [0];
    forall id | 0 <= id < |entries|
      ensures ValidLocation(entries[id], bytes') && ViewOf(entries[id], bytes') == ViewOf(entries[id], bytes)
    {
      assert ValidLocation(entries[id], bytes);
    }
  }

  /** Entering a fresh string under an id. */
  lemma EnterString(entries: seq<EntryLocation>, bytes: seq<byte>, id: nat, value: Key)
    requires TableOk(entries, bytes) && bytes != []
    ensures var r := Widened(entries, id + 1)[id := EntryLocation(|bytes|, |value|)];
            TableOk(r, bytes + value + [0]) && Contents(r, bytes + value + [0]) == Contents(entries, bytes)[id := value]
  {
    var bytes' := bytes + value + [0];
    var wide := Widened(entries, id + 1);
    var r := wide[id := EntryLocation(|bytes|, |value|)];
    WidenedKeeps(entries, bytes, id + 1);
    AppendKeeps(wide, bytes, value);
    ChangeOne(wide, bytes', r, id, value);
  }

  lemma WidenedKeeps(entries: seq<EntryLocation>, bytes: seq<byte>, n: nat)
    requires TableOk(entries, bytes)
    ensures TableOk(Widened(entries, n), bytes) && Contents(Widened(entries, n), bytes) == Contents(entries, bytes)
  {
  }

  /** Changing one entry of a table. */
  lemma ChangeOne(entries: seq<EntryLocation>, bytes: seq<byte>, r: seq<EntryLocation>, id: nat, value: Key)
    requires TableOk(entries, bytes) && id < |entries| == |r| && r == entries[id := r[id]]
    requires LiveAt(r[id]) && ValidLocation(r[id], bytes) && ViewOf(r[id], bytes) == value
    ensures TableOk(r, bytes) && Contents(r, bytes) == Contents(entries, bytes)[id := value]
  {
    hide Contents, ViewOf, ValidLocation;
  }

  lemma DropString(entries: seq<EntryLocation>, bytes: seq<byte>, id: nat)
    requires TableOk(entries, bytes) && Holds(entries, id)
    ensures var r := entries[id := NO_ENTRY]; TableOk(r, bytes) && Contents(r, bytes) == Contents(entries, bytes) - {id}
  {
  }

  // ---------- lists of ids ----------

  ghost predicate Rising(ids: seq<nat>) {
    forall a, b :: 0 <= a < b < |ids| ==> ids[a] < ids[b]
  }

  method Place(r: seq<nat>, id: nat) returns (p: nat)
    requires Rising(r) && id !in r
    ensures p <= |r| && Rising(Inserted(r, p, id))
  {
    p := 0;
    while p < |r| && r[p] < id
      invariant p <= |r| && forall a :: 0 <= a < p ==> r[a] < id
    {
      p := p + 1;
    }
    if p < |r| { assert r[p] in r; }
  }

  /** Different ids in ascending order. */
  method SortIds(ids: seq<nat>) returns (r: seq<nat>)
    requires forall a, b :: 0 <= a < b < |ids| ==> ids[a] != ids[b]
    ensures Rising(r) && forall id :: id in r <==> id in ids
  {
    r := [];
    var i := 0;
    while i < |ids|
      invariant i <= |ids| && Rising(r) && forall id :: id in r <==> id in ids[..i]
    {
      var p := Place(r, ids[i]);
      InsertedMembers(r, p, ids[i]);
      assert ids[..i + 1] == ids[..i] + [ids[i]];
      r := Inserted(r, p, ids[i]);
      i := i + 1;
    }
    assert ids[..i] == ids;
  }

  ghost predicate BeginsWith(entries: seq<EntryLocation>, bytes: seq<byte>, prefix: Key, id: nat) {
    id in Contents(entries, bytes) && prefix <= Contents(entries, bytes)[id]
  }

  lemma BeginsInside(entries: seq<EntryLocation>, bytes: seq<byte>, prefix: Key, id: nat)
    requires BeginsWith(entries, bytes, prefix, id)
    ensures id < |entries|
  {
  }

  method EntryBegins(entries: seq<EntryLocation>, bytes: seq<byte>, prefix: Key, id: nat) returns (r: bool)
    requires TableOk(entries, bytes) && id < |entries|
    ensures r <==> BeginsWith(entries, bytes, prefix, id)
  {
    if !LiveAt(entries[id]) {
      return false;
    }
    var value := ViewOf(entries[id], bytes);
    r := |prefix| <= |value| && value[..|prefix|] == prefix;
  }

  /** The ids whose strings begin with the prefix, by looking at all of them. */
  method ScanPrefix(entries: seq<EntryLocation>, bytes: seq<byte>, prefix: Key) returns (ids: seq<nat>)
    requires TableOk(entries, bytes)
    ensures Rising(ids)
    ensures forall id: nat :: id in ids <==> BeginsWith(entries, bytes, prefix, id)
  {
    hide Contents, BeginsWith, ViewOf, ValidLocation;
    ids := [];
    var id: nat := 0;
    while id < |entries|
      invariant id <= |entries| && Rising(ids) && (forall k :: 0 <= k < |ids| ==> ids[k] < id)
      invariant forall x: nat :: x in ids <==> x < id && BeginsWith(entries, bytes, prefix, x)
    {
      var begins := EntryBegins(entries, bytes, prefix, id);
      if begins {
        ids := ids + [id];
      }
      id := id + 1;
    }
    forall x: nat | BeginsWith(entries, bytes, prefix, x) ensures x < |entries| {
      BeginsInside(entries, bytes, prefix, x);
    }
  }
}
