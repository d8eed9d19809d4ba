/** The dictionary: a compacted base, a mutable delta and a set of tombstones act as one map between ids and strings. */
module StringBimap {
  import opened Maps
  import opened Options
  import opened Bits
  import opened Keys
  import opened Segments
  import opened Serialization
  import opened Snapshot
  import opened Dictionary
  import opened Strays
  import BS = BaseSegment
  import DI = DeltaIndex
  import DS = DeltaSegment
  import T = Trie
  import Tombstones

  /** base without the erased, and delta. */
  ghost function Joined(base: map<nat, Key>, delta: map<nat, Key>, erased: set<nat>): map<nat, Key> {
    (base - erased) + delta
  }

  /** Every id was handed out, and an id of the delta is in no other part. */
  ghost predicate Bounded(base: map<nat, Key>, delta: map<nat, Key>, erased: set<nat>, nextId: nat) {
    && (forall id :: id in base ==> id < nextId && 0 < |base[id]| <= MAX_OFFSET)
    && (forall id :: id in delta ==> id < nextId && 0 < |delta[id]| <= MAX_OFFSET && id !in base && id !in erased)
    && (forall id :: id in erased ==> id < nextId)
  }

  ghost function JudgeMaps(base: map<nat, Key>, delta: map<nat, Key>, erased: set<nat>, nextId: nat): Verdict {
    if nextId <= INVALID_ID && Bounded(base, delta, erased, nextId) && DS.Injective(base)
       && DS.Injective(Joined(base, delta, erased))
    then Sound else Unsound
  }

  /** How the parts fit together. */
  ghost predicate PartsOk(base: map<nat, Key>, delta: map<nat, Key>, erased: set<nat>, nextId: nat) {
    JudgeMaps(base, delta, erased, nextId).Sound?
  }

  ghost function JudgeCounts(base: map<nat, Key>, delta: map<nat, Key>, erased: set<nat>, nextId: nat, liveSize: nat,
      erases: nat): Verdict {
    if PartsOk(base, delta, erased, nextId) && liveSize == |Joined(base, delta, erased)|
       && erases == |erased| then Sound else Unsound
  }

  /** The parts fit together and the counters are right. */
  ghost predicate Counted(base: map<nat, Key>, delta: map<nat, Key>, erased: set<nat>, nextId: nat, liveSize: nat,
      erases: nat) {
    JudgeCounts(base, delta, erased, nextId, liveSize, erases).Sound?
  }

  /** What becomes of a stray answer of the base: the delta is asked first, and a tombstone hides the id. */
  ghost function Effective(delta: map<nat, Key>, erased: set<nat>, stray: T.Answer, value: Key): T.Answer {
    if DS.HasString(delta, value) || (stray.Id? && stray.id in erased) then T.Absent else stray
  }

  lemma StrayJoined(base: map<nat, Key>, delta: map<nat, Key>, erased: set<nat>, nextId: nat, stray: T.Answer,
      value: Key)
    requires PartsOk(base, delta, erased, nextId) && BS.StrayOk(base, stray, value)
    ensures BS.StrayOk(Joined(base, delta, erased), Effective(delta, erased, stray, value), value)
  {
    var live := Joined(base, delta, erased);
    if Effective(delta, erased, stray, value) != T.Absent {
      forall id | id in live ensures live[id] != value {
        assert if id in delta then live[id] == delta[id] else live[id] == base[id];
      }
    }
  }

  /** The delta's answer is the dictionary's. */
  lemma DeltaAnswers(base: map<nat, Key>, delta: map<nat, Key>, erased: set<nat>, nextId: nat, stray: T.Answer,
      value: Key, id: nat)
    requires PartsOk(base, delta, erased, nextId) && id in delta && delta[id] == value
    ensures id !in erased && BS.AnswerOk(Joined(base, delta, erased), Effective(delta, erased, stray, value), value,
        T.Id(id))
  {
  }

  /** The base's answer, filtered by the tombstones, once the delta has none. */
  lemma BaseAnswers(base: map<nat, Key>, delta: map<nat, Key>, erased: set<nat>, nextId: nat, stray: T.Answer,
      value: Key, r: T.Answer)
    requires PartsOk(base, delta, erased, nextId) && !DS.HasString(delta, value)
    requires BS.StrayOk(base, stray, value) && BS.AnswerOk(base, stray, value, r)
    ensures BS.AnswerOk(Joined(base, delta, erased), Effective(delta, erased, stray, value), value,
        if r.Id? && r.id in erased then T.Absent else r)
  {
    var live := Joined(base, delta, erased);
    forall id | id in live && live[id] == value ensures id in base && id !in erased && DS.HasString(base, value) {
      assert id !in delta;
    }
  }

  datatype InsertResult = Assigned(id: nat) | Existing(id: nat) | Ignored | Exhausted | Refused(id: nat) | OutOfBounds

  /** insert: what it did, by its result. Where find_id strays, its stray answer is taken for the string. */
  ghost predicate InsertOk(d: Dict, e: Dict, stray: T.Answer, value: Key, r: InsertResult) {
    if value == [] then r == Ignored && e == d
    else match r
      case Ignored => false
      case Existing(id) => e == d && BS.AnswerOk(d.live, stray, value, T.Id(id))
      case OutOfBounds => e == d && stray == T.OutOfBounds
      case Assigned(id) =>
        && stray == T.Absent && !DS.HasString(d.live, value)
        && id == d.nextId < 0xFFFF_FFFF && e == Dict(d.live[id := value], id + 1)
      case Exhausted => stray == T.Absent && e == d && d.nextId == 0xFFFF_FFFF && !DS.HasString(d.live, value)
      case Refused(id) => stray == T.Absent && id == d.nextId < 0xFFFF_FFFF && !DS.HasString(d.live, value)
                          && e == Dict(d.live, id + 1)
  }

  /** The id that insert returns holds the string afterwards. */
  ghost predicate Stored(e: Dict, value: Key, r: InsertResult) {
    (r.Assigned? || r.Existing?) && r.id in e.live && e.live[r.id] == value
  }

  /** Insert stores the string, or is out of ids or refused by the index, if and only if find_id does not stray on it.
      */
  lemma InsertExact(d: Dict, e: Dict, stray: T.Answer, value: Key, r: InsertResult)
    requires BS.StrayOk(d.live, stray, value) && InsertOk(d, e, stray, value, r) && value != []
    ensures Stored(e, value, r) || r.Exhausted? || r.Refused? <==> stray == T.Absent
  {
  }

  ghost predicate EraseOk(d: Dict, e: Dict, id: nat, erased: bool) {
    (erased <==> id in d.live) && e == Dict(d.live - {id}, d.nextId)
  }

  /** erase by string: what it did, by its result; none where find_id reads past the end of the tail. */
  ghost predicate EraseValueOk(d: Dict, e: Dict, stray: T.Answer, value: Key, r: Option<bool>) {
    match r
    case None => value != [] && stray == T.OutOfBounds && e == d
    case Some(false) => e == d && (value == [] || BS.AnswerOk(d.live, stray, value, T.Absent))
    case Some(true) => value != [] && exists id :: EraseOk(d, e, id, true) && BS.AnswerOk(d.live, stray, value, T.Id(id))
  }

  /** The string is gone, all others are there, and the result tells whether it was held. */
  ghost predicate Gone(d: Dict, e: Dict, value: Key, r: Option<bool>) {
    && r == Some(DS.HasString(d.live, value)) && e.nextId == d.nextId
    && forall id :: id in e.live <==> id in d.live && d.live[id] != value
  }

  /** Erase by string erases that string and no other if and only if find_id does not stray on it. */
  lemma EraseValueExact(d: Dict, e: Dict, stray: T.Answer, value: Key, r: Option<bool>)
    requires BS.StrayOk(d.live, stray, value) && EraseValueOk(d, e, stray, value, r) && value != []
             && DS.Injective(d.live)
    ensures Gone(d, e, value, r) <==> stray == T.Absent
  {
    if r == Some(true) {
      var id :| EraseOk(d, e, id, true) && BS.AnswerOk(d.live, stray, value, T.Id(id));
      if stray == T.Absent { assert d.live[id] == value; }
    }
  }

  /** Every operation is a step of the dictionary. */
  lemma InsertChanges(d: Dict, e: Dict, stray: T.Answer, value: Key, r: InsertResult)
    requires InsertOk(d, e, stray, value, r) && !r.Refused?
    ensures Change(d, e)
  {
    if r.Assigned? { InsertIsStep(d, value); }
  }

  lemma EraseChanges(d: Dict, e: Dict, id: nat, erased: bool)
    requires EraseOk(d, e, id, erased)
    ensures Change(d, e)
  {
    if erased {
      EraseIsStep(d, id);
    } else {
      DS.NotThere(d.live, id);
    }
  }

  lemma EraseValueChanges(d: Dict, e: Dict, stray: T.Answer, value: Key, r: Option<bool>)
    requires EraseValueOk(d, e, stray, value, r)
    ensures Change(d, e)
  {
    if r == Some(true) {
      var id :| EraseOk(d, e, id, true) && BS.AnswerOk(d.live, stray, value, T.Id(id));
      EraseChanges(d, e, id, true);
    }
  }

  lemma InjectiveInsert(live: map<nat, Key>, id: nat, value: Key)
    requires DS.Injective(live) && id !in live && !DS.HasString(live, value)
    ensures DS.Injective(live[id := value])
  {
    forall k | k in live ensures live[k] != value {}
  }

  lemma JoinedInsert(base: map<nat, Key>, delta: map<nat, Key>, erased: set<nat>, nextId: nat, value: Key)
    requires PartsOk(base, delta, erased, nextId) && nextId < INVALID_ID && 0 < |value| <= MAX_OFFSET
    requires !DS.HasString(Joined(base, delta, erased), value)
    ensures PartsOk(base, delta[nextId := value], erased, nextId + 1)
    ensures Joined(base, delta[nextId := value], erased) == Joined(base, delta, erased)[nextId := value]
    ensures nextId !in Joined(base, delta, erased) && nextId !in delta && !DS.HasString(delta, value)
  {
    BoundedInsert(base, delta, erased, nextId, value);
    InsertIntoJoined(base, delta, erased, nextId, value);
    InjectiveInsert(Joined(base, delta, erased), nextId, value);
    DeltaHas(base, delta, erased, value);
  }

  lemma BoundedInsert(base: map<nat, Key>, delta: map<nat, Key>, erased: set<nat>, nextId: nat, value: Key)
    requires Bounded(base, delta, erased, nextId) && 0 < |value| <= MAX_OFFSET
    ensures Bounded(base, delta[nextId := value], erased, nextId + 1)
    ensures nextId !in Joined(base, delta, erased) && nextId !in delta
  {
  }

  lemma InsertIntoJoined(base: map<nat, Key>, delta: map<nat, Key>, erased: set<nat>, id: nat, value: Key)
    ensures Joined(base, delta[id := value], erased) == Joined(base, delta, erased)[id := value]
  {
  }

  lemma DeltaHas(base: map<nat, Key>, delta: map<nat, Key>, erased: set<nat>, value: Key)
    requires !DS.HasString(Joined(base, delta, erased), value)
    ensures !DS.HasString(delta, value)
  {
    forall id | id in delta ensures delta[id] != value {
      assert Joined(base, delta, erased)[id] == delta[id];
    }
  }

  lemma JoinedErase(base: map<nat, Key>, delta: map<nat, Key>, erased: set<nat>, nextId: nat, id: nat)
    requires PartsOk(base, delta, erased, nextId) && id in Joined(base, delta, erased)
    ensures PartsOk(base, delta - {id}, erased + {id}, nextId)
    ensures Joined(base, delta - {id}, erased + {id}) == Joined(base, delta, erased) - {id}
    ensures id !in erased && (id in base || id in delta)
  {
    EraseFromJoined(base, delta, erased, id);
    BoundedErase(base, delta, erased, nextId, id);
    InjectiveErase(Joined(base, delta, erased), id);
  }

  lemma BoundedErase(base: map<nat, Key>, delta: map<nat, Key>, erased: set<nat>, nextId: nat, id: nat)
    requires Bounded(base, delta, erased, nextId) && id in Joined(base, delta, erased)
    ensures Bounded(base, delta - {id}, erased + {id}, nextId) && id !in erased && (id in base || id in delta)
  {
  }

  lemma EraseFromJoined(base: map<nat, Key>, delta: map<nat, Key>, erased: set<nat>, id: nat)
    ensures Joined(base, delta - {id}, erased + {id}) == Joined(base, delta, erased) - {id}
  {
  }

  lemma InjectiveErase(live: map<nat, Key>, id: nat)
    requires DS.Injective(live)
    ensures DS.Injective(live - {id})
  {
  }

  lemma JoinedWellFormed(base: map<nat, Key>, delta: map<nat, Key>, erased: set<nat>, nextId: nat)
    requires PartsOk(base, delta, erased, nextId)
    ensures WellFormed(Dict(Joined(base, delta, erased), nextId))
    ensures forall id :: id in Joined(base, delta, erased) ==> |Joined(base, delta, erased)[id]| <= MAX_OFFSET
  {
  }

  /** use_array_map_index, use_compact_index */
  function IndexOf(profile: nat): DI.Kind {
    if profile == FAST_LOOKUP_ARRAY_MAP || profile == COMPACT_MEMORY_MARISA_ARRAY_MAP then DI.ArrayMap
    else if profile != FAST_LOOKUP then DI.Compact
    else DI.Fallback
  }

  /** The strings that the index of the delta refuses, with so many strings in the delta. */
  predicate Refuses(profile: nat, held: nat, value: Key) {
    || ((profile == 1 || profile == 2) && |value| > 65534)
    || ((profile == 6 || profile == 7) && (|value| > 65533 || held >= 0xFFFF_FFFF))
  }

  lemma RefusesWhen(profile: nat, held: nat, value: Key)
    requires KnownProfile(profile)
    ensures DI.Takes(IndexOf(profile), held, value) <==> !Refuses(profile, held, value)
  {
  }

  /** Two rising lists without common elements, sorted together. */
  method Merged(a: seq<nat>, b: seq<nat>) returns (r: seq<nat>)
    requires Rising(a) && Rising(b) && forall id: nat | id in a :: id !in b
    ensures Rising(r) && forall id: nat :: id in r <==> id in a || id in b
  {
    forall i, j | 0 <= i < j < |a + b| ensures (a + b)[i] != (a + b)[j] {
      if i < |a| && |a| <= j { assert a[i] in a && b[j - |a|] in b; }
    }
    r := SortIds(a + b);
  }

  /** The header of a saved stream. */
  method WriteHeader(out: OutStream, ghost h: Header, nextId: nat, profile: nat, liveSize: nat, fingerprint: nat)
    requires h == Header(FORMAT_VERSION, nextId, profile, liveSize, fingerprint)
    requires nextId < WORD_SIZE && profile < WORD_SIZE && liveSize < WORD_SIZE && fingerprint < WORD_SIZE
    modifies out
    ensures out.data == old(out.data) + HeaderBytes(h)
  {
    ghost var before := out.data;
    out.Write(MAGIC);
    out.WritePod(FORMAT_VERSION, 4);
    out.WritePod(nextId, 4);
    out.WritePod(profile, 1);
    out.WritePod(liveSize, 8);
    out.WritePod(fingerprint, 8);
    HeaderAppended(before, MAGIC, PodBytes(FORMAT_VERSION, 4), PodBytes(nextId, 4), PodBytes(profile, 1),
        PodBytes(liveSize, 8), PodBytes(fingerprint, 8));
  }

  lemma HeaderAppended(before: seq<byte>, m: seq<byte>, v: seq<byte>, n: seq<byte>, p: seq<byte>, c: seq<byte>,
      f: seq<byte>)
    ensures before + m + v + n + p + c + f == before + (m + (v + (n + (p + (c + f)))))
  {
    assert before + m + v + n + p + c + f == before + m + v + n + p + (c + f);
    assert before + m + v + n + p + (c + f) == before + m + v + n + (p + (c + f));
    assert before + m + v + n + (p + (c + f)) == before + m + v + (n + (p + (c + f)));
    assert before + m + v + (n + (p + (c + f))) == before + m + (v + (n + (p + (c + f))));
  }

  /** What save writes. */
  method WriteSnapshot(out: OutStream, nextId: nat, profile: nat, liveSize: nat, fingerprint: nat, items: seq<Item>)
    requires Sane(Snapshot(nextId, profile, items)) && Encodable(items) && liveSize == |items|
             && fingerprint < WORD_SIZE
    requires fingerprint == Hash(OFFSET_BASIS, Covered(Snapshot(nextId, profile, items)))
    modifies out
    ensures out.data == old(out.data) + Wire(FORMAT_VERSION, Snapshot(nextId, profile, items))
  {
    hide Hash, Covered, HeaderBytes, Entries;
    ghost var h := HeaderOf(FORMAT_VERSION, Snapshot(nextId, profile, items));
    ghost var before := out.data;
    WriteHeader(out, h, nextId, profile, liveSize, fingerprint);
    WriteEntries(out, items);
    assert before + HeaderBytes(h) + Entries(items) == before + (HeaderBytes(h) + Entries(items));
  }

  /** The entries of a saved stream. */
  method WriteEntries(out: OutStream, items: seq<Item>)
    requires Encodable(items)
    modifies out
    ensures out.data == old(out.data) + Entries(items)
  {
    ghost var before := out.data;
    var i := 0;
    while i < |items|
      invariant i <= |items| && out.data == before + Entries(items[..i])
    {
      out.WritePod(items[i].id, 4);
      out.WritePod(|items[i].value|, 8);
      out.Write(items[i].value);
      EntryAppended(before, items, i);
      i := i + 1;
    }
    assert items[..i] == items;
  }

  lemma EntryAppended(before: seq<byte>, items: seq<Item>, i: nat)
    requires i < |items|
    ensures before + Entries(items[..i]) + PodBytes(items[i].id, 4) + PodBytes(|items[i].value|, 8) + items[i].value
            == before + Entries(items[..i + 1])
  {
    assert items[..i + 1][..i] == items[..i];
    var e, a, b, c := Entries(items[..i]), PodBytes(items[i].id, 4), PodBytes(|items[i].value|, 8), items[i].value;
    assert before + e + a + b + c == before + (e + (a + b + c));
  }

  /** What save writes of a dictionary, and what it hashes. */
  method SaveItems(out: OutStream, nextId: nat, profile: nat, liveSize: nat, fingerprint: nat, items: seq<Item>,
      ghost s: Snapshot)
    requires Sane(s) && s == Snapshot(nextId, profile, items) && liveSize == |items|
    requires fingerprint == Hash(OFFSET_BASIS, Covered(s)) && fingerprint < WORD_SIZE
    modifies out
    ensures out.data == old(out.data) + Wire(FORMAT_VERSION, s)
  {
    hide Sane, Hash, Covered, Wire;
    SaneItems(s);
    WriteSnapshot(out, nextId, profile, liveSize, fingerprint, items);
  }

  /** The fingerprint of the live entries, hashed one after the other. */
  method FingerprintOf(nextId: nat, profile: nat, liveSize: nat, items: seq<Item>, ghost s: Snapshot)
      returns (hash: nat)
    requires Sane(s) && s == Snapshot(nextId, profile, items) && liveSize == |items|
    ensures hash == Hash(OFFSET_BASIS, Covered(s)) && hash < WORD_SIZE
  {
    hide Hash, Entries, HeadBytes;
    SaneItems(s);
    SaneWords(s);
    hash := HashHead(nextId, profile, liveSize);
    hash := HashItems(hash, items, HeadBytes(nextId, profile, liveSize));
    CoveredIs(s);
  }

  lemma SaneWords(s: Snapshot)
    requires Sane(s)
    ensures s.nextId < WORD_SIZE && s.profile < WORD_SIZE && |s.items| < WORD_SIZE
  {
  }

  lemma CoveredIs(s: Snapshot)
    ensures Covered(s) == HeadBytes(s.nextId, s.profile, |s.items|) + Entries(s.items)
  {
  }

  class StringBimap {
    const base: BS.BaseSegment
    const delta: DS.DeltaSegment
    const tombstones: Tombstones.Tombstones
    const profile: nat
    var nextId: nat
    var liveSize: nat
    /** The live strings by id. */
    ghost var live: map<nat, Key>
    /** Successful erases since the last compaction. */
    ghost var erases: nat

    ghost predicate Separate()
      reads delta.index.compact
    {
      this !in delta.Owned() && base !in delta.Owned() && base.arena !in delta.Owned() && tombstones !in delta.Owned()
    }

    ghost predicate SegmentsOk()
      reads base, base.arena, tombstones, delta.index.compact, delta.Owned()
    {
      && Separate() && base.Valid() && delta.Valid() && tombstones.Valid()
      && base.profile == profile && KnownProfile(profile) && delta.index.kind == IndexOf(profile)
    }

    ghost predicate Valid()
      reads this, base, base.arena, tombstones, delta.index.compact, delta.Owned()
    {
      && SegmentsOk()
      && Counted(base.strings, delta.strings, tombstones.ids, nextId, liveSize, erases)
      && live == Joined(base.strings, delta.strings, tombstones.ids)
    }

    ghost function Abs(): Dict
      reads this
    {
      Dict(live, nextId)
    }

    /** What find_id answers on a string on which it strays; Absent where it does not. */
    ghost function Stray(value: Key): T.Answer
      reads this, base, delta, tombstones
    {
      Effective(delta.strings, tombstones.ids, Strayed(profile, base.strings, value), value)
    }

    constructor (profile: nat, hash: Key -> nat)
      requires KnownProfile(profile)
      ensures Valid() && Abs() == Dict(map[], 0) && this.profile == profile && erases == 0
      ensures fresh(base) && fresh(base.arena) && fresh(delta.Owned()) && fresh(tombstones)
    {
      hide Counted, Joined, BS.BaseSegment.Valid, DS.DeltaSegment.Valid, Tombstones.Tombstones.Valid;
      base := new BS.BaseSegment(profile);
      delta := new DS.DeltaSegment(IndexOf(profile), hash);
      tombstones := new Tombstones.Tombstones();
      this.profile := profile;
      nextId, liveSize, live, erases := 0, 0, map[], 0;
      new;
      CountedNew();
      assert Separate();
      assert base.Valid() && delta.Valid() && tombstones.Valid();
    }

    /** The live strings are counted, and so are the erases. */
    lemma CountersTell()
      requires Valid()
      ensures liveSize == |live| && erases == |tombstones.ids| && DS.Injective(live)
    {
    }

    /** A string on which find_id strays is not held, and holds a null byte. */
    lemma StrayTells(value: Key)
      requires Valid()
      ensures BS.StrayOk(live, Stray(value), value)
    {
      hide Counted, Joined, Effective, BS.StrayOk;
      CountedParts(base.strings, delta.strings, tombstones.ids, nextId, liveSize, erases);
      base.StrayFacts(value);
      StrayJoined(base.strings, delta.strings, tombstones.ids, nextId, Strayed(profile, base.strings, value), value);
    }

    /** find_id: the delta first, then the base, and nothing that has been erased. */
    method FindId(value: Key) returns (r: T.Answer)
      requires Valid()
      ensures value != [] ==> BS.AnswerOk(live, Stray(value), value, r)
      ensures value == [] ==> r == T.Absent
    {
      hide Counted, Joined, BS.BaseSegment.Valid, DS.DeltaSegment.Valid, Tombstones.Tombstones.Valid;
      CountedParts(base.strings, delta.strings, tombstones.ids, nextId, liveSize, erases);
      base.StrayFacts(value);
      if |value| == 0 {
        return T.Absent;
      }
      var inDelta := delta.FindId(value);
      if inDelta.Some? {
        DeltaAnswers(base.strings, delta.strings, tombstones.ids, nextId, Strayed(profile, base.strings, value), value,
            inDelta.value);
        var dead := tombstones.Contains(inDelta.value);
        if !dead {
          return T.Id(inDelta.value);
        }
      }
      r := base.FindId(value);
      BaseAnswers(base.strings, delta.strings, tombstones.ids, nextId, Strayed(profile, base.strings, value), value, r);
      if r.Id? {
        var dead := tombstones.Contains(r.id);
        if dead {
          return T.Absent;
        }
      }
    }

    method ContainsId(id: nat) returns (r: bool)
      requires Valid()
      ensures r <==> id in live
    {
      hide Counted, Joined, BS.BaseSegment.Valid, DS.DeltaSegment.Valid, Tombstones.Tombstones.Valid;
      CountedParts(base.strings, delta.strings, tombstones.ids, nextId, liveSize, erases);
      JoinedHas(base.strings, delta.strings, tombstones.ids, nextId, id);
      var dead := tombstones.Contains(id);
      if dead {
        return false;
      }
      r := delta.ContainsId(id) || base.ContainsId(id);
    }

    /** try_get_string */
    method TryGetString(id: nat) returns (r: Option<Key>)
      requires Valid()
      ensures r == if id in live then Some(live[id]) else None
    {
      hide Counted, Joined, BS.BaseSegment.Valid, DS.DeltaSegment.Valid, Tombstones.Tombstones.Valid;
      CountedParts(base.strings, delta.strings, tombstones.ids, nextId, liveSize, erases);
      JoinedHas(base.strings, delta.strings, tombstones.ids, nextId, id);
      var dead := tombstones.Contains(id);
      if dead {
        return None;
      }
      var deltaValue := delta.GetString(id);
      if deltaValue != [] || delta.ContainsId(id) {
        return Some(deltaValue);
      }
      var baseValue := base.GetString(id);
      if baseValue != [] || base.ContainsId(id) {
        return Some(baseValue);
      }
      return None;
    }

    /** insert: the next id for a new string; a string that find_id takes for a stored one is not stored. A string
        that the index of the delta refuses uses up an id, under which it stays behind half inserted. */
    method Insert(value: Key) returns (r: InsertResult)
      requires Valid() && delta.arena.Room(value)
      modifies this, delta.Owned()
      ensures InsertOk(old(Abs()), Abs(), old(Stray(value)), value, r)
      ensures !r.Refused? ==> Valid() && erases == old(erases)
      ensures r.Assigned? ==> !Refuses(profile, old(|delta.strings|), value)
      ensures r.Refused? ==> Refuses(profile, old(|delta.strings|), value)
      ensures r.Refused? ==> liveSize == old(liveSize)
                             && delta.HalfInserted(old(delta.strings), old(delta.index.contents), old(delta.liveSize),
                                 r.id, value)
    {
      hide Counted, Joined, BS.BaseSegment.Valid, DS.DeltaSegment.Valid, Tombstones.Tombstones.Valid;
      CountedParts(base.strings, delta.strings, tombstones.ids, nextId, liveSize, erases);
      StrayTells(value);
      if |value| == 0 {
        return Ignored;
      }
      var existing := FindId(value);
      if existing.OutOfBounds? {
        return OutOfBounds;
      }
      if existing.Id? {
        return Existing(existing.id);
      }
      if nextId == INVALID_ID {
        return Exhausted;
      }
      r := InsertNew(value);
    }

    /** The end of insert. */
    method InsertNew(value: Key) returns (r: InsertResult)
      requires Valid() && delta.arena.Room(value) && value != [] && nextId < INVALID_ID && !DS.HasString(live, value)
      modifies this, delta.Owned()
      ensures r == if Refuses(profile, old(|delta.strings|), value) then Refused(old(nextId)) else Assigned(old(nextId))
      ensures nextId == old(nextId) + 1 && live == if r.Assigned? then old(live)[r.id := value] else old(live)
      ensures r.Assigned? ==> Valid() && erases == old(erases)
      ensures r.Refused? ==> liveSize == old(liveSize)
                             && delta.HalfInserted(old(delta.strings), old(delta.index.contents), old(delta.liveSize),
                                 r.id, value)
    {
      hide Counted, Joined, BS.BaseSegment.Valid, DS.DeltaSegment.Valid, DS.DeltaSegment.HalfInserted;
      hide Refuses, KnownProfile, Tombstones.Tombstones.Valid, StringBimap.SegmentsOk;
      CountedInsert(base.strings, delta.strings, tombstones.ids, nextId, liveSize, erases, value);
      var id := nextId;
      nextId := nextId + 1;
      var taken := EnterDelta(id, value);
      if taken {
        CountLive(id, value);
      }
      r := if taken then Assigned(id) else Refused(id);
    }

    /** One more live string. */
    method CountLive(id: nat, ghost value: Key)
      requires SegmentsOk() && Separate()
      requires Counted(base.strings, delta.strings, tombstones.ids, nextId, liveSize + 1, erases)
      requires live[id := value] == Joined(base.strings, delta.strings, tombstones.ids)
      modifies `liveSize, `live
      ensures Valid() && live == old(live)[id := value]
    {
      hide Counted, Joined, BS.BaseSegment.Valid, DS.DeltaSegment.Valid, Tombstones.Tombstones.Valid, KnownProfile;
      liveSize := liveSize + 1;
      live := live[id := value];
    }

    /** The string goes to the delta; the other parts stay. */
    method EnterDelta(id: nat, value: Key) returns (taken: bool)
      requires SegmentsOk() && delta.arena.Room(value) && id !in delta.strings && !DS.HasString(delta.strings, value)
      modifies delta.Owned()
      ensures taken <==> !Refuses(profile, old(|delta.strings|), value)
      ensures taken ==> SegmentsOk() && Separate() && delta.strings == old(delta.strings)[id := value]
      ensures !taken ==>
                delta.HalfInserted(old(delta.strings), old(delta.index.contents), old(delta.liveSize), id, value)
      ensures unchanged(this) && unchanged(base) && unchanged(tombstones)
    {
      hide BS.BaseSegment.Valid, DS.DeltaSegment.Valid, DS.DeltaSegment.HalfInserted, Tombstones.Tombstones.Valid;
      hide Refuses, DI.Takes, IndexOf, KnownProfile;
      RefusesWhen(profile, |delta.strings|, value);
      taken := delta.Insert(id, value);
    }

    /** erase by id */
    method Erase(id: nat) returns (erased: bool)
      requires Valid()
      modifies this, tombstones, delta.Owned()
      ensures Valid() && EraseOk(old(Abs()), Abs(), id, erased)
      ensures erases == old(erases) + (if erased then 1 else 0)
    {
      hide Counted, Joined, BS.BaseSegment.Valid, DS.DeltaSegment.Valid, Tombstones.Tombstones.Valid;
      erased := ContainsId(id);
      if !erased {
        DS.NotThere(live, id);
        return;
      }
      EraseLive(id);
    }

    /** A live id becomes a tombstone, and leaves the delta if it is there. */
    method EraseLive(id: nat)
      requires Valid() && id in live
      modifies this, tombstones, delta.Owned()
      ensures Valid() && Abs() == Dict(old(live) - {id}, old(nextId)) && erases == old(erases) + 1
    {
      hide Counted, Joined, BS.BaseSegment.Valid, DS.DeltaSegment.Valid, Tombstones.Tombstones.Valid;
      CountedErase(base.strings, delta.strings, tombstones.ids, nextId, liveSize, erases, id);
      var added := tombstones.Add(id);
      DropFromDelta(id);
      live := live - {id};
      liveSize := liveSize - 1;
      erases := erases + 1;
    }

    method DropFromDelta(id: nat)
      requires delta.Valid()
      modifies delta.Owned()
      ensures delta.Valid() && delta.strings == old(delta.strings) - {id} && fresh(delta.Owned() - old(delta.Owned()))
    {
      hide DS.DeltaSegment.Valid;
      if delta.ContainsId(id) {
        var _ := delta.Erase(id);
      } else {
        DS.NotThere(delta.strings, id);
      }
    }

    /** erase by string */
    method EraseValue(value: Key) returns (r: Option<bool>)
      requires Valid()
      modifies this, tombstones, delta.Owned()
      ensures Valid() && erases == old(erases) + (if r == Some(true) then 1 else 0)
      ensures EraseValueOk(old(Abs()), Abs(), old(Stray(value)), value, r)
    {
      hide Counted, Joined, Effective, BS.AnswerOk, BS.BaseSegment.Valid, DS.DeltaSegment.Valid;
      hide Tombstones.Tombstones.Valid;
      ghost var d, stray := Abs(), Stray(value);
      if |value| == 0 {
        return Some(false);
      }
      var found := FindId(value);
      if !found.Id? {
        NotFound(live, stray, value, found);
        return if found.OutOfBounds? then None else Some(false);
      }
      FoundLive(value, found.id);
      var erased := Erase(found.id);
      assert EraseOk(d, Abs(), found.id, true) && BS.AnswerOk(d.live, stray, value, T.Id(found.id));
      r := Some(true);
    }

    lemma FoundLive(value: Key, id: nat)
      requires Valid() && BS.AnswerOk(live, Stray(value), value, T.Id(id))
      ensures id in live
    {
      hide Counted, Joined, Effective;
      StrayTells(value);
    }

    /** for_each_live: the live entries in ascending order of ids. */
    method LiveEntries() returns (items: seq<Item>)
      requires Valid()
      ensures items == LiveItems(live, nextId)
    {
      hide Counted, Joined, BS.BaseSegment.Valid, DS.DeltaSegment.Valid, Tombstones.Tombstones.Valid;
      items := [];
      var id := 0;
      while id < nextId
        invariant id <= nextId && items == LiveItems(live, id)
      {
        var value := TryGetString(id);
        if value.Some? {
          items := items + [Item(id, value.value)];
        }
        id := id + 1;
      }
    }

    /** Whether the live strings fit the arena, and the trie where there is one. */
    ghost predicate Compactable()
      reads this
    {
      1 + BS.ItemBytes(LiveItems(live, nextId)) <= 0xFFFF_FFFF && (profile == 1 ==> |live| <= 0x800_0000)
    }

    /** compact: the same dictionary, all of it in the base. */
    method Compact()
      requires Valid() && Compactable()
      modifies this, base, base.arena, tombstones, delta.Owned()
      ensures Valid() && Abs() == old(Abs()) && erases == 0
      ensures delta.strings == map[] && tombstones.ids == {} && base.strings == live
    {
      hide Counted, Joined, BS.BaseSegment.Valid, DS.DeltaSegment.Valid, Tombstones.Tombstones.Valid, LiveItems;
      hide WellFormed, Sane, BS.ItemBytes;
      CountedItems(base.strings, delta.strings, tombstones.ids, nextId, liveSize, erases, profile);
      CountedCompact(base.strings, delta.strings, tombstones.ids, nextId, liveSize, erases);
      var items := LiveEntries();
      Replace(items);
      erases := 0;
    }

    /** The base is rebuilt from the items; the delta and the tombstones are emptied. */
    method Replace(items: seq<Item>)
      requires SegmentsOk() && DistinctItems(items) && (forall i :: 0 <= i < |items| ==> items[i].value != [])
      requires 1 + BS.ItemBytes(items) <= MAX_OFFSET && (profile == COMPACT_MEMORY ==> |items| <= 0x800_0000)
      modifies base, base.arena, tombstones, delta.Owned()
      ensures SegmentsOk() && base.strings == BS.ItemMap(items) && delta.strings == map[] && tombstones.ids == {}
      ensures fresh(delta.Owned() - old(delta.Owned()))
    {
      hide BS.BaseSegment.Valid, DS.DeltaSegment.Valid, Tombstones.Tombstones.Valid, DistinctItems, BS.ItemBytes;
      hide BS.ItemMap;
      base.Rebuild(items);
      delta.Clear();
      tombstones.Clear();
    }

    /** Without those that are tombstones. */
    method NotErased(ids: seq<nat>) returns (r: seq<nat>)
      requires tombstones.Valid() && Rising(ids)
      ensures Rising(r) && forall id: nat :: id in r <==> id in ids && id !in tombstones.ids
    {
      hide Tombstones.Tombstones.Valid;
      r := [];
      var i := 0;
      while i < |ids|
        invariant i <= |ids| && Rising(r) && forall id: nat :: id in r <==> id in ids[..i] && id !in tombstones.ids
      {
        assert ids[..i + 1] == ids[..i] + [ids[i]];
        forall k | 0 <= k < |r| ensures r[k] < ids[i] { assert r[k] in ids[..i]; }
        var dead := tombstones.Contains(ids[i]);
        if !dead {
          r := r + [ids[i]];
        }
        i := i + 1;
      }
      assert ids[..i] == ids;
    }

    /** for_each_with_prefix: the ids it reports, in ascending order. A string of the base is also reported
        for a prefix that runs past its end, where the trie does so. */
    method WithPrefix(prefix: Key) returns (found: seq<nat>)
      requires Valid()
      ensures Rising(found)
      ensures forall id: nat :: id in found <==>
                id in live && (prefix <= live[id] || (id in base.strings && Overruns(profile, base.strings, live[id], prefix)))
    {
      hide Counted, Joined, BS.BaseSegment.Valid, DS.DeltaSegment.Valid, Tombstones.Tombstones.Valid;
      CountedParts(base.strings, delta.strings, tombstones.ids, nextId, liveSize, erases);
      var inBase := base.WithPrefix(prefix);
      inBase := NotErased(inBase);
      var inDelta := delta.WithPrefix(prefix);
      inDelta := NotErased(inDelta);
      forall id: nat ensures (id in inBase || id in inDelta) <==>
        id in live && (prefix <= live[id] || (id in base.strings && Overruns(profile, base.strings, live[id], prefix)))
      {
        JoinedHas(base.strings, delta.strings, tombstones.ids, nextId, id);
      }
      forall id: nat | id in inBase ensures id !in inDelta {
        JoinedHas(base.strings, delta.strings, tombstones.ids, nextId, id);
      }
      found := Merged(inBase, inDelta);
    }

    /** What is saved. */
    lemma SavedFacts()
      requires Valid()
      ensures Sane(SnapshotOf(Abs(), profile)) && liveSize == |LiveItems(live, nextId)| == |live|
      ensures BS.ItemMap(LiveItems(live, nextId)) == live
    {
      CountedItems(base.strings, delta.strings, tombstones.ids, nextId, liveSize, erases, profile);
    }

    /** logical_fingerprint: the hash of what is saved, taken by going through the live entries. */
    method LogicalFingerprint() returns (hash: nat)
      requires Valid()
      ensures hash == Hash(OFFSET_BASIS, Covered(SnapshotOf(Abs(), profile))) && hash < WORD_SIZE
    {
      hide Counted, Joined, Hash, Covered, LiveItems, Sane, BS.BaseSegment.Valid, DS.DeltaSegment.Valid;
      hide Tombstones.Tombstones.Valid;
      SavedFacts();
      var items := LiveEntries();
      hash := FingerprintOf(nextId, profile, liveSize, items, SnapshotOf(Abs(), profile));
    }

    /** save: the wire image of the current format version. */
    method Save(out: OutStream)
      requires Valid()
      modifies out
      ensures out.data == old(out.data) + Wire(FORMAT_VERSION, SnapshotOf(Abs(), profile))
    {
      hide Counted, Joined, Hash, Covered, LiveItems, Sane, Wire, BS.BaseSegment.Valid, DS.DeltaSegment.Valid;
      hide Tombstones.Tombstones.Valid;
      SavedFacts();
      var fingerprint := LogicalFingerprint();
      var items := LiveEntries();
      SaveItems(out, nextId, profile, liveSize, fingerprint, items, SnapshotOf(Abs(), profile));
    }
  }

  lemma NotFound(live: map<nat, Key>, stray: T.Answer, value: Key, r: T.Answer)
    requires BS.AnswerOk(live, stray, value, r)
    ensures r.OutOfBounds? ==> stray == T.OutOfBounds
  {
  }

  lemma CountedNew()
    ensures Counted(map[], map[], {}, 0, 0, 0) && Joined(map[], map[], {}) == map[]
  {
  }

  lemma JoinedAlone(m: map<nat, Key>)
    ensures Joined(m, map[], {}) == m
  {
  }

  lemma BoundedJoined(base: map<nat, Key>, delta: map<nat, Key>, erased: set<nat>, nextId: nat)
    requires Bounded(base, delta, erased, nextId)
    ensures Bounded(Joined(base, delta, erased), map[], {}, nextId)
  {
  }

  /** What compacting does to the parts. */
  lemma CountedCompact(base: map<nat, Key>, delta: map<nat, Key>, erased: set<nat>, nextId: nat, liveSize: nat,
      erases: nat)
    requires Counted(base, delta, erased, nextId, liveSize, erases)
    ensures Counted(Joined(base, delta, erased), map[], {}, nextId, liveSize, 0)
    ensures Joined(Joined(base, delta, erased), map[], {}) == Joined(base, delta, erased)
  {
    hide Joined, Bounded, DS.Injective;
    JoinedAlone(Joined(base, delta, erased));
    BoundedJoined(base, delta, erased, nextId);
  }

  /** The live strings are fit to be rebuilt and to be saved. */
  lemma CountedItems(base: map<nat, Key>, delta: map<nat, Key>, erased: set<nat>, nextId: nat, liveSize: nat,
      erases: nat, profile: nat)
    requires Counted(base, delta, erased, nextId, liveSize, erases) && KnownProfile(profile)
    ensures var live := Joined(base, delta, erased); var items := LiveItems(live, nextId);
            && DistinctItems(items) && (forall i :: 0 <= i < |items| ==> items[i].value != [])
            && BS.ItemMap(items) == live
            && |items| == liveSize == |live| && WellFormed(Dict(live, nextId))
            && Sane(SnapshotOf(Dict(live, nextId), profile))
  {
    var d := Dict(Joined(base, delta, erased), nextId);
    JoinedWellFormed(base, delta, erased, nextId);
    LiveItemsAll(d);
    SnapshotSane(d, profile);
  }

  /** What a loaded dictionary starts from. */
  lemma CountedLoad(s: Snapshot)
    requires Sane(s)
    ensures Counted(BS.ItemMap(s.items), map[], {}, s.nextId, |s.items|, 0)
    ensures Joined(BS.ItemMap(s.items), map[], {}) == BS.ItemMap(s.items)
  {
    hide Joined, DS.Injective;
    var m := BS.ItemMap(s.items);
    JoinedAlone(m);
    BS.ItemMapSize(s.items);
    forall id: nat | id in m ensures id < s.nextId && 0 < |m[id]| <= MAX_OFFSET && exists i :: 0 <= i < |s.items| && s.items[i] == Item(id, m[id]) {
      var i := BS.ItemMapHas(s.items, id);
      BS.ItemMapAt(s.items, i);
      assert s.items[i] == Item(id, m[id]);
    }
    BS.ItemMapInjective(s.items);
  }

  /** What inserting does to the parts. */
  lemma CountedInsert(base: map<nat, Key>, delta: map<nat, Key>, erased: set<nat>, nextId: nat, liveSize: nat,
      erases: nat, value: Key)
    requires Counted(base, delta, erased, nextId, liveSize, erases) && nextId < INVALID_ID && 0 < |value| <= MAX_OFFSET
    requires !DS.HasString(Joined(base, delta, erased), value)
    ensures Counted(base, delta[nextId := value], erased, nextId + 1, liveSize + 1, erases)
    ensures Joined(base, delta[nextId := value], erased) == Joined(base, delta, erased)[nextId := value]
    ensures nextId !in delta && !DS.HasString(delta, value)
  {
    hide JudgeMaps, Joined;
    var live := Joined(base, delta, erased);
    JoinedInsert(base, delta, erased, nextId, value);
    SizeEnter(live, nextId, value);
  }

  /** What erasing does to the parts. */
  lemma CountedErase(base: map<nat, Key>, delta: map<nat, Key>, erased: set<nat>, nextId: nat, liveSize: nat,
      erases: nat, id: nat)
    requires Counted(base, delta, erased, nextId, liveSize, erases) && id in Joined(base, delta, erased)
    ensures liveSize > 0 && Counted(base, delta - {id}, erased + {id}, nextId, liveSize - 1, erases + 1)
    ensures Joined(base, delta - {id}, erased + {id}) == Joined(base, delta, erased) - {id} && id !in erased
    ensures id !in delta ==> delta - {id} == delta
  {
    hide JudgeMaps, Joined;
    var live := Joined(base, delta, erased);
    JoinedErase(base, delta, erased, nextId, id);
    SizeDrop(live, id);
  }

  lemma CountedParts(base: map<nat, Key>, delta: map<nat, Key>, erased: set<nat>, nextId: nat, liveSize: nat,
      erases: nat)
    requires Counted(base, delta, erased, nextId, liveSize, erases)
    ensures PartsOk(base, delta, erased, nextId) && nextId <= INVALID_ID
  {
  }

  /** What the dictionary holds under an id. */
  lemma JoinedHas(base: map<nat, Key>, delta: map<nat, Key>, erased: set<nat>, nextId: nat, id: nat)
    requires PartsOk(base, delta, erased, nextId)
    ensures id in Joined(base, delta, erased) <==> id !in erased && (id in delta || id in base)
    ensures id in delta ==> Joined(base, delta, erased)[id] == delta[id] && id !in base && delta[id] != []
    ensures id in base && id !in erased ==> Joined(base, delta, erased)[id] == base[id] && base[id] != []
  {
  }

  lemma InsertIsStep(d: Dict, value: Key)
    requires d.nextId < INVALID_ID && value != [] && !DS.HasString(d.live, value)
    ensures Change(d, Dict(d.live[d.nextId := value], d.nextId + 1))
  {
    assert Inserts(d, Dict(d.live[d.nextId := value], d.nextId + 1));
  }

  lemma EraseIsStep(d: Dict, id: nat)
    requires id in d.live
    ensures Change(d, Dict(d.live - {id}, d.nextId))
  {
    assert Erases(d, Dict(d.live - {id}, d.nextId));
  }

  // ---------- loading ----------

  /** load: the dictionary the stream holds, or null where the parser or the arena refuses it. */
  method Load(input: InStream, hash: Key -> nat, ghost on: bool, ghost version: nat, ghost want: Snapshot,
      ghost tail: seq<byte>)
      returns (d: StringBimap?, ghost readVersion: nat, ghost read: Snapshot)
    requires input.Valid()
    requires on ==> 1 <= version <= FORMAT_VERSION && Sane(want) && (version < 2 ==> want.profile == FAST_LOOKUP)
    requires on ==> input.Rest() == Wire(version, want) + tail
    requires if on then Loadable(want) else |input.Rest()| < 13 * 0x800_0000
    modifies input
    ensures d != null ==>
              fresh(d) && d.Valid() && d.Abs() == Dict(BS.ItemMap(read.items), read.nextId) && d.profile == read.profile
    ensures d != null ==>
              1 <= readVersion <= FORMAT_VERSION && Sane(read) && Wire(readVersion, read) <= old(input.Rest())
    ensures on ==> d != null && read == want
  {
    readVersion, read, d := 0, want, null;
    ghost var all := input.Rest();
    var snapshot;
    snapshot, readVersion := LoadLogicalSnapshot(input, on, version, want, tail);
    if snapshot.None? {
      return;
    }
    read := snapshot.value;
    if !on {
      FewItems(read, readVersion, all, input.Rest());
    }
    if 1 + BS.ItemBytes(snapshot.value.items) > MAX_OFFSET {
      return;
    }
    d := Rebuilt(snapshot.value, hash);
  }

  /** A snapshot that fits the arena, and the trie where there is one. */
  ghost predicate Loadable(s: Snapshot) {
    1 + BS.ItemBytes(s.items) <= 0xFFFF_FFFF && (s.profile == 1 ==> |s.items| <= 0x800_0000)
  }

  lemma FewItems(s: Snapshot, version: nat, all: seq<byte>, rest: seq<byte>)
    requires Sane(s) && all == Wire(version, s) + rest && |all| < 13 * 0x800_0000
    ensures |s.items| <= 0x800_0000
  {
    SaneItems(s);
    assert |Wire(version, s)| >= |Entries(s.items)|;
  }

  /** A fresh dictionary with the contents of a snapshot. */
  method Rebuilt(s: Snapshot, hash: Key -> nat) returns (d: StringBimap)
    requires Sane(s) && Loadable(s)
    ensures fresh(d) && d.Valid() && d.Abs() == Dict(BS.ItemMap(s.items), s.nextId) && d.profile == s.profile
  {
    hide Counted, Joined, BS.BaseSegment.Valid, DS.DeltaSegment.Valid, Tombstones.Tombstones.Valid;
    CountedLoad(s);
    d := new StringBimap(s.profile, hash);
    d.Replace(s.items);
    d.nextId := s.nextId;
    d.liveSize := |s.items|;
    d.live := BS.ItemMap(s.items);
  }

  /** What is saved comes back: the same ids, the same strings, the same next id and profile. */
  method SaveAndLoad(d: StringBimap, seekable: bool, hash: Key -> nat) returns (e: StringBimap?)
    requires d.Valid() && d.Compactable()
    ensures e != null && fresh(e) && e.Valid() && e.Abs() == d.Abs() && e.profile == d.profile
  {
    hide Counted, Joined, Wire, LiveItems, Sane, BS.ItemMap, BS.ItemBytes;
    hide BS.BaseSegment.Valid, DS.DeltaSegment.Valid, Tombstones.Tombstones.Valid;
    d.SavedFacts();
    ghost var s := SnapshotOf(d.Abs(), d.profile);
    var out := new OutStream();
    d.Save(out);
    var input := new InStream(out.data, seekable);
    ghost var version, read;
    assert input.Rest() == Wire(FORMAT_VERSION, s) + [];
    e, version, read := Load(input, hash, true, FORMAT_VERSION, s, []);
  }
}
