/** The saved form of a dictionary: its wire image, its fingerprint, and the parser that takes it back. */
module Snapshot {
  import opened Options
  import opened Bits
  import opened Serialization

  const INVALID_ID: nat := 0xFFFF_FFFF
  const FORMAT_VERSION: nat := 4
  const MAGIC: seq<byte> := [0x53, 0x54, 0x52, 0x42, 0x4D, 0x41, 0x50, 0x31]

  const FAST_LOOKUP: nat := 0
  const COMPACT_MEMORY: nat := 1
  const COMPACT_MEMORY_MARISA: nat := 2
  const FAST_LOOKUP_ARRAY_MAP: nat := 6
  const COMPACT_MEMORY_MARISA_ARRAY_MAP: nat := 7

  predicate KnownProfile(raw: nat) {
    raw == FAST_LOOKUP || raw == COMPACT_MEMORY || raw == COMPACT_MEMORY_MARISA
    || raw == FAST_LOOKUP_ARRAY_MAP || raw == COMPACT_MEMORY_MARISA_ARRAY_MAP
  }

  /** An entry as it is saved and rebuilt. */
  datatype Item = Item(id: nat, value: seq<byte>)

  datatype Snapshot = Snapshot(nextId: nat, profile: nat, items: seq<Item>)

  /** What a dictionary can save and load gives back. */
  ghost predicate Sane(s: Snapshot) {
    && s.nextId <= INVALID_ID && KnownProfile(s.profile) && |s.items| <= s.nextId
    && (forall i :: 0 <= i < |s.items| ==> s.items[i].id < s.nextId && 0 < |s.items[i].value| <= INVALID_ID)
    && DistinctItems(s.items)
  }

  ghost predicate DistinctItems(items: seq<Item>) {
    forall i, j :: 0 <= i < j < |items| ==> items[i].id != items[j].id && items[i].value != items[j].value
  }

  // ---------- wire image ----------

  function EntryBytes(item: Item): seq<byte> {
    PodBytes(item.id, 4) + PodBytes(|item.value|, 8) + item.value
  }

  function Entries(items: seq<Item>): seq<byte> {
    if items == [] then [] else Entries(items[..|items| - 1]) + EntryBytes(items[|items| - 1])
  }

  /** The bytes the fingerprint covers: all but the magic, the version and the fingerprint itself. */
  function Covered(s: Snapshot): seq<byte> {
    PodBytes(s.nextId, 4) + PodBytes(s.profile, 1) + PodBytes(|s.items|, 8) + Entries(s.items)
  }

  // ---------- hashing ----------

  const OFFSET_BASIS: nat := 14695981039346656037
  const PRIME: nat := 1099511628211
  /** PRIME * PRIME_INVERSE is 1 modulo 2^64. */
  const PRIME_INVERSE: nat := 14886173955864302971

  /** One step of the FNV-1a hash. */
  function HashByte(hash: nat, b: byte): nat {
    Xor(hash, b) * PRIME % WORD_SIZE
  }

  function Hash(hash: nat, bytes: seq<byte>): nat {
    if bytes == [] then hash else HashByte(Hash(hash, bytes[..|bytes| - 1]), bytes[|bytes| - 1])
  }

  lemma {:induction false} HashWord(hash: nat, bytes: seq<byte>)
    requires hash < WORD_SIZE
    ensures Hash(hash, bytes) < WORD_SIZE
  {
  }

  /** The published values of the 64-bit FNV-1a hash for no byte and for the byte of "a". */
  lemma KnownHashes()
    ensures Hash(OFFSET_BASIS, []) == 0xCBF2_9CE4_8422_2325
    ensures Hash(OFFSET_BASIS, [97]) == 0xAF63_DC4C_8601_EC8C
  {
    hide Xor, Hash;
    HashFirst(OFFSET_BASIS, 97);
    XorExample();
  }

  lemma HashFirst(hash: nat, b: byte)
    ensures Hash(hash, []) == hash && Hash(hash, [b]) == HashByte(hash, b)
  {
    hide HashByte;
    var bytes: seq<byte> := [b];
    assert bytes[..0] == [];
  }

  lemma XorStep(x: nat, y: nat, r: nat)
    requires Xor(x / 2, y / 2) == r
    ensures Xor(x, y) == (if x % 2 != y % 2 then 1 else 0) + 2 * r
  {
  }

  lemma XorExample()
    ensures Xor(0xCBF2_9CE4_8422_2325, 97) == 0xCBF2_9CE4_8422_2344
  {
    hide Xor;
    XorZero(0x197E539C9084446);
    XorStep(0x32FCA739210888C, 1, 0x197E539C9084446);
    XorStep(0x65F94E724211119, 3, 0x32FCA739210888D);
    XorStep(0xCBF29CE48422232, 6, 0x65F94E72421111A);
    XorStep(0x197E539C90844464, 12, 0xCBF29CE48422234);
    XorStep(0x32FCA739210888C9, 24, 0x197E539C90844468);
    XorStep(0x65F94E7242111192, 48, 0x32FCA739210888D1);
    XorStep(0xCBF29CE484222325, 97, 0x65F94E72421111A2);
  }

  /** The profiles a snapshot can name. */
  lemma KnownProfiles(raw: nat)
    ensures KnownProfile(raw) <==> raw in {0, 1, 2, 6, 7}
  {
  }

  lemma {:induction false} HashConcat(hash: nat, a: seq<byte>, b: seq<byte>)
    ensures Hash(hash, a + b) == Hash(Hash(hash, a), b)
  {
    if b == [] {
      assert a + b == a;
    } else {
      assert (a + b)[..|a + b| - 1] == a + b[..|b| - 1];
      HashConcat(hash, a, b[..|b| - 1]);
    }
  }

  /** Multiplying by the prime loses nothing modulo 2^64. */
  lemma PrimeInjective(x: nat, y: nat)
    requires x < WORD_SIZE && y < WORD_SIZE && x * PRIME % WORD_SIZE == y * PRIME % WORD_SIZE
    ensures x == y
  {
    var k := x * PRIME / WORD_SIZE - y * PRIME / WORD_SIZE;
    assert (x - y) * PRIME == k * WORD_SIZE;
    assert PRIME * PRIME_INVERSE == 887285111055 * WORD_SIZE + 1;
    Unscale(x - y, PRIME, PRIME_INVERSE, 887285111055, k, WORD_SIZE);
  }

  /** If d * p is a multiple of m and p has an inverse modulo m, then d is a multiple of m. */
  lemma Unscale(d: int, p: int, inverse: int, q: int, k: int, m: nat)
    requires m > 0 && d * p == k * m && p * inverse == q * m + 1 && -d < m && d < m
    ensures d == 0
  {
    var t := k * inverse - d * q;
    assert d * p * inverse == d * (p * inverse) == d * (q * m + 1) == d * q * m + d;
    assert d * p * inverse == k * m * inverse == k * inverse * m;
    assert d == m * t;
    MulSign(m, t);
  }

  lemma HashByteInjective(h: nat, g: nat, b: byte, c: byte)
    requires h < WORD_SIZE && g < WORD_SIZE && HashByte(h, b) == HashByte(g, c)
    ensures Xor(h, b) == Xor(g, c)
  {
    XorSmall(h, b);
    XorSmall(g, c);
    PrimeInjective(Xor(h, b), Xor(g, c));
  }

  lemma XorSmall(h: nat, b: byte)
    requires h < WORD_SIZE
    ensures Xor(h, b) < WORD_SIZE
  {
    forall k: nat | 64 <= k ensures !Bit(Xor(h, b), k) {
      XorBit(h, b, k);
      WordBits(h, k);
      WordBits(b, k);
    }
    WordFromBits(Xor(h, b));
  }

  /** Different states stay different over the same bytes. */
  lemma {:induction false} HashKeepsApart(h: nat, g: nat, bytes: seq<byte>)
    requires h < WORD_SIZE && g < WORD_SIZE && h != g
    ensures Hash(h, bytes) != Hash(g, bytes)
  {
    if bytes != [] {
      var init, b := bytes[..|bytes| - 1], bytes[|bytes| - 1];
      HashKeepsApart(h, g, init);
      HashWord(h, init);
      HashWord(g, init);
      if HashByte(Hash(h, init), b) == HashByte(Hash(g, init), b) {
        HashByteInjective(Hash(h, init), Hash(g, init), b, b);
        XorInverse(Hash(h, init), b);
        XorInverse(Hash(g, init), b);
      }
    }
  }

  ghost predicate DiffersAt(a: seq<byte>, b: seq<byte>, p: nat) {
    |a| == |b| && p < |a| && a[p] != b[p] && a[..p] == b[..p] && a[p + 1..] == b[p + 1..]
  }

  /** Two byte strings that differ in one place have different hashes. */
  lemma OneByteTells(hash: nat, a: seq<byte>, b: seq<byte>, p: nat)
    requires hash < WORD_SIZE && DiffersAt(a, b, p)
    ensures Hash(hash, a) != Hash(hash, b)
  {
    var h := Hash(hash, a[..p]);
    HashWord(hash, a[..p]);
    assert a == a[..p] + [a[p]] + a[p + 1..] && b == a[..p] + [b[p]] + a[p + 1..];
    HashConcat(hash, a[..p] + [a[p]], a[p + 1..]);
    HashConcat(hash, a[..p] + [b[p]], a[p + 1..]);
    HashConcat(hash, a[..p], [a[p]]);
    HashConcat(hash, a[..p], [b[p]]);
    OneStep(h, a[p]);
    OneStep(h, b[p]);
    if HashByte(h, a[p]) == HashByte(h, b[p]) {
      HashByteInjective(h, h, a[p], b[p]);
      XorInjective(h, a[p], b[p]);
    }
    HashKeepsApart(HashByte(h, a[p]), HashByte(h, b[p]), a[p + 1..]);
  }

  lemma OneStep(h: nat, b: byte)
    ensures Hash(h, [b]) == HashByte(h, b)
  {
    assert ([b])[..0] == [];
  }

  /** hash_bytes */
  method HashBytes(hash: nat, bytes: seq<byte>) returns (r: nat)
    requires hash < WORD_SIZE
    ensures r == Hash(hash, bytes) && r < WORD_SIZE
  {
    r := hash;
    var i := 0;
    while i < |bytes|
      invariant i <= |bytes| && r == Hash(hash, bytes[..i]) && r < WORD_SIZE
    {
      assert bytes[..i + 1][..i] == bytes[..i];
      r := Xor(r, bytes[i]);
      r := r * PRIME % WORD_SIZE;
      i := i + 1;
    }
    assert bytes[..i] == bytes;
  }

  /** hash_value: the bytes of a number as they are written. */
  method HashValue(hash: nat, value: nat, n: nat) returns (r: nat)
    requires hash < WORD_SIZE && value < WORD_SIZE && n <= 8
    ensures r == Hash(hash, PodBytes(value, n)) && r < WORD_SIZE
  {
    var bytes := SerializedBytes(value, n);
    r := HashBytes(hash, bytes);
  }

  /** The part of the fingerprint that covers one entry. */
  method HashItem(hash: nat, item: Item) returns (r: nat)
    requires hash < WORD_SIZE && item.id < WORD_SIZE && |item.value| < WORD_SIZE
    ensures r == Hash(hash, EntryBytes(item)) && r < WORD_SIZE
  {
    r := HashValue(hash, item.id, 4);
    r := HashValue(r, |item.value|, 8);
    r := HashBytes(r, item.value);
    HashConcat(hash, PodBytes(item.id, 4), PodBytes(|item.value|, 8));
    HashConcat(hash, PodBytes(item.id, 4) + PodBytes(|item.value|, 8), item.value);
  }

  ghost predicate Encodable(items: seq<Item>) {
    forall i :: 0 <= i < |items| ==> items[i].id < WORD_SIZE && |items[i].value| < WORD_SIZE
  }

  /** The loop over the entries, after the bytes of head. */
  method HashItems(start: nat, items: seq<Item>, ghost head: seq<byte>) returns (hash: nat)
    requires Encodable(items) && start == Hash(OFFSET_BASIS, head) && start < WORD_SIZE
    ensures hash == Hash(OFFSET_BASIS, head + Entries(items)) && hash < WORD_SIZE
  {
    hash := start;
    assert head + [] == head;
    var i := 0;
    while i < |items|
      invariant i <= |items| && hash == Hash(OFFSET_BASIS, head + Entries(items[..i])) && hash < WORD_SIZE
    {
      hash := HashItem(hash, items[i]);
      NextEntry(items, i, head);
      i := i + 1;
    }
    assert items[..i] == items;
  }

  lemma NextEntry(items: seq<Item>, i: nat, head: seq<byte>)
    requires i < |items|
    ensures Hash(OFFSET_BASIS, head + Entries(items[..i + 1]))
            == Hash(Hash(OFFSET_BASIS, head + Entries(items[..i])), EntryBytes(items[i]))
  {
    assert items[..i + 1][..i] == items[..i];
    HashConcat(OFFSET_BASIS, head + Entries(items[..i]), EntryBytes(items[i]));
    assert head + Entries(items[..i]) + EntryBytes(items[i]) == head + Entries(items[..i + 1]);
  }

  function HeadBytes(nextId: nat, profile: nat, count: nat): seq<byte> {
    PodBytes(nextId, 4) + PodBytes(profile, 1) + PodBytes(count, 8)
  }

  /** The part of the fingerprints before the entries. */
  method HashHead(nextId: nat, profile: nat, count: nat) returns (hash: nat)
    requires nextId < WORD_SIZE && profile < WORD_SIZE && count < WORD_SIZE
    ensures hash == Hash(OFFSET_BASIS, HeadBytes(nextId, profile, count)) && hash < WORD_SIZE
  {
    hash := HashValue(OFFSET_BASIS, nextId, 4);
    hash := HashValue(hash, profile, 1);
    hash := HashValue(hash, count, 8);
    HashConcat(OFFSET_BASIS, PodBytes(nextId, 4), PodBytes(profile, 1));
    HashConcat(OFFSET_BASIS, PodBytes(nextId, 4) + PodBytes(profile, 1), PodBytes(count, 8));
  }

  /** fingerprint: the hash of exactly the covered bytes of the wire image, in order. */
  method Fingerprint(nextId: nat, profile: nat, items: seq<Item>) returns (hash: nat)
    requires nextId < WORD_SIZE && profile < WORD_SIZE && |items| < WORD_SIZE && Encodable(items)
    ensures hash == Hash(OFFSET_BASIS, Covered(Snapshot(nextId, profile, items))) && hash < WORD_SIZE
  {
    hash := HashHead(nextId, profile, |items|);
    hash := HashItems(hash, items, HeadBytes(nextId, profile, |items|));
  }

  // ---------- loading ----------

  ghost predicate EntryFits(item: Item, nextId: nat) {
    item.id < nextId && 0 < |item.value| <= INVALID_ID
  }

  lemma SplitAt(a: seq<byte>, b: seq<byte>, c: seq<byte>)
    ensures (a + b) + c == a + (b + c) && (a + (b + c))[..|a|] == a && (a + (b + c))[|a|..] == b + c
  {
  }

  lemma PodSize(value: nat, n: nat)
    requires value < Pow2(8 * n)
    ensures PodValue(PodBytes(value, n)) == value
  {
    PodBytesRead(value, n);
  }

  lemma SmallPowers()
    ensures Pow2(8) == 0x100 && Pow2(32) == 0x1_0000_0000 && Pow2(64) == WORD_SIZE
  {
    Pow2Values();
    Pow2Add(8, 8);
    Pow2Add(16, 16);
  }

  /** One number of the stream; on: the stream goes on with the bytes of want and then tail. */
  method ReadNumber(input: InStream, n: nat, ghost on: bool, ghost want: nat, ghost tail: seq<byte>)
      returns (r: Option<nat>)
    requires input.Valid() && n <= 8 && (on ==> want < Pow2(8 * n) && input.Rest() == PodBytes(want, n) + tail)
    modifies input
    ensures input.Valid()
    ensures r.Some? ==> old(input.Rest()) == PodBytes(r.value, n) + input.Rest() && r.value < Pow2(8 * n)
    ensures on ==> r == Some(want) && input.Rest() == tail
  {
    ghost var all := input.Rest();
    r := input.ReadPod(n);
    if r.Some? {
      PodValueWritten(all[..n]);
      assert all == all[..n] + all[n..];
    }
    if on {
      PodSize(want, n);
      assert all[..n] == PodBytes(want, n) && all[n..] == tail;
    }
  }

  /** The remaining-byte counter is right, if there is one. */
  ghost predicate CounterOk(remaining: Option<nat>, rest: seq<byte>) {
    remaining.Some? ==> remaining.value == |rest|
  }

  /** The id and the size of an entry. */
  method ReadEntryHeader(input: InStream, remaining: Option<nat>, nextId: nat, ghost on: bool, ghost want: Item,
      ghost tail: seq<byte>)
      returns (r: Option<(nat, nat)>, left: Option<nat>)
    requires input.Valid() && nextId <= INVALID_ID && CounterOk(remaining, input.Rest())
    requires on ==> EntryFits(want, nextId)
    requires on ==> input.Rest() == PodBytes(want.id, 4) + (PodBytes(|want.value|, 8) + (want.value + tail))
    modifies input
    ensures input.Valid()
    ensures r.Some? ==> r.value.0 < nextId && 0 < r.value.1 <= INVALID_ID
    ensures r.Some? ==> old(input.Rest()) == PodBytes(r.value.0, 4) + (PodBytes(r.value.1, 8) + input.Rest())
    ensures r.Some? ==> left.Some? == remaining.Some? && CounterOk(left, input.Rest())
    ensures on ==> r == Some((want.id, |want.value|)) && input.Rest() == want.value + tail
  {
    SmallPowers();
    left := remaining;
    if remaining.Some? && remaining.value < 12 {
      return None, left;
    }
    var id := ReadNumber(input, 4, on, want.id, PodBytes(|want.value|, 8) + (want.value + tail));
    if id.None? {
      return None, left;
    }
    var size := ReadNumber(input, 8, on, |want.value|, want.value + tail);
    if size.None? {
      return None, left;
    }
    if left.Some? {
      left := Some(left.value - 12);
    }
    if id.value >= nextId || size.value == 0 || size.value > INVALID_ID {
      return None, left;
    }
    r := Some((id.value, size.value));
  }

  /** The string of an entry, at once or in chunks. */
  method ReadValue(input: InStream, remaining: Option<nat>, size: nat, ghost on: bool, ghost want: seq<byte>,
      ghost tail: seq<byte>)
      returns (r: Option<seq<byte>>, left: Option<nat>)
    requires input.Valid() && CounterOk(remaining, input.Rest())
    requires on ==> |want| == size && input.Rest() == want + tail
    modifies input
    ensures input.Valid()
    ensures r.Some? ==> |r.value| == size && old(input.Rest()) == r.value + input.Rest()
    ensures r.Some? ==> left.Some? == remaining.Some? && CounterOk(left, input.Rest())
    ensures on ==> r == Some(want) && input.Rest() == tail
  {
    left := remaining;
    r := None;
    if left.Some? && size > left.value {
      return;
    }
    ghost var before := input.Rest();
    if left.Some? {
      r := input.ReadString(size);
    } else {
      r := input.ReadStringIncremental(size);
    }
    if r.Some? {
      assert before == before[..size] + before[size..];
      if left.Some? {
        left := Some(left.value - size);
      }
    }
    if on {
      assert before[..size] == want && before[size..] == tail;
    }
  }

  /** One entry, with the remaining-byte counter if there is one. */
  method ReadEntry(input: InStream, remaining: Option<nat>, nextId: nat, ghost on: bool, ghost want: Item,
      ghost tail: seq<byte>)
      returns (r: Option<Item>, left: Option<nat>)
    requires input.Valid() && nextId <= INVALID_ID && CounterOk(remaining, input.Rest())
    requires on ==> EntryFits(want, nextId) && input.Rest() == EntryBytes(want) + tail
    modifies input
    ensures input.Valid()
    ensures r.Some? ==> EntryFits(r.value, nextId) && old(input.Rest()) == EntryBytes(r.value) + input.Rest()
    ensures r.Some? ==> left.Some? == remaining.Some? && CounterOk(left, input.Rest())
    ensures on ==> r == Some(want) && input.Rest() == tail
  {
    if on {
      EntrySplits(want, tail);
    }
    var header;
    header, left := ReadEntryHeader(input, remaining, nextId, on, want, tail);
    if header.None? {
      return None, left;
    }
    var value;
    value, left := ReadValue(input, left, header.value.1, on, want.value, tail);
    if value.None? {
      return None, left;
    }
    r := Some(Item(header.value.0, value.value));
    EntrySplits(r.value, input.Rest());
  }

  lemma EntrySplits(item: Item, tail: seq<byte>)
    ensures EntryBytes(item) + tail == PodBytes(item.id, 4) + (PodBytes(|item.value|, 8) + (item.value + tail))
  {
  }

  // ---------- the entries ----------

  /** The images of the entries from i on. */
  function EntriesFrom(items: seq<Item>, i: nat): seq<byte>
    requires i <= |items|
    decreases |items| - i
  {
    if i == |items| then [] else EntryBytes(items[i]) + EntriesFrom(items, i + 1)
  }

  lemma {:induction false} EntriesSplit(items: seq<Item>, i: nat)
    requires i <= |items|
    ensures Entries(items) == Entries(items[..i]) + EntriesFrom(items, i)
    decreases |items| - i
  {
    hide Entries, EntryBytes;
    if i == |items| {
      assert items[..i] == items;
    } else {
      EntriesSplit(items, i + 1);
      EntriesOneMore(items, i);
      Regroup(Entries(items[..i]), EntryBytes(items[i]), EntriesFrom(items, i + 1));
    }
  }

  lemma EntriesOneMore(items: seq<Item>, i: nat)
    requires i < |items|
    ensures Entries(items[..i + 1]) == Entries(items[..i]) + EntryBytes(items[i])
  {
    hide EntryBytes;
    assert items[..i + 1][..i] == items[..i];
  }

  lemma Regroup(a: seq<byte>, b: seq<byte>, c: seq<byte>)
    ensures (a + b) + c == a + (b + c)
  {
  }

  /** An entry takes at least thirteen bytes. */
  lemma {:induction false} EntriesLong(items: seq<Item>, i: nat)
    requires i <= |items| && forall k :: 0 <= k < |items| ==> items[k].value != []
    ensures 13 * (|items| - i) <= |EntriesFrom(items, i)|
    decreases |items| - i
  {
    if i < |items| {
      EntriesLong(items, i + 1);
    }
  }

  ghost predicate ItemsFit(items: seq<Item>, nextId: nat) {
    DistinctItems(items) && forall i :: 0 <= i < |items| ==> EntryFits(items[i], nextId)
  }

  function IdsOf(items: seq<Item>): set<nat> {
    if items == [] then {} else IdsOf(items[..|items| - 1]) + {items[|items| - 1].id}
  }

  function ValuesOf(items: seq<Item>): set<seq<byte>> {
    if items == [] then {} else ValuesOf(items[..|items| - 1]) + {items[|items| - 1].value}
  }

  lemma {:induction false} HasId(items: seq<Item>, i: nat)
    requires i < |items|
    ensures items[i].id in IdsOf(items) && items[i].value in ValuesOf(items)
  {
    if i < |items| - 1 {
      HasId(items[..|items| - 1], i);
    }
  }

  lemma {:induction false} IdOfItem(items: seq<Item>, id: nat) returns (i: nat)
    requires id in IdsOf(items)
    ensures i < |items| && items[i].id == id
  {
    i := |items| - 1;
    if items[i].id != id {
      i := IdOfItem(items[..|items| - 1], id);
    }
  }

  lemma {:induction false} ValueOfItem(items: seq<Item>, value: seq<byte>) returns (i: nat)
    requires value in ValuesOf(items)
    ensures i < |items| && items[i].value == value
  {
    i := |items| - 1;
    if items[i].value != value {
      i := ValueOfItem(items[..|items| - 1], value);
    }
  }

  /** The id and the string are new. */
  lemma NewItem(items: seq<Item>, item: Item, nextId: nat)
    requires ItemsFit(items, nextId) && EntryFits(item, nextId)
    requires item.id !in IdsOf(items) && item.value !in ValuesOf(items)
    ensures ItemsFit(items + [item], nextId)
  {
    forall i | 0 <= i < |items| ensures items[i].id != item.id && items[i].value != item.value {
      HasId(items, i);
    }
  }

  lemma SeenNext(items: seq<Item>, item: Item)
    ensures IdsOf(items + [item]) == IdsOf(items) + {item.id}
    ensures ValuesOf(items + [item]) == ValuesOf(items) + {item.value}
  {
    assert (items + [item])[..|items|] == items;
  }

  /** How far the entries have been read: all was there in the beginning, want is what may be expected. */
  ghost predicate Progress(all: seq<byte>, items: seq<Item>, rest: seq<byte>, on: bool, want: seq<Item>,
      tail: seq<byte>) {
    && all == Entries(items) + rest
    && (on ==> |items| <= |want| && items == want[..|items|] && rest == EntriesFrom(want, |items|) + tail)
  }

  lemma ProgressStart(all: seq<byte>, on: bool, want: seq<Item>, tail: seq<byte>)
    requires on ==> all == Entries(want) + tail
    ensures Progress(all, [], all, on, want, tail)
  {
    assert Entries([]) + all == all;
    if on {
      EntriesSplit(want, 0);
      assert Entries(want) == EntriesFrom(want, 0);
    }
  }

  lemma ProgressEnd(all: seq<byte>, items: seq<Item>, rest: seq<byte>, on: bool, want: seq<Item>, tail: seq<byte>)
    requires Progress(all, items, rest, on, want, tail) && (on ==> |items| == |want|)
    ensures on ==> items == want && rest == tail
  {
    if on { assert want[..|want|] == want; }
  }

  lemma ProgressNext(all: seq<byte>, items: seq<Item>, rest: seq<byte>, on: bool, want: seq<Item>, tail: seq<byte>,
      item: Item, rest': seq<byte>)
    requires Progress(all, items, rest, on, want, tail) && rest == EntryBytes(item) + rest'
    requires on ==> |items| < |want| && item == want[|items|] && rest' == EntriesFrom(want, |items| + 1) + tail
    ensures Progress(all, items + [item], rest', on, want, tail)
  {
    assert (items + [item])[..|items|] == items;
    assert all == Entries(items) + EntryBytes(item) + rest';
    if on { assert want[..|items| + 1] == want[..|items|] + [item]; }
  }

  /** What is expected has no duplicates either. */
  lemma WantedIsNew(items: seq<Item>, want: seq<Item>, nextId: nat)
    requires |items| < |want| && items == want[..|items|] && ItemsFit(want, nextId)
    ensures want[|items|].id !in IdsOf(items) && want[|items|].value !in ValuesOf(items)
  {
    if want[|items|].id in IdsOf(items) {
      var i := IdOfItem(items, want[|items|].id);
    }
    if want[|items|].value in ValuesOf(items) {
      var i := ValueOfItem(items, want[|items|].value);
    }
  }

  ghost function Wanted(on: bool, want: seq<Item>, i: nat): Item {
    if on && i < |want| then want[i] else Item(0, [])
  }

  ghost function WantedTail(on: bool, want: seq<Item>, i: nat, tail: seq<byte>): seq<byte> {
    if on && i < |want| then EntriesFrom(want, i + 1) + tail else []
  }

  /** A turn of the loop: an entry that repeats neither an id nor a string. */
  method ReadNew(input: InStream, remaining: Option<nat>, nextId: nat, items: seq<Item>, seenIds: set<nat>,
      seenValues: set<seq<byte>>,
                 ghost all: seq<byte>, ghost on: bool, ghost want: seq<Item>, ghost tail: seq<byte>)
      returns (r: Option<Item>, left: Option<nat>)
    requires input.Valid() && nextId <= INVALID_ID && CounterOk(remaining, input.Rest()) && ItemsFit(items, nextId)
    requires Progress(all, items, input.Rest(), on, want, tail) && seenIds == IdsOf(items)
             && seenValues == ValuesOf(items)
    requires on ==> |items| < |want| && ItemsFit(want, nextId)
    modifies input
    ensures input.Valid()
    ensures r.Some? ==> CounterOk(left, input.Rest()) && ItemsFit(items + [r.value], nextId)
    ensures r.Some? ==> Progress(all, items + [r.value], input.Rest(), on, want, tail)
    ensures on ==> r.Some?
  {
    ghost var before := input.Rest();
    if on { WantedIsNew(items, want, nextId); }
    r, left := ReadEntry(input, remaining, nextId, on, Wanted(on, want, |items|), WantedTail(on, want, |items|, tail));
    if r.None? || r.value.id in seenIds || r.value.value in seenValues {
      return None, left;
    }
    NewItem(items, r.value, nextId);
    ProgressNext(all, items, before, on, want, tail, r.value, input.Rest());
  }

  /** The loop over the entries. */
  method ReadEntries(input: InStream, start: Option<nat>, nextId: nat, count: nat, ghost on: bool,
      ghost want: seq<Item>, ghost tail: seq<byte>)
      returns (r: Option<seq<Item>>)
    requires input.Valid() && nextId <= INVALID_ID && CounterOk(start, input.Rest())
    requires on ==> |want| == count && ItemsFit(want, nextId) && input.Rest() == Entries(want) + tail
    modifies input
    ensures input.Valid()
    ensures r.Some? ==>
              |r.value| == count && ItemsFit(r.value, nextId) && old(input.Rest()) == Entries(r.value) + input.Rest()
    ensures on ==> r == Some(want) && input.Rest() == tail
  {
    ghost var all := input.Rest();
    var remaining := start;
    var items: seq<Item> := [];
    var seenIds: set<nat> := {};
    var seenValues: set<seq<byte>> := {};
    ProgressStart(all, on, want, tail);
    while |items| < count
      invariant |items| <= count && input.Valid() && CounterOk(remaining, input.Rest()) && ItemsFit(items, nextId)
      invariant Progress(all, items, input.Rest(), on, want, tail) && seenIds == IdsOf(items)
                && seenValues == ValuesOf(items)
      decreases count - |items|
    {
      var item;
      item, remaining := ReadNew(input, remaining, nextId, items, seenIds, seenValues, all, on, want, tail);
      if item.None? {
        return None;
      }
      SeenNext(items, item.value);
      seenIds := seenIds + {item.value.id};
      seenValues := seenValues + {item.value.value};
      items := items + [item.value];
    }
    ProgressEnd(all, items, input.Rest(), on, want, tail);
    return Some(items);
  }

  // ---------- the whole stream ----------

  datatype Header = Header(version: nat, nextId: nat, profile: nat, count: nat, fingerprint: nat)

  /** Magic, version, next id, profile from version 2 on, count, fingerprint from version 3 on. */
  function HeaderBytes(h: Header): seq<byte> {
    MAGIC + (PodBytes(h.version, 4) + (PodBytes(h.nextId, 4) + ((if h.version >= 2 then PodBytes(h.profile, 1) else [])
    + (PodBytes(h.count, 8) + (if h.version >= 3 then PodBytes(h.fingerprint, 8) else [])))))
  }

  ghost predicate HeaderOk(h: Header) {
    && 1 <= h.version <= FORMAT_VERSION && h.nextId <= INVALID_ID && KnownProfile(h.profile) && h.count <= h.nextId
    && (h.version < 2 ==> h.profile == FAST_LOOKUP) && h.fingerprint < WORD_SIZE
    && (h.version < 3 ==> h.fingerprint == 0)
  }

  function HeaderOf(version: nat, s: Snapshot): Header {
    Header(version, s.nextId, s.profile, |s.items|, if version >= 3 then Hash(OFFSET_BASIS, Covered(s)) else 0)
  }

  /** The stream of a given format version. */
  function Wire(version: nat, s: Snapshot): seq<byte> {
    HeaderBytes(HeaderOf(version, s)) + Entries(s.items)
  }

  /** A saved snapshot byte by byte: the magic, version 4, the next id, the profile, the count, the fingerprint, then
      per entry its id, the size of its string and the string; numbers with their lowest byte first. */
  lemma WireExample()
    ensures var w := Wire(FORMAT_VERSION, Snapshot(258, 7, [Item(1, [97])]));
            && |w| == 46
            && w[..25]
               == [83, 84, 82, 66, 77, 65, 80, 49] + [4, 0, 0, 0] + [2, 1, 0, 0] + [7] + [1, 0, 0, 0, 0, 0, 0, 0]
            && w[33..] == [1, 0, 0, 0] + [1, 0, 0, 0, 0, 0, 0, 0] + [97]
  {
    var s := Snapshot(258, 7, [Item(1, [97])]);
    WireParts(s);
    SampleNumbers();
    assert s.items[..0] == [];
    assert Entries(s.items) == EntryBytes(s.items[0]);
    WireHead(s);
  }

  lemma SampleNumbers()
    ensures PodBytes(4, 4) == [4, 0, 0, 0] && PodBytes(258, 4) == [2, 1, 0, 0] && PodBytes(1, 4) == [1, 0, 0, 0]
    ensures PodBytes(7, 1) == [7] && PodBytes(1, 8) == [1, 0, 0, 0, 0, 0, 0, 0] && PodBytes(0, 1) == [0]
    ensures PodBytes(0, 4) == [0, 0, 0, 0] && PodBytes(0, 8) == [0, 0, 0, 0, 0, 0, 0, 0]
  {
    hide PodBytes;
    PodSmall(4, 4);
    PodSmall(1, 4);
    PodSmall(1, 3);
    PodSmall(7, 1);
    PodSmall(1, 8);
    PodSmall(0, 1);
    PodSmall(0, 4);
    PodSmall(0, 8);
    PodStep(258, 4);
  }

  lemma PodStep(value: nat, n: nat)
    requires n > 0
    ensures PodBytes(value, n) == [(value % 256) as byte] + PodBytes(value / 256, n - 1)
  {
  }

  lemma {:induction false} PodZeros(n: nat)
    ensures forall i :: 0 <= i < n ==> PodBytes(0, n)[i] == 0
  {
    if n > 0 {
      PodZeros(n - 1);
    }
  }

  lemma PodSmall(b: byte, n: nat)
    requires n > 0
    ensures PodBytes(b, n)[0] == b && forall i :: 0 < i < n ==> PodBytes(b, n)[i] == 0
  {
    hide PodBytes;
    PodStep(b, n);
    PodZeros(n - 1);
  }

  /** What a current stream begins with. */
  lemma WireHead(s: Snapshot)
    ensures |Wire(FORMAT_VERSION, s)| >= 25
    ensures Wire(FORMAT_VERSION, s)[..25]
            == MAGIC + PodBytes(FORMAT_VERSION, 4) + PodBytes(s.nextId, 4) + PodBytes(s.profile, 1)
               + PodBytes(|s.items|, 8)
  {
  }

  /** The first bytes of the empty dictionary of the default profile. */
  lemma EmptyWire()
    ensures var w := Wire(FORMAT_VERSION, Snapshot(0, 0, []));
            && |w| == 33
            && w[..25]
               == [83, 84, 82, 66, 77, 65, 80, 49] + [4, 0, 0, 0] + [0, 0, 0, 0] + [0] + [0, 0, 0, 0, 0, 0, 0, 0]
  {
    WireParts(Snapshot(0, 0, []));
    SampleNumbers();
    WireHead(Snapshot(0, 0, []));
  }

  /** What follows the version number. */
  function AfterVersion(h: Header, tail: seq<byte>): seq<byte> {
    PodBytes(h.nextId, 4) + AfterNextId(h, tail)
  }

  function AfterNextId(h: Header, tail: seq<byte>): seq<byte> {
    (if h.version >= 2 then PodBytes(h.profile, 1) else []) + AfterProfile(h, tail)
  }

  function AfterProfile(h: Header, tail: seq<byte>): seq<byte> {
    PodBytes(h.count, 8) + AfterCount(h, tail)
  }

  function AfterCount(h: Header, tail: seq<byte>): seq<byte> {
    (if h.version >= 3 then PodBytes(h.fingerprint, 8) else []) + tail
  }

  lemma HeaderUnfolds(h: Header, tail: seq<byte>)
    ensures HeaderBytes(h) + tail == MAGIC + (PodBytes(h.version, 4) + AfterVersion(h, tail))
  {
    var p := if h.version >= 2 then PodBytes(h.profile, 1) else [];
    var f := if h.version >= 3 then PodBytes(h.fingerprint, 8) else [];
    hide PodBytes;
    var c, n, v := PodBytes(h.count, 8), PodBytes(h.nextId, 4), PodBytes(h.version, 4);
    Regroup(c, f, tail);
    Regroup(p, c + f, tail);
    Regroup(n, p + (c + f), tail);
    Regroup(v, n + (p + (c + f)), tail);
    Regroup(MAGIC, v + (n + (p + (c + f))), tail);
  }

  /** Magic and version. */
  method ReadVersion(input: InStream, ghost on: bool, ghost want: nat, ghost tail: seq<byte>) returns (r: Option<nat>)
    requires input.Valid()
    requires on ==> 1 <= want <= FORMAT_VERSION && input.Rest() == MAGIC + (PodBytes(want, 4) + tail)
    modifies input
    ensures input.Valid()
    ensures r.Some? ==>
              1 <= r.value <= FORMAT_VERSION && old(input.Rest()) == MAGIC + (PodBytes(r.value, 4) + input.Rest())
    ensures on ==> r == Some(want) && input.Rest() == tail
  {
    SmallPowers();
    ghost var all := input.Rest();
    if on { SplitAt(MAGIC, PodBytes(want, 4), tail); }
    var magic := input.Read(8);
    if magic.None? || magic.value != MAGIC {
      return None;
    }
    assert all == all[..8] + all[8..];
    r := ReadNumber(input, 4, on, want, tail);
    if r.Some? && (r.value < 1 || r.value > FORMAT_VERSION) {
      return None;
    }
  }

  /** Next id and profile; the first version had no profile. */
  method ReadIds(input: InStream, version: nat, ghost on: bool, ghost want: Header, ghost tail: seq<byte>)
      returns (r: Option<(nat, nat)>)
    requires input.Valid()
    requires on ==> HeaderOk(want) && want.version == version && input.Rest() == AfterVersion(want, tail)
    modifies input
    ensures input.Valid()
    ensures r.Some? ==> r.value.0 <= INVALID_ID && KnownProfile(r.value.1) && (version < 2 ==> r.value.1 == FAST_LOOKUP)
    ensures r.Some? ==>
              old(input.Rest()) == PodBytes(r.value.0,
                  4) + ((if version >= 2 then PodBytes(r.value.1, 1) else []) + input.Rest())
    ensures on ==> r == Some((want.nextId, want.profile)) && input.Rest() == AfterProfile(want, tail)
  {
    SmallPowers();
    var nextId := ReadNumber(input, 4, on, want.nextId, AfterNextId(want, tail));
    if nextId.None? {
      return None;
    }
    if version < 2 {
      assert [] + input.Rest() == input.Rest();
      return Some((nextId.value, FAST_LOOKUP));
    }
    var raw := ReadNumber(input, 1, on, want.profile, AfterProfile(want, tail));
    if raw.None? || !KnownProfile(raw.value) {
      return None;
    }
    r := Some((nextId.value, raw.value));
  }

  /** Count and fingerprint; the first two versions had no fingerprint. */
  method ReadCount(input: InStream, version: nat, nextId: nat, ghost on: bool, ghost want: Header,
      ghost tail: seq<byte>) returns (r: Option<(nat, nat)>)
    requires input.Valid()
    requires on ==>
               HeaderOk(want) && want.version == version && want.nextId == nextId
               && input.Rest() == AfterProfile(want, tail)
    modifies input
    ensures input.Valid()
    ensures r.Some? ==> r.value.0 <= nextId && r.value.1 < WORD_SIZE && (version < 3 ==> r.value.1 == 0)
    ensures r.Some? ==>
              old(input.Rest()) == PodBytes(r.value.0,
                  8) + ((if version >= 3 then PodBytes(r.value.1, 8) else []) + input.Rest())
    ensures on ==> r == Some((want.count, want.fingerprint)) && input.Rest() == tail
  {
    SmallPowers();
    var count := ReadNumber(input, 8, on, want.count, AfterCount(want, tail));
    if count.None? || count.value > nextId {
      return None;
    }
    if version < 3 {
      assert [] + input.Rest() == input.Rest();
      return Some((count.value, 0));
    }
    var stored := ReadNumber(input, 8, on, want.fingerprint, tail);
    if stored.None? {
      return None;
    }
    r := Some((count.value, stored.value));
  }

  /** The header of a stream. */
  method ReadHeader(input: InStream, ghost on: bool, ghost want: Header, ghost tail: seq<byte>)
      returns (r: Option<Header>)
    requires input.Valid() && (on ==> HeaderOk(want) && input.Rest() == HeaderBytes(want) + tail)
    modifies input
    ensures input.Valid()
    ensures r.Some? ==> HeaderOk(r.value) && old(input.Rest()) == HeaderBytes(r.value) + input.Rest()
    ensures on ==> r == Some(want) && input.Rest() == tail
  {
    if on { HeaderUnfolds(want, tail); }
    var version := ReadVersion(input, on, want.version, AfterVersion(want, tail));
    if version.None? {
      return None;
    }
    var ids := ReadIds(input, version.value, on, want, tail);
    if ids.None? {
      return None;
    }
    var count := ReadCount(input, version.value, ids.value.0, on, want, tail);
    if count.None? {
      return None;
    }
    var h := Header(version.value, ids.value.0, ids.value.1, count.value.0, count.value.1);
    HeaderUnfolds(h, input.Rest());
    r := Some(h);
  }

  lemma HeaderOfSane(version: nat, s: Snapshot)
    requires 1 <= version <= FORMAT_VERSION && Sane(s) && (version < 2 ==> s.profile == FAST_LOOKUP)
    ensures HeaderOk(HeaderOf(version, s))
  {
    HashWord(OFFSET_BASIS, Covered(s));
  }

  lemma SaneItems(s: Snapshot)
    requires Sane(s)
    ensures ItemsFit(s.items, s.nextId) && Encodable(s.items) && 13 * |s.items| <= |Entries(s.items)|
  {
    EntriesLong(s.items, 0);
    EntriesSplit(s.items, 0);
  }

  /** The entries and the comparison of the fingerprints. */
  method ReadBody(input: InStream, h: Header, ghost on: bool, ghost want: Snapshot, ghost tail: seq<byte>)
      returns (r: Option<Snapshot>)
    requires input.Valid() && HeaderOk(h)
    requires on ==> Sane(want) && h == HeaderOf(h.version, want) && input.Rest() == Entries(want.items) + tail
    modifies input
    ensures input.Valid()
    ensures r.Some? ==>
              Sane(r.value) && h == HeaderOf(h.version, r.value)
              && old(input.Rest()) == Entries(r.value.items) + input.Rest()
    ensures on ==> r == Some(want) && input.Rest() == tail
  {
    if on { SaneItems(want); }
    var remaining := input.RemainingBytes();
    if remaining.Some? && h.count > remaining.value / 13 {
      return None;
    }
    var items := ReadEntries(input, remaining, h.nextId, h.count, on, want.items, tail);
    if items.None? {
      return None;
    }
    var s := Snapshot(h.nextId, h.profile, items.value);
    SaneItems(s);
    var fingerprint := Fingerprint(s.nextId, s.profile, s.items);
    if h.version >= 3 && fingerprint != h.fingerprint {
      return None;
    }
    r := Some(s);
  }

  /** load_logical_snapshot: it accepts the images of sane snapshots and nothing else, and gives the snapshot back,
      whether or not the stream tells how much is left of it. */
  method LoadLogicalSnapshot(input: InStream, ghost on: bool, ghost version: nat, ghost want: Snapshot,
      ghost tail: seq<byte>)
      returns (r: Option<Snapshot>, ghost readVersion: nat)
    requires input.Valid()
    requires on ==> 1 <= version <= FORMAT_VERSION && Sane(want) && (version < 2 ==> want.profile == FAST_LOOKUP)
    requires on ==> input.Rest() == Wire(version, want) + tail
    modifies input
    ensures input.Valid()
    ensures r.Some? ==> 1 <= readVersion <= FORMAT_VERSION && Sane(r.value)
    ensures r.Some? ==> old(input.Rest()) == Wire(readVersion, r.value) + input.Rest()
    ensures on ==> r == Some(want) && input.Rest() == tail
  {
    readVersion := 0;
    if on {
      HeaderOfSane(version, want);
      WireTail(version, want, tail);
    }
    var header := ReadHeader(input, on, HeaderOf(version, want), Entries(want.items) + tail);
    if header.None? {
      return None, readVersion;
    }
    readVersion := header.value.version;
    r := ReadBody(input, header.value, on, want, tail);
    if r.Some? {
      WireTail(readVersion, r.value, input.Rest());
    }
  }

  lemma WireTail(version: nat, s: Snapshot, tail: seq<byte>)
    ensures Wire(version, s) + tail == HeaderBytes(HeaderOf(version, s)) + (Entries(s.items) + tail)
  {
  }

  // ---------- a changed byte ----------

  lemma Slices(a: seq<byte>, b: seq<byte>, c: seq<byte>)
    ensures (a + b + c)[..|a|] == a && (a + b + c)[|a|..|a| + |b|] == b && (a + b + c)[|a| + |b|..] == c
  {
  }

  lemma Flat(m: seq<byte>, v: seq<byte>, n: seq<byte>, p: seq<byte>, c: seq<byte>, f: seq<byte>, e: seq<byte>)
    ensures m + (v + (n + (p + (c + f)))) + e == m + v + (n + p + c) + (f + e)
  {
    var ncp := n + p + c;
    assert n + (p + (c + f)) == ncp + f;
    assert v + (ncp + f) == v + ncp + f;
    assert m + (v + ncp + f) == m + v + ncp + f;
  }

  lemma FlatParts(m: seq<byte>, v: seq<byte>, n: seq<byte>, p: seq<byte>, c: seq<byte>, f: seq<byte>, e: seq<byte>,
      w: seq<byte>)
    requires |m| == 8 && |v| == 4 && |n| == 4 && |p| == 1 && |c| == 8 && |f| == 8
    requires w == m + v + (n + p + c) + (f + e)
    ensures |w| == 33 + |e| && w[8..12] == v && w[12..25] == n + p + c && w[17..25] == c && w[25..33] == f
            && w[33..] == e
  {
    Slices(m + v, n + p + c, f + e);
    Slices(m, v, (n + p + c) + (f + e));
    assert w == m + v + ((n + p + c) + (f + e));
    assert w[17..25] == w[12..25][5..];
    assert w[25..33] == w[25..][..8] && w[33..] == w[25..][8..];
  }

  /** Where the parts of a current stream are. */
  lemma WireParts(s: Snapshot)
    ensures var w := Wire(FORMAT_VERSION, s);
            && |w| == 33 + |Entries(s.items)| && w[8..12] == PodBytes(FORMAT_VERSION, 4)
            && w[17..25] == PodBytes(|s.items|, 8) && w[25..33] == PodBytes(Hash(OFFSET_BASIS, Covered(s)), 8)
            && w[33..] == Entries(s.items) && Covered(s) == w[12..25] + w[33..]
  {
    var h := HeaderOf(FORMAT_VERSION, s);
    var v, n, p, c, f := PodBytes(h.version, 4), PodBytes(h.nextId, 4), PodBytes(h.profile, 1), PodBytes(h.count,
        8), PodBytes(h.fingerprint, 8);
    Flat(MAGIC, v, n, p, c, f, Entries(s.items));
    FlatParts(MAGIC, v, n, p, c, f, Entries(s.items), Wire(FORMAT_VERSION, s));
  }

  lemma SamePart(a: seq<byte>, b: seq<byte>, p: nat, i: nat, j: nat)
    requires DiffersAt(a, b, p) && i <= j <= |a| && !(i <= p < j)
    ensures a[i..j] == b[i..j]
  {
    forall k | i <= k < j ensures a[k] == b[k] {
      if k < p {
        assert a[..p][k] == b[..p][k];
      } else {
        assert a[p + 1..][k - p - 1] == b[p + 1..][k - p - 1];
      }
    }
  }

  /** Where entry k begins within the entries. */
  function EntryStart(items: seq<Item>, k: nat): nat
    requires k <= |items|
  {
    |Entries(items[..k])|
  }

  lemma EntryAt(items: seq<Item>, k: nat)
    requires k < |items|
    ensures var e, o, v := Entries(items), EntryStart(items, k), items[k].value;
            && EntryStart(items, k + 1) == o + 12 + |v| <= |e|
            && e[o + 4..o + 12] == PodBytes(|v|, 8)
  {
    hide PodBytes, Entries;
    var item := items[k];
    EntriesSplit(items, k);
    StartNext(items, k);
    MiddlePart(Entries(items[..k]), PodBytes(item.id, 4), PodBytes(|item.value|, 8), item.value,
        EntriesFrom(items, k + 1));
  }

  lemma StartNext(items: seq<Item>, k: nat)
    requires k < |items|
    ensures EntryStart(items, k + 1) == EntryStart(items, k) + |EntryBytes(items[k])|
  {
    assert items[..k + 1][..k] == items[..k];
  }

  lemma MiddlePart(a: seq<byte>, b: seq<byte>, c: seq<byte>, d: seq<byte>, e: seq<byte>)
    ensures var w := a + (b + c + d + e); |w| == |a| + |b| + |c| + |d| + |e| && w[|a| + |b|..|a| + |b| + |c|] == c
  {
    assert a + (b + c + d + e) == (a + b) + c + (d + e);
    Slices(a + b, c, d + e);
  }

  lemma {:induction false} StartsRise(items: seq<Item>, i: nat, j: nat)
    requires i <= j <= |items|
    ensures EntryStart(items, i) <= EntryStart(items, j)
    decreases j
  {
    if i < j {
      StartsRise(items, i, j - 1);
      EntryAt(items, j - 1);
    }
  }

  /** The bytes of the next id, the profile, the ids and the strings of a current stream. */
  ghost predicate Guarded(s: Snapshot, p: nat) {
    12 <= p < 17 || exists k: nat :: GuardedEntry(s, p, k)
  }

  ghost predicate GuardedEntry(s: Snapshot, p: nat, k: nat) {
    k < |s.items| &&
    var o := 33 + EntryStart(s.items, k);
    o <= p < o + 4 || o + 12 <= p < o + 12 + |s.items[k].value|
  }

  /** No guarded byte belongs to the size of an entry, to the count or to the fingerprint. */
  lemma GuardedOutside(s: Snapshot, p: nat, k: nat)
    requires Guarded(s, p) && k < |s.items|
    ensures 12 <= p < |Wire(FORMAT_VERSION, s)| && !(17 <= p < 33)
    ensures var o := 33 + EntryStart(s.items, k); !(o + 4 <= p < o + 12)
  {
    hide Wire, EntryStart, GuardedEntry;
    GuardedPlace(s, p);
    if !(12 <= p < 17) {
      var i: nat :| GuardedEntry(s, p, i);
      GuardedApart(s, p, i, k);
    }
  }

  lemma GuardedApart(s: Snapshot, p: nat, i: nat, k: nat)
    requires GuardedEntry(s, p, i) && k < |s.items|
    ensures var o := 33 + EntryStart(s.items, k); 33 <= p && !(o + 4 <= p < o + 12)
  {
    hide EntryStart;
    EntryAt(s.items, i);
    EntryAt(s.items, k);
    if i < k {
      StartsRise(s.items, i + 1, k);
    } else if k < i {
      StartsRise(s.items, k + 1, i);
    }
  }

  lemma GuardedPlace(s: Snapshot, p: nat)
    requires Guarded(s, p)
    ensures 12 <= p < |Wire(FORMAT_VERSION, s)| && !(17 <= p < 33)
  {
    WireParts(s);
    if !(12 <= p < 17) {
      var i: nat :| GuardedEntry(s, p, i);
      EntryAt(s.items, i);
    }
  }

  /** Streams that differ in a guarded byte only have their entries in the same places. */
  lemma {:induction false} SameStarts(s: Snapshot, t: Snapshot, w: seq<byte>, tail: seq<byte>, p: nat, k: nat)
    requires Sane(s) && Sane(t) && Guarded(s, p) && DiffersAt(Wire(FORMAT_VERSION, s), w, p)
    requires w == Wire(FORMAT_VERSION, t) + tail && |s.items| == |t.items| && k <= |s.items|
    ensures EntryStart(s.items, k) == EntryStart(t.items, k)
  {
    if k > 0 {
      SameStarts(s, t, w, tail, p, k - 1);
      SameSize(s, t, w, tail, p, k - 1);
      EntryAt(s.items, k - 1);
      EntryAt(t.items, k - 1);
    }
  }

  lemma SameSize(s: Snapshot, t: Snapshot, w: seq<byte>, tail: seq<byte>, p: nat, k: nat)
    requires Sane(s) && Sane(t) && Guarded(s, p) && DiffersAt(Wire(FORMAT_VERSION, s), w, p)
    requires w == Wire(FORMAT_VERSION, t) + tail && |s.items| == |t.items| && k < |s.items|
    requires EntryStart(s.items, k) == EntryStart(t.items, k)
    ensures |s.items[k].value| == |t.items[k].value|
  {
    hide Wire, Entries, PodBytes, Hash, Covered, EntryStart;
    var o := 33 + EntryStart(s.items, k);
    GuardedOutside(s, p, k);
    SizeInWire(s, k, o);
    SizeInWire(t, k, o);
    SamePart(Wire(FORMAT_VERSION, s), w, p, o + 4, o + 12);
    SameBytes(w, Wire(FORMAT_VERSION, t), tail, o + 4, o + 12);
    SameNumber(|s.items[k].value|, |t.items[k].value|);
  }

  lemma SizeInWire(s: Snapshot, k: nat, o: nat)
    requires k < |s.items| && o == 33 + EntryStart(s.items, k)
    ensures o + 12 <= |Wire(FORMAT_VERSION, s)|
            && Wire(FORMAT_VERSION, s)[o + 4..o + 12] == PodBytes(|s.items[k].value|, 8)
  {
    hide PodBytes, Entries, Wire, Hash, Covered, EntryStart;
    EntryAt(s.items, k);
    WireParts(s);
    var u := Wire(FORMAT_VERSION, s);
    assert u[o + 4..o + 12] == u[33..][o - 33 + 4..o - 33 + 12];
  }

  lemma SameBytes(w: seq<byte>, x: seq<byte>, tail: seq<byte>, i: nat, j: nat)
    requires w == x + tail && i <= j <= |x|
    ensures w[i..j] == x[i..j]
  {
  }

  /** A 64-bit number is known from its bytes. */
  lemma SameNumber(a: nat, b: nat)
    requires a < WORD_SIZE && b < WORD_SIZE && PodBytes(a, 8) == PodBytes(b, 8)
    ensures a == b
  {
    Pow2Values();
    PodSize(a, 8);
    PodSize(b, 8);
  }

  /** The covered bytes differ where the streams do. */
  lemma CoveredDiffers(s: Snapshot, t: Snapshot, p: nat)
    requires DiffersAt(Wire(FORMAT_VERSION, s), Wire(FORMAT_VERSION, t), p) && 12 <= p && !(25 <= p < 33)
    ensures DiffersAt(Covered(s), Covered(t), if p < 25 then p - 12 else p - 20)
  {
    var u, x := Wire(FORMAT_VERSION, s), Wire(FORMAT_VERSION, t);
    WireParts(s);
    WireParts(t);
    CutDiffers(u, x, p, 12, 25, 33);
  }

  /** Cutting out a part that does not hold the difference leaves one difference. */
  lemma CutDiffers(u: seq<byte>, x: seq<byte>, p: nat, i: nat, j: nat, k: nat)
    requires DiffersAt(u, x, p) && i <= j <= k <= |u| && i <= p && !(j <= p < k)
    ensures DiffersAt(u[i..j] + u[k..], x[i..j] + x[k..], if p < j then p - i else p - i - (k - j))
  {
    var q := if p < j then p - i else p - i - (k - j);
    var a, b := u[i..j] + u[k..], x[i..j] + x[k..];
    forall n | 0 <= n < |a| && n != q ensures a[n] == b[n] {
      var at := if n < j - i then i + n else n - (j - i) + k;
      SamePart(u, x, p, at, at + 1);
      assert u[at..at + 1][0] == x[at..at + 1][0];
    }
    assert a[..q] == b[..q];
    assert a[q + 1..] == b[q + 1..];
  }

  /** No stream that differs from a saved one in a single guarded byte is the image of a snapshot. */
  lemma ChangedByteFails(s: Snapshot, t: Snapshot, version: nat, w: seq<byte>, tail: seq<byte>, p: nat)
    requires Sane(s) && Sane(t) && 1 <= version <= FORMAT_VERSION && Guarded(s, p)
             && DiffersAt(Wire(FORMAT_VERSION, s), w, p)
    ensures w != Wire(version, t) + tail
  {
    hide PodBytes, Hash, Wire, Covered, Entries;
    if w == Wire(version, t) + tail {
      GuardedPlace(s, p);
      SameVersion(s, t, version, w, tail, p);
      SameHeader(s, t, w, tail, p);
      OtherHash(s, t, w, tail, p);
    }
  }

  /** The fingerprint of what is read differs from that of what was saved. */
  lemma OtherHash(s: Snapshot, t: Snapshot, w: seq<byte>, tail: seq<byte>, p: nat)
    requires Sane(s) && Sane(t) && Guarded(s, p) && DiffersAt(Wire(FORMAT_VERSION, s), w, p)
    requires w == Wire(FORMAT_VERSION, t) + tail && |s.items| == |t.items|
    ensures Hash(OFFSET_BASIS, Covered(s)) != Hash(OFFSET_BASIS, Covered(t))
  {
    hide PodBytes, Hash, Wire;
    GuardedPlace(s, p);
    SameStarts(s, t, w, tail, p, |s.items|);
    assert s.items[..|s.items|] == s.items && t.items[..|s.items|] == t.items;
    WireParts(s);
    WireParts(t);
    assert w == Wire(FORMAT_VERSION, t);
    CoveredDiffers(s, t, p);
    OneByteTells(OFFSET_BASIS, Covered(s), Covered(t), if p < 25 then p - 12 else p - 20);
  }

  /** Count and fingerprint are the same. */
  lemma SameHeader(s: Snapshot, t: Snapshot, w: seq<byte>, tail: seq<byte>, p: nat)
    requires Sane(s) && Sane(t) && 12 <= p && !(17 <= p < 33) && DiffersAt(Wire(FORMAT_VERSION, s), w, p)
    requires w == Wire(FORMAT_VERSION, t) + tail
    ensures |s.items| == |t.items| && Hash(OFFSET_BASIS, Covered(s)) == Hash(OFFSET_BASIS, Covered(t))
  {
    hide Wire, Entries, PodBytes, Hash, Covered;
    WireParts(s);
    WireParts(t);
    SamePart(Wire(FORMAT_VERSION, s), w, p, 17, 25);
    SamePart(Wire(FORMAT_VERSION, s), w, p, 25, 33);
    SameBytes(w, Wire(FORMAT_VERSION, t), tail, 17, 25);
    SameBytes(w, Wire(FORMAT_VERSION, t), tail, 25, 33);
    HashWord(OFFSET_BASIS, Covered(s));
    HashWord(OFFSET_BASIS, Covered(t));
    SameNumber(|s.items|, |t.items|);
    SameNumber(Hash(OFFSET_BASIS, Covered(s)), Hash(OFFSET_BASIS, Covered(t)));
  }

  lemma SameVersion(s: Snapshot, t: Snapshot, version: nat, w: seq<byte>, tail: seq<byte>, p: nat)
    requires 1 <= version <= FORMAT_VERSION && 12 <= p && DiffersAt(Wire(FORMAT_VERSION, s), w, p)
    requires w == Wire(version, t) + tail
    ensures version == FORMAT_VERSION
  {
    hide Wire, Entries, PodBytes, Hash, Covered, HeaderBytes, AfterVersion;
    var u := Wire(FORMAT_VERSION, s);
    WireParts(s);
    SamePart(u, w, p, 8, 12);
    WireTail(version, t, tail);
    HeaderUnfolds(HeaderOf(version, t), Entries(t.items) + tail);
    SecondPart(MAGIC, PodBytes(version, 4), AfterVersion(HeaderOf(version, t), Entries(t.items) + tail));
    SmallPowers();
    PodSize(version, 4);
    PodSize(FORMAT_VERSION, 4);
  }

  lemma SecondPart(a: seq<byte>, b: seq<byte>, c: seq<byte>)
    ensures (a + (b + c))[|a|..|a| + |b|] == b
  {
  }

  /** A saved stream with one guarded byte changed is rejected. */
  method LoadChanged(w: seq<byte>, seekable: bool, ghost s: Snapshot, ghost p: nat) returns (r: Option<Snapshot>)
    requires Sane(s) && Guarded(s, p) && DiffersAt(Wire(FORMAT_VERSION, s), w, p)
    ensures r == None
  {
    var input := new InStream(w, seekable);
    ghost var version;
    r, version := LoadLogicalSnapshot(input, false, 0, s, []);
    if r.Some? {
      ChangedByteFails(s, r.value, version, w, input.Rest(), p);
    }
  }
}
