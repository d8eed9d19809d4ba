/** A bucket of the array hash: entries packed one after the other into a byte buffer that
    ends with a marker. A bucket without a buffer is written []. */
module ArrayBucket {
  import opened Options
  import opened Bits
  import opened Keys
  import opened Serialization

  /** The ways the library packs entries: the bytes of a value index, and a NUL after each key or not; and how a table
      grows. */
  datatype Format = Format(indexSize: nat, terminated: bool, growth: nat)

  datatype Entry = Entry(key: Key, index: nat)

  const SIZE_BYTES: nat := 2
  const END_OF_BUCKET: nat := 0xFFFF

  function KeyExtraSize(f: Format): nat {
    if f.terminated then 1 else 0
  }

  function MaxKeySize(f: Format): nat {
    0xFFFF - KeyExtraSize(f) - 1
  }

  /** entry_required_bytes */
  function Required(f: Format, keySize: nat): nat {
    SIZE_BYTES + keySize + KeyExtraSize(f) + f.indexSize
  }

  function Padding(f: Format): seq<byte> {
    if f.terminated then [0] else []
  }

  const MARKER: seq<byte> := [255, 255]

  function EntryBytes(f: Format, e: Entry): (r: seq<byte>)
    ensures |r| == Required(f, |e.key|)
  {
    PodBytes(|e.key|, SIZE_BYTES) + e.key + Padding(f) + PodBytes(e.index, f.indexSize)
  }

  ghost function Image(f: Format, es: seq<Entry>): seq<byte> {
    if es == [] then [] else Image(f, es[..|es| - 1]) + EntryBytes(f, es[|es| - 1])
  }

  /** Where entry i starts; for i == |es|, where the marker is. */
  ghost function Offset(f: Format, es: seq<Entry>, i: nat): nat
    requires i <= |es|
  {
    |Image(f, es[..i])|
  }

  ghost predicate EntryOk(f: Format, e: Entry) {
    |e.key| <= MaxKeySize(f) && e.index < Pow2(8 * f.indexSize)
  }

  ghost predicate EntriesOk(f: Format, es: seq<Entry>) {
    forall i :: 0 <= i < |es| ==> EntryOk(f, es[i])
  }

  /** The buffer holds these entries; whatever follows the marker does not matter. */
  ghost predicate BucketOk(f: Format, buffer: seq<byte>, es: seq<Entry>) {
    && EntriesOk(f, es)
    && if buffer == [] then es == [] else Image(f, es) + MARKER <= buffer
  }

  function ReadKeySize(buffer: seq<byte>, p: nat): nat
    requires p + SIZE_BYTES <= |buffer|
  {
    PodValue(buffer[p..p + SIZE_BYTES])
  }

  function KeyAt(buffer: seq<byte>, p: nat): Key
    requires p + SIZE_BYTES <= |buffer| && p + SIZE_BYTES + ReadKeySize(buffer, p) <= |buffer|
  {
    buffer[p + SIZE_BYTES..p + SIZE_BYTES + ReadKeySize(buffer, p)]
  }

  function IndexPosition(f: Format, buffer: seq<byte>, p: nat): nat
    requires p + SIZE_BYTES <= |buffer|
  {
    p + SIZE_BYTES + ReadKeySize(buffer, p) + KeyExtraSize(f)
  }

  function IndexAt(f: Format, buffer: seq<byte>, p: nat): nat
    requires p + SIZE_BYTES <= |buffer| && IndexPosition(f, buffer, p) + f.indexSize <= |buffer|
  {
    var q := IndexPosition(f, buffer, p);
    PodValue(buffer[q..q + f.indexSize])
  }

  // ---------- images ----------

  lemma {:induction false} ImageSplit(f: Format, es: seq<Entry>, i: nat)
    requires i <= |es|
    ensures Image(f, es) == Image(f, es[..i]) + Image(f, es[i..])
    decreases |es|
  {
    hide EntryBytes;
    if i == |es| {
      assert es[..i] == es;
    } else {
      var front := es[..|es| - 1];
      ImageSplit(f, front, i);
      assert front[..i] == es[..i];
      assert es[i..][..|es| - i - 1] == front[i..];
    }
  }

  lemma ImageOne(f: Format, e: Entry)
    ensures Image(f, [e]) == EntryBytes(f, e)
  {
    assert [e][..0] == [];
  }

  lemma ImageSnoc(f: Format, es: seq<Entry>, e: Entry)
    ensures Image(f, es + [e]) == Image(f, es) + EntryBytes(f, e)
  {
    assert (es + [e])[..|es|] == es;
  }

  /** The image around entry i. */
  lemma ImageAround(f: Format, es: seq<Entry>, i: nat)
    requires i < |es|
    ensures Image(f, es) == Image(f, es[..i]) + EntryBytes(f, es[i]) + Image(f, es[i + 1..])
    ensures Offset(f, es, i + 1) == Offset(f, es, i) + Required(f, |es[i].key|)
    ensures Offset(f, es, i) + Required(f, |es[i].key|) <= |Image(f, es)|
  {
    hide Image, EntryBytes, Required;
    ImageSplit(f, es, i);
    ImageHead(f, es, i);
    OffsetStep(f, es, i);
  }

  lemma ImageHead(f: Format, es: seq<Entry>, i: nat)
    requires i < |es|
    ensures Image(f, es[i..]) == EntryBytes(f, es[i]) + Image(f, es[i + 1..])
  {
    hide Image, EntryBytes;
    assert es[i..][..1] == [es[i]] && es[i..][1..] == es[i + 1..];
    ImageSplit(f, es[i..], 1);
    ImageOne(f, es[i]);
  }

  lemma OffsetStep(f: Format, es: seq<Entry>, i: nat)
    requires i < |es|
    ensures Offset(f, es, i + 1) == Offset(f, es, i) + Required(f, |es[i].key|)
  {
    hide Image, EntryBytes, Required;
    assert es[..i + 1] == es[..i] + [es[i]];
    ImageSnoc(f, es[..i], es[i]);
  }

  lemma OffsetInside(f: Format, buffer: seq<byte>, es: seq<Entry>, i: nat)
    requires BucketOk(f, buffer, es) && buffer != [] && i <= |es|
    ensures Offset(f, es, i) + SIZE_BYTES <= |buffer|
    ensures i == |es| ==> Offset(f, es, i) == |Image(f, es)|
  {
    ImageSplit(f, es, i);
    assert es[..|es|] == es;
  }

  /** The parts of a buffer that begins with three strings. */
  lemma Slices(buffer: seq<byte>, a: seq<byte>, b: seq<byte>, c: seq<byte>)
    requires a + b + c <= buffer
    ensures |a| + |b| + |c| <= |buffer|
    ensures buffer[..|a|] == a && buffer[|a|..|a| + |b|] == b && buffer[|a| + |b|..|a| + |b| + |c|] == c
  {
    var n := |a| + |b| + |c|;
    assert buffer[..n] == a + b + c;
    assert buffer[..|a|] == buffer[..n][..|a|];
    assert buffer[|a|..|a| + |b|] == buffer[..n][|a|..|a| + |b|];
    assert buffer[|a| + |b|..n] == buffer[..n][|a| + |b|..];
  }

  lemma EntrySlice(f: Format, buffer: seq<byte>, es: seq<Entry>, i: nat)
    requires BucketOk(f, buffer, es) && i < |es|
    ensures var p := Offset(f, es, i); var n := p + Required(f, |es[i].key|);
            && n + SIZE_BYTES <= |buffer| && buffer[p..n] == EntryBytes(f, es[i])
            && EntryOk(f, es[i]) && Offset(f, es, i + 1) == n
  {
    hide Image, EntryBytes, EntryOk;
    ImageAround(f, es, i);
    var after := Image(f, es[i + 1..]) + MARKER;
    assert Image(f, es) + MARKER == Image(f, es[..i]) + EntryBytes(f, es[i]) + after;
    Slices(buffer, Image(f, es[..i]), EntryBytes(f, es[i]), after);
  }

  /** What is read at entry i. */
  lemma EntryRead(f: Format, buffer: seq<byte>, es: seq<Entry>, i: nat)
    requires BucketOk(f, buffer, es) && i < |es|
    ensures var p := Offset(f, es, i);
            && p + Required(f, |es[i].key|) + SIZE_BYTES <= |buffer|
            && ReadKeySize(buffer, p) == |es[i].key| != END_OF_BUCKET
            && KeyAt(buffer, p) == es[i].key && IndexAt(f, buffer, p) == es[i].index
            && Offset(f, es, i + 1) == p + Required(f, ReadKeySize(buffer, p))
  {
    hide Image, EntryBytes, BucketOk, PodValue, Pow2, Offset;
    EntrySlice(f, buffer, es, i);
    var e := es[i];
    var p := Offset(f, es, i);
    var s := buffer[p..p + Required(f, |e.key|)];
    BytesRead(f, s, e);
    assert buffer[p..p + 2] == s[..2];
    assert buffer[p + 2..p + 2 + |e.key|] == s[2..2 + |e.key|];
    var q := 2 + |e.key| + KeyExtraSize(f);
    assert buffer[p + q..p + q + f.indexSize] == s[q..];
  }

  lemma BytesRead(f: Format, s: seq<byte>, e: Entry)
    requires s == EntryBytes(f, e) && EntryOk(f, e)
    ensures PodValue(s[..2]) == |e.key| && s[2..2 + |e.key|] == e.key
    ensures PodValue(s[2 + |e.key| + KeyExtraSize(f)..]) == e.index
  {
    assert Pow2(8 * SIZE_BYTES) == 0x10000 by { Pow2Values(); Pow2Add(8, 8); }
    PodBytesRead(|e.key|, SIZE_BYTES);
    PodBytesRead(e.index, f.indexSize);
    assert s[..2] == PodBytes(|e.key|, SIZE_BYTES);
    assert s[2 + |e.key| + KeyExtraSize(f)..] == PodBytes(e.index, f.indexSize);
  }

  /** At the end of the entries stands the marker. */
  lemma MarkerRead(f: Format, buffer: seq<byte>, es: seq<Entry>)
    requires BucketOk(f, buffer, es) && buffer != []
    ensures var p := Offset(f, es, |es|); p + SIZE_BYTES <= |buffer| && ReadKeySize(buffer, p) == END_OF_BUCKET
  {
    assert es[..|es|] == es;
    var p := |Image(f, es)|;
    assert buffer[p..p + 2] == buffer[..p + 2][p..] == MARKER;
    assert MARKER[1..] == [255] && MARKER[1..][1..] == [];
    assert PodValue(MARKER) == 255 + 256 * PodValue(MARKER[1..]);
  }

  // ---------- buffers ----------

  method Malloc(n: nat) returns (r: seq<byte>)
    ensures |r| == n
  {
    r := seq(n, _ => 0);
  }

  method Realloc(buffer: seq<byte>, n: nat) returns (r: seq<byte>)
    ensures |r| == n
    ensures forall i :: 0 <= i < n && i < |buffer| ==> r[i] == buffer[i]
  {
    r := if n <= |buffer| then buffer[..n] else buffer + seq(n - |buffer|, _ => 0);
  }

  /** memcpy into the buffer: the bytes must fit. */
  function Overwrite(buffer: seq<byte>, p: nat, bytes: seq<byte>): (r: seq<byte>)
    requires p + |bytes| <= |buffer|
    ensures |r| == |buffer|
  {
    buffer[..p] + bytes + buffer[p + |bytes|..]
  }

  lemma OverwriteTwice(buffer: seq<byte>, p: nat, a: seq<byte>, b: seq<byte>)
    requires p + |a| + |b| <= |buffer|
    ensures Overwrite(Overwrite(buffer, p, a), p + |a|, b) == Overwrite(buffer, p, a + b)
  {
  }

  /** A fresh bucket with room for so many bytes of entries. */
  method Reserved(f: Format, size: nat) returns (buffer: seq<byte>)
    ensures BucketOk(f, buffer, [])
    ensures size > 0 ==> |buffer| == size + SIZE_BYTES
    ensures size == 0 ==> buffer == []
  {
    if size == 0 {
      return [];
    }
    buffer := Malloc(size + SIZE_BYTES);
    buffer := Overwrite(buffer, 0, MARKER);
  }

  /** append_impl: writes an entry and the marker behind it. */
  method AppendImpl(f: Format, buffer: seq<byte>, p: nat, key: Key, index: nat) returns (r: seq<byte>)
    requires p + Required(f, |key|) + SIZE_BYTES <= |buffer|
    ensures r == Overwrite(buffer, p, EntryBytes(f, Entry(key, index)) + MARKER)
  {
    hide Overwrite, PodBytes;
    var size, tail := PodBytes(|key|, SIZE_BYTES), PodBytes(index, f.indexSize);
    var q := p;
    r := Overwrite(buffer, q, size);
    q := q + SIZE_BYTES;
    OverwriteTwice(buffer, p, size, key);
    r := Overwrite(r, q, key);
    q := q + |key|;
    OverwriteTwice(buffer, p, size + key, Padding(f));
    r := Overwrite(r, q, Padding(f));
    q := q + KeyExtraSize(f);
    OverwriteTwice(buffer, p, size + key + Padding(f), tail);
    r := Overwrite(r, q, tail);
    q := q + f.indexSize;
    OverwriteTwice(buffer, p, size + key + Padding(f) + tail, MARKER);
    r := Overwrite(r, q, MARKER);
  }

  /** Writing an entry over the marker adds it to the bucket. */
  lemma AppendedOk(f: Format, buffer: seq<byte>, es: seq<Entry>, e: Entry)
    requires EntriesOk(f, es) && EntryOk(f, e)
    requires Image(f, es) <= buffer && |Image(f, es)| + Required(f, |e.key|) + SIZE_BYTES <= |buffer|
    ensures BucketOk(f, Overwrite(buffer, |Image(f, es)|, EntryBytes(f, e) + MARKER), es + [e])
  {
    ImageSnoc(f, es, e);
    var image := Image(f, es);
    assert buffer[..|image|] == image;
    assert image + (EntryBytes(f, e) + MARKER) == image + EntryBytes(f, e) + MARKER;
  }

  // ---------- operations ----------

  /** find_or_end_of_bucket_impl: the entry with the key, or the place of the marker. */
  method FindOrEnd(f: Format, buffer: seq<byte>, key: Key, ghost es: seq<Entry>)
      returns (found: bool, p: nat, ghost i: nat)
    requires BucketOk(f, buffer, es) && buffer != []
    ensures i <= |es| && p == Offset(f, es, i)
    ensures found <==> i < |es|
    ensures found ==> es[i].key == key
    ensures !found ==> forall j :: 0 <= j < |es| ==> es[j].key != key
  {
    hide BucketOk, Image, ReadKeySize, IndexAt, KeyAt;
    found, p, i := false, 0, 0;
    OffsetZero(f, es);
    AtEnd(f, buffer, es, 0);
    while ReadKeySize(buffer, p) != END_OF_BUCKET
      invariant i <= |es| && p == Offset(f, es, i) && p + SIZE_BYTES <= |buffer|
      invariant ReadKeySize(buffer, p) == END_OF_BUCKET <==> i == |es|
      invariant forall j :: 0 <= j < i ==> es[j].key != key
      decreases |es| - i
    {
      EntryRead(f, buffer, es, i);
      if ReadKeySize(buffer, p) == |key| && KeyAt(buffer, p) == key {
        return true, p, i;
      }
      p := p + Required(f, ReadKeySize(buffer, p));
      i := i + 1;
      AtEnd(f, buffer, es, i);
    }
  }

  lemma OffsetZero(f: Format, es: seq<Entry>)
    ensures Offset(f, es, 0) == 0
  {
  }

  lemma AtEnd(f: Format, buffer: seq<byte>, es: seq<Entry>, i: nat)
    requires BucketOk(f, buffer, es) && buffer != [] && i <= |es|
    ensures Offset(f, es, i) + SIZE_BYTES <= |buffer|
    ensures ReadKeySize(buffer, Offset(f, es, i)) == END_OF_BUCKET <==> i == |es|
  {
    if i < |es| { EntryRead(f, buffer, es, i); } else { MarkerRead(f, buffer, es); }
  }

  /** append: at the end of the bucket, which is given no buffer before its first entry; no room is made for a key that
      is too long. */
  method Append(f: Format, buffer: seq<byte>, end: nat, key: Key, index: nat, ghost es: seq<Entry>)
      returns (r: Option<seq<byte>>, p: nat)
    requires BucketOk(f, buffer, es) && index < Pow2(8 * f.indexSize)
    requires buffer != [] ==> end == Offset(f, es, |es|)
    ensures r.None? <==> |key| > MaxKeySize(f)
    ensures r.Some? ==> r.value != [] && BucketOk(f, r.value, es + [Entry(key, index)]) && p == Offset(f, es, |es|)
  {
    p := 0;
    if |key| > MaxKeySize(f) {
      return None, p;
    }
    assert es[..|es|] == es;
    var grown: seq<byte>;
    if buffer == [] {
      grown := Malloc(Required(f, |key|) + SIZE_BYTES);
    } else {
      var currentSize := end + SIZE_BYTES;
      var newSize := currentSize + Required(f, |key|);
      grown := Realloc(buffer, newSize);
      p := currentSize - SIZE_BYTES;
      OffsetInside(f, buffer, es, |es|);
      assert grown[..p] == buffer[..p] == Image(f, es);
    }
    AppendedOk(f, grown, es, Entry(key, index));
    grown := AppendImpl(f, grown, p, key, index);
    r := Some(grown);
  }

  /** append_in_reserved_bucket_no_check: the buffer must have the room. */
  method AppendReserved(f: Format, buffer: seq<byte>, key: Key, index: nat, ghost es: seq<Entry>) returns (r: seq<byte>)
    requires BucketOk(f, buffer, es) && EntryOk(f, Entry(key, index))
    requires |Image(f, es)| + Required(f, |key|) + SIZE_BYTES <= |buffer|
    ensures BucketOk(f, r, es + [Entry(key, index)]) && |r| == |buffer|
  {
    ghost var i: nat := 0;
    var p: nat := 0;
    AtEnd(f, buffer, es, 0);
    while ReadKeySize(buffer, p) != END_OF_BUCKET
      invariant i <= |es| && p == Offset(f, es, i) && p + SIZE_BYTES <= |buffer|
      invariant ReadKeySize(buffer, p) == END_OF_BUCKET <==> i == |es|
      decreases |es| - i
    {
      EntryRead(f, buffer, es, i);
      p := p + Required(f, ReadKeySize(buffer, p));
      i := i + 1;
      AtEnd(f, buffer, es, i);
    }
    OffsetInside(f, buffer, es, i);
    AppendedOk(f, buffer, es, Entry(key, index));
    r := AppendImpl(f, buffer, p, key, index);
  }

  lemma NoEntries(f: Format)
    ensures BucketOk(f, [], [])
  {
  }

  ghost function Without(es: seq<Entry>, i: nat): (r: seq<Entry>)
    requires i < |es|
    ensures |r| == |es| - 1
  {
    es[..i] + es[i + 1..]
  }

  lemma OverwriteAt(buffer: seq<byte>, a: seq<byte>, b: seq<byte>, c: seq<byte>)
    requires a <= buffer && |a| + |b| <= |buffer| && c == buffer[|a| + |b|..]
    ensures Overwrite(buffer, |a|, b) == a + b + c
  {
    assert buffer[..|a|] == a;
  }

  lemma WithoutImage(f: Format, es: seq<Entry>, i: nat)
    requires i < |es|
    ensures Image(f, Without(es, i)) == Image(f, es[..i]) + Image(f, es[i + 1..])
    ensures Offset(f, Without(es, i), i) == Offset(f, es, i)
    ensures EntriesOk(f, es) ==> EntriesOk(f, Without(es, i))
  {
    hide Image, EntryOk;
    var rest := Without(es, i);
    assert rest[..i] == es[..i] && rest[i..] == es[i + 1..];
    ImageSplit(f, rest, i);
  }

  /** memmove of the entries behind entry i over it. */
  lemma ErasedOk(f: Format, buffer: seq<byte>, es: seq<Entry>, i: nat, next: nat, end: nat)
    requires BucketOk(f, buffer, es) && i < |es|
    requires next == Offset(f, es, i + 1) && end == |Image(f, es)| + SIZE_BYTES
    ensures next <= end <= |buffer| && Offset(f, es, i) <= next
    ensures BucketOk(f, Overwrite(buffer, Offset(f, es, i), buffer[next..end]), Without(es, i))
    ensures Offset(f, Without(es, i), i) == Offset(f, es, i)
  {
    hide Image, EntryBytes, EntriesOk, Without, Overwrite;
    ImageAround(f, es, i);
    WithoutImage(f, es, i);
    var before, after := Image(f, es[..i]), Image(f, es[i + 1..]) + MARKER;
    assert Image(f, es) + MARKER == before + EntryBytes(f, es[i]) + after;
    Slices(buffer, before, EntryBytes(f, es[i]), after);
    OverwriteAt(buffer, before, after, buffer[|before| + |after|..]);
    assert before + after == Image(f, Without(es, i)) + MARKER;
  }

  /** erase of the entry at a position: the bucket without it, and the entry behind it if there is one. */
  method EraseAt(f: Format, buffer: seq<byte>, start: nat, ghost es: seq<Entry>, ghost i: nat)
      returns (r: seq<byte>, next: Option<nat>)
    requires BucketOk(f, buffer, es) && i < |es| && start == Offset(f, es, i)
    ensures BucketOk(f, r, Without(es, i)) && (r == [] <==> |es| == 1) && Offset(f, Without(es, i), i) == start
    ensures next == if i + 1 < |es| then Some(start) else None
  {
    hide BucketOk, Image, ReadKeySize, Without, KeyAt, IndexAt;
    EntryRead(f, buffer, es, i);
    var startNext := start + Required(f, ReadKeySize(buffer, start));
    var end := startNext;
    ghost var j: nat := i + 1;
    AtEnd(f, buffer, es, j);
    while ReadKeySize(buffer, end) != END_OF_BUCKET
      invariant i < j <= |es| && end == Offset(f, es, j) && end + SIZE_BYTES <= |buffer|
      invariant ReadKeySize(buffer, end) == END_OF_BUCKET <==> j == |es|
      decreases |es| - j
    {
      EntryRead(f, buffer, es, j);
      end := end + Required(f, ReadKeySize(buffer, end));
      j := j + 1;
      AtEnd(f, buffer, es, j);
    }
    OffsetInside(f, buffer, es, j);
    end := end + SIZE_BYTES;
    ErasedOk(f, buffer, es, i, startNext, end);
    r := Overwrite(buffer, start, buffer[startNext..end]);
    OffsetZero(f, Without(es, i));
    AtEnd(f, r, Without(es, i), 0);
    AtEnd(f, r, Without(es, i), i);
    if ReadKeySize(r, 0) == END_OF_BUCKET {
      NoEntries(f);
      assert Without(es, i) == [];
      r := [];
      next := None;
    } else if ReadKeySize(r, start) == END_OF_BUCKET {
      next := None;
    } else {
      next := Some(start);
    }
  }

  lemma OverwrittenPrefix(buffer: seq<byte>, a: seq<byte>, b: seq<byte>, b': seq<byte>, c: seq<byte>)
    requires a + b + c <= buffer && |b| == |b'|
    ensures a + b' + c <= a + b' + buffer[|a| + |b|..]
  {
    Slices(buffer, a, b, c);
    assert buffer[|a| + |b|..][..|c|] == c;
  }

  lemma EntriesSet(f: Format, es: seq<Entry>, i: nat, index: nat)
    requires EntriesOk(f, es) && i < |es| && index < Pow2(8 * f.indexSize)
    ensures EntriesOk(f, es[i := es[i].(index := index)])
  {
    hide Pow2;
  }

  /** The buffer of an entry overwritten by one with another index. */
  lemma IndexSetOk(f: Format, buffer: seq<byte>, es: seq<Entry>, i: nat, index: nat)
    requires BucketOk(f, buffer, es) && i < |es| && index < Pow2(8 * f.indexSize)
    ensures var q := Offset(f, es, i) + SIZE_BYTES + |es[i].key| + KeyExtraSize(f);
            && q + f.indexSize <= |buffer|
            && BucketOk(f, Overwrite(buffer, q, PodBytes(index, f.indexSize)), es[i := es[i].(index := index)])
  {
    hide Image, PodBytes, Overwrite, EntriesOk;
    var e := es[i];
    var es' := es[i := e.(index := index)];
    ImageAround(f, es, i);
    ImageAround(f, es', i);
    assert es'[..i] == es[..i] && es'[i + 1..] == es[i + 1..];
    var before, after := Image(f, es[..i]), Image(f, es[i + 1..]) + MARKER;
    var head := PodBytes(|e.key|, SIZE_BYTES) + e.key + Padding(f);
    var a, b, b' := before + head, PodBytes(e.index, f.indexSize), PodBytes(index, f.indexSize);
    assert Image(f, es) + MARKER == a + b + after;
    assert Image(f, es') + MARKER == a + b' + after;
    Slices(buffer, a, b, after);
    OverwriteAt(buffer, a, b', buffer[|a| + |b|..]);
    OverwrittenPrefix(buffer, a, b, b', after);
    EntriesSet(f, es, i, index);
  }

  /** set_value */
  method SetIndex(f: Format, buffer: seq<byte>, p: nat, index: nat, ghost es: seq<Entry>, ghost i: nat)
      returns (r: seq<byte>)
    requires BucketOk(f, buffer, es) && i < |es| && p == Offset(f, es, i) && index < Pow2(8 * f.indexSize)
    ensures BucketOk(f, r, es[i := es[i].(index := index)]) && |r| == |buffer|
  {
    EntryRead(f, buffer, es, i);
    IndexSetOk(f, buffer, es, i, index);
    r := Overwrite(buffer, IndexPosition(f, buffer, p), PodBytes(index, f.indexSize));
  }

  /** The step of a bucket iterator: the next entry, or none at the marker. */
  method Next(f: Format, buffer: seq<byte>, p: nat, ghost es: seq<Entry>, ghost i: nat) returns (next: Option<nat>)
    requires BucketOk(f, buffer, es) && i < |es| && p == Offset(f, es, i)
    ensures next == if i + 1 < |es| then Some(Offset(f, es, i + 1)) else None
  {
    EntryRead(f, buffer, es, i);
    var q := p + Required(f, ReadKeySize(buffer, p));
    AtEnd(f, buffer, es, i + 1);
    next := if ReadKeySize(buffer, q) == END_OF_BUCKET then None else Some(q);
  }

  /** empty */
  predicate Empty(buffer: seq<byte>)
    requires buffer != [] ==> |buffer| >= SIZE_BYTES
  {
    buffer == [] || ReadKeySize(buffer, 0) == END_OF_BUCKET
  }

  lemma EmptyOk(f: Format, buffer: seq<byte>, es: seq<Entry>)
    requires BucketOk(f, buffer, es)
    ensures buffer != [] ==> |buffer| >= SIZE_BYTES
    ensures Empty(buffer) <==> es == []
  {
    if buffer != [] {
      AtEnd(f, buffer, es, 0);
    }
  }
}
