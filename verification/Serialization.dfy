/** Numbers as little-endian bytes, and the streams they are written to and read from. */
module Serialization {
  import opened Options
  import opened Bits
  import BV = BitVector

  /** The n bytes of a number, lowest first. */
  function PodBytes(value: nat, n: nat): (r: seq<byte>)
    ensures |r| == n
  {
    if n == 0 then [] else [(value % 256) as byte] + PodBytes(value / 256, n - 1)
  }

  function PodValue(bytes: seq<byte>): nat {
    if bytes == [] then 0 else bytes[0] + 256 * PodValue(bytes[1..])
  }

  lemma {:induction false} PodBytesRead(value: nat, n: nat)
    requires value < Pow2(8 * n)
    ensures PodValue(PodBytes(value, n)) == value
    decreases n
  {
    if n > 0 {
      Pow2Add(8, 8 * (n - 1));
      Pow2Values();
      assert value / 256 < Pow2(8 * (n - 1));
      PodBytesRead(value / 256, n - 1);
      assert PodBytes(value, n)[1..] == PodBytes(value / 256, n - 1);
    }
  }

  lemma {:induction false} PodValueWritten(bytes: seq<byte>)
    ensures PodBytes(PodValue(bytes), |bytes|) == bytes && PodValue(bytes) < Pow2(8 * |bytes|)
  {
    if bytes != [] {
      PodValueWritten(bytes[1..]);
      var rest := PodValue(bytes[1..]);
      assert PodValue(bytes) % 256 == bytes[0] && PodValue(bytes) / 256 == rest;
      Pow2Add(8, 8 * (|bytes| - 1));
      Pow2Values();
      assert bytes == [bytes[0]] + bytes[1..];
    }
  }

  lemma {:induction false} PodValueSnoc(bytes: seq<byte>, b: byte)
    ensures PodValue(bytes + [b]) == PodValue(bytes) + b * Pow2(8 * |bytes|)
  {
    if bytes == [] {
      assert ([b])[1..] == [];
    } else {
      var n := |bytes| - 1;
      PodValueSnoc(bytes[1..], b);
      assert (bytes + [b])[1..] == bytes[1..] + [b];
      Pow2Add(8, 8 * n);
      Pow2Values();
      Scale(b, Pow2(8 * n));
    }
  }

  lemma Scale(b: nat, p: nat)
    ensures 256 * (b * p) == b * (256 * p)
  {
  }

  /** for_each_serialized_byte: byte by byte, shifting the number down. */
  method SerializedBytes(value: nat, n: nat) returns (bytes: seq<byte>)
    requires n <= 8 && value < WORD_SIZE
    ensures bytes == PodBytes(value, n)
  {
    bytes := [];
    var encoded := value;
    var i := 0;
    while i < n
      invariant i <= n && PodBytes(value, n) == bytes + PodBytes(encoded, n - i)
    {
      ghost var before := encoded;
      LowByteIs(encoded);
      bytes := bytes + [And(encoded, 0xFF)];
      encoded := Shr(encoded, 8);
      i := i + 1;
    }
  }

  lemma LowByteIs(x: nat)
    ensures And(x, 0xFF) == x % 256 && Shr(x, 8) == x / 256
  {
    Shr8(x);
    AndMask(x, 8);
    Split(x, 8);
    ShiftIsMul(Shr(x, 8), 8);
    LowBound(x, 8);
  }

  // ---------- streams ----------

  class OutStream {
    var data: seq<byte>

    constructor ()
      ensures data == []
    {
      data := [];
    }

    method Write(bytes: seq<byte>)
      modifies this
      ensures data == old(data) + bytes
    {
      data := data + bytes;
    }

    /** write_pod */
    method WritePod(value: nat, n: nat)
      requires n <= 8 && value < WORD_SIZE
      modifies this
      ensures data == old(data) + PodBytes(value, n)
    {
      var bytes := SerializedBytes(value, n);
      Write(bytes);
    }
  }

  class InStream {
    const data: seq<byte>
    /** Whether the stream can tell how much is left of it. */
    const seekable: bool
    var pos: nat

    ghost predicate Valid()
      reads this
    {
      pos <= |data|
    }

    /** What is still to be read. */
    ghost function Rest(): seq<byte>
      reads this
      requires Valid()
    {
      data[pos..]
    }

    constructor (data: seq<byte>, seekable: bool)
      ensures Valid() && this.data == data && this.seekable == seekable && pos == 0
    {
      this.data, this.seekable := data, seekable;
      pos := 0;
    }

    /** istream::read: fails when fewer bytes are left. */
    method Read(n: nat) returns (r: Option<seq<byte>>)
      requires Valid()
      modifies this
      ensures Valid()
      ensures if n <= |old(Rest())| then r == Some(old(Rest())[..n]) && Rest() == old(Rest())[n..] else r.None?
    {
      if |data| - pos < n {
        pos := |data|;
        return None;
      }
      assert data[pos..][..n] == data[pos..pos + n] && data[pos..][n..] == data[pos + n..];
      r := Some(data[pos..pos + n]);
      pos := pos + n;
    }

    /** read_pod */
    method ReadPod(n: nat) returns (r: Option<nat>)
      requires Valid() && n <= 8
      modifies this
      ensures Valid()
      ensures if n <= |old(Rest())| then r == Some(PodValue(old(Rest())[..n]))
              && Rest() == old(Rest())[n..] else r.None?
    {
      var bytes := Read(n);
      if bytes.None? {
        return None;
      }
      var value := ShiftedSum(bytes.value);
      return Some(value);
    }

    /** remaining_bytes */
    method RemainingBytes() returns (r: Option<nat>)
      requires Valid()
      ensures r == if seekable then Some(|Rest()|) else None
    {
      if seekable {
        return Some(|data| - pos);
      }
      return None;
    }

    /** read_string */
    method ReadString(size: nat) returns (r: Option<seq<byte>>)
      requires Valid()
      modifies this
      ensures Valid()
      ensures if size <= |old(Rest())| then r == Some(old(Rest())[..size]) && Rest() == old(Rest())[size..] else r.None?
    {
      if size == 0 {
        return Some([]);
      }
      r := Read(size);
    }

    /** read_string_incremental: the same bytes, in chunks. */
    method ReadStringIncremental(size: nat) returns (r: Option<seq<byte>>)
      requires Valid()
      modifies this
      ensures Valid()
      ensures if size <= |old(Rest())| then r == Some(old(Rest())[..size]) && Rest() == old(Rest())[size..] else r.None?
    {
      ghost var all := Rest();
      var value := [];
      while |value| < size
        invariant Valid() && |value| <= size && |value| <= |all| && value == all[..|value|] && Rest() == all[|value|..]
        decreases size - |value|
      {
        var remaining := size - |value|;
        var chunkSize := if remaining < CHUNK_SIZE then remaining else CHUNK_SIZE;
        var chunk := Read(chunkSize);
        if chunk.None? {
          return None;
        }
        value := value + chunk.value;
      }
      return Some(value);
    }
  }

  const CHUNK_SIZE: nat := 65536

  /** The loop of read_pod: the bytes shifted to their places. */
  method ShiftedSum(bytes: seq<byte>) returns (value: nat)
    requires |bytes| <= 8
    ensures value == PodValue(bytes)
  {
    value := 0;
    var i := 0;
    while i < |bytes|
      invariant i <= |bytes| && value == PodValue(bytes[..i])
    {
      AddByte(bytes[..i], bytes[i]);
      assert bytes[..i + 1] == bytes[..i] + [bytes[i]];
      value := Or(value, Shl(bytes[i], i * 8));
      i := i + 1;
    }
    assert bytes[..i] == bytes;
  }

  lemma AddByte(bytes: seq<byte>, b: byte)
    requires |bytes| < 8
    ensures Or(PodValue(bytes), Shl(b, |bytes| * 8)) == PodValue(bytes + [b])
  {
    var k := 8 * |bytes|;
    assert k == |bytes| * 8;
    PodValueSnoc(bytes, b);
    PodBound(bytes, k);
    AddAbove(PodValue(bytes), k, b);
  }

  lemma PodBound(bytes: seq<byte>, k: nat)
    requires k == 8 * |bytes|
    ensures PodValue(bytes) < Pow2(k)
  {
    PodValueWritten(bytes);
  }

  lemma AddAbove(x: nat, k: nat, b: byte)
    requires x < Pow2(k) && k + 8 <= 64
    ensures Or(x, Shl(b, k)) == x + b * Pow2(k)
  {
    ShiftIsMul(b, k);
    ShiftedFits(b, k, Pow2(k));
    LowOfSmall(Shift(b, k), 64);
    OrComm(x, Shift(b, k));
    OrDisjoint(b, k, x);
  }

  lemma ShiftedFits(b: byte, k: nat, p: nat)
    requires k + 8 <= 64 && p == Pow2(k)
    ensures Shift(b, k) < Pow2(64)
  {
    hide Pow2, Shift;
    ShiftIsMul(b, k);
    Pow2Add(k, 8);
    Shr8(0);
    Pow2Mono(k + 8, 64);
    Grow(b, p);
  }

  lemma Grow(b: byte, p: nat)
    requires p > 0
    ensures b * p < 256 * p
  {
  }
}
