/** A vector of equally wide integers packed into 64-bit words. */
module CompactVector {
  import opened Options
  import opened Bits
  import opened BitVector

  /** Position of the highest set bit; 0 for 0: the primitive msb. */
  function Msb(x: nat): nat {
    if x < 2 then 0 else 1 + Msb(x / 2)
  }

  lemma {:induction false} MsbBounds(x: nat)
    ensures x < Pow2(Msb(x) + 1) && (x > 0 ==> Pow2(Msb(x)) <= x)
  {
    if x >= 2 {
      MsbBounds(x / 2);
    }
  }

  function NeededBits(x: nat): nat {
    Msb(x) + 1
  }

  lemma MsbMono(x: nat, n: nat)
    requires x < Pow2(n) && n > 0
    ensures NeededBits(x) <= n
  {
    MsbBounds(x);
    if x > 0 && n <= Msb(x) {
      Pow2Mono(n, Msb(x));
    }
  }

  datatype CompactVector = CompactVector(size: nat, width: nat, mask: nat, chunks: seq<nat>)

  // ---------- words, bit by bit ----------

  ghost predicate MaskOk(mask: nat, b: nat) {
    forall k: nat :: Bit(mask, k) <==> k < b
  }

  lemma OnesMask(b: nat)
    ensures MaskOk(Pow2(b) - 1, b)
  {
    var m := Pow2(b) - 1;
    forall k: nat ensures Bit(m, k) == (k < b) {
      OnesMaskBit(b, k);
    }
  }

  lemma {:induction false} OnesMaskBit(b: nat, k: nat)
    ensures Bit(Pow2(b) - 1, k) <==> k < b
    decreases k
  {
    if b == 0 {
      ZeroBit(k);
    } else {
      var m := Pow2(b) - 1;
      assert m % 2 == 1 && m / 2 == Pow2(b - 1) - 1;
      if k > 0 { OnesMaskBit(b - 1, k - 1); }
    }
  }

  lemma PowerInRegister(b: nat, n: nat)
    requires b < n
    ensures Low(Shift(1, b), n) == Pow2(b)
  {
    ShiftIsMul(1, b);
    Pow2Mono(b, n - 1);
    LowOfSmall(Shift(1, b), n);
  }

  /** The part of a value written to its first word. */
  lemma WriteLow(c: nat, mask: nat, value: nat, b: nat, mod: nat, k: nat)
    requires MaskOk(mask, b) && k < 64
    ensures Bit(Or(And(c, Not(Shl(mask, mod), 64)), Shl(And(value, mask), mod)), k)
            == if mod <= k < mod + b then Bit(value, k - mod) else Bit(c, k)
  {
    OrBit(And(c, Not(Shl(mask, mod), 64)), Shl(And(value, mask), mod), k);
    AndBit(c, Not(Shl(mask, mod), 64), k);
    NotBit(Shl(mask, mod), 64, k);
    ShlBit(mask, mod, k);
    ShlBit(And(value, mask), mod, k);
    if mod <= k {
      AndBit(value, mask, k - mod);
    }
  }

  /** The rest of a value, written to the next word. */
  lemma WriteHigh(c: nat, mask: nat, value: nat, b: nat, diff: nat, k: nat)
    requires MaskOk(mask, b) && k < 64
    ensures Bit(Or(And(c, Not(Shr(mask, diff), 64)), Shr(And(value, mask), diff)), k)
            == if k + diff < b then Bit(value, k + diff) else Bit(c, k)
  {
    OrBit(And(c, Not(Shr(mask, diff), 64)), Shr(And(value, mask), diff), k);
    AndBit(c, Not(Shr(mask, diff), 64), k);
    NotBit(Shr(mask, diff), 64, k);
    ShrBit(mask, diff, k);
    ShrBit(And(value, mask), diff, k);
    AndBit(value, mask, k + diff);
  }

  ghost predicate BitOk(chunks: seq<nat>, pos: nat, value: nat, t: nat) {
    (pos + t) / 64 < |chunks| && BitAt(chunks, pos + t) == Bit(value, t)
  }

  /** The b bits from pos are those of value. */
  ghost predicate Holds(chunks: seq<nat>, b: nat, pos: nat, value: nat) {
    forall t: nat :: t < b ==> BitOk(chunks, pos, value, t)
  }

  /** Element i lies at bit i * b. */
  function Offset(i: nat, b: nat): nat {
    if i == 0 then 0 else Offset(i - 1, b) + b
  }

  lemma {:induction false} OffsetIsMul(i: nat, b: nat)
    ensures Offset(i, b) == i * b
  {
    if i > 0 {
      OffsetIsMul(i - 1, b);
    }
  }

  lemma {:induction false} OffsetMono(i: nat, j: nat, b: nat)
    requires i < j
    ensures Offset(i, b) + b <= Offset(j, b)
    decreases j
  {
    if i + 1 < j {
      OffsetMono(i, j - 1, b);
    }
  }

  /** Clearing bits and setting 64-bit ones keeps a register. */
  lemma MergeFits(c: nat, m: nat, x: nat)
    requires c < WORD_SIZE && x < WORD_SIZE
    ensures Or(And(c, m), x) < WORD_SIZE
  {
    forall i: nat | 64 <= i ensures !Bit(Or(And(c, m), x), i) {
      OrBit(And(c, m), x, i);
      AndBit(c, m, i);
      WordBits(c, i);
      WordBits(x, i);
    }
    WordFromBits(Or(And(c, m), x));
  }

  lemma ShlFits(x: nat, k: nat)
    ensures Shl(x, k) < WORD_SIZE
  {
    forall i: nat | 64 <= i ensures !Bit(Shl(x, k), i) {
      ShlBit(x, k, i);
    }
    WordFromBits(Shl(x, k));
  }

  lemma MaskedFits(value: nat, mask: nat, b: nat, k: nat)
    requires MaskOk(mask, b) && b <= 64
    ensures Shr(And(value, mask), k) < WORD_SIZE
  {
    forall i: nat | 64 <= i ensures !Bit(Shr(And(value, mask), k), i) {
      ShrBit(And(value, mask), k, i);
      AndBit(value, mask, i + k);
    }
    WordFromBits(Shr(And(value, mask), k));
  }

  /** Writing the b bits at pos, across a word boundary if need be. */
  method WriteBits(chunks: seq<nat>, mask: nat, value: nat, b: nat, pos: nat) returns (r: seq<nat>)
    requires 0 < b <= 63 && MaskOk(mask, b) && pos + b <= 64 * |chunks|
    requires forall k :: 0 <= k < |chunks| ==> chunks[k] < WORD_SIZE
    ensures |r| == |chunks| && Holds(r, b, pos, value)
    ensures forall k :: 0 <= k < |r| ==> r[k] < WORD_SIZE
    ensures forall p: nat {:trigger BitAt(r, p)} :: p < 64 * |r| && !(pos <= p < pos + b) ==>
              BitAt(r, p) == BitAt(chunks, p)
  {
    var quo, mod := pos / 64, pos % 64;
    ShlFits(And(value, mask), mod);
    MergeFits(chunks[quo], Not(Shl(mask, mod), 64), Shl(And(value, mask), mod));
    if 64 < mod + b {
      MaskedFits(value, mask, b, 64 - mod);
      MergeFits(chunks[quo + 1], Not(Shr(mask, 64 - mod), 64), Shr(And(value, mask), 64 - mod));
    }
    r := chunks;
    r := r[quo := And(r[quo], Not(Shl(mask, mod), 64))];
    r := r[quo := Or(r[quo], Shl(And(value, mask), mod))];
    if 64 < mod + b {
      var diff := 64 - mod;
      r := r[quo + 1 := And(r[quo + 1], Not(Shr(mask, diff), 64))];
      r := r[quo + 1 := Or(r[quo + 1], Shr(And(value, mask), diff))];
    }
    forall p: nat | p < 64 * |r|
      ensures BitAt(r, p) == if pos <= p < pos + b then Bit(value, p - pos) else BitAt(chunks, p)
    {
      var k := p % 64;
      if p / 64 == quo {
        WriteLow(chunks[quo], mask, value, b, mod, k);
      } else if p / 64 == quo + 1 && 64 < mod + b {
        WriteHigh(chunks[quo + 1], mask, value, b, 64 - mod, k);
      }
    }
    forall t: nat | t < b ensures BitOk(r, pos, value, t) {
      assert BitAt(r, pos + t) == Bit(value, t);
    }
  }

  // ---------- construction and access ----------

  ghost predicate Valid(v: CompactVector) {
    && 0 < v.width <= 63 && MaskOk(v.mask, v.width)
    && Offset(v.size, v.width) <= 64 * |v.chunks|
    && forall k :: 0 <= k < |v.chunks| ==> v.chunks[k] < WORD_SIZE
  }

  /** v stores the elements of vec. */
  ghost predicate Stores(v: CompactVector, vec: seq<nat>) {
    && Valid(v) && v.size == |vec|
    && forall i: nat :: i < |vec| ==> StoredAt(v, vec, i)
  }

  ghost predicate StoredAt(v: CompactVector, vec: seq<nat>, i: nat)
    requires i < |vec|
  {
    vec[i] < Pow2(v.width) && Holds(v.chunks, v.width, Offset(i, v.width), vec[i])
  }

  method MaxElement(vec: seq<nat>) returns (m: nat)
    requires vec != []
    ensures m in vec && forall i :: 0 <= i < |vec| ==> vec[i] <= m
  {
    m := vec[0];
    var i := 1;
    while i < |vec|
      invariant 1 <= i <= |vec| && m in vec
      invariant forall j :: 0 <= j < i ==> vec[j] <= m
    {
      if m < vec[i] {
        m := vec[i];
      }
      i := i + 1;
    }
  }

  /** One bit at least, and no more than the greatest element needs. */
  ghost predicate LeastWidth(width: nat, vec: seq<nat>) {
    width > 0 && (width > 1 ==> exists i :: 0 <= i < |vec| && Pow2(width - 1) <= vec[i])
  }

  /** Builds the packed vector; the empty list is refused. */
  method Build(vec: seq<nat>) returns (r: Option<CompactVector>)
    requires forall i :: 0 <= i < |vec| ==> vec[i] < Pow2(63)
    ensures r.Some? <==> vec != []
    ensures r.Some? ==> Stores(r.value, vec) && LeastWidth(r.value.width, vec)
  {
    if vec == [] {
      return None;
    }
    var top := MaxElement(vec);
    var width := NeededBits(top);
    MsbMono(top, 63);
    var mask := Shl(1, width) - 1;
    PowerInRegister(width, 64);
    OnesMask(width);
    var chunks := FillChunks(vec, width, mask);
    OffsetIsMul(|vec|, width);
    var v := CompactVector(|vec|, width, mask, chunks);
    MsbBounds(top);
    forall x: nat | x < |vec| ensures StoredAt(v, vec, x) {
      assert FilledAt(chunks, vec, width, x);
      MsbBounds(top);
    }
    return Some(v);
  }

  ghost predicate FilledAt(chunks: seq<nat>, vec: seq<nat>, width: nat, x: nat)
    requires x < |vec|
  {
    Holds(chunks, width, Offset(x, width), vec[x])
  }

  function WordsFor(bits: nat): (r: nat)
    ensures bits <= 64 * r
  {
    (bits + 63) / 64
  }

  /** The loop of the constructor. */
  method FillChunks(vec: seq<nat>, width: nat, mask: nat) returns (chunks: seq<nat>)
    requires 0 < width <= 63 && MaskOk(mask, width)
    ensures Offset(|vec|, width) <= 64 * |chunks|
    ensures forall x: nat :: x < |vec| ==> FilledAt(chunks, vec, width, x)
    ensures forall k :: 0 <= k < |chunks| ==> chunks[k] < WORD_SIZE
  {
    OffsetIsMul(|vec|, width);
    var words := WordsFor(|vec| * width);
    chunks := seq(words, i => 0);
    var i := 0;
    while i < |vec|
      invariant i <= |vec| && |chunks| == words
      invariant forall x: nat :: x < i ==> FilledAt(chunks, vec, width, x)
      invariant forall k :: 0 <= k < |chunks| ==> chunks[k] < WORD_SIZE
    {
      OffsetIsMul(i, width);
      OffsetMono(i, |vec|, width);
      ghost var was := chunks;
      chunks := WriteBits(chunks, mask, vec[i], width, i * width);
      forall x: nat | x < i ensures FilledAt(chunks, vec, width, x) {
        assert FilledAt(was, vec, width, x);
        OffsetMono(x, i, width);
        StillHolds(was, chunks, width, Offset(x, width), vec[x], i * width);
      }
      i := i + 1;
    }
  }

  /** A write further up disturbs nothing. */
  lemma StillHolds(chunks: seq<nat>, chunks': seq<nat>, b: nat, pos: nat, value: nat, next: nat)
    requires |chunks'| == |chunks| && Holds(chunks, b, pos, value) && pos + b <= next
    requires forall p: nat {:trigger BitAt(chunks', p)} :: p < 64 * |chunks'| && !(next <= p < next + b) ==>
               BitAt(chunks', p) == BitAt(chunks, p)
    ensures Holds(chunks', b, pos, value)
  {
    forall t: nat | t < b ensures BitOk(chunks', pos, value, t) {
      assert BitOk(chunks, pos, value, t);
    }
  }

  /** Element i. */
  function Get(v: CompactVector, i: nat): nat
    requires Valid(v) && i < v.size
  {
    OffsetMono(i, v.size, v.width);
    OffsetIsMul(i, v.width);
    var quo, mod := i * v.width / 64, i * v.width % 64;
    if mod + v.width <= 64 then And(Shr(v.chunks[quo], mod), v.mask)
    else And(Or(Shr(v.chunks[quo], mod), Shl(v.chunks[quo + 1], 64 - mod)), v.mask)
  }

  /** Reading back gives the element that was stored. */
  lemma GetStored(v: CompactVector, vec: seq<nat>, i: nat)
    requires Stores(v, vec) && i < |vec|
    ensures Get(v, i) == vec[i]
  {
    OffsetMono(i, v.size, v.width);
    OffsetIsMul(i, v.width);
    assert StoredAt(v, vec, i);
    forall k: nat ensures Bit(Get(v, i), k) == Bit(vec[i], k) {
      GetBit(v, i, vec[i], k);
    }
    SameBits(Get(v, i), vec[i]);
  }

  lemma GetBit(v: CompactVector, i: nat, value: nat, k: nat)
    requires Valid(v) && i < v.size && value < Pow2(v.width) && Holds(v.chunks, v.width, Offset(i, v.width), value)
    ensures Bit(Get(v, i), k) == Bit(value, k)
  {
    OffsetMono(i, v.size, v.width);
    OffsetIsMul(i, v.width);
    var pos := i * v.width;
    var quo, mod := pos / 64, pos % 64;
    var low := Shr(v.chunks[quo], mod);
    if v.width <= k { HighBitsClear(value, v.width, k); }
    if mod + v.width <= 64 {
      AndBit(low, v.mask, k);
      ShrBit(v.chunks[quo], mod, k);
    } else {
      var high := Shl(v.chunks[quo + 1], 64 - mod);
      AndBit(Or(low, high), v.mask, k);
      OrBit(low, high, k);
      ShrBit(v.chunks[quo], mod, k);
      ShlBit(v.chunks[quo + 1], 64 - mod, k);
      if 64 <= k + mod { WordBits(v.chunks[quo], k + mod); }
    }
    if k < v.width {
      assert BitOk(v.chunks, pos, value, k);
      FlatBit(pos, k);
    }
  }

  /** Where bit pos + k lies. */
  lemma FlatBit(pos: nat, k: nat)
    requires k < 64
    ensures if pos % 64 + k < 64 then (pos + k) / 64 == pos / 64 && (pos + k) % 64 == pos % 64 + k
            else (pos + k) / 64 == pos / 64 + 1 && (pos + k) % 64 == pos % 64 + k - 64
  {
  }
}
