/** Rank9: a bit vector with constant-time rank and sampled select. */
module BitVector {
  import opened Options
  import opened Bits
  import opened Packed

  // ---------- counting, independently of the hints ----------

  /** Number of true entries among the first i. */
  function Count(s: seq<bool>, i: nat): (r: nat)
    requires i <= |s|
    ensures r <= i
  {
    if i == 0 then 0 else Count(s, i - 1) + (if s[i - 1] then 1 else 0)
  }

  lemma {:induction false} CountMono(s: seq<bool>, i: nat, j: nat)
    requires i <= j <= |s|
    ensures Count(s, i) <= Count(s, j) <= Count(s, i) + (j - i)
    decreases j
  {
    if i < j {
      CountMono(s, i, j - 1);
    }
  }

  lemma {:induction false} CountPrefix(s: seq<bool>, t: seq<bool>, i: nat)
    requires i <= |s| && i <= |t| && s[..i] == t[..i]
    ensures Count(s, i) == Count(t, i)
  {
    if i > 0 {
      assert s[..i - 1] == s[..i][..i - 1] == t[..i - 1];
      assert s[i - 1] == s[..i][i - 1] == t[..i][i - 1];
      CountPrefix(s, t, i - 1);
    }
  }

  /** The true entries are numbered without gaps: rank is injective on them. */
  lemma CountStrict(s: seq<bool>, i: nat, j: nat)
    requires i < j <= |s| && s[i]
    ensures Count(s, i) < Count(s, j)
  {
    CountMono(s, i + 1, j);
  }

  // ---------- words ----------

  ghost predicate WordsOk(bits: seq<nat>) {
    forall i :: 0 <= i < |bits| ==> bits[i] < WORD_SIZE
  }

  function BitAt(bits: seq<nat>, i: nat): bool
    requires i / 64 < |bits|
  {
    Bit(bits[i / 64], i % 64)
  }

  /** The first size bits. */
  function Bools(bits: seq<nat>, size: nat): (r: seq<bool>)
    requires size <= 64 * |bits|
    ensures |r| == size && forall i :: 0 <= i < size ==> r[i] == BitAt(bits, i)
  {
    seq(size, i requires 0 <= i < size => BitAt(bits, i))
  }

  /** Set bits in the first w words; all of them when there are fewer. */
  function CountWords(bits: seq<nat>, w: nat): (r: nat)
    decreases w
  {
    if w == 0 then 0 else CountWords(bits, w - 1) + (if w <= |bits| then Ones(bits[w - 1]) else 0)
  }

  lemma AllOnes(bits: seq<nat>, w: nat)
    requires WordsOk(bits) && w < |bits|
    ensures bits[w] < Pow2(64) && Ones(bits[w]) == OnesBelow(bits[w], 64)
  {
    Pow2Values();
    OnesCountsBits(bits[w], 64);
  }

  lemma OnesBound(x: nat, n: nat)
    requires x < Pow2(n)
    ensures Ones(x) <= n
  {
    OnesCountsBits(x, n);
  }

  lemma WordOnes(bits: seq<nat>, w: nat)
    requires WordsOk(bits) && w < |bits|
    ensures Ones(bits[w]) <= 64
  {
    Pow2Values();
    OnesBound(bits[w], 64);
  }

  lemma {:induction false} CountWordsMono(bits: seq<nat>, v: nat, w: nat)
    requires v <= w && WordsOk(bits)
    ensures CountWords(bits, v) <= CountWords(bits, w) <= CountWords(bits, v) + 64 * (w - v)
    decreases w
  {
    if v < w {
      CountWordsMono(bits, v, w - 1);
      if w <= |bits| { WordOnes(bits, w - 1); }
    }
  }

  lemma {:induction false} CountWordsAll(bits: seq<nat>, w: nat)
    requires |bits| <= w
    ensures CountWords(bits, w) == CountWords(bits, |bits|)
    decreases w
  {
    if |bits| < w {
      CountWordsAll(bits, w - 1);
    }
  }

  lemma CountOneMore(bits: seq<nat>, size: nat, w: nat, j: nat)
    requires size <= 64 * |bits| && 64 * w + j < size && j < 64 && w < |bits|
    ensures Count(Bools(bits, size), 64 * w + j + 1) == Count(Bools(bits, size),
        64 * w + j) + (if Bit(bits[w], j) then 1 else 0)
  {
    hide Bit;
    DivMod64(w, j);
    assert Bools(bits, size)[64 * w + j] == BitAt(bits, 64 * w + j);
  }

  /** Set bits before bit j of word w. */
  lemma {:induction false} CountInWord(bits: seq<nat>, size: nat, w: nat, j: nat)
    requires size <= 64 * |bits| && 64 * w + j <= size && j <= 64 && WordsOk(bits)
    requires w < |bits|
    ensures Count(Bools(bits, size), 64 * w + j) == CountWords(bits, w) + OnesBelow(bits[w], j)
    decreases w, j
  {
    hide WordsOk, Bit, Bools, Count, Ones, Pow2, BitAt;
    if j > 0 {
      CountInWord(bits, size, w, j - 1);
      CountOneMore(bits, size, w, j - 1);
    } else if w > 0 {
      CountInWord(bits, size, w - 1, 64);
      AllOnes(bits, w - 1);
    }
  }

  // ---------- builder ----------

  /** bit_vector::builder: bits are appended and set in place in 64-bit words. */
  class Builder {
    var size: nat
    var bits: seq<nat>

    ghost predicate Valid()
      reads this
    {
      && WordsOk(bits) && |bits| == (size + 63) / 64
      && forall i: nat {:trigger BitAt(bits, i)} :: size <= i < 64 * |bits| ==> !BitAt(bits, i)
    }

    ghost function Contents(): seq<bool>
      reads this
      requires Valid()
    {
      Bools(bits, size)
    }

    constructor ()
      ensures Valid() && Contents() == []
    {
      size := 0;
      bits := [];
    }

    function Get(i: nat): (r: bool)
      reads this
      requires Valid() && i < size
      ensures r == Contents()[i]
    {
      TestBit(bits[i / 64], i % 64);
      And(bits[i / 64], Shl(1, i % 64)) != 0
    }

    method SetBit(i: nat, x: bool)
      requires Valid() && i < size
      modifies this
      ensures Valid() && Contents() == old(Contents())[i := x]
    {
      var w, j := i / 64, i % 64;
      if x {
        SetBitOf(bits[w], j);
        bits := bits[w := Or(bits[w], Shl(1, j))];
      } else {
        ClearBitOf(bits[w], j);
        bits := bits[w := And(bits[w], Not(Shl(1, j), 64))];
      }
      forall k: nat | k < 64 * |bits| ensures BitAt(bits, k) == if k == i then x else BitAt(old(bits), k) {
        assert k / 64 == w && k % 64 == j ==> k == i;
      }
    }

    method PushBack(x: bool)
      requires Valid()
      modifies this
      ensures Valid() && Contents() == old(Contents()) + [x]
    {
      if size % 64 == 0 {
        bits := bits + [0];
        forall k: nat | size <= k < 64 * |bits| ensures !BitAt(bits, k) {
          ZeroBit(k % 64);
        }
      }
      assert Bools(bits, size) == old(Contents());
      size := size + 1;
      assert Contents() == old(Contents()) + [false];
      if x {
        SetBit(size - 1, true);
      }
    }
  }

  // ---------- rank hints ----------

  const BLOCK_SIZE: nat := 8

  /** The sub-ranks of block b: set bits in its first 1 to 7 words. */
  ghost function SubRanks(bits: seq<nat>, b: nat): (r: seq<nat>)
    ensures |r| == 7
    ensures WordsOk(bits) ==> forall j :: 0 <= j < 7 ==>
              r[j] == CountWords(bits, 8 * b + 1 + j) - CountWords(bits, 8 * b)
  {
    seq(7, j requires 0 <= j < 7 => SubRank(bits, b, j))
  }

  ghost function SubRank(bits: seq<nat>, b: nat, j: nat): (r: nat)
    ensures WordsOk(bits) ==> r == CountWords(bits, 8 * b + 1 + j) - CountWords(bits, 8 * b)
  {
    if WordsOk(bits) then CountWordsMono(bits, 8 * b, 8 * b + 1 + j); CountWords(bits, 8 * b + 1 + j) - CountWords(bits,
        8 * b)
    else 0
  }

  lemma SubRanksFit(bits: seq<nat>, b: nat)
    requires WordsOk(bits)
    ensures FieldsOk(SubRanks(bits, b), 9)
    ensures forall i, j :: 0 <= i < j < 7 ==> SubRanks(bits, b)[i] <= SubRanks(bits, b)[j]
  {
    assert Pow2(9) == 512;
    var r := SubRanks(bits, b);
    forall j | 0 <= j < 7 ensures r[j] < 512 {
      CountWordsMono(bits, 8 * b, 8 * b + 1 + j);
    }
    forall i, j | 0 <= i < j < 7 ensures r[i] <= r[j] {
      CountWordsMono(bits, 8 * b + 1 + i, 8 * b + 1 + j);
    }
  }

  /** Set bits before block b. */
  ghost function BlockRank(bits: seq<nat>, b: nat): nat {
    CountWords(bits, 8 * b)
  }

  /** The two hints of block x. */
  ghost predicate HintAt(bits: seq<nat>, hints: seq<nat>, x: nat) {
    && 2 * x + 1 < |hints|
    && hints[2 * x] == BlockRank(bits, x) && hints[2 * x + 1] == Pack(SubRanks(bits, x), 9)
  }

  /** The hints of the first b blocks, and the rank before block b. */
  ghost predicate HintsUpTo(bits: seq<nat>, hints: seq<nat>, b: nat) {
    && |hints| >= 2 * b + 1 && hints[2 * b] == BlockRank(bits, b)
    && forall x: nat :: x < b ==> HintAt(bits, hints, x)
  }

  /** What build_rank_hints leaves behind. The sentinel pair of a partial last block repeats
      its packed sub-ranks where a total might be expected. */
  ghost predicate RankHintsOk(bits: seq<nat>, hints: seq<nat>) {
    var full := |bits| / 8;
    && WordsOk(bits)
    && HintsUpTo(bits, hints, full)
    && if |bits| % 8 == 0 then |hints| == 2 * full + 2
       else |hints| == 2 * full + 4 && hints[2 * full + 1] == hints[2 * full + 2] == Pack(SubRanks(bits, full), 9)
  }

  /** The registers of build_rank_hints before word 8 * b + r. */
  ghost predicate HintState(bits: seq<nat>, b: nat, r: nat, ones: nat, onesInBlock: nat, ranksInBlock: nat,
      hints: seq<nat>) {
    && r < 8 && 8 * b + r <= |bits|
    && ones == CountWords(bits, 8 * b + r)
    && onesInBlock + BlockRank(bits, b) == ones
    && ranksInBlock == Pack(SubRanks(bits, b)[..if r == 0 then 0 else r - 1], 9)
    && |hints| == 2 * b + 1 && HintsUpTo(bits, hints, b)
  }

  lemma HintStep(bits: seq<nat>, b: nat, r: nat, ones: nat, onesInBlock: nat, ranks: nat, ranks': nat, hints: seq<nat>)
    requires WordsOk(bits) && HintState(bits, b, r, ones, onesInBlock, ranks, hints) && 8 * b + r < |bits|
    requires ranks' == if r != 0 then Or(Shl(ranks, 9), onesInBlock) else ranks
    ensures var w := Ones(bits[8 * b + r]);
            && (r < 7 ==> HintState(bits, b, r + 1, ones + w, onesInBlock + w, ranks', hints))
            && (r == 7 ==> HintState(bits, b + 1, 0, ones + w, 0, 0, hints + [ranks'] + [ones + w]))
  {
    var w := Ones(bits[8 * b + r]);
    if r != 0 {
      PushField(bits, b, r - 1);
    }
    assert ranks' == Pack(SubRanks(bits, b)[..r], 9);
    if r == 7 {
      assert SubRanks(bits, b)[..7] == SubRanks(bits, b);
      ExtendHints(bits, hints, b);
      assert hints + [ranks'] + [ones + w] == hints + [Pack(SubRanks(bits, b), 9), CountWords(bits, 8 * (b + 1))];
    }
  }

  method BuildRankHints(bits: seq<nat>) returns (rankHints: seq<nat>)
    requires WordsOk(bits)
    ensures RankHintsOk(bits, rankHints)
  {
    var currNumOnes, currNumOnesInBlock, currRanksInBlock := 0, 0, 0;
    var numWords := |bits|;
    rankHints := [currNumOnes];
    ghost var b, r := 0, 0;
    var wi := 0;
    while wi < numWords
      invariant wi == 8 * b + r
      invariant HintState(bits, b, r, currNumOnes, currNumOnesInBlock, currRanksInBlock, rankHints)
    {
      var bi := wi % BLOCK_SIZE;
      DivMod8(b, r);
      var numOnesInWord := Ones(bits[wi]);
      ghost var ranks := currRanksInBlock;
      if bi != 0 {
        currRanksInBlock := Or(Shl(currRanksInBlock, 9), currNumOnesInBlock);
      }
      HintStep(bits, b, r, currNumOnes, currNumOnesInBlock, ranks, currRanksInBlock, rankHints);
      currNumOnes := currNumOnes + numOnesInWord;
      currNumOnesInBlock := currNumOnesInBlock + numOnesInWord;
      if bi == BLOCK_SIZE - 1 {
        rankHints := rankHints + [currRanksInBlock];
        rankHints := rankHints + [currNumOnes];
        currNumOnesInBlock := 0;
        currRanksInBlock := 0;
        b, r := b + 1, 0;
      } else {
        r := r + 1;
      }
      wi := wi + 1;
    }
    DivMod8(b, r);
    rankHints := PadRankHints(bits, rankHints, b, currNumOnesInBlock, currRanksInBlock);
  }

  lemma DivMod8(b: nat, r: nat)
    requires r < 8
    ensures (8 * b + r) / 8 == b && (8 * b + r) % 8 == r
  {
  }

  lemma DivMod64(w: nat, j: nat)
    requires j < 64
    ensures (64 * w + j) / 64 == w && (64 * w + j) % 64 == j
  {
  }

  lemma PushField(bits: seq<nat>, b: nat, j: nat)
    requires WordsOk(bits) && j < 7
    ensures Or(Shl(Pack(SubRanks(bits, b)[..j], 9), 9), CountWords(bits, 8 * b + 1 + j) - CountWords(bits, 8 * b))
              == Pack(SubRanks(bits, b)[..j + 1], 9)
    ensures CountWords(bits, 8 * b) <= CountWords(bits, 8 * b + 1 + j)
  {
    SubRanksFit(bits, b);
    var f := SubRanks(bits, b);
    assert f[..j + 1] == f[..j] + [f[j]];
    PackStep(f[..j], 9, f[j], 64);
    CountWordsMono(bits, 8 * b, 8 * b + 1 + j);
  }

  lemma ExtendHints(bits: seq<nat>, hints: seq<nat>, b: nat)
    requires WordsOk(bits) && |hints| == 2 * b + 1 && HintsUpTo(bits, hints, b)
    ensures HintsUpTo(bits, hints + [Pack(SubRanks(bits, b), 9), CountWords(bits, 8 * (b + 1))], b + 1)
  {
    var hints' := hints + [Pack(SubRanks(bits, b), 9), CountWords(bits, 8 * (b + 1))];
    forall x: nat | x < b + 1 ensures HintAt(bits, hints', x) {
      if x < b { assert HintAt(bits, hints, x); }
    }
  }

  /** The tail of build_rank_hints: the rest of the last block's fields, and the sentinel. */
  method PadRankHints(bits: seq<nat>, hints: seq<nat>, ghost b: nat, currNumOnesInBlock: nat, ranks: nat)
      returns (rankHints: seq<nat>)
    requires WordsOk(bits) && b == |bits| / 8 && |hints| == 2 * b + 1 && HintsUpTo(bits, hints, b)
    requires currNumOnesInBlock == CountWords(bits, |bits|) - CountWords(bits, 8 * b)
    requires ranks == Pack(SubRanks(bits, b)[..if |bits| % 8 == 0 then 0 else |bits| % 8 - 1], 9)
    ensures RankHintsOk(bits, rankHints)
  {
    rankHints := hints;
    var m := |bits| % BLOCK_SIZE;
    var currRanksInBlock := PadRanks(bits, b, m, currNumOnesInBlock, ranks);
    rankHints := rankHints + [currRanksInBlock];
    if m != 0 {
      rankHints := rankHints + [currRanksInBlock];
      rankHints := rankHints + [0];
    }
    forall x: nat | x < b ensures HintAt(bits, rankHints, x) {
      assert HintAt(bits, hints, x);
    }
  }

  /** The padding loop: the total of the block fills the fields of the missing words. */
  method PadRanks(ghost bits: seq<nat>, ghost b: nat, m: nat, currNumOnesInBlock: nat, ranks: nat)
      returns (currRanksInBlock: nat)
    requires WordsOk(bits) && |bits| == 8 * b + m && m < 8
    requires currNumOnesInBlock == CountWords(bits, |bits|) - CountWords(bits, 8 * b)
    requires ranks == Pack(SubRanks(bits, b)[..if m == 0 then 0 else m - 1], 9)
    ensures m != 0 ==> currRanksInBlock == Pack(SubRanks(bits, b), 9)
  {
    hide CountWords, Pack, WordsOk, SubRanks;
    var remain := BLOCK_SIZE - m;
    currRanksInBlock := ranks;
    var wi := 0;
    while wi < remain
      invariant wi <= remain
      invariant m != 0 ==> currRanksInBlock == Pack(SubRanks(bits, b)[..m - 1 + wi], 9)
    {
      if m != 0 {
        CountWordsAll(bits, 8 * b + m + wi);
        PushField(bits, b, m - 1 + wi);
      }
      currRanksInBlock := Or(Shl(currRanksInBlock, 9), currNumOnesInBlock);
      wi := wi + 1;
    }
    assert SubRanks(bits, b)[..7] == SubRanks(bits, b);
  }

  lemma {:induction false} LowZero(n: nat)
    ensures Low(0, n) == 0
  {
    if n > 0 {
      LowZero(n - 1);
    }
  }

  // ---------- the finished vector ----------

  datatype BitVector = BitVector(size: nat, numOnes: nat, bits: seq<nat>, rankHints: seq<nat>, selectHints: seq<nat>)

  ghost predicate BitsReady(v: BitVector) {
    && WordsOk(v.bits) && |v.bits| == (v.size + 63) / 64
    && (forall i: nat {:trigger BitAt(v.bits, i)} :: v.size <= i < 64 * |v.bits| ==> !BitAt(v.bits, i))
    && v.numOnes == CountWords(v.bits, |v.bits|)
  }

  ghost predicate RankReady(v: BitVector) {
    BitsReady(v) && RankHintsOk(v.bits, v.rankHints)
  }

  ghost function Contents(v: BitVector): seq<bool>
    requires v.size <= 64 * |v.bits|
  {
    Bools(v.bits, v.size)
  }

  function Get(v: BitVector, i: nat): (r: bool)
    requires BitsReady(v) && i < v.size
    ensures r == Contents(v)[i]
  {
    TestBit(v.bits[i / 64], i % 64);
    And(v.bits[i / 64], Shl(1, i % 64)) != 0
  }

  function RankForBlock(v: BitVector, bi: nat): nat
    requires bi * 2 < |v.rankHints|
  {
    v.rankHints[bi * 2]
  }

  function RanksInBlock(v: BitVector, bi: nat): nat
    requires bi * 2 + 1 < |v.rankHints|
  {
    v.rankHints[bi * 2 + 1]
  }

  function RankInBlock(v: BitVector, bi: nat, bj: nat): nat
    requires bi * 2 + 1 < |v.rankHints| && bj < 8
  {
    And(Shr(RanksInBlock(v, bi), (7 - bj) * 9), 0x1FF)
  }

  /** Sub-rank bj of a packed block. */
  lemma SubRankOf(f: seq<nat>, bj: nat)
    requires |f| == 7 && FieldsOk(f, 9) && bj < 8
    ensures And(Shr(Pack(f, 9), (7 - bj) * 9), 0x1FF) == if bj == 0 then 0 else f[bj - 1]
  {
    assert Pow2(9) == 512;
    var x := Shr(Pack(f, 9), (7 - bj) * 9);
    AndMask(x, 9);
    TimesIsMul(9, 7 - bj);
    if bj == 0 {
      AboveFields(f, 9);
      LowZero(9);
    } else {
      FieldOf(f, 9, bj - 1);
    }
  }

  lemma {:induction false} TimesIsMul(w: nat, n: nat)
    ensures Times(w, n) == n * w
  {
    if n > 0 {
      TimesIsMul(w, n - 1);
    }
  }

  /** The hints of the block of a word. */
  lemma HintOfWord(bits: seq<nat>, hints: seq<nat>, bi: nat, wi: nat)
    requires RankHintsOk(bits, hints) && 8 * bi <= wi < 8 * bi + 8 && wi < |bits|
    ensures HintAt(bits, hints, bi)
  {
    BlockOfWord(|bits|, bi);
  }

  lemma BlockOfWord(words: nat, bi: nat)
    requires 8 * bi < words
    ensures bi < words / 8 || (bi == words / 8 && words % 8 != 0)
  {
  }

  /** A word's rank is that of its block plus the sub-rank. */
  lemma WordRank(bits: seq<nat>, hints: seq<nat>, bi: nat, bj: nat, wi: nat)
    requires RankHintsOk(bits, hints) && wi < |bits| && bj < 8 && wi == 8 * bi + bj
    ensures 2 * bi + 1 < |hints|
    ensures hints[2 * bi] + And(Shr(hints[2 * bi + 1], (7 - bj) * 9), 0x1FF) == CountWords(bits, wi)
  {
    HintOfWord(bits, hints, bi, wi);
    SubRanksFit(bits, bi);
    SubRankOf(SubRanks(bits, bi), bj);
    SubRankOfWord(bits, bi, bj, wi);
  }

  lemma SubRankOfWord(bits: seq<nat>, bi: nat, bj: nat, wi: nat)
    requires WordsOk(bits) && bj < 8 && wi == 8 * bi + bj
    ensures BlockRank(bits, bi) + (if bj == 0 then 0 else SubRanks(bits, bi)[bj - 1]) == CountWords(bits, wi)
  {
  }

  function RankForWord(v: BitVector, wi: nat): (r: nat)
    requires RankReady(v) && wi < |v.bits|
    ensures r == CountWords(v.bits, wi)
  {
    var bi, bj := wi / BLOCK_SIZE, wi % BLOCK_SIZE;
    assert wi == 8 * bi + bj;
    WordRank(v.bits, v.rankHints, bi, bj, wi);
    RankForBlock(v, bi) + RankInBlock(v, bi, bj)
  }

  /** The number of set bits before i. */
  function Rank(v: BitVector, i: nat): (r: nat)
    requires RankReady(v) && i <= v.size
    ensures r == Count(Contents(v), i)
  {
    if i == v.size then
      CountAll(v);
      v.numOnes
    else
      var wi, wj := i / 64, i % 64;
      CountInWord(v.bits, v.size, wi, wj);
      OnesOfShl(v.bits[wi], wj);
      RankForWord(v, wi) + (if wj != 0 then Ones(Shl(v.bits[wi], 64 - wj)) else 0)
  }

  lemma LastWord(size: nat, w: int, j: nat, words: nat)
    requires size > 0 && words == (size + 63) / 64
    requires if size % 64 == 0 then w == size / 64 - 1 && j == 64 else w == size / 64 && j == size % 64
    ensures 0 <= w == words - 1 && size == 64 * w + j
  {
  }

  lemma CountAll(v: BitVector)
    requires BitsReady(v)
    ensures Count(Contents(v), v.size) == v.numOnes
  {
    if v.size > 0 {
      var w, j := v.size / 64, v.size % 64;
      if j == 0 {
        w, j := w - 1, 64;
      }
      LastWord(v.size, w, j, |v.bits|);
      CountInWord(v.bits, v.size, w, j);
      OnesBelowRest(v.bits, w, j, 64);
      LastWordCount(v.bits, w);
    }
  }

  lemma LastWordCount(bits: seq<nat>, w: nat)
    requires WordsOk(bits) && w + 1 == |bits|
    ensures CountWords(bits, |bits|) == CountWords(bits, w) + OnesBelow(bits[w], 64)
  {
    AllOnes(bits, w);
  }

  /** Bits past the size are clear. */
  lemma {:induction false} OnesBelowRest(bits: seq<nat>, w: nat, j: nat, k: nat)
    requires w < |bits| && j <= k <= 64
    requires forall i: nat {:trigger BitAt(bits, i)} :: 64 * w + j <= i < 64 * |bits| ==> !BitAt(bits, i)
    ensures OnesBelow(bits[w], k) == OnesBelow(bits[w], j)
    decreases k
  {
    if j < k {
      OnesBelowRest(bits, w, j, k - 1);
      DivMod64(w, k - 1);
      assert !BitAt(bits, 64 * w + (k - 1));
    }
  }

  // ---------- select hints ----------

  const SELECTS_PER_HINT: nat := 1024

  /** The last block has fewer than eight words. */
  predicate Partial(bits: seq<nat>) {
    |bits| % 8 != 0
  }

  function FullBlocks(bits: seq<nat>): nat {
    |bits| / 8
  }

  /** What the sentinel of a partial last block holds: packed sub-ranks. */
  ghost function Sentinel(bits: seq<nat>): nat {
    Pack(SubRanks(bits, FullBlocks(bits)), 9)
  }

  function BlockCount(bits: seq<nat>): nat {
    FullBlocks(bits) + (if Partial(bits) then 1 else 0)
  }

  /** The absolute ranks as select reads them. */
  lemma RankTable(bits: seq<nat>, hints: seq<nat>, b: nat)
    requires RankHintsOk(bits, hints) && b <= BlockCount(bits)
    ensures |hints| == 2 * BlockCount(bits) + 2
    ensures hints[2 * b] == if b <= FullBlocks(bits) then BlockRank(bits, b) else Sentinel(bits)
  {
    if b < FullBlocks(bits) { assert HintAt(bits, hints, b); }
  }

  lemma BlockRankStep(bits: seq<nat>, b: nat)
    requires WordsOk(bits)
    ensures BlockRank(bits, b) <= BlockRank(bits, b + 1) <= BlockRank(bits, b) + 512
  {
    CountWordsMono(bits, 8 * b, 8 * (b + 1));
  }

  lemma BlockRankMono(bits: seq<nat>, b: nat, c: nat)
    requires WordsOk(bits) && b <= c
    ensures BlockRank(bits, b) <= BlockRank(bits, c)
  {
    CountWordsMono(bits, 8 * b, 8 * c);
  }

  /** All set bits come before the end of the last block. */
  lemma BlockRankTotal(bits: seq<nat>)
    requires WordsOk(bits)
    ensures BlockRank(bits, BlockCount(bits)) == CountWords(bits, |bits|)
  {
    CountWordsAll(bits, 8 * BlockCount(bits));
  }

  /** Hint i marks the block in which the rank passes 1024 * (i + 1). */
  ghost predicate SelectHintAt(hints: seq<nat>, blocks: nat, sel: seq<nat>, i: nat)
    requires i < |sel| && |hints| == 2 * blocks + 2
  {
    sel[i] < blocks && hints[2 * sel[i]] <= 1024 * (i + 1) < hints[2 * (sel[i] + 1)]
  }

  ghost predicate SelectHintsOk(bits: seq<nat>, hints: seq<nat>, sel: seq<nat>) {
    && RankHintsOk(bits, hints) && |hints| == 2 * BlockCount(bits) + 2
    && |sel| > 0 && sel[|sel| - 1] == BlockCount(bits)
    && (forall i: nat :: i + 1 < |sel| ==> SelectHintAt(hints, BlockCount(bits), sel, i))
    && (CountWords(bits, |bits|) <= 1024 * |sel|
        || (Partial(bits) && Sentinel(bits) <= 1024 * |sel| && BlockRank(bits, FullBlocks(bits)) <= 1024 * |sel|))
  }

  method BuildSelectHints(rankHints: seq<nat>, ghost bits: seq<nat>) returns (selectHints: seq<nat>)
    requires RankHintsOk(bits, rankHints)
    ensures SelectHintsOk(bits, rankHints, selectHints)
  {
    RankTable(bits, rankHints, 0);
    selectHints := [];
    var threshold := SELECTS_PER_HINT;
    var numBlocks := |rankHints| / 2 - 1;
    var bi := 0;
    while bi < numBlocks
      invariant bi <= numBlocks == BlockCount(bits)
      invariant threshold == 1024 * (|selectHints| + 1)
      invariant forall i: nat :: i < |selectHints| ==> SelectHintAt(rankHints, numBlocks, selectHints, i)
      invariant BlockRank(bits, bi) <= threshold
                || (bi == numBlocks && Partial(bits) && Sentinel(bits) <= threshold && BlockRank(bits,
                    FullBlocks(bits)) <= threshold)
    {
      RankTable(bits, rankHints, bi);
      RankTable(bits, rankHints, bi + 1);
      BlockRankStep(bits, bi);
      ghost var was := selectHints;
      if rankHints[2 * (bi + 1)] > threshold {
        selectHints := selectHints + [bi];
        threshold := threshold + SELECTS_PER_HINT;
        forall i: nat | i < |selectHints| ensures SelectHintAt(rankHints, numBlocks, selectHints, i) {
          if i < |was| { assert SelectHintAt(rankHints, numBlocks, was, i); }
        }
      }
      bi := bi + 1;
    }
    BlockRankTotal(bits);
    ghost var was := selectHints;
    selectHints := selectHints + [numBlocks];
    forall i: nat | i + 1 < |selectHints| ensures SelectHintAt(rankHints, numBlocks, selectHints, i) {
      assert SelectHintAt(rankHints, numBlocks, was, i);
    }
  }

  ghost predicate SelectReady(v: BitVector) {
    RankReady(v) && SelectHintsOk(v.bits, v.rankHints, v.selectHints)
  }

  /** When select finds bit n: the sentinel misleads only inside a partial last block,
      and only when it is not above n. */
  ghost predicate SelectExact(v: BitVector, n: nat) {
    Partial(v.bits) ==> n < BlockRank(v.bits, FullBlocks(v.bits)) || n < Sentinel(v.bits)
  }

  ghost predicate InBlock(bits: seq<nat>, bi: nat, n: nat) {
    bi < BlockCount(bits) && BlockRank(bits, bi) <= n < BlockRank(bits, bi + 1)
  }

  /** The sampled bounds; None when the table has no entry for n. */
  function SelectWithHint(v: BitVector, n: nat): (r: Option<(nat, nat)>)
    requires SelectReady(v)
    ensures r.Some? <==> n / SELECTS_PER_HINT < |v.selectHints|
  {
    var i := n / SELECTS_PER_HINT;
    if i < |v.selectHints| then
      Some((if i != 0 then v.selectHints[i - 1] else 0, v.selectHints[i] + 1))
    else None
  }

  /** The state of the binary search: the answer lies in blocks a to b - 1. */
  ghost predicate Searching(v: BitVector, n: nat, a: nat, b: nat)
    requires SelectReady(v)
  {
    var blocks := BlockCount(v.bits);
    && a < b <= blocks + 1
    && v.rankHints[2 * a] <= n
    && (b == blocks + 1 || n < v.rankHints[2 * b])
    && (a <= FullBlocks(v.bits) || BlockRank(v.bits, FullBlocks(v.bits)) <= n)
  }

  lemma HintBounds(v: BitVector, n: nat)
    requires SelectReady(v) && n < v.numOnes
    ensures SelectWithHint(v, n).None? ==> !SelectExact(v, n)
    ensures SelectWithHint(v, n).Some? ==> var (a, b) := SelectWithHint(v, n).value; Searching(v, n, a, b)
  {
    var i := n / SELECTS_PER_HINT;
    assert 1024 * i <= n < 1024 * (i + 1);
    if i < |v.selectHints| {
      var (a, b) := SelectWithHint(v, n).value;
      RankTable(v.bits, v.rankHints, 0);
      if i != 0 {
        assert SelectHintAt(v.rankHints, BlockCount(v.bits), v.selectHints, i - 1);
      }
      if i + 1 < |v.selectHints| {
        assert SelectHintAt(v.rankHints, BlockCount(v.bits), v.selectHints, i);
      }
      RankTable(v.bits, v.rankHints, a);
      if b <= BlockCount(v.bits) {
        RankTable(v.bits, v.rankHints, b);
        if b <= a {
          BlockRankMono(v.bits, b, a);
        }
      }
    } else {
      assert 1024 * |v.selectHints| <= n;
    }
  }

  method SelectForBlock(v: BitVector, n: nat) returns (bi: Option<nat>)
    requires SelectReady(v) && n < v.numOnes
    ensures SelectExact(v, n) <==> bi.Some? && InBlock(v.bits, bi.value, n)
  {
    HintBounds(v, n);
    var hint := SelectWithHint(v, n);
    if hint.None? {
      return None;
    }
    var a: nat, b: nat := hint.value.0, hint.value.1;
    while b - a > 1
      invariant Searching(v, n, a, b)
      decreases b - a
    {
      var lb := a + (b - a) / 2;
      RankTable(v.bits, v.rankHints, lb);
      RankTable(v.bits, v.rankHints, a);
      if RankForBlock(v, lb) <= n {
        a := lb;
      } else {
        b := lb;
      }
    }
    SearchEnds(v, n, a);
    return Some(a);
  }

  lemma SearchEnds(v: BitVector, n: nat, a: nat)
    requires SelectReady(v) && n < v.numOnes && Searching(v, n, a, a + 1)
    ensures SelectExact(v, n) <==> InBlock(v.bits, a, n)
  {
    RankTable(v.bits, v.rankHints, a);
    BlockRankTotal(v.bits);
    if a < BlockCount(v.bits) {
      RankTable(v.bits, v.rankHints, a + 1);
      if a < FullBlocks(v.bits) {
        BlockRankMono(v.bits, a + 1, FullBlocks(v.bits));
      }
    }
  }

  /** The word of block bi that holds bit n. */
  lemma WordOfBlock(bits: seq<nat>, bi: nat, n: nat) returns (w: nat)
    requires WordsOk(bits) && InBlock(bits, bi, n)
    ensures var c := CountUpTo(SubRanks(bits, bi), n - BlockRank(bits, bi));
            w == 8 * bi + c && c <= 7 && w < |bits| && CountWords(bits, w) <= n < CountWords(bits, w + 1)
  {
    var f, rest := SubRanks(bits, bi), n - BlockRank(bits, bi);
    SubRanksFit(bits, bi);
    CountSplits(f, rest);
    var c := CountUpTo(f, rest);
    w := 8 * bi + c;
    if c > 0 { SubRankIs(bits, bi, c - 1); }
    if c < 7 { SubRankIs(bits, bi, c); }
    assert CountWords(bits, w) <= n < CountWords(bits, w + 1);
    assert w < |bits|;
  }

  lemma SubRankIs(bits: seq<nat>, bi: nat, j: nat)
    requires WordsOk(bits) && j < 7
    ensures SubRanks(bits, bi)[j] == CountWords(bits, 8 * bi + 1 + j) - CountWords(bits, 8 * bi)
  {
  }

  /** The word of bit n within its block, by the packed comparison, and the rank before that word. */
  method SelectInBlock(v: BitVector, bi: nat, n: nat) returns (wordOffset: nat, currRank: nat)
    requires RankReady(v) && InBlock(v.bits, bi, n)
    ensures wordOffset < |v.bits| && currRank == CountWords(v.bits, wordOffset) <= n < CountWords(v.bits,
        wordOffset + 1)
  {
    ghost var w := WordOfBlock(v.bits, bi, n);
    HintOfWord(v.bits, v.rankHints, bi, w);
    currRank := RankForBlock(v, bi);
    var subRanks := RanksInBlock(v, bi);
    var subBlockOffset := SubBlock(v.bits, bi, n, subRanks, n - currRank);
    currRank := currRank + SubRankAt(v, bi, subBlockOffset, w);
    wordOffset := bi * BLOCK_SIZE + subBlockOffset;
  }

  /** The packed comparison of select: it counts the sub-ranks at most rest. */
  method SubBlock(ghost bits: seq<nat>, ghost bi: nat, ghost n: nat, subRanks: nat, rest: nat) returns (offset: nat)
    requires WordsOk(bits) && InBlock(bits, bi, n) && subRanks == Pack(SubRanks(bits, bi), 9)
    requires rest == n - BlockRank(bits, bi)
    ensures offset == CountUpTo(SubRanks(bits, bi), rest)
  {
    BlockRankStep(bits, bi);
    SubRanksFit(bits, bi);
    OffsetCounts(SubRanks(bits, bi), rest);
    offset := SubBlockOffset(subRanks, rest);
  }

  /** The sub-rank select takes out for that word. */
  function SubRankAt(v: BitVector, bi: nat, bj: nat, ghost w: nat): (r: nat)
    requires RankReady(v) && w < |v.bits| && w == 8 * bi + bj && bj < 8
    ensures r == CountWords(v.bits, w) - BlockRank(v.bits, bi)
  {
    HintOfWord(v.bits, v.rankHints, bi, w);
    WordRank(v.bits, v.rankHints, bi, bj, w);
    RankInBlock(v, bi, bj)
  }

  method Select(v: BitVector, n: nat) returns (p: nat)
    requires SelectReady(v) && n < v.numOnes && SelectExact(v, n)
    ensures p < v.size && Contents(v)[p] && Count(Contents(v), p) == n
  {
    var block := SelectForBlock(v, n);
    var wordOffset, currRank := SelectInBlock(v, block.value, n);
    p := wordOffset * 64 + SelectInWord(v.bits[wordOffset], n - currRank);
    BitOfWord(v, wordOffset, n - currRank, p);
  }

  lemma BitOfWord(v: BitVector, w: nat, k: nat, p: nat)
    requires RankReady(v) && w < |v.bits| && k < Ones(v.bits[w])
    requires p == 64 * w + SelectInWord(v.bits[w], k)
    ensures p < v.size && Contents(v)[p] && Count(Contents(v), p) == CountWords(v.bits, w) + k
  {
    AllOnes(v.bits, w);
    SelectInWordFinds(v.bits[w], k, 64);
    SetBitOfWord(v, w, SelectInWord(v.bits[w], k), p);
  }

  lemma SetBitOfWord(v: BitVector, w: nat, j: nat, p: nat)
    requires RankReady(v) && w < |v.bits| && j < 64 && Bit(v.bits[w], j) && p == 64 * w + j
    ensures p < v.size && Contents(v)[p] && Count(Contents(v), p) == CountWords(v.bits, w) + OnesBelow(v.bits[w], j)
  {
    DivMod64(w, j);
    assert BitAt(v.bits, p);
    CountInWord(v.bits, v.size, w, j);
  }

  lemma FourOfEight(words: nat, full: nat)
    requires words % 4 == 0 && words % 8 != 0 && full == words / 8
    ensures words == 8 * full + 4
  {
  }

  /** Vectors of a multiple of four words are exact up to 2^27 set bits. */
  lemma MultipleOf256(v: BitVector, n: nat)
    requires SelectReady(v) && n < v.numOnes <= 0x800_0000 && |v.bits| % 4 == 0
    ensures SelectExact(v, n)
  {
    if Partial(v.bits) {
      var full := FullBlocks(v.bits);
      FourOfEight(|v.bits|, full);
      if BlockRank(v.bits, full) <= n {
        SentinelLarge(v.bits, full, CountWords(v.bits, |v.bits|) - BlockRank(v.bits, full));
      }
    }
  }

  /** The last four fields of a half-filled block repeat the number of its set bits. */
  lemma SentinelLarge(bits: seq<nat>, full: nat, t: nat)
    requires WordsOk(bits) && |bits| == 8 * full + 4 && full == FullBlocks(bits)
    requires 0 < t && CountWords(bits, |bits|) == BlockRank(bits, full) + t
    ensures 0x800_0000 < Sentinel(bits)
  {
    var f := SubRanks(bits, full);
    forall j | 3 <= j < 7 ensures f[j] == t {
      CountWordsAll(bits, 8 * full + 1 + j);
    }
    assert f == [f[0], f[1], f[2], f[3], f[4], f[5], f[6]];
    Pack7(f[0], f[1], f[2], f[3], f[4], f[5], f[6]);
  }

  // ---------- where the sentinel misleads ----------

  /** Fifteen words with one set bit in the first and one in the last. */
  ghost predicate OnlyOuter(bits: seq<nat>) {
    |bits| == 15 && bits[0] == bits[14] == 1 && forall i :: 0 < i < 14 ==> bits[i] == 0
  }

  lemma {:induction false} OuterCount(bits: seq<nat>, w: nat)
    requires OnlyOuter(bits) && 0 < w <= 15
    ensures CountWords(bits, w) == if w == 15 then 2 else 1
    decreases w
  {
    assert Ones(0) == 0 && Ones(1) == 1;
    if w == 1 {
      assert CountWords(bits, 0) == 0;
    } else {
      OuterCount(bits, w - 1);
    }
  }

  /** A vector whose second set bit select does not find: the packed sub-ranks of the last block are 1. */
  lemma SentinelExample(v: BitVector)
    requires SelectReady(v) && OnlyOuter(v.bits)
    ensures v.numOnes == 2 && SelectExact(v, 0) && !SelectExact(v, 1)
  {
    OuterCount(v.bits, 8);
    OuterCount(v.bits, 15);
    var f := SubRanks(v.bits, 1);
    forall j | 0 <= j < 7 ensures f[j] == if j == 6 then 1 else 0 {
      OuterCount(v.bits, 9 + j);
    }
    assert f == [f[0], f[1], f[2], f[3], f[4], f[5], f[6]];
    Pack7(f[0], f[1], f[2], f[3], f[4], f[5], f[6]);
  }

  // ---------- construction ----------

  method CountOnes(bits: seq<nat>) returns (n: nat)
    ensures n == CountWords(bits, |bits|)
  {
    n := 0;
    var i := 0;
    while i < |bits|
      invariant i <= |bits| && n == CountWords(bits, i)
    {
      n := n + Ones(bits[i]);
      i := i + 1;
    }
  }

  method Build(b: Builder, enableRank: bool, enableSelect: bool) returns (v: BitVector)
    requires b.Valid()
    ensures BitsReady(v) && v.size == |b.Contents()| && Contents(v) == b.Contents()
    ensures enableRank ==> RankReady(v)
    ensures enableRank && enableSelect ==> SelectReady(v)
  {
    var numOnes := CountOnes(b.bits);
    var rankHints, selectHints := [], [];
    if enableRank {
      rankHints := BuildRankHints(b.bits);
    }
    if enableRank && enableSelect {
      selectHints := BuildSelectHints(rankHints, b.bits);
    }
    v := BitVector(b.size, numOnes, b.bits, rankHints, selectHints);
  }

  /** A vector built bit by bit from its contents. */
  method FromBools(s: seq<bool>, enableRank: bool, enableSelect: bool) returns (v: BitVector)
    ensures BitsReady(v) && v.size == |s| && Contents(v) == s
    ensures enableRank ==> RankReady(v)
    ensures enableRank && enableSelect ==> SelectReady(v)
  {
    var b := new Builder();
    var i := 0;
    while i < |s|
      invariant i <= |s| && b.Valid() && fresh(b) && b.Contents() == s[..i]
    {
      b.PushBack(s[i]);
      i := i + 1;
    }
    v := Build(b, enableRank, enableSelect);
  }
}
