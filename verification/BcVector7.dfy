/** BASE and CHECK as differences from the slot number, in levels of growing width whose entries
    point into the next level relative to the start of their block. */
module BcVector7 {
  import opened Options
  import opened Bits
  import opened Packed
  import opened FreeList
  import opened BcUnits
  import BV = BitVector
  import CV = CompactVector

  const LEVELS: nat := 4

  /** The bits of an entry left for its value or pointer; a block has that many entries. */
  function Room(j: nat): nat {
    if j == 0 then 7 else if j == 1 then 15 else 31
  }

  function BlockSize(j: nat): nat {
    if j == 0 then 0x80 else if j == 1 then 0x8000 else 0x8000_0000
  }

  lemma RoomOfBlock(j: nat)
    ensures Pow2(Room(j)) == BlockSize(j)
  {
    assert Pow2(7) == 0x80;
    Pow2Values();
    Pow2Add(8, 7);
    Pow2Add(15, 16);
    Pow2Add(8, 8);
  }

  /** One level, and for each of its blocks the size of the next level when the block was begun. */
  datatype Level = Level(ints: seq<nat>, ranks: seq<nat>)

  /** An entry holds a value with a zero bit behind it, or a pointer with a one bit; either is cut to the entry's
      width. */
  function Tagged(flag: nat, x: nat, j: nat): nat {
    Low(Or(flag, Shl(x, 1)), Room(j) + 1)
  }

  lemma DoubleIs(x: nat)
    ensures Shift(x, 1) == 2 * x
  {
    assert Shift(x, 0) == x;
  }

  /** What fits below the tag is not cut. */
  lemma TaggedFits(flag: nat, x: nat, j: nat)
    requires flag <= 1 && x < BlockSize(j)
    ensures Tagged(flag, x, j) == 2 * x + flag
    ensures Shr(Tagged(flag, x, j), 1) == x && And(Tagged(flag, x, j), 1) == flag
  {
    RoomOfBlock(j);
    TagValue(flag, x, Room(j), Pow2(Room(j)));
    Halves(2 * x + flag);
  }

  lemma TagValue(flag: nat, x: nat, r: nat, p: nat)
    requires flag <= 1 && x < p == Pow2(r) && 2 * x + flag < WORD_SIZE
    ensures Low(Or(flag, Shl(x, 1)), r + 1) == 2 * x + flag
  {
    DoubleIs(x);
    WordFits(2 * x);
    OrTag(flag, x);
    LowOfSmall(2 * x + flag, r + 1);
  }

  lemma WordFits(x: nat)
    requires x < WORD_SIZE
    ensures Low(x, 64) == x
  {
    Pow2Values();
    LowOfSmall(x, 64);
  }

  lemma OrTag(flag: nat, x: nat)
    requires flag <= 1
    ensures Or(flag, 2 * x) == 2 * x + flag
  {
    OrComm(flag / 2, x);
    OrZero(x);
    if flag == 0 && x == 0 {
    } else {
      assert Or(flag, 2 * x) == Digit(flag % 2 == 1 || 2 * x % 2 == 1) + 2 * Or(flag / 2, 2 * x / 2);
    }
  }

  // ---------- levels ----------

  /** The blocks of level j are begun as they are needed, and the pointers of the last block fit. */
  ghost predicate LevelOk(levels: seq<Level>, j: nat)
    requires j + 1 < |levels|
  {
    var n, b, blocks := |levels[j].ints|, BlockSize(j), |levels[j].ranks|;
    if n == 0 then blocks == 0
    else
      && blocks > 0 && b * (blocks - 1) < n <= b * blocks
      && levels[j].ranks[blocks - 1] <= |levels[j + 1].ints|
      && |levels[j + 1].ints| - levels[j].ranks[blocks - 1] <= n - b * (blocks - 1)
  }

  /** Entry i of level j, with what it points to, stands for x. */
  ghost predicate Spells(levels: seq<Level>, j: nat, i: nat, x: nat)
    decreases |levels| - j
  {
    && j < |levels| && i < |levels[j].ints|
    && if j + 1 == |levels| then levels[j].ints[i] == x
       else if x < BlockSize(j) then levels[j].ints[i] == 2 * x
       else PointsTo(levels, j, i, x)
  }

  ghost predicate PointsTo(levels: seq<Level>, j: nat, i: nat, x: nat)
    requires j + 1 < |levels| && i < |levels[j].ints|
    decreases |levels| - j, 0
  {
    var block := i / BlockSize(j);
    && block < |levels[j].ranks| && levels[j].ranks[block] <= levels[j].ranks[block] + levels[j].ints[i] / 2
    && levels[j].ints[i] % 2 == 1 && levels[j].ints[i] / 2 < BlockSize(j)
    && Spells(levels, j + 1, levels[j].ranks[block] + levels[j].ints[i] / 2, x)
  }

  /** Entries were only added. */
  ghost predicate Grows(levels: seq<Level>, levels': seq<Level>) {
    && |levels'| == |levels|
    && forall k :: 0 <= k < |levels| ==> levels[k].ints <= levels'[k].ints && levels[k].ranks <= levels'[k].ranks
  }

  lemma GrowsTransitive(a: seq<Level>, b: seq<Level>, c: seq<Level>)
    requires Grows(a, b) && Grows(b, c)
    ensures Grows(a, c)
  {
  }

  lemma {:induction false} SpellsKept(levels: seq<Level>, levels': seq<Level>, j: nat, i: nat, x: nat)
    requires Spells(levels, j, i, x) && Grows(levels, levels')
    ensures Spells(levels', j, i, x)
    decreases |levels| - j
  {
    if j + 1 < |levels| && BlockSize(j) <= x {
      SpellsKept(levels, levels', j + 1, levels[j].ranks[i / BlockSize(j)] + levels[j].ints[i] / 2, x);
    }
  }

  // ---------- append ----------

  /** The level with a block begun if the next entry needs one. */
  function Begun(level: Level, j: nat, next: nat): (r: Level)
    ensures r.ints == level.ints && level.ranks <= r.ranks
  {
    if |level.ints| % BlockSize(j) == 0 then level.(ranks := level.ranks + [next]) else level
  }

  /** The block of the next entry. */
  lemma BlockOfNext(n: nat, b: nat, blocks: nat)
    requires b > 0 && blocks > 0 && b * (blocks - 1) <= n < b * blocks
    ensures n / b == blocks - 1
  {
    var r := n - b * (blocks - 1);
    assert b * blocks == b * (blocks - 1) + b;
    DivUnique(n, b, blocks - 1, r);
  }

  lemma DivUnique(n: nat, b: nat, q: nat, r: nat)
    requires n == b * q + r && r < b
    ensures n / b == q && n % b == r
  {
    var d := n / b - q;
    assert n == b * (n / b) + n % b;
    assert b * d == r - n % b by { assert b * d == b * (n / b) - b * q; }
    MulSign(b, d);
  }

  /** A level with room for its next entry: the entry's block is begun and the pointer it would hold fits. */
  ghost predicate Ready(levels: seq<Level>, j: nat)
    requires j + 1 < |levels|
  {
    var n, b, blocks := |levels[j].ints|, BlockSize(j), |levels[j].ranks|;
    && blocks > 0 && b * (blocks - 1) <= n < b * blocks && n / b == blocks - 1
    && levels[j].ranks[blocks - 1] <= |levels[j + 1].ints|
    && |levels[j + 1].ints| - levels[j].ranks[blocks - 1] <= n - b * (blocks - 1)
  }

  lemma BegunReady(levels: seq<Level>, j: nat)
    requires j + 1 < |levels| && LevelOk(levels, j)
    ensures Ready(levels[j := Begun(levels[j], j, |levels[j + 1].ints|)], j)
  {
    var n, b, blocks := |levels[j].ints|, BlockSize(j), |levels[j].ranks|;
    if n % b == 0 {
      if n > 0 {
        FullBlock(n, b, blocks);
      }
      assert b * (blocks + 1) == b * blocks + b;
      BlockOfNext(n, b, blocks + 1);
    } else {
      NotFull(n, b, blocks);
      BlockOfNext(n, b, blocks);
    }
  }

  lemma FullBlock(n: nat, b: nat, blocks: nat)
    requires b > 0 && blocks > 0 && b * (blocks - 1) < n <= b * blocks && n % b == 0
    ensures n == b * blocks
  {
    var q := n / b;
    assert n == b * q;
    assert b * (q - blocks) == n - b * blocks && b * (q - (blocks - 1)) == n - b * (blocks - 1);
    MulSign(b, q - blocks);
    MulSign(b, q - (blocks - 1));
  }

  lemma NotFull(n: nat, b: nat, blocks: nat)
    requires b > 0 && n <= b * blocks && n % b != 0
    ensures n < b * blocks
  {
    if n == b * blocks {
      DivUnique(n, b, blocks, 0);
    }
  }

  /** Adding an entry to a ready level, and at most one to the next, keeps the level in order. */
  lemma EntryKeepsLevel(levels: seq<Level>, levels': seq<Level>, j: nat)
    requires j + 1 < |levels| == |levels'| && Ready(levels, j)
    requires |levels'[j].ints| == |levels[j].ints| + 1 && levels'[j].ranks == levels[j].ranks
    requires |levels[j + 1].ints| <= |levels'[j + 1].ints| <= |levels[j + 1].ints| + 1
    ensures LevelOk(levels', j)
  {
  }

  lemma SameLevel(levels: seq<Level>, levels': seq<Level>, k: nat)
    requires k + 1 < |levels| == |levels'| && LevelOk(levels, k) && levels'[k] == levels[k]
             && |levels'[k + 1].ints| == |levels[k + 1].ints|
    ensures LevelOk(levels', k)
  {
  }

  function WithInt(levels: seq<Level>, j: nat, v: nat): (r: seq<Level>)
    requires j < |levels|
    ensures |r| == |levels|
  {
    levels[j := levels[j].(ints := levels[j].ints + [v])]
  }

  /** append_unit from level j on. */
  method Append(levels: seq<Level>, j: nat, x: nat) returns (r: seq<Level>)
    requires j < LEVELS && OrderedFrom(levels, j)
    ensures OrderedFrom(r, j) && Appended(levels, r, j, x)
    decreases LEVELS - j, 1
  {
    if j == LEVELS - 1 {
      r := WithInt(levels, j, x);
      return;
    }
    var i := |levels[j].ints|;
    var begun := levels[j := Begun(levels[j], j, |levels[j + 1].ints|)];
    BegunReady(levels, j);
    if x / BlockSize(j) == 0 {
      r := PutValue(levels, begun, j, x);
    } else {
      r := PutPointer(levels, begun, j, x);
    }
  }

  lemma SmallValue(x: nat, b: nat)
    requires b > 0
    ensures x / b == 0 <==> x < b
  {
    assert x == b * (x / b) + x % b;
    MulSign(b, x / b);
  }

  method PutValue(levels: seq<Level>, begun: seq<Level>, j: nat, x: nat) returns (r: seq<Level>)
    requires j < LEVELS - 1 && OrderedFrom(levels, j) && x / BlockSize(j) == 0
    requires begun == levels[j := Begun(levels[j], j, |levels[j + 1].ints|)] && Ready(begun, j)
    ensures OrderedFrom(r, j) && Appended(levels, r, j, x)
  {
    SmallValue(x, BlockSize(j));
    TaggedFits(0, x, j);
    r := WithInt(begun, j, Tagged(0, x, j));
    EntryKeepsLevel(begun, r, j);
    forall k: nat | j < k < LEVELS - 1 ensures LevelOk(r, k) {
      SameLevel(levels, r, k);
    }
  }

  /** Levels j and up are in order. */
  ghost predicate OrderedFrom(levels: seq<Level>, j: nat) {
    |levels| == LEVELS && forall k: nat {:trigger LevelOk(levels, k)} :: j <= k < LEVELS - 1 ==> LevelOk(levels, k)
  }

  /** What an append from level j on promises. */
  ghost predicate Appended(levels: seq<Level>, r: seq<Level>, j: nat, x: nat) {
    && |levels| == |r| && j < |r| && Grows(levels, r) && (forall k :: 0 <= k < j ==> r[k] == levels[k])
    && |r[j].ints| == |levels[j].ints| + 1 && Spells(r, j, |levels[j].ints|, x)
  }

  /** The value is too large for the level: the entry points to where it goes on. */
  method PutPointer(levels: seq<Level>, begun: seq<Level>, j: nat, x: nat) returns (r: seq<Level>)
    requires j < LEVELS - 1 && OrderedFrom(levels, j) && x / BlockSize(j) != 0
    requires begun == levels[j := Begun(levels[j], j, |levels[j + 1].ints|)] && Ready(begun, j)
    ensures OrderedFrom(r, j) && Appended(levels, r, j, x)
    decreases LEVELS - j, 0
  {
    SmallValue(x, BlockSize(j));
    var offset := PointerOffset(begun, j);
    TaggedFits(1, offset, j);
    var pushed := WithInt(begun, j, Tagged(1, offset, j));
    forall k: nat | j < k < LEVELS - 1 ensures LevelOk(pushed, k) {
      SameLevel(levels, pushed, k);
    }
    r := Append(pushed, j + 1, x);
    PointerAppended(levels, begun, pushed, r, j, x, offset);
  }

  lemma PointerAppended(levels: seq<Level>, begun: seq<Level>, pushed: seq<Level>, r: seq<Level>, j: nat, x: nat,
      offset: nat)
    requires |levels| == LEVELS && j < LEVELS - 1 && BlockSize(j) <= x
    requires begun == levels[j := Begun(levels[j], j, |levels[j + 1].ints|)] && Ready(begun, j)
    requires offset == PointerOffset(begun, j) && pushed == WithInt(begun, j, 2 * offset + 1)
    requires Appended(pushed, r, j + 1, x) && OrderedFrom(r, j + 1)
    ensures OrderedFrom(r, j) && Appended(levels, r, j, x)
  {
    assert r[j] == pushed[j];
    EntryKeepsLevel(begun, r, j);
    PointerHolds(r, begun, j, x, offset);
  }

  /** The place in the next level, counted from the start of the block: it fits the entry. */
  function PointerOffset(levels: seq<Level>, j: nat): (r: nat)
    requires j + 1 < |levels| && Ready(levels, j)
    ensures r < BlockSize(j)
  {
    var b, blocks := BlockSize(j), |levels[j].ranks|;
    assert b * blocks == b * (blocks - 1) + b;
    |levels[j + 1].ints| - levels[j].ranks[|levels[j].ranks| - 1]
  }

  lemma PointerHolds(r: seq<Level>, begun: seq<Level>, j: nat, x: nat, offset: nat)
    requires j + 1 < |r| == |begun| && Ready(begun, j) && offset == PointerOffset(begun, j) && BlockSize(j) <= x
    requires r[j].ranks == begun[j].ranks && |r[j].ints| == |begun[j].ints| + 1
             && r[j].ints[|begun[j].ints|] == 2 * offset + 1
    requires Spells(r, j + 1, |begun[j + 1].ints|, x)
    ensures Spells(r, j, |begun[j].ints|, x)
  {
    assert PointsTo(r, j, |begun[j].ints|, x);
  }

  // ---------- the units ----------

  /** The low byte of a leaf's link stays in level 0, the rest goes to links; other bases are spelled out. */
  ghost predicate BaseOk(units: seq<Unit>, leaves: seq<bool>, levels: seq<Level>, links: seq<nat>, i: nat)
    requires i < |units| == |leaves|
  {
    if leaves[i] then
      && levels != [] && 2 * i < |levels[0].ints| && levels[0].ints[2 * i] == Low(units[i].base, 8)
      && BV.Count(leaves, i) < |links| && links[BV.Count(leaves, i)] == Shr(units[i].base, 8)
    else Spells(levels, 0, 2 * i, Xor(units[i].base, i))
  }

  ghost predicate EntryOk(units: seq<Unit>, leaves: seq<bool>, levels: seq<Level>, links: seq<nat>, i: nat)
    requires i < |units| == |leaves|
  {
    BaseOk(units, leaves, levels, links, i) && Spells(levels, 0, 2 * i + 1, Xor(units[i].check, i))
  }

  /** The first n units are encoded. */
  ghost predicate Encoded(units: seq<Unit>, leaves: seq<bool>, levels: seq<Level>, links: seq<nat>, n: nat)
    requires n <= |units| == |leaves|
  {
    && OrderedFrom(levels, 0) && |levels[0].ints| == 2 * n && |links| == BV.Count(leaves, n)
    && (forall i: nat :: i < n ==> EntryOk(units, leaves, levels, links, i))
    && (forall k :: 0 <= k < |links| ==> links[k] < Pow2(63))
  }

  lemma BaseKept(units: seq<Unit>, leaves: seq<bool>, levels: seq<Level>, links: seq<nat>, levels': seq<Level>,
      links': seq<nat>, i: nat)
    requires i < |units| == |leaves| && BaseOk(units, leaves, levels, links, i)
    requires Grows(levels, levels') && links <= links'
    ensures BaseOk(units, leaves, levels', links', i)
  {
    if !leaves[i] {
      SpellsKept(levels, levels', 0, 2 * i, Xor(units[i].base, i));
    }
  }

  lemma EntriesKept(units: seq<Unit>, leaves: seq<bool>, levels: seq<Level>, links: seq<nat>, levels': seq<Level>,
      links': seq<nat>, n: nat)
    requires n <= |units| == |leaves| && Grows(levels, levels') && links <= links'
    requires forall i: nat :: i < n ==> EntryOk(units, leaves, levels, links, i)
    ensures forall i: nat :: i < n ==> EntryOk(units, leaves, levels', links', i)
  {
    forall i: nat | i < n ensures EntryOk(units, leaves, levels', links', i) {
      assert EntryOk(units, leaves, levels, links, i);
      BaseKept(units, leaves, levels, links, levels', links', i);
      SpellsKept(levels, levels', 0, 2 * i + 1, Xor(units[i].check, i));
    }
  }

  /** append_leaf */
  method AppendLeaf(levels: seq<Level>, links: seq<nat>, x: nat) returns (r: seq<Level>, links': seq<nat>)
    requires OrderedFrom(levels, 0)
    ensures OrderedFrom(r, 0) && Grows(levels, r) && r[0].ints == levels[0].ints + [Low(x, 8)]
    ensures links' == links + [Shr(x, 8)]
  {
    var begun := levels[0 := Begun(levels[0], 0, |levels[1].ints|)];
    BegunReady(levels, 0);
    r := WithInt(begun, 0, LowByte(x));
    links' := links + [Shr(x, 8)];
    EntryKeepsLevel(begun, r, 0);
    forall k: nat | 0 < k < LEVELS - 1 ensures LevelOk(r, k) {
      SameLevel(levels, r, k);
    }
  }

  /** The base or link of one unit. */
  method EncodeBase(levels: seq<Level>, links: seq<nat>, units: seq<Unit>, leaves: seq<bool>, i: nat)
      returns (r: seq<Level>, links': seq<nat>)
    requires i < |units| == |leaves|
    requires OrderedFrom(levels, 0) && |levels[0].ints| == 2 * i && |links| == BV.Count(leaves, i)
    ensures OrderedFrom(r, 0) && Grows(levels, r) && |r[0].ints| == 2 * i + 1 && BaseOk(units, leaves, r, links', i)
    ensures links' == if leaves[i] then links + [Shr(units[i].base, 8)] else links
  {
    if leaves[i] {
      r, links' := AppendLeaf(levels, links, units[i].base);
    } else {
      r := Append(levels, 0, Xor(units[i].base, i));
      links' := links;
    }
  }

  lemma NextEntry(units: seq<Unit>, leaves: seq<bool>, levels: seq<Level>, links: seq<nat>, half: seq<Level>,
      levels': seq<Level>, links': seq<nat>, i: nat)
    requires i < |units| == |leaves| && forall k: nat :: k < i ==> EntryOk(units, leaves, levels, links, k)
    requires Grows(levels, half) && Grows(half, levels') && links <= links' && BaseOk(units, leaves, half, links', i)
    requires Spells(levels', 0, 2 * i + 1, Xor(units[i].check, i))
    ensures forall k: nat :: k < i + 1 ==> EntryOk(units, leaves, levels', links', k)
  {
    GrowsTransitive(levels, half, levels');
    BaseKept(units, leaves, half, links', levels', links', i);
    EntriesKept(units, leaves, levels, links, levels', links', i);
  }

  /** The body of the constructor's loop. */
  method EncodeUnit(levels: seq<Level>, links: seq<nat>, units: seq<Unit>, leaves: seq<bool>, i: nat)
      returns (r: seq<Level>, links': seq<nat>)
    requires i < |units| == |leaves| && units[i].base < WORD_SIZE && Encoded(units, leaves, levels, links, i)
    ensures Encoded(units, leaves, r, links', i + 1)
  {
    var half;
    half, links' := EncodeBase(levels, links, units, leaves, i);
    r := Append(half, 0, Xor(units[i].check, i));
    LinkFits(units[i].base);
    NextEntry(units, leaves, levels, links, half, r, links', i);
  }

  // ---------- the finished vector ----------

  datatype BcVector7 = BcVector7(numFrees: nat, levels: seq<Level>, links: CV.CompactVector, leaves: BV.BitVector)

  ghost predicate EncodedBy(v: BcVector7, units: seq<Unit>, leaves: seq<bool>, links: seq<nat>) {
    && |units| == |leaves| && Encoded(units, leaves, v.levels, links, |units|)
    && CV.Stores(v.links, links) && BV.RankReady(v.leaves) && BV.Contents(v.leaves) == leaves
    && (forall i :: 0 <= i < |units| ==> units[i].base < WORD_SIZE)
  }

  ghost predicate Encodes(v: BcVector7, units: seq<Unit>, leaves: seq<bool>) {
    exists links :: EncodedBy(v, units, leaves, links)
  }

  /** The constructor: no vector when there is no leaf, for then there are no links to store. */
  method Build(units: seq<Unit>, leaves: seq<bool>) returns (r: Option<BcVector7>)
    requires |units| == |leaves|
    requires forall i :: 0 <= i < |units| ==> units[i].base < WORD_SIZE
    ensures r.Some? <==> BV.Count(leaves, |leaves|) > 0
    ensures r.Some? ==> Encodes(r.value, units, leaves)
    ensures r.Some? ==> r.value.numFrees == BV.Count(SelfChecked(units), |units|)
  {
    var levels: seq<Level> := seq(LEVELS, _ => Level([], []));
    var links: seq<nat> := [];
    var numFrees: nat := 0;
    var i: nat := 0;
    while i < |units|
      invariant i <= |units| && Encoded(units, leaves, levels, links, i)
      invariant numFrees == BV.Count(SelfChecked(units), i)
    {
      levels, links := EncodeUnit(levels, links, units, leaves, i);
      if units[i].check == i {
        numFrees := numFrees + 1;
      }
      i := i + 1;
    }
    var compact := CV.Build(links);
    if compact.None? {
      return None;
    }
    var flags := BV.FromBools(leaves, true, false);
    var v := BcVector7(numFrees, levels, compact.value, flags);
    assert EncodedBy(v, units, leaves, links);
    return Some(v);
  }

  /** What an entry tells: its value, or where the next level goes on. */
  lemma EntryTells(levels: seq<Level>, j: nat, i: nat, x: nat)
    requires j + 1 < |levels| && Spells(levels, j, i, x)
    ensures x < BlockSize(j) ==> And(levels[j].ints[i], 1) == 0 && Shr(levels[j].ints[i], 1) == x
    ensures BlockSize(j) <= x ==>
              And(levels[j].ints[i], 1) == 1 && i / BlockSize(j) < |levels[j].ranks| &&
              Spells(levels, j + 1, levels[j].ranks[i / BlockSize(j)] + Shr(levels[j].ints[i], 1), x)
  {
    var v := levels[j].ints[i];
    Halves(v);
    if x >= BlockSize(j) {
      assert PointsTo(levels, j, i, x);
    }
  }

  lemma Halves(v: nat)
    ensures Shr(v, 1) == v / 2 && And(v, 1) == v % 2
  {
    AndMask(v, 1);
    assert Pow2(1) == 2 && Low(v / 2, 0) == 0;
    assert Shr(v / 2, 0) == v / 2;
  }

  /** access: the value if the entry's lowest bit is clear, else the entry points into the next level. */
  method Access(v: BcVector7, index: nat, ghost value: nat) returns (x: nat)
    requires |v.levels| == LEVELS && Spells(v.levels, 0, index, value)
    ensures x == value
  {
    var i := index;
    EntryTells(v.levels, 0, i, value);
    x := Shr(v.levels[0].ints[i], 1);
    if And(v.levels[0].ints[i], 1) == 0 {
      return;
    }
    i := v.levels[0].ranks[i / BlockSize(0)] + x;
    EntryTells(v.levels, 1, i, value);
    x := Shr(v.levels[1].ints[i], 1);
    if And(v.levels[1].ints[i], 1) == 0 {
      return;
    }
    i := v.levels[1].ranks[i / BlockSize(1)] + x;
    EntryTells(v.levels, 2, i, value);
    x := Shr(v.levels[2].ints[i], 1);
    if And(v.levels[2].ints[i], 1) == 0 {
      return;
    }
    i := v.levels[2].ranks[i / BlockSize(2)] + x;
    x := v.levels[3].ints[i];
  }

  method Base(v: BcVector7, i: nat, ghost units: seq<Unit>, ghost leaves: seq<bool>) returns (r: nat)
    requires Encodes(v, units, leaves) && i < |units| == |leaves| && !leaves[i]
    ensures r == units[i].base
  {
    ghost var links :| EncodedBy(v, units, leaves, links);
    assert EntryOk(units, leaves, v.levels, links, i);
    XorInverse(units[i].base, i);
    var x := Access(v, i * 2, Xor(units[i].base, i));
    r := Xor(x, i);
  }

  method Check(v: BcVector7, i: nat, ghost units: seq<Unit>, ghost leaves: seq<bool>) returns (r: nat)
    requires Encodes(v, units, leaves) && i < |units| == |leaves|
    ensures r == units[i].check
  {
    ghost var links :| EncodedBy(v, units, leaves, links);
    assert EntryOk(units, leaves, v.levels, links, i);
    XorInverse(units[i].check, i);
    var x := Access(v, i * 2 + 1, Xor(units[i].check, i));
    r := Xor(x, i);
  }

  method IsLeaf(v: BcVector7, i: nat, ghost units: seq<Unit>, ghost leaves: seq<bool>) returns (r: bool)
    requires Encodes(v, units, leaves) && i < |units| == |leaves|
    ensures r == leaves[i]
  {
    ghost var links :| EncodedBy(v, units, leaves, links);
    r := BV.Get(v.leaves, i);
  }

  /** What the parts of a link hold. */
  lemma LinkParts(v: BcVector7, i: nat, units: seq<Unit>, leaves: seq<bool>)
    requires Encodes(v, units, leaves) && i < |units| == |leaves| && leaves[i]
    ensures BV.RankReady(v.leaves) && BV.Contents(v.leaves) == leaves && CV.Valid(v.links)
    ensures v.levels != [] && i * 2 < |v.levels[0].ints| && v.levels[0].ints[i * 2] == Low(units[i].base, 8)
    ensures BV.Count(leaves, i) < v.links.size && CV.Get(v.links, BV.Count(leaves, i)) == Shr(units[i].base, 8)
    ensures units[i].base < WORD_SIZE
  {
    var links :| EncodedBy(v, units, leaves, links);
    assert EntryOk(units, leaves, v.levels, links, i);
    CV.GetStored(v.links, links, BV.Count(leaves, i));
  }

  method Link(v: BcVector7, i: nat, ghost units: seq<Unit>, ghost leaves: seq<bool>) returns (r: nat)
    requires Encodes(v, units, leaves) && i < |units| == |leaves| && leaves[i]
    ensures r == units[i].base
  {
    LinkParts(v, i, units, leaves);
    LinkBytes(units[i].base);
    var k := BV.Rank(v.leaves, i);
    r := Or(v.levels[0].ints[i * 2], Shl(CV.Get(v.links, k), 8));
  }
}
