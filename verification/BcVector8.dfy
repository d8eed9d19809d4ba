/** BASE and CHECK as differences from the slot number, in byte levels linked by rank. */
module BcVector8 {
  import opened Options
  import opened Bits
  import opened Packed
  import opened FreeList
  import opened BcUnits
  import BV = BitVector
  import CV = CompactVector

  const MAX_LEVELS: nat := 8

  /** One level: a byte per entry, and whether the entry goes on in the next level. */
  datatype Level = Level(bytes: seq<byte>, flags: seq<bool>)

  ghost predicate LevelsOk(levels: seq<Level>) {
    && |levels| == MAX_LEVELS
    && (forall j :: 0 <= j < MAX_LEVELS ==> |levels[j].bytes| == |levels[j].flags|)
    && (forall j: nat {:trigger LinkOk(levels, j)} :: j + 1 < MAX_LEVELS ==> LinkOk(levels, j))
    && BV.Count(levels[MAX_LEVELS - 1].flags, |levels[MAX_LEVELS - 1].flags|) == 0
  }

  /** Every raised flag of level j has its entry in level j + 1. */
  ghost predicate LinkOk(levels: seq<Level>, j: nat)
    requires j + 1 < |levels|
  {
    BV.Count(levels[j].flags, |levels[j].flags|) == |levels[j + 1].bytes|
  }

  /** Entry i of level j, with what follows it further up, spells x. */
  ghost predicate Spells(levels: seq<Level>, j: nat, i: nat, x: nat)
    decreases |levels| - j
  {
    var rest := Shr(x, 8);
    && j < |levels| && i < |levels[j].bytes| == |levels[j].flags|
    && levels[j].bytes[i] == Low(x, 8)
    && (levels[j].flags[i] <==> rest != 0)
    && (rest != 0 ==> Spells(levels, j + 1, BV.Count(levels[j].flags, i), rest))
  }

  function Push(level: Level, b: byte, flag: bool): Level {
    Level(level.bytes + [b], level.flags + [flag])
  }

  /** The levels with x appended from level j on. */
  function Appended(levels: seq<Level>, j: nat, x: nat): (r: seq<Level>)
    ensures |r| == |levels|
    decreases |levels| - j
  {
    if |levels| <= j then levels
    else
      var rest := Shr(x, 8);
      var pushed := levels[j := Push(levels[j], LowByte(x), rest != 0)];
      if rest != 0 then Appended(pushed, j + 1, rest) else pushed
  }

  lemma {:induction false} AppendedFrame(levels: seq<Level>, j: nat, x: nat)
    ensures var r := Appended(levels, j, x);
            forall k :: 0 <= k < |levels| ==>
              levels[k].bytes <= r[k].bytes && levels[k].flags <= r[k].flags && (k < j ==> r[k] == levels[k])
    decreases |levels| - j
  {
    if j < |levels| && Shr(x, 8) != 0 {
      AppendedFrame(levels[j := Push(levels[j], LowByte(x), true)], j + 1, Shr(x, 8));
    }
  }

  /** x has at most n bytes. */
  ghost predicate Fits(x: nat, n: nat)
    decreases n
  {
    if n == 0 then x == 0 else Fits(Shr(x, 8), n - 1)
  }

  /** Entries were only added. */
  ghost predicate Grows(levels: seq<Level>, levels': seq<Level>) {
    && |levels'| == |levels|
    && forall k :: 0 <= k < |levels| ==>
         levels[k].bytes <= levels'[k].bytes && levels[k].flags <= levels'[k].flags
         && |levels'[k].bytes| == |levels'[k].flags|
  }

  /** Appending keeps what was there readable. */
  lemma {:induction false} SpellsKept(levels: seq<Level>, levels': seq<Level>, j: nat, i: nat, x: nat)
    requires Spells(levels, j, i, x) && Grows(levels, levels')
    ensures Spells(levels', j, i, x)
    decreases |levels| - j
  {
    assert levels[j].flags[..i] == levels'[j].flags[..i];
    BV.CountPrefix(levels[j].flags, levels'[j].flags, i);
    if Shr(x, 8) != 0 {
      SpellsKept(levels, levels', j + 1, BV.Count(levels[j].flags, i), Shr(x, 8));
    }
  }

  lemma CountSnoc(s: seq<bool>, b: bool)
    ensures BV.Count(s + [b], |s| + 1) == BV.Count(s, |s|) + (if b then 1 else 0)
  {
    BV.CountPrefix(s + [b], s, |s|);
  }

  /** All links are right but the one into level j > 0, which lacks one entry. */
  ghost predicate Awaiting(levels: seq<Level>, j: nat) {
    && |levels| == MAX_LEVELS && j < MAX_LEVELS
    && (forall k :: 0 <= k < MAX_LEVELS ==> |levels[k].bytes| == |levels[k].flags|)
    && (forall k: nat {:trigger LinkOk(levels, k)} :: k + 1 < MAX_LEVELS && k + 1 != j ==> LinkOk(levels, k))
    && (j > 0 ==> BV.Count(levels[j - 1].flags, |levels[j - 1].flags|) == |levels[j].bytes| + 1)
    && BV.Count(levels[MAX_LEVELS - 1].flags, |levels[MAX_LEVELS - 1].flags|) == 0
  }

  /** Pushing at level j moves the lacking entry one level up, or supplies it. */
  lemma PushedAwaits(levels: seq<Level>, j: nat, b: byte, flag: bool)
    requires Awaiting(levels, j)
    ensures var pushed := levels[j := Push(levels[j], b, flag)];
            if flag && j + 1 < MAX_LEVELS then Awaiting(pushed, j + 1) else flag || LevelsOk(pushed)
  {
    var pushed := levels[j := Push(levels[j], b, flag)];
    CountSnoc(levels[j].flags, flag);
    forall k: nat | k + 1 < MAX_LEVELS && !(flag && k == j) ensures LinkOk(pushed, k) {
      if k + 1 != j { assert LinkOk(levels, k); }
    }
    if j + 1 < MAX_LEVELS { assert LinkOk(levels, j); }
  }

  /** Appending at level j supplies the missing entry, and the new entry spells x. */
  lemma {:induction false} AppendedSpells(levels: seq<Level>, j: nat, x: nat)
    requires Awaiting(levels, j) && Fits(x, MAX_LEVELS - j)
    ensures LevelsOk(Appended(levels, j, x)) && Spells(Appended(levels, j, x), j, |levels[j].bytes|, x)
    decreases MAX_LEVELS - j
  {
    var rest := Shr(x, 8);
    var pushed := levels[j := Push(levels[j], LowByte(x), rest != 0)];
    PushedAwaits(levels, j, LowByte(x), rest != 0);
    if rest != 0 {
      AppendedSpells(pushed, j + 1, rest);
      PushedFollows(levels, j, x, pushed);
    }
  }

  /** The entry pushed at level j goes on with what is appended from level j + 1 on. */
  lemma PushedFollows(levels: seq<Level>, j: nat, x: nat, pushed: seq<Level>)
    requires Awaiting(levels, j) && j + 1 < MAX_LEVELS && Shr(x, 8) != 0
    requires pushed == levels[j := Push(levels[j], LowByte(x), true)]
    requires Spells(Appended(pushed, j + 1, Shr(x, 8)), j + 1, |levels[j + 1].bytes|, Shr(x, 8))
    ensures Spells(Appended(pushed, j + 1, Shr(x, 8)), j, |levels[j].bytes|, x)
  {
    assert LinkOk(levels, j);
    AppendedFrame(pushed, j + 1, Shr(x, 8));
    BV.CountPrefix(pushed[j].flags, levels[j].flags, |levels[j].flags|);
  }

  lemma {:induction false} FitsBelow(x: nat, n: nat)
    requires x < Pow2(8 * n)
    ensures Fits(x, n)
    decreases n
  {
    if n > 0 {
      Pow2Add(8 * (n - 1), 8);
      ShiftIsMul(Pow2(8 * (n - 1)), 8);
      ShrBelow(x, 8, Pow2(8 * (n - 1)));
      FitsBelow(Shr(x, 8), n - 1);
    }
  }

  lemma FitsWord(x: nat)
    requires x < WORD_SIZE
    ensures Fits(x, 8)
  {
    Pow2Values();
    FitsBelow(x, 8);
  }

  ghost predicate EmptyAbove(levels: seq<Level>, top: nat) {
    forall k :: top < k < |levels| ==> levels[k].bytes == [] && levels[k].flags == []
  }

  /** The levels with the last flag of level j lowered. */
  function Lowered(levels: seq<Level>, j: nat): seq<Level>
    requires j < |levels| && levels[j].flags != []
  {
    levels[j := Level(levels[j].bytes, levels[j].flags[|levels[j].flags| - 1 := false])]
  }

  lemma LoweredPush(levels: seq<Level>, j: nat, b: byte)
    requires j < |levels|
    ensures Lowered(levels[j := Push(levels[j], b, true)], j) == levels[j := Push(levels[j], b, false)]
  {
    var f := levels[j].flags;
    assert (f + [true])[|f| := false] == f + [false];
  }

  /** append_unit: every flag is raised first, the last one is taken back. */
  method AppendUnit(levels: seq<Level>, numLevels: nat, value: nat) returns (r: seq<Level>, top: nat)
    requires LevelsOk(levels) && numLevels < MAX_LEVELS && EmptyAbove(levels, numLevels) && Fits(value, MAX_LEVELS)
    ensures r == Appended(levels, 0, value) && numLevels <= top < MAX_LEVELS && EmptyAbove(r, top)
  {
    var x := value;
    var j := 0;
    LoweredPush(levels, 0, LowByte(x));
    r := levels[j := Push(levels[j], LowByte(x), true)];
    x := Shr(x, 8);
    while x != 0
      invariant j < MAX_LEVELS == |r| && Fits(x, MAX_LEVELS - 1 - j)
      invariant |r[j].flags| > 0
      invariant EmptyAbove(r, if numLevels < j then j else numLevels)
      invariant Appended(levels, 0, value) == if x == 0 then Lowered(r, j) else Appended(r, j + 1, x)
      decreases MAX_LEVELS - j
    {
      j := j + 1;
      LoweredPush(r, j, LowByte(x));
      r := r[j := Push(r[j], LowByte(x), true)];
      x := Shr(x, 8);
    }
    r := Lowered(r, j);
    top := if numLevels < j then j else numLevels;
  }

  // ---------- the units ----------

  /** The low byte of a leaf's link stays in level 0, the rest goes to links; other bases are spelled out. */
  ghost predicate BaseOk(units: seq<Unit>, leaves: seq<bool>, levels: seq<Level>, links: seq<nat>, i: nat)
    requires i < |units| == |leaves|
  {
    if leaves[i] then
      && levels != [] && 2 * i < |levels[0].bytes| && levels[0].bytes[2 * i] == Low(units[i].base, 8)
      && BV.Count(leaves, i) < |links| && links[BV.Count(leaves, i)] == Shr(units[i].base, 8)
    else Spells(levels, 0, 2 * i, Xor(units[i].base, i))
  }

  ghost predicate EntryOk(units: seq<Unit>, leaves: seq<bool>, levels: seq<Level>, links: seq<nat>, i: nat)
    requires i < |units| == |leaves|
  {
    BaseOk(units, leaves, levels, links, i) && Spells(levels, 0, 2 * i + 1, Xor(units[i].check, i))
  }

  /** The first n units are encoded. */
  ghost predicate Encoded(units: seq<Unit>, leaves: seq<bool>, levels: seq<Level>, links: seq<nat>, n: nat)
    requires n <= |units| == |leaves|
  {
    && LevelsOk(levels) && |levels[0].bytes| == 2 * n && |links| == BV.Count(leaves, n)
    && (forall i: nat :: i < n ==> EntryOk(units, leaves, levels, links, i))
    && (forall k :: 0 <= k < |links| ==> links[k] < Pow2(63))
  }

  lemma BaseKept(units: seq<Unit>, leaves: seq<bool>, levels: seq<Level>, links: seq<nat>, levels': seq<Level>,
      links': seq<nat>, i: nat)
    requires i < |units| == |leaves| && BaseOk(units, leaves, levels, links, i)
    requires Grows(levels, levels') && links <= links'
    ensures BaseOk(units, leaves, levels', links', i)
  {
    if !leaves[i] {
      SpellsKept(levels, levels', 0, 2 * i, Xor(units[i].base, i));
    }
  }

  lemma EntriesKept(units: seq<Unit>, leaves: seq<bool>, levels: seq<Level>, links: seq<nat>, levels': seq<Level>,
      links': seq<nat>, n: nat)
    requires n <= |units| == |leaves| && Grows(levels, levels') && links <= links'
    requires forall i: nat :: i < n ==> EntryOk(units, leaves, levels, links, i)
    ensures forall i: nat :: i < n ==> EntryOk(units, leaves, levels', links', i)
  {
    forall i: nat | i < n ensures EntryOk(units, leaves, levels', links', i) {
      assert EntryOk(units, leaves, levels, links, i);
      BaseKept(units, leaves, levels, links, levels', links', i);
      SpellsKept(levels, levels', 0, 2 * i + 1, Xor(units[i].check, i));
    }
  }

  lemma GrowsTransitive(a: seq<Level>, b: seq<Level>, c: seq<Level>)
    requires Grows(a, b) && Grows(b, c)
    ensures Grows(a, c)
  {
  }

  /** One append puts one entry into level 0. */
  lemma AppendedOne(levels: seq<Level>, x: nat)
    requires LevelsOk(levels) && Fits(x, MAX_LEVELS)
    ensures var r := Appended(levels, 0, x);
            LevelsOk(r) && Grows(levels, r) && Spells(r, 0, |levels[0].bytes|, x)
            && |r[0].bytes| == |levels[0].bytes| + 1
  {
    AppendedSpells(levels, 0, x);
    AppendedFrame(levels, 0, x);
    if Shr(x, 8) != 0 {
      AppendedFrame(levels[0 := Push(levels[0], LowByte(x), true)], 1, Shr(x, 8));
    }
  }

  /** append_leaf */
  method AppendLeaf(levels: seq<Level>, links: seq<nat>, x: nat) returns (r: seq<Level>, links': seq<nat>)
    requires LevelsOk(levels)
    ensures LevelsOk(r) && Grows(levels, r) && forall k :: 0 < k < MAX_LEVELS ==> r[k] == levels[k]
    ensures r[0].bytes == levels[0].bytes + [Low(x, 8)]
    ensures links' == links + [Shr(x, 8)]
  {
    r := levels[0 := Push(levels[0], LowByte(x), false)];
    links' := links + [Shr(x, 8)];
    CountSnoc(levels[0].flags, false);
    forall k: nat | k + 1 < MAX_LEVELS ensures LinkOk(r, k) {
      assert LinkOk(levels, k);
    }
  }

  /** The base or link of one unit. */
  method EncodeBase(levels: seq<Level>, links: seq<nat>, numLevels: nat, units: seq<Unit>, leaves: seq<bool>, i: nat)
      returns (r: seq<Level>, links': seq<nat>, top: nat)
    requires i < |units| == |leaves| < WORD_SIZE && units[i].base < WORD_SIZE
    requires LevelsOk(levels) && |levels[0].bytes| == 2 * i && |links| == BV.Count(leaves, i)
    requires numLevels < MAX_LEVELS && EmptyAbove(levels, numLevels)
    ensures LevelsOk(r) && Grows(levels, r) && |r[0].bytes| == 2 * i + 1 && BaseOk(units, leaves, r, links', i)
    ensures links' == if leaves[i] then links + [Shr(units[i].base, 8)] else links
    ensures top < MAX_LEVELS && EmptyAbove(r, top)
  {
    if leaves[i] {
      r, links' := AppendLeaf(levels, links, units[i].base);
      top := numLevels;
    } else {
      r, top := AppendWord(levels, numLevels, Xor(units[i].base, i), units[i].base, i);
      links' := links;
    }
  }

  /** Appends the difference of a value and its slot. */
  method AppendWord(levels: seq<Level>, numLevels: nat, x: nat, ghost value: nat, ghost i: nat)
      returns (r: seq<Level>, top: nat)
    requires value < WORD_SIZE && i < WORD_SIZE && x == Xor(value, i)
    requires LevelsOk(levels) && numLevels < MAX_LEVELS && EmptyAbove(levels, numLevels)
    ensures LevelsOk(r) && Grows(levels, r) && Spells(r, 0, |levels[0].bytes|, x)
            && |r[0].bytes| == |levels[0].bytes| + 1
    ensures top < MAX_LEVELS && EmptyAbove(r, top)
  {
    XorWord(value, i);
    FitsWord(x);
    AppendedOne(levels, x);
    r, top := AppendUnit(levels, numLevels, x);
  }

  lemma EncodedNext(units: seq<Unit>, leaves: seq<bool>, levels: seq<Level>, links: seq<nat>, half: seq<Level>,
      levels': seq<Level>, links': seq<nat>, i: nat)
    requires i < |units| == |leaves| && units[i].base < WORD_SIZE && Encoded(units, leaves, levels, links, i)
    requires Grows(levels, half) && BaseOk(units, leaves, half, links', i)
    requires links' == if leaves[i] then links + [Shr(units[i].base, 8)] else links
    requires LevelsOk(levels') && Grows(half, levels') && |levels'[0].bytes| == 2 * i + 2
    requires Spells(levels', 0, 2 * i + 1, Xor(units[i].check, i))
    ensures Encoded(units, leaves, levels', links', i + 1)
  {
    LinkFits(units[i].base);
    NextEntry(units, leaves, levels, links, half, levels', links', i);
  }

  lemma NextEntry(units: seq<Unit>, leaves: seq<bool>, levels: seq<Level>, links: seq<nat>, half: seq<Level>,
      levels': seq<Level>, links': seq<nat>, i: nat)
    requires i < |units| == |leaves| && forall k: nat :: k < i ==> EntryOk(units, leaves, levels, links, k)
    requires Grows(levels, half) && Grows(half, levels') && links <= links' && BaseOk(units, leaves, half, links', i)
    requires Spells(levels', 0, 2 * i + 1, Xor(units[i].check, i))
    ensures forall k: nat :: k < i + 1 ==> EntryOk(units, leaves, levels', links', k)
  {
    GrowsTransitive(levels, half, levels');
    BaseKept(units, leaves, half, links', levels', links', i);
    EntriesKept(units, leaves, levels, links, levels', links', i);
  }

  /** The body of the constructor's loop. */
  method EncodeUnit(levels: seq<Level>, links: seq<nat>, numLevels: nat, units: seq<Unit>, leaves: seq<bool>, i: nat)
      returns (r: seq<Level>, links': seq<nat>, top: nat)
    requires i < |units| == |leaves| < WORD_SIZE && units[i].base < WORD_SIZE && units[i].check < WORD_SIZE
    requires Encoded(units, leaves, levels, links, i) && numLevels < MAX_LEVELS && EmptyAbove(levels, numLevels)
    ensures Encoded(units, leaves, r, links', i + 1) && top < MAX_LEVELS && EmptyAbove(r, top)
  {
    var half;
    half, links', top := EncodeBase(levels, links, numLevels, units, leaves, i);
    r, top := AppendWord(half, top, Xor(units[i].check, i), units[i].check, i);
    EncodedNext(units, leaves, levels, links, half, r, links', i);
  }

  // ---------- the finished vector ----------

  datatype BcVector8 = BcVector8(numLevels: nat, numFrees: nat, bytes: seq<seq<byte>>, nexts: seq<BV.BitVector>,
                                 links: CV.CompactVector, leaves: BV.BitVector)

  /** The released levels of a vector are those of the build. */
  ghost predicate Released(v: BcVector8, levels: seq<Level>) {
    && LevelsOk(levels) && v.numLevels < MAX_LEVELS
    && |v.bytes| == MAX_LEVELS && |v.nexts| == v.numLevels
    && (forall j :: 0 <= j <= v.numLevels ==> v.bytes[j] == levels[j].bytes)
    && (forall j :: 0 <= j < v.numLevels ==> BV.RankReady(v.nexts[j]) && BV.Contents(v.nexts[j]) == levels[j].flags)
    && (forall i :: 0 <= i < |levels[v.numLevels].flags| ==> !levels[v.numLevels].flags[i])
  }

  /** Low bits grow by one byte at a time. */
  lemma LowGrows(x: nat, n: nat, b: nat)
    requires x < WORD_SIZE && b == Low(Shr(x, n), 8)
    ensures Or(Low(x, n), Shl(b, n)) == Low(x, n + 8)
  {
    forall k: nat ensures Bit(Or(Low(x, n), Shl(b, n)), k) == Bit(Low(x, n + 8), k) {
      OrBit(Low(x, n), Shl(b, n), k);
      LowBit(x, n, k);
      LowBit(x, n + 8, k);
      ShlBit(b, n, k);
      if n <= k {
        LowBit(Shr(x, n), 8, k - n);
        ShrBit(x, n, k - n);
      }
      if 64 <= k { WordBits(x, k); }
    }
    SameBits(Or(Low(x, n), Shl(b, n)), Low(x, n + 8));
  }

  lemma LowAll(x: nat, n: nat)
    requires Shr(x, n) == 0
    ensures Low(x, n) == x
  {
    Split(x, n);
    ShiftIsMul(0, n);
  }

  /** x collects the bytes of value found in levels 0 to j, the last of them at entry i. */
  ghost predicate Collected(levels: seq<Level>, j: nat, i: nat, x: nat, value: nat) {
    Spells(levels, j, i, Shr(value, 8 * j)) && x == Low(value, 8 * j + 8)
  }

  /** x with byte b put above its j lowest bytes. */
  function WithByte(x: nat, b: byte, j: nat): nat {
    Or(x, Shl(b, j * 8))
  }

  lemma CollectStep(levels: seq<Level>, j: nat, i: nat, x: nat, value: nat, i': nat)
    requires value < WORD_SIZE && Collected(levels, j, i, x, value) && levels[j].flags[i]
    requires i' == BV.Count(levels[j].flags, i)
    ensures j + 1 < |levels| && i' < |levels[j + 1].bytes|
    ensures Collected(levels, j + 1, i', WithByte(x, levels[j + 1].bytes[i'], j + 1), value)
  {
    var shift := 8 * j;
    ShrAdd(value, shift, 8);
    assert Spells(levels, j + 1, i', Shr(value, shift + 8));
    LowGrows(value, shift + 8, levels[j + 1].bytes[i']);
  }

  lemma CollectEnd(levels: seq<Level>, j: nat, i: nat, x: nat, value: nat)
    requires Collected(levels, j, i, x, value) && !levels[j].flags[i]
    ensures x == value
  {
    ShrAdd(value, 8 * j, 8);
    LowAll(value, 8 * j + 8);
  }

  lemma CollectStart(levels: seq<Level>, i: nat, value: nat)
    requires Spells(levels, 0, i, value)
    ensures Collected(levels, 0, i, levels[0].bytes[i], value)
  {
  }

  /** The entry at which level j + 1 goes on with entry i of level j, and the byte found there put in its place. */
  method FollowLink(v: BcVector8, j: nat, i: nat, x: nat, ghost levels: seq<Level>, ghost value: nat)
      returns (i': nat, x': nat)
    requires Released(v, levels) && j < v.numLevels && value < WORD_SIZE
    requires Collected(levels, j, i, x, value) && levels[j].flags[i]
    ensures Collected(levels, j + 1, i', x', value)
  {
    CollectStep(levels, j, i, x, value, BV.Count(levels[j].flags, i));
    i' := BV.Rank(v.nexts[j], i);
    x' := WithByte(x, v.bytes[j + 1][i'], j + 1);
  }

  /** access: follows the flags up the levels, collecting bytes. */
  method Access(v: BcVector8, index: nat, ghost levels: seq<Level>, ghost value: nat) returns (x: nat)
    requires Released(v, levels) && Spells(levels, 0, index, value) && value < WORD_SIZE
    ensures x == value
  {
    var i := index;
    var j := 0;
    CollectStart(levels, index, value);
    x := v.bytes[j][i];
    while j < v.numLevels && BV.Get(v.nexts[j], i)
      invariant j <= v.numLevels
      invariant Collected(levels, j, i, x, value)
      decreases v.numLevels - j
    {
      i, x := FollowLink(v, j, i, x, levels, value);
      j := j + 1;
    }
    CollectEnd(levels, j, i, x, value);
  }

  /** The units a vector encodes. */
  ghost predicate EncodedBy(v: BcVector8, units: seq<Unit>, leaves: seq<bool>, levels: seq<Level>, links: seq<nat>) {
    && |units| == |leaves| < WORD_SIZE && Encoded(units, leaves, levels, links, |units|) && Released(v, levels)
    && CV.Stores(v.links, links) && BV.RankReady(v.leaves) && BV.Contents(v.leaves) == leaves
    && (forall i :: 0 <= i < |units| ==> units[i].base < WORD_SIZE && units[i].check < WORD_SIZE)
  }

  ghost predicate Encodes(v: BcVector8, units: seq<Unit>, leaves: seq<bool>) {
    exists levels, links :: EncodedBy(v, units, leaves, levels, links)
  }

  /** A level with no entry above it has no raised flag. */
  lemma NoFlagAtTop(levels: seq<Level>, top: nat)
    requires LevelsOk(levels) && top < MAX_LEVELS && EmptyAbove(levels, top)
    ensures forall i :: 0 <= i < |levels[top].flags| ==> !levels[top].flags[i]
  {
    if top + 1 < MAX_LEVELS { assert LinkOk(levels, top); }
    var f := levels[top].flags;
    forall i | 0 <= i < |f| ensures !f[i] {
      if f[i] { BV.CountStrict(f, i, |f|); }
    }
  }

  lemma NoLevels(levels: seq<Level>)
    requires |levels| == MAX_LEVELS && forall k :: 0 <= k < MAX_LEVELS ==> levels[k] == Level([], [])
    ensures LevelsOk(levels)
  {
  }

  /** The constructor: no vector when there is no leaf, for then there are no links to store. */
  method Build(units: seq<Unit>, leaves: seq<bool>) returns (r: Option<BcVector8>)
    requires |units| == |leaves| < WORD_SIZE
    requires forall i :: 0 <= i < |units| ==> units[i].base < WORD_SIZE && units[i].check < WORD_SIZE
    ensures r.Some? <==> BV.Count(leaves, |leaves|) > 0
    ensures r.Some? ==> Encodes(r.value, units, leaves)
    ensures r.Some? ==> r.value.numFrees == BV.Count(SelfChecked(units), |units|)
  {
    hide LevelsOk, EntryOk, Released;
    var levels: seq<Level> := seq(MAX_LEVELS, _ => Level([], []));
    NoLevels(levels);
    var links: seq<nat> := [];
    var numLevels: nat, numFrees: nat := 0, 0;
    var i: nat := 0;
    while i < |units|
      invariant i <= |units| && numLevels < MAX_LEVELS && EmptyAbove(levels, numLevels)
      invariant Encoded(units, leaves, levels, links, i)
      invariant numFrees == BV.Count(SelfChecked(units), i)
    {
      levels, links, numLevels := EncodeUnit(levels, links, numLevels, units, leaves, i);
      if units[i].check == i {
        numFrees := numFrees + 1;
      }
      i := i + 1;
    }
    var compact := CV.Build(links);
    if compact.None? {
      return None;
    }
    var v := Release(levels, numLevels, numFrees, compact.value, leaves);
    assert EncodedBy(v, units, leaves, levels, links);
    return Some(v);
  }

  /** The release of the levels into their final vectors. */
  method Release(levels: seq<Level>, numLevels: nat, numFrees: nat, links: CV.CompactVector, leaves: seq<bool>)
      returns (v: BcVector8)
    requires LevelsOk(levels) && numLevels < MAX_LEVELS && EmptyAbove(levels, numLevels)
    ensures Released(v, levels) && v.numFrees == numFrees && v.links == links
    ensures BV.RankReady(v.leaves) && BV.Contents(v.leaves) == leaves
  {
    hide BV.Contents;
    NoFlagAtTop(levels, numLevels);
    var bytes := [];
    var nexts: seq<BV.BitVector> := [];
    var j := 0;
    while j < numLevels
      invariant j <= numLevels && |bytes| == |nexts| == j
      invariant forall k :: 0 <= k < j ==> bytes[k] == levels[k].bytes
      invariant forall k :: 0 <= k < j ==> BV.RankReady(nexts[k]) && BV.Contents(nexts[k]) == levels[k].flags
    {
      bytes := bytes + [levels[j].bytes];
      var next := BV.FromBools(levels[j].flags, true, false);
      nexts := nexts + [next];
      j := j + 1;
    }
    bytes := bytes + [levels[numLevels].bytes];
    var flags := BV.FromBools(leaves, true, false);
    v := BcVector8(numLevels, numFrees, bytes + seq(MAX_LEVELS - 1 - numLevels, _ => []), nexts, links, flags);
  }

  method Base(v: BcVector8, i: nat, ghost units: seq<Unit>, ghost leaves: seq<bool>) returns (r: nat)
    requires Encodes(v, units, leaves) && i < |units| == |leaves| && !leaves[i]
    ensures r == units[i].base
  {
    ghost var levels, links :| EncodedBy(v, units, leaves, levels, links);
    assert EntryOk(units, leaves, levels, links, i);
    XorWord(units[i].base, i);
    XorInverse(units[i].base, i);
    var x := Access(v, i * 2, levels, Xor(units[i].base, i));
    r := Xor(x, i);
  }

  method Check(v: BcVector8, i: nat, ghost units: seq<Unit>, ghost leaves: seq<bool>) returns (r: nat)
    requires Encodes(v, units, leaves) && i < |units| == |leaves|
    ensures r == units[i].check
  {
    ghost var levels, links :| EncodedBy(v, units, leaves, levels, links);
    assert EntryOk(units, leaves, levels, links, i);
    XorWord(units[i].check, i);
    XorInverse(units[i].check, i);
    var x := Access(v, i * 2 + 1, levels, Xor(units[i].check, i));
    r := Xor(x, i);
  }

  method IsLeaf(v: BcVector8, i: nat, ghost units: seq<Unit>, ghost leaves: seq<bool>) returns (r: bool)
    requires Encodes(v, units, leaves) && i < |units| == |leaves|
    ensures r == leaves[i]
  {
    ghost var levels, links :| EncodedBy(v, units, leaves, levels, links);
    r := BV.Get(v.leaves, i);
  }

  /** What the parts of a link hold. */
  lemma LinkParts(v: BcVector8, i: nat, units: seq<Unit>, leaves: seq<bool>)
    requires Encodes(v, units, leaves) && i < |units| == |leaves| && leaves[i]
    ensures BV.RankReady(v.leaves) && BV.Contents(v.leaves) == leaves && CV.Valid(v.links)
    ensures v.bytes != [] && i * 2 < |v.bytes[0]| && v.bytes[0][i * 2] == Low(units[i].base, 8)
    ensures BV.Count(leaves, i) < v.links.size && CV.Get(v.links, BV.Count(leaves, i)) == Shr(units[i].base, 8)
    ensures units[i].base < WORD_SIZE
  {
    hide BV.RankReady, BV.Contents, CV.Get, LinkOk;
    var levels, links :| EncodedBy(v, units, leaves, levels, links);
    assert EntryOk(units, leaves, levels, links, i);
    CV.GetStored(v.links, links, BV.Count(leaves, i));
  }

  method Link(v: BcVector8, i: nat, ghost units: seq<Unit>, ghost leaves: seq<bool>) returns (r: nat)
    requires Encodes(v, units, leaves) && i < |units| == |leaves| && leaves[i]
    ensures r == units[i].base
  {
    LinkParts(v, i, units, leaves);
    LinkBytes(units[i].base);
    var k := BV.Rank(v.leaves, i);
    r := Or(v.bytes[0][i * 2], Shl(CV.Get(v.links, k), 8));
  }
}
