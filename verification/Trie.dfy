/** The finished dictionary: lookup, decode and enumeration on the encoded double array. */
module Trie {
  import opened Options
  import opened Bits
  import opened Keys
  import opened FreeList
  import opened DoubleArray
  import opened Layout
  import opened Remaining
  import opened Rests
  import BV = BitVector
  import BC = BcVector
  import CT = CodeTable
  import FF = FirstFit
  import TB = TrieBuilder
  import TV = TailVector

  datatype Trie = Trie(numKeys: nat, table: CT.CodeTable, terms: BV.BitVector, bcvec: BC.BcVector, tvec: TV.TailVector)

  function BinMode(t: Trie): bool {
    TV.BinMode(t.tvec)
  }

  /** Whether the trie encodes the layout. */
  ghost function JudgeTrie(t: Trie, m: Layout): Verdict {
    if
      && LayoutOk(m) && t.numKeys == |m.keys|
      && CT.Describes(t.table, m.keys) && t.table.table == m.code
      && BV.SelectReady(t.terms) && BV.Contents(t.terms) == m.terms && t.terms.size == |m.terms|
      && |t.terms.bits| % 4 == 0
      && BC.Encodes(t.bcvec, m.units, m.leaves)
      && TV.Valid(t.tvec) && TV.BinMode(t.tvec) == m.bin && t.tvec.chars == m.chars
      && BV.Contents(t.tvec.terms) == m.ends
      && |m.chars| < WORD_SIZE
    then Sound else Unsound
  }

  ghost predicate Encodes(t: Trie, m: Layout) {
    JudgeTrie(t, m).Sound?
  }

  lemma Parts(t: Trie, m: Layout)
    requires Encodes(t, m)
    ensures LayoutOk(m) && BC.Encodes(t.bcvec, m.units, m.leaves) && t.table.table == m.code
  {
  }

  /** The trie holds the keys, key i under the number ids[i]. */
  ghost predicate Represents(t: Trie, keys: seq<Key>, ids: seq<nat>) {
    exists m, slots :: Encodes(t, m) && m.keys == keys && IdsOk(m, slots, ids)
  }

  // ---------- construction ----------

  lemma WordsOf256(size: nat, words: nat)
    requires size % 256 == 0 && words == (size + 63) / 64
    ensures words % 4 == 0
  {
  }

  /** All slots and positions fit a word. */
  lemma UnitsFit(m: Layout, bound: nat)
    requires LayoutOk(m) && |m.units| <= bound && |m.chars| <= bound && bound < WORD_SIZE
    ensures forall i :: 0 <= i < |m.units| ==> m.units[i].base < WORD_SIZE && m.units[i].check < WORD_SIZE
  {
    forall i | 0 <= i < |m.units| ensures m.units[i].base < WORD_SIZE && m.units[i].check < WORD_SIZE {
      assert i in m.nodes || IdleAt(m, i);
      if i in m.nodes {
        NodeFits(m, i);
      }
    }
  }

  lemma NodeFits(m: Layout, x: nat)
    requires LayoutOk(m) && x in m.nodes
    ensures x < |m.units| && (m.units[x].base <= |m.chars| || m.units[x].base < |m.units|)
    ensures m.units[x].check < |m.units| || m.units[x].check == 1
  {
    Node(m, x);
    if x != 0 {
      assert ParentOk(m.keys, m.code, m.units, AllDone(m), x);
    }
  }

  /** The last key ends in a leaf. */
  lemma SomeLeaf(m: Layout)
    requires LayoutOk(m)
    ensures BV.Count(m.leaves, |m.leaves|) > 0
  {
    Node(m, 0);
    var x := TerminalBelow(m, 0, |m.keys| - 1);
    Node(m, x);
    BV.CountStrict(m.leaves, x, |m.leaves|);
  }

  /** The nodes are where the plan puts them that keys and codes alone decide; the encoding is the one asked for. */
  ghost predicate FirstFitted(t: Trie, keys: seq<Key>, l1Bits: nat, ids: seq<nat>) {
    && |t.table.table| == 512 && CT.Describes(t.table, keys) && t.bcvec.Seven? == (l1Bits == 7)
    && var plan := FF.Laid(keys, t.table.table, l1Bits);
    && t.terms.size == |plan.useds|
    && exists m, slots :: Encodes(t, m) && m.keys == keys && m.nodes == plan.nodes && IdsOk(m, slots, ids)
  }

  /** The numbers are those that the plan gives: how many keys end in an earlier slot. */
  lemma FirstFitNumbers(t: Trie, keys: seq<Key>, l1Bits: nat, ids: seq<nat>, ids': seq<nat>)
    requires FirstFitted(t, keys, l1Bits, ids)
    ensures (exists slots :: NumberedBy(keys, FF.Laid(keys, t.table.table, l1Bits).nodes, slots, ids')) <==> ids' == ids
  {
    hide FF.Laid, JudgeLayout, CT.Describes;
    var plan := FF.Laid(keys, t.table.table, l1Bits);
    var m, slots :| Encodes(t, m) && m.keys == keys && m.nodes == plan.nodes && IdsOk(m, slots, ids);
    Parts(t, m);
    IdsNumberedBy(m, slots, ids);
    if slots' :| NumberedBy(keys, plan.nodes, slots', ids') {
      OneNumbering(m, slots, ids, slots', ids');
    }
  }

  /** The trie of a key list, if it has one. */
  method Build(keys: seq<Key>, l1Bits: nat, binMode: bool) returns (t: Option<Trie>, ghost ids: seq<nat>)
    requires Readable(keys) && 256 * (Work(keys, 0, |keys|, 0) + 1) < WORD_SIZE && (l1Bits == 7 || l1Bits == 8)
    ensures t.Some? <==> TB.Acceptable(keys)
    ensures t.Some? ==> Represents(t.value, keys, ids) && Numbering(ids) && |ids| == |keys|
    ensures t.Some? ==> (BinMode(t.value) <==> binMode || !NulFree(keys))
    ensures t.Some? ==> FirstFitted(t.value, keys, l1Bits, ids)
  {
    hide FF.Laid, CT.Describes;
    ids := [];
    var r, b;
    ghost var top;
    r, b, top := TB.Construct(keys, l1Bits, binMode);
    if !r.Complete? {
      return None, ids;
    }
    ghost var m := b.Final(top);
    var trie := Release(b.units, b.leaves, b.terms, b.table, b.bin, b.chars, b.ends, |keys|, l1Bits, m);
    ghost var slots := AllSlots(m, |keys|);
    ids := Ranks(m, slots);
    IdsNumber(m, slots, ids);
    assert Encodes(trie, m) && m.keys == keys && IdsOk(m, slots, ids);
    t := Some(trie);
  }

  ghost function Ranks(m: Layout, slots: seq<nat>): (ids: seq<nat>)
    requires SlotsOk(m, slots)
    ensures IdsOk(m, slots, ids)
  {
    assert forall i :: 0 <= i < |slots| ==> EndsIn(m, slots[i], i);
    seq(|slots|, i requires 0 <= i < |slots| => BV.Count(m.terms, slots[i]))
  }

  /** The encoded vectors of the finished arrays. */
  method Release(units: seq<Unit>, leaves: seq<bool>, terms: seq<bool>, table: CT.CodeTable, bin: bool,
      chars: seq<byte>, ends: seq<bool>,
                 numKeys: nat, l1Bits: nat, ghost m: Layout) returns (t: Trie)
    requires LayoutOk(m) && m == Layout(m.keys, table.table, units, leaves, terms, m.nodes, bin, chars, ends, m.top)
    requires CT.Describes(table, m.keys) && numKeys == |m.keys| && (l1Bits == 7 || l1Bits == 8)
    requires |units| <= 256 * (Work(m.keys, 0, |m.keys|, 0) + 1) < WORD_SIZE
             && |chars| <= 1 + Work(m.keys, 0, |m.keys|, 0)
    ensures Encodes(t, m) && BinMode(t) == bin && t.table == table && t.bcvec.Seven? == (l1Bits == 7)
  {
    UnitsFit(m, 256 * (Work(m.keys, 0, |m.keys|, 0) + 1));
    SomeLeaf(m);
    var flags := BV.FromBools(terms, true, true);
    WordsOf256(|terms|, |flags.bits|);
    var bcvec := BC.Build(units, leaves, l1Bits);
    var tvec := TV.Release(bin, chars, ends);
    t := Trie(numKeys, table, flags, bcvec.value, tvec);
  }

  // ---------- lookup ----------

  /** What lookup answers; OutOfBounds is a read past the end of the tail. */
  datatype Answer = Id(id: nat) | Absent | OutOfBounds

  /** In binary mode a bare key, a null byte and the first string of the tail pass for the bare key. */
  ghost predicate Phantom(keys: seq<Key>, i: nat, key: Key) {
    Bare(keys, i) && exists top :: IsTop(keys, top) && key == keys[i] + ([0] + top)
  }

  /** In binary mode, when the tail is empty, a bare key, a null byte and more run past its end. */
  ghost predicate Overread(keys: seq<Key>, i: nat, key: Key) {
    Bare(keys, i) && (forall j: nat, w :: !RestOf(keys, j, w)) && keys[i] + [0] < key
  }

  /** The two ways in which lookup strays behind a bare key. */
  ghost predicate Taken(keys: seq<Key>, i: nat, key: Key) {
    Phantom(keys, i, key) || Overread(keys, i, key)
  }

  lemma TakenIsBare(keys: seq<Key>, i: nat, key: Key)
    requires Taken(keys, i, key)
    ensures Bare(keys, i) && keys[i] < key
  {
    if Phantom(keys, i, key) {
      var top :| IsTop(keys, top) && key == keys[i] + ([0] + top);
    } else {
      assert keys[i] <= keys[i] + [0] <= key;
    }
  }

  lemma TakenHasNul(keys: seq<Key>, i: nat, key: Key)
    requires Taken(keys, i, key)
    ensures !NulFreeKey(key)
  {
    TakenIsBare(keys, i, key);
    if Phantom(keys, i, key) {
      var top :| IsTop(keys, top) && key == keys[i] + ([0] + top);
      assert key[|keys[i]|] == ([0] + top)[0];
    } else {
      assert key[|keys[i]|] == (keys[i] + [0])[|keys[i]|];
    }
  }

  ghost predicate AnswerOk(keys: seq<Key>, ids: seq<nat>, bin: bool, key: Key, r: Answer)
    requires |ids| == |keys|
  {
    match r
    case Id(id) => exists i :: 0 <= i < |keys| && ids[i] == id && (keys[i] == key || (bin && Phantom(keys, i, key)))
    case Absent => key !in keys && (bin ==> forall i: nat :: !Taken(keys, i, key))
    case OutOfBounds => bin && exists i: nat :: Overread(keys, i, key)
  }

  /** A bare key on the way to a node leads through it: it goes on below, or the node is its leaf. */
  lemma BareBeyond(m: Layout, x: nat, i: nat, key: Key)
    requires LayoutOk(m) && x in m.nodes && x < |m.leaves| && Path(m, x) <= key && Bare(m.keys, i) && m.keys[i] <= key
    ensures m.nodes[x].beg <= i < m.nodes[x].end && (m.nodes[x].kpos < |m.keys[i]| || m.leaves[x])
  {
    Node(m, x);
    var k := m.nodes[x].kpos;
    if k < |m.keys[i]| {
      assert Path(m, x) <= m.keys[i];
      BelowNode(m, x, i);
    } else {
      OnlyBare(m, x, i, key, m.nodes[x].beg);
      if !m.leaves[x] {
        OnlyBare(m, x, i, key, i + 1);
      }
    }
  }

  lemma OnlyBare(m: Layout, x: nat, i: nat, key: Key, j: nat)
    requires LayoutOk(m) && x in m.nodes && Path(m, x) <= key && Bare(m.keys, i) && m.keys[i] <= key
             && |m.keys[i]| <= m.nodes[x].kpos
    requires m.nodes[x].beg <= j < m.nodes[x].end
    ensures j == i
  {
    Node(m, x);
    assert m.keys[i] == key[..|m.keys[i]|] == Path(m, x)[..|m.keys[i]|] == m.keys[j][..m.nodes[x].kpos][..|m.keys[i]|];
    assert SharePrefix(m.keys[j], m.keys[i], |m.keys[i]|);
  }

  /** A stored key on the way to a node is one of the node's. */
  lemma KeyBeyond(m: Layout, x: nat, i: nat, key: Key)
    requires LayoutOk(m) && x in m.nodes && Path(m, x) <= key && i < |m.keys| && m.keys[i] == key
    ensures m.nodes[x].beg <= i < m.nodes[x].end
  {
    BelowNode(m, x, i);
  }

  /** What match returns at leaf x for the rest of the query; s is what the tail holds there. */
  ghost function Matched(m: Layout, x: nat, rest: Key, s: Key): Option<bool>
    requires x < |m.units|
  {
    if rest == [] then Some(m.units[x].base == 0)
    else if m.units[x].base == 0 && m.bin && |m.chars| == 1 then if |rest| > 1
            && rest[0] == 0 then None else Some(false)
    else Some(rest == s)
  }

  /** The string match meets at leaf x: the rest of its key, or what stands at the beginning of the tail. */
  ghost predicate Meets(m: Layout, x: nat, s: Key)
    requires x < |m.units|
  {
    if m.units[x].base != 0 then RestAt(m, x, s)
    else s == if !m.bin then [] else [0] + m.top
  }

  lemma LeafTail(t: Trie, m: Layout, x: nat) returns (s: Key)
    requires Encodes(t, m) && x in m.nodes && x < |m.leaves| && m.leaves[x] && x < |m.units|
    ensures TV.Reads(t.tvec, m.units[x].base, s) || (m.units[x].base == 0 && TV.Lone(t.tvec))
    ensures Meets(m, x, s)
  {
    Node(m, x);
    if m.units[x].base != 0 {
      s := m.keys[m.nodes[x].beg][m.nodes[x].kpos..];
    } else if !m.bin {
      s := [];
    } else {
      s := [0] + m.top;
      if |m.chars| > 1 {
        assert m.chars[0..1 + |m.top|] == [m.chars[0]] + m.chars[1..1 + |m.top|];
      }
    }
  }

  /** A leaf on the way to the query settles it. */
  lemma LeafAnswer(m: Layout, slots: seq<nat>, ids: seq<nat>, x: nat, key: Key, s: Key)
    requires LayoutOk(m) && IdsOk(m, slots, ids) && x in m.nodes && x < |m.leaves| == |m.units| && m.leaves[x]
    requires Path(m, x) <= key && Meets(m, x, s)
    ensures m.nodes[x].kpos <= |key|
    ensures var found := Matched(m, x, key[m.nodes[x].kpos..], s);
            AnswerOk(m.keys, ids, m.bin, key,
                     if found.None? then OutOfBounds else if found.value then Id(BV.Count(m.terms, x)) else Absent)
  {
    Node(m, x);
    var i, k := m.nodes[x].beg, m.nodes[x].kpos;
    var rest := key[k..];
    OneTerminal(m, x, slots[i], i);
    assert key == Path(m, x) + rest;
    assert m.keys[i] == Path(m, x) + m.keys[i][k..];
    forall j | 0 <= j < |m.keys| && m.keys[j] == key ensures j == i {
      KeyBeyond(m, x, j, key);
    }
    forall j: nat | Taken(m.keys, j, key) ensures j == i {
      TakenIsBare(m.keys, j, key);
      BareBeyond(m, x, j, key);
    }
    if m.units[x].base != 0 {
      TailNotBare(m, x);
      if Taken(m.keys, i, key) {
        TakenIsBare(m.keys, i, key);
      }
    } else {
      LeafBare(m, x);
      assert m.keys[i] == Path(m, x);
      TopOfTail(m);
      PhantomHere(m.keys, |m.chars| == 1, m.top, i, key, rest);
      OverreadHere(m.keys, |m.chars| == 1, m.top, i, key, rest);
    }
  }

  /** What the tail begins with, told from the keys. */
  ghost predicate TailHead(keys: seq<Key>, lone: bool, top: Key) {
    if lone then forall i: nat, w :: !RestOf(keys, i, w) else IsTop(keys, top)
  }

  /** Which longer queries are taken for a bare key. */
  lemma PhantomHere(keys: seq<Key>, lone: bool, top: Key, i: nat, key: Key, rest: Key)
    requires TailHead(keys, lone, top) && i < |keys| && Bare(keys, i) && key == keys[i] + rest
    ensures Phantom(keys, i, key) <==> !lone && rest == [0] + top
  {
    if Phantom(keys, i, key) {
      var other :| IsTop(keys, other) && key == keys[i] + ([0] + other);
      SameRest(keys[i], rest, [0] + other);
      assert !lone;
      OneTop(keys, other, top);
    }
  }

  lemma SameRest(k: Key, a: Key, b: Key)
    requires k + a == k + b
    ensures a == b
  {
    assert (k + a)[|k|..] == a && (k + b)[|k|..] == b;
  }

  lemma OverreadHere(keys: seq<Key>, lone: bool, top: Key, i: nat, key: Key, rest: Key)
    requires TailHead(keys, lone, top) && i < |keys| && Bare(keys, i) && key == keys[i] + rest
    ensures Overread(keys, i, key) <==> lone && |rest| > 1 && rest[0] == 0
  {
    var k := keys[i];
    assert (k + [0])[|k|] == 0;
    if |rest| > 1 && rest[0] == 0 {
      assert key[..|k| + 1] == k + [0];
    }
    if k + [0] < key {
      assert key[|k|] == rest[0] && key[..|k| + 1] == k + [0];
    }
  }

  /** The end of lookup at a leaf. */
  method AtLeaf(t: Trie, key: Key, kpos: nat, npos: nat, ghost m: Layout, ghost slots: seq<nat>, ghost ids: seq<nat>)
      returns (r: Answer)
    requires Encodes(t, m) && IdsOk(m, slots, ids) && npos in m.nodes && npos < |m.leaves| == |m.units|
             && m.leaves[npos]
    requires kpos <= |key| && kpos == m.nodes[npos].kpos && key[..kpos] == Path(m, npos)
    ensures AnswerOk(m.keys, ids, m.bin, key, r)
  {
    ghost var s := LeafTail(t, m, npos);
    var tpos := BC.Link(t.bcvec, npos, m.units, m.leaves);
    var found := TV.Match(t.tvec, key[kpos..], tpos, s);
    assert found == Matched(m, npos, key[kpos..], s);
    LeafAnswer(m, slots, ids, npos, key, s);
    if found.None? {
      return OutOfBounds;
    }
    if !found.value {
      return Absent;
    }
    return Id(BV.Rank(t.terms, npos));
  }

  /** The query ends at an inner node. */
  lemma InnerAnswer(m: Layout, slots: seq<nat>, ids: seq<nat>, x: nat, key: Key)
    requires LayoutOk(m) && IdsOk(m, slots, ids) && x in m.nodes && x < |m.leaves| == |m.terms| && !m.leaves[x]
             && key == Path(m, x)
    ensures AnswerOk(m.keys, ids, m.bin, key, if m.terms[x] then Id(BV.Count(m.terms, x)) else Absent)
  {
    Node(m, x);
    if m.terms[x] {
      OneTerminal(m, x, slots[m.nodes[x].beg], m.nodes[x].beg);
    } else {
      forall j | 0 <= j < |m.keys| ensures m.keys[j] != key {
        if m.keys[j] == key {
          KeyBeyond(m, x, j, key);
          GoesOn(m, x, j);
        }
      }
      NoPhantomShort(m, x, key);
    }
  }

  /** No bare key ends above an inner node. */
  lemma NoPhantomShort(m: Layout, x: nat, key: Key)
    requires LayoutOk(m) && x in m.nodes && x < |m.leaves| && !m.leaves[x]
    requires Path(m, x) <= key
    requires forall j :: m.nodes[x].beg <= j < m.nodes[x].end && j < |m.keys| && m.keys[j] <= key ==>
               |m.keys[j]| <= m.nodes[x].kpos
    ensures forall j: nat :: !Taken(m.keys, j, key)
  {
    Node(m, x);
    forall j: nat ensures !Taken(m.keys, j, key) {
      if Taken(m.keys, j, key) {
        TakenIsBare(m.keys, j, key);
        BareBeyond(m, x, j, key);
      }
    }
  }

  /** There is no edge for the next byte of the query. */
  lemma NoEdgeAnswer(m: Layout, ids: seq<nat>, x: nat, key: Key)
    requires LayoutOk(m) && |ids| == |m.keys| && x in m.nodes && x < |m.leaves| == |m.units| && !m.leaves[x]
    requires Path(m, x) <= key && m.nodes[x].kpos < |key|
    requires var y := Child(m, x, key[m.nodes[x].kpos]); y < |m.units| && m.units[y].check != x
    ensures AnswerOk(m.keys, ids, m.bin, key, Absent)
  {
    Node(m, x);
    var k := m.nodes[x].kpos;
    EdgeExact(m, x, key[k]);
    forall j | m.nodes[x].beg <= j < m.nodes[x].end && m.keys[j] <= key ensures |m.keys[j]| <= k {
      if k < |m.keys[j]| { PathGrows(m, x, key, j); }
    }
    NoPhantomShort(m, x, key);
    forall j | 0 <= j < |m.keys| ensures m.keys[j] != key {
      if m.keys[j] == key {
        PathGrows(m, x, key, j);
      }
    }
  }

  lemma PathGrows(m: Layout, x: nat, key: Key, j: nat)
    requires LayoutOk(m) && x in m.nodes && Path(m, x) <= key && m.nodes[x].kpos < |key|
    requires j < |m.keys| && m.keys[j] <= key && m.nodes[x].kpos < |m.keys[j]|
    ensures Path(m, x) + [key[m.nodes[x].kpos]] <= m.keys[j]
  {
    var k := m.nodes[x].kpos;
    Node(m, x);
    assert key[..k + 1] == Path(m, x) + [key[k]] == m.keys[j][..k + 1];
  }

  /** The descent: one edge of the double array for one byte of the query. */
  lemma Descends(m: Layout, x: nat, key: Key)
    requires LayoutOk(m) && x in m.nodes && x < |m.leaves| == |m.units| && !m.leaves[x]
    requires m.nodes[x].kpos < |key| && key[..m.nodes[x].kpos] == Path(m, x)
    ensures var y := Child(m, x, key[m.nodes[x].kpos]);
            y < |m.units| && (m.units[y].check == x ==>
              y in m.nodes && m.nodes[y].kpos == m.nodes[x].kpos + 1 && key[..m.nodes[y].kpos] == Path(m, y))
  {
    var k := m.nodes[x].kpos;
    var y := Child(m, x, key[k]);
    ChildInside(m, x, key[k]);
    if m.units[y].check == x {
      ParentOf(m, x, y);
      Node(m, x);
      Node(m, y);
      var i := m.nodes[y].beg;
      XorInjective(m.units[x].base, m.code[key[k]], m.code[m.keys[i][k]]);
      assert key[..k + 1] == key[..k] + [key[k]] == m.keys[i][..k] + [m.keys[i][k]] == m.keys[i][..k + 1];
    }
  }

  /** get_code */
  function GetCode(t: Trie, c: byte): byte
    requires |t.table.table| == 512
  {
    t.table.table[c]
  }

  lemma RootPath(m: Layout)
    requires LayoutOk(m)
    ensures 0 in m.nodes && 0 < |m.leaves| == |m.units| == |m.terms| && m.nodes[0].kpos == 0 && Path(m, 0) == []
  {
    Node(m, 0);
  }

  method LookupIn(t: Trie, key: Key, ghost m: Layout, ghost slots: seq<nat>, ghost ids: seq<nat>) returns (r: Answer)
    requires Encodes(t, m) && IdsOk(m, slots, ids)
    ensures AnswerOk(m.keys, ids, m.bin, key, r)
  {
    hide AnswerOk, JudgeLayout, Path;
    var kpos, npos := 0, 0;
    RootPath(m);
    var leaf := BC.IsLeaf(t.bcvec, npos, m.units, m.leaves);
    while !leaf
      invariant kpos <= |key| && npos in m.nodes && npos < |m.leaves| == |m.units| == |m.terms|
                && leaf == m.leaves[npos]
      invariant kpos == m.nodes[npos].kpos && key[..kpos] == Path(m, npos)
      decreases |key| - kpos, !leaf
    {
      if kpos == |key| {
        InnerAnswer(m, slots, ids, npos, key);
        if !BV.Get(t.terms, npos) {
          return Absent;
        }
        return Id(BV.Rank(t.terms, npos));
      }
      Descends(m, npos, key);
      var base := BC.Base(t.bcvec, npos, m.units, m.leaves);
      var cpos := Xor(base, GetCode(t, key[kpos]));
      var check := BC.Check(t.bcvec, cpos, m.units, m.leaves);
      if check != npos {
        NoEdgeAnswer(m, ids, npos, key);
        return Absent;
      }
      kpos := kpos + 1;
      npos := cpos;
      leaf := BC.IsLeaf(t.bcvec, npos, m.units, m.leaves);
    }
    r := AtLeaf(t, key, kpos, npos, m, slots, ids);
  }

  /** lookup: exact in text mode; in binary mode it also takes the phantoms, and only those, for stored keys. */
  method Lookup(t: Trie, key: Key, ghost keys: seq<Key>, ghost ids: seq<nat>) returns (r: Answer)
    requires Represents(t, keys, ids)
    ensures |ids| == |keys| && AnswerOk(keys, ids, BinMode(t), key, r)
    ensures !BinMode(t) ==> !r.OutOfBounds? && (r.Id? <==> key in keys)
    ensures forall i :: 0 <= i < |keys| && keys[i] == key ==> r == Id(ids[i])
  {
    ghost var m, slots :| Encodes(t, m) && m.keys == keys && IdsOk(m, slots, ids);
    r := LookupIn(t, key, m, slots, ids);
    forall i | 0 <= i < |keys| && keys[i] == key ensures r == Id(ids[i]) {
      StoredAnswer(keys, ids, BinMode(t), i, r);
    }
  }

  /** A stored key is answered with its own number. */
  lemma StoredAnswer(keys: seq<Key>, ids: seq<nat>, bin: bool, i: nat, r: Answer)
    requires StrictlySorted(keys) && |ids| == |keys| && i < |keys| && AnswerOk(keys, ids, bin, keys[i], r)
    ensures r == Id(ids[i])
  {
    NoPhantomStored(keys, i);
    if r.Id? {
      var j :| 0 <= j < |keys| && ids[j] == r.id && (keys[j] == keys[i] || (bin && Phantom(keys, j, keys[i])));
      assert Phantom(keys, j, keys[i]) ==> Taken(keys, j, keys[i]);
      SortedDistinct(keys, i, j);
    } else if r.OutOfBounds? {
      var j: nat :| Overread(keys, j, keys[i]);
      assert Taken(keys, j, keys[i]);
    }
  }

  /** A stored key is no phantom: nothing stored extends a bare key. */
  lemma NoPhantomStored(keys: seq<Key>, i: nat)
    requires i < |keys|
    ensures forall j: nat :: !Taken(keys, j, keys[i])
  {
    forall j: nat ensures !Taken(keys, j, keys[i]) {
      if Taken(keys, j, keys[i]) {
        TakenIsBare(keys, j, keys[i]);
        assert SharePrefix(keys[i], keys[j], |keys[j]|);
      }
    }
  }

  /** The right answer to a query. */
  ghost function Right(keys: seq<Key>, ids: seq<nat>, key: Key): Answer
    requires |ids| == |keys|
  {
    if i: nat :| i < |keys| && keys[i] == key then Id(ids[i]) else Absent
  }

  /** What lookup answers in binary mode where it strays; Absent where it does not. */
  ghost function Stray(keys: seq<Key>, ids: seq<nat>, key: Key): Answer
    requires |ids| == |keys|
  {
    if i: nat :| Phantom(keys, i, key) then Id(ids[i])
    else if exists i: nat :: Overread(keys, i, key) then OutOfBounds
    else Absent
  }

  /** Only one bare key can be taken for the query, and only in one of the two ways. */
  lemma OneTaken(keys: seq<Key>, i: nat, j: nat, key: Key)
    requires StrictlySorted(keys) && Phantom(keys, i, key)
    ensures Phantom(keys, j, key) ==> i == j
    ensures !Overread(keys, j, key)
  {
    var top :| IsTop(keys, top) && key == keys[i] + ([0] + top);
    if Phantom(keys, j, key) {
      var top' :| IsTop(keys, top') && key == keys[j] + ([0] + top');
      OneTop(keys, top, top');
      assert keys[i] == key[..|key| - |top| - 1] == keys[j];
      SortedDistinct(keys, i, j);
    }
  }

  lemma RightAt(keys: seq<Key>, ids: seq<nat>, i: nat)
    requires StrictlySorted(keys) && |ids| == |keys| && i < |keys|
    ensures Right(keys, ids, keys[i]) == Id(ids[i])
  {
    var j: nat :| j < |keys| && keys[j] == keys[i] && Right(keys, ids, keys[i]) == Id(ids[j]);
    SortedDistinct(keys, i, j);
  }

  lemma StrayAt(keys: seq<Key>, ids: seq<nat>, i: nat, key: Key)
    requires StrictlySorted(keys) && |ids| == |keys| && Phantom(keys, i, key)
    ensures Stray(keys, ids, key) == Id(ids[i])
  {
    var j: nat :| Phantom(keys, j, key) && Stray(keys, ids, key) == Id(ids[j]);
    OneTaken(keys, i, j, key);
  }

  /** Lookup strays just where a bare key is taken for the query, and then the query is not stored. */
  lemma StrayIff(keys: seq<Key>, ids: seq<nat>, key: Key)
    requires StrictlySorted(keys) && |ids| == |keys|
    ensures Stray(keys, ids, key) != Absent <==> exists i: nat :: Taken(keys, i, key)
    ensures Stray(keys, ids, key) != Absent ==> Right(keys, ids, key) == Absent
  {
    if i: nat :| Phantom(keys, i, key) {
      assert Taken(keys, i, key);
      StrayAt(keys, ids, i, key);
    } else if i: nat :| Overread(keys, i, key) {
      assert Taken(keys, i, key);
    }
    if i: nat :| i < |keys| && keys[i] == key {
      NoPhantomStored(keys, i);
    }
  }

  /** The answer of lookup on every query. */
  lemma LookupIs(keys: seq<Key>, ids: seq<nat>, bin: bool, key: Key, r: Answer)
    requires StrictlySorted(keys) && |ids| == |keys| && AnswerOk(keys, ids, bin, key, r)
    ensures r == if bin && Stray(keys, ids, key) != Absent then Stray(keys, ids, key) else Right(keys, ids, key)
  {
    hide Phantom, Overread, StrictlySorted;
    StrayIff(keys, ids, key);
    if i: nat :| i < |keys| && keys[i] == key {
      StoredAnswer(keys, ids, bin, i, r);
      RightAt(keys, ids, i);
      NoPhantomStored(keys, i);
    } else if r.Id? {
      var i: nat :| i < |keys| && ids[i] == r.id && bin && Phantom(keys, i, key);
      StrayAt(keys, ids, i, key);
    } else if r.OutOfBounds? {
      var i: nat :| Overread(keys, i, key);
      if j: nat :| Phantom(keys, j, key) { OneTaken(keys, j, i, key); }
    }
  }

  /** Lookup is exact on a query if and only if it is not in binary mode or no bare key is taken for the query. */
  lemma LookupExact(keys: seq<Key>, ids: seq<nat>, bin: bool, key: Key, r: Answer)
    requires StrictlySorted(keys) && |ids| == |keys| && AnswerOk(keys, ids, bin, key, r)
    ensures r == Right(keys, ids, key) <==> !(bin && exists i: nat :: Taken(keys, i, key))
  {
    LookupIs(keys, ids, bin, key, r);
    StrayIff(keys, ids, key);
  }

  /** Two keys that part at their first byte. */
  /** Several keys that part at their first bytes. */
  ghost predicate Apart(keys: seq<Key>) {
    |keys| > 1 && forall i, j :: 0 <= i < j < |keys| ==> keys[i] != [] && keys[j] != [] && keys[i][0] != keys[j][0]
  }

  lemma Parted(keys: seq<Key>, i: nat, n: nat)
    requires Apart(keys) && i < |keys|
    ensures Alone(keys, i, n) <==> n > 0
  {
    if n == 0 {
      assert SharePrefix(keys[if i == 0 then 1 else 0], keys[i], 0);
    } else {
      forall j | 0 <= j < |keys| && j != i ensures !SharePrefix(keys[j], keys[i], n) {
        if n <= |keys[i]| && n <= |keys[j]| {
          assert keys[j][..n][0] != keys[i][..n][0];
        }
      }
    }
  }

  lemma PartedRest(keys: seq<Key>, i: nat, w: Key)
    requires Apart(keys)
    ensures RestOf(keys, i, w) <==> i < |keys| && |keys[i]| > 1 && w == keys[i][1..]
    ensures i < |keys| ==> (Bare(keys, i) <==> |keys[i]| == 1)
  {
    if i < |keys| {
      assert keys[i] != [] by { assert keys[if i == 0 then 1 else 0] != keys[i]; }
      Parted(keys, i, |keys[i]|);
      Parted(keys, i, |keys[i]| - 1);
      if 0 < |w| <= |keys[i]| {
        var d := |keys[i]| - |w|;
        Parted(keys, i, d);
        if d > 0 { Parted(keys, i, d - 1); }
      }
    }
  }

  /** Two keys, one of them with a null byte: "a", NUL, NUL, "c" is not stored, and passes for "a". */
  lemma PhantomExample(keys: seq<Key>, key: Key)
    requires keys == [[97], [98, 0, 99]] && key == [97, 0, 0, 99]
    ensures StrictlySorted(keys) && !NulFree(keys) && key !in keys && Phantom(keys, 0, key)
  {
    var top: Key := [0, 99];
    assert keys[1][1] == 0;
    assert Step(keys, 1);
    Parted(keys, 0, 1);
    Parted(keys, 0, 0);
    forall i: nat, w ensures RestOf(keys, i, w) <==> i == 1 && w == top {
      PartedRest(keys, i, w);
    }
    if TV.BackLess(top, top) { TV.BackLessAsymmetric(top, top); }
    assert RestOf(keys, 1, top);
    assert key == keys[0] + ([0] + top);
  }

  /** What is taken for a bare key ends like the greatest rest, where there is one. */
  lemma TakenEnds(keys: seq<Key>, i: nat, key: Key, top: Key)
    requires IsTop(keys, top) && Taken(keys, i, key)
    ensures top != [] && key != [] && key[|key| - 1] == top[|top| - 1]
  {
    assert i < |keys|;
    hide RestOf, Bare, TV.BackLess;
    TopNotEmpty(keys, top);
    assert !Overread(keys, i, key);
    hide Overread;
    var t :| IsTop(keys, t) && key == keys[i] + ([0] + t);
    hide IsTop;
    OneTop(keys, t, top);
    assert key[|key| - 1] == ([0] + t)[|t|];
  }

  lemma TopNotEmpty(keys: seq<Key>, top: Key)
    requires IsTop(keys, top)
    ensures top != [] && exists j: nat :: RestOf(keys, j, top)
  {
  }

  /** Two rests that end in different bytes: the one with the greater byte, as a signed number, passes for the bare
      key, and the other does not. */
  lemma GreatestRestExample(keys: seq<Key>, x: byte, y: byte)
    requires keys == [[97], [98, 0, x], [100, 0, y]] && (x < y < 128 || 128 <= x < y || y < 128 <= x)
    ensures StrictlySorted(keys) && !NulFree(keys)
    ensures Phantom(keys, 0, [97, 0, 0, y]) && forall i: nat :: !Taken(keys, i, [97, 0, 0, x])
  {
    var top: Key, low: Key := [0, y], [0, x];
    assert keys[1][1] == 0;
    assert Step(keys, 1) && Step(keys, 2);
    forall i: nat, w ensures RestOf(keys, i, w) <==> (i == 1 && w == low) || (i == 2 && w == top) {
      PartedRest(keys, i, w);
    }
    PartedRest(keys, 0, []);
    TV.BackLessIs(low, top);
    TV.BackLessAsymmetric(low, top);
    if TV.BackLess(top, top) { TV.BackLessAsymmetric(top, top); }
    assert RestOf(keys, 2, top);
    assert IsTop(keys, top);
    assert [97, 0, 0, y] == keys[0] + ([0] + top);
    forall i: nat ensures !Taken(keys, i, [97, 0, 0, x]) {
      if Taken(keys, i, [97, 0, 0, x]) { TakenEnds(keys, i, [97, 0, 0, x], top); }
    }
  }

  /** Two keys of one byte: behind either a null byte and one more run past the end of the tail. */
  lemma OverreadExample(keys: seq<Key>, key: Key)
    requires keys == [[0], [97]] && key == [97, 0, 1]
    ensures StrictlySorted(keys) && !NulFree(keys) && key !in keys && Overread(keys, 1, key)
  {
    assert keys[0][0] == 0;
    assert Step(keys, 1);
    Parted(keys, 1, 1);
    Parted(keys, 1, 0);
    forall i: nat, w ensures !RestOf(keys, i, w) {
      PartedRest(keys, i, w);
    }
    assert keys[1] + [0] == key[..2];
  }

  // ---------- decode ----------

  /** One step up: the parent is above the same key, and the byte on the edge is the key's. */
  lemma Climbs(m: Layout, x: nat, i: nat)
    requires LayoutOk(m) && x in m.nodes && x != 0 && m.nodes[x].beg <= i < m.nodes[x].end
    ensures x < |m.units| && i < |m.keys|
    ensures var p := m.units[x].check;
            && p in m.nodes && p < |m.units| == |m.leaves| && !m.leaves[p]
            && m.nodes[p].kpos + 1 == m.nodes[x].kpos <= |m.keys[i]|
            && m.nodes[p].beg <= i < m.nodes[p].end
            && |m.code| == 512 && Xor(m.units[p].base, x) < 256
            && m.code[Xor(m.units[p].base, x) + 256] == m.keys[i][m.nodes[p].kpos]
  {
    Node(m, x);
    assert ParentOk(m.keys, m.code, m.units, AllDone(m), x);
    var p := m.units[x].check;
    ParentOf(m, p, x);
    var c := m.code[m.keys[i][m.nodes[p].kpos]];
    XorComm(m.units[p].base, x);
    XorComm(m.units[p].base, c);
    XorInverse(c, m.units[p].base);
  }

  /** get_char */
  function GetChar(t: Trie, cd: nat): byte
    requires |t.table.table| == 512 && cd < 256
  {
    t.table.table[cd + 256]
  }

  /** s is the beginning of key up to depth, read backwards and not yet to its start. */
  ghost predicate Backwards(s: Key, key: Key, depth: nat) {
    |s| <= depth <= |key| && forall a :: 0 <= a < |s| ==> s[a] == key[depth - 1 - a]
  }

  lemma BackwardsNext(s: Key, key: Key, depth: nat, c: byte, k: nat)
    requires Backwards(s, key, depth) && |s| + k + 1 == depth && c == key[k]
    ensures Backwards(s + [c], key, depth)
  {
  }

  /** The parent of a node, and the byte on the edge to the node. */
  method StepUp(t: Trie, npos: nat, ghost m: Layout, ghost i: nat) returns (ppos: nat, ch: byte)
    requires Encodes(t, m) && npos in m.nodes && npos != 0 && m.nodes[npos].beg <= i < m.nodes[npos].end && i < |m.keys|
    ensures ppos in m.nodes && m.nodes[ppos].beg <= i < m.nodes[ppos].end
    ensures m.nodes[ppos].kpos + 1 == m.nodes[npos].kpos <= |m.keys[i]| && ch == m.keys[i][m.nodes[ppos].kpos]
  {
    Climbs(m, npos, i);
    ppos := BC.Check(t.bcvec, npos, m.units, m.leaves);
    var base := BC.Base(t.bcvec, ppos, m.units, m.leaves);
    ch := GetChar(t, Xor(base, npos));
  }

  /** The loop of decode up to the root: it collects the bytes of the path from the last to the first. */
  method Climb(t: Trie, start: nat, ghost m: Layout, ghost i: nat) returns (decoded: Key)
    requires Encodes(t, m) && start in m.nodes && m.nodes[start].beg <= i < m.nodes[start].end && i < |m.keys|
    ensures |decoded| == m.nodes[start].kpos && Backwards(decoded, m.keys[i], |decoded|)
  {
    decoded := [];
    var npos := start;
    Node(m, start);
    RootAtZero(m, start);
    ghost var depth := m.nodes[start].kpos;
    while npos != 0
      invariant npos in m.nodes && m.nodes[npos].beg <= i < m.nodes[npos].end
      invariant |decoded| + m.nodes[npos].kpos == depth && Backwards(decoded, m.keys[i], depth)
      decreases m.nodes[npos].kpos
    {
      var ppos, ch := StepUp(t, npos, m, i);
      BackwardsNext(decoded, m.keys[i], depth, ch, m.nodes[ppos].kpos);
      decoded := decoded + [ch];
      npos := ppos;
    }
    RootAtZero(m, 0);
  }

  function Reversed(s: Key): (r: Key)
    ensures |r| == |s| && forall a :: 0 <= a < |s| ==> r[a] == s[|s| - 1 - a]
  {
    seq(|s|, a requires 0 <= a < |s| => s[|s| - 1 - a])
  }

  lemma ReversedPath(s: Key, key: Key)
    requires Backwards(s, key, |s|)
    ensures |s| <= |key| && Reversed(s) == key[..|s|]
  {
  }

  /** The number of a key leads to its terminal node. */
  method NodeOfId(t: Trie, id: nat, ghost m: Layout, ghost slots: seq<nat>, ghost ids: seq<nat>) returns (npos: nat)
    requires Encodes(t, m) && IdsOk(m, slots, ids) && id < |m.keys| <= 0x800_0000
    ensures npos in m.nodes && m.nodes[npos].beg < |ids| && ids[m.nodes[npos].beg] == id
    ensures npos < |m.terms| && m.terms[npos]
  {
    TermsCountKeys(m, slots);
    BV.CountAll(t.terms);
    BV.MultipleOf256(t.terms, id);
    npos := BV.Select(t.terms, id);
    FlagOfKey(m, slots, npos);
  }

  method DecodeIn(t: Trie, npos: nat, ghost m: Layout) returns (decoded: Key)
    requires Encodes(t, m) && npos in m.nodes && npos < |m.terms| && m.terms[npos] && m.nodes[npos].beg < |m.keys|
    ensures decoded == m.keys[m.nodes[npos].beg]
  {
    hide JudgeLayout;
    Basics(m);
    Node(m, npos);
    ghost var i := m.nodes[npos].beg;
    var leaf := BC.IsLeaf(t.bcvec, npos, m.units, m.leaves);
    var tpos := WORD_SIZE - 1;
    ghost var s;
    if leaf {
      tpos := BC.Link(t.bcvec, npos, m.units, m.leaves);
      s := LeafTail(t, m, npos);
    }
    var climbed := Climb(t, npos, m, i);
    decoded := Reversed(climbed);
    ReversedPath(climbed, m.keys[i]);
    if tpos != 0 && tpos != WORD_SIZE - 1 {
      var rest := TV.Decode(t.tvec, tpos, s);
      decoded := decoded + rest;
    }
  }

  /** decode: the key of a number, and nothing for a number that is none. */
  method Decode(t: Trie, id: nat, ghost keys: seq<Key>, ghost ids: seq<nat>) returns (decoded: Key)
    requires Represents(t, keys, ids) && |keys| <= 0x800_0000
    ensures |ids| == |keys| && Numbering(ids)
    ensures |keys| <= id ==> decoded == []
    ensures forall i :: 0 <= i < |ids| && ids[i] == id ==> decoded == keys[i]
  {
    ghost var m, slots :| Encodes(t, m) && m.keys == keys && IdsOk(m, slots, ids);
    IdsNumber(m, slots, ids);
    if t.numKeys <= id {
      return [];
    }
    var npos := NodeOfId(t, id, m, slots, ids);
    decoded := DecodeIn(t, npos, m);
    forall i | 0 <= i < |ids| && ids[i] == id ensures decoded == keys[i] {
      SameNumber(ids, i, m.nodes[npos].beg);
    }
  }

  lemma SameNumber(ids: seq<nat>, a: nat, b: nat)
    requires Numbering(ids) && a < |ids| && b < |ids| && ids[a] == ids[b]
    ensures a == b
  {
  }

  /** decode after lookup gives the key back. */
  method DecodeOfLookup(t: Trie, key: Key, ghost keys: seq<Key>, ghost ids: seq<nat>) returns (r: Option<Key>)
    requires Represents(t, keys, ids) && |keys| <= 0x800_0000
    ensures key in keys ==> r == Some(key)
    ensures !BinMode(t) && key !in keys ==> r == None
  {
    var answer := Lookup(t, key, keys, ids);
    if answer.Id? {
      var decoded := Decode(t, answer.id, keys, ids);
      return Some(decoded);
    }
    return None;
  }

  /** lookup after decode gives the number back. */
  method LookupOfDecode(t: Trie, id: nat, ghost keys: seq<Key>, ghost ids: seq<nat>) returns (r: Answer)
    requires Represents(t, keys, ids) && id < |keys| <= 0x800_0000
    ensures r == Id(id)
  {
    var key := Decode(t, id, keys, ids);
    assert id in ids;
    r := Lookup(t, key, keys, ids);
  }
}
