/** The finished double array: what every slot, flag and base stands for, and what follows from it. */
module Layout {
  import opened Bits
  import opened Keys
  import opened FreeList
  import opened DoubleArray
  import TV = TailVector
  import BV = BitVector

  /** The arrays after construction with the node map; chars and ends are those of the tail,
      and top is the string that stands first in it. */
  datatype Layout = Layout(keys: seq<Key>, code: seq<byte>, units: seq<Unit>, leaves: seq<bool>, terms: seq<bool>,
                           nodes: map<nat, Range>, bin: bool, chars: seq<byte>, ends: seq<bool>, top: Key)

  /** The one key of a leaf: no base if it ends there, else the position of its rest in the tail. */
  ghost predicate LeafAt(m: Layout, x: nat)
    requires x < |m.units| == |m.leaves| == |m.terms| && x in m.nodes && m.nodes[x].beg < |m.keys|
  {
    var r := m.nodes[x];
    var key := m.keys[r.beg];
    && r.end == r.beg + 1 && m.leaves[x] && m.terms[x] && r.kpos <= |key|
    && if |key| == r.kpos then m.units[x].base == 0
       else 0 < m.units[x].base && TV.Stored(m.bin, m.chars, m.ends, m.units[x].base, key[r.kpos..])
  }

  /** A node with several keys: it is terminal if one of them ends there, the others go to its children. */
  ghost predicate InnerAt(m: Layout, x: nat)
    requires x < |m.units| == |m.leaves| == |m.terms| && x in m.nodes && |m.code| == 512
    requires m.nodes[x].beg < m.nodes[x].end <= |m.keys|
  {
    var r := m.nodes[x];
    && r.beg + 1 < r.end && !m.leaves[x]
    && m.terms[x] == (|m.keys[r.beg]| == r.kpos)
    && (m.units[x].base / 256 + 1) * 256 <= |m.units|
    && (forall i {:trigger ChildOk(m.keys, m.code, m.units, m.nodes, x, i)} ::
          First(m.keys, r) <= i < r.end ==> ChildOk(m.keys, m.code, m.units, m.nodes, x, i))
  }

  ghost predicate NodeAt(m: Layout, x: nat)
    requires x < |m.units| == |m.leaves| == |m.terms| && x in m.nodes && |m.code| == 512
  {
    x != TABOO && Proper(m.keys, m.nodes[x]) && (LeafAt(m, x) || InnerAt(m, x))
  }

  /** A slot that holds no node points at itself. */
  ghost predicate IdleAt(m: Layout, i: nat)
    requires i < |m.units| == |m.leaves| == |m.terms|
  {
    !m.leaves[i] && !m.terms[i] && m.units[i] == Unit(i, i)
  }

  /** The key of leaf x goes on with w. */
  ghost predicate RestAt(m: Layout, x: nat, w: Key) {
    && x in m.nodes && x < |m.leaves| && m.leaves[x] && m.nodes[x].beg < |m.keys|
    && m.nodes[x].kpos < |m.keys[m.nodes[x].beg]| && w == m.keys[m.nodes[x].beg][m.nodes[x].kpos..]
  }

  /** The tail begins with the greatest rest, if there is any. */
  ghost predicate TopOk(m: Layout) {
    if |m.chars| == 1 then forall x: nat, w :: !RestAt(m, x, w)
    else
      && TV.Stored(m.bin, m.chars, m.ends, 1, m.top) && (exists x: nat :: RestAt(m, x, m.top))
      && (forall x: nat, w :: RestAt(m, x, w) ==> !TV.BackLess(m.top, w))
  }

  function AllDone(m: Layout): Shape {
    Shape(m.nodes, m.nodes.Keys)
  }

  /** The invariant of a finished double array. */
  ghost function JudgeLayout(m: Layout): Verdict {
    if
      && StrictlySorted(m.keys) && CodesOk(m.code)
      && |m.units| == |m.leaves| == |m.terms| && |m.units| % 256 == 0
      && 0 in m.nodes && m.nodes[0] == Range(0, |m.keys|, 0) && 0 < |m.units| && m.units[0].check == TABOO
      && (forall x {:trigger m.nodes[x]} :: x in m.nodes ==> x < |m.units|)
      && (forall x {:trigger NodeAt(m, x)} :: x in m.nodes ==> NodeAt(m, x))
      && (forall x {:trigger ParentOk(m.keys, m.code, m.units, AllDone(m), x)} ::
            x in m.nodes && x != 0 ==> ParentOk(m.keys, m.code, m.units, AllDone(m), x))
      && (forall i: nat {:trigger IdleAt(m, i)} :: i < |m.units| && i !in m.nodes ==> IdleAt(m, i))
      && TV.TailShape(m.bin, m.chars, m.ends) && (m.bin || NulFree(m.keys)) && TopOk(m)
    then Sound else Unsound
  }

  ghost predicate LayoutOk(m: Layout) {
    JudgeLayout(m).Sound?
  }

  lemma Basics(m: Layout)
    requires LayoutOk(m)
    ensures |m.units| == |m.leaves| == |m.terms| && CodesOk(m.code) && StrictlySorted(m.keys)
    ensures 0 in m.nodes && m.nodes[0] == Range(0, |m.keys|, 0) && m.chars != []
  {
  }

  lemma Node(m: Layout, x: nat)
    requires LayoutOk(m) && x in m.nodes
    ensures x < |m.units| && NodeAt(m, x)
    ensures m.nodes[x].beg < m.nodes[x].end <= |m.keys|
    ensures forall i :: m.nodes[x].beg <= i < m.nodes[x].end ==>
              m.nodes[x].kpos <= |m.keys[i]| && m.keys[i][..m.nodes[x].kpos] == m.keys[m.nodes[x].beg][..m.nodes[x].kpos]
  {
    assert m.nodes[x] == m.nodes[x];
    assert NodeAt(m, x);
    var r := m.nodes[x];
    forall i | r.beg <= i < r.end ensures r.kpos <= |m.keys[i]| && m.keys[i][..r.kpos] == m.keys[r.beg][..r.kpos] {
      assert SharePrefix(m.keys[i], m.keys[r.beg], r.kpos);
    }
  }

  /** A key of an inner node either ends there, and is the first, or goes on. */
  lemma GoesOn(m: Layout, x: nat, i: nat)
    requires LayoutOk(m) && x in m.nodes && m.nodes[x].beg <= i < m.nodes[x].end <= |m.keys|
    ensures |m.keys[i]| == m.nodes[x].kpos ==> i == m.nodes[x].beg
    ensures First(m.keys, m.nodes[x]) <= i <==> m.nodes[x].kpos < |m.keys[i]|
  {
    Node(m, x);
    var r := m.nodes[x];
    if |m.keys[i]| == r.kpos && r.beg < i {
      assert m.keys[i] == m.keys[i][..r.kpos] == m.keys[r.beg][..r.kpos] <= m.keys[r.beg];
      PrefixNotAbove(m.keys[i], m.keys[r.beg]);
      SortedPairs(m.keys, 0, |m.keys|, r.beg, i);
    }
  }

  function Child(m: Layout, x: nat, c: byte): nat
    requires x < |m.units| && |m.code| == 512
  {
    Xor(m.units[x].base, m.code[c])
  }

  /** A key that goes on below an inner node does so through the child of its next byte. */
  lemma ChildOf(m: Layout, x: nat, i: nat)
    requires LayoutOk(m) && x in m.nodes && x < |m.units| && !m.leaves[x]
    requires m.nodes[x].beg <= i < m.nodes[x].end <= |m.keys| && m.nodes[x].kpos < |m.keys[i]|
    ensures var y := Child(m, x, m.keys[i][m.nodes[x].kpos]);
            y in m.nodes && y < |m.units| && y != 0 && m.units[y].check == x && m.nodes[y].kpos == m.nodes[x].kpos + 1
            && m.nodes[x].beg <= m.nodes[y].beg <= i < m.nodes[y].end <= m.nodes[x].end
  {
    Node(m, x);
    GoesOn(m, x, i);
    assert ChildOk(m.keys, m.code, m.units, m.nodes, x, i);
    var y := Child(m, x, m.keys[i][m.nodes[x].kpos]);
    Node(m, y);
    assert m.nodes[0].kpos == 0;
    assert ParentOk(m.keys, m.code, m.units, AllDone(m), y);
  }

  /** The target of a byte is always a slot of the array. */
  lemma ChildInside(m: Layout, x: nat, c: byte)
    requires LayoutOk(m) && x in m.nodes && x < |m.units| && !m.leaves[x]
    ensures Child(m, x, c) < |m.units|
  {
    Node(m, x);
    XorBlock(m.units[x].base, m.code[c]);
  }

  /** No false edge: a slot that names x as its parent is the child of its byte, and all its keys go on with that byte.
      */
  lemma ParentOf(m: Layout, x: nat, y: nat)
    requires LayoutOk(m) && x in m.nodes && y < |m.units| && m.units[y].check == x
    ensures y in m.nodes && y != 0 && x < |m.units| && !m.leaves[x]
    ensures m.nodes[y].kpos == m.nodes[x].kpos + 1
    ensures m.nodes[x].beg <= m.nodes[y].beg < m.nodes[y].end <= m.nodes[x].end <= |m.keys|
    ensures forall i :: m.nodes[y].beg <= i < m.nodes[y].end ==>
              m.nodes[x].kpos < |m.keys[i]| && y == Child(m, x, m.keys[i][m.nodes[x].kpos])
  {
    Node(m, x);
    assert y in m.nodes || IdleAt(m, y);
    Node(m, y);
    assert ParentOk(m.keys, m.code, m.units, AllDone(m), y);
    var k := m.nodes[x].kpos;
    forall i | m.nodes[y].beg <= i < m.nodes[y].end ensures k < |m.keys[i]| && y == Child(m, x, m.keys[i][k]) {
      assert m.keys[i][k] == m.keys[i][..k + 1][k] == m.keys[m.nodes[y].beg][..k + 1][k] == m.keys[m.nodes[y].beg][k];
    }
  }

  /** The bytes that lead to a node. */
  ghost function Path(m: Layout, x: nat): Key
    requires LayoutOk(m) && x in m.nodes
  {
    Node(m, x);
    m.keys[m.nodes[x].beg][..m.nodes[x].kpos]
  }

  /** The edges of the double array are exactly those of the prefix tree of the keys. */
  lemma EdgeExact(m: Layout, x: nat, c: byte)
    requires LayoutOk(m) && x in m.nodes && x < |m.units| && !m.leaves[x]
    ensures Child(m, x, c) < |m.units|
    ensures m.units[Child(m, x, c)].check == x <==>
            exists i :: 0 <= i < |m.keys| && Path(m, x) + [c] <= m.keys[i]
  {
    Node(m, x);
    ChildInside(m, x, c);
    var y, p := Child(m, x, c), Path(m, x);
    if m.units[y].check == x {
      ParentOf(m, x, y);
      var i := m.nodes[y].beg;
      XorInjective(m.units[x].base, m.code[c], m.code[m.keys[i][m.nodes[x].kpos]]);
      assert p + [c] <= m.keys[i];
    }
    if exists i :: 0 <= i < |m.keys| && p + [c] <= m.keys[i] {
      var i :| 0 <= i < |m.keys| && p + [c] <= m.keys[i];
      BelowNode(m, x, i);
      assert (p + [c])[|p|] == c;
      ChildOf(m, x, i);
    }
  }

  /** The keys of a node are all those that go through its path. */
  lemma {:induction false} BelowNode(m: Layout, x: nat, i: nat)
    requires LayoutOk(m) && x in m.nodes && i < |m.keys| && Path(m, x) <= m.keys[i]
    ensures m.nodes[x].beg <= i < m.nodes[x].end
    decreases m.nodes[x].kpos
  {
    Node(m, x);
    if x != 0 {
      assert ParentOk(m.keys, m.code, m.units, AllDone(m), x);
      var p := m.units[x].check;
      ParentOf(m, p, x);
      Node(m, p);
      var k := m.nodes[p].kpos;
      var path := m.keys[m.nodes[x].beg];
      assert m.keys[i][..k + 1] == path[..k + 1];
      assert m.keys[i][..k] == m.keys[i][..k + 1][..k] == path[..k + 1][..k] == path[..k];
      assert m.keys[i][k] == m.keys[i][..k + 1][k] == path[..k + 1][k] == path[k];
      BelowNode(m, p, i);
      ChildOf(m, p, i);
    }
  }

  // ---------- the node of a key ----------

  /** Key i ends at or in the leaf x. */
  ghost predicate EndsIn(m: Layout, x: nat, i: nat) {
    x in m.nodes && x < |m.terms| && m.terms[x] && m.nodes[x].beg == i
  }

  /** Every key below a node has its terminal node. */
  lemma {:induction false} TerminalBelow(m: Layout, x: nat, i: nat) returns (y: nat)
    requires LayoutOk(m) && x in m.nodes && m.nodes[x].beg <= i < m.nodes[x].end <= |m.keys|
    ensures EndsIn(m, y, i)
    decreases |m.keys[i]| + 1 - m.nodes[x].kpos
  {
    Node(m, x);
    GoesOn(m, x, i);
    if m.leaves[x] || |m.keys[i]| == m.nodes[x].kpos {
      y := x;
    } else {
      ChildOf(m, x, i);
      y := TerminalBelow(m, Child(m, x, m.keys[i][m.nodes[x].kpos]), i);
    }
  }

  /** At every depth there is one node for a key at most. */
  lemma {:induction false} OneAtDepth(m: Layout, x: nat, y: nat, i: nat)
    requires LayoutOk(m) && x in m.nodes && y in m.nodes && m.nodes[x].kpos == m.nodes[y].kpos
    requires m.nodes[x].beg <= i < m.nodes[x].end && m.nodes[y].beg <= i < m.nodes[y].end
    ensures x == y
    decreases m.nodes[x].kpos
  {
    Node(m, x);
    Node(m, y);
    RootAtZero(m, x);
    RootAtZero(m, y);
    if x != 0 {
      var p, q := m.units[x].check, m.units[y].check;
      assert ParentOk(m.keys, m.code, m.units, AllDone(m), x) && ParentOk(m.keys, m.code, m.units, AllDone(m), y);
      OneAtDepth(m, p, q, i);
      ParentOf(m, p, x);
      ParentOf(m, p, y);
    }
  }

  lemma RootAtZero(m: Layout, x: nat)
    requires LayoutOk(m) && x in m.nodes
    ensures m.nodes[x].kpos == 0 <==> x == 0
  {
    if x != 0 { assert ParentOk(m.keys, m.code, m.units, AllDone(m), x); }
  }

  /** The node above y at depth k. */
  lemma {:induction false} Ancestor(m: Layout, y: nat, k: nat) returns (x: nat)
    requires LayoutOk(m) && y in m.nodes && k < m.nodes[y].kpos
    ensures x in m.nodes && x < |m.units| && !m.leaves[x] && m.nodes[x].kpos == k
    ensures m.nodes[x].beg <= m.nodes[y].beg && m.nodes[y].end <= m.nodes[x].end
    decreases m.nodes[y].kpos
  {
    RootAtZero(m, y);
    Node(m, y);
    assert ParentOk(m.keys, m.code, m.units, AllDone(m), y);
    var p := m.units[y].check;
    ParentOf(m, p, y);
    if m.nodes[p].kpos == k {
      x := p;
    } else {
      x := Ancestor(m, p, k);
    }
  }

  /** A key has one terminal node only. */
  lemma OneTerminal(m: Layout, x: nat, y: nat, i: nat)
    requires LayoutOk(m) && EndsIn(m, x, i) && EndsIn(m, y, i)
    ensures x == y
  {
    Node(m, x);
    Node(m, y);
    if m.nodes[x].kpos < m.nodes[y].kpos {
      NothingBelow(m, x, y, i);
    } else if m.nodes[y].kpos < m.nodes[x].kpos {
      NothingBelow(m, y, x, i);
    } else {
      OneAtDepth(m, x, y, i);
    }
  }

  lemma NothingBelow(m: Layout, x: nat, y: nat, i: nat)
    requires LayoutOk(m) && EndsIn(m, x, i) && EndsIn(m, y, i)
    ensures m.nodes[y].kpos <= m.nodes[x].kpos
  {
    Node(m, x);
    Node(m, y);
    if m.nodes[x].kpos < m.nodes[y].kpos {
      var z := Ancestor(m, y, m.nodes[x].kpos);
      OneAtDepth(m, z, x, i);
    }
  }

  // ---------- key numbers ----------

  /** The terminal node of each key. */
  ghost predicate SlotsOk(m: Layout, slots: seq<nat>) {
    |slots| == |m.keys| && forall i :: 0 <= i < |slots| ==> EndsIn(m, slots[i], i)
  }

  lemma {:induction false} AllSlots(m: Layout, n: nat) returns (slots: seq<nat>)
    requires LayoutOk(m) && n <= |m.keys|
    ensures |slots| == n && forall i :: 0 <= i < n ==> EndsIn(m, slots[i], i)
  {
    slots := [];
    if n > 0 {
      slots := AllSlots(m, n - 1);
      var y := TerminalBelow(m, 0, n - 1);
      slots := slots + [y];
    }
  }

  /** Every raised terminal flag is that of a key. */
  lemma FlagOfKey(m: Layout, slots: seq<nat>, x: nat)
    requires LayoutOk(m) && SlotsOk(m, slots) && x < |m.terms| && m.terms[x]
    ensures x in m.nodes && m.nodes[x].beg < |slots| && slots[m.nodes[x].beg] == x
  {
    assert x in m.nodes || IdleAt(m, x);
    Node(m, x);
    OneTerminal(m, x, slots[m.nodes[x].beg], m.nodes[x].beg);
  }

  ghost function Raised(s: seq<bool>, n: nat): set<nat>
    requires n <= |s|
  {
    set x: nat | x < n && s[x]
  }

  lemma {:induction false} CountIsSize(s: seq<bool>, n: nat)
    requires n <= |s|
    ensures BV.Count(s, n) == |Raised(s, n)|
  {
    if n == 0 {
      assert Raised(s, 0) == {};
    } else {
      CountIsSize(s, n - 1);
      assert Raised(s, n) == if s[n - 1] then Raised(s, n - 1) + {n - 1} else Raised(s, n - 1);
    }
  }

  ghost function Elements(s: seq<nat>): set<nat> {
    set x: nat | x in s
  }

  lemma {:induction false} DistinctSize(s: seq<nat>)
    requires Distinct(s)
    ensures |Elements(s)| == |s|
  {
    if s == [] {
      assert Elements(s) == {};
    } else {
      var n := |s| - 1;
      DistinctSize(s[..n]);
      assert s == s[..n] + [s[n]];
      assert Elements(s) == Elements(s[..n]) + {s[n]};
      assert s[n] !in s[..n];
    }
  }

  /** There are as many raised terminal flags as keys. */
  lemma TermsCountKeys(m: Layout, slots: seq<nat>)
    requires LayoutOk(m) && SlotsOk(m, slots)
    ensures BV.Count(m.terms, |m.terms|) == |m.keys|
  {
    CountIsSize(m.terms, |m.terms|);
    SlotsDistinct(m, slots);
    DistinctSize(slots);
    assert Raised(m.terms, |m.terms|) == Elements(slots) by {
      forall x | x in Raised(m.terms, |m.terms|) ensures x in slots {
        FlagOfKey(m, slots, x);
      }
      forall x | x in slots ensures x in Raised(m.terms, |m.terms|) {
        var i :| 0 <= i < |slots| && slots[i] == x;
        assert EndsIn(m, slots[i], i);
      }
    }
  }

  lemma SlotsDistinct(m: Layout, slots: seq<nat>)
    requires SlotsOk(m, slots)
    ensures Distinct(slots)
  {
    forall a, b | 0 <= a < b < |slots| ensures slots[a] != slots[b] {
      assert EndsIn(m, slots[a], a) && EndsIn(m, slots[b], b);
    }
  }

  /** The number of each key: the rank of its terminal node. */
  ghost predicate IdsOk(m: Layout, slots: seq<nat>, ids: seq<nat>) {
    && SlotsOk(m, slots) && |ids| == |m.keys|
    && forall i :: 0 <= i < |ids| ==> slots[i] < |m.terms| && ids[i] == BV.Count(m.terms, slots[i])
  }

  /** A one-to-one numbering of the keys from 0 on. */
  ghost predicate Numbering(ids: seq<nat>) {
    && Distinct(ids) && (forall i :: 0 <= i < |ids| ==> ids[i] < |ids|)
    && (forall id: nat :: id < |ids| ==> id in ids)
  }

  /** Position of the raised flag that has n raised flags before it. */
  lemma {:induction false} FlagAtCount(s: seq<bool>, n: nat, upTo: nat) returns (x: nat)
    requires upTo <= |s| && n < BV.Count(s, upTo)
    ensures x < upTo && s[x] && BV.Count(s, x) == n
  {
    if BV.Count(s, upTo - 1) <= n {
      x := upTo - 1;
    } else {
      x := FlagAtCount(s, n, upTo - 1);
    }
  }

  /** Ranks of terminal nodes number the keys. */
  lemma IdsNumber(m: Layout, slots: seq<nat>, ids: seq<nat>)
    requires LayoutOk(m) && IdsOk(m, slots, ids)
    ensures Numbering(ids)
  {
    TermsCountKeys(m, slots);
    SlotsDistinct(m, slots);
    forall i | 0 <= i < |ids| ensures ids[i] < |ids| {
      assert EndsIn(m, slots[i], i);
      BV.CountStrict(m.terms, slots[i], |m.terms|);
    }
    forall a, b | 0 <= a < b < |ids| ensures ids[a] != ids[b] {
      assert EndsIn(m, slots[a], a) && EndsIn(m, slots[b], b);
      if slots[a] < slots[b] {
        BV.CountStrict(m.terms, slots[a], slots[b]);
      } else {
        BV.CountStrict(m.terms, slots[b], slots[a]);
      }
    }
    forall id: nat | id < |ids| ensures id in ids {
      var x := FlagAtCount(m.terms, id, |m.terms|);
      FlagOfKey(m, slots, x);
      assert ids[m.nodes[x].beg] == id;
    }
  }

  ghost function Before(slots: seq<nat>, x: nat): set<nat> {
    set y: nat | y in slots && y < x
  }

  /** The node of a map at which a key comes to its end: it is first there, and ends there or is alone. */
  ghost predicate EndsAt(keys: seq<Key>, nodes: map<nat, Range>, x: nat, i: nat) {
    x in nodes && nodes[x].beg == i < |keys| && (nodes[x].end == i + 1 || |keys[i]| == nodes[x].kpos)
  }

  /** The numbers of the keys, told from the places of the nodes: how many keys end in an earlier slot. */
  ghost predicate NumberedBy(keys: seq<Key>, nodes: map<nat, Range>, slots: seq<nat>, ids: seq<nat>) {
    && |slots| == |ids| == |keys|
    && forall i :: 0 <= i < |keys| ==> EndsAt(keys, nodes, slots[i], i) && ids[i] == |Before(slots, slots[i])|
  }

  lemma IdsNumberedBy(m: Layout, slots: seq<nat>, ids: seq<nat>)
    requires LayoutOk(m) && IdsOk(m, slots, ids)
    ensures NumberedBy(m.keys, m.nodes, slots, ids)
  {
    hide JudgeLayout;
    forall i | 0 <= i < |ids| ensures EndsAt(m.keys, m.nodes, slots[i], i) && ids[i] == |Before(slots, slots[i])| {
      assert EndsIn(m, slots[i], i);
      Node(m, slots[i]);
      CountIsSize(m.terms, slots[i]);
      assert Raised(m.terms, slots[i]) == Before(slots, slots[i]) by {
        forall x | x in Raised(m.terms, slots[i]) ensures x in slots {
          FlagOfKey(m, slots, x);
        }
        forall x | x in slots ensures x < |m.terms| && m.terms[x] {
          var j :| 0 <= j < |slots| && slots[j] == x;
          assert EndsIn(m, slots[j], j);
        }
      }
    }
  }

  /** The places of the nodes decide the numbers. */
  lemma OneNumbering(m: Layout, slots: seq<nat>, ids: seq<nat>, slots': seq<nat>, ids': seq<nat>)
    requires LayoutOk(m) && NumberedBy(m.keys, m.nodes, slots, ids) && NumberedBy(m.keys, m.nodes, slots', ids')
    ensures slots == slots' && ids == ids'
  {
    forall i | 0 <= i < |slots| ensures slots[i] == slots'[i] {
      EndsThere(m, slots[i], i);
      EndsThere(m, slots'[i], i);
      OneTerminal(m, slots[i], slots'[i], i);
    }
  }

  lemma EndsThere(m: Layout, x: nat, i: nat)
    requires LayoutOk(m) && EndsAt(m.keys, m.nodes, x, i)
    ensures EndsIn(m, x, i)
  {
    Node(m, x);
  }

  // ---------- from the tree under construction ----------

  /** The arrays of a tree without pending nodes, after finish and complete. */
  ghost predicate Completed(keys: seq<Key>, code: seq<byte>, a: Arrays, s: Shape, m: Layout, sorted: seq<Suffix>) {
    && StrictlySorted(keys) && TreeOk(keys, code, a, s) && s.done == s.nodes.Keys && |a.units| % 256 == 0
    && m.keys == keys && m.code == code && m.nodes == s.nodes && m.leaves == a.leaves && m.terms == a.terms
    && |m.units| == |a.units| && TV.TailShape(m.bin, m.chars, m.ends) && (m.bin || NulFree(keys))
    && (forall i :: 0 <= i < |a.units| && a.useds[i] && i != TABOO ==> m.units[i].check == a.units[i].check)
    && (forall i :: 0 <= i < |a.units| && (!a.useds[i] || i == TABOO) ==> m.units[i] == Unit(i, i))
    && (forall i :: 0 <= i < |a.units| && a.useds[i] && i != TABOO && !HasSuffix(a.suffixes,
        i) ==> m.units[i] == a.units[i])
    && (forall k :: 0 <= k < |a.suffixes| ==> TV.PlacedAt(m.bin, m.chars, m.ends, m.units, a.suffixes[k]))
    && TV.BackSorted(sorted) && |sorted| == |a.suffixes| && (forall x :: x in sorted <==> x in a.suffixes)
    && (sorted == [] ==> |m.chars| == 1)
    && (sorted != [] ==> m.top == sorted[|sorted| - 1].str && TV.Stored(m.bin, m.chars, m.ends, 1, m.top) && m.top != [])
  }

  lemma CompletedNode(keys: seq<Key>, code: seq<byte>, a: Arrays, s: Shape, m: Layout, sorted: seq<Suffix>, x: nat)
    requires Completed(keys, code, a, s, m, sorted) && x in m.nodes
    ensures x < |m.units| && NodeAt(m, x)
  {
    assert s.nodes[x] == s.nodes[x];
    assert DoneOk(keys, code, a, s.nodes, x);
    var r := s.nodes[x];
    assert SharePrefix(keys[r.beg], keys[r.beg], r.kpos);
    if LeafOk(keys, a, r, x) {
      if |keys[r.beg]| != r.kpos {
        var k :| 0 <= k < |a.suffixes| && a.suffixes[k].npos == x;
        assert SuffixOk(keys, s, a.suffixes[k]);
      }
      assert LeafAt(m, x);
    } else {
      forall i | First(keys, r) <= i < r.end ensures ChildOk(keys, code, m.units, m.nodes, x, i) {
        assert ChildOk(keys, code, a.units, s.nodes, x, i);
        var c := Xor(a.units[x].base, code[At(keys[i], r.kpos)]);
        assert s.nodes[c] == s.nodes[c];
      }
      assert InnerAt(m, x);
    }
  }

  lemma RestCollected(keys: seq<Key>, code: seq<byte>, a: Arrays, s: Shape, m: Layout, sorted: seq<Suffix>, x: nat,
      w: Key)
    requires Completed(keys, code, a, s, m, sorted) && RestAt(m, x, w)
    ensures Suffix(w, x) in sorted
  {
    assert DoneOk(keys, code, a, s.nodes, x);
    var k :| 0 <= k < |a.suffixes| && a.suffixes[k].npos == x;
    assert SuffixOk(keys, s, a.suffixes[k]);
    assert a.suffixes[k] in a.suffixes;
  }

  lemma CollectedRest(keys: seq<Key>, code: seq<byte>, a: Arrays, s: Shape, m: Layout, sorted: seq<Suffix>,
      suffix: Suffix)
    requires Completed(keys, code, a, s, m, sorted) && suffix in sorted
    ensures RestAt(m, suffix.npos, suffix.str)
  {
    assert suffix in a.suffixes;
    var k :| 0 <= k < |a.suffixes| && a.suffixes[k] == suffix;
    assert SuffixOk(keys, s, a.suffixes[k]);
    assert DoneOk(keys, code, a, s.nodes, suffix.npos);
    assert s.nodes[suffix.npos] == s.nodes[suffix.npos];
    assert HasSuffix(a.suffixes, suffix.npos);
  }

  lemma CompletedTop(keys: seq<Key>, code: seq<byte>, a: Arrays, s: Shape, m: Layout, sorted: seq<Suffix>)
    requires Completed(keys, code, a, s, m, sorted)
    ensures TopOk(m)
  {
    forall x: nat, w | RestAt(m, x, w) ensures Suffix(w, x) in sorted {
      RestCollected(keys, code, a, s, m, sorted, x, w);
    }
    if sorted != [] {
      var last := sorted[|sorted| - 1];
      CollectedRest(keys, code, a, s, m, sorted, last);
      forall x: nat, w | RestAt(m, x, w) ensures !TV.BackLess(m.top, w) {
        var j :| 0 <= j < |sorted| && sorted[j] == Suffix(w, x);
        if j == |sorted| - 1 && TV.BackLess(w, w) { TV.BackLessAsymmetric(w, w); }
      }
    }
  }

  lemma CompletedNodes(keys: seq<Key>, code: seq<byte>, a: Arrays, s: Shape, m: Layout, sorted: seq<Suffix>)
    requires Completed(keys, code, a, s, m, sorted)
    ensures |m.units| == |m.leaves| == |m.terms| && |m.code| == 512
    ensures forall x {:trigger m.nodes[x]} :: x in m.nodes ==> x < |m.units|
    ensures forall x {:trigger NodeAt(m, x)} :: x in m.nodes ==> NodeAt(m, x)
  {
    forall x | x in m.nodes ensures x < |m.units| && NodeAt(m, x) {
      CompletedNode(keys, code, a, s, m, sorted, x);
    }
  }

  lemma CompletedOk(keys: seq<Key>, code: seq<byte>, a: Arrays, s: Shape, m: Layout, sorted: seq<Suffix>)
    requires Completed(keys, code, a, s, m, sorted)
    ensures LayoutOk(m)
  {
    hide NodeAt, TopOk, TV.PlacedAt;
    CompletedNodes(keys, code, a, s, m, sorted);
    forall x | x in m.nodes && x != 0 ensures ParentOk(keys, code, m.units, AllDone(m), x) {
      assert ParentOk(keys, code, a.units, s, x);
      CompletedParent(keys, code, a, s, m, sorted, x);
    }
    assert s.nodes[0] == Range(0, |keys|, 0);
    CompletedTop(keys, code, a, s, m, sorted);
  }

  /** The parent of a node has children, so complete leaves its base alone. */
  lemma CompletedParent(keys: seq<Key>, code: seq<byte>, a: Arrays, s: Shape, m: Layout, sorted: seq<Suffix>, x: nat)
    requires Completed(keys, code, a, s, m, sorted) && x in m.nodes && x != 0 && x < |m.units|
    ensures ParentOk(keys, code, m.units, AllDone(m), x)
  {
    assert ParentOk(keys, code, a.units, s, x);
    var p := a.units[x].check;
    assert s.nodes[x] == s.nodes[x] && s.nodes[p] == s.nodes[p];
    assert DoneOk(keys, code, a, s.nodes, p);
  }
}
