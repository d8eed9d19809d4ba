/** Where a key parts from all the others, told from the keys alone. */
module Rests {
  import opened Bits
  import opened Keys
  import opened Layout
  import opened DoubleArray
  import TV = TailVector

  /** No other key begins with the first n bytes of key i. */
  ghost predicate Alone(keys: seq<Key>, i: nat, n: nat)
    requires i < |keys|
  {
    forall j {:trigger keys[j]} :: 0 <= j < |keys| && j != i ==> !SharePrefix(keys[j], keys[i], n)
  }

  /** w is what remains of key i where it is the only one left. */
  ghost predicate RestOf(keys: seq<Key>, i: nat, w: Key) {
    && i < |keys| && 0 < |w| <= |keys[i]|
    && var d := |keys[i]| - |w|;
    keys[i][d..] == w && Alone(keys, i, d) && (d > 0 ==> !Alone(keys, i, d - 1))
  }

  /** Key i is the only one left just where it ends. */
  ghost predicate Bare(keys: seq<Key>, i: nat) {
    i < |keys| && Alone(keys, i, |keys[i]|) && (keys[i] != [] ==> !Alone(keys, i, |keys[i]| - 1))
  }

  lemma ShareShorter(a: Key, b: Key, n: nat, n': nat)
    requires n <= n' && SharePrefix(a, b, n')
    ensures SharePrefix(a, b, n)
  {
    assert a[..n] == a[..n'][..n] == b[..n'][..n] == b[..n];
  }

  lemma AloneLonger(keys: seq<Key>, i: nat, n: nat, n': nat)
    requires i < |keys| && n <= n' && Alone(keys, i, n) && n' <= |keys[i]|
    ensures Alone(keys, i, n')
  {
    forall j | 0 <= j < |keys| && j != i ensures !SharePrefix(keys[j], keys[i], n') {
      if SharePrefix(keys[j], keys[i], n') {
        ShareShorter(keys[j], keys[i], n, n');
      }
    }
  }

  /** A leaf stands where its key is alone, and not a byte further up. */
  lemma LeafAlone(m: Layout, x: nat)
    requires LayoutOk(m) && x in m.nodes && x < |m.leaves| && m.leaves[x]
    ensures var i := m.nodes[x].beg; var d := m.nodes[x].kpos;
            i < |m.keys| && d <= |m.keys[i]| && m.nodes[x].end == i + 1
            && Alone(m.keys, i, d) && (d > 0 ==> !Alone(m.keys, i, d - 1))
  {
    Node(m, x);
    var i, d := m.nodes[x].beg, m.nodes[x].kpos;
    forall j | 0 <= j < |m.keys| && j != i ensures !SharePrefix(m.keys[j], m.keys[i], d) {
      if SharePrefix(m.keys[j], m.keys[i], d) {
        assert Path(m, x) <= m.keys[j];
        BelowNode(m, x, j);
      }
    }
    if d > 0 {
      var p := Ancestor(m, x, d - 1);
      Node(m, p);
      var j := if m.nodes[p].beg == i then i + 1 else m.nodes[p].beg;
      assert SharePrefix(m.keys[j], m.keys[i], d - 1);
    }
  }

  /** A node with several keys leaves none of them alone. */
  lemma InnerNotAlone(m: Layout, x: nat, i: nat, n: nat)
    requires LayoutOk(m) && x in m.nodes && x < |m.leaves| && !m.leaves[x]
    requires i < |m.keys| && n <= m.nodes[x].kpos && n <= |m.keys[i]|
    requires n <= |Path(m, x)| && Path(m, x)[..n] == m.keys[i][..n]
    ensures !Alone(m.keys, i, n)
  {
    Node(m, x);
    var r := m.nodes[x];
    var j := if r.beg == i then r.beg + 1 else r.beg;
    assert m.keys[j][..n] == m.keys[j][..r.kpos][..n] == Path(m, x)[..n];
    assert SharePrefix(m.keys[j], m.keys[i], n);
  }

  lemma AloneNotInner(m: Layout, x: nat, i: nat, d: nat)
    requires LayoutOk(m) && EndsIn(m, x, i) && i < |m.keys| && d <= |m.keys[i]|
    ensures x < |m.leaves| && (m.leaves[x] || !Alone(m.keys, i, d))
  {
    Node(m, x);
    if !m.leaves[x] {
      InnerNotAlone(m, x, i, d);
    }
  }

  lemma AloneOrder(keys: seq<Key>, i: nat, d: nat, e: nat)
    requires i < |keys| && e <= |keys[i]| && Alone(keys, i, d) && !Alone(keys, i, e)
    ensures e < d
  {
    if d <= e {
      AloneLonger(keys, i, d, e);
    }
  }

  /** Alone at one depth only: the least. */
  lemma LeastAlone(keys: seq<Key>, i: nat, d: nat, e: nat)
    requires i < |keys| && d <= |keys[i]| && e <= |keys[i]|
    requires Alone(keys, i, d) && (d > 0 ==> !Alone(keys, i, d - 1))
    requires Alone(keys, i, e) && (e > 0 ==> !Alone(keys, i, e - 1))
    ensures d == e
  {
    if d > 0 { AloneOrder(keys, i, e, d - 1); }
    if e > 0 { AloneOrder(keys, i, d, e - 1); }
  }

  /** A key that is alone somewhere ends in a leaf, at the least depth at which it is. */
  lemma AloneLeaf(m: Layout, i: nat, d: nat) returns (x: nat)
    requires LayoutOk(m) && i < |m.keys| && d <= |m.keys[i]| && Alone(m.keys, i, d)
             && (d > 0 ==> !Alone(m.keys, i, d - 1))
    ensures EndsIn(m, x, i) && x < |m.leaves| && m.leaves[x] && m.nodes[x].kpos == d
  {
    x := TerminalBelow(m, 0, i);
    AloneNotInner(m, x, i, d);
    LeafAlone(m, x);
    LeastAlone(m.keys, i, d, m.nodes[x].kpos);
  }

  /** The rests of the leaves are the rests of the keys. */
  lemma RestIsRest(m: Layout, x: nat, w: Key)
    requires LayoutOk(m) && RestAt(m, x, w)
    ensures RestOf(m.keys, m.nodes[x].beg, w)
  {
    LeafAlone(m, x);
  }

  lemma RestOfLeaf(m: Layout, i: nat, w: Key) returns (x: nat)
    requires LayoutOk(m) && RestOf(m.keys, i, w)
    ensures RestAt(m, x, w) && m.nodes[x].beg == i
  {
    hide JudgeLayout;
    x := AloneLeaf(m, i, |m.keys[i]| - |w|);
  }

  lemma LeafBare(m: Layout, x: nat)
    requires LayoutOk(m) && x in m.nodes && x < |m.leaves| && m.leaves[x]
    requires m.nodes[x].beg < |m.keys| && m.nodes[x].kpos == |m.keys[m.nodes[x].beg]|
    ensures Bare(m.keys, m.nodes[x].beg)
  {
    LeafAlone(m, x);
  }

  /** The key of a leaf with a tail is not bare. */
  lemma TailNotBare(m: Layout, x: nat)
    requires LayoutOk(m) && x in m.nodes && x < |m.leaves| && m.leaves[x]
    requires m.nodes[x].beg < |m.keys| && m.nodes[x].kpos < |m.keys[m.nodes[x].beg]|
    ensures !Bare(m.keys, m.nodes[x].beg)
  {
    LeafAlone(m, x);
    var i := m.nodes[x].beg;
    if Bare(m.keys, i) {
      LeastAlone(m.keys, i, m.nodes[x].kpos, |m.keys[i]|);
    }
  }

  /** Nothing remains of a bare key. */
  lemma BareHasNoRest(keys: seq<Key>, i: nat)
    requires Bare(keys, i)
    ensures forall w :: !RestOf(keys, i, w)
  {
    forall w ensures !RestOf(keys, i, w) {
      if RestOf(keys, i, w) {
        LeastAlone(keys, i, |keys[i]|, |keys[i]| - |w|);
      }
    }
  }

  /** The greatest rest, compared from its end. */
  ghost predicate IsTop(keys: seq<Key>, top: Key) {
    && (exists i: nat :: RestOf(keys, i, top))
    && (forall i: nat, w :: RestOf(keys, i, w) ==> !TV.BackLess(top, w))
  }

  lemma OneTop(keys: seq<Key>, s: Key, t: Key)
    requires IsTop(keys, s) && IsTop(keys, t)
    ensures s == t
  {
    var i: nat :| RestOf(keys, i, s);
    var j: nat :| RestOf(keys, j, t);
    TV.BackEqual(s, t);
  }

  /** The first string of the tail is the greatest rest; without rests the tail holds only its dummy. */
  lemma TopOfTail(m: Layout)
    requires LayoutOk(m)
    ensures if |m.chars| == 1 then forall i: nat, w :: !RestOf(m.keys, i, w) else IsTop(m.keys, m.top)
  {
    if |m.chars| == 1 {
      forall i: nat, w ensures !RestOf(m.keys, i, w) {
        if RestOf(m.keys, i, w) {
          var x := RestOfLeaf(m, i, w);
        }
      }
    } else {
      var x: nat :| RestAt(m, x, m.top);
      RestIsRest(m, x, m.top);
      forall i: nat, w | RestOf(m.keys, i, w) ensures !TV.BackLess(m.top, w) {
        var y := RestOfLeaf(m, i, w);
      }
    }
  }
}
