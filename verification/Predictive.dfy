/** Predictive search and enumeration: an iterator over the keys below a node. */
module Predictive {
  import opened Options
  import opened Bits
  import opened Keys
  import opened FreeList
  import opened DoubleArray
  import opened Layout
  import opened Remaining
  import opened Rests
  import opened Trie
  import BV = BitVector
  import BC = BcVector
  import CT = CodeTable
  import TB = TrieBuilder
  import TV = TailVector

  // ---------- what is reported ----------

  /** A key in a leaf with a tail is also reported for queries that run past its end. */
  ghost predicate Overrun(keys: seq<Key>, i: nat, q: Key) {
    i < |keys| && keys[i] < q && exists w :: RestOf(keys, i, w)
  }

  ghost predicate Hit(keys: seq<Key>, i: nat, q: Key) {
    i < |keys| && (q <= keys[i] || Overrun(keys, i, q))
  }

  ghost predicate Hits(keys: seq<Key>, q: Key, lo: nat, hi: nat) {
    lo <= hi <= |keys| && forall i: nat :: Hit(keys, i, q) <==> lo <= i < hi
  }

  /** Predictive search is exact unless the query runs past a key that ends in the tail. */
  lemma ExactUnlessOverrun(keys: seq<Key>, q: Key)
    ensures (forall i: nat :: Hit(keys, i, q) <==> i < |keys| && q <= keys[i]) <==>
              (forall i: nat :: !Overrun(keys, i, q))
  {
    forall i: nat | Overrun(keys, i, q) ensures Hit(keys, i, q) && !(q <= keys[i]) {}
  }

  /** A query behind the only key finds it. */
  lemma OverrunExample()
    ensures Hit([[7]], 0, [7, 8]) && !([7, 8] <= [7])
  {
    var keys: seq<Key> := [[7]];
    assert RestOf(keys, 0, [7]);
    assert Overrun(keys, 0, [7, 8]);
  }

  // ---------- the walk to the query's node ----------

  /** Whatever is reported lies below every node on the way. */
  lemma HitBelow(m: Layout, x: nat, q: Key, i: nat)
    requires LayoutOk(m) && x in m.nodes && Path(m, x) <= q && Hit(m.keys, i, q)
    ensures m.nodes[x].beg <= i < m.nodes[x].end
  {
    Node(m, x);
    if Path(m, x) <= m.keys[i] {
      BelowNode(m, x, i);
    } else {
      ShortNoHit(m, x, q, i);
    }
  }

  lemma ShortNoHit(m: Layout, x: nat, q: Key, i: nat)
    requires LayoutOk(m) && x in m.nodes && Path(m, x) <= q && i < |m.keys| && m.keys[i] < Path(m, x)
    ensures !Hit(m.keys, i, q)
  {
    Node(m, x);
    var j, k := m.nodes[x].beg, m.nodes[x].kpos;
    assert m.keys[j][..k][..|m.keys[i]|] == m.keys[i];
    assert SharePrefix(m.keys[j], m.keys[i], |m.keys[i]|);
    NotAloneShorter(m.keys, i, j);
  }

  /** A key that is the beginning of another one is alone nowhere. */
  lemma NotAloneShorter(keys: seq<Key>, i: nat, j: nat)
    requires i < |keys| && j < |keys| && i != j && SharePrefix(keys[j], keys[i], |keys[i]|)
    ensures forall w :: !RestOf(keys, i, w)
  {
    forall w ensures !RestOf(keys, i, w) {
      if 0 < |w| <= |keys[i]| {
        ShareShorter(keys[j], keys[i], |keys[i]| - |w|, |keys[i]|);
      }
    }
  }

  lemma AtQueryEnd(m: Layout, x: nat, q: Key)
    requires LayoutOk(m) && x in m.nodes && Path(m, x) == q
    ensures Hits(m.keys, q, m.nodes[x].beg, m.nodes[x].end)
  {
    Node(m, x);
    forall i: nat ensures Hit(m.keys, i, q) <==> m.nodes[x].beg <= i < m.nodes[x].end {
      if Hit(m.keys, i, q) { HitBelow(m, x, q, i); }
    }
  }

  lemma NoEdgeNoHit(m: Layout, x: nat, q: Key)
    requires LayoutOk(m) && x in m.nodes && x < |m.leaves| == |m.units| && !m.leaves[x]
    requires Path(m, x) <= q && m.nodes[x].kpos < |q|
    requires var y := Child(m, x, q[m.nodes[x].kpos]); y < |m.units| && m.units[y].check != x
    ensures Hits(m.keys, q, 0, 0)
  {
    Node(m, x);
    var k := m.nodes[x].kpos;
    EdgeExact(m, x, q[k]);
    forall i: nat ensures !Hit(m.keys, i, q) {
      if Hit(m.keys, i, q) {
        HitBelow(m, x, q, i);
        NextByte(m, x, q, i);
      }
    }
  }

  /** A reported key goes on below an inner node with the query's next byte. */
  lemma NextByte(m: Layout, x: nat, q: Key, i: nat)
    requires LayoutOk(m) && x in m.nodes && x < |m.leaves| == |m.units| && !m.leaves[x]
    requires Path(m, x) <= q && m.nodes[x].kpos < |q| && Hit(m.keys, i, q) && m.nodes[x].beg <= i < m.nodes[x].end
    ensures Path(m, x) + [q[m.nodes[x].kpos]] <= m.keys[i]
  {
    Node(m, x);
    var k := m.nodes[x].kpos;
    if |m.keys[i]| == k {
      var w :| RestOf(m.keys, i, w);
      InnerNotAlone(m, x, i, |m.keys[i]| - |w|);
    } else {
      assert q[..k + 1] == Path(m, x) + [q[k]] == m.keys[i][..k + 1];
    }
  }

  lemma BareLeafNoHit(m: Layout, x: nat, q: Key)
    requires LayoutOk(m) && x in m.nodes && x < |m.leaves| == |m.units| && m.leaves[x] && m.units[x].base == 0
    requires Path(m, x) <= q && m.nodes[x].kpos < |q|
    ensures Hits(m.keys, q, 0, 0)
  {
    Node(m, x);
    var j := m.nodes[x].beg;
    LeafBare(m, x);
    BareHasNoRest(m.keys, j);
    forall i: nat ensures !Hit(m.keys, i, q) {
      if Hit(m.keys, i, q) {
        HitBelow(m, x, q, i);
      }
    }
  }

  /** At a leaf with a tail the key is reported if either ends the other. */
  lemma TailLeafHit(m: Layout, x: nat, q: Key, s: Key, rest: Key)
    requires LayoutOk(m) && x in m.nodes && RestAt(m, x, s)
    requires q == Path(m, x) + rest && rest != []
    ensures var i := m.nodes[x].beg; if s <= rest || rest <= s then Hits(m.keys, q, i, i + 1) else Hits(m.keys, q, 0, 0)
  {
    var j := m.nodes[x].beg;
    RestIsRest(m, x, s);
    TailHit(m.keys, j, q, Path(m, x), s, rest);
    LeafOnly(m, x, q);
    OneHit(m.keys, q, j);
  }

  lemma LeafOnly(m: Layout, x: nat, q: Key)
    requires LayoutOk(m) && x in m.nodes && x < |m.leaves| && m.leaves[x] && Path(m, x) <= q
    ensures forall i: nat | Hit(m.keys, i, q) :: i == m.nodes[x].beg
  {
    Node(m, x);
    forall i: nat | Hit(m.keys, i, q) ensures i == m.nodes[x].beg {
      HitBelow(m, x, q, i);
    }
  }

  lemma OneHit(keys: seq<Key>, q: Key, j: nat)
    requires j < |keys| && forall i: nat | Hit(keys, i, q) :: i == j
    ensures if Hit(keys, j, q) then Hits(keys, q, j, j + 1) else Hits(keys, q, 0, 0)
  {
  }

  lemma TailHit(keys: seq<Key>, j: nat, q: Key, p: Key, s: Key, rest: Key)
    requires RestOf(keys, j, s) && keys[j] == p + s && q == p + rest
    ensures Hit(keys, j, q) <==> s <= rest || rest <= s
  {
    PrefixTails(p, s, rest);
    PrefixTails(p, rest, s);
  }

  lemma PrefixTails(p: Key, a: Key, b: Key)
    ensures p + a <= p + b <==> a <= b
  {
    if p + a <= p + b {
      assert a == (p + a)[|p|..] && b[..|a|] == (p + b)[..|p + a|][|p|..];
    }
    if a <= b {
      assert (p + b)[..|p + a|] == p + b[..|a|];
    }
  }

  /** The keys reported for a query are consecutive. */
  lemma {:induction false} SomeHits(m: Layout, x: nat, q: Key) returns (lo: nat, hi: nat)
    requires LayoutOk(m) && x in m.nodes && m.nodes[x].kpos <= |q| && q[..m.nodes[x].kpos] == Path(m, x)
    ensures Hits(m.keys, q, lo, hi)
    decreases |q| - m.nodes[x].kpos
  {
    Node(m, x);
    if m.nodes[x].kpos == |q| {
      lo, hi := m.nodes[x].beg, m.nodes[x].end;
      AtQueryEnd(m, x, q);
    } else if m.leaves[x] {
      lo, hi := 0, 0;
      if m.units[x].base == 0 {
        BareLeafNoHit(m, x, q);
      } else {
        var s := m.keys[m.nodes[x].beg][m.nodes[x].kpos..];
        assert q == Path(m, x) + q[m.nodes[x].kpos..];
        TailLeafHit(m, x, q, s, q[m.nodes[x].kpos..]);
        if s <= q[m.nodes[x].kpos..] || q[m.nodes[x].kpos..] <= s {
          lo, hi := m.nodes[x].beg, m.nodes[x].beg + 1;
        }
      }
    } else {
      var y := Child(m, x, q[m.nodes[x].kpos]);
      Descends(m, x, q);
      if m.units[y].check == x {
        lo, hi := SomeHits(m, y, q);
      } else {
        lo, hi := 0, 0;
        NoEdgeNoHit(m, x, q);
      }
    }
  }

  lemma SameHits(keys: seq<Key>, q: Key, lo: nat, hi: nat, lo': nat, hi': nat)
    requires Hits(keys, q, lo, hi) && Hits(keys, q, lo', hi')
    ensures (lo == hi && lo' == hi') || (lo == lo' && hi == hi')
  {
    if lo < hi {
      assert Hit(keys, lo, q) && Hit(keys, hi - 1, q) && !Hit(keys, hi, q);
      assert lo > 0 ==> !Hit(keys, lo - 1, q);
    }
    if lo' < hi' {
      assert Hit(keys, lo', q) && Hit(keys, hi' - 1, q) && !Hit(keys, hi', q);
      assert lo' > 0 ==> !Hit(keys, lo' - 1, q);
    }
  }

  // ---------- the stack ----------

  datatype Cursor = Cursor(ch: byte, kpos: nat, npos: nat)

  /** From the top down the nodes on the stack hold the keys from lo to hi, in order. */
  ghost predicate Covers(m: Layout, stack: seq<Cursor>, lo: nat, hi: nat) {
    if stack == [] then lo == hi
    else
      var x := stack[|stack| - 1].npos;
      && x in m.nodes && m.nodes[x].beg == lo && m.nodes[x].kpos == stack[|stack| - 1].kpos
      && Covers(m, stack[..|stack| - 1], m.nodes[x].end, hi)
  }

  /** All but the last byte of the cursor's path is in the buffer, the last one is its byte. */
  ghost predicate CursorOk(m: Layout, e: Cursor, decoded: Key) {
    && e.npos in m.nodes && m.nodes[e.npos].beg < |m.keys|
    && var k := m.keys[m.nodes[e.npos].beg];
    && e.kpos <= |k|
    && (e.kpos > 0 ==> e.ch == k[e.kpos - 1] && e.kpos - 1 <= |decoded| && decoded[..e.kpos - 1] == k[..e.kpos - 1])
    && (e.kpos == 0 ==> decoded == [])
  }

  ghost predicate StackOk(m: Layout, stack: seq<Cursor>, decoded: Key) {
    && (forall a :: 0 <= a < |stack| ==> CursorOk(m, stack[a], decoded))
    && (forall a, b :: 0 <= a < b < |stack| ==> 0 < stack[a].kpos <= stack[b].kpos)
  }

  /** How much is left to do below the nodes on the stack. */
  ghost function Weight(m: Layout, stack: seq<Cursor>): nat {
    if stack == [] then 0
    else
      var x := stack[|stack| - 1].npos;
      Weight(m, stack[..|stack| - 1]) +
      (if x in m.nodes && m.nodes[x].beg <= m.nodes[x].end <= |m.keys| then
         Work(m.keys, m.nodes[x].beg, m.nodes[x].end, m.nodes[x].kpos) else 0)
  }

  /** The buffer may change behind the paths of all cursors. */
  lemma StackKept(m: Layout, stack: seq<Cursor>, decoded: Key, decoded': Key, k: nat)
    requires StackOk(m, stack, decoded) && forall a :: 0 <= a < |stack| ==> 0 < stack[a].kpos <= k
    requires k - 1 <= |decoded'| && (k > 0 ==> k - 1 <= |decoded| && decoded'[..k - 1] == decoded[..k - 1])
    ensures StackOk(m, stack, decoded')
  {
    forall a | 0 <= a < |stack| ensures CursorOk(m, stack[a], decoded') {
      assert CursorOk(m, stack[a], decoded);
      var n := stack[a].kpos - 1;
      assert decoded'[..n] == decoded'[..k - 1][..n] == decoded[..k - 1][..n] == decoded[..n];
    }
  }

  // ---------- the children of a node, in order ----------

  /** Bytes at the same place never fall from one key of a node to the next. */
  lemma BytesRise(m: Layout, x: nat, i: nat, j: nat)
    requires LayoutOk(m) && x in m.nodes && m.nodes[x].beg <= i < j < m.nodes[x].end <= |m.keys|
    requires m.nodes[x].kpos < |m.keys[i]| && m.nodes[x].kpos < |m.keys[j]|
    ensures m.keys[i][m.nodes[x].kpos] <= m.keys[j][m.nodes[x].kpos]
  {
    Node(m, x);
    var k := m.nodes[x].kpos;
    SortedPairs(m.keys, 0, |m.keys|, i, j);
    if m.keys[j][k] < m.keys[i][k] {
      assert SharePrefix(m.keys[j], m.keys[i], k);
      LessAt(m.keys[j], m.keys[i], k);
      LessTransitive(m.keys[i], m.keys[j], m.keys[i]);
      LessIrreflexive(m.keys[i]);
    }
  }

  /** The keys of node x from low on are those that go on with one of the last bytes of the alphabet. */
  ghost predicate Above(m: Layout, x: nat, alphabet: seq<byte>, c: nat, low: nat)
    requires x in m.nodes && c <= |alphabet|
  {
    var r := m.nodes[x];
    && r.beg < |m.keys| && First(m.keys, r) <= low <= r.end <= |m.keys|
    && forall i {:trigger m.keys[i]} :: First(m.keys, r) <= i < r.end ==>
         r.kpos < |m.keys[i]| && (low <= i <==> m.keys[i][r.kpos] in alphabet[c..])
  }

  ghost predicate SpelledIn(keys: seq<Key>, alphabet: seq<byte>) {
    forall i, k :: 0 <= i < |keys| && 0 <= k < |keys[i]| ==> keys[i][k] in alphabet
  }

  /** The child of the next lower byte holds the keys just below low. */
  lemma ChildBelow(m: Layout, x: nat, alphabet: seq<byte>, c: nat, low: nat, y: nat)
    requires LayoutOk(m) && x in m.nodes && x < |m.leaves| == |m.units| && !m.leaves[x]
    requires 0 < c <= |alphabet| && Above(m, x, alphabet, c, low) && CT.Sorted(alphabet)
    requires SpelledIn(m.keys, alphabet)
    requires y == Child(m, x, alphabet[c - 1]) && y < |m.units| && m.units[y].check == x
    ensures y in m.nodes && m.nodes[y].kpos == m.nodes[x].kpos + 1 && m.nodes[y].beg < m.nodes[y].end == low <= |m.keys|
    ensures m.nodes[y].kpos <= |m.keys[m.nodes[y].beg]| && m.keys[m.nodes[y].beg][m.nodes[x].kpos] == alphabet[c - 1]
    ensures m.keys[m.nodes[y].beg][..m.nodes[x].kpos] == Path(m, x)
    ensures Above(m, x, alphabet, c - 1, m.nodes[y].beg)
  {
    Node(m, x);
    ParentOf(m, x, y);
    Node(m, y);
    var k, b := m.nodes[x].kpos, alphabet[c - 1];
    forall i | m.nodes[y].beg <= i < m.nodes[y].end ensures m.keys[i][k] == b && First(m.keys, m.nodes[x]) <= i < low {
      XorInjective(m.units[x].base, m.code[b], m.code[m.keys[i][k]]);
      GoesOn(m, x, i);
      assert b !in alphabet[c..];
    }
    forall i | First(m.keys, m.nodes[x]) <= i < low && m.keys[i][k] == b
      ensures m.nodes[y].beg <= i < m.nodes[y].end
    {
      ChildOf(m, x, i);
    }
    assert m.keys[m.nodes[y].end - 1][k] == b;
    if m.nodes[y].end < low {
      var e := m.nodes[y].end;
      BytesRise(m, x, m.nodes[y].beg, e);
      BelowAlphabet(alphabet, c, m.keys[e][k]);
    }
    AboveNext(m, x, alphabet, c, low, m.nodes[y].beg);
  }

  lemma BelowAlphabet(alphabet: seq<byte>, c: nat, b: byte)
    requires 0 < c <= |alphabet| && CT.Sorted(alphabet) && b in alphabet && b !in alphabet[c..] && b != alphabet[c - 1]
    ensures b < alphabet[c - 1]
  {
    var a :| 0 <= a < |alphabet| && alphabet[a] == b;
    assert alphabet == alphabet[..c] + alphabet[c..];
  }

  lemma AboveNext(m: Layout, x: nat, alphabet: seq<byte>, c: nat, low: nat, low': nat)
    requires x in m.nodes && 0 < c <= |alphabet| && Above(m, x, alphabet, c, low)
             && First(m.keys, m.nodes[x]) <= low' <= low
    requires forall i :: low' <= i < low ==> m.keys[i][m.nodes[x].kpos] == alphabet[c - 1]
    requires forall i :: First(m.keys, m.nodes[x]) <= i < low' ==> m.keys[i][m.nodes[x].kpos] != alphabet[c - 1]
    ensures Above(m, x, alphabet, c - 1, low')
  {
    assert alphabet[c - 1..] == [alphabet[c - 1]] + alphabet[c..];
  }

  /** Without a child for a byte no key goes on with it. */
  lemma NoChildBelow(m: Layout, x: nat, alphabet: seq<byte>, c: nat, low: nat)
    requires LayoutOk(m) && x in m.nodes && x < |m.leaves| == |m.units| && !m.leaves[x]
    requires 0 < c <= |alphabet| && Above(m, x, alphabet, c, low)
    requires var y := Child(m, x, alphabet[c - 1]); y < |m.units| && m.units[y].check != x
    ensures Above(m, x, alphabet, c - 1, low)
  {
    Node(m, x);
    forall i | First(m.keys, m.nodes[x]) <= i < low ensures m.keys[i][m.nodes[x].kpos] != alphabet[c - 1] {
      ChildOf(m, x, i);
    }
    AboveNext(m, x, alphabet, c, low, low);
  }

  lemma AboveStart(m: Layout, x: nat, alphabet: seq<byte>)
    requires LayoutOk(m) && x in m.nodes
    ensures Above(m, x, alphabet, |alphabet|, m.nodes[x].end)
  {
    Node(m, x);
    forall i | First(m.keys, m.nodes[x]) <= i < m.nodes[x].end ensures m.nodes[x].kpos < |m.keys[i]| {
      GoesOn(m, x, i);
    }
  }

  /** In the end all keys that go on are covered. */
  lemma AboveAll(m: Layout, x: nat, alphabet: seq<byte>, low: nat)
    requires x in m.nodes && Above(m, x, alphabet, 0, low) && SpelledIn(m.keys, alphabet)
    ensures low == First(m.keys, m.nodes[x])
  {
    if First(m.keys, m.nodes[x]) < m.nodes[x].end {
      AboveFirst(m, x, alphabet, low, First(m.keys, m.nodes[x]));
    }
  }

  lemma AboveFirst(m: Layout, x: nat, alphabet: seq<byte>, low: nat, i: nat)
    requires x in m.nodes && Above(m, x, alphabet, 0, low) && SpelledIn(m.keys, alphabet)
    requires First(m.keys, m.nodes[x]) <= i < m.nodes[x].end
    ensures low <= i
  {
    assert alphabet[0..] == alphabet;
    assert m.keys[i][m.nodes[x].kpos] in alphabet;
  }

  lemma CoversPush(m: Layout, stack: seq<Cursor>, e: Cursor, hi: nat)
    requires e.npos in m.nodes && e.kpos == m.nodes[e.npos].kpos && Covers(m, stack, m.nodes[e.npos].end, hi)
    requires m.nodes[e.npos].beg <= m.nodes[e.npos].end <= |m.keys|
    ensures Covers(m, stack + [e], m.nodes[e.npos].beg, hi)
    ensures Weight(m, stack + [e]) == Weight(m, stack) + Work(m.keys, m.nodes[e.npos].beg, m.nodes[e.npos].end, e.kpos)
  {
    assert (stack + [e])[..|stack|] == stack;
  }

  /** std::string::resize */
  function Resized(s: Key, n: nat): (r: Key)
    ensures |r| == n && forall k :: 0 <= k < n && k < |s| ==> r[k] == s[k]
  {
    if n <= |s| then s[..n] else s + seq(n - |s|, _ => 0)
  }

  /** Cut to the cursor's depth, with its byte at the end, the buffer is the path of the cursor's node. */
  lemma ResizedIsPath(m: Layout, e: Cursor, decoded: Key)
    requires LayoutOk(m) && CursorOk(m, e, decoded) && e.kpos == m.nodes[e.npos].kpos
    ensures (if 0 < e.kpos then Resized(decoded, e.kpos)[e.kpos - 1 := e.ch] else decoded) == Path(m, e.npos)
  {
    Node(m, e.npos);
    var k := m.keys[m.nodes[e.npos].beg];
    if 0 < e.kpos {
      var r := Resized(decoded, e.kpos)[e.kpos - 1 := e.ch];
      forall a | 0 <= a < e.kpos ensures r[a] == k[a] {
        if a < e.kpos - 1 { assert decoded[..e.kpos - 1][a] == k[..e.kpos - 1][a]; }
      }
      assert r == k[..e.kpos];
    }
  }

  /** The work below the children of a node is less than below the node. */
  lemma LessWork(m: Layout, x: nat)
    requires LayoutOk(m) && x in m.nodes
    ensures m.nodes[x].beg < m.nodes[x].end <= |m.keys|
    ensures First(m.keys, m.nodes[x]) <= m.nodes[x].end
    ensures Work(m.keys, First(m.keys, m.nodes[x]), m.nodes[x].end, m.nodes[x].kpos + 1) < Work(m.keys, m.nodes[x].beg,
        m.nodes[x].end, m.nodes[x].kpos)
  {
    Node(m, x);
    TB.InnerWork(m.keys, m.nodes[x]);
  }

  // ---------- the steps of the iterator ----------

  /** How the walk to the query ends: at a node, with one key to report, or with none. */
  datatype WalkEnd = AtNode(npos: nat) | Report(id: nat) | Nothing

  lemma KeyParts(key: Key, k: nat, p: Key)
    requires k <= |key| && key[..k] == p
    ensures key == p + key[k..]
  {
  }

  lemma LeafParts(m: Layout, x: nat, s: Key)
    requires LayoutOk(m) && RestAt(m, x, s)
    ensures m.keys[m.nodes[x].beg] == Path(m, x) + s
  {
  }

  /** At a leaf above the end of the query: the number and the rest of its key if it is to be reported. */
  method LeafReport(t: Trie, key: Key, kpos: nat, npos: nat, ghost m: Layout, ghost slots: seq<nat>,
      ghost ids: seq<nat>)
      returns (end: WalkEnd, rest: Key)
    requires Encodes(t, m) && IdsOk(m, slots, ids) && npos in m.nodes && npos < |m.units| == |m.leaves|
             && m.leaves[npos]
    requires kpos < |key| && kpos == m.nodes[npos].kpos && key[..kpos] == Path(m, npos)
    ensures m.nodes[npos].beg < |m.keys| == |ids|
    ensures var i := m.nodes[npos].beg;
            if end.Report? then Hits(m.keys, key, i, i + 1) && end.id == ids[i] && Path(m, npos) + rest == m.keys[i]
            else end.Nothing? && Hits(m.keys, key, 0, 0)
  {
    hide JudgeLayout;
    Basics(m);
    Node(m, npos);
    rest := [];
    ghost var s := LeafTail(t, m, npos);
    var tpos := BC.Link(t.bcvec, npos, m.units, m.leaves);
    if tpos == 0 {
      BareLeafNoHit(m, npos, key);
      return Nothing, [];
    }
    LeafParts(m, npos, s);
    KeyParts(key, kpos, Path(m, npos));
    TailLeafHit(m, npos, key, s, key[kpos..]);
    var matched := TV.PrefixMatch(t.tvec, key[kpos..], tpos, s);
    if matched.None? {
      return Nothing, [];
    }
    OneTerminal(m, npos, slots[m.nodes[npos].beg], m.nodes[npos].beg);
    rest := TV.Decode(t.tvec, tpos, s);
    end := Report(BV.Rank(t.terms, npos));
  }

  /** What the walk finds is what is to be reported. */
  ghost predicate WalkOk(m: Layout, ids: seq<nat>, key: Key, end: WalkEnd, decoded: Key)
    requires LayoutOk(m) && |ids| == |m.keys|
  {
    match end
    case AtNode(npos) => npos in m.nodes && Path(m, npos) == key == decoded && m.nodes[npos].kpos == |key|
    case Report(id) => exists i :: 0 <= i < |ids| && Hits(m.keys, key, i, i + 1) && id == ids[i] && decoded == m.keys[i]
    case Nothing => Hits(m.keys, key, 0, 0)
  }

  /** The walk of the first step: byte by byte down the double array, the path collected in decoded. */
  method Walk(t: Trie, key: Key, ghost m: Layout, ghost slots: seq<nat>, ghost ids: seq<nat>)
      returns (end: WalkEnd, decoded: Key)
    requires Encodes(t, m) && IdsOk(m, slots, ids)
    ensures WalkOk(m, ids, key, end, decoded)
  {
    hide JudgeLayout, JudgeTrie, IdsOk, BC.Encodes;
    Parts(t, m);
    Basics(m);
    decoded := [];
    var kpos, npos := 0, 0;
    Node(m, 0);
    while kpos < |key|
      invariant kpos <= |key| && npos in m.nodes && kpos == m.nodes[npos].kpos && npos < |m.units| == |m.leaves|
      invariant decoded == key[..kpos] == Path(m, npos)
    {
      var leaf := BC.IsLeaf(t.bcvec, npos, m.units, m.leaves);
      if leaf {
        var rest;
        end, rest := LeafReport(t, key, kpos, npos, m, slots, ids);
        decoded := decoded + rest;
        return;
      }
      Descends(m, npos, key);
      var base := BC.Base(t.bcvec, npos, m.units, m.leaves);
      var cpos := Xor(base, GetCode(t, key[kpos]));
      var check := BC.Check(t.bcvec, cpos, m.units, m.leaves);
      if check != npos {
        NoEdgeNoHit(m, npos, key);
        return Nothing, decoded;
      }
      npos := cpos;
      decoded := decoded + [key[kpos]];
      kpos := kpos + 1;
    }
    end := AtNode(npos);
  }

  /** The cursors are on the stack and the rest of the keys below them. */
  ghost predicate Pending(m: Layout, stack: seq<Cursor>, decoded: Key, lo: nat, hi: nat) {
    Covers(m, stack, lo, hi) && StackOk(m, stack, decoded)
  }

  /** The children of a node are pushed from the last to the first. */
  method PushChildren(t: Trie, stack: seq<Cursor>, npos: nat, kpos: nat, decoded: Key, ghost m: Layout, ghost hi: nat)
      returns (r: seq<Cursor>)
    requires Encodes(t, m) && npos in m.nodes && npos < |m.units| == |m.leaves| && !m.leaves[npos]
             && kpos == m.nodes[npos].kpos
    requires decoded == Path(m, npos) && Pending(m, stack, decoded, m.nodes[npos].end, hi)
    requires forall a :: 0 <= a < |stack| ==> 0 < stack[a].kpos <= kpos
    requires m.nodes[npos].beg < |m.keys| && First(m.keys, m.nodes[npos]) <= m.nodes[npos].end <= |m.keys|
    ensures Pending(m, r, decoded, First(m.keys, m.nodes[npos]), hi)
    ensures Weight(m, r) == Weight(m, stack) + Work(m.keys, First(m.keys, m.nodes[npos]), m.nodes[npos].end, kpos + 1)
  {
    hide JudgeLayout, JudgeTrie, Above, SpelledIn, Pushed, Pending, Weight, CT.Sorted;
    Parts(t, m);
    var base := BC.Base(t.bcvec, npos, m.units, m.leaves);
    var alphabet := t.table.alphabet;
    AboveStart(m, npos, alphabet);
    AlphabetHasAll(t, m);
    PushedNone(m, stack, npos, decoded, hi);
    r := stack;
    ghost var low := m.nodes[npos].end;
    var c: nat := |alphabet|;
    while c > 0
      invariant c <= |alphabet| && Above(m, npos, alphabet, c, low)
      invariant Pushed(m, stack, r, npos, decoded, low, hi)
    {
      r, low := PushChild(t, stack, r, npos, kpos, base, alphabet, c, decoded, m, low, hi);
      c := c - 1;
    }
    AboveAll(m, npos, alphabet, low);
    PushedAll(m, stack, r, npos, decoded, low, hi);
  }

  lemma PushedNone(m: Layout, stack: seq<Cursor>, npos: nat, decoded: Key, hi: nat)
    requires npos in m.nodes && Pending(m, stack, decoded, m.nodes[npos].end, hi) && m.nodes[npos].end <= |m.keys|
    requires forall a :: 0 <= a < |stack| ==> 0 < stack[a].kpos <= m.nodes[npos].kpos
    ensures Pushed(m, stack, stack, npos, decoded, m.nodes[npos].end, hi)
  {
  }

  lemma PushedAll(m: Layout, stack: seq<Cursor>, r: seq<Cursor>, npos: nat, decoded: Key, low: nat, hi: nat)
    requires npos in m.nodes && Pushed(m, stack, r, npos, decoded, low, hi)
    ensures Pending(m, r, decoded, low, hi)
    ensures Weight(m, r) == Weight(m, stack) + Work(m.keys, low, m.nodes[npos].end, m.nodes[npos].kpos + 1)
  {
  }

  /** The children of the keys from low on are on the stack. */
  ghost predicate Pushed(m: Layout, stack: seq<Cursor>, r: seq<Cursor>, npos: nat, decoded: Key, low: nat, hi: nat)
    requires npos in m.nodes
  {
    && Pending(m, r, decoded, low, hi) && low <= m.nodes[npos].end <= |m.keys|
    && (forall a :: 0 <= a < |r| ==> 0 < r[a].kpos <= m.nodes[npos].kpos + 1)
    && Weight(m, r) == Weight(m, stack) + Work(m.keys, low, m.nodes[npos].end, m.nodes[npos].kpos + 1)
  }

  lemma PushedNext(m: Layout, stack: seq<Cursor>, r: seq<Cursor>, npos: nat, decoded: Key, low: nat, hi: nat, y: nat,
      ch: byte)
    requires LayoutOk(m) && npos in m.nodes && Pushed(m, stack, r, npos, decoded, low, hi) && decoded == Path(m, npos)
    requires y in m.nodes && m.nodes[y].kpos == m.nodes[npos].kpos + 1
             && m.nodes[y].beg < m.nodes[y].end == low <= |m.keys|
    requires m.nodes[y].kpos <= |m.keys[m.nodes[y].beg]| && m.keys[m.nodes[y].beg][m.nodes[npos].kpos] == ch
    requires m.keys[m.nodes[y].beg][..m.nodes[npos].kpos] == Path(m, npos)
    ensures Pushed(m, stack, r + [Cursor(ch, m.nodes[npos].kpos + 1, y)], npos, decoded, m.nodes[y].beg, hi)
  {
    var e := Cursor(ch, m.nodes[npos].kpos + 1, y);
    CoversPush(m, r, e, hi);
    WorkSplit(m.keys, m.nodes[y].beg, low, m.nodes[npos].end, m.nodes[npos].kpos + 1);
    Node(m, npos);
    assert CursorOk(m, e, decoded);
  }

  /** One turn of the loop over the alphabet. */
  method PushChild(t: Trie, ghost stack: seq<Cursor>, r: seq<Cursor>, npos: nat, kpos: nat, base: nat,
      alphabet: seq<byte>, c: nat, ghost decoded: Key,
                   ghost m: Layout, ghost low: nat, ghost hi: nat) returns (r': seq<Cursor>, ghost low': nat)
    requires Encodes(t, m) && npos in m.nodes && npos < |m.units| == |m.leaves| && !m.leaves[npos]
             && base == m.units[npos].base && kpos == m.nodes[npos].kpos
    requires 0 < c <= |alphabet| && alphabet == t.table.alphabet && Above(m, npos, alphabet, c, low)
    requires decoded == Path(m, npos) && Pushed(m, stack, r, npos, decoded, low, hi)
    ensures Above(m, npos, alphabet, c - 1, low') && Pushed(m, stack, r', npos, decoded, low', hi)
  {
    var b := alphabet[c - 1];
    var cpos := Xor(base, GetCode(t, b));
    ChildInside(m, npos, b);
    AlphabetHasAll(t, m);
    r', low' := r, low;
    var check := BC.Check(t.bcvec, cpos, m.units, m.leaves);
    if check == npos {
      ChildBelow(m, npos, alphabet, c, low, cpos);
      PushedNext(m, stack, r, npos, decoded, low, hi, cpos, b);
      r' := r + [Cursor(b, kpos + 1, cpos)];
      low' := m.nodes[cpos].beg;
    } else {
      NoChildBelow(m, npos, alphabet, c, low);
    }
  }

  lemma AlphabetHasAll(t: Trie, m: Layout)
    requires Encodes(t, m)
    ensures CT.Sorted(t.table.alphabet)
    ensures SpelledIn(m.keys, t.table.alphabet)
  {
    forall i, k | 0 <= i < |m.keys| && 0 <= k < |m.keys[i]| ensures m.keys[i][k] in t.table.alphabet {
      assert CT.Occurs(m.keys, m.keys[i][k]);
    }
  }

  /** A leaf is the end of a key: the rest comes from the tail. */
  method VisitLeaf(t: Trie, npos: nat, kpos: nat, stack: seq<Cursor>, decoded: Key, ghost m: Layout,
      ghost slots: seq<nat>, ghost ids: seq<nat>, ghost hi: nat)
      returns (id: nat, decoded': Key)
    requires Encodes(t, m) && IdsOk(m, slots, ids) && npos in m.nodes && npos < |m.units| == |m.leaves|
             && m.leaves[npos]
    requires decoded == Path(m, npos) && kpos == m.nodes[npos].kpos && Pending(m, stack, decoded, m.nodes[npos].end, hi)
    requires forall a :: 0 <= a < |stack| ==> 0 < stack[a].kpos <= kpos
    ensures m.nodes[npos].beg < |m.keys| == |ids| && id == ids[m.nodes[npos].beg]
            && decoded' == m.keys[m.nodes[npos].beg]
    ensures Pending(m, stack, decoded', m.nodes[npos].beg + 1, hi)
  {
    hide JudgeLayout, Covers, StackOk, TV.Reads, TV.Lone, BC.Encodes;
    Basics(m);
    Node(m, npos);
    ghost var s := LeafTail(t, m, npos);
    OneTerminal(m, npos, slots[m.nodes[npos].beg], m.nodes[npos].beg);
    id := BV.Rank(t.terms, npos);
    var tpos := BC.Link(t.bcvec, npos, m.units, m.leaves);
    var rest := TV.Decode(t.tvec, tpos, s);
    decoded' := decoded + rest;
    if tpos != 0 {
      LeafParts(m, npos, s);
    }
    StackKept(m, stack, decoded, decoded', kpos);
  }

  /** One popped node: the end of a key, or nothing but children to visit. */
  method VisitNode(t: Trie, npos: nat, kpos: nat, stack: seq<Cursor>, decoded: Key, ghost m: Layout,
      ghost slots: seq<nat>, ghost ids: seq<nat>, ghost hi: nat)
      returns (found: bool, id: nat, stack': seq<Cursor>, decoded': Key)
    requires Encodes(t, m) && IdsOk(m, slots, ids) && npos in m.nodes
    requires decoded == Path(m, npos) && kpos == m.nodes[npos].kpos && Pending(m, stack, decoded, m.nodes[npos].end, hi)
    requires forall a :: 0 <= a < |stack| ==> 0 < stack[a].kpos <= kpos
    ensures var i := m.nodes[npos].beg;
            if found then i < |m.keys| == |ids| && id == ids[i] && decoded' == m.keys[i]
               && Pending(m, stack', decoded', i + 1, hi)
            else Pending(m, stack', decoded', i, hi)
    ensures m.nodes[npos].beg <= m.nodes[npos].end <= |m.keys|
    ensures !found ==> Weight(m, stack') < Weight(m, stack) + Work(m.keys, m.nodes[npos].beg, m.nodes[npos].end, kpos)
  {
    hide JudgeLayout;
    Basics(m);
    Node(m, npos);
    var leaf := BC.IsLeaf(t.bcvec, npos, m.units, m.leaves);
    if leaf {
      id, decoded' := VisitLeaf(t, npos, kpos, stack, decoded, m, slots, ids, hi);
      return true, id, stack, decoded';
    }
    LessWork(m, npos);
    stack' := PushChildren(t, stack, npos, kpos, decoded, m, hi);
    decoded' := decoded;
    found := BV.Get(t.terms, npos);
    id := 0;
    if found {
      OneTerminal(m, npos, slots[m.nodes[npos].beg], m.nodes[npos].beg);
      id := BV.Rank(t.terms, npos);
    }
  }

  /** Popping a cursor: the buffer becomes the path of its node. */
  lemma Popped(m: Layout, stack: seq<Cursor>, decoded: Key, lo: nat, hi: nat, decoded': Key)
    requires LayoutOk(m) && stack != [] && Pending(m, stack, decoded, lo, hi)
    requires var e := stack[|stack| - 1];
             decoded' == if 0 < e.kpos then Resized(decoded, e.kpos)[e.kpos - 1 := e.ch] else decoded
    ensures var e, rest := stack[|stack| - 1], stack[..|stack| - 1];
            && e.npos in m.nodes && m.nodes[e.npos].beg == lo && m.nodes[e.npos].kpos == e.kpos
            && decoded' == Path(m, e.npos) && Pending(m, rest, decoded', m.nodes[e.npos].end, hi)
            && (forall a :: 0 <= a < |rest| ==> 0 < rest[a].kpos <= e.kpos)
            && m.nodes[e.npos].beg <= m.nodes[e.npos].end <= |m.keys|
            && Weight(m, stack) == Weight(m, rest) + Work(m.keys, lo, m.nodes[e.npos].end, e.kpos)
  {
    var e, rest := stack[|stack| - 1], stack[..|stack| - 1];
    assert CursorOk(m, e, decoded);
    Node(m, e.npos);
    ResizedIsPath(m, e, decoded);
    if 0 < e.kpos {
      assert decoded'[..e.kpos - 1] == decoded[..e.kpos - 1];
      StackKept(m, rest, decoded, decoded', e.kpos);
    }
  }

  lemma {:induction false} CoversAscends(m: Layout, stack: seq<Cursor>, lo: nat, hi: nat)
    requires LayoutOk(m) && Covers(m, stack, lo, hi)
    ensures lo <= hi
  {
    if stack != [] {
      Node(m, stack[|stack| - 1].npos);
      CoversAscends(m, stack[..|stack| - 1], m.nodes[stack[|stack| - 1].npos].end, hi);
    }
  }

  ghost function JudgeService(t: Trie, m: Layout, slots: seq<nat>, ids: seq<nat>, lo: nat, hi: nat): Verdict {
    if Encodes(t, m) && IdsOk(m, slots, ids) && lo <= hi <= |m.keys| then Sound else Unsound
  }

  /** The trie is at hand, and the keys from lo up to hi are to be reported. */
  ghost predicate Serving(t: Trie, m: Layout, slots: seq<nat>, ids: seq<nat>, lo: nat, hi: nat) {
    JudgeService(t, m, slots, ids, lo, hi).Sound?
  }

  ghost function JudgeRun(t: Trie, m: Layout, slots: seq<nat>, ids: seq<nat>, stack: seq<Cursor>, decoded: Key, lo: nat,
      hi: nat): Verdict {
    if Serving(t, m, slots, ids, lo, hi) && Pending(m, stack, decoded, lo, hi) then Sound else Unsound
  }

  /** The keys from lo up to hi are reported from this stack and buffer. */
  ghost predicate Running(t: Trie, m: Layout, slots: seq<nat>, ids: seq<nat>, stack: seq<Cursor>, decoded: Key, lo: nat,
      hi: nat) {
    JudgeRun(t, m, slots, ids, stack, decoded, lo, hi).Sound?
  }

  lemma RunEnds(t: Trie, m: Layout, slots: seq<nat>, ids: seq<nat>, decoded: Key, lo: nat, hi: nat)
    requires Running(t, m, slots, ids, [], decoded, lo, hi)
    ensures lo == hi && Serving(t, m, slots, ids, lo, hi)
  {
  }

  /** The top of the stack is popped and visited. */
  method PopAndVisit(t: Trie, stack: seq<Cursor>, decoded: Key, ghost m: Layout, ghost slots: seq<nat>,
      ghost ids: seq<nat>, ghost lo: nat, ghost hi: nat)
      returns (found: bool, id: nat, stack': seq<Cursor>, decoded': Key)
    requires Running(t, m, slots, ids, stack, decoded, lo, hi) && stack != []
    ensures Running(t, m, slots, ids, stack', decoded', if found then lo + 1 else lo, hi)
    ensures found ==> lo < hi <= |m.keys| == |ids| && id == ids[lo] && decoded' == m.keys[lo]
    ensures !found ==> Weight(m, stack') < Weight(m, stack)
  {
    hide JudgeLayout, JudgeTrie, StackOk, Weight, Work, IdsOk;
    Parts(t, m);
    var top := stack[|stack| - 1];
    stack' := stack[..|stack| - 1];
    decoded' := decoded;
    if 0 < top.kpos {
      decoded' := Resized(decoded', top.kpos)[top.kpos - 1 := top.ch];
    }
    Popped(m, stack, decoded, lo, hi, decoded');
    found, id, stack', decoded' := VisitNode(t, top.npos, top.kpos, stack', decoded', m, slots, ids, hi);
    CoversAscends(m, stack', if found then lo + 1 else lo, hi);
  }

  /** Pops nodes until one is the end of a key, or none is left. */
  method PopUntilKey(t: Trie, stack: seq<Cursor>, decoded: Key, ghost m: Layout, ghost slots: seq<nat>,
      ghost ids: seq<nat>, ghost lo: nat, ghost hi: nat)
      returns (found: bool, id: nat, stack': seq<Cursor>, decoded': Key)
    requires Running(t, m, slots, ids, stack, decoded, lo, hi)
    ensures lo <= hi && (found <==> lo < hi)
    ensures if found then Running(t, m, slots, ids, stack', decoded', lo + 1, hi) else Serving(t, m, slots, ids, lo, hi)
    ensures found ==> hi <= |m.keys| == |ids| && id == ids[lo] && decoded' == m.keys[lo]
  {
    found, id, stack', decoded' := false, 0, stack, decoded;
    while |stack'| > 0 && !found
      invariant Running(t, m, slots, ids, stack', decoded', if found then lo + 1 else lo, hi)
      invariant found ==> lo < hi <= |m.keys| == |ids| && id == ids[lo] && decoded' == m.keys[lo]
      decreases !found, Weight(m, stack')
    {
      found, id, stack', decoded' := PopAndVisit(t, stack', decoded', m, slots, ids, lo, hi);
    }
    if !found {
      RunEnds(t, m, slots, ids, decoded', lo, hi);
    }
  }

  /** The last byte of the query, or a null byte. */
  function LastByte(q: Key): byte {
    if q != [] then q[|q| - 1] else 0
  }

  /** The walk ends at a node: its cursor stands for the keys to report. */
  lemma WalkAtNode(m: Layout, key: Key, npos: nat, lo: nat, hi: nat)
    requires LayoutOk(m) && npos in m.nodes && Path(m, npos) == key && m.nodes[npos].kpos == |key|
             && Hits(m.keys, key, lo, hi)
    ensures Pending(m, [Cursor(LastByte(key), |key|, npos)], key, lo, hi)
  {
    AtQueryEnd(m, npos, key);
    Node(m, npos);
    SameHits(m.keys, key, m.nodes[npos].beg, m.nodes[npos].end, lo, hi);
    var e := Cursor(LastByte(key), |key|, npos);
    CoversPush(m, [], e, hi);
    assert [] + [e] == [e];
    assert CursorOk(m, e, key);
  }

  /** Where the first step leaves the search. */
  ghost predicate Started(t: Trie, m: Layout, slots: seq<nat>, ids: seq<nat>, end: WalkEnd, decoded: Key,
      stack: seq<Cursor>, lo: nat, hi: nat) {
    match end
    case AtNode(npos) => Running(t, m, slots, ids, stack, decoded, lo, hi)
    case Report(id) => lo + 1 == hi && hi <= |m.keys| == |ids| && id == ids[lo] && decoded == m.keys[lo]
    case Nothing => lo == hi
  }

  ghost function JudgeStart(t: Trie, m: Layout, slots: seq<nat>, ids: seq<nat>, key: Key, lo: nat, hi: nat): Verdict {
    if Serving(t, m, slots, ids, lo, hi) && Hits(m.keys, key, lo, hi) then Sound else Unsound
  }

  /** Before the first step. */
  ghost predicate Unstarted(t: Trie, m: Layout, slots: seq<nat>, ids: seq<nat>, key: Key, decoded: Key,
      stack: seq<Cursor>, lo: nat, hi: nat) {
    decoded == [] && stack == [] && JudgeStart(t, m, slots, ids, key, lo, hi).Sound?
  }

  /** The walk of the first step, with the stack it leaves. */
  method StartWalk(t: Trie, key: Key, ghost m: Layout, ghost slots: seq<nat>, ghost ids: seq<nat>, ghost lo: nat,
      ghost hi: nat)
      returns (end: WalkEnd, decoded: Key, stack: seq<Cursor>)
    requires JudgeStart(t, m, slots, ids, key, lo, hi).Sound?
    ensures Started(t, m, slots, ids, end, decoded, stack, lo, hi)
    ensures Serving(t, m, slots, ids, hi, hi)
  {
    end, decoded := Walk(t, key, m, slots, ids);
    stack := [];
    match end
    case AtNode(npos) =>
      stack := [Cursor(LastByte(decoded), |key|, npos)];
      WalkAtNode(m, key, npos, lo, hi);
    case Report(id) =>
      ghost var i :| 0 <= i < |ids| && Hits(m.keys, key, i, i + 1) && id == ids[i] && decoded == m.keys[i];
      SameHits(m.keys, key, i, i + 1, lo, hi);
    case Nothing =>
      SameHits(m.keys, key, 0, 0, lo, hi);
  }

  class PredictiveIterator {
    const t: Trie
    const key: Key
    var id: nat
    var decoded: Key
    var stack: seq<Cursor>
    var isBeg: bool
    var isEnd: bool
    ghost const m: Layout
    ghost const slots: seq<nat>
    ghost const ids: seq<nat>
    /** The first key not yet reported, and the end of the keys to report. */
    ghost var next: nat
    ghost const last: nat

    ghost predicate Valid()
      reads this
    {
      if isBeg then !isEnd && Unstarted(t, m, slots, ids, key, decoded, stack, next, last)
      else if isEnd then next == last && Serving(t, m, slots, ids, next, last)
      else Running(t, m, slots, ids, stack, decoded, next, last)
    }

    constructor (t: Trie, key: Key, ghost m: Layout, ghost slots: seq<nat>, ghost ids: seq<nat>)
      requires Encodes(t, m) && IdsOk(m, slots, ids)
      ensures Valid() && isBeg && this.t == t && this.key == key && this.m == m && this.slots == slots
              && this.ids == ids
    {
      this.t, this.key, this.m, this.slots, this.ids := t, key, m, slots, ids;
      id, decoded, stack, isBeg, isEnd := 0, [], [], true, false;
      Node(m, 0);
      ghost var lo, hi := SomeHits(m, 0, key);
      next, last := lo, hi;
    }

    lemma Bounds()
      requires Valid()
      ensures next <= last <= |m.keys| == |ids|
    {
    }

    /** The key that was next is reported, or there was none left. */
    twostate predicate Reported(more: bool)
      reads this
    {
      && (more <==> old(next) < last) && next == (if more then old(next) + 1 else old(next))
      && (more ==> old(next) < |ids| == |m.keys| && id == ids[old(next)] && decoded == m.keys[old(next)])
    }

    /** The keys in order, each with its number; then false. */
    method Next() returns (more: bool)
      requires Valid()
      modifies `id, `decoded, `stack, `isBeg, `isEnd, `next
      ensures Valid() && !isBeg && Reported(more)
    {
      hide JudgeService, JudgeRun, JudgeStart;
      if isEnd {
        return false;
      }
      if isBeg {
        var settled;
        settled, more := Start();
        if settled {
          return;
        }
      }
      more := Resume();
    }

    /** The first call walks to the node of the query; a leaf on the way settles the search. */
    method Start() returns (settled: bool, more: bool)
      requires Valid() && isBeg
      modifies `id, `decoded, `stack, `isBeg, `isEnd, `next
      ensures Valid() && !isBeg
      ensures if settled then Reported(more) else !isEnd && next == old(next)
    {
      hide JudgeService, JudgeRun, JudgeStart;
      var end;
      end, decoded, stack := StartWalk(t, key, m, slots, ids, next, last);
      isBeg := false;
      settled, more := !end.AtNode?, end.Report?;
      if settled {
        isEnd := true;
      }
      if more {
        id, next := end.id, next + 1;
      }
    }

    /** The loop over the stack. */
    method Resume() returns (more: bool)
      requires Valid() && !isBeg && !isEnd
      modifies `id, `decoded, `stack, `isEnd, `next
      ensures Valid() && Reported(more)
    {
      hide JudgeService, JudgeRun, JudgeStart;
      more, id, stack, decoded := PopUntilKey(t, stack, decoded, m, slots, ids, next, last);
      if more {
        next := next + 1;
      } else {
        isEnd := true;
      }
    }
  }

  // ---------- the searches ----------

  /** predictive_search: the reported keys in ascending order, each with its number and text. */
  method PredictiveSearch(t: Trie, q: Key, ghost keys: seq<Key>, ghost ids: seq<nat>)
      returns (found: seq<(nat, Key)>, ghost lo: nat)
    requires Represents(t, keys, ids)
    ensures Hits(keys, q, lo, lo + |found|) && Lists(found, keys, ids, lo)
  {
    ghost var m, slots :| Encodes(t, m) && m.keys == keys && IdsOk(m, slots, ids);
    var itr := new PredictiveIterator(t, q, m, slots, ids);
    lo := itr.next;
    found := Collect(itr);
  }

  /** found lists the keys from lo on with their numbers. */
  ghost predicate Lists(found: seq<(nat, Key)>, keys: seq<Key>, ids: seq<nat>, lo: nat) {
    && lo + |found| <= |keys| == |ids|
    && forall a :: 0 <= a < |found| ==> found[a] == (ids[lo + a], keys[lo + a])
  }

  lemma ListsNext(found: seq<(nat, Key)>, keys: seq<Key>, ids: seq<nat>, lo: nat, i: nat, id: nat, key: Key)
    requires Lists(found, keys, ids, lo) && i == lo + |found| < |keys| && id == ids[i] && key == keys[i]
    ensures Lists(found + [(id, key)], keys, ids, lo)
  {
  }

  /** The loop of the searches. */
  method Collect(itr: PredictiveIterator) returns (found: seq<(nat, Key)>)
    requires itr.Valid()
    modifies itr
    ensures Lists(found, itr.m.keys, itr.ids, old(itr.next)) && old(itr.next) + |found| == itr.last
  {
    hide JudgeService, JudgeRun, JudgeStart;
    ghost var lo := itr.next;
    found := [];
    var more := true;
    itr.Bounds();
    while more
      invariant itr.Valid() && itr.next == lo + |found| && Lists(found, itr.m.keys, itr.ids, lo)
      invariant !more ==> itr.next == itr.last
      decreases itr.last - itr.next, more
    {
      more := itr.Next();
      itr.Bounds();
      if more {
        ListsNext(found, itr.m.keys, itr.ids, lo, itr.next - 1, itr.id, itr.decoded);
        found := found + [(itr.id, itr.decoded)];
      }
    }
  }

  /** enumerate: every key once, in ascending order, with its number. */
  method Enumerate(t: Trie, ghost keys: seq<Key>, ghost ids: seq<nat>) returns (found: seq<(nat, Key)>)
    requires Represents(t, keys, ids)
    ensures |found| == |keys| == |ids|
    ensures forall i :: 0 <= i < |keys| ==> found[i] == (ids[i], keys[i])
  {
    hide Represents, Hits;
    ghost var lo;
    found, lo := PredictiveSearch(t, [], keys, ids);
    AllHits(keys, lo, lo + |found|);
  }

  /** Every key starts with the empty query. */
  lemma AllHits(keys: seq<Key>, lo: nat, hi: nat)
    requires Hits(keys, [], lo, hi)
    ensures lo == hi - |keys| == 0
  {
    forall i: nat | i < |keys| ensures Hit(keys, i, []) {}
    if |keys| > 0 {
      assert Hit(keys, 0, []) && Hit(keys, |keys| - 1, []);
    }
  }
}
