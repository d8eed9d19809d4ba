/** What a double array under construction stands for: a map from nodes (slots)
    to the range of keys below them. A node is pending from the moment its
    parent reserves its slot until it is arranged itself. */
module DoubleArray {
  import opened Bits
  import opened Keys
  import opened FreeList

  /** keys[beg..end] reach the node after kpos bytes. */
  datatype Range = Range(beg: nat, end: nat, kpos: nat)

  datatype Suffix = Suffix(str: Key, npos: nat)

  /** The builder's arrays. */
  datatype Arrays = Arrays(units: seq<Unit>, useds: seq<bool>, leaves: seq<bool>, terms: seq<bool>,
                           suffixes: seq<Suffix>)

  datatype Shape = Shape(nodes: map<nat, Range>, done: set<nat>)

  // ---------- ranges ----------

  ghost predicate Proper(keys: seq<Key>, r: Range) {
    r.beg < r.end <= |keys| &&
    forall i {:trigger keys[i]} :: r.beg <= i < r.end ==> SharePrefix(keys[i], keys[r.beg], r.kpos)
  }

  /** The second of two equal keys, reached through its terminator. */
  ghost predicate Doomed(keys: seq<Key>, r: Range) {
    && 0 < r.beg && r.end == r.beg + 1 <= |keys|
    && keys[r.beg] == keys[r.beg - 1] && |keys[r.beg]| < r.kpos
  }

  ghost predicate RangeOk(keys: seq<Key>, r: Range) {
    Proper(keys, r) || Doomed(keys, r)
  }

  /** The first key of the range that goes on below the node. */
  function First(keys: seq<Key>, r: Range): nat
    requires r.beg < |keys|
  {
    if |keys[r.beg]| == r.kpos then r.beg + 1 else r.beg
  }

  // ---------- code table ----------

  /** The first half of the table maps a byte to its code, the second half maps codes back. */
  ghost predicate CodesOk(code: seq<byte>) {
    |code| == 512 && forall ch: byte {:trigger code[ch]} :: code[code[ch] + 256] == ch
  }

  lemma CodesInjective(code: seq<byte>, a: byte, b: byte)
    requires CodesOk(code) && code[a] == code[b]
    ensures a == b
  {
  }

  // ---------- nodes ----------

  predicate HasSuffix(suffixes: seq<Suffix>, x: nat) {
    exists a :: 0 <= a < |suffixes| && suffixes[a].npos == x
  }

  ghost predicate ChildOk(keys: seq<Key>, code: seq<byte>, units: seq<Unit>, nodes: map<nat, Range>, x: nat, i: nat)
    requires x < |units| && x in nodes && i < |keys| && |code| == 512
  {
    nodes[x].kpos <= |keys[i]| &&
    var c := Xor(units[x].base, code[At(keys[i], nodes[x].kpos)]);
    c in nodes && c < |units| && units[c].check == x &&
    nodes[c].kpos == nodes[x].kpos + 1 && nodes[c].beg <= i < nodes[c].end
  }

  ghost predicate LeafOk(keys: seq<Key>, a: Arrays, r: Range, x: nat)
    requires x < |a.units| && x < |a.leaves| && x < |a.terms| && r.beg < |keys|
  {
    && r.end == r.beg + 1 && a.leaves[x] && a.terms[x]
    && (if |keys[r.beg]| == r.kpos then a.units[x].base == 0 && !HasSuffix(a.suffixes, x) else HasSuffix(a.suffixes, x))
  }

  ghost predicate InnerOk(keys: seq<Key>, code: seq<byte>, a: Arrays, nodes: map<nat, Range>, x: nat)
    requires x < |a.units| && x < |a.leaves| && x < |a.terms| && x in nodes && |code| == 512
    requires nodes[x].beg < nodes[x].end <= |keys|
  {
    var r := nodes[x];
    && r.beg + 1 < r.end && !a.leaves[x] && !HasSuffix(a.suffixes, x)
    && a.terms[x] == (|keys[r.beg]| == r.kpos)
    && (a.units[x].base / 256 + 1) * 256 <= |a.units|
    && (forall i {:trigger ChildOk(keys, code, a.units, nodes, x, i)} ::
          First(keys, r) <= i < r.end ==> ChildOk(keys, code, a.units, nodes, x, i))
  }

  ghost predicate DoneOk(keys: seq<Key>, code: seq<byte>, a: Arrays, nodes: map<nat, Range>, x: nat)
    requires x < |a.units| && x < |a.leaves| && x < |a.terms| && x in nodes && |code| == 512
  {
    Proper(keys, nodes[x]) &&
    (LeafOk(keys, a, nodes[x], x) || InnerOk(keys, code, a, nodes, x))
  }

  ghost predicate PendingOk(a: Arrays, x: nat)
    requires x < |a.leaves| && x < |a.terms|
  {
    !a.leaves[x] && !a.terms[x] && !HasSuffix(a.suffixes, x)
  }

  /** A node other than the root is the child its parent's base names. */
  ghost predicate ParentOk(keys: seq<Key>, code: seq<byte>, units: seq<Unit>, s: Shape, x: nat)
    requires x < |units| && x in s.nodes && |code| == 512
  {
    var p := units[x].check;
    && p in s.done && p in s.nodes && p < |units|
    && s.nodes[p].beg + 1 < s.nodes[p].end <= |keys|
    && s.nodes[x].kpos == s.nodes[p].kpos + 1
    && First(keys, s.nodes[p]) <= s.nodes[x].beg && s.nodes[x].end <= s.nodes[p].end
    && s.nodes[x].beg < |keys| && s.nodes[p].kpos <= |keys[s.nodes[x].beg]|
    && x == Xor(units[p].base, code[At(keys[s.nodes[x].beg], s.nodes[p].kpos)])
  }

  ghost predicate SuffixOk(keys: seq<Key>, s: Shape, suffix: Suffix) {
    && suffix.npos in s.done && suffix.npos in s.nodes
    && var r := s.nodes[suffix.npos];
    && r.beg + 1 == r.end <= |keys| && r.kpos < |keys[r.beg]|
    && suffix.str == keys[r.beg][r.kpos..]
  }

  ghost predicate SuffixesOk(keys: seq<Key>, s: Shape, suffixes: seq<Suffix>) {
    && (forall a :: 0 <= a < |suffixes| ==> SuffixOk(keys, s, suffixes[a]))
    && (forall a, b :: 0 <= a < b < |suffixes| ==> suffixes[a].npos != suffixes[b].npos)
  }

  ghost predicate SameLengths(a: Arrays) {
    |a.units| == |a.useds| == |a.leaves| == |a.terms|
  }

  ghost predicate NodesOk(keys: seq<Key>, a: Arrays, nodes: map<nat, Range>) {
    && SameLengths(a)
    && (forall x {:trigger nodes[x]} :: x in nodes ==>
          x < |a.units| && x != TABOO && a.useds[x] && RangeOk(keys, nodes[x]))
    && (forall i: nat :: i < |a.useds| && a.useds[i] ==> i in nodes || i == TABOO)
    && (forall i: nat :: i < |a.useds| && i !in nodes ==> !a.leaves[i] && !a.terms[i])
    && 0 in nodes && nodes[0] == Range(0, |keys|, 0) && a.units[0].check == TABOO
  }

  ghost predicate StepsOk(keys: seq<Key>, code: seq<byte>, a: Arrays, s: Shape)
    requires NodesOk(keys, a, s.nodes) && |code| == 512
  {
    && s.done <= s.nodes.Keys
    && (forall x {:trigger DoneOk(keys, code, a, s.nodes, x)} :: x in s.done ==> DoneOk(keys, code, a, s.nodes, x))
    && (forall x {:trigger PendingOk(a, x)} :: x in s.nodes && x !in s.done ==> PendingOk(a, x))
  }

  ghost predicate ParentsOk(keys: seq<Key>, code: seq<byte>, a: Arrays, s: Shape)
    requires NodesOk(keys, a, s.nodes) && |code| == 512
  {
    forall x {:trigger ParentOk(keys, code, a.units, s, x)} :: x in s.nodes && x != 0 ==>
      ParentOk(keys, code, a.units, s, x)
  }

  /** The invariant of the tree. */
  ghost function Judge(keys: seq<Key>, code: seq<byte>, a: Arrays, s: Shape): Verdict {
    if
      && CodesOk(code) && NodesOk(keys, a, s.nodes)
      && StepsOk(keys, code, a, s) && ParentsOk(keys, code, a, s)
      && SuffixesOk(keys, s, a.suffixes)
    then Sound else Unsound
  }

  ghost predicate TreeOk(keys: seq<Key>, code: seq<byte>, a: Arrays, s: Shape) {
    Judge(keys, code, a, s).Sound?
  }

  // ---------- edges of a node ----------

  /** edges are the distinct bytes of keys[lo..hi] at k in ascending order; the keys
      with byte edges[m] are keys[starts[m]..starts[m + 1]]. */
  ghost predicate GroupsOk(keys: seq<Key>, lo: nat, hi: nat, k: nat, edges: seq<byte>, starts: seq<nat>) {
    && |edges| > 0 && |starts| == |edges| + 1
    && starts[0] == lo && starts[|edges|] == hi <= |keys|
    && forall m: nat :: m < |edges| ==> GroupAt(keys, k, edges, starts, m)
  }

  /** Group m is not empty, lies above group m - 1 and consists of the keys with byte edges[m]. */
  ghost predicate GroupAt(keys: seq<Key>, k: nat, edges: seq<byte>, starts: seq<nat>, m: nat)
    requires m < |edges| < |starts|
  {
    && starts[m] < starts[m + 1]
    && (0 < m ==> edges[m - 1] < edges[m])
    && GroupOk(keys, starts[m], starts[m + 1], k, edges[m])
  }

  ghost predicate GroupOk(keys: seq<Key>, i: nat, j: nat, k: nat, ch: byte) {
    forall x {:trigger keys[x]} :: i <= x < j && x < |keys| ==> k <= |keys[x]| && At(keys[x], k) == ch
  }

  lemma {:induction false} GroupsAscend(keys: seq<Key>, lo: nat, hi: nat, k: nat, edges: seq<byte>, starts: seq<nat>,
      m: nat, n: nat)
    requires GroupsOk(keys, lo, hi, k, edges, starts)
    requires m < n <= |edges|
    ensures starts[m] < starts[n] && (n < |edges| ==> edges[m] < edges[n])
    decreases n
  {
    assert GroupAt(keys, k, edges, starts, n - 1);
    if n < |edges| { assert GroupAt(keys, k, edges, starts, n); }
    if m + 1 < n {
      GroupsAscend(keys, lo, hi, k, edges, starts, m, n - 1);
    }
  }

  /** Every key of the range is in one of the groups. */
  lemma {:induction false} GroupOf(keys: seq<Key>, lo: nat, hi: nat, k: nat, edges: seq<byte>, starts: seq<nat>, i: nat,
      n: nat)
      returns (m: nat)
    requires GroupsOk(keys, lo, hi, k, edges, starts)
    requires n <= |edges| && lo <= i < starts[n]
    ensures m < n && starts[m] <= i < starts[m + 1]
    decreases n
  {
    if n > 0 && starts[n - 1] <= i {
      m := n - 1;
    } else if n > 0 {
      m := GroupOf(keys, lo, hi, k, edges, starts, i, n - 1);
    } else {
      assert false;
    }
  }

  /** A group of a proper range is itself a range: proper, or a doomed duplicate. */
  lemma GroupRangeOk(keys: seq<Key>, r: Range, i: nat, j: nat, ch: byte)
    requires Readable(keys) && Proper(keys, r)
    requires First(keys, r) <= i < j <= r.end && GroupOk(keys, i, j, r.kpos, ch)
    requires i == First(keys, r) || 0 < ch
    ensures RangeOk(keys, Range(i, j, r.kpos + 1))
  {
    var k := r.kpos;
    var child := Range(i, j, k + 1);
    if exists x: nat {:trigger keys[x]} :: i <= x < j && |keys[x]| <= k {
      var x: nat :| i <= x < j && |keys[x]| <= k;
      assert SharePrefix(keys[x], keys[r.beg], k);
      if StrictlySorted(keys) {
        assert keys[x] == keys[x][..k] == keys[r.beg][..k] <= keys[r.beg];
        PrefixNotAbove(keys[x], keys[r.beg]);
        if r.beg < x {
          SortedPairs(keys, 0, |keys|, r.beg, x);
        }
        assert false;
      } else {
        DoomedGroup(keys, r, i, j);
      }
    } else {
      forall x | i <= x < j ensures SharePrefix(keys[x], keys[i], k + 1) {
        assert SharePrefix(keys[x], keys[r.beg], k) && SharePrefix(keys[i], keys[r.beg], k);
        SharePrefixExtend(keys[x], keys[i], k);
      }
      assert Proper(keys, child);
    }
  }

  /** Among NUL-free keys the group behind the terminator is the repetition of a key that ended here. */
  lemma DoomedGroup(keys: seq<Key>, r: Range, i: nat, j: nat)
    requires NulFree(keys) && NoTriple(keys) && Proper(keys, r)
    requires First(keys, r) == i < j <= r.end && GroupOk(keys, i, j, r.kpos, 0)
    ensures Doomed(keys, Range(i, j, r.kpos + 1))
  {
    var k := r.kpos;
    forall x | i <= x < j ensures keys[x] == keys[r.beg][..k] {
      assert SharePrefix(keys[x], keys[r.beg], k);
      assert NulFreeKey(keys[x]);
      assert At(keys[x], k) == 0;
      assert |keys[x]| == k && keys[x] == keys[x][..k];
    }
    assert NulFreeKey(keys[r.beg]);
    assert keys[i] == keys[r.beg][..k];
    assert i == r.beg + 1 && keys[r.beg][..k] == keys[r.beg];
    if i + 1 < j {
      assert Triple(keys, i + 1);
      assert false;
    }
  }

  // ---------- reserving the children of a node ----------

  /** The slots of the children of a node. */
  function Kids(code: seq<byte>, base: nat, edges: seq<byte>): (kids: seq<nat>)
    requires |code| == 512
    ensures |kids| == |edges|
    ensures forall m :: 0 <= m < |edges| ==> kids[m] == Xor(base, code[edges[m]])
  {
    seq(|edges|, m requires 0 <= m < |edges| => Xor(base, code[edges[m]]))
  }

  ghost predicate Distinct<T>(xs: seq<T>) {
    forall a, b :: 0 <= a < b < |xs| ==> xs[a] != xs[b]
  }

  lemma KidsDistinct(keys: seq<Key>, lo: nat, hi: nat, k: nat, edges: seq<byte>, starts: seq<nat>, code: seq<byte>,
      base: nat)
    requires GroupsOk(keys, lo, hi, k, edges, starts) && CodesOk(code)
    ensures Distinct(Kids(code, base, edges))
  {
    var kids := Kids(code, base, edges);
    forall a, b | 0 <= a < b < |kids| ensures kids[a] != kids[b] {
      GroupsAscend(keys, lo, hi, k, edges, starts, a, b);
      if kids[a] == kids[b] {
        XorInjective(base, code[edges[a]], code[edges[b]]);
        CodesInjective(code, edges[a], edges[b]);
      }
    }
  }

  /** The node map with the first m children entered. */
  ghost function WithChildren(nodes: map<nat, Range>, kids: seq<nat>, starts: seq<nat>, k: nat,
      m: nat): (r: map<nat, Range>)
    requires m <= |kids| && |starts| == |kids| + 1
  {
    if m == 0 then nodes
    else WithChildren(nodes, kids, starts, k, m - 1)[kids[m - 1] := Range(starts[m - 1], starts[m], k)]
  }

  lemma {:induction false} WithChildrenFacts(nodes: map<nat, Range>, kids: seq<nat>, starts: seq<nat>, k: nat, m: nat)
    requires m <= |kids| && |starts| == |kids| + 1 && Distinct(kids)
    requires forall a :: 0 <= a < |kids| ==> kids[a] !in nodes
    ensures var r := WithChildren(nodes, kids, starts, k, m);
            && (forall y :: y in nodes ==> y in r && r[y] == nodes[y])
            && (forall a :: 0 <= a < m ==> kids[a] in r && r[kids[a]] == Range(starts[a], starts[a + 1], k))
            && (forall y :: y in r ==> y in nodes || y in kids[..m])
  {
    if m > 0 {
      WithChildrenFacts(nodes, kids, starts, k, m - 1);
      assert kids[..m] == kids[..m - 1] + [kids[m - 1]];
    }
  }

  /** What reserving the children of x changes in the arrays. */
  ghost predicate Installed(a: Arrays, a': Arrays, nodes: map<nat, Range>, x: nat, ended: bool, base: nat,
      kids: seq<nat>)
    requires SameLengths(a) && x < |a.units|
  {
    && SameLengths(a') && |a.units| <= |a'.units|
    && (base / 256 + 1) * 256 <= |a'.units|
    && (forall y :: y in nodes && y != x && y < |a.units| ==> a'.units[y] == a.units[y])
    && a'.units[x] == Unit(base, a.units[x].check)
    && (forall i: nat :: i < |a'.units| ==> a'.leaves[i] == (i < |a.units| && a.leaves[i]))
    && (forall i: nat :: i < |a'.units| ==> a'.terms[i] == (if i == x then ended else i < |a.units| && a.terms[i]))
    && a'.suffixes == a.suffixes
    && (forall y :: y in nodes && y < |a.units| && a.useds[y] ==> a'.useds[y])
    && (forall m :: 0 <= m < |kids| ==>
          kids[m] < |a'.units| && a'.useds[kids[m]] && kids[m] !in nodes && kids[m] != TABOO
          && a'.units[kids[m]].check == x)
    && (forall i: nat :: i < |a'.units| && a'.useds[i] ==> (i < |a.units| && a.useds[i]) || i in kids)
  }

  /** The array changes of reserving children, put together. */
  lemma InstalledBy(a: Arrays, a': Arrays, code: seq<byte>, keys: seq<Key>, s: Shape, x: nat, r: Range, base: nat,
      kids: seq<nat>)
    requires TreeOk(keys, code, a, s) && x in s.nodes && x !in s.done && r == s.nodes[x] && r.beg < |keys|
    requires SameLengths(a') && |a.units| <= |a'.units| && (base / 256 + 1) * 256 <= |a'.units|
    requires forall y :: y in s.nodes && y != x ==> a'.units[y] == a.units[y]
    requires a'.units[x] == Unit(base, a.units[x].check)
    requires a'.leaves == a.leaves + Falses(|a'.units| - |a.units|)
    requires a'.terms == (if |keys[r.beg]| == r.kpos then a.terms[x := true] else a.terms) + Falses(|a'.units| - |a.units|)
    requires a'.suffixes == a.suffixes
    requires forall y: nat :: y < |a'.units| ==> (a'.useds[y] <==> (y < |a.units| && a.useds[y]) || y in kids)
    requires forall m :: 0 <= m < |kids| ==> kids[m] < |a'.units| && a'.units[kids[m]].check == x
    requires forall m :: 0 <= m < |kids| ==> !(kids[m] < |a.units| && a.useds[kids[m]]) && kids[m] != TABOO
    ensures Installed(a, a', s.nodes, x, |keys[r.beg]| == r.kpos, base, kids)
  {
    assert PendingOk(a, x);
    forall y | y in s.nodes ensures y < |a.units| && a.useds[y] {
      assert s.nodes[y] == s.nodes[y];
    }
  }

  /** A pending node with several keys, and everything reserved for its children. */
  ghost predicate Installing(keys: seq<Key>, code: seq<byte>, a: Arrays, a': Arrays, s: Shape, x: nat, base: nat,
      kids: seq<nat>, edges: seq<byte>, starts: seq<nat>) {
    && Readable(keys) && TreeOk(keys, code, a, s)
    && x in s.nodes && x !in s.done && Proper(keys, s.nodes[x]) && s.nodes[x].beg + 1 < s.nodes[x].end
    && GroupsOk(keys, First(keys, s.nodes[x]), s.nodes[x].end, s.nodes[x].kpos, edges, starts)
    && Installed(a, a', s.nodes, x, |keys[s.nodes[x].beg]| == s.nodes[x].kpos, base, kids)
    && |kids| == |edges| && Distinct(kids)
  }

  ghost function AfterInstall(s: Shape, x: nat, kids: seq<nat>, starts: seq<nat>): Shape
    requires |starts| == |kids| + 1 && x in s.nodes
  {
    Shape(WithChildren(s.nodes, kids, starts, s.nodes[x].kpos + 1, |kids|), s.done + {x})
  }

  lemma AfterInstallFacts(keys: seq<Key>, code: seq<byte>, a: Arrays, a': Arrays, s: Shape, x: nat, base: nat,
      kids: seq<nat>, edges: seq<byte>, starts: seq<nat>)
    requires Installing(keys, code, a, a', s, x, base, kids, edges, starts)
    ensures var nodes' := AfterInstall(s, x, kids, starts).nodes;
            && (forall y :: y in s.nodes ==> y in nodes' && nodes'[y] == s.nodes[y])
            && (forall m :: 0 <= m < |kids| ==>
                  kids[m] in nodes' && nodes'[kids[m]] == Range(starts[m], starts[m + 1], s.nodes[x].kpos + 1))
            && (forall y :: y in nodes' ==> y in s.nodes || y in kids)
  {
    WithChildrenFacts(s.nodes, kids, starts, s.nodes[x].kpos + 1, |kids|);
    assert kids[..|kids|] == kids;
  }

  lemma InstallKeepsTree(keys: seq<Key>, code: seq<byte>, a: Arrays, a': Arrays, s: Shape, x: nat, base: nat,
      kids: seq<nat>, edges: seq<byte>, starts: seq<nat>)
    requires Installing(keys, code, a, a', s, x, base, kids, edges, starts) && kids == Kids(code, base, edges)
    ensures TreeOk(keys, code, a', AfterInstall(s, x, kids, starts))
  {
    InstallKeepsNodes(keys, code, a, a', s, x, base, kids, edges, starts);
    InstallKeepsSteps(keys, code, a, a', s, x, base, kids, edges, starts);
    InstallKeepsParents(keys, code, a, a', s, x, base, kids, edges, starts);
    AfterInstallFacts(keys, code, a, a', s, x, base, kids, edges, starts);
    var s' := AfterInstall(s, x, kids, starts);
    forall b | 0 <= b < |a'.suffixes| ensures SuffixOk(keys, s', a'.suffixes[b]) {
      assert SuffixOk(keys, s, a.suffixes[b]);
    }
  }

  lemma InstallKeepsNodes(keys: seq<Key>, code: seq<byte>, a: Arrays, a': Arrays, s: Shape, x: nat, base: nat,
      kids: seq<nat>, edges: seq<byte>, starts: seq<nat>)
    requires Installing(keys, code, a, a', s, x, base, kids, edges, starts)
    ensures NodesOk(keys, a', AfterInstall(s, x, kids, starts).nodes)
  {
    AfterInstallFacts(keys, code, a, a', s, x, base, kids, edges, starts);
    var nodes' := AfterInstall(s, x, kids, starts).nodes;
    forall y | y in nodes' ensures y < |a'.units| && y != TABOO && a'.useds[y] && RangeOk(keys, nodes'[y]) {
      if y in s.nodes {
        assert nodes'[y] == s.nodes[y];
      } else {
        var m :| 0 <= m < |kids| && y == kids[m];
        ChildFacts(keys, s.nodes[x], edges, starts, m);
      }
    }
  }

  lemma InstallKeepsParents(keys: seq<Key>, code: seq<byte>, a: Arrays, a': Arrays, s: Shape, x: nat, base: nat,
      kids: seq<nat>, edges: seq<byte>, starts: seq<nat>)
    requires Installing(keys, code, a, a', s, x, base, kids, edges, starts) && kids == Kids(code, base, edges)
    requires NodesOk(keys, a', AfterInstall(s, x, kids, starts).nodes)
    ensures ParentsOk(keys, code, a', AfterInstall(s, x, kids, starts))
  {
    AfterInstallFacts(keys, code, a, a', s, x, base, kids, edges, starts);
    var s' := AfterInstall(s, x, kids, starts);
    forall y | y in s'.nodes && y != 0 ensures ParentOk(keys, code, a'.units, s', y) {
      if y in s.nodes {
        assert ParentOk(keys, code, a.units, s, y);
        assert a.units[y].check != x && a.units[y].check in s.nodes;
      } else {
        var m :| 0 <= m < |kids| && y == kids[m];
        ChildFacts(keys, s.nodes[x], edges, starts, m);
      }
    }
  }

  lemma InstallKeepsSteps(keys: seq<Key>, code: seq<byte>, a: Arrays, a': Arrays, s: Shape, x: nat, base: nat,
      kids: seq<nat>, edges: seq<byte>, starts: seq<nat>)
    requires Installing(keys, code, a, a', s, x, base, kids, edges, starts) && kids == Kids(code, base, edges)
    requires NodesOk(keys, a', AfterInstall(s, x, kids, starts).nodes)
    ensures StepsOk(keys, code, a', AfterInstall(s, x, kids, starts))
  {
    AfterInstallFacts(keys, code, a, a', s, x, base, kids, edges, starts);
    var s' := AfterInstall(s, x, kids, starts);
    forall y | y in s'.done ensures DoneOk(keys, code, a', s'.nodes, y) {
      if y == x {
        InstalledNode(keys, code, a, a', s, x, base, kids, edges, starts);
      } else {
        InstalledOther(keys, code, a, a', s, x, base, kids, s'.nodes, y);
      }
    }
    forall y | y in s'.nodes && y !in s'.done ensures PendingOk(a', y) {
      if y in s.nodes {
        assert PendingOk(a, y);
      } else {
        NoSuffixOutside(keys, a, s, y);
      }
    }
  }

  lemma NoSuffixOutside(keys: seq<Key>, a: Arrays, s: Shape, y: nat)
    requires SuffixesOk(keys, s, a.suffixes) && y !in s.done
    ensures !HasSuffix(a.suffixes, y)
  {
    forall b | 0 <= b < |a.suffixes| ensures a.suffixes[b].npos != y {
      assert SuffixOk(keys, s, a.suffixes[b]);
    }
  }

  lemma InstalledNode(keys: seq<Key>, code: seq<byte>, a: Arrays, a': Arrays, s: Shape, x: nat, base: nat,
      kids: seq<nat>, edges: seq<byte>, starts: seq<nat>)
    requires Installing(keys, code, a, a', s, x, base, kids, edges, starts) && kids == Kids(code, base, edges)
    requires x in AfterInstall(s, x, kids, starts).nodes
    ensures DoneOk(keys, code, a', AfterInstall(s, x, kids, starts).nodes, x)
  {
    AfterInstallFacts(keys, code, a, a', s, x, base, kids, edges, starts);
    var r := s.nodes[x];
    var lo, k := First(keys, r), r.kpos;
    var nodes' := AfterInstall(s, x, kids, starts).nodes;
    assert PendingOk(a, x);
    forall i | lo <= i < r.end ensures ChildOk(keys, code, a'.units, nodes', x, i) {
      var m := GroupOf(keys, lo, r.end, k, edges, starts, i, |edges|);
      assert GroupAt(keys, k, edges, starts, m);
      assert k <= |keys[i]| && At(keys[i], k) == edges[m];
      assert kids[m] == Xor(base, code[At(keys[i], k)]);
    }
  }

  lemma InstalledOther(keys: seq<Key>, code: seq<byte>, a: Arrays, a': Arrays, s: Shape, x: nat, base: nat,
      kids: seq<nat>, nodes': map<nat, Range>, y: nat)
    requires TreeOk(keys, code, a, s) && x in s.nodes && x !in s.done && y in s.done && |keys| > s.nodes[x].beg
    requires Installed(a, a', s.nodes, x, |keys[s.nodes[x].beg]| == s.nodes[x].kpos, base, kids)
    requires forall z :: z in s.nodes ==> z in nodes' && nodes'[z] == s.nodes[z]
    ensures DoneOk(keys, code, a', nodes', y)
  {
    assert DoneOk(keys, code, a, s.nodes, y);
    if InnerOk(keys, code, a, s.nodes, y) {
      forall i | First(keys, s.nodes[y]) <= i < s.nodes[y].end ensures ChildOk(keys, code, a'.units, nodes', y, i) {
        assert ChildOk(keys, code, a.units, s.nodes, y, i);
      }
    }
  }

  lemma ChildFacts(keys: seq<Key>, r: Range, edges: seq<byte>, starts: seq<nat>, m: nat)
    requires Readable(keys) && Proper(keys, r)
    requires GroupsOk(keys, First(keys, r), r.end, r.kpos, edges, starts) && m < |edges|
    ensures First(keys, r) <= starts[m] < starts[m + 1] <= r.end
    ensures RangeOk(keys, Range(starts[m], starts[m + 1], r.kpos + 1))
    ensures r.kpos <= |keys[starts[m]]| && At(keys[starts[m]], r.kpos) == edges[m]
  {
    if 0 < m {
      GroupsAscend(keys, First(keys, r), r.end, r.kpos, edges, starts, 0, m);
    }
    if m + 1 < |edges| {
      GroupsAscend(keys, First(keys, r), r.end, r.kpos, edges, starts, m + 1, |edges|);
    }
    assert GroupAt(keys, r.kpos, edges, starts, m);
    GroupRangeOk(keys, r, starts[m], starts[m + 1], edges[m]);
  }

  /** What placing the children of x does to the arrays, whatever they stand for. */
  ghost predicate Placed(b: Arrays, a': Arrays, x: nat, base: nat, kids: seq<nat>) {
    && SameLengths(b) && SameLengths(a') && x < |b.units| <= |a'.units| && (base / 256 + 1) * 256 <= |a'.units|
    && (forall y: nat :: y < |b.units| && y != x && y != TABOO && b.useds[y] ==> a'.units[y] == b.units[y])
    && a'.units[x] == Unit(base, b.units[x].check)
    && a'.leaves == b.leaves + Falses(|a'.units| - |b.units|)
    && a'.terms == b.terms + Falses(|a'.units| - |b.units|)
    && a'.suffixes == b.suffixes
    && (forall y: nat :: y < |a'.units| ==> (a'.useds[y] <==> (y < |b.units| && b.useds[y]) || y in kids))
    && (forall m :: 0 <= m < |kids| ==> kids[m] < |a'.units| && a'.units[kids[m]].check == x && kids[m] != TABOO)
    && (forall m :: 0 <= m < |kids| ==> !(kids[m] < |b.units| && b.useds[kids[m]]))
  }

  lemma PlaceKeepsTree(keys: seq<Key>, code: seq<byte>, a: Arrays, b: Arrays, a': Arrays, s: Shape, x: nat, base: nat,
                       kids: seq<nat>, edges: seq<byte>, starts: seq<nat>)
    requires Readable(keys) && TreeOk(keys, code, a, s) && x in s.nodes && x !in s.done
    requires Proper(keys, s.nodes[x]) && s.nodes[x].beg + 1 < s.nodes[x].end
    requires GroupsOk(keys, First(keys, s.nodes[x]), s.nodes[x].end, s.nodes[x].kpos, edges, starts)
    requires b == Entering(keys, a, s, x) && Placed(b, a', x, base, kids) && kids == Kids(code, base, edges)
    ensures TreeOk(keys, code, a', AfterInstall(s, x, kids, starts))
    ensures Distinct(kids) && forall m :: 0 <= m < |kids| ==> kids[m] !in s.nodes
  {
    var r := s.nodes[x];
    KidsDistinct(keys, First(keys, r), r.end, r.kpos, edges, starts, code, base);
    forall y | y in s.nodes ensures y < |a.units| && a.useds[y] && y != TABOO {
      assert s.nodes[y] == s.nodes[y];
    }
    InstalledBy(a, a', code, keys, s, x, r, base, kids);
    InstallKeepsTree(keys, code, a, a', s, x, base, kids, edges, starts);
  }

  /** The arrays when the builder turns to the edges of x: its terminal flag is set if a key ends there. */
  ghost function Entering(keys: seq<Key>, a: Arrays, s: Shape, x: nat): Arrays
    requires x in s.nodes && s.nodes[x].beg < |keys| && x < |a.terms|
  {
    if |keys[s.nodes[x].beg]| == s.nodes[x].kpos then a.(terms := a.terms[x := true]) else a
  }

  // ---------- progress ----------

  ghost predicate Extends(nodes: map<nat, Range>, nodes': map<nat, Range>) {
    forall x :: x in nodes ==> x in nodes' && nodes'[x] == nodes[x]
  }

  /** Node npos and everything entered since s are done; what was pending besides npos still is. */
  ghost predicate Grown(s: Shape, s': Shape, npos: nat) {
    && Extends(s.nodes, s'.nodes)
    && forall x :: x in s'.done <==> x in s.done || x == npos || (x in s'.nodes && x !in s.nodes)
  }

  /** The first m of the given children, and everything entered since s, are done. */
  ghost predicate Following(s: Shape, s': Shape, kids: seq<nat>, m: nat)
    requires m <= |kids|
  {
    && Extends(s.nodes, s'.nodes)
    && forall x :: x in s'.done <==> x in s.done || x in kids[..m] || (x in s'.nodes && x !in s.nodes)
  }

  lemma FollowOne(s: Shape, s1: Shape, s2: Shape, kids: seq<nat>, m: nat)
    requires m < |kids| && Following(s, s1, kids, m) && Grown(s1, s2, kids[m])
    ensures Following(s, s2, kids, m + 1)
  {
    assert kids[..m + 1] == kids[..m] + [kids[m]];
  }

  lemma KidStillPending(s: Shape, s1: Shape, kids: seq<nat>, m: nat)
    requires m < |kids| && Distinct(kids) && Following(s, s1, kids, m)
    requires kids[m] in s.nodes && kids[m] !in s.done
    ensures kids[m] in s1.nodes && kids[m] !in s1.done && s1.nodes[kids[m]] == s.nodes[kids[m]]
  {
  }

  /** Total length of the collected suffixes, terminators included. */
  function SuffixBytes(suffixes: seq<Suffix>): nat {
    if suffixes == [] then 0 else SuffixBytes(suffixes[..|suffixes| - 1]) + |suffixes[|suffixes| - 1].str| + 1
  }

  // ---------- leaves ----------

  /** x becomes a leaf whose key ends exactly there. */
  lemma EmptyLeafKeepsTree(keys: seq<Key>, code: seq<byte>, a: Arrays, s: Shape, x: nat)
    requires TreeOk(keys, code, a, s) && x in s.nodes && x !in s.done
    requires s.nodes[x].end == s.nodes[x].beg + 1 && |keys[s.nodes[x].beg]| == s.nodes[x].kpos
    ensures TreeOk(keys, code,
                   a.(terms := a.terms[x := true], leaves := a.leaves[x := true],
                       units := a.units[x := a.units[x].(base := 0)]),
                   s.(done := s.done + {x}))
  {
    var a' := a.(terms := a.terms[x := true], leaves := a.leaves[x := true],
        units := a.units[x := a.units[x].(base := 0)]);
    NoSuffixOutside(keys, a, s, x);
    LeafKeepsOthers(keys, code, a, a', s, x);
  }

  /** x becomes a leaf whose key goes on with a suffix. */
  lemma SuffixLeafKeepsTree(keys: seq<Key>, code: seq<byte>, a: Arrays, s: Shape, x: nat)
    requires TreeOk(keys, code, a, s) && x in s.nodes && x !in s.done
    requires s.nodes[x].end == s.nodes[x].beg + 1 && s.nodes[x].kpos < |keys[s.nodes[x].beg]|
    ensures TreeOk(keys, code,
                   a.(terms := a.terms[x := true], leaves := a.leaves[x := true],
                      suffixes := a.suffixes + [Suffix(keys[s.nodes[x].beg][s.nodes[x].kpos..], x)]),
                   s.(done := s.done + {x}))
  {
    var a' := a.(terms := a.terms[x := true], leaves := a.leaves[x := true],
                 suffixes := a.suffixes + [Suffix(keys[s.nodes[x].beg][s.nodes[x].kpos..], x)]);
    NoSuffixOutside(keys, a, s, x);
    assert a'.suffixes[|a.suffixes|].npos == x;
    LeafKeepsOthers(keys, code, a, a', s, x);
    forall b | 0 <= b < |a'.suffixes| ensures SuffixOk(keys, s.(done := s.done + {x}), a'.suffixes[b]) {
      if b < |a.suffixes| { assert SuffixOk(keys, s, a.suffixes[b]); }
    }
  }

  /** Node x is marked a leaf, and nothing else has changed but perhaps its base and one more suffix. */
  ghost predicate LeafMarked(keys: seq<Key>, a: Arrays, a': Arrays, s: Shape, x: nat) {
    && x in s.nodes && x !in s.done && x < |a.units| && x < |a.terms| && x < |a.leaves|
    && SameLengths(a') && a'.useds == a.useds && |a'.units| == |a.units|
    && (forall y :: y in s.nodes && y != x && y < |a.units| ==> a'.units[y] == a.units[y])
    && a'.units[x].check == a.units[x].check
    && a'.terms == a.terms[x := true] && a'.leaves == a.leaves[x := true]
    && forall y :: y != x ==> HasSuffix(a'.suffixes, y) == HasSuffix(a.suffixes, y)
  }

  lemma SuffixesElsewhere(a: Arrays, a': Arrays, x: nat)
    requires a'.suffixes == a.suffixes || exists t :: a'.suffixes == a.suffixes + [Suffix(t, x)]
    ensures forall y :: y != x ==> HasSuffix(a'.suffixes, y) == HasSuffix(a.suffixes, y)
  {
    forall y | y != x ensures HasSuffix(a'.suffixes, y) == HasSuffix(a.suffixes, y) {
      if HasSuffix(a.suffixes, y) {
        var b :| 0 <= b < |a.suffixes| && a.suffixes[b].npos == y;
        assert a'.suffixes[b].npos == y;
      }
    }
  }

  lemma MarkedNodes(keys: seq<Key>, code: seq<byte>, a: Arrays, a': Arrays, s: Shape, x: nat)
    requires TreeOk(keys, code, a, s) && LeafMarked(keys, a, a', s, x)
    ensures NodesOk(keys, a', s.nodes)
  {
    forall y | y in s.nodes ensures y < |a'.units| && y != TABOO && a'.useds[y] && RangeOk(keys, s.nodes[y]) {
      assert s.nodes[y] == s.nodes[y];
    }
  }

  lemma MarkedSteps(keys: seq<Key>, code: seq<byte>, a: Arrays, a': Arrays, s: Shape, x: nat)
    requires TreeOk(keys, code, a, s) && LeafMarked(keys, a, a', s, x) && NodesOk(keys, a', s.nodes)
    requires Proper(keys, s.nodes[x]) && LeafOk(keys, a', s.nodes[x], x)
    ensures StepsOk(keys, code, a', s.(done := s.done + {x}))
  {
    var s' := s.(done := s.done + {x});
    forall y | y in s'.done ensures DoneOk(keys, code, a', s.nodes, y) {
      if y != x {
        LeafKeepsDone(keys, code, a, a', s, x, y);
      }
    }
    forall y | y in s.nodes && y !in s'.done ensures PendingOk(a', y) {
      assert PendingOk(a, y);
    }
  }

  lemma MarkedParents(keys: seq<Key>, code: seq<byte>, a: Arrays, a': Arrays, s: Shape, x: nat)
    requires TreeOk(keys, code, a, s) && LeafMarked(keys, a, a', s, x) && NodesOk(keys, a', s.nodes)
    ensures ParentsOk(keys, code, a', s.(done := s.done + {x}))
  {
    var s' := s.(done := s.done + {x});
    forall y | y in s.nodes && y != 0 ensures ParentOk(keys, code, a'.units, s', y) {
      assert ParentOk(keys, code, a.units, s, y);
      assert a.units[y].check != x;
    }
  }

  lemma MarkedSuffixes(keys: seq<Key>, code: seq<byte>, a: Arrays, s: Shape, x: nat)
    requires TreeOk(keys, code, a, s)
    ensures SuffixesOk(keys, s.(done := s.done + {x}), a.suffixes)
  {
    forall b | 0 <= b < |a.suffixes| ensures SuffixOk(keys, s.(done := s.done + {x}), a.suffixes[b]) {
      assert SuffixOk(keys, s, a.suffixes[b]);
    }
  }

  /** Settling a leaf touches no other node. */
  lemma LeafKeepsOthers(keys: seq<Key>, code: seq<byte>, a: Arrays, a': Arrays, s: Shape, x: nat)
    requires TreeOk(keys, code, a, s) && x in s.nodes && x !in s.done
    requires SameLengths(a') && a'.useds == a.useds
    requires forall y :: y in s.nodes && y != x ==> a'.units[y] == a.units[y]
    requires a'.units[x].check == a.units[x].check
    requires a'.terms == a.terms[x := true] && a'.leaves == a.leaves[x := true]
    requires a'.suffixes == a.suffixes || exists t :: a'.suffixes == a.suffixes + [Suffix(t, x)]
    requires Proper(keys, s.nodes[x]) && LeafOk(keys, a', s.nodes[x], x)
    ensures NodesOk(keys, a', s.nodes)
    ensures StepsOk(keys, code, a', s.(done := s.done + {x}))
    ensures ParentsOk(keys, code, a', s.(done := s.done + {x}))
    ensures a'.suffixes == a.suffixes ==> SuffixesOk(keys, s.(done := s.done + {x}), a'.suffixes)
  {
    hide LeafOk, Proper, StepsOk, ParentsOk, SuffixesOk, HasSuffix;
    SuffixesElsewhere(a, a', x);
    assert s.nodes[x] == s.nodes[x];
    MarkedNodes(keys, code, a, a', s, x);
    MarkedSteps(keys, code, a, a', s, x);
    MarkedParents(keys, code, a, a', s, x);
    MarkedSuffixes(keys, code, a, s, x);
  }

  lemma LeafKeepsDone(keys: seq<Key>, code: seq<byte>, a: Arrays, a': Arrays, s: Shape, x: nat, y: nat)
    requires TreeOk(keys, code, a, s) && x in s.nodes && x !in s.done && y in s.done
    requires SameLengths(a') && |a'.units| == |a.units|
    requires forall y :: y in s.nodes && y != x ==> a'.units[y] == a.units[y]
    requires a'.units[x].check == a.units[x].check
    requires a'.terms == a.terms[x := true] && a'.leaves == a.leaves[x := true]
    requires HasSuffix(a'.suffixes, y) == HasSuffix(a.suffixes, y)
    ensures DoneOk(keys, code, a', s.nodes, y)
  {
    assert DoneOk(keys, code, a, s.nodes, y);
    if InnerOk(keys, code, a, s.nodes, y) {
      forall i | First(keys, s.nodes[y]) <= i < s.nodes[y].end ensures ChildOk(keys, code, a'.units, s.nodes, y, i) {
        assert ChildOk(keys, code, a.units, s.nodes, y, i);
      }
    }
  }
}
