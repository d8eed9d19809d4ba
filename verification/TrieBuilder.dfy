/** Construction of the double array from a key list. */
module TrieBuilder {
  import opened Bits
  import opened Keys
  import opened FreeList
  import opened DoubleArray
  import opened Remaining
  import opened Layout
  import CT = CodeTable
  import FF = FirstFit
  import TV = TailVector

  datatype BuildError = EmptyDataset | NotUnique | NotOrdered

  datatype Outcome = Built | Failed(error: BuildError)

  /** How the constructor ends. Finding out whether a null byte occurs reads through a null pointer when no key has a
      byte. */
  datatype Construction = Complete | Rejected(error: BuildError) | NullRead

  /** Whether an error is justified by the key list. */
  ghost predicate Justified(keys: seq<Key>, error: BuildError) {
    match error
    case EmptyDataset => keys == []
    case NotUnique => exists i :: 0 < i < |keys| && keys[i] == keys[i - 1]
    case NotOrdered => exists i :: 0 < i < |keys| && Less(keys[i], keys[i - 1])
  }

  lemma JoinAscending(keys: seq<Key>, lo: nat, i: nat, hi: nat)
    requires lo <= i <= hi <= |keys| && Ascending(keys, lo, i) && Ascending(keys, i, hi)
    requires lo < i < hi ==> Step(keys, i)
    ensures Ascending(keys, lo, hi)
  {
  }

  /** The last key of one group is below the first of the next. */
  lemma GroupBoundary(keys: seq<Key>, r: Range, edges: seq<byte>, starts: seq<nat>, m: nat)
    requires Proper(keys, r) && GroupsOk(keys, First(keys, r), r.end, r.kpos, edges, starts)
    requires 0 < m < |edges|
    ensures First(keys, r) < starts[m] < r.end && Less(keys[starts[m] - 1], keys[starts[m]])
  {
    GroupsAscend(keys, First(keys, r), r.end, r.kpos, edges, starts, 0, m);
    GroupsAscend(keys, First(keys, r), r.end, r.kpos, edges, starts, m, |edges|);
    var i := starts[m];
    assert GroupAt(keys, r.kpos, edges, starts, m - 1);
    assert GroupAt(keys, r.kpos, edges, starts, m);
    assert SharePrefix(keys[i - 1], keys[r.beg], r.kpos) && SharePrefix(keys[i], keys[r.beg], r.kpos);
    LessAt(keys[i - 1], keys[i], r.kpos);
  }

  /** A byte that drops from one key to the next proves the list unordered. */
  lemma DropUnordered(keys: seq<Key>, k: nat, i: nat)
    requires 0 < i < |keys| && SharePrefix(keys[i], keys[i - 1], k)
    requires At(keys[i], k) < At(keys[i - 1], k)
    ensures Justified(keys, NotOrdered)
  {
    LessAt(keys[i], keys[i - 1], k);
  }

  lemma GroupsExtend(keys: seq<Key>, k: nat, edges: seq<byte>, starts: seq<nat>, ch: byte, i: nat)
    requires |starts| == |edges| + 1 && starts[|edges|] < i
    requires forall m: nat :: m < |edges| ==> GroupAt(keys, k, edges, starts, m)
    requires |edges| > 0 ==> edges[|edges| - 1] < ch
    requires GroupOk(keys, starts[|edges|], i, k, ch)
    ensures forall m: nat :: m < |edges| + 1 ==> GroupAt(keys, k, edges + [ch], starts + [i], m)
  {
    forall m: nat | m < |edges| + 1 ensures GroupAt(keys, k, edges + [ch], starts + [i], m) {
      if m < |edges| { assert GroupAt(keys, k, edges, starts, m); }
    }
  }

  lemma WindowAligned(size: nat, open: nat)
    requires size % 256 == 0 && open == if size > FREE_BLOCKS * 256 then size - FREE_BLOCKS * 256 else 0
    ensures open % 256 == 0
  {
  }

  lemma SameSide(base: nat, slot: nat, size: nat)
    requires base / 256 == slot / 256 && size % 256 == 0
    ensures base < size <==> slot < size
    ensures base < size ==> (base / 256 + 1) * 256 <= size
    ensures slot == size ==> (base / 256 + 1) * 256 == size + 256
  {
  }

  lemma KidsInOpenBlock(useds: seq<bool>, open: nat, code: seq<byte>, edges: seq<byte>, base: nat, slot: nat)
    requires CodesOk(code) && base / 256 == slot / 256 && slot < |useds|
    requires open % 256 == 0 && |useds| % 256 == 0 && open <= slot
    requires FF.TargetsUnused(useds, code, edges, base)
    ensures forall m :: 0 <= m < |edges| ==> Free(useds, open, Kids(code, base, edges)[m])
  {
    forall m | 0 <= m < |edges| ensures Free(useds, open, Kids(code, base, edges)[m]) {
      XorBlock(base, code[edges[m]]);
    }
  }

  lemma KidsInFreshBlock(useds: seq<bool>, open: nat, code: seq<byte>, edges: seq<byte>, base: nat, size: nat)
    requires CodesOk(code) && base / 256 == size / 256 && size % 256 == 0
    requires forall i: nat | size <= i < size + 256 :: Free(useds, open, i)
    ensures forall m :: 0 <= m < |edges| ==> Free(useds, open, Kids(code, base, edges)[m])
  {
    forall m | 0 <= m < |edges| ensures Free(useds, open, Kids(code, base, edges)[m]) {
      XorBlock(base, code[edges[m]]);
    }
  }

  /** The block of a free slot above a block boundary. */
  lemma BlockOfFree(i: nat, open: nat, size: nat)
    requires open <= i < size && open % 256 == 0 && size % 256 == 0
    ensures open <= i / 256 * 256 <= i && i / 256 * 256 + 256 <= size
  {
  }

  lemma GroupBounds(keys: seq<Key>, r: Range, edges: seq<byte>, starts: seq<nat>, m: nat)
    requires Proper(keys, r) && GroupsOk(keys, First(keys, r), r.end, r.kpos, edges, starts) && m < |edges|
    ensures First(keys, r) <= starts[m] < starts[m + 1] <= r.end
    ensures m == 0 ==> starts[m] == First(keys, r)
  {
    assert GroupAt(keys, r.kpos, edges, starts, m);
    if 0 < m {
      GroupsAscend(keys, First(keys, r), r.end, r.kpos, edges, starts, 0, m);
    }
    if m + 1 < |edges| {
      GroupsAscend(keys, First(keys, r), r.end, r.kpos, edges, starts, m + 1, |edges|);
    }
  }

  /** The children just entered are pending, each with its group. */
  lemma ReservedKids(s: Shape, s': Shape, x: nat, kids: seq<nat>, starts: seq<nat>)
    requires x in s.nodes && |starts| == |kids| + 1 && Distinct(kids) && s.done <= s.nodes.Keys
    requires forall m :: 0 <= m < |kids| ==> kids[m] !in s.nodes
    requires s' == AfterInstall(s, x, kids, starts)
    ensures Extends(s.nodes, s'.nodes) && s'.done == s.done + {x}
    ensures forall m :: 0 <= m < |kids| ==>
              kids[m] in s'.nodes && kids[m] !in s'.done
              && s'.nodes[kids[m]] == Range(starts[m], starts[m + 1], s.nodes[x].kpos + 1)
    ensures forall y :: y in s'.nodes ==> y in s.nodes || y in kids
  {
    WithChildrenFacts(s.nodes, kids, starts, s.nodes[x].kpos + 1, |kids|);
    assert kids[..|kids|] == kids;
  }

  /** What the recursion into group m may rely on. */
  lemma BeforeGroup(keys: seq<Key>, r: Range, edges: seq<byte>, starts: seq<nat>, m: nat)
    requires Proper(keys, r) && GroupsOk(keys, First(keys, r), r.end, r.kpos, edges, starts) && m < |edges|
    ensures First(keys, r) <= starts[m] < starts[m + 1] <= r.end
    ensures First(keys, r) < starts[m] ==> Step(keys, starts[m])
    ensures Work(keys, starts[m], starts[m + 1], r.kpos + 1) < Work(keys, r.beg, r.end, r.kpos)
  {
    GroupBounds(keys, r, edges, starts, m);
    forall x | r.beg <= x < r.end ensures r.kpos <= |keys[x]| {
      assert SharePrefix(keys[x], keys[r.beg], r.kpos);
    }
    WorkOfGroup(keys, r.beg, First(keys, r), starts[m], starts[m + 1], r.end, r.kpos);
    if 0 < m {
      GroupBoundary(keys, r, edges, starts, m);
    }
  }

  /** A node that is done has a proper range: its keys are long enough. */
  lemma DoneProper(keys: seq<Key>, code: seq<byte>, a: Arrays, s: Shape, x: nat)
    requires TreeOk(keys, code, a, s) && x in s.done
    ensures x in s.nodes && s.nodes[x].beg < |keys| && s.nodes[x].kpos <= |keys[s.nodes[x].beg]|
  {
    assert DoneOk(keys, code, a, s.nodes, x);
    assert SharePrefix(keys[s.nodes[x].beg], keys[s.nodes[x].beg], s.nodes[x].kpos);
  }

  lemma FollowedAll(s0: Shape, s1: Shape, s2: Shape, x: nat, kids: seq<nat>)
    requires Extends(s0.nodes, s1.nodes) && s1.done == s0.done + {x} && x in s0.nodes
    requires forall y :: y in s1.nodes ==> y in s0.nodes || y in kids
    requires forall m :: 0 <= m < |kids| ==> kids[m] in s1.nodes && kids[m] !in s0.nodes
    requires Following(s1, s2, kids, |kids|)
    ensures Grown(s0, s2, x)
  {
    assert kids[..|kids|] == kids;
  }

  /** A key that ends at the node is below the next one. */
  lemma FirstBelow(keys: seq<Key>, r: Range)
    requires Proper(keys, r) && First(keys, r) < r.end && Ascending(keys, First(keys, r), r.end)
    requires r.kpos < |keys[First(keys, r)]|
    ensures Ascending(keys, r.beg, r.end)
  {
    var lo := First(keys, r);
    if r.beg < lo {
      assert SharePrefix(keys[lo], keys[r.beg], r.kpos);
      LessAt(keys[r.beg], keys[lo], r.kpos);
      assert Step(keys, lo);
    }
  }

  lemma InnerWork(keys: seq<Key>, r: Range)
    requires Proper(keys, r)
    ensures Work(keys, First(keys, r), r.end, r.kpos + 1) + 1 <= Work(keys, r.beg, r.end, r.kpos)
  {
    forall x | r.beg <= x < r.end ensures r.kpos <= |keys[x]| {
      assert SharePrefix(keys[x], keys[r.beg], r.kpos);
    }
    WorkStep(keys, r.beg, r.end, r.kpos);
    WorkSplit(keys, r.beg, First(keys, r), r.end, r.kpos + 1);
  }

  lemma DoneInside(keys: seq<Key>, code: seq<byte>, a: Arrays, s: Shape)
    requires TreeOk(keys, code, a, s)
    ensures s.done <= s.nodes.Keys
  {
  }

  /** A pending node, and edges whose targets differ whatever the base. */
  lemma ReserveReady(keys: seq<Key>, code: seq<byte>, a: Arrays, s: Shape, x: nat, edges: seq<byte>, starts: seq<nat>)
    requires TreeOk(keys, code, a, s) && x in s.nodes && Proper(keys, s.nodes[x])
    requires GroupsOk(keys, First(keys, s.nodes[x]), s.nodes[x].end, s.nodes[x].kpos, edges, starts)
    ensures CodesOk(code) && SameLengths(a) && |edges| > 0 && |starts| == |edges| + 1
    ensures x < |a.units| && a.useds[x] && x != TABOO
    ensures forall b: nat :: Distinct(Kids(code, b, edges))
  {
    var r := s.nodes[x];
    forall b: nat ensures Distinct(Kids(code, b, edges)) {
      KidsDistinct(keys, First(keys, r), r.end, r.kpos, edges, starts, code, b);
    }
  }

  /** What arranging changes, and how large the arrays are. */
  datatype Stage = Stage(shape: Shape, plan: FF.Plan, size: nat, bytes: nat)

  ghost predicate Branching(keys: seq<Key>, r: Range, lo: nat, i: nat) {
    FF.Branches(keys, r) && r.beg <= lo <= i <= r.end
  }

  /** The children before number m, whose keys end before i, have been arranged: what remains to be laid out
      comes to the same as laying out all of them. */
  ghost predicate Progress(keys: seq<Key>, code: seq<byte>, l1Bits: nat, base: nat, r: Range, lo: nat, kids: seq<nat>,
      was: Stage, m: nat, i: nat, now: Stage)
    requires |code| == 512 && Branching(keys, r, lo, i) && m <= |kids|
  {
    && Following(was.shape, now.shape, kids, m) && Ascending(keys, lo, i) && (m == 0 ==> i == lo)
    && (m > 0 ==> lo < |keys| && r.kpos < |keys[lo]|)
    && now.size <= was.size + 256 * Work(keys, lo, i, r.kpos + 1)
    && now.bytes <= was.bytes + Work(keys, lo, i, r.kpos + 1)
    && FF.Subtrees(keys, code, l1Bits, base, r, i, now.plan) == FF.Subtrees(keys, code, l1Bits, base, r, lo, was.plan)
  }

  /** All children have been arranged. */
  ghost predicate Followed(keys: seq<Key>, code: seq<byte>, l1Bits: nat, base: nat, r: Range, lo: nat, kids: seq<nat>,
      was: Stage, now: Stage)
    requires |code| == 512 && Branching(keys, r, lo, r.end)
  {
    && Following(was.shape, now.shape, kids, |kids|) && Ascending(keys, lo, r.end)
    && lo < |keys| && r.kpos < |keys[lo]|
    && now.size <= was.size + 256 * Work(keys, lo, r.end, r.kpos + 1)
    && now.bytes <= was.bytes + Work(keys, lo, r.end, r.kpos + 1)
    && now.plan == FF.Subtrees(keys, code, l1Bits, base, r, lo, was.plan)
  }

  lemma ProgressStart(keys: seq<Key>, code: seq<byte>, l1Bits: nat, base: nat, r: Range, lo: nat, kids: seq<nat>,
      was: Stage)
    requires |code| == 512 && Branching(keys, r, lo, lo)
    ensures Progress(keys, code, l1Bits, base, r, lo, kids, was, 0, lo, was)
  {
  }

  lemma ProgressKids(keys: seq<Key>, code: seq<byte>, l1Bits: nat, base: nat, r: Range, lo: nat, kids: seq<nat>,
      was: Stage, m: nat, i: nat, now: Stage)
    requires |code| == 512 && Branching(keys, r, lo, i) && m <= |kids|
    requires Progress(keys, code, l1Bits, base, r, lo, kids, was, m, i, now)
    ensures Following(was.shape, now.shape, kids, m)
  {
  }

  lemma ProgressNext(keys: seq<Key>, code: seq<byte>, l1Bits: nat, base: nat, r: Range, lo: nat, kids: seq<nat>,
      was: Stage, m: nat, i: nat, mid: Stage, j: nat, now: Stage)
    requires |code| == 512 && Branching(keys, r, lo, i) && m < |kids| && i < j <= r.end
    requires Progress(keys, code, l1Bits, base, r, lo, kids, was, m, i, mid)
    requires FF.GroupEnd(keys, i, i + 1, r.end, r.kpos) == j && (lo < i ==> Step(keys, i))
    requires Grown(mid.shape, now.shape, kids[m]) && Ascending(keys, i, j) && r.kpos < |keys[i]|
    requires now.size <= mid.size + 256 * Work(keys, i, j, r.kpos + 1)
    requires now.bytes <= mid.bytes + Work(keys, i, j, r.kpos + 1)
    requires now.plan == FF.Subtree(keys, code, l1Bits, Xor(base, code[FF.Next(keys[i], r.kpos)]),
                                    Range(i, j, r.kpos + 1), mid.plan)
    ensures Progress(keys, code, l1Bits, base, r, lo, kids, was, m + 1, j, now)
  {
    hide FF.Subtree, Following, Grown;
    FollowOne(was.shape, mid.shape, now.shape, kids, m);
    JoinAscending(keys, lo, i, j);
    WorkSplit(keys, lo, i, j, r.kpos + 1);
  }

  lemma ProgressEnd(keys: seq<Key>, code: seq<byte>, l1Bits: nat, base: nat, r: Range, lo: nat, kids: seq<nat>,
      was: Stage, now: Stage)
    requires |code| == 512 && Branching(keys, r, lo, r.end) && kids != []
    requires Progress(keys, code, l1Bits, base, r, lo, kids, was, |kids|, r.end, now)
    ensures Followed(keys, code, l1Bits, base, r, lo, kids, was, now)
  {
  }

  /** The group that reaches the end is the last one. */
  lemma LastGroup(keys: seq<Key>, r: Range, edges: seq<byte>, starts: seq<nat>, m: nat)
    requires Proper(keys, r) && GroupsOk(keys, First(keys, r), r.end, r.kpos, edges, starts) && m < |edges|
    requires r.end <= starts[m + 1]
    ensures m + 1 == |edges|
  {
    if m + 1 < |edges| {
      GroupsAscend(keys, First(keys, r), r.end, r.kpos, edges, starts, m + 1, |edges|);
    }
  }

  /** Placing the children of a node is the step of the plan. */
  lemma PlacedPlan(keys: seq<Key>, code: seq<byte>, l1Bits: nat, b: Arrays, a': Arrays, s: Shape, x: nat, base: nat,
      kids: seq<nat>, edges: seq<byte>, starts: seq<nat>)
    requires |code| == 512 && x in s.nodes && s.nodes[x].beg < |keys|
    requires GroupsOk(keys, First(keys, s.nodes[x]), s.nodes[x].end, s.nodes[x].kpos, edges, starts)
    requires Placed(b, a', x, base, kids) && kids == Kids(code, base, edges)
    requires var slot := FF.Slot(b.useds, code, edges, l1Bits, L1(l1Bits, x));
             base == Xor(slot, code[edges[0]]) && |a'.useds| == |b.useds| + if slot < |b.useds| then 0 else 256
    ensures First(keys, s.nodes[x]) < s.nodes[x].end <= |keys|
    ensures (base, FF.Plan(a'.useds, AfterInstall(s, x, kids, starts).nodes))
            == FF.WithKids(keys, code, l1Bits, x, s.nodes[x], FF.Plan(b.useds, s.nodes))
  {
    hide FF.Slot;
    var r := s.nodes[x];
    var lo := First(keys, r);
    FF.EdgesAre(keys, lo, r.end, r.kpos, edges, starts, 0);
    GroupsAscend(keys, lo, r.end, r.kpos, edges, starts, 0, |edges|);
    assert edges[0..] == edges && starts[0..] == starts;
    var slot := FF.Slot(b.useds, code, edges, l1Bits, L1(l1Bits, x));
    var wide := if slot < |b.useds| then b.useds else b.useds + Falses(256);
    assert FF.Taken(wide, kids) == a'.useds;
  }

  /** The root alone, still to be arranged. */
  lemma InitialTree(keys: seq<Key>, code: seq<byte>, a: Arrays)
    requires keys != [] && CodesOk(code) && SameLengths(a) && |a.units| == 256 && a.suffixes == []
    requires a.leaves == a.terms == Falses(256) && a.useds == Falses(256)[0 := true][TABOO := true]
    requires a.units[0].check == TABOO
    ensures TreeOk(keys, code, a, Shape(map[0 := Range(0, |keys|, 0)], {}))
  {
    assert Proper(keys, Range(0, |keys|, 0));
  }

  class TrieBuilder {
    const keys: seq<Key>
    const l1Bits: nat
    var table: CT.CodeTable
    var code: seq<byte>
    var units: seq<Unit>
    var leaves: seq<bool>
    var terms: seq<bool>
    var useds: seq<bool>
    var heads: seq<nat>
    var edges: seq<byte>
    var suffixes: seq<Suffix>
    var bin: bool
    var chars: seq<byte>
    var ends: seq<bool>
    ghost var open: nat
    ghost var shape: Shape

    ghost function Snap(): Arrays
      reads this
    {
      Arrays(units, useds, leaves, terms, suffixes)
    }

    /** The taken slots and the nodes in them. */
    ghost function Placing(): FF.Plan
      reads this
    {
      FF.Plan(useds, shape.nodes)
    }

    /** First fit for every node, and no slot beyond. */
    ghost predicate LaidOut()
      reads this
    {
      |code| == 512 && Placing() == FF.Laid(keys, code, l1Bits) && |units| == |useds|
    }

    ghost function Stand(): Stage
      reads this
    {
      Stage(shape, Placing(), |units|, SuffixBytes(suffixes))
    }

    ghost predicate ListValid()
      reads this
    {
      FreeListOk(units, useds, heads, open, l1Bits)
    }

    /** While nodes are added, only the last blocks are open. */
    ghost predicate WindowOk()
      reads this
    {
      open == if |units| > FREE_BLOCKS * 256 then |units| - FREE_BLOCKS * 256 else 0
    }

    ghost predicate Valid()
      reads this
    {
      && ListValid() && WindowOk()
      && Readable(keys)
      && TreeOk(keys, code, Snap(), shape)
    }

    /** The constructor up to the call of arrange. */
    constructor (keys: seq<Key>, l1Bits: nat)
      requires keys != [] && Readable(keys) && (l1Bits == 7 || l1Bits == 8)
      ensures Valid() && this.keys == keys && this.l1Bits == l1Bits && |units| == 256 && suffixes == []
      ensures useds == Falses(256)[0 := true][TABOO := true]
      ensures shape == Shape(map[0 := Range(0, |keys|, 0)], {})
      ensures CT.Describes(table, keys) && code == table.table
    {
      hide CT.Describes, Readable, Judge, FreeListOk;
      this.keys := keys;
      this.l1Bits := l1Bits;
      var t := CT.Build(keys);
      table, code := t, t.table;
      units, leaves, terms, useds, heads, edges, suffixes := [], [], [], [], [], [], [];
      bin, chars, ends := false, [], [];
      open := 0;
      shape := Shape(map[0 := Range(0, |keys|, 0)], {});
      new;
      PushInitial();
      units := units[255 := units[255].(base := 0)];
      units := units[0 := units[0].(check := 255)];
      PushHeads(0, 256);
      FixRoot();
      InitialTree(keys, code, Snap());
    }

    /** The loop that fills the first block; the predecessor of slot 0 wraps around. */
    method PushInitial()
      requires units == [] && useds == [] && leaves == [] && terms == []
      modifies `units, `leaves, `terms, `useds
      ensures |units| == 256 && useds == leaves == terms == Falses(256)
      ensures forall i: nat {:trigger units[i]} :: 0 < i < 256 ==> units[i] == Unit(i + 1, i - 1)
      ensures units[0].base == 1
    {
      var npos := 0;
      while npos < 256
        invariant npos <= 256 && |units| == npos && useds == leaves == terms == Falses(npos)
        invariant forall i: nat {:trigger units[i]} :: 0 < i < npos ==> units[i] == Unit(i + 1, i - 1)
        invariant 0 < npos ==> units[0].base == 1
      {
        units := units + [Unit(npos + 1, if npos == 0 then WORD_SIZE - 1 else npos - 1)];
        leaves := leaves + [false];
        terms := terms + [false];
        useds := useds + [false];
        npos := npos + 1;
      }
    }

    method FixRoot()
      requires (l1Bits == 7 || l1Bits == 8) && |units| == 256 && useds == Falses(256) && heads == FreshHeads(l1Bits, 0)
      requires forall i: nat {:trigger units[i]} :: 0 < i < 255 ==> units[i] == Unit(i + 1, i - 1)
      requires units[0] == Unit(1, 255) && units[255] == Unit(0, 254)
      modifies `units, `useds, `heads
      ensures FreeListOk(units, useds, heads, 0, l1Bits)
      ensures |units| == 256 && units[0].check == TABOO && useds == Falses(256)[0 := true][TABOO := true]
    {
      L1Value(l1Bits, 0);
      L1Value(l1Bits, 1);
      UseUnit(0);
      units := units[0 := units[0].(check := TABOO)];
      useds := useds[TABOO := true];
      heads := heads[L1(l1Bits, TABOO) := units[TABOO].base];
      RootFixedIsList(units, useds, heads, l1Bits);
    }

    method UseUnit(npos: nat)
      requires npos < |units| == |useds| && L1(l1Bits, npos) < |heads|
      requires units[npos].base < |units| && units[npos].check < |units|
      modifies `units, `useds, `heads
      ensures units == Unlink(old(units), npos)
      ensures useds == old(useds)[npos := true]
      ensures heads == DropHead(old(heads), l1Bits, npos, old(units[npos].base))
    {
      useds := useds[npos := true];
      var next := units[npos].base;
      var prev := units[npos].check;
      units := units[prev := units[prev].(base := next)];
      units := units[next := units[next].(check := prev)];
      var lpos := L1(l1Bits, npos);
      if heads[lpos] == npos {
        heads := heads[lpos := if lpos != L1(l1Bits, next) then TABOO else next];
      }
    }

    function L1Size(): nat {
      if l1Bits == 7 then 128 else 256
    }

    /** Takes the first slot of the open part out of the list and makes it point at itself. */
    method CloseUnit(npos: nat)
      requires ListValid() && open == npos < |units| && !useds[npos]
      modifies `units, `useds, `heads, `open
      ensures ListValid() && open == npos + 1 && useds == old(useds) && |units| == old(|units|)
      ensures forall i: nat | i < |units| && !Listed(old(useds), old(open), i) :: units[i] == old(units[i])
    {
      CloseSlot(units, useds, heads, open, l1Bits);
      UseUnit(npos);
      useds := useds[npos := false];
      units := units[npos := units[npos].(base := npos)];
      units := units[npos := units[npos].(check := npos)];
      assert useds == old(useds);
      assert units == Unlink(old(units), npos)[npos := Unit(npos, npos)];
      open := npos + 1;
    }

    /** The first loop of close_block. */
    method CloseUnits(begNpos: nat, endNpos: nat)
      requires ListValid() && open == begNpos <= endNpos <= |units|
      modifies `units, `useds, `heads, `open
      ensures ListValid() && open == endNpos && useds == old(useds) && |units| == old(|units|)
      ensures forall i: nat | i < |units| && !Listed(old(useds), old(open), i) :: units[i] == old(units[i])
    {
      var npos := begNpos;
      while npos < endNpos
        invariant begNpos <= npos <= endNpos
        invariant ListValid() && open == npos && useds == old(useds) && |units| == old(|units|)
        invariant forall i: nat | i < |units| && !Listed(old(useds), old(open), i) :: units[i] == old(units[i])
      {
        if !useds[npos] {
          CloseUnit(npos);
        } else {
          SkipTo(units, useds, heads, open, npos + 1, l1Bits);
          open := npos + 1;
        }
        npos := npos + 1;
      }
    }

    method CloseBlock(bpos: nat)
      requires ListValid() && open <= bpos * 256 && bpos * 256 + 256 <= |units|
      requires NoFree(useds, open, open, bpos * 256)
      modifies `units, `useds, `heads, `open
      ensures ListValid() && open == bpos * 256 + 256 && useds == old(useds)
      ensures |units| == old(|units|)
      ensures forall i: nat | i < |units| && !Listed(old(useds), old(open), i) :: units[i] == old(units[i])
    {
      var begNpos := bpos * 256;
      var endNpos := begNpos + 256;
      SkipTo(units, useds, heads, open, begNpos, l1Bits);
      open := begNpos;
      CloseUnits(begNpos, endNpos);
      ResetHeads(begNpos, endNpos, bpos);
    }

    /** The head loop of close_block: no slot of the block is free any more, so nothing changes. */
    method ResetHeads(begNpos: nat, endNpos: nat, ghost bpos: nat)
      requires HeadsOk(heads, useds, open, l1Bits) && |useds| % 256 == 0
      requires begNpos == bpos * 256 && endNpos == begNpos + 256 == open <= |useds|
      modifies `heads
      ensures heads == old(heads)
    {
      var npos := begNpos;
      while npos < endNpos
        invariant npos == begNpos || npos == begNpos + L1Size() || npos == endNpos
        invariant heads == old(heads)
        decreases endNpos - npos
      {
        var l := L1(l1Bits, npos);
        HeadInRange(l1Bits, npos, |useds| / 256);
        HeadInRange(l1Bits, npos, bpos + 1);
        HeadOfClosed(heads, useds, open, l1Bits, l);
        heads := heads[l := TABOO];
        npos := npos + L1Size();
      }
    }

    /** The push_back loop of expand. */
    method PushFresh(oldSize: nat, newSize: nat)
      requires oldSize == |units| == |useds| == |leaves| == |terms| && 0 < oldSize && newSize == oldSize + 256
      modifies `units, `leaves, `terms, `useds
      ensures units == old(units) + FreshUnits(oldSize, 256)
      ensures leaves == old(leaves) + Falses(256) && terms == old(terms) + Falses(256)
              && useds == old(useds) + Falses(256)
    {
      var npos := oldSize;
      while npos < newSize
        invariant oldSize <= npos <= newSize
        invariant units == old(units) + FreshUnits(oldSize, npos - oldSize)
        invariant leaves == old(leaves) + Falses(npos - oldSize)
        invariant terms == old(terms) + Falses(npos - oldSize)
        invariant useds == old(useds) + Falses(npos - oldSize)
      {
        units := units + [Unit(npos + 1, npos - 1)];
        leaves := leaves + [false];
        terms := terms + [false];
        useds := useds + [false];
        npos := npos + 1;
      }
    }

    /** The loop of expand that opens the new L1 blocks. */
    method PushHeads(oldSize: nat, newSize: nat)
      requires newSize == oldSize + 256
      modifies `heads
      ensures heads == old(heads) + FreshHeads(l1Bits, oldSize)
    {
      var npos := oldSize;
      while npos < newSize
        invariant oldSize <= npos <= newSize && (npos - oldSize) % L1Size() == 0
        invariant heads == old(heads) + FreshHeads(l1Bits, oldSize)[..(npos - oldSize) / L1Size()]
        decreases newSize - npos
      {
        heads := heads + [npos];
        npos := npos + L1Size();
      }
    }

    method Expand()
      requires ListValid() && |leaves| == |terms| == |units|
      requires WindowOk()
      modifies `units, `leaves, `terms, `useds, `heads, `open
      ensures ListValid() && WindowOk()
      ensures |units| == old(|units|) + 256 && old(open) <= open
      ensures leaves == old(leaves) + Falses(256) && terms == old(terms) + Falses(256)
              && useds == old(useds) + Falses(256)
      ensures forall i: nat | i < old(|units|) && !Listed(old(useds), old(open), i) :: units[i] == old(units[i])
      ensures forall i: nat | old(|units|) <= i < |units| :: Free(useds, open, i)
    {
      var oldSize := |units|;
      var newSize := oldSize + 256;
      SpliceKeepsFreeList(units, useds, heads, open, l1Bits);
      PushFresh(oldSize, newSize);
      var lastNpos := units[TABOO].check;
      units := units[oldSize := units[oldSize].(check := lastNpos)];
      units := units[lastNpos := units[lastNpos].(base := oldSize)];
      units := units[newSize - 1 := units[newSize - 1].(base := TABOO)];
      units := units[TABOO := units[TABOO].(check := newSize - 1)];
      assert units == Spliced(old(units));
      PushHeads(oldSize, newSize);
      var bpos := oldSize / 256;
      if FREE_BLOCKS <= bpos {
        label Before:
        CloseBlock(bpos - FREE_BLOCKS);
        forall i: nat | i < oldSize && !Listed(old(useds), old(open), i) ensures units[i] == old(units[i]) {
          assert !Listed(old@Before(useds), old@Before(open), i);
        }
      }
    }

    method IsTarget(base: nat) returns (ok: bool)
      requires |code| == 512 && (base / 256 + 1) * 256 <= |useds|
      ensures ok == FF.TargetsUnused(useds, code, edges, base)
    {
      var m := 0;
      while m < |edges|
        invariant m <= |edges|
        invariant forall a :: 0 <= a < m ==> var c := Xor(base, code[edges[a]]); c < |useds| && !useds[c]
      {
        XorBlock(base, code[edges[m]]);
        if useds[Xor(base, code[edges[m]])] {
          return false;
        }
        m := m + 1;
      }
      return true;
    }

    /** Slot i can hold the first child, and the others then fall on unused slots. */
    ghost predicate Fits(i: nat)
      requires |code| == 512 && |edges| > 0
      reads this
    {
      FF.Fits(useds, open, code, edges, i)
    }

    /** First fit: in the L1 block lpos if possible, else anywhere, else in a new block. */
    ghost predicate Chosen(slot: nat, lpos: nat)
      requires |code| == 512 && |edges| > 0
      reads this
    {
      FF.Chosen(useds, open, code, edges, l1Bits, lpos, slot)
    }

    /** The first loop of xcheck: candidates in the L1 block. */
    method SearchBlock(lpos: nat) returns (found: bool, slot: nat)
      requires ListValid() && open % 256 == 0 && |code| == 512 && |edges| > 0 && lpos < |heads|
      ensures found ==>
                Fits(slot) && L1(l1Bits, slot) == lpos && forall i: nat :: i < slot && L1(l1Bits, i) == lpos ==>
                  !Fits(i)
      ensures !found ==> forall i: nat :: L1(l1Bits, i) == lpos ==> !Fits(i)
    {
      assert HeadOk(heads, useds, open, l1Bits, lpos);
      var i := heads[lpos];
      while i != TABOO && L1(l1Bits, i) == lpos
        invariant i == TABOO || (Free(useds, open, i) && lpos <= L1(l1Bits, i))
        invariant forall j: nat {:trigger Fits(j)} ::
                    Fits(j) && L1(l1Bits, j) == lpos ==> i != TABOO && i <= j
        decreases if i == TABOO then 0 else |units| - i
      {
        XorBlock(i, code[edges[0]]);
        BlockOfFree(i, open, |units|);
        var ok := IsTarget(Xor(i, code[edges[0]]));
        if ok {
          return true, i;
        }
        assert Listed(useds, open, i);
        L1Mono(l1Bits, i, if units[i].base == TABOO then i else units[i].base);
        i := units[i].base;
      }
      forall j: nat | Fits(j) ensures L1(l1Bits, j) != lpos {
        if i != TABOO && i <= j {
          L1Mono(l1Bits, i, j);
        }
      }
      return false, 0;
    }

    /** The second loop of xcheck: candidates anywhere. */
    method SearchAll() returns (found: bool, slot: nat)
      requires ListValid() && open % 256 == 0 && |code| == 512 && |edges| > 0
      ensures found ==> Fits(slot) && forall i: nat :: i < slot ==> !Fits(i)
      ensures !found ==> forall i: nat :: !Fits(i)
    {
      assert Listed(useds, open, TABOO);
      var i := units[TABOO].base;
      while i != TABOO
        invariant i == TABOO || Free(useds, open, i)
        invariant forall j: nat {:trigger Fits(j)} :: Fits(j) ==> i != TABOO && i <= j
        decreases if i == TABOO then 0 else |units| - i
      {
        XorBlock(i, code[edges[0]]);
        BlockOfFree(i, open, |units|);
        var ok := IsTarget(Xor(i, code[edges[0]]));
        if ok {
          return true, i;
        }
        assert Listed(useds, open, i);
        i := units[i].base;
      }
      return false, 0;
    }

    method XCheck(lpos: nat) returns (base: nat, ghost slot: nat)
      requires ListValid() && open % 256 == 0 && |code| == 512 && |edges| > 0 && lpos < |heads|
      ensures base == Xor(slot, code[edges[0]]) && Chosen(slot, lpos)
      ensures Fits(slot) || slot == |units|
    {
      if units[TABOO].base == TABOO {
        assert Listed(useds, open, TABOO);
        forall i: nat ensures !FF.Fits(useds, open, code, edges, i) {
          assert !Fits(i);
        }
        return Xor(|units|, code[edges[0]]), |units|;
      }
      var found, i := SearchBlock(lpos);
      if !found {
        found, i := SearchAll();
      }
      forall j: nat ensures FF.Fits(useds, open, code, edges, j) == Fits(j) {}
      if found {
        return Xor(i, code[edges[0]]), i;
      }
      forall j: nat ensures !FF.Fits(useds, open, code, edges, j) {
        assert !Fits(j);
      }
      return Xor(|units|, code[edges[0]]), |units|;
    }

    method Finish()
      requires ListValid() && open % 256 == 0
      modifies `units, `useds, `heads, `open
      ensures ListValid() && useds == old(useds) && |units| == old(|units|)
      ensures forall i: nat | i < |units| && !Listed(old(useds), old(open), i) :: units[i] == old(units[i])
      ensures forall i: nat | i < |units| && !useds[i] :: units[i] == Unit(i, i)
      ensures units[TABOO] == Unit(TABOO, TABOO)
    {
      assert Listed(useds, open, TABOO);
      while units[TABOO].base != TABOO
        invariant ListValid() && open % 256 == 0 && useds == old(useds) && |units| == old(|units|)
        invariant old(open) <= open
        invariant forall i: nat | i < |units| && !Listed(old(useds), old(open), i) :: units[i] == old(units[i])
        decreases |units| - open
      {
        assert Listed(useds, open, TABOO);
        var bpos := units[TABOO].base / 256;
        BlockOfFree(units[TABOO].base, open, |units|);
        CloseBlock(bpos);
      }
      assert Listed(useds, open, TABOO);
      forall i: nat | i < |units| && !useds[i] ensures units[i] == Unit(i, i) {
        assert !Free(useds, open, i);
      }
    }

    method FetchEdges(beg: nat, end: nat, kpos: nat, ghost r: Range) returns (outcome: Outcome, ghost starts: seq<nat>)
      requires Proper(keys, r) && kpos == r.kpos && end == r.end && beg == First(keys, r) < end
      modifies `edges
      ensures outcome.Built? ==> GroupsOk(keys, beg, end, kpos, edges, starts)
      ensures outcome.Failed? ==> Justified(keys, outcome.error)
    {
      edges := [];
      assert SharePrefix(keys[beg], keys[r.beg], kpos);
      var ch := At(keys[beg], kpos);
      starts := [beg];
      var i := beg + 1;
      while i < end
        invariant beg < i <= end
        invariant |starts| == |edges| + 1 && starts[0] == beg && starts[|edges|] < i
        invariant forall m: nat :: m < |edges| ==> GroupAt(keys, kpos, edges, starts, m)
        invariant |edges| > 0 ==> edges[|edges| - 1] < ch
        invariant GroupOk(keys, starts[|edges|], i, kpos, ch)
      {
        assert SharePrefix(keys[i], keys[r.beg], kpos) && SharePrefix(keys[i - 1], keys[r.beg], kpos);
        var nextCh := At(keys[i], kpos);
        if ch != nextCh {
          if nextCh < ch {
            DropUnordered(keys, kpos, i);
            return Failed(NotOrdered), starts;
          }
          GroupsExtend(keys, kpos, edges, starts, ch, i);
          edges := edges + [ch];
          starts := starts + [i];
          ch := nextCh;
        }
        i := i + 1;
      }
      GroupsExtend(keys, kpos, edges, starts, ch, end);
      edges := edges + [ch];
      starts := starts + [end];
      return Built, starts;
    }

    /** The children of base fall on free slots of the double array. */
    ghost predicate KidsFree(kids: seq<nat>, from: nat)
      requires from <= |kids|
      reads this
    {
      forall m :: from <= m < |kids| ==> Free(useds, open, kids[m])
    }

    /** The loop that defines the new edges. */
    method DefineEdges(npos: nat, base: nat, ghost kids: seq<nat>)
      requires ListValid() && npos < |units| && useds[npos] && npos != TABOO
      requires CodesOk(code) && kids == Kids(code, base, edges) && Distinct(kids) && KidsFree(kids, 0)
      modifies `units, `useds, `heads
      ensures ListValid() && |units| == old(|units|)
      ensures units[npos] == Unit(base, old(units[npos].check))
      ensures forall y: nat | y < |units| && y != npos && !Listed(old(useds), open, y) :: units[y] == old(units[y])
      ensures forall m :: 0 <= m < |kids| ==> kids[m] < |units| && useds[kids[m]] && units[kids[m]].check == npos
      ensures forall y: nat :: y < |units| ==> (useds[y] <==> old(useds)[y] || y in kids)
    {
      RewriteUnlisted(units, useds, open, npos, units[npos].(base := base));
      units := units[npos := units[npos].(base := base)];
      var m := 0;
      while m < |edges|
        invariant m <= |edges|
        invariant ListValid() && |units| == old(|units|)
        invariant units[npos] == Unit(base, old(units[npos].check))
        invariant forall y: nat | y < |units| && y != npos && !Listed(old(useds), open, y) :: units[y] == old(units[y])
        invariant forall a :: 0 <= a < m ==> kids[a] < |units| && useds[kids[a]] && units[kids[a]].check == npos
        invariant KidsFree(kids, m)
        invariant forall y: nat :: y < |units| ==> (useds[y] <==> old(useds)[y] || y in kids[..m])
      {
        var childId := Xor(base, code[edges[m]]);
        assert childId == kids[m] && Free(useds, open, kids[m]);
        DefineEdge(npos, childId);
        assert kids[..m + 1] == kids[..m] + [kids[m]];
        m := m + 1;
      }
      assert kids[..m] == kids;
    }

    /** Reserves one child slot. */
    method DefineEdge(npos: nat, childId: nat)
      requires ListValid() && Free(useds, open, childId)
      modifies `units, `useds, `heads
      ensures ListValid() && |units| == old(|units|)
      ensures useds == old(useds)[childId := true]
      ensures units[childId].check == npos
      ensures forall y: nat | y < |units| && !Listed(old(useds), open, y) :: units[y] == old(units[y])
      ensures forall y: nat | y < |units| && y != childId && old(useds)[y] && y != TABOO :: units[y] == old(units[y])
      ensures forall y: nat :: Free(useds, open, y) <==> Free(old(useds), open, y) && y != childId
    {
      UnlinkKeepsFreeList(units, useds, heads, open, l1Bits, childId);
      UseUnit(childId);
      RewriteUnlisted(units, useds, open, childId, units[childId].(check := npos));
      units := units[childId := units[childId].(check := npos)];
    }

    /** Chooses a base by first fit, in a new block if need be; its targets are free. */
    method PickBase(lpos: nat) returns (base: nat, ghost slot: nat)
      requires ListValid() && WindowOk() && |leaves| == |terms| == |units|
      requires CodesOk(code) && |edges| > 0 && lpos < |heads|
      modifies `units, `leaves, `terms, `useds, `heads, `open
      ensures ListValid() && WindowOk() && |units| == old(|units|) + if slot < old(|units|) then 0 else 256
      ensures base == Xor(slot, code[edges[0]]) && old(Chosen(slot, lpos))
      ensures slot == FF.Slot(old(useds), code, edges, l1Bits, lpos)
      ensures (base / 256 + 1) * 256 <= |units|
      ensures KidsFree(Kids(code, base, edges), 0)
      ensures leaves == old(leaves) + Falses(|units| - old(|units|))
      ensures terms == old(terms) + Falses(|units| - old(|units|))
      ensures useds == old(useds) + Falses(|units| - old(|units|))
      ensures forall i: nat | i < old(|units|) && !Listed(old(useds), old(open), i) :: units[i] == old(units[i])
    {
      ghost var size := |units|;
      WindowAligned(size, open);
      base, slot := XCheck(lpos);
      FF.SlotChosen(useds, code, edges, l1Bits, lpos, slot);
      XorBlock(slot, code[edges[0]]);
      SameSide(base, slot, size);
      if |units| <= base {
        Expand();
        assert slot == size;
        KidsInFreshBlock(useds, open, code, edges, base, slot);
      } else {
        KidsInOpenBlock(useds, open, code, edges, base, slot);
      }
    }

    /** First fit over the slots that were taken before. */
    ghost predicate PlacedFirst(npos: nat, base: nat, was: seq<bool>)
      requires |code| == 512 && |edges| > 0
      reads this
    {
      var slot := FF.Slot(was, code, edges, l1Bits, L1(l1Bits, npos));
      base == Xor(slot, code[edges[0]]) && |useds| == |was| + if slot < |was| then 0 else 256
    }

    /** From the edges of a node to its children: xcheck, expand, and the edge loop. */
    method Place(npos: nat) returns (base: nat, ghost kids: seq<nat>)
      requires ListValid() && WindowOk() && SameLengths(Snap())
      requires CodesOk(code) && |edges| > 0 && npos < |units| && useds[npos] && npos != TABOO
      requires forall b: nat :: Distinct(Kids(code, b, edges))
      modifies `units, `leaves, `terms, `useds, `heads, `open
      ensures ListValid() && WindowOk() && |units| <= old(|units|) + 256
      ensures kids == Kids(code, base, edges)
      ensures Placed(old(Snap()), Snap(), npos, base, kids)
      ensures PlacedFirst(npos, base, old(useds))
    {
      hide FF.Slot, FF.Chosen, FF.Fits;
      HeadInRange(l1Bits, npos, |useds| / 256);
      ghost var slot;
      base, slot := PickBase(L1(l1Bits, npos));
      kids := Kids(code, base, edges);
      DefineEdges(npos, base, kids);
    }

    method Reserve(npos: nat, ghost a: Arrays, ghost starts: seq<nat>) returns (base: nat, ghost kids: seq<nat>)
      requires ListValid() && WindowOk() && Readable(keys) && TreeOk(keys, code, a, shape)
      requires npos in shape.nodes && npos !in shape.done
      requires Proper(keys, shape.nodes[npos]) && shape.nodes[npos].beg + 1 < shape.nodes[npos].end
      requires Snap() == Entering(keys, a, shape, npos)
      requires GroupsOk(keys, First(keys, shape.nodes[npos]), shape.nodes[npos].end, shape.nodes[npos].kpos, edges,
          starts)
      modifies `units, `leaves, `terms, `useds, `heads, `open, `shape
      ensures ListValid() && WindowOk() && TreeOk(keys, code, Snap(), shape)
      ensures kids == Kids(code, base, edges) && Distinct(kids)
      ensures forall m :: 0 <= m < |kids| ==> kids[m] !in old(shape).nodes
      ensures shape == AfterInstall(old(shape), npos, kids, starts)
      ensures units[npos].base == base && |units| <= old(|units|) + 256
      ensures (base, Placing()) == FF.WithKids(keys, code, l1Bits, npos, old(shape).nodes[npos], old(Placing()))
    {
      hide FF.WithKids, FF.Slot, Judge, GroupsOk;
      ReserveReady(keys, code, a, shape, npos, edges, starts);
      ghost var before := Snap();
      base, kids := Place(npos);
      ghost var after, shape' := Snap(), AfterInstall(shape, npos, kids, starts);
      PlaceKeepsTree(keys, code, a, before, after, shape, npos, base, kids, edges, starts);
      PlacedPlan(keys, code, l1Bits, before, after, shape, npos, base, kids, edges, starts);
      shape := shape';
      assert Snap() == after;
    }

    method Arrange(beg: nat, end: nat, kpos: nat, npos: nat) returns (outcome: Outcome)
      requires Valid() && npos in shape.nodes && npos !in shape.done && shape.nodes[npos] == Range(beg, end, kpos)
      modifies `units, `leaves, `terms, `useds, `heads, `open, `shape, `edges, `suffixes
      ensures outcome.Failed? ==> Justified(keys, outcome.error)
      ensures outcome.Built? ==> Valid() && Grown(old(shape), shape, npos)
      ensures outcome.Built? ==> beg < end <= |keys| && Ascending(keys, beg, end)
      ensures outcome.Built? ==> |units| <= old(|units|) + 256 * Work(keys, beg, end, kpos)
      ensures outcome.Built? ==> SuffixBytes(suffixes) <= old(SuffixBytes(suffixes)) + Work(keys, beg, end, kpos)
      ensures outcome.Built? ==>
                Placing() == FF.Subtree(keys, code, l1Bits, npos, Range(beg, end, kpos), old(Placing()))
      decreases if beg <= end <= |keys| then Work(keys, beg, end, kpos) else 0, 3
    {
      hide FF.WithKids, FF.Subtrees;
      assert RangeOk(keys, shape.nodes[npos]);
      ghost var a := Snap();
      var beg' := beg;
      if |keys[beg]| == kpos {
        terms := terms[npos := true];
        beg' := beg + 1;
        if beg' == end {
          units := units[npos := units[npos].(base := 0)];
          leaves := leaves[npos := true];
          SettleEmptyLeaf(npos, a);
          return Built;
        }
      } else if beg + 1 == end {
        outcome := ArrangeLone(beg, kpos, npos);
        return;
      }
      outcome := ArrangeInner(beg', end, kpos, npos, a, shape.nodes[npos]);
    }

    /** The part of arrange for a key alone at its node: the rest of it goes to the tail. */
    method ArrangeLone(beg: nat, kpos: nat, npos: nat) returns (outcome: Outcome)
      requires Valid() && npos in shape.nodes && npos !in shape.done
               && shape.nodes[npos] == Range(beg, beg + 1, kpos) && beg < |keys|
      requires |keys[beg]| != kpos
      modifies `leaves, `terms, `shape, `suffixes
      ensures outcome.Failed? ==> Justified(keys, outcome.error)
      ensures outcome.Built? ==> Valid() && Grown(old(shape), shape, npos)
      ensures outcome.Built? ==> SuffixBytes(suffixes) <= old(SuffixBytes(suffixes)) + Work(keys, beg, beg + 1, kpos)
      ensures shape.nodes == old(shape).nodes
    {
      assert RangeOk(keys, shape.nodes[npos]);
      ghost var a := Snap();
      if |keys[beg]| <= kpos {
        return Failed(NotUnique);
      }
      terms := terms[npos := true];
      leaves := leaves[npos := true];
      suffixes := suffixes + [Suffix(keys[beg][kpos..], npos)];
      SettleSuffixLeaf(npos, a);
      return Built;
    }

    /** The part of arrange for a node with edges. */
    method ArrangeInner(beg: nat, end: nat, kpos: nat, npos: nat, ghost a: Arrays, ghost r: Range)
        returns (outcome: Outcome)
      requires ListValid() && WindowOk() && Readable(keys) && TreeOk(keys, code, a, shape)
      requires npos in shape.nodes && npos !in shape.done && shape.nodes[npos] == r
      requires Proper(keys, r) && r.beg + 1 < r.end && beg == First(keys, r) && end == r.end && kpos == r.kpos
      requires Snap() == Entering(keys, a, shape, npos)
      modifies `units, `leaves, `terms, `useds, `heads, `open, `shape, `edges, `suffixes
      ensures outcome.Failed? ==> Justified(keys, outcome.error)
      ensures outcome.Built? ==> Valid() && Grown(old(shape), shape, npos)
      ensures outcome.Built? ==> Ascending(keys, r.beg, end)
      ensures outcome.Built? ==> |units| <= old(|units|) + 256 * Work(keys, r.beg, end, kpos)
      ensures outcome.Built? ==> SuffixBytes(suffixes) <= old(SuffixBytes(suffixes)) + Work(keys, r.beg, end, kpos)
      ensures outcome.Built? ==> Placing() == FF.Subtree(keys, code, l1Bits, npos, r, old(Placing()))
      decreases Work(keys, r.beg, r.end, r.kpos), 2
    {
      hide FF.WithKids, FF.Subtree, FF.Subtrees, Judge, FreeListOk;
      DoneInside(keys, code, a, shape);
      ghost var starts;
      outcome, starts := FetchEdges(beg, end, kpos, r);
      if outcome.Failed? {
        return;
      }
      ghost var es := edges;
      var base;
      ghost var kids;
      base, kids := Reserve(npos, a, starts);
      ReservedKids(old(shape), shape, npos, kids, starts);
      ghost var s, was := shape, Stand();
      outcome := Follow(beg, end, kpos, npos, base, r, es, starts, kids);
      if outcome.Built? {
        assert Followed(keys, code, l1Bits, base, r, beg, kids, was, Stand());
        FollowedAll(old(shape), s, shape, npos, kids);
        FF.SubtreeIs(keys, code, l1Bits, npos, r, old(Placing()));
        FirstBelow(keys, r);
        InnerWork(keys, r);
      }
    }

    ghost method SettleEmptyLeaf(npos: nat, a: Arrays)
      requires ListOk(a.units, useds, open) && HeadsOk(heads, useds, open, l1Bits)
               && ClosedOk(a.units, useds, open) && WindowOk()
      requires Readable(keys) && TreeOk(keys, code, a, shape) && npos in shape.nodes && npos !in shape.done
      requires shape.nodes[npos].end == shape.nodes[npos].beg + 1
               && |keys[shape.nodes[npos].beg]| == shape.nodes[npos].kpos
      requires Snap() == a.(terms := a.terms[npos := true], leaves := a.leaves[npos := true],
                            units := a.units[npos := a.units[npos].(base := 0)])
      modifies `shape
      ensures Valid() && Grown(old(shape), shape, npos) && shape.nodes == old(shape).nodes
    {
      assert shape.nodes[npos] == shape.nodes[npos];
      EmptyLeafKeepsTree(keys, code, a, shape, npos);
      RewriteUnlisted(a.units, useds, open, npos, a.units[npos].(base := 0));
      ghost var snap := Snap();
      shape := shape.(done := shape.done + {npos});
      assert Snap() == snap;
    }

    ghost method SettleSuffixLeaf(npos: nat, a: Arrays)
      requires ListValid() && WindowOk()
      requires Readable(keys) && TreeOk(keys, code, a, shape) && npos in shape.nodes && npos !in shape.done
      requires shape.nodes[npos].end == shape.nodes[npos].beg + 1
               && shape.nodes[npos].kpos < |keys[shape.nodes[npos].beg]|
      requires Snap() == a.(terms := a.terms[npos := true], leaves := a.leaves[npos := true],
                            suffixes := a.suffixes + [Suffix(keys[shape.nodes[npos].beg][shape.nodes[npos].kpos..],
                                npos)])
      modifies `shape
      ensures Valid() && Grown(old(shape), shape, npos) && shape.nodes == old(shape).nodes
    {
      SuffixLeafKeepsTree(keys, code, a, shape, npos);
      ghost var snap := Snap();
      shape := shape.(done := shape.done + {npos});
      assert Snap() == snap;
    }

    /** The children of npos, in the shape that follows its own. */
    ghost predicate KidsReady(r: Range, npos: nat, kids: seq<nat>, starts: seq<nat>)
      reads this
    {
      && npos in shape.done && npos in shape.nodes && shape.nodes[npos] == r && |starts| == |kids| + 1 && Distinct(kids)
      && forall m :: 0 <= m < |kids| ==>
           kids[m] in shape.nodes && kids[m] !in shape.done
           && shape.nodes[kids[m]] == Range(starts[m], starts[m + 1], r.kpos + 1)
    }

    lemma CodeSize()
      requires Valid()
      ensures |code| == 512
    {
    }

    /** The recursion into the children. */
    method Follow(beg: nat, end: nat, kpos: nat, npos: nat, base: nat, ghost r: Range, ghost es: seq<byte>,
        ghost starts: seq<nat>, ghost kids: seq<nat>)
        returns (outcome: Outcome)
      requires Valid() && Proper(keys, r) && end == r.end && kpos == r.kpos && beg == First(keys, r) < end
      requires r.beg + 1 < r.end
      requires GroupsOk(keys, beg, end, kpos, es, starts) && kids == Kids(code, base, es)
               && KidsReady(r, npos, kids, starts)
      modifies `units, `leaves, `terms, `useds, `heads, `open, `shape, `edges, `suffixes
      ensures outcome.Failed? ==> Justified(keys, outcome.error)
      ensures outcome.Built? ==> Valid() && |code| == 512
      ensures outcome.Built? ==> Followed(keys, code, l1Bits, base, r, beg, kids, old(Stand()), Stand())
      decreases Work(keys, r.beg, r.end, r.kpos), 1
    {
      hide TreeOk, Justified, TrieBuilder.ListValid, TrieBuilder.WindowOk, Readable, Progress, Followed;
      CodeSize();
      ProgressStart(keys, code, l1Bits, base, r, beg, kids, Stand());
      ghost var m := 0;
      assert GroupAt(keys, kpos, es, starts, 0);
      var i := beg;
      var ch := At(keys[beg], kpos);
      var j := beg + 1;
      while j < end
        invariant m < |es| && beg <= i == starts[m] < j <= starts[m + 1] && j <= end && ch == es[m]
        invariant Valid() && Progress(keys, code, l1Bits, base, r, beg, kids, old(Stand()), m, i, Stand())
      {
        assert SharePrefix(keys[j], keys[r.beg], kpos);
        var nextCh := At(keys[j], kpos);
        assert GroupAt(keys, kpos, es, starts, m);
        if m + 1 < |es| { assert GroupAt(keys, kpos, es, starts, m + 1); }
        if ch != nextCh {
          assert j == starts[m + 1];
          BeforeGroup(keys, r, es, starts, m);
          FF.GroupEnds(keys, beg, end, kpos, es, starts, m);
          outcome := FollowGroup(i, j, kpos, base, ch, r, beg, kids, m, old(shape), old(Stand()));
          if outcome.Failed? {
            return;
          }
          ch := nextCh;
          i := j;
          m := m + 1;
        } else {
          assert j < starts[m + 1];
        }
        j := j + 1;
      }
      LastGroup(keys, r, es, starts, m);
      BeforeGroup(keys, r, es, starts, m);
      FF.GroupEnds(keys, beg, end, kpos, es, starts, m);
      outcome := FollowGroup(i, end, kpos, base, ch, r, beg, kids, m, old(shape), old(Stand()));
      if outcome.Built? {
        ProgressEnd(keys, code, l1Bits, base, r, beg, kids, old(Stand()), Stand());
      }
    }

    /** One recursive call of the loop over the children. */
    method FollowGroup(i: nat, j: nat, kpos: nat, base: nat, ch: byte, ghost r: Range, ghost lo: nat,
        ghost kids: seq<nat>, ghost m: nat, ghost s: Shape, ghost was: Stage)
        returns (outcome: Outcome)
      requires Valid() && m < |kids| && Distinct(kids) && was.shape == s
      requires |code| == 512 && Xor(base, code[ch]) == kids[m]
      requires kids[m] in s.nodes && kids[m] !in s.done && s.nodes[kids[m]] == Range(i, j, kpos + 1)
      requires Branching(keys, r, lo, i) && kpos == r.kpos && i < j <= r.end
      requires Progress(keys, code, l1Bits, base, r, lo, kids, was, m, i, Stand())
      requires lo < i ==> Step(keys, i)
      requires Work(keys, i, j, kpos + 1) < Work(keys, r.beg, r.end, r.kpos)
      requires FF.Next(keys[i], kpos) == ch && FF.GroupEnd(keys, i, i + 1, r.end, kpos) == j
      modifies `units, `leaves, `terms, `useds, `heads, `open, `shape, `edges, `suffixes
      ensures outcome.Failed? ==> Justified(keys, outcome.error)
      ensures outcome.Built? ==> Valid() && Progress(keys, code, l1Bits, base, r, lo, kids, was, m + 1, j, Stand())
      decreases Work(keys, r.beg, r.end, r.kpos), 0
    {
      hide FF.Subtree, FF.Subtrees, Progress, FF.GroupEnd, Following;
      ProgressKids(keys, code, l1Bits, base, r, lo, kids, was, m, i, Stand());
      KidStillPending(s, shape, kids, m);
      outcome := Arrange(i, j, kpos + 1, Xor(base, code[ch]));
      if outcome.Built? {
        DoneProper(keys, code, Snap(), shape, kids[m]);
        ProgressNext(keys, code, l1Bits, base, r, lo, kids, was, m, i, old(Stand()), j, Stand());
      }
    }

    /** The finished arrays. */
    ghost function Final(top: Key): Layout
      reads this
    {
      Layout(keys, code, units, leaves, terms, shape.nodes, bin, chars, ends, top)
    }

    /** The constructor from the code table on. */
    method Run(binMode: bool) returns (r: Construction, ghost top: Key)
      requires Valid() && |units| == 256 && suffixes == [] && useds == Falses(256)[0 := true][TABOO := true]
      requires shape == Shape(map[0 := Range(0, |keys|, 0)], {})
      requires CT.Describes(table, keys) && code == table.table && keys != []
      modifies this
      ensures r.NullRead? <==> forall i :: 0 <= i < |keys| ==> keys[i] == []
      ensures r.Rejected? ==> Justified(keys, r.error)
      ensures r.Complete? ==> LayoutOk(Final(top)) && (bin <==> binMode || !NulFree(keys))
      ensures r.Complete? ==> |units| <= 256 * (Work(keys, 0, |keys|, 0) + 1) && |chars| <= 1 + Work(keys, 0, |keys|, 0)
      ensures r.Complete? ==> LaidOut()
      ensures table == old(table) && code == old(code)
    {
      hide FF.Laid, JudgeLayout, Judge, FreeListOk, CT.Describes;
      top := [];
      CT.HasNullReads(table, keys);
      var probe := CT.HasNull(table);
      if probe.NullRead? {
        r := NullRead;
      } else {
        bin := binMode || probe.found;
        var outcome;
        outcome, top := ArrangeAll();
        r := if outcome.Failed? then Rejected(outcome.error) else Complete;
      }
    }

    /** arrange from the root, and the steps after it. */
    method ArrangeAll() returns (outcome: Outcome, ghost top: Key)
      requires Valid() && |units| == 256 && suffixes == [] && (bin || NulFree(keys))
      requires useds == Falses(256)[0 := true][TABOO := true]
      requires shape == Shape(map[0 := Range(0, |keys|, 0)], {})
      modifies `units, `leaves, `terms, `useds, `heads, `open, `shape, `edges, `suffixes, `chars, `ends
      ensures outcome.Failed? ==> Justified(keys, outcome.error)
      ensures outcome.Built? ==> LayoutOk(Final(top)) && LaidOut()
      ensures outcome.Built? ==>
                |units| <= 256 * (Work(keys, 0, |keys|, 0) + 1) && |chars| <= 1 + Work(keys, 0, |keys|, 0)
    {
      hide FF.Subtree;
      top := [];
      outcome := Arrange(0, |keys|, 0, 0);
      if outcome.Built? {
        top := Seal();
      }
    }

    /** Every slot that holds no node points at itself. */
    method FinishTree()
      requires ListValid() && WindowOk()
      modifies `units, `useds, `heads, `open
      ensures IdleClosed(old(Snap()), units) && useds == old(useds)
    {
      WindowAligned(|units|, open);
      Finish();
    }

    /** The steps after arrange: finish, and complete on the collected suffixes. */
    method Seal() returns (ghost top: Key)
      requires Valid() && StrictlySorted(keys) && shape.done == shape.nodes.Keys && (bin || NulFree(keys))
      modifies `units, `useds, `heads, `open, `chars, `ends
      ensures LayoutOk(Final(top)) && useds == old(useds) && |useds| == |units|
      ensures |units| == old(|units|) && |chars| <= 1 + old(SuffixBytes(suffixes))
    {
      ghost var a := Snap();
      assert |a.units| % 256 == 0 && TreeOk(keys, code, a, shape);
      FinishTree();
      top := CompleteTail(a);
    }

    /** complete, after finish. */
    method CompleteTail(ghost a: Arrays) returns (ghost top: Key)
      requires StrictlySorted(keys) && TreeOk(keys, code, a, shape) && shape.done == shape.nodes.Keys
               && (bin || NulFree(keys))
      requires IdleClosed(a, units) && |a.units| % 256 == 0 && a.suffixes == suffixes && a.leaves == leaves
               && a.terms == terms
      modifies `units, `chars, `ends
      ensures LayoutOk(Final(top))
      ensures |units| == old(|units|) && |chars| <= 1 + SuffixBytes(suffixes)
    {
      ghost var m;
      chars, ends, units, m := CompleteLayout(suffixes, bin, units, keys, code, a, shape);
      top := m.top;
      assert Final(top) == m;
    }
  }

  /** complete, and the layout of the finished arrays. */
  method CompleteLayout(suffixes: seq<Suffix>, bin: bool, units: seq<Unit>, ghost keys: seq<Key>, ghost code: seq<byte>,
      ghost a: Arrays, ghost s: Shape)
      returns (chars: seq<byte>, ends: seq<bool>, units': seq<Unit>, ghost m: Layout)
    requires StrictlySorted(keys) && TreeOk(keys, code, a, s) && s.done == s.nodes.Keys && (bin || NulFree(keys))
    requires IdleClosed(a, units) && |a.units| % 256 == 0 && a.suffixes == suffixes
    ensures LayoutOk(m) && m == Layout(keys, code, units', a.leaves, a.terms, s.nodes, bin, chars, ends, m.top)
    ensures |units'| == |units| && |chars| <= 1 + SuffixBytes(suffixes)
  {
    SuffixesStorable(keys, code, a, s, bin, units);
    ghost var sorted;
    chars, ends, units', sorted := TV.Complete(suffixes, bin, units);
    m := Layout(keys, code, units', a.leaves, a.terms, s.nodes, bin, chars, ends,
        if sorted == [] then [] else sorted[|sorted| - 1].str);
    Finished(keys, code, a, s, units, m, sorted);
  }

  /** finish keeps the units of the nodes. */
  ghost predicate IdleClosed(a: Arrays, finished: seq<Unit>) {
    && |finished| == |a.units| == |a.useds| > TABOO
    && (forall i :: 0 <= i < |a.units| && a.useds[i] && i != TABOO ==> finished[i] == a.units[i])
    && (forall i :: 0 <= i < |a.units| && (!a.useds[i] || i == TABOO) ==> finished[i] == Unit(i, i))
  }

  lemma SuffixesStorable(keys: seq<Key>, code: seq<byte>, a: Arrays, s: Shape, bin: bool, units: seq<Unit>)
    requires TreeOk(keys, code, a, s) && |units| == |a.units| && (bin || NulFree(keys))
    ensures TV.DistinctNodes(a.suffixes) && TV.Storable(bin, a.suffixes, units)
  {
    forall k | 0 <= k < |a.suffixes|
      ensures a.suffixes[k].str != [] && (bin || NulFreeKey(a.suffixes[k].str)) && a.suffixes[k].npos < |units|
    {
      assert SuffixOk(keys, s, a.suffixes[k]);
      assert s.nodes[a.suffixes[k].npos] == s.nodes[a.suffixes[k].npos];
      if !bin { assert NulFreeKey(keys[s.nodes[a.suffixes[k].npos].beg]); }
    }
  }

  lemma SuffixPlace(keys: seq<Key>, code: seq<byte>, a: Arrays, s: Shape, k: nat)
    requires TreeOk(keys, code, a, s) && k < |a.suffixes|
    ensures SuffixOk(keys, s, a.suffixes[k])
    ensures var npos := a.suffixes[k].npos; npos < |a.units| == |a.useds| && npos != TABOO && a.useds[npos]
  {
    assert SuffixOk(keys, s, a.suffixes[k]);
    assert s.nodes[a.suffixes[k].npos] == s.nodes[a.suffixes[k].npos];
  }

  lemma Finished(keys: seq<Key>, code: seq<byte>, a: Arrays, s: Shape, finished: seq<Unit>, m: Layout,
      sorted: seq<Suffix>)
    requires StrictlySorted(keys) && TreeOk(keys, code, a, s) && s.done == s.nodes.Keys && |a.units| % 256 == 0
    requires IdleClosed(a, finished)
    requires m == Layout(keys, code, m.units, a.leaves, a.terms, s.nodes, m.bin, m.chars, m.ends, m.top)
    requires TV.TailOf(a.suffixes, m.bin, finished, m.chars, m.ends, m.units, sorted) && (m.bin || NulFree(keys))
    requires sorted != [] ==> m.top == sorted[|sorted| - 1].str
    ensures LayoutOk(m)
  {
    hide Judge, TV.PlacedAt;
    if sorted != [] {
      assert sorted[|sorted| - 1] in a.suffixes;
      var k :| 0 <= k < |a.suffixes| && a.suffixes[k] == sorted[|sorted| - 1];
      SuffixPlace(keys, code, a, s, k);
    }
    forall k | 0 <= k < |a.suffixes|
      ensures a.suffixes[k].npos < |a.units| && a.suffixes[k].npos != TABOO && a.useds[a.suffixes[k].npos]
    {
      SuffixPlace(keys, code, a, s, k);
    }
    CompletedOk(keys, code, a, s, m, sorted);
  }

  /** A list that justifies an error is not one the trie accepts. */
  lemma JustifiedUnsorted(keys: seq<Key>, error: BuildError)
    requires Justified(keys, error)
    ensures keys == [] || !StrictlySorted(keys)
  {
    if keys != [] {
      var i :| 0 < i < |keys| && (keys[i] == keys[i - 1] || Less(keys[i], keys[i - 1]));
      if StrictlySorted(keys) {
        assert Step(keys, i);
        if keys[i] == keys[i - 1] {
          LessIrreflexive(keys[i]);
        } else {
          LessTransitive(keys[i - 1], keys[i], keys[i - 1]);
          LessIrreflexive(keys[i - 1]);
        }
      }
    }
  }

  /** The keys the constructor turns into a trie. */
  ghost predicate Acceptable(keys: seq<Key>) {
    StrictlySorted(keys) && exists i :: 0 <= i < |keys| && keys[i] != []
  }

  /** The constructor: it completes exactly for the strictly sorted lists that hold a non-empty key. */
  method Construct(keys: seq<Key>, l1Bits: nat, binMode: bool)
      returns (r: Construction, b: TrieBuilder?, ghost top: Key)
    requires Readable(keys) && (l1Bits == 7 || l1Bits == 8)
    ensures r.Complete? <==> Acceptable(keys)
    ensures r.Rejected? ==> Justified(keys, r.error)
    ensures r.NullRead? <==> keys != [] && forall i :: 0 <= i < |keys| ==> keys[i] == []
    ensures r.Complete? ==> b != null && fresh(b) && LayoutOk(b.Final(top)) && b.keys == keys
    ensures r.Complete? ==>
              CT.Describes(b.table, keys) && b.code == b.table.table && (b.bin <==> binMode || !NulFree(keys))
    ensures r.Complete? ==>
              |b.code| == 512 && b.l1Bits == l1Bits && b.shape.nodes == FF.Laid(keys, b.code, l1Bits).nodes
    ensures r.Complete? ==> |b.units| == |FF.Laid(keys, b.code, l1Bits).useds|
    ensures r.Complete? ==>
              |b.units| <= 256 * (Work(keys, 0, |keys|, 0) + 1) && |b.chars| <= 1 + Work(keys, 0, |keys|, 0)
  {
    hide FF.Laid, JudgeLayout, Judge, FreeListOk, CT.Describes;
    top := [];
    b := null;
    if |keys| == 0 {
      return Rejected(EmptyDataset), b, top;
    }
    var built := new TrieBuilder(keys, l1Bits);
    r, top := built.Run(binMode);
    b := built;
    if r.Complete? {
      Basics(built.Final(top));
    }
    if r.Rejected? {
      JustifiedUnsorted(keys, r.error);
    }
    if r.NullRead? && |keys| > 1 {
      assert keys[1] == keys[0];
    }
  }
}
