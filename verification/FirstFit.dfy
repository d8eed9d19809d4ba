/** Where the builder puts the nodes, told from the keys and the codes alone: depth first, every node's
    children by first fit. */
module FirstFit {
  import opened Bits
  import opened Keys
  import opened FreeList
  import opened DoubleArray
  import opened Remaining

  /** Which slots are taken, and what stands in them. */
  datatype Plan = Plan(useds: seq<bool>, nodes: map<nat, Range>)

  // ---------- the choice of a slot ----------

  /** Only the last sixteen blocks are searched. */
  function Window(size: nat): nat {
    if size > 4096 then size - 4096 else 0
  }

  /** All targets of base are unused slots. */
  predicate TargetsUnused(useds: seq<bool>, code: seq<byte>, edges: seq<byte>, base: nat)
    requires |code| == 512
  {
    forall m :: 0 <= m < |edges| ==>
      var c := Xor(base, code[edges[m]]); c < |useds| && !useds[c]
  }

  /** Slot i can hold the first child, and the others then fall on unused slots. */
  predicate Fits(useds: seq<bool>, open: nat, code: seq<byte>, edges: seq<byte>, i: nat)
    requires |code| == 512 && |edges| > 0
  {
    Free(useds, open, i) && TargetsUnused(useds, code, edges, Xor(i, code[edges[0]]))
  }

  /** The first slot from i on that fits, in one L1 block only if near is set; the size if there is none. */
  ghost function Scan(useds: seq<bool>, code: seq<byte>, edges: seq<byte>, l1Bits: nat, near: bool, block: nat,
      i: nat): nat
    requires |code| == 512 && |edges| > 0
    decreases |useds| - i
  {
    if i >= |useds| then |useds|
    else if Fits(useds, Window(|useds|), code, edges, i) && (near ==> L1(l1Bits, i) == block) then i
    else Scan(useds, code, edges, l1Bits, near, block, i + 1)
  }

  /** The slot for the first child: in the given L1 block if one fits there, else anywhere, else the first slot of
      a new block. */
  ghost function Slot(useds: seq<bool>, code: seq<byte>, edges: seq<byte>, l1Bits: nat, block: nat): nat
    requires |code| == 512 && |edges| > 0
  {
    var near := Scan(useds, code, edges, l1Bits, true, block, 0);
    if near < |useds| then near else Scan(useds, code, edges, l1Bits, false, 0, 0)
  }

  lemma {:induction false} ScanTells(useds: seq<bool>, code: seq<byte>, edges: seq<byte>, l1Bits: nat, near: bool,
      block: nat, i: nat)
    requires |code| == 512 && |edges| > 0 && i <= |useds|
    ensures var r := Scan(useds, code, edges, l1Bits, near, block, i);
            && i <= r <= |useds|
            && (r < |useds| ==> Fits(useds, Window(|useds|), code, edges, r) && (near ==> L1(l1Bits, r) == block))
            && (forall j: nat :: i <= j < r && (near ==> L1(l1Bits, j) == block) ==>
                  !Fits(useds, Window(|useds|), code, edges, j))
    decreases |useds| - i
  {
    hide Fits, Window, L1;
    if i < |useds| {
      ScanTells(useds, code, edges, l1Bits, near, block, i + 1);
    }
  }

  /** First fit, said of a slot: the least that fits in the L1 block if one does, else the least that fits at all,
      else the first slot behind the last block. */
  ghost predicate Chosen(useds: seq<bool>, open: nat, code: seq<byte>, edges: seq<byte>, l1Bits: nat, block: nat,
      slot: nat)
    requires |code| == 512 && |edges| > 0
  {
    if exists i: nat :: Fits(useds, open, code, edges, i) && L1(l1Bits, i) == block then
      Fits(useds, open, code, edges, slot) && L1(l1Bits, slot) == block
      && forall i: nat :: i < slot && L1(l1Bits, i) == block ==> !Fits(useds, open, code, edges, i)
    else if exists i: nat :: Fits(useds, open, code, edges, i) then
      Fits(useds, open, code, edges, slot) && forall i: nat :: i < slot ==> !Fits(useds, open, code, edges, i)
    else slot == |useds|
  }

  lemma FitsInside(useds: seq<bool>, open: nat, code: seq<byte>, edges: seq<byte>, i: nat)
    requires |code| == 512 && |edges| > 0 && Fits(useds, open, code, edges, i)
    ensures i < |useds|
  {
  }

  /** The scan finds the one slot that first fit allows. */
  lemma SlotChosen(useds: seq<bool>, code: seq<byte>, edges: seq<byte>, l1Bits: nat, block: nat, slot: nat)
    requires |code| == 512 && |edges| > 0
    ensures Chosen(useds, Window(|useds|), code, edges, l1Bits, block, slot)
            <==> slot == Slot(useds, code, edges, l1Bits, block)
  {
    hide Fits, Window, L1, Scan;
    ScanTells(useds, code, edges, l1Bits, true, block, 0);
    ScanTells(useds, code, edges, l1Bits, false, 0, 0);
    var open, r := Window(|useds|), Slot(useds, code, edges, l1Bits, block);
    forall i: nat | Fits(useds, open, code, edges, i) ensures i < |useds| {
      FitsInside(useds, open, code, edges, i);
    }
    assert Chosen(useds, open, code, edges, l1Bits, block, r);
    if Chosen(useds, open, code, edges, l1Bits, block, slot) {
      assert !(slot < r) && !(r < slot);
    }
  }

  // ---------- the edges of a node ----------

  /** Byte k of a key; a key that has ended goes on with null bytes. */
  function Next(key: Key, k: nat): byte {
    if k < |key| then key[k] else 0
  }

  /** Where the keys from lo on cease to have the same byte at k, looking from j on. */
  ghost function GroupEnd(keys: seq<Key>, lo: nat, j: nat, hi: nat, k: nat): (r: nat)
    requires lo < j <= hi <= |keys|
    ensures j <= r <= hi
    decreases hi - j
  {
    if j == hi || Next(keys[j], k) != Next(keys[lo], k) then j else GroupEnd(keys, lo, j + 1, hi, k)
  }

  /** The bytes at k of the keys from lo up to hi, each run of equal ones once. */
  ghost function Edges(keys: seq<Key>, lo: nat, hi: nat, k: nat): seq<byte>
    requires lo <= hi <= |keys|
    decreases hi - lo
  {
    if lo == hi then [] else [Next(keys[lo], k)] + Edges(keys, GroupEnd(keys, lo, lo + 1, hi, k), hi, k)
  }

  /** Where the runs begin, and where the last one ends. */
  ghost function Starts(keys: seq<Key>, lo: nat, hi: nat, k: nat): seq<nat>
    requires lo <= hi <= |keys|
    decreases hi - lo
  {
    if lo == hi then [lo] else [lo] + Starts(keys, GroupEnd(keys, lo, lo + 1, hi, k), hi, k)
  }

  lemma {:induction false} AsManyStarts(keys: seq<Key>, lo: nat, hi: nat, k: nat)
    requires lo <= hi <= |keys|
    ensures |Starts(keys, lo, hi, k)| == |Edges(keys, lo, hi, k)| + 1
    decreases hi - lo
  {
    if lo < hi {
      AsManyStarts(keys, GroupEnd(keys, lo, lo + 1, hi, k), hi, k);
    }
  }

  lemma {:induction false} GroupEndIs(keys: seq<Key>, lo: nat, j: nat, end: nat, hi: nat, k: nat)
    requires lo < j <= end <= hi <= |keys|
    requires forall x {:trigger keys[x]} :: lo <= x < end ==> Next(keys[x], k) == Next(keys[lo], k)
    requires end < hi ==> Next(keys[end], k) != Next(keys[lo], k)
    ensures GroupEnd(keys, lo, j, hi, k) == end
    decreases end - j
  {
    if j < end {
      GroupEndIs(keys, lo, j + 1, end, hi, k);
    }
  }

  /** A group as the builder finds it. */
  lemma GroupEnds(keys: seq<Key>, lo: nat, hi: nat, k: nat, edges: seq<byte>, starts: seq<nat>, m: nat)
    requires GroupsOk(keys, lo, hi, k, edges, starts) && m < |edges|
    ensures lo <= starts[m] < starts[m + 1] <= hi && Next(keys[starts[m]], k) == edges[m]
    ensures GroupEnd(keys, starts[m], starts[m] + 1, hi, k) == starts[m + 1]
  {
    assert GroupAt(keys, k, edges, starts, m);
    if 0 < m {
      GroupsAscend(keys, lo, hi, k, edges, starts, 0, m);
    }
    if m + 1 < |edges| {
      GroupsAscend(keys, lo, hi, k, edges, starts, m + 1, |edges|);
      assert GroupAt(keys, k, edges, starts, m + 1);
    }
    GroupEndIs(keys, starts[m], starts[m] + 1, starts[m + 1], hi, k);
  }

  /** The edges and starts the builder fetches are those of the keys. */
  lemma {:induction false} EdgesAre(keys: seq<Key>, lo: nat, hi: nat, k: nat, edges: seq<byte>, starts: seq<nat>,
      m: nat)
    requires GroupsOk(keys, lo, hi, k, edges, starts) && m <= |edges|
    ensures starts[m] <= hi && Edges(keys, starts[m], hi, k) == edges[m..]
            && Starts(keys, starts[m], hi, k) == starts[m..]
    decreases |edges| - m
  {
    GroupsShape(keys, lo, hi, k, edges, starts);
    hide GroupsOk, GroupEnd;
    if m < |edges| {
      GroupEnds(keys, lo, hi, k, edges, starts, m);
      EdgesAre(keys, lo, hi, k, edges, starts, m + 1);
      assert edges[m..] == [edges[m]] + edges[m + 1..] && starts[m..] == [starts[m]] + starts[m + 1..];
    }
  }

  lemma GroupsShape(keys: seq<Key>, lo: nat, hi: nat, k: nat, edges: seq<byte>, starts: seq<nat>)
    requires GroupsOk(keys, lo, hi, k, edges, starts)
    ensures |starts| == |edges| + 1 && starts[|edges|] == hi <= |keys|
  {
  }

  // ---------- the whole plan ----------

  /** The plan with the children of a node placed. */
  ghost function WithKids(keys: seq<Key>, code: seq<byte>, l1Bits: nat, npos: nat, r: Range, p: Plan): (r': (nat, Plan))
    requires |code| == 512 && r.beg < |keys| && First(keys, r) < r.end <= |keys|
  {
    var lo := First(keys, r);
    var edges := Edges(keys, lo, r.end, r.kpos);
    AsManyStarts(keys, lo, r.end, r.kpos);
    var slot := Slot(p.useds, code, edges, l1Bits, L1(l1Bits, npos));
    var base := Xor(slot, code[edges[0]]);
    var kids := Kids(code, base, edges);
    (base, Plan(Taken(if slot < |p.useds| then p.useds else p.useds + Falses(256), kids),
                WithChildren(p.nodes, kids, Starts(keys, lo, r.end, r.kpos), r.kpos + 1, |kids|)))
  }

  ghost function Taken(useds: seq<bool>, kids: seq<nat>): (r: seq<bool>)
    ensures |r| == |useds| && forall i :: 0 <= i < |r| ==> r[i] == (useds[i] || i in kids)
  {
    seq(|useds|, i requires 0 <= i < |useds| => useds[i] || i in kids)
  }

  /** A node with keys below it that are to be told apart. */
  ghost predicate Branches(keys: seq<Key>, r: Range) {
    Proper(keys, r) && r.beg + 1 < r.end
  }

  /** The plan with the subtree of a node laid out, children in order. */
  ghost function Subtree(keys: seq<Key>, code: seq<byte>, l1Bits: nat, npos: nat, r: Range, p: Plan): Plan
    requires |code| == 512 && r.beg <= r.end <= |keys|
    decreases Work(keys, r.beg, r.end, r.kpos), |keys| + 1
  {
    if !Branches(keys, r) then p
    else
      var (base, q) := WithKids(keys, code, l1Bits, npos, r, p);
      Subtrees(keys, code, l1Bits, base, r, First(keys, r), q)
  }

  /** The subtrees of the children from the one whose keys begin at lo on. */
  ghost function Subtrees(keys: seq<Key>, code: seq<byte>, l1Bits: nat, base: nat, r: Range, lo: nat, p: Plan): Plan
    requires |code| == 512 && Branches(keys, r) && r.beg <= lo <= r.end
    decreases Work(keys, r.beg, r.end, r.kpos), r.end - lo
  {
    if lo == r.end then p
    else
      var j := GroupEnd(keys, lo, lo + 1, r.end, r.kpos);
      GroupLess(keys, r, lo, j);
      Subtrees(keys, code, l1Bits, base, r, j,
        Subtree(keys, code, l1Bits, Xor(base, code[Next(keys[lo], r.kpos)]), Range(lo, j, r.kpos + 1), p))
  }

  lemma GroupLess(keys: seq<Key>, r: Range, i: nat, j: nat)
    requires Proper(keys, r) && r.beg <= i < j <= r.end
    ensures Work(keys, i, j, r.kpos + 1) < Work(keys, r.beg, r.end, r.kpos)
  {
    forall x | r.beg <= x < r.end ensures r.kpos <= |keys[x]| {
      assert SharePrefix(keys[x], keys[r.beg], r.kpos);
    }
    WorkOfGroup(keys, r.beg, i, i, j, r.end, r.kpos);
  }

  lemma SubtreeIs(keys: seq<Key>, code: seq<byte>, l1Bits: nat, npos: nat, r: Range, p: Plan)
    requires |code| == 512 && Branches(keys, r)
    ensures First(keys, r) < r.end
    ensures var (base, q) := WithKids(keys, code, l1Bits, npos, r, p);
            Subtree(keys, code, l1Bits, npos, r, p) == Subtrees(keys, code, l1Bits, base, r, First(keys, r), q)
  {
    hide WithKids, Subtrees;
  }

  /** The plan for a key list: slot 0 for the root, and slot 1 for the head of the free list. */
  ghost function Laid(keys: seq<Key>, code: seq<byte>, l1Bits: nat): Plan
    requires |code| == 512
  {
    var r := Range(0, |keys|, 0);
    Subtree(keys, code, l1Bits, 0, r, Plan(Falses(256)[0 := true][1 := true], map[0 := r]))
  }
}
