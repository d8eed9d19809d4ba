/** The free slots of the double array under construction.
    They form a circular doubly linked list threaded through the units
    themselves: `base` is the successor, `check` the predecessor, and slot 1 is
    the sentinel. Slots below `open` belong to closed blocks. */
module FreeList {
  import opened Bits

  datatype Unit = Unit(base: nat, check: nat)

  const TABOO: nat := 1
  const FREE_BLOCKS: nat := 16

  /** The L1 block of a slot. */
  function L1(l1Bits: nat, npos: nat): nat {
    Shr(npos, l1Bits)
  }

  lemma L1Value(l1Bits: nat, npos: nat)
    requires l1Bits == 7 || l1Bits == 8
    ensures L1(l1Bits, npos) == if l1Bits == 7 then npos / 128 else npos / 256
  {
    if l1Bits == 7 {
      Shr8(2 * npos);
    } else {
      Shr8(npos);
    }
  }

  lemma {:induction false} L1Mono(l1Bits: nat, i: nat, j: nat)
    requires i <= j
    ensures L1(l1Bits, i) <= L1(l1Bits, j)
    decreases l1Bits
  {
    if l1Bits > 0 {
      L1Mono(l1Bits - 1, i / 2, j / 2);
    }
  }

  /** An unused slot of an open block. */
  predicate Free(useds: seq<bool>, open: nat, i: nat) {
    open <= i < |useds| && !useds[i]
  }

  ghost predicate NoFree(useds: seq<bool>, open: nat, lo: nat, hi: nat) {
    forall i: nat {:trigger Free(useds, open, i)} :: lo <= i < hi ==> !Free(useds, open, i)
  }

  /** The successor of i in the list is the next free slot, or the sentinel. */
  ghost predicate NextOk(units: seq<Unit>, useds: seq<bool>, open: nat, i: nat)
    requires i < |units|
  {
    var n := units[i].base;
    if n == TABOO then NoFree(useds, open, i + 1, |useds|)
    else i < n && Free(useds, open, n) && NoFree(useds, open, i + 1, n)
  }

  /** The predecessor of i is the previous free slot; that of the sentinel is the last one. */
  ghost predicate PrevOk(units: seq<Unit>, useds: seq<bool>, open: nat, i: nat)
    requires i < |units|
  {
    var p := units[i].check;
    var top := if i == TABOO then |useds| else i;
    (p == TABOO || Free(useds, open, p)) && p < |units| &&
    (i != TABOO ==> p < i) && NoFree(useds, open, p + 1, top)
  }

  ghost predicate Listed(useds: seq<bool>, open: nat, i: nat) {
    i == TABOO || Free(useds, open, i)
  }

  ghost predicate ListOk(units: seq<Unit>, useds: seq<bool>, open: nat) {
    && |units| == |useds| >= 256 && |units| % 256 == 0
    && open <= |units|
    && useds[0] && useds[TABOO]
    && (forall i: nat {:trigger Listed(useds, open, i)} :: Listed(useds, open, i) ==>
          i < |units| && NextOk(units, useds, open, i) && PrevOk(units, useds, open, i))
  }

  /** A head is the first free slot of its L1 block, or the sentinel when there is none. */
  ghost predicate HeadOk(heads: seq<nat>, useds: seq<bool>, open: nat, l1Bits: nat, l: nat)
    requires l < |heads|
  {
    var h := heads[l];
    (h == TABOO || (Free(useds, open, h) && L1(l1Bits, h) == l)) &&
    (forall i: nat {:trigger Free(useds, open, i)} ::
       Free(useds, open, i) && L1(l1Bits, i) == l ==> h != TABOO && h <= i)
  }

  ghost predicate HeadsOk(heads: seq<nat>, useds: seq<bool>, open: nat, l1Bits: nat) {
    && (l1Bits == 7 || l1Bits == 8)
    && |heads| == L1(l1Bits, |useds|)
    && forall l: nat :: l < |heads| ==> HeadOk(heads, useds, open, l1Bits, l)
  }

  /** Closed slots that hold no node carry their own number. */
  ghost predicate ClosedOk(units: seq<Unit>, useds: seq<bool>, open: nat)
    requires |units| == |useds|
  {
    forall i: nat {:trigger units[i]} :: i < |units| && i < open && !useds[i] ==> units[i] == Unit(i, i)
  }

  ghost predicate FreeListOk(units: seq<Unit>, useds: seq<bool>, heads: seq<nat>, open: nat, l1Bits: nat) {
    && ListOk(units, useds, open)
    && HeadsOk(heads, useds, open, l1Bits)
    && ClosedOk(units, useds, open)
  }

  // ---------- use_unit ----------

  function Unlink(units: seq<Unit>, npos: nat): (r: seq<Unit>)
    requires npos < |units| && units[npos].base < |units| && units[npos].check < |units|
    ensures |r| == |units|
  {
    var next, prev := units[npos].base, units[npos].check;
    var relinked := units[prev := units[prev].(base := next)];
    relinked[next := relinked[next].(check := prev)]
  }

  function DropHead(heads: seq<nat>, l1Bits: nat, npos: nat, next: nat): (r: seq<nat>)
    requires L1(l1Bits, npos) < |heads|
    ensures |r| == |heads|
  {
    var lpos := L1(l1Bits, npos);
    if heads[lpos] == npos then heads[lpos := if lpos != L1(l1Bits, next) then TABOO else next] else heads
  }

  lemma UnlinkKeepsList(units: seq<Unit>, useds: seq<bool>, open: nat, npos: nat)
    requires ListOk(units, useds, open) && Free(useds, open, npos)
    ensures units[npos].base < |units| && units[npos].check < |units|
    ensures ListOk(Unlink(units, npos), useds[npos := true], open)
    ensures forall i: nat {:trigger Free(useds[npos := true], open, i)} ::
              Free(useds[npos := true], open, i) <==> Free(useds, open, i) && i != npos
    ensures forall i: nat | i < |units| && !Listed(useds, open, i) :: Unlink(units, npos)[i] == units[i]
    ensures Unlink(units, npos)[npos] == units[npos]
  {
    assert Listed(useds, open, npos) && Listed(useds, open, TABOO);
    var next, prev := units[npos].base, units[npos].check;
    assert Listed(useds, open, next) && Listed(useds, open, prev);
    var units', useds' := Unlink(units, npos), useds[npos := true];
    forall i: nat ensures Free(useds', open, i) <==> Free(useds, open, i) && i != npos {}
    forall i: nat | Listed(useds', open, i)
      ensures i < |units'| && NextOk(units', useds', open, i) && PrevOk(units', useds', open, i)
    {
      assert Listed(useds, open, i);
      if i != prev && i != TABOO {
        assert units[i].base != npos;
      }
    }
  }

  lemma {:induction false} ShrBelow(x: nat, k: nat, q: nat)
    requires x < Shift(q, k)
    ensures Shr(x, k) < q
    decreases k
  {
    if k > 0 {
      ShrBelow(x / 2, k - 1, q);
    }
  }

  /** An L1 block never straddles the boundary of a block. */
  lemma HeadInRange(l1Bits: nat, i: nat, blocks: nat)
    requires (l1Bits == 7 || l1Bits == 8) && i < 256 * blocks
    ensures L1(l1Bits, i) < L1(l1Bits, 256 * blocks)
  {
    var q := if l1Bits == 7 then 2 * blocks else blocks;
    ShiftIsMul(q, l1Bits);
    assert Pow2(7) == 128 && Pow2(8) == 256;
    ShrBelow(i, l1Bits, q);
    ShrOfShift(q, l1Bits);
  }

  lemma HeadOfClosed(heads: seq<nat>, useds: seq<bool>, open: nat, l1Bits: nat, l: nat)
    requires HeadsOk(heads, useds, open, l1Bits) && l < |heads| && l < L1(l1Bits, open)
    ensures heads[l] == TABOO
  {
    assert HeadOk(heads, useds, open, l1Bits, l);
    if heads[l] != TABOO {
      L1Mono(l1Bits, open, heads[l]);
      assert false;
    }
  }

  /** The head of the block of npos, once npos is taken out. */
  lemma NewHead(units: seq<Unit>, useds: seq<bool>, open: nat, l1Bits: nat, npos: nat, i: nat)
    requires ListOk(units, useds, open) && Free(useds, open, npos)
    requires Free(useds, open, i) && npos < i && L1(l1Bits, i) == L1(l1Bits, npos)
    ensures npos < |units| && units[npos].base != TABOO && units[npos].base <= i
    ensures L1(l1Bits, units[npos].base) == L1(l1Bits, npos)
  {
    assert Listed(useds, open, npos);
    var next := units[npos].base;
    assert next != TABOO && npos < next <= i;
    L1Mono(l1Bits, npos, next);
    L1Mono(l1Bits, next, i);
  }

  lemma UnlinkKeepsHeads(units: seq<Unit>, useds: seq<bool>, heads: seq<nat>, open: nat, l1Bits: nat, npos: nat)
    requires ListOk(units, useds, open) && HeadsOk(heads, useds, open, l1Bits) && Free(useds, open, npos)
    ensures L1(l1Bits, npos) < |heads|
    ensures HeadsOk(DropHead(heads, l1Bits, npos, units[npos].base), useds[npos := true], open, l1Bits)
  {
    HeadInRange(l1Bits, npos, |useds| / 256);
    assert 256 * (|useds| / 256) == |useds|;
    assert Listed(useds, open, npos);
    var next := units[npos].base;
    var useds' := useds[npos := true];
    var heads' := DropHead(heads, l1Bits, npos, next);
    forall i: nat ensures Free(useds', open, i) <==> Free(useds, open, i) && i != npos {}
    forall l: nat | l < |heads'| ensures HeadOk(heads', useds', open, l1Bits, l) {
      assert HeadOk(heads, useds, open, l1Bits, l);
      forall i: nat | Free(useds', open, i) && L1(l1Bits, i) == l ensures heads'[l] != TABOO && heads'[l] <= i {
        if l == L1(l1Bits, npos) && heads[l] == npos {
          NewHead(units, useds, open, l1Bits, npos, i);
        }
      }
    }
  }

  lemma UnlinkKeepsFreeList(units: seq<Unit>, useds: seq<bool>, heads: seq<nat>, open: nat, l1Bits: nat, npos: nat)
    requires FreeListOk(units, useds, heads, open, l1Bits) && Free(useds, open, npos)
    ensures units[npos].base < |units| && units[npos].check < |units| && L1(l1Bits, npos) < |heads|
    ensures FreeListOk(Unlink(units, npos), useds[npos := true], DropHead(heads, l1Bits, npos, units[npos].base), open,
        l1Bits)
    ensures forall i: nat {:trigger Free(useds[npos := true], open, i)} ::
              Free(useds[npos := true], open, i) <==> Free(useds, open, i) && i != npos
    ensures forall i: nat | i < |units| && !Listed(useds, open, i) :: Unlink(units, npos)[i] == units[i]
    ensures Unlink(units, npos)[npos] == units[npos]
  {
    UnlinkKeepsList(units, useds, open, npos);
    UnlinkKeepsHeads(units, useds, heads, open, l1Bits, npos);
  }

  /** A slot outside the list may be rewritten freely. */
  lemma RewriteUnlisted(units: seq<Unit>, useds: seq<bool>, open: nat, x: nat, u: Unit)
    requires ListOk(units, useds, open)
    requires x < |units| && !Listed(useds, open, x)
    ensures ListOk(units[x := u], useds, open)
  {
    forall i: nat | Listed(useds, open, i)
      ensures i < |units| && NextOk(units[x := u], useds, open, i) && PrevOk(units[x := u], useds, open, i)
    {
    }
  }

  /** Closing one slot: it leaves the list and the boundary moves past it. */
  lemma CloseSlot(units: seq<Unit>, useds: seq<bool>, heads: seq<nat>, open: nat, l1Bits: nat)
    requires FreeListOk(units, useds, heads, open, l1Bits)
    requires open < |units| && !useds[open]
    ensures units[open].base < |units| && units[open].check < |units| && L1(l1Bits, open) < |heads|
    ensures FreeListOk(Unlink(units, open)[open := Unit(open, open)], useds,
                       DropHead(heads, l1Bits, open, units[open].base), open + 1, l1Bits)
    ensures forall i: nat | i < |units| && !Listed(useds, open, i) :: Unlink(units, open)[i] == units[i]
  {
    UnlinkKeepsFreeList(units, useds, heads, open, l1Bits, open);
    var units', useds' := Unlink(units, open), useds[open := true];
    var heads' := DropHead(heads, l1Bits, open, units[open].base);
    RewriteUnlisted(units', useds', open, open, Unit(open, open));
    SameFree(units'[open := Unit(open, open)], useds', heads', open, useds, open + 1, l1Bits);
  }

  /** The list depends on the set of free slots only. */
  lemma SameFree(units: seq<Unit>, useds: seq<bool>, heads: seq<nat>, open: nat, useds': seq<bool>, open': nat,
      l1Bits: nat)
    requires ListOk(units, useds, open) && HeadsOk(heads, useds, open, l1Bits)
    requires |useds'| == |useds| && open' <= |useds| && useds'[0] && useds'[TABOO]
    requires forall i: nat :: Free(useds, open, i) <==> Free(useds', open', i)
    ensures ListOk(units, useds', open') && HeadsOk(heads, useds', open', l1Bits)
  {
    forall i: nat | Listed(useds', open', i)
      ensures i < |units| && NextOk(units, useds', open', i) && PrevOk(units, useds', open', i)
    {
      assert Listed(useds, open, i);
    }
    forall l: nat | l < |heads| ensures HeadOk(heads, useds', open', l1Bits, l) {
      assert HeadOk(heads, useds, open, l1Bits, l);
    }
  }

  /** The boundary may pass slots that are not free. */
  lemma SkipTo(units: seq<Unit>, useds: seq<bool>, heads: seq<nat>, open: nat, open': nat, l1Bits: nat)
    requires FreeListOk(units, useds, heads, open, l1Bits)
    requires open <= open' <= |units| && NoFree(useds, open, open, open')
    ensures FreeListOk(units, useds, heads, open', l1Bits)
  {
    forall i: nat ensures Free(useds, open, i) <==> Free(useds, open', i) {}
    SameFree(units, useds, heads, open, useds, open', l1Bits);
    forall i: nat | i < open' && !useds[i] ensures units[i] == Unit(i, i) {
      assert !Free(useds, open, i);
    }
  }

  // ---------- expand ----------

  function FreshUnits(from: nat, count: nat): (r: seq<Unit>)
    requires from > 0
    ensures |r| == count
    ensures forall i :: 0 <= i < count ==> r[i] == Unit(from + i + 1, from + i - 1)
  {
    seq(count, i requires 0 <= i < count => Unit(from + i + 1, from + i - 1))
  }

  function Falses(count: nat): (r: seq<bool>)
    ensures |r| == count && forall i :: 0 <= i < count ==> !r[i]
  {
    seq(count, i => false)
  }

  /** The units after 256 fresh slots are spliced in before the sentinel. */
  function Spliced(units: seq<Unit>): (r: seq<Unit>)
    requires |units| > TABOO && units[TABOO].check < |units|
    ensures |r| == |units| + 256
  {
    var oldSize := |units|;
    var all := units + FreshUnits(oldSize, 256);
    var last := units[TABOO].check;
    var a := all[oldSize := all[oldSize].(check := last)];
    var b := a[last := a[last].(base := oldSize)];
    var c := b[oldSize + 255 := b[oldSize + 255].(base := TABOO)];
    c[TABOO := c[TABOO].(check := oldSize + 255)]
  }

  lemma SpliceKeepsList(units: seq<Unit>, useds: seq<bool>, open: nat)
    requires ListOk(units, useds, open)
    ensures units[TABOO].check < |units|
    ensures ListOk(Spliced(units), useds + Falses(256), open)
    ensures forall i: nat {:trigger Free(useds + Falses(256), open, i)} ::
              Free(useds + Falses(256), open, i) <==> Free(useds, open, i) || |units| <= i < |units| + 256
    ensures forall i: nat | i < |units| && !Listed(useds, open, i) :: Spliced(units)[i] == units[i]
  {
    assert Listed(useds, open, TABOO);
    var last := units[TABOO].check;
    assert Listed(useds, open, last);
    var units', useds' := Spliced(units), useds + Falses(256);
    var n := |units|;
    forall i: nat ensures Free(useds', open, i) <==> Free(useds, open, i) || n <= i < n + 256 {}
    forall i: nat | Listed(useds', open, i)
      ensures i < |units'| && NextOk(units', useds', open, i) && PrevOk(units', useds', open, i)
    {
      if i < n {
        assert Listed(useds, open, i);
        assert units'[i].base == if i == last then n else units[i].base;
        assert i != TABOO ==> units'[i].check == units[i].check;
        assert i != last ==> units[i].base != TABOO;
      } else {
        assert units'[i].base == if i == n + 255 then TABOO else i + 1;
        assert units'[i].check == if i == n then last else i - 1;
      }
    }
  }

  /** The heads of the L1 blocks of 256 fresh slots. */
  function FreshHeads(l1Bits: nat, size: nat): (r: seq<nat>) {
    if l1Bits == 7 then [size, size + 128] else [size]
  }

  lemma SpliceKeepsHeads(useds: seq<bool>, heads: seq<nat>, open: nat, l1Bits: nat)
    requires HeadsOk(heads, useds, open, l1Bits) && |useds| % 256 == 0 && |useds| >= 256 && open <= |useds|
    ensures HeadsOk(heads + FreshHeads(l1Bits, |useds|), useds + Falses(256), open, l1Bits)
  {
    var heads', useds' := heads + FreshHeads(l1Bits, |useds|), useds + Falses(256);
    var n := |useds|;
    forall i: nat ensures Free(useds', open, i) <==> Free(useds, open, i) || n <= i < n + 256 {}
    assert n == 256 * (n / 256);
    L1Value(l1Bits, n);
    L1Value(l1Bits, n + 256);
    forall l: nat | l < |heads'| ensures HeadOk(heads', useds', open, l1Bits, l) {
      if l < |heads| {
        assert HeadOk(heads, useds, open, l1Bits, l);
        forall i: nat | n <= i ensures L1(l1Bits, i) != l {
          L1Mono(l1Bits, n, i);
        }
      } else {
        FreshHead(n, l1Bits, l);
      }
    }
  }

  /** The heads of fresh blocks are their first slots. */
  lemma FreshHead(n: nat, l1Bits: nat, l: nat)
    requires (l1Bits == 7 || l1Bits == 8) && n % 256 == 0 && L1(l1Bits, n) <= l < L1(l1Bits, n + 256)
    ensures l - L1(l1Bits, n) < |FreshHeads(l1Bits, n)|
    ensures var h := FreshHeads(l1Bits, n)[l - L1(l1Bits, n)];
            n <= h < n + 256 && L1(l1Bits, h) == l && forall i: nat :: L1(l1Bits, i) == l ==> h <= i < n + 256
  {
    var q := n / 256;
    assert n == 256 * q;
    L1Value(l1Bits, n);
    L1Value(l1Bits, n + 256);
    forall i: nat ensures L1(l1Bits, i) == if l1Bits == 7 then i / 128 else i / 256 {
      L1Value(l1Bits, i);
    }
    if l1Bits == 7 {
      assert n / 128 == 2 * q && (n + 128) / 128 == 2 * q + 1 && (n + 256) / 128 == 2 * q + 2;
    } else {
      assert (n + 256) / 256 == q + 1;
    }
  }

  lemma SpliceKeepsFreeList(units: seq<Unit>, useds: seq<bool>, heads: seq<nat>, open: nat, l1Bits: nat)
    requires FreeListOk(units, useds, heads, open, l1Bits)
    ensures units[TABOO].check < |units|
    ensures FreeListOk(Spliced(units), useds + Falses(256), heads + FreshHeads(l1Bits, |units|), open, l1Bits)
    ensures forall i: nat {:trigger Free(useds + Falses(256), open, i)} ::
              Free(useds + Falses(256), open, i) <==> Free(useds, open, i) || |units| <= i < |units| + 256
    ensures forall i: nat | i < |units| && !Listed(useds, open, i) :: Spliced(units)[i] == units[i]
  {
    SpliceKeepsList(units, useds, open);
    SpliceKeepsHeads(useds, heads, open, l1Bits);
    var units', useds' := Spliced(units), useds + Falses(256);
    forall i: nat | i < |units'| && i < open && !useds'[i] ensures units'[i] == Unit(i, i) {
      assert !Listed(useds, open, i);
    }
  }

  // ---------- the initial list ----------

  /** The first block once the root and the sentinel are taken out of it. */
  ghost predicate RootFixed(units: seq<Unit>, useds: seq<bool>, heads: seq<nat>, l1Bits: nat) {
    && (l1Bits == 7 || l1Bits == 8) && |units| == |useds| == 256
    && units[0].check == TABOO && units[TABOO] == Unit(2, 255) && units[255] == Unit(TABOO, 254)
    && (forall i: nat {:trigger units[i]} :: 2 <= i < 255 ==> units[i] == Unit(i + 1, i - 1))
    && (forall i :: 0 <= i < 256 ==> (useds[i] <==> i < 2))
    && heads == if l1Bits == 7 then [2, 128] else [2]
  }

  lemma RootFixedIsList(units: seq<Unit>, useds: seq<bool>, heads: seq<nat>, l1Bits: nat)
    requires RootFixed(units, useds, heads, l1Bits)
    ensures FreeListOk(units, useds, heads, 0, l1Bits)
  {
    L1Value(l1Bits, 256);
    forall l: nat | l < |heads| ensures HeadOk(heads, useds, 0, l1Bits, l) {
      L1Value(l1Bits, heads[l]);
      forall i: nat | Free(useds, 0, i) && L1(l1Bits, i) == l ensures heads[l] <= i {
        L1Value(l1Bits, i);
      }
    }
  }
}
