/** Seven 9-bit fields in one 64-bit word, as Rank9 packs the sub-ranks of a block. */
module Packed {
  import opened Bits

  /** Fields of w bits; fields[0] is the most significant. */
  function Pack(fields: seq<nat>, w: nat): nat {
    if fields == [] then 0 else Shift(Pack(fields[..|fields| - 1], w), w) + fields[|fields| - 1]
  }

  ghost predicate FieldsOk(fields: seq<nat>, w: nat) {
    forall i :: 0 <= i < |fields| ==> fields[i] < Pow2(w)
  }

  lemma {:induction false} ShiftBound(x: nat, k: nat, y: nat, n: nat)
    requires x < Pow2(n) && y < Pow2(k)
    ensures Shift(x, k) + y < Pow2(n + k)
    decreases k
  {
    if k > 0 {
      ShiftBound(x, k - 1, y / 2, n);
    }
  }

  lemma {:induction false} PackBound(fields: seq<nat>, w: nat)
    requires FieldsOk(fields, w)
    ensures Pack(fields, w) < Pow2(w * |fields|)
  {
    if fields != [] {
      var front := fields[..|fields| - 1];
      PackBound(front, w);
      ShiftBound(Pack(front, w), w, fields[|fields| - 1], w * |front|);
      assert w * |front| + w == w * |fields|;
    }
  }

  lemma {:induction false} ShrAdd(x: nat, j: nat, k: nat)
    ensures Shr(x, j + k) == Shr(Shr(x, j), k)
    decreases j
  {
    if j > 0 {
      ShrAdd(x / 2, j - 1, k);
    }
  }

  lemma {:induction false} ShrZero(k: nat)
    ensures Shr(0, k) == 0
    decreases k
  {
    if k > 0 {
      ShrZero(k - 1);
    }
  }

  function Times(w: nat, n: nat): nat {
    if n == 0 then 0 else w + Times(w, n - 1)
  }

  /** Field k of the packed word. */
  lemma {:induction false} FieldOf(fields: seq<nat>, w: nat, k: nat)
    requires FieldsOk(fields, w) && k < |fields|
    ensures Low(Shr(Pack(fields, w), Times(w, |fields| - 1 - k)), w) == fields[k]
  {
    var front, last := fields[..|fields| - 1], fields[|fields| - 1];
    if k == |fields| - 1 {
      LowOfSum(Pack(front, w), w, last);
    } else {
      ShrOfSum(Pack(front, w), w, last);
      FieldOf(front, w, k);
      ShrAdd(Pack(fields, w), w, Times(w, |front| - 1 - k));
    }
  }

  /** Above the fields there is nothing. */
  lemma {:induction false} AboveFields(fields: seq<nat>, w: nat)
    requires FieldsOk(fields, w)
    ensures Shr(Pack(fields, w), Times(w, |fields|)) == 0
    decreases |fields|
  {
    if fields != [] {
      var front, last := fields[..|fields| - 1], fields[|fields| - 1];
      ShrOfSum(Pack(front, w), w, last);
      AboveFields(front, w);
      ShrAdd(Pack(fields, w), w, Times(w, |front|));
    }
  }

  /** Shifting one more field into an n-bit register, as the hint builder does. */
  lemma PackStep(fields: seq<nat>, w: nat, x: nat, n: nat)
    requires FieldsOk(fields, w) && x < Pow2(w) && w * (|fields| + 1) <= n
    ensures Or(Low(Shift(Pack(fields, w), w), n), x) == Pack(fields + [x], w)
    ensures FieldsOk(fields + [x], w)
  {
    PackBound(fields, w);
    ShiftBound(Pack(fields, w), w, 0, w * |fields|);
    assert w * |fields| + w == w * (|fields| + 1);
    Pow2Mono(w * (|fields| + 1), n);
    LowOfSmall(Shift(Pack(fields, w), w), n);
    OrDisjoint(Pack(fields, w), w, x);
    assert (fields + [x])[..|fields|] == fields;
  }

  // ---------- bitwise operations act field by field ----------

  /** x without the bits of y. */
  function AndNot(x: nat, y: nat): nat {
    if x == 0 then 0 else Digit(x % 2 == 1 && y % 2 == 0) + 2 * AndNot(x / 2, y / 2)
  }

  lemma {:induction false} AndNotBit(x: nat, y: nat, i: nat)
    ensures Bit(AndNot(x, y), i) <==> Bit(x, i) && !Bit(y, i)
    decreases i
  {
    if x == 0 {
      ZeroBit(i);
    } else if i > 0 {
      AndNotBit(x / 2, y / 2, i - 1);
    }
  }

  /** And with a 64-bit complement. */
  lemma AndOfNot(x: nat, y: nat, n: nat)
    requires x < Pow2(n)
    ensures And(x, Not(y, n)) == AndNot(x, y)
  {
    forall i: nat ensures Bit(And(x, Not(y, n)), i) == Bit(AndNot(x, y), i) {
      AndBit(x, Not(y, n), i);
      NotBit(y, n, i);
      AndNotBit(x, y, i);
      if n <= i { HighBitsClear(x, n, i); }
    }
    SameBits(And(x, Not(y, n)), AndNot(x, y));
  }

  lemma {:induction false} OrSplit(a: nat, x: nat, b: nat, y: nat, k: nat)
    requires x < Pow2(k) && y < Pow2(k)
    ensures Or(Shift(a, k) + x, Shift(b, k) + y) == Shift(Or(a, b), k) + Or(x, y)
    decreases k
  {
    if k > 0 {
      var s, t := Shift(a, k - 1), Shift(b, k - 1);
      assert (2 * s + x) / 2 == s + x / 2 && (2 * t + y) / 2 == t + y / 2;
      OrSplit(a, x / 2, b, y / 2, k - 1);
    }
  }

  lemma {:induction false} XorSplit(a: nat, x: nat, b: nat, y: nat, k: nat)
    requires x < Pow2(k) && y < Pow2(k)
    ensures Xor(Shift(a, k) + x, Shift(b, k) + y) == Shift(Xor(a, b), k) + Xor(x, y)
    decreases k
  {
    if k > 0 {
      var s, t := Shift(a, k - 1), Shift(b, k - 1);
      assert (2 * s + x) / 2 == s + x / 2 && (2 * t + y) / 2 == t + y / 2;
      XorSplit(a, x / 2, b, y / 2, k - 1);
    }
  }

  lemma {:induction false} AndSplit(a: nat, x: nat, b: nat, y: nat, k: nat)
    requires x < Pow2(k) && y < Pow2(k)
    ensures And(Shift(a, k) + x, Shift(b, k) + y) == Shift(And(a, b), k) + And(x, y)
    decreases k
  {
    if k > 0 {
      var s, t := Shift(a, k - 1), Shift(b, k - 1);
      assert (2 * s + x) / 2 == s + x / 2 && (2 * t + y) / 2 == t + y / 2;
      AndSplit(a, x / 2, b, y / 2, k - 1);
    }
  }

  lemma {:induction false} AndNotSplit(a: nat, x: nat, b: nat, y: nat, k: nat)
    requires x < Pow2(k) && y < Pow2(k)
    ensures AndNot(Shift(a, k) + x, Shift(b, k) + y) == Shift(AndNot(a, b), k) + AndNot(x, y)
    decreases k
  {
    if k > 0 {
      var s, t := Shift(a, k - 1), Shift(b, k - 1);
      assert (2 * s + x) / 2 == s + x / 2 && (2 * t + y) / 2 == t + y / 2;
      AndNotSplit(a, x / 2, b, y / 2, k - 1);
    }
  }

  // ---------- the packed comparison ----------

  function Repeat(x: nat, n: nat): (r: seq<nat>)
    ensures |r| == n && forall i :: 0 <= i < n ==> r[i] == x
  {
    seq(n, i => x)
  }

  function Flag(x: nat, y: nat, top: nat): nat {
    if x <= y then top else 0
  }

  function Flags(f: seq<nat>, g: seq<nat>, top: nat): (r: seq<nat>)
    requires |f| == |g|
    ensures |r| == |f| && forall i :: 0 <= i < |f| ==> r[i] == Flag(f[i], g[i], top)
  {
    seq(|f|, i requires 0 <= i < |f| => Flag(f[i], g[i], top))
  }

  /** Marks with its mask bit each field where x is at most y. */
  function Compare(x: nat, y: nat, mask: nat): nat
    requires AndNot(x, mask) <= Or(y, mask)
  {
    And(Xor(Or(Or(y, mask) - AndNot(x, mask), Xor(x, y)), AndNot(x, y)), mask)
  }

  /** d is the difference the comparison forms in one field. */
  ghost predicate Differs(x: nat, y: nat, top: nat, d: nat) {
    Or(y, top) == AndNot(x, top) + d
  }

  lemma OneDigit(a: nat, b: nat)
    requires a < 2 && b < 2
    ensures Or(a, b) == (if a == 1 || b == 1 then 1 else 0)
    ensures And(a, b) == (if a == 1 && b == 1 then 1 else 0)
    ensures Xor(a, b) == (if a != b then 1 else 0)
    ensures AndNot(a, b) == (if a == 1 && b == 0 then 1 else 0)
  {
  }

  lemma {:induction false} WithZero(x: nat)
    ensures Or(x, 0) == x && And(x, 0) == 0 && AndNot(x, 0) == x && Xor(x, 0) == x
  {
    if x > 0 {
      WithZero(x / 2);
    }
  }

  lemma SmallResults(x: nat, y: nat, k: nat)
    requires x < Pow2(k) && y < Pow2(k)
    ensures Or(x, y) < Pow2(k) && Xor(x, y) < Pow2(k) && And(x, y) < Pow2(k) && AndNot(x, y) < Pow2(k)
  {
    forall i: nat | k <= i ensures !Bit(Or(x, y), i) && !Bit(Xor(x, y), i) && !Bit(And(x, y), i)
    && !Bit(AndNot(x, y), i) {
      HighBitsClear(x, k, i);
      HighBitsClear(y, k, i);
      OrBit(x, y, i);
      XorBit(x, y, i);
      AndBit(x, y, i);
      AndNotBit(x, y, i);
    }
    BoundFromBits(Or(x, y), k);
    BoundFromBits(Xor(x, y), k);
    BoundFromBits(And(x, y), k);
    BoundFromBits(AndNot(x, y), k);
  }

  /** The mask bit k of a word with top digit h: set by Or, cleared by AndNot, isolated by And. */
  lemma MaskTop(h: nat, l: nat, k: nat)
    requires h < 2 && l < Pow2(k)
    ensures Or(Shift(h, k) + l, Shift(1, k)) == Pow2(k) + l
    ensures AndNot(Shift(h, k) + l, Shift(1, k)) == l
    ensures And(Shift(h, k) + l, Shift(1, k)) == Shift(h, k)
  {
    OrSplit(h, l, 1, 0, k);
    AndNotSplit(h, l, 1, 0, k);
    AndSplit(h, l, 1, 0, k);
    OneDigit(h, 1);
    WithZero(l);
    ShiftIsMul(1, k);
    ShiftIsMul(0, k);
  }

  /** The flag digit: the difference borrowed nothing or the tops differ, unless only x has its top. */
  lemma CompareDigits(dh: nat, dl: nat, xh: nat, xl: nat, yh: nat, yl: nat, k: nat)
    requires dh < 2 && xh < 2 && yh < 2 && dl < Pow2(k) && xl < Pow2(k) && yl < Pow2(k)
    ensures var x, y := Shift(xh, k) + xl, Shift(yh, k) + yl;
            And(Xor(Or(Shift(dh, k) + dl, Xor(x, y)), AndNot(x, y)), Shift(1, k))
              == Shift(if xh == yh then dh else yh, k)
  {
    hide Or, Xor, And, AndNot, Shift, Pow2;
    XorSplit(xh, xl, yh, yl, k);
    AndNotSplit(xh, xl, yh, yl, k);
    OneDigit(xh, yh);
    SmallResults(xl, yl, k);
    DigitsMerge(dh, dl, Xor(xh, yh), Xor(xl, yl), AndNot(xh, yh), AndNot(xl, yl), k);
  }

  lemma DigitsMerge(dh: nat, dl: nat, e: nat, el: nat, n: nat, nl: nat, k: nat)
    requires dh < 2 && e < 2 && n < 2 && dl < Pow2(k) && el < Pow2(k) && nl < Pow2(k)
    ensures And(Xor(Or(Shift(dh, k) + dl, Shift(e, k) + el), Shift(n, k) + nl), Shift(1, k))
              == Shift(if (dh == 1 || e == 1) != (n == 1) then 1 else 0, k)
  {
    hide Or, Xor, And, Shift, Pow2;
    OrSplit(dh, dl, e, el, k);
    OneDigit(dh, e);
    SmallResults(dl, el, k);
    var h, l := Or(dh, e), Or(dl, el);
    XorSplit(h, l, n, nl, k);
    OneDigit(h, n);
    SmallResults(l, nl, k);
    MaskTop(Xor(h, n), Xor(l, nl), k);
  }

  /** One field of k + 1 bits, given as its top digit and the rest. */
  lemma CompareField(x: nat, y: nat, top: nat, xh: nat, xl: nat, yh: nat, yl: nat, k: nat)
    requires xh < 2 && yh < 2 && xl < Pow2(k) && yl < Pow2(k)
    requires x == Shift(xh, k) + xl && y == Shift(yh, k) + yl && top == Shift(1, k)
    ensures AndNot(x, top) < Or(y, top) < AndNot(x, top) + Pow2(k + 1)
    ensures Compare(x, y, top) == Flag(x, y, top)
  {
    var dh, dl := if xl <= yl then 1 else 0, if xl <= yl then yl - xl else Pow2(k) + yl - xl;
    var d := Shift(dh, k) + dl;
    DifferenceOfField(x, y, top, xh, xl, yh, yl, k, dh, dl, d);
    CompareDigits(dh, dl, xh, xl, yh, yl, k);
    CompareBy(x, y, top, d);
    FlagOfDigits(x, y, top, xh, xl, yh, yl, k, Compare(x, y, top));
  }

  lemma DifferenceOfField(x: nat, y: nat, top: nat, xh: nat, xl: nat, yh: nat, yl: nat, k: nat, dh: nat, dl: nat,
      d: nat)
    requires xh < 2 && yh < 2 && xl < Pow2(k) && yl < Pow2(k)
    requires x == Shift(xh, k) + xl && y == Shift(yh, k) + yl && top == Shift(1, k)
    requires dh == (if xl <= yl then 1 else 0) && dl == (if xl <= yl then yl - xl else Pow2(k) + yl - xl)
    requires d == Shift(dh, k) + dl
    ensures Differs(x, y, top, d) && 0 < d < Pow2(k + 1)
  {
    DigitValue(dh, k);
    MaskTop(yh, yl, k);
    MaskTop(xh, xl, k);
  }

  lemma DigitValue(h: nat, k: nat)
    requires h < 2
    ensures Shift(h, k) == (if h == 0 then 0 else Pow2(k)) && Pow2(k + 1) == 2 * Pow2(k)
  {
    ShiftIsMul(h, k);
  }

  lemma FlagOfDigits(x: nat, y: nat, top: nat, xh: nat, xl: nat, yh: nat, yl: nat, k: nat, c: nat)
    requires xh < 2 && yh < 2 && xl < Pow2(k) && yl < Pow2(k)
    requires x == Shift(xh, k) + xl && y == Shift(yh, k) + yl && top == Shift(1, k)
    requires c == Shift(if xh == yh then (if xl <= yl then 1 else 0) else yh, k)
    ensures c == Flag(x, y, top)
  {
    ShiftIsMul(1, k);
    ShiftIsMul(0, k);
  }

  /** Compare, with the difference under a name. */
  lemma CompareBy(x: nat, y: nat, mask: nat, d: nat)
    requires Differs(x, y, mask, d)
    ensures Compare(x, y, mask) == And(Xor(Or(d, Xor(x, y)), AndNot(x, y)), mask)
  {
  }

  /** A word is its top digit and the rest. */
  lemma TopDigit(x: nat, k: nat) returns (h: nat, l: nat)
    requires x < Pow2(k + 1)
    ensures h < 2 && l < Pow2(k) && x == Shift(h, k) + l
  {
    ShiftIsMul(1, k);
    ShiftIsMul(0, k);
    if x < Pow2(k) {
      h, l := 0, x;
    } else {
      h, l := 1, x - Pow2(k);
    }
  }

  // ---------- the operations on packed words, one at a time ----------

  lemma {:induction false} OrPack(f: seq<nat>, g: seq<nat>, r: seq<nat>, w: nat)
    requires FieldsOk(f, w) && FieldsOk(g, w) && |f| == |g| == |r| && forall i :: 0 <= i < |r| ==>
               r[i] == Or(f[i], g[i])
    ensures Or(Pack(f, w), Pack(g, w)) == Pack(r, w) && FieldsOk(r, w)
  {
    if f != [] {
      var n := |f| - 1;
      OrPack(f[..n], g[..n], r[..n], w);
      OrSplit(Pack(f[..n], w), f[n], Pack(g[..n], w), g[n], w);
      SmallResults(f[n], g[n], w);
      forall i | 0 <= i < |r| ensures r[i] < Pow2(w) {
        if i < n { assert r[..n][i] == r[i]; }
      }
    }
  }

  lemma {:induction false} XorPack(f: seq<nat>, g: seq<nat>, r: seq<nat>, w: nat)
    requires FieldsOk(f, w) && FieldsOk(g, w) && |f| == |g| == |r| && forall i :: 0 <= i < |r| ==>
               r[i] == Xor(f[i], g[i])
    ensures Xor(Pack(f, w), Pack(g, w)) == Pack(r, w) && FieldsOk(r, w)
  {
    if f != [] {
      var n := |f| - 1;
      XorPack(f[..n], g[..n], r[..n], w);
      XorSplit(Pack(f[..n], w), f[n], Pack(g[..n], w), g[n], w);
      SmallResults(f[n], g[n], w);
      forall i | 0 <= i < |r| ensures r[i] < Pow2(w) {
        if i < n { assert r[..n][i] == r[i]; }
      }
    }
  }

  lemma {:induction false} AndPack(f: seq<nat>, g: seq<nat>, r: seq<nat>, w: nat)
    requires FieldsOk(f, w) && FieldsOk(g, w) && |f| == |g| == |r| && forall i :: 0 <= i < |r| ==>
               r[i] == And(f[i], g[i])
    ensures And(Pack(f, w), Pack(g, w)) == Pack(r, w) && FieldsOk(r, w)
  {
    hide And, Pow2;
    AndZero(0);
    if f != [] {
      var n := |f| - 1;
      AndPack(f[..n], g[..n], r[..n], w);
      AndSplit(Pack(f[..n], w), f[n], Pack(g[..n], w), g[n], w);
      SmallResults(f[n], g[n], w);
      forall i | 0 <= i < |r| ensures r[i] < Pow2(w) {
        if i < n { assert r[..n][i] == r[i]; }
      }
    }
  }

  lemma AndNotZero()
    ensures AndNot(0, 0) == 0
  {
  }

  lemma {:induction false} AndNotPack(f: seq<nat>, g: seq<nat>, r: seq<nat>, w: nat)
    requires FieldsOk(f, w) && FieldsOk(g, w) && |f| == |g| == |r| && forall i :: 0 <= i < |r| ==>
               r[i] == AndNot(f[i], g[i])
    ensures AndNot(Pack(f, w), Pack(g, w)) == Pack(r, w) && FieldsOk(r, w)
  {
    hide AndNot, Pow2;
    AndNotZero();
    if f != [] {
      var n := |f| - 1;
      AndNotPack(f[..n], g[..n], r[..n], w);
      AndNotSplit(Pack(f[..n], w), f[n], Pack(g[..n], w), g[n], w);
      SmallResults(f[n], g[n], w);
      forall i | 0 <= i < |r| ensures r[i] < Pow2(w) {
        if i < n { assert r[..n][i] == r[i]; }
      }
    }
  }

  /** Subtraction that never borrows between fields. */
  lemma {:induction false} SubPack(f: seq<nat>, g: seq<nat>, r: seq<nat>, w: nat)
    requires |f| == |g| == |r| && forall i :: 0 <= i < |r| ==> g[i] + r[i] == f[i]
    ensures Pack(g, w) + Pack(r, w) == Pack(f, w)
  {
    if f != [] {
      var n := |f| - 1;
      SubPack(f[..n], g[..n], r[..n], w);
      ShiftSub(Pack(f[..n], w), Pack(g[..n], w), w);
      assert Pack(f[..n], w) - Pack(g[..n], w) == Pack(r[..n], w);
    }
  }

  lemma {:induction false} ShiftSub(p: nat, q: nat, k: nat)
    requires q <= p
    ensures Shift(q, k) <= Shift(p, k) && Shift(p, k) - Shift(q, k) == Shift(p - q, k)
    decreases k
  {
    if k > 0 {
      ShiftSub(p, q, k - 1);
    }
  }

  function Zip(f: seq<nat>, g: seq<nat>, op: (nat, nat) -> nat): (r: seq<nat>)
    requires |f| == |g|
    ensures |r| == |f| && forall i :: 0 <= i < |f| ==> r[i] == op(f[i], g[i])
  {
    seq(|f|, i requires 0 <= i < |f| => op(f[i], g[i]))
  }

  lemma TopFits(k: nat)
    ensures Shift(1, k) < Pow2(k + 1)
  {
    ShiftIsMul(1, k);
  }

  lemma FieldDifference(x: nat, y: nat, k: nat) returns (d: nat)
    requires x < Pow2(k + 1) && y < Pow2(k + 1)
    ensures Differs(x, y, Shift(1, k), d) && d < Pow2(k + 1)
    ensures And(Xor(Or(d, Xor(x, y)), AndNot(x, y)), Shift(1, k)) == Flag(x, y, Shift(1, k))
  {
    var xh, xl := TopDigit(x, k);
    var yh, yl := TopDigit(y, k);
    var top := Shift(1, k);
    CompareField(x, y, top, xh, xl, yh, yl, k);
    d := Or(y, top) - AndNot(x, top);
    CompareBy(x, y, top, d);
  }

  ghost predicate FieldDone(x: nat, y: nat, top: nat, d: nat) {
    And(Xor(Or(d, Xor(x, y)), AndNot(x, y)), top) == Flag(x, y, top)
  }

  /** The differences of all fields, packed. */
  lemma {:induction false} Differences(f: seq<nat>, g: seq<nat>, k: nat) returns (d: seq<nat>)
    requires |f| == |g| && FieldsOk(f, k + 1) && FieldsOk(g, k + 1)
    ensures |d| == |f| && FieldsOk(d, k + 1)
    ensures forall i :: 0 <= i < |f| ==>
              Differs(f[i], g[i], Shift(1, k), d[i]) && FieldDone(f[i], g[i], Shift(1, k), d[i])
  {
    if f == [] {
      d := [];
    } else {
      var n := |f| - 1;
      d := Differences(f[..n], g[..n], k);
      var last := FieldDifference(f[n], g[n], k);
      d := d + [last];
      forall i | 0 <= i < |f| ensures Differs(f[i], g[i], Shift(1, k), d[i])
      && FieldDone(f[i], g[i], Shift(1, k), d[i]) {
        if i < n { assert f[..n][i] == f[i] && g[..n][i] == g[i]; }
      }
    }
  }

  lemma PackDifferences(f: seq<nat>, g: seq<nat>, d: seq<nat>, k: nat)
    requires |f| == |g| == |d| && FieldsOk(f, k + 1) && FieldsOk(g, k + 1)
    requires forall i :: 0 <= i < |f| ==> Differs(f[i], g[i], Shift(1, k), d[i])
    ensures Differs(Pack(f, k + 1), Pack(g, k + 1), Pack(Repeat(Shift(1, k), |f|), k + 1), Pack(d, k + 1))
  {
    var w, m := k + 1, Repeat(Shift(1, k), |f|);
    TopFits(k);
    assert FieldsOk(m, w);
    var o := Zip(g, m, (x, y) => Or(x, y));
    var n := Zip(f, m, (x, y) => AndNot(x, y));
    OrPack(g, m, o, w);
    AndNotPack(f, m, n, w);
    forall i | 0 <= i < |f| ensures n[i] + d[i] == o[i] {
      assert Differs(f[i], g[i], Shift(1, k), d[i]);
    }
    SubPack(o, n, d, w);
  }

  /** Everything but the final mask. */
  lemma PackMerged(f: seq<nat>, g: seq<nat>, d: seq<nat>, w: nat) returns (v: seq<nat>)
    requires |f| == |g| == |d| && FieldsOk(f, w) && FieldsOk(g, w) && FieldsOk(d, w)
    ensures |v| == |f| && FieldsOk(v, w)
    ensures forall i :: 0 <= i < |f| ==> v[i] == Xor(Or(d[i], Xor(f[i], g[i])), AndNot(f[i], g[i]))
    ensures Pack(v, w) == Xor(Or(Pack(d, w), Xor(Pack(f, w), Pack(g, w))), AndNot(Pack(f, w), Pack(g, w)))
  {
    var e := Zip(f, g, (x, y) => Xor(x, y));
    XorPack(f, g, e, w);
    var u := Zip(d, e, (x, y) => Or(x, y));
    OrPack(d, e, u, w);
    var a := Zip(f, g, (x, y) => AndNot(x, y));
    AndNotPack(f, g, a, w);
    v := Zip(u, a, (x, y) => Xor(x, y));
    XorPack(u, a, v, w);
  }

  lemma PackFlags(f: seq<nat>, g: seq<nat>, d: seq<nat>, k: nat)
    requires |f| == |g| == |d| && FieldsOk(f, k + 1) && FieldsOk(g, k + 1) && FieldsOk(d, k + 1)
    requires forall i :: 0 <= i < |f| ==> FieldDone(f[i], g[i], Shift(1, k), d[i])
    ensures And(Xor(Or(Pack(d, k + 1), Xor(Pack(f, k + 1), Pack(g, k + 1))), AndNot(Pack(f, k + 1), Pack(g, k + 1))),
                Pack(Repeat(Shift(1, k), |f|), k + 1))
              == Pack(Flags(f, g, Shift(1, k)), k + 1)
  {
    var w, top := k + 1, Shift(1, k);
    TopFits(k);
    var v := PackMerged(f, g, d, w);
    var r := Flags(f, g, top);
    forall i | 0 <= i < |f| ensures And(v[i], top) == r[i] {
      assert FieldDone(f[i], g[i], top, d[i]);
    }
    MaskFlags(v, r, top, w);
  }

  lemma MaskFlags(v: seq<nat>, r: seq<nat>, top: nat, w: nat)
    requires |v| == |r| && FieldsOk(v, w) && top < Pow2(w)
    requires forall i :: 0 <= i < |v| ==> And(v[i], top) == r[i]
    ensures And(Pack(v, w), Pack(Repeat(top, |v|), w)) == Pack(r, w)
  {
    var m := Repeat(top, |v|);
    assert FieldsOk(m, w);
    AndPack(v, m, r, w);
  }

  /** The packed comparison flags exactly the fields of f that are at most those of g. */
  lemma CompareFields(f: seq<nat>, g: seq<nat>, k: nat)
    requires |f| == |g| && FieldsOk(f, k + 1) && FieldsOk(g, k + 1)
    ensures var mask := Pack(Repeat(Shift(1, k), |f|), k + 1);
            && AndNot(Pack(f, k + 1), mask) <= Or(Pack(g, k + 1), mask)
            && Compare(Pack(f, k + 1), Pack(g, k + 1), mask) == Pack(Flags(f, g, Shift(1, k)), k + 1)
  {
    var d := Differences(f, g, k);
    PackDifferences(f, g, d, k);
    PackFlags(f, g, d, k);
    var p, q, mask, dd := Pack(f, k + 1), Pack(g, k + 1), Pack(Repeat(Shift(1, k), |f|), k + 1), Pack(d, k + 1);
    assert Differs(p, q, mask, dd);
    CompareBy(p, q, mask, dd);
  }

  // ---------- the constants and the step used by select ----------

  /** 1 in each of the seven 9-bit fields. */
  function OnesStep9(): nat {
    Pack(Repeat(1, 7), 9)
  }

  /** The top bit of each of the seven fields. */
  function MsbsStep9(): nat {
    Pack(Repeat(Shift(1, 8), 7), 9)
  }

  function Sub64(x: nat, y: nat): nat {
    if y <= x then x - y else (x + WORD_SIZE * (1 + y / WORD_SIZE) - y) % WORD_SIZE
  }

  /** Field by field: 1 where x is at most y, else 0; m masks the top bit, number k, of each field. */
  function Uleq(x: nat, y: nat, m: nat, k: nat, n: nat): nat {
    Shr(And(Xor(Or(Sub64(Or(y, m), And(x, Not(m, n))), Xor(x, y)), And(x, Not(y, n))), m), k)
  }

  function UleqStep9(x: nat, y: nat): nat {
    Uleq(x, y, MsbsStep9(), 8, 64)
  }

  function UpTo(f: seq<nat>, v: nat): (r: seq<nat>)
    ensures |r| == |f| && forall i :: 0 <= i < |f| ==> r[i] == if f[i] <= v then 1 else 0
  {
    seq(|f|, i requires 0 <= i < |f| => if f[i] <= v then 1 else 0)
  }

  lemma {:induction false} ShiftAdd(x: nat, y: nat, k: nat)
    ensures Shift(x + y, k) == Shift(x, k) + Shift(y, k)
    decreases k
  {
    if k > 0 {
      ShiftAdd(x, y, k - 1);
    }
  }

  lemma {:induction false} ShiftShift(x: nat, j: nat, k: nat)
    ensures Shift(Shift(x, j), k) == Shift(Shift(x, k), j)
    decreases k
  {
    ShiftIsMul(x, j);
    ShiftIsMul(x, k);
    ShiftIsMul(Shift(x, j), k);
    ShiftIsMul(Shift(x, k), j);
    assert x * Pow2(j) * Pow2(k) == x * Pow2(k) * Pow2(j);
  }

  /** Shifting every field shifts the word. */
  lemma {:induction false} PackOfShifted(f: seq<nat>, r: seq<nat>, w: nat, k: nat)
    requires |f| == |r| && forall i :: 0 <= i < |f| ==> r[i] == Shift(f[i], k)
    ensures Pack(r, w) == Shift(Pack(f, w), k)
  {
    if f == [] {
      ShiftIsMul(0, k);
    } else {
      var n := |f| - 1;
      PackOfShifted(f[..n], r[..n], w, k);
      ShiftShift(Pack(f[..n], w), k, w);
      ShiftAdd(Shift(Pack(f[..n], w), w), f[n], k);
    }
  }

  /** Scaling the word of ones gives the word of v. */
  lemma {:induction false} PackOfScaled(v: nat, n: nat, w: nat)
    ensures v * Pack(Repeat(1, n), w) == Pack(Repeat(v, n), w)
  {
    if n > 0 {
      PackOfScaled(v, n - 1, w);
      assert Repeat(1, n)[..n - 1] == Repeat(1, n - 1);
      assert Repeat(v, n)[..n - 1] == Repeat(v, n - 1);
      var p := Pack(Repeat(1, n - 1), w);
      ShiftIsMul(p, w);
      ShiftIsMul(v * p, w);
      Distribute(v, p, Pow2(w));
    } else {
      assert Repeat(1, 0) == [] && Repeat(v, 0) == [];
    }
  }

  lemma Distribute(v: nat, p: nat, q: nat)
    ensures v * (p * q + 1) == v * p * q + v
  {
  }

  lemma UleqByCompare(p: nat, q: nat, m: nat, k: nat, n: nat)
    requires p < Pow2(n) && AndNot(p, m) <= Or(q, m)
    ensures Uleq(p, q, m, k, n) == Shr(Compare(p, q, m), k)
  {
    AndOfNot(p, m, n);
    AndOfNot(p, q, n);
  }

  /** The comparison of a packed word with copies of v, for any width. */
  lemma UleqFields(f: seq<nat>, v: nat, k: nat, n: nat)
    requires FieldsOk(f, k + 1) && v < Pow2(k + 1) && (k + 1) * |f| <= n
    ensures Uleq(Pack(f, k + 1), Pack(Repeat(v, |f|), k + 1), Pack(Repeat(Shift(1, k), |f|), k + 1), k, n)
              == Pack(UpTo(f, v), k + 1)
  {
    var w, g := k + 1, Repeat(v, |f|);
    assert FieldsOk(g, w);
    PackBound(f, w);
    Pow2Mono(w * |f|, n);
    CompareFields(f, g, k);
    UleqByCompare(Pack(f, w), Pack(g, w), Pack(Repeat(Shift(1, k), |f|), w), k, n);
    var r, b := Flags(f, g, Shift(1, k)), UpTo(f, v);
    ShiftIsMul(0, k);
    forall i | 0 <= i < |f| ensures r[i] == Shift(b[i], k) {}
    PackOfShifted(b, r, w, k);
    ShrOfShift(Pack(b, w), k);
  }

  /** Number of fields at most v. */
  function CountUpTo(f: seq<nat>, v: nat): (r: nat)
    ensures r <= |f|
  {
    if f == [] then 0 else CountUpTo(f[..|f| - 1], v) + (if f[|f| - 1] <= v then 1 else 0)
  }

  /** In an ascending list the fields at most v come first. */
  lemma {:induction false} CountSplits(f: seq<nat>, v: nat)
    requires forall i, j :: 0 <= i < j < |f| ==> f[i] <= f[j]
    ensures var c := CountUpTo(f, v);
            (forall i :: 0 <= i < c ==> f[i] <= v) && (forall i :: c <= i < |f| ==> v < f[i])
  {
    if f != [] {
      CountSplits(f[..|f| - 1], v);
    }
  }

  lemma Shift9(x: nat)
    ensures Shift(x, 9) == 512 * x
  {
    ShiftIsMul(x, 9);
    Pow2Values();
  }

  lemma PackSnoc(f: seq<nat>, x: nat)
    ensures Pack(f + [x], 9) == 512 * Pack(f, 9) + x
  {
    assert (f + [x])[..|f|] == f;
    Shift9(Pack(f, 9));
  }

  /** A word of seven fields, as a number. */
  lemma Pack7(a: nat, b: nat, c: nat, d: nat, e: nat, f: nat, g: nat)
    ensures Pack([a, b, c, d, e, f, g], 9)
              == 512 * (512 * (512 * (512 * (512 * (512 * a + b) + c) + d) + e) + f) + g
  {
    PackSnoc([], a);
    PackSnoc([a], b);
    PackSnoc([a, b], c);
    PackSnoc([a, b, c], d);
    PackSnoc([a, b, c, d], e);
    PackSnoc([a, b, c, d, e], f);
    PackSnoc([a, b, c, d, e, f], g);
    assert [] + [a] == [a] && [a] + [b] == [a, b] && [a, b] + [c] == [a, b, c];
    assert [a, b, c] + [d] == [a, b, c, d] && [a, b, c, d] + [e] == [a, b, c, d, e];
    assert [a, b, c, d, e] + [f] == [a, b, c, d, e, f] && [a, b, c, d, e, f] + [g] == [a, b, c, d, e, f, g];
  }

  lemma OnesStep9Value()
    ensures OnesStep9() == 0x0040_2010_0804_0201
  {
    assert Repeat(1, 7) == [1, 1, 1, 1, 1, 1, 1];
    Pack7(1, 1, 1, 1, 1, 1, 1);
  }

  /** The field sum of a word of seven flags appears in its top field once multiplied by the word of ones. */
  lemma SumByMultiplication(a: nat, b: nat, c: nat, d: nat, e: nat, f: nat, g: nat, p: nat)
    requires a <= 1 && b <= 1 && c <= 1 && d <= 1 && e <= 1 && f <= 1 && g <= 1
    requires p == 512 * (512 * (512 * (512 * (512 * (512 * a + b) + c) + d) + e) + f) + g
    ensures p * 0x0040_2010_0804_0201 % WORD_SIZE / 0x40_0000_0000_0000 % 8 == a + b + c + d + e + f + g
  {
    var s := a + b + c + d + e + f + g;
    // the product, by powers of 512
    var low := g + 512 * ((f + g) + 512 * ((e + f + g) + 512 * ((d + e + f + g) + 512 * ((c + d + e + f + g)
                 + 512 * (b + c + d + e + f + g)))));
    var high := (a + b + c + d + e + f) + 512 * ((a + b + c + d + e) + 512 * ((a + b + c + d) + 512 * ((a + b + c)
                  + 512 * ((a + b) + 512 * a))));
    assert low < 0x40_0000_0000_0000;
    var top := 0x8000_0000_0000_0000;
    assert p * 0x0040_2010_0804_0201 == high * top + s * 0x40_0000_0000_0000 + low;
    TopField(high, s, low, p * 0x0040_2010_0804_0201);
  }

  lemma TopField(high: nat, s: nat, low: nat, x: nat)
    requires s < 8 && low < 0x40_0000_0000_0000
    requires x == high * 0x8000_0000_0000_0000 + s * 0x40_0000_0000_0000 + low
    ensures x % WORD_SIZE / 0x40_0000_0000_0000 % 8 == s
  {
    var r := (high % 2) * 0x8000_0000_0000_0000 + s * 0x40_0000_0000_0000 + low;
    assert x == (high / 2) * WORD_SIZE + r && 0 <= r < WORD_SIZE;
    assert x % WORD_SIZE == r;
    assert r / 0x40_0000_0000_0000 == (high % 2) * 512 + s;
  }

  lemma Pow2Of54()
    ensures Pow2(54) == 0x40_0000_0000_0000
  {
    assert Pow2(27) == 0x800_0000 by {
      assert Pow2(9) == 512;
      Pow2Add(9, 9);
      Pow2Add(18, 9);
    }
    Pow2Add(27, 27);
  }

  lemma ShrBy54(x: nat)
    ensures Shr(x, 54) == x / 0x40_0000_0000_0000
  {
    Split(x, 54);
    ShiftIsMul(Shr(x, 54), 54);
    LowBound(x, 54);
    Pow2Of54();
    QuotientBy54(x, Shr(x, 54), Low(x, 54));
  }

  lemma QuotientBy54(x: nat, q: nat, r: nat)
    requires x == q * 0x40_0000_0000_0000 + r && r < 0x40_0000_0000_0000
    ensures x / 0x40_0000_0000_0000 == q
  {
  }

  lemma AndSeven(x: nat)
    ensures And(x, 7) == x % 8
  {
    assert Pow2(3) == 8;
    AndMask(x, 3);
    assert Low(x, 3) == x % 2 + 2 * Low(x / 2, 2);
    assert Low(x / 2, 2) == x / 2 % 2 + 2 * Low(x / 2 / 2, 1);
    assert Low(x / 2 / 2, 1) == x / 2 / 2 % 2;
  }

  /** The sub-block offset of select: product with the word of ones, top field, three bits. */
  function SubBlockOffset(subRanks: nat, v: nat): nat {
    And(Shr(UleqStep9(subRanks, v * OnesStep9() % WORD_SIZE) * OnesStep9() % WORD_SIZE, 54), 7)
  }

  /** It counts the sub-ranks at most v. */
  lemma OffsetCounts(f: seq<nat>, v: nat)
    requires |f| == 7 && FieldsOk(f, 9) && v < 512
    ensures SubBlockOffset(Pack(f, 9), v) == CountUpTo(f, v)
  {
    assert Pow2(9) == 512;
    UleqIsUpTo(f, v);
    var u := UpTo(f, v);
    assert u == [u[0], u[1], u[2], u[3], u[4], u[5], u[6]];
    Pack7(u[0], u[1], u[2], u[3], u[4], u[5], u[6]);
    OnesStep9Value();
    SumByMultiplication(u[0], u[1], u[2], u[3], u[4], u[5], u[6], Pack(u, 9));
    var x := Pack(u, 9) * OnesStep9() % WORD_SIZE;
    ShrBy54(x);
    AndSeven(x / 0x40_0000_0000_0000);
    CountOfSeven(f, v, u);
  }

  lemma UleqIsUpTo(f: seq<nat>, v: nat)
    requires |f| == 7 && FieldsOk(f, 9) && v < Pow2(9)
    ensures UleqStep9(Pack(f, 9), v * OnesStep9() % WORD_SIZE) == Pack(UpTo(f, v), 9)
  {
    ScaledOnes(v);
    UleqOfPacked(f, v, Pack(f, 9), v * OnesStep9() % WORD_SIZE, MsbsStep9());
  }

  lemma UleqOfPacked(f: seq<nat>, v: nat, p: nat, q: nat, m: nat)
    requires |f| == 7 && FieldsOk(f, 9) && v < Pow2(9)
    requires p == Pack(f, 9) && q == Pack(Repeat(v, 7), 9) && m == Pack(Repeat(Shift(1, 8), 7), 9)
    ensures Uleq(p, q, m, 8, 64) == Pack(UpTo(f, v), 9)
  {
    UleqFields(f, v, 8, 64);
  }

  lemma ScaledOnes(v: nat)
    requires v < Pow2(9)
    ensures v * OnesStep9() % WORD_SIZE == Pack(Repeat(v, 7), 9)
  {
    PackOfScaled(v, 7, 9);
    SevenFieldsFit(Repeat(v, 7));
  }

  lemma SevenFieldsFit(g: seq<nat>)
    requires |g| == 7 && FieldsOk(g, 9)
    ensures Pack(g, 9) < WORD_SIZE
  {
    PackBound(g, 9);
    Pow2Values();
    Pow2Mono(63, 64);
  }

  lemma CountOfSeven(f: seq<nat>, v: nat, u: seq<nat>)
    requires |f| == 7 && u == UpTo(f, v)
    ensures CountUpTo(f, v) == u[0] + u[1] + u[2] + u[3] + u[4] + u[5] + u[6]
  {
    CountFront(f, v, 7);
    CountFront(f, v, 6);
    CountFront(f, v, 5);
    CountFront(f, v, 4);
    CountFront(f, v, 3);
    CountFront(f, v, 2);
    CountFront(f, v, 1);
    assert f[..7] == f && f[..0] == [];
  }

  lemma CountFront(f: seq<nat>, v: nat, n: nat)
    requires 0 < n <= |f|
    ensures CountUpTo(f[..n], v) == CountUpTo(f[..n - 1], v) + UpTo(f, v)[n - 1]
  {
    assert f[..n][..n - 1] == f[..n - 1];
  }
}
