/** The suffixes of the leaves in one character array, where a suffix that ends another one is not stored again. */
module TailVector {
  import opened Options
  import opened Bits
  import opened Keys
  import opened FreeList
  import opened DoubleArray
  import opened Insertion
  import BV = BitVector

  // ---------- the order of the suffixes ----------

  /** Characters are compared as signed values. */
  function Signed(c: byte): int {
    if c < 128 then c else c - 256
  }

  /** Lexicographical comparison of the reversed strings. */
  predicate BackLess(a: Key, b: Key) {
    b != [] &&
    (a == [] || Signed(a[|a| - 1]) < Signed(b[|b| - 1])
     || (a[|a| - 1] == b[|b| - 1] && BackLess(a[..|a| - 1], b[..|b| - 1])))
  }

  /** The order, said of the last bytes: from 128 on they are negative, and below all others. */
  lemma BackLessIs(a: Key, b: Key)
    ensures a == [] ==> (BackLess(a, b) <==> b != [])
    ensures b == [] ==> !BackLess(a, b)
    ensures a != [] && b != [] ==>
              var x, y := a[|a| - 1], b[|b| - 1];
              BackLess(a, b) <==> x < y < 128 || 128 <= x < y || y < 128 <= x
                                  || (x == y && BackLess(a[..|a| - 1], b[..|b| - 1]))
  {
  }

  lemma {:induction false} BackLessAsymmetric(a: Key, b: Key)
    requires BackLess(a, b)
    ensures !BackLess(b, a)
  {
    if a != [] && a[|a| - 1] == b[|b| - 1] {
      BackLessAsymmetric(a[..|a| - 1], b[..|b| - 1]);
    }
  }

  lemma {:induction false} NotBackLessTransitive(a: Key, b: Key, c: Key)
    requires !BackLess(b, a) && !BackLess(c, b)
    ensures !BackLess(c, a)
  {
    if a != [] && b != [] && c != [] && a[|a| - 1] == c[|c| - 1] {
      NotBackLessTransitive(a[..|a| - 1], b[..|b| - 1], c[..|c| - 1]);
    }
  }

  /** s ends t. */
  predicate Ends(s: Key, t: Key) {
    |s| <= |t| && t[|t| - |s|..] == s
  }

  lemma EndsAt(s: Key, t: Key, k: nat)
    requires Ends(s, t) && k < |s|
    ensures s[|s| - k - 1] == t[|t| - k - 1]
  {
    assert s[|s| - k - 1] == t[|t| - |s|..][|s| - k - 1];
  }

  /** What lies between a string and one that it ends, ends with it too. */
  lemma {:induction false} EndsBetween(s: Key, u: Key, t: Key)
    requires !BackLess(u, s) && !BackLess(t, u) && Ends(s, t)
    ensures Ends(s, u)
  {
    if s != [] {
      var s', u', t' := s[..|s| - 1], u[..|u| - 1], t[..|t| - 1];
      assert s[|s| - 1] == t[|t| - |s|..][|s| - 1] == t[|t| - 1];
      assert t'[|t'| - |s'|..] == t[|t| - |s|..][..|s| - 1];
      EndsBetween(s', u', t');
      assert u[|u| - |s|..] == u'[|u'| - |s'|..] + [u[|u| - 1]];
    }
  }

  /** A string that ends another one is not above it. */
  lemma {:induction false} EndsNotAbove(s: Key, t: Key)
    requires Ends(s, t)
    ensures !BackLess(t, s)
  {
    if s != [] {
      assert s[|s| - 1] == t[|t| - |s|..][|s| - 1] == t[|t| - 1];
      assert t[..|t| - 1][|t| - |s|..] == t[|t| - |s|..][..|s| - 1];
      EndsNotAbove(s[..|s| - 1], t[..|t| - 1]);
    }
  }

  lemma {:induction false} BackEqual(s: Key, t: Key)
    requires !BackLess(s, t) && !BackLess(t, s)
    ensures s == t
  {
    if s != [] && t != [] {
      BackEqual(s[..|s| - 1], t[..|t| - 1]);
      assert s == s[..|s| - 1] + [s[|s| - 1]] && t == t[..|t| - 1] + [t[|t| - 1]];
    }
  }

  ghost predicate BackSorted(s: seq<Suffix>) {
    forall a, b :: 0 <= a < b < |s| ==> !BackLess(s[b].str, s[a].str)
  }

  ghost predicate DistinctNodes(s: seq<Suffix>) {
    forall a, b :: 0 <= a < b < |s| ==> s[a].npos != s[b].npos
  }

  /** Sorting brings a suffix next to one that it ends, if there is any. */
  lemma SortedShares(s: seq<Suffix>, a: nat, b: nat)
    requires BackSorted(s) && a < |s| && b < |s| && a != b && Ends(s[a].str, s[b].str)
    ensures (a + 1 < |s| && Ends(s[a].str, s[a + 1].str)) || (b < a && s[a].str == s[b].str)
  {
    if a < b {
      if a + 1 < b {
        EndsBetween(s[a].str, s[a + 1].str, s[b].str);
      }
    } else {
      EndsNotAbove(s[a].str, s[b].str);
      BackEqual(s[a].str, s[b].str);
    }
  }

  lemma {:induction false} BytesInserted(r: seq<Suffix>, p: nat, x: Suffix)
    requires p <= |r|
    ensures SuffixBytes(Inserted(r, p, x)) == SuffixBytes(r) + |x.str| + 1
  {
    var d := Inserted(r, p, x);
    if p == |r| {
      assert d[..|r|] == r;
    } else {
      BytesInserted(r[..|r| - 1], p, x);
      assert d[..|r|] == Inserted(r[..|r| - 1], p, x);
    }
  }

  method Position(r: seq<Suffix>, x: Suffix) returns (p: nat)
    requires BackSorted(r)
    ensures p <= |r| && BackSorted(Inserted(r, p, x))
  {
    p := 0;
    while p < |r| && !BackLess(x.str, r[p].str)
      invariant p <= |r| && forall a :: 0 <= a < p ==> !BackLess(x.str, r[a].str)
    {
      p := p + 1;
    }
    forall b | p <= b < |r| ensures !BackLess(r[b].str, x.str) {
      BackLessAsymmetric(x.str, r[p].str);
      if p < b {
        NotBackLessTransitive(x.str, r[p].str, r[b].str);
      }
    }
  }

  /** Any order that rises by reversed strings will do. */
  method SortSuffixes(s: seq<Suffix>) returns (r: seq<Suffix>)
    requires DistinctNodes(s)
    ensures BackSorted(r) && DistinctNodes(r) && |r| == |s| && SuffixBytes(r) == SuffixBytes(s)
    ensures forall x :: x in r <==> x in s
  {
    r := [];
    var i := 0;
    while i < |s|
      invariant i <= |s| == i + (|s| - |r|)
      invariant BackSorted(r) && DistinctNodes(r) && SuffixBytes(r) == SuffixBytes(s[..i])
      invariant forall x :: x in r <==> x in s[..i]
    {
      var p := Position(r, s[i]);
      InsertedMembers(r, p, s[i]);
      BytesInserted(r, p, s[i]);
      InsertKeepsDistinct(s, i, r, p);
      assert s[..i + 1][..i] == s[..i] && s[..i + 1] == s[..i] + [s[i]];
      r := Inserted(r, p, s[i]);
      i := i + 1;
    }
    assert s[..i] == s;
  }

  lemma InsertKeepsDistinct(s: seq<Suffix>, i: nat, r: seq<Suffix>, p: nat)
    requires DistinctNodes(s) && i < |s| && DistinctNodes(r) && p <= |r|
    requires forall x :: x in r ==> x in s[..i]
    ensures DistinctNodes(Inserted(r, p, s[i]))
  {
    forall a | 0 <= a < |r| ensures r[a].npos != s[i].npos {
      assert r[a] in s[..i];
    }
  }

  // ---------- where a string is found ----------

  /** The characters from tpos on, up to the terminator, are s. */
  ghost predicate Stored(bin: bool, chars: seq<byte>, terms: seq<bool>, tpos: nat, s: Key) {
    && tpos + |s| <= |chars| && chars[tpos..tpos + |s|] == s
    && if bin then
         s != [] && |terms| == |chars| && terms[tpos + |s| - 1] && forall i :: tpos <= i < tpos + |s| - 1 ==> !terms[i]
       else NulFreeKey(s) && tpos + |s| < |chars| && chars[tpos + |s|] == 0
  }

  lemma StoredKept(bin: bool, chars: seq<byte>, terms: seq<bool>, chars': seq<byte>, terms': seq<bool>, tpos: nat,
      s: Key)
    requires Stored(bin, chars, terms, tpos, s) && chars <= chars' && terms <= terms'
    requires bin ==> |terms'| == |chars'|
    ensures Stored(bin, chars', terms', tpos, s)
  {
    assert chars'[tpos..tpos + |s|] == chars[tpos..tpos + |s|];
  }

  /** Where a string is stored, its non-empty ends are stored too. */
  lemma EndStored(bin: bool, chars: seq<byte>, terms: seq<bool>, tpos: nat, s: Key, t: Key)
    requires Stored(bin, chars, terms, tpos, t) && Ends(s, t) && s != []
    ensures Stored(bin, chars, terms, tpos + (|t| - |s|), s)
  {
    var d := |t| - |s|;
    assert chars[tpos + d..tpos + d + |s|] == t[d..];
    if !bin {
      forall i | 0 <= i < |s| ensures s[i] != 0 {
        assert s[i] == t[d + i];
      }
    }
  }

  // ---------- complete ----------

  ghost predicate Storable(bin: bool, s: seq<Suffix>, units: seq<Unit>) {
    forall a :: 0 <= a < |s| ==> s[a].str != [] && (bin || NulFreeKey(s[a].str)) && s[a].npos < |units|
  }

  /** Suffix x is found where its leaf's base says. */
  ghost predicate PlacedAt(bin: bool, chars: seq<byte>, terms: seq<bool>, units: seq<Unit>, x: Suffix) {
    x.npos < |units| && 0 < units[x.npos].base < |chars| && Stored(bin, chars, terms, units[x.npos].base, x.str)
  }

  /** The space the suffixes from i on take: nothing for those that end their successor. */
  function Space(bin: bool, s: seq<Suffix>, i: nat): nat
    requires i <= |s|
    decreases |s| - i
  {
    if i == |s| then 0
    else Space(bin, s, i + 1) +
         (if i + 1 < |s| && Ends(s[i].str, s[i + 1].str) then 0 else |s[i].str| + (if bin then 0 else 1))
  }

  /** How many characters two strings share at the end. */
  method CommonEnd(curr: Key, prev: Key) returns (m: nat)
    ensures m <= |curr| && m <= |prev| && (m == |curr| <==> Ends(curr, prev))
  {
    m := 0;
    while m < |curr| && m < |prev| && prev[|prev| - m - 1] == curr[|curr| - m - 1]
      invariant m <= |curr| && m <= |prev|
      invariant prev[|prev| - m..] == curr[|curr| - m..]
    {
      assert prev[|prev| - m - 1..] == [prev[|prev| - m - 1]] + prev[|prev| - m..];
      assert curr[|curr| - m - 1..] == [curr[|curr| - m - 1]] + curr[|curr| - m..];
      m := m + 1;
    }
    if m < |curr| && Ends(curr, prev) {
      EndsAt(curr, prev, m);
    }
  }

  /** Appends a string with its terminator. */
  method Append(bin: bool, chars: seq<byte>, terms: seq<bool>, s: Key) returns (chars': seq<byte>, terms': seq<bool>)
    requires s != [] && (bin || NulFreeKey(s)) && (if bin then |terms| == |chars| else terms == [])
    ensures chars <= chars' && terms <= terms' && (if bin then |terms'| == |chars'| else terms' == [])
    ensures |chars'| == |chars| + |s| + (if bin then 0 else 1)
    ensures Stored(bin, chars', terms', |chars|, s)
  {
    chars' := chars + s;
    terms' := terms;
    if bin {
      var j := 1;
      while j < |s|
        invariant 1 <= j <= |s| && terms' == terms + Falses(j - 1)
      {
        terms' := terms' + [false];
        j := j + 1;
      }
      terms' := terms' + [true];
    } else {
      chars' := chars' + [0];
    }
  }

  /** The character arrays between two suffixes. */
  ghost predicate TailShape(bin: bool, chars: seq<byte>, terms: seq<bool>) {
    && chars != [] && chars[0] == 0
    && if bin then |terms| == |chars| && !terms[0] else terms == []
  }

  /** The suffixes from i on have their place; the last one placed is prev, found at tpos. */
  ghost predicate Placing(bin: bool, chars: seq<byte>, terms: seq<bool>, units: seq<Unit>, s: seq<Suffix>, i: nat,
      prev: Key, tpos: nat)
    requires i <= |s|
  {
    && TailShape(bin, chars, terms) && |chars| == 1 + Space(bin, s, i)
    && (if i == |s| then prev == [] else prev == s[i].str && 0 < tpos && Stored(bin, chars, terms, tpos, prev))
    && (forall a :: i <= a < |s| ==> PlacedAt(bin, chars, terms, units, s[a]))
    && (i < |s| ==> Stored(bin, chars, terms, 1, s[|s| - 1].str))
  }

  /** Only bases of suffix nodes are rewritten. */
  ghost predicate OnlyBases(units: seq<Unit>, units': seq<Unit>, s: seq<Suffix>) {
    && |units'| == |units|
    && (forall y :: 0 <= y < |units| ==> units'[y].check == units[y].check)
    && (forall y :: 0 <= y < |units| && !HasSuffix(s, y) ==> units'[y] == units[y])
  }

  /** One step of the loop of complete: share the end of the previous suffix, or append. */
  method PlaceSuffix(bin: bool, chars: seq<byte>, terms: seq<bool>, curr: Key, prev: Key, prevTpos: nat)
      returns (chars': seq<byte>, terms': seq<bool>, tpos: nat)
    requires curr != [] && (bin || NulFreeKey(curr)) && TailShape(bin, chars, terms)
    requires prev != [] ==> 0 < prevTpos && Stored(bin, chars, terms, prevTpos, prev)
    ensures chars <= chars' && terms <= terms' && TailShape(bin, chars', terms')
    ensures 0 < tpos && Stored(bin, chars', terms', tpos, curr)
    ensures |chars'| == |chars| + if prev != [] && Ends(curr, prev) then 0 else |curr| + (if bin then 0 else 1)
    ensures prev == [] ==> tpos == |chars|
  {
    var m := CommonEnd(curr, prev);
    if m == |curr| && |prev| != 0 {
      EndStored(bin, chars, terms, prevTpos, curr, prev);
      chars', terms', tpos := chars, terms, prevTpos + (|prev| - m);
    } else {
      tpos := |chars|;
      chars', terms' := Append(bin, chars, terms, curr);
    }
  }

  lemma PlacedNext(bin: bool, chars: seq<byte>, terms: seq<bool>, units: seq<Unit>, s: seq<Suffix>, i: nat, prev: Key,
      prevTpos: nat,
                   chars': seq<byte>, terms': seq<bool>, tpos: nat)
    requires 0 < i <= |s| && DistinctNodes(s) && Storable(bin, s, units)
    requires Placing(bin, chars, terms, units, s, i, prev, prevTpos)
    requires chars <= chars' && terms <= terms' && TailShape(bin, chars', terms')
    requires 0 < tpos && Stored(bin, chars', terms', tpos, s[i - 1].str) && (prev == [] ==> tpos == |chars|)
    requires |chars'| == |chars| + if prev != []
             && Ends(s[i - 1].str, prev) then 0 else |s[i - 1].str| + (if bin then 0 else 1)
    ensures Placing(bin, chars', terms', Rebased(units, s[i - 1].npos, tpos), s, i - 1, s[i - 1].str, tpos)
  {
    forall a | i - 1 <= a < |s| ensures PlacedAt(bin, chars', terms', Rebased(units, s[i - 1].npos, tpos), s[a]) {
      if i <= a {
        assert PlacedAt(bin, chars, terms, units, s[a]);
        StoredKept(bin, chars, terms, chars', terms', units[s[a].npos].base, s[a].str);
      }
    }
    if i < |s| {
      StoredKept(bin, chars, terms, chars', terms', 1, s[|s| - 1].str);
    }
  }

  /** What the setter does. */
  function Rebased(units: seq<Unit>, npos: nat, tpos: nat): (r: seq<Unit>)
    requires npos < |units|
    ensures |r| == |units|
  {
    units[npos := units[npos].(base := tpos)]
  }

  lemma RebasedOnly(units: seq<Unit>, now: seq<Unit>, s: seq<Suffix>, a: nat, tpos: nat)
    requires OnlyBases(units, now, s) && a < |s| && s[a].npos < |units|
    ensures OnlyBases(units, Rebased(now, s[a].npos, tpos), s)
  {
    assert HasSuffix(s, s[a].npos);
  }

  /** The loop of complete, from the greatest suffix down: the setter writes the position of a suffix into the base of
      its leaf. */
  method PlaceAll(s: seq<Suffix>, bin: bool, units: seq<Unit>)
      returns (chars: seq<byte>, terms: seq<bool>, units': seq<Unit>)
    requires DistinctNodes(s) && Storable(bin, s, units)
    ensures OnlyBases(units, units', s)
    ensures TailShape(bin, chars, terms) && |chars| == 1 + Space(bin, s, 0)
    ensures forall a :: 0 <= a < |s| ==> PlacedAt(bin, chars, terms, units', s[a])
    ensures s != [] ==> Stored(bin, chars, terms, 1, s[|s| - 1].str)
  {
    chars := [0];
    terms := if bin then [false] else [];
    units' := units;
    var prev: Key, prevTpos: nat := [], 0;
    var i: nat := |s|;
    while i > 0
      invariant i <= |s| && Placing(bin, chars, terms, units', s, i, prev, prevTpos)
      invariant OnlyBases(units, units', s)
    {
      var curr := s[i - 1];
      var chars1, terms1, tpos := PlaceSuffix(bin, chars, terms, curr.str, prev, prevTpos);
      PlacedNext(bin, chars, terms, units', s, i, prev, prevTpos, chars1, terms1, tpos);
      RebasedOnly(units, units', s, i - 1, tpos);
      units' := Rebased(units', curr.npos, tpos);
      chars, terms, prev, prevTpos := chars1, terms1, curr.str, tpos;
      i := i - 1;
    }
  }

  /** Every suffix is where its leaf's base says, nothing else was rewritten, and no suffix that ends another takes
      space. */
  ghost predicate TailOf(suffixes: seq<Suffix>, bin: bool, units: seq<Unit>, chars: seq<byte>, terms: seq<bool>,
                         units': seq<Unit>, sorted: seq<Suffix>)
  {
    && TailShape(bin, chars, terms) && OnlyBases(units, units', suffixes)
    && (forall a :: 0 <= a < |suffixes| ==> PlacedAt(bin, chars, terms, units', suffixes[a]))
    && BackSorted(sorted) && |sorted| == |suffixes| && (forall x :: x in sorted <==> x in suffixes)
    && |chars| == 1 + Space(bin, sorted, 0)
    && (sorted != [] ==> Stored(bin, chars, terms, 1, sorted[|sorted| - 1].str))
  }

  /** complete */
  method Complete(suffixes: seq<Suffix>, bin: bool, units: seq<Unit>)
      returns (chars: seq<byte>, terms: seq<bool>, units': seq<Unit>, ghost sorted: seq<Suffix>)
    requires DistinctNodes(suffixes) && Storable(bin, suffixes, units)
    ensures TailOf(suffixes, bin, units, chars, terms, units', sorted)
    ensures |chars| <= 1 + SuffixBytes(suffixes)
  {
    var s := SortSuffixes(suffixes);
    sorted := s;
    SortedStorable(bin, s, suffixes, units);
    chars, terms, units' := PlaceAll(s, bin, units);
    SpaceBound(bin, s, 0);
    SameNodes(s, suffixes);
    forall a | 0 <= a < |suffixes| ensures PlacedAt(bin, chars, terms, units', suffixes[a]) {
      assert suffixes[a] in s;
    }
  }

  lemma SortedStorable(bin: bool, s: seq<Suffix>, t: seq<Suffix>, units: seq<Unit>)
    requires Storable(bin, t, units) && forall x :: x in s <==> x in t
    ensures Storable(bin, s, units)
  {
    forall a | 0 <= a < |s| ensures s[a].str != [] && (bin || NulFreeKey(s[a].str)) && s[a].npos < |units| {
      assert s[a] in t;
    }
  }

  lemma SameNodes(s: seq<Suffix>, t: seq<Suffix>)
    requires forall x :: x in s <==> x in t
    ensures forall y :: HasSuffix(s, y) <==> HasSuffix(t, y)
  {
    forall y ensures HasSuffix(s, y) <==> HasSuffix(t, y) {
      if HasSuffix(s, y) {
        var a :| 0 <= a < |s| && s[a].npos == y;
        assert s[a] in t;
      }
      if HasSuffix(t, y) {
        var a :| 0 <= a < |t| && t[a].npos == y;
        assert t[a] in s;
      }
    }
  }

  lemma {:induction false} SpaceBound(bin: bool, s: seq<Suffix>, i: nat)
    requires i <= |s|
    ensures Space(bin, s, i) + SuffixBytes(s[..i]) <= SuffixBytes(s)
    decreases |s| - i
  {
    if i == |s| {
      assert s[..i] == s;
    } else {
      SpaceBound(bin, s, i + 1);
      assert s[..i + 1][..i] == s[..i];
    }
  }

  // ---------- the finished vector ----------

  datatype TailVector = TailVector(chars: seq<byte>, terms: BV.BitVector)

  ghost predicate Valid(t: TailVector) {
    BV.BitsReady(t.terms) && TailShape(t.terms.size != 0, t.chars, BV.Contents(t.terms))
  }

  function BinMode(t: TailVector): bool {
    t.terms.size != 0
  }

  ghost predicate Reads(t: TailVector, tpos: nat, s: Key)
    requires Valid(t)
  {
    Stored(BinMode(t), t.chars, BV.Contents(t.terms), tpos, s)
  }

  /** Nothing is stored but the dummy. */
  predicate Lone(t: TailVector) {
    BinMode(t) && |t.chars| == 1
  }

  method Release(bin: bool, chars: seq<byte>, terms: seq<bool>) returns (t: TailVector)
    requires TailShape(bin, chars, terms)
    ensures Valid(t) && BinMode(t) == bin && t.chars == chars && BV.Contents(t.terms) == terms
  {
    var flags := BV.FromBools(terms, false, false);
    t := TailVector(chars, flags);
  }

  /** match; None when it reads past the end of the characters. */
  method Match(t: TailVector, key: Key, tpos: nat, ghost s: Key) returns (r: Option<bool>)
    requires Valid(t) && (Reads(t, tpos, s) || (tpos == 0 && Lone(t)))
    ensures key == [] ==> r == Some(tpos == 0)
    ensures key != [] && Reads(t, tpos, s) ==> r == Some(key == s)
    ensures key != [] && tpos == 0 && Lone(t) ==> r == if |key| > 1 && key[0] == 0 then None else Some(false)
  {
    if |key| == 0 {
      return Some(tpos == 0);
    }
    if BinMode(t) {
      ghost var s' := if Reads(t, tpos, s) then s else [0];
      forall k | 0 <= k < |s'| ensures t.chars[tpos + k] == s'[k] {
        if Reads(t, tpos, s) { assert t.chars[tpos..tpos + |s|][k] == s[k]; }
      }
      r := MatchBin(t, key, tpos, s');
    } else {
      var found := MatchText(t, key, tpos, s);
      r := Some(found);
    }
  }

  /** From start on the characters are s, with no terminator before the last of them. */
  ghost predicate Spans(chars: seq<byte>, terms: seq<bool>, start: nat, s: Key) {
    && s != [] && start + |s| <= |chars| == |terms|
    && (forall k :: 0 <= k < |s| ==> chars[start + k] == s[k])
    && (forall i :: start <= i < start + |s| - 1 ==> !terms[i])
    && (terms[start + |s| - 1] || start + |s| == |chars|)
  }

  method MatchBin(t: TailVector, key: Key, start: nat, ghost s: Key) returns (r: Option<bool>)
    requires Valid(t) && BinMode(t) && key != [] && Spans(t.chars, BV.Contents(t.terms), start, s)
    ensures r == if BV.Contents(t.terms)[start + |s| - 1] then Some(key == s)
                 else if s < key then None else Some(false)
  {
    ghost var terms := BV.Contents(t.terms);
    var kpos, tpos := 0, start;
    while true
      invariant kpos < |key| && tpos == start + kpos && kpos <= |s| && key[..kpos] == s[..kpos]
      invariant terms[start + |s| - 1] ==> kpos < |s|
      decreases |key| - kpos
    {
      if |t.chars| <= tpos {
        return None;
      }
      if key[kpos] != t.chars[tpos] {
        return Some(false);
      }
      kpos := kpos + 1;
      if BV.Get(t.terms, tpos) {
        return Some(kpos == |key|);
      }
      tpos := tpos + 1;
      if kpos == |key| {
        return Some(false);
      }
    }
    return None;
  }

  method MatchText(t: TailVector, key: Key, start: nat, ghost s: Key) returns (r: bool)
    requires Valid(t) && !BinMode(t) && key != [] && Reads(t, start, s)
    ensures r <==> key == s
  {
    var kpos, tpos := 0, start;
    while kpos < |key|
      invariant kpos <= |key| && tpos == start + kpos && kpos <= |s| && key[..kpos] == s[..kpos]
    {
      assert kpos < |s| ==> t.chars[tpos] == t.chars[start..start + |s|][kpos] == s[kpos];
      if t.chars[tpos] == 0 || key[kpos] != t.chars[tpos] {
        return false;
      }
      kpos := kpos + 1;
      tpos := tpos + 1;
    }
    assert kpos < |s| ==> t.chars[tpos] == t.chars[start..start + |s|][kpos] == s[kpos];
    return t.chars[tpos] == 0;
  }

  /** prefix_match: the length of the common part when the tail or the key ends first. */
  method PrefixMatch(t: TailVector, key: Key, tpos: nat, ghost s: Key) returns (r: Option<nat>)
    requires Valid(t) && (tpos != 0 ==> Reads(t, tpos, s))
    ensures tpos == 0 ==> r == Some(0)
    ensures tpos != 0 && key == [] ==> r == None
    ensures tpos != 0 && key != [] ==>
              r == if s <= key then Some(|s|) else if key <= s then Some(|key|) else None
  {
    if tpos == 0 {
      return Some(0);
    }
    if |key| == 0 {
      return None;
    }
    var kpos, pos := 0, tpos;
    while kpos < |key|
      invariant kpos <= |key| && pos == tpos + kpos && kpos <= |s| && key[..kpos] == s[..kpos]
      invariant kpos < |key| && BinMode(t) ==> kpos < |s|
    {
      assert kpos < |s| ==> t.chars[pos] == t.chars[tpos..tpos + |s|][kpos] == s[kpos];
      if !BinMode(t) && t.chars[pos] == 0 {
        assert kpos == |s|;
        return Some(kpos);
      }
      if key[kpos] != t.chars[pos] {
        return None;
      }
      kpos := kpos + 1;
      if BinMode(t) && BV.Get(t.terms, pos) {
        return Some(kpos);
      }
      pos := pos + 1;
    }
    return Some(kpos);
  }

  method Decode(t: TailVector, tpos: nat, ghost s: Key) returns (r: Key)
    requires Valid(t) && (tpos != 0 ==> Reads(t, tpos, s))
    ensures r == if tpos == 0 then [] else s
  {
    r := [];
    var pos := tpos;
    if BinMode(t) {
      if tpos != 0 {
        while true
          invariant pos == tpos + |r| && |r| < |s| && r == s[..|r|]
          decreases |s| - |r|
        {
          assert t.chars[pos] == t.chars[tpos..tpos + |s|][|r|];
          r := r + [t.chars[pos]];
          if BV.Get(t.terms, pos) {
            break;
          }
          pos := pos + 1;
        }
      }
    } else {
      ghost var w := if tpos == 0 then [] else s;
      while t.chars[pos] != 0
        invariant pos == tpos + |r| < |t.chars| && |r| <= |w| && r == w[..|r|]
        decreases |w| - |r|
      {
        assert |r| < |w| ==> t.chars[pos] == t.chars[tpos..tpos + |w|][|r|];
        r := r + [t.chars[pos]];
        pos := pos + 1;
      }
    }
  }
}
