/** Bytes are renumbered by frequency: the table holds the code of every byte and the byte of every code. */
module CodeTable {
  import opened Bits
  import opened Keys
  import opened DoubleArray
  import opened Insertion

  datatype Counter = Counter(ch: byte, freq: nat)

  datatype CodeTable = CodeTable(maxLength: nat, table: seq<byte>, alphabet: seq<byte>)

  function Occurrences(key: Key, ch: byte): nat {
    if key == [] then 0 else Occurrences(key[..|key| - 1], ch) + (if key[|key| - 1] == ch then 1 else 0)
  }

  function Frequency(keys: seq<Key>, ch: byte): nat {
    if keys == [] then 0 else Frequency(keys[..|keys| - 1], ch) + Occurrences(keys[|keys| - 1], ch)
  }

  // ---------- what a table promises ----------

  /** Decoding a code and encoding it again is the identity too. */
  ghost predicate CodesOnto(code: seq<byte>) {
    |code| == 512 && forall cd: byte {:trigger code[cd + 256]} :: code[code[cd + 256]] == cd
  }

  /** More frequent bytes have smaller codes. */
  ghost predicate ByFrequency(code: seq<byte>, keys: seq<Key>) {
    |code| == 512 && forall a: byte, b: byte :: Frequency(keys, b) < Frequency(keys, a) ==> code[a] < code[b]
  }

  ghost predicate Occurs(keys: seq<Key>, ch: byte) {
    exists i :: 0 <= i < |keys| && ch in keys[i]
  }

  ghost predicate Sorted(alphabet: seq<byte>) {
    forall a, b :: 0 <= a < b < |alphabet| ==> alphabet[a] < alphabet[b]
  }

  ghost predicate Longest(keys: seq<Key>, n: nat) {
    (forall i :: 0 <= i < |keys| ==> |keys[i]| <= n) && (n > 0 ==> exists i :: 0 <= i < |keys| && |keys[i]| == n)
  }

  ghost predicate Describes(t: CodeTable, keys: seq<Key>) {
    && CodesOk(t.table) && CodesOnto(t.table) && ByFrequency(t.table, keys)
    && Sorted(t.alphabet) && (forall ch: byte :: ch in t.alphabet <==> Occurs(keys, ch))
    && Longest(keys, t.maxLength)
  }

  // ---------- counting ----------

  lemma {:induction false} OccursInKey(key: Key, ch: byte)
    ensures Occurrences(key, ch) > 0 <==> ch in key
  {
    if key != [] {
      OccursInKey(key[..|key| - 1], ch);
      assert key == key[..|key| - 1] + [key[|key| - 1]];
    }
  }

  lemma {:induction false} FrequencyOccurs(keys: seq<Key>, ch: byte)
    ensures Frequency(keys, ch) > 0 <==> Occurs(keys, ch)
  {
    if keys != [] {
      var init, last := keys[..|keys| - 1], keys[|keys| - 1];
      FrequencyOccurs(init, ch);
      OccursInKey(last, ch);
      if Occurs(init, ch) {
        var i :| 0 <= i < |init| && ch in init[i];
        assert ch in keys[i];
      }
      if Occurs(keys, ch) && ch !in last {
        var i :| 0 <= i < |keys| && ch in keys[i];
        assert ch in init[i];
      }
    }
  }

  ghost predicate Counted(counter: seq<Counter>, keys: seq<Key>) {
    |counter| == 256 && forall ch: byte :: counter[ch] == Counter(ch, Frequency(keys, ch))
  }

  /** The loop over the bytes of one key. */
  method CountKey(counter: array<Counter>, key: Key, ghost keys: seq<Key>)
    requires Counted(counter[..], keys)
    modifies counter
    ensures Counted(counter[..], keys + [key])
  {
    var k := 0;
    while k < |key|
      invariant k <= |key| && counter.Length == 256
      invariant forall ch: byte :: counter[ch] == Counter(ch, Frequency(keys, ch) + Occurrences(key[..k], ch))
    {
      var c := key[k];
      assert key[..k + 1][..k] == key[..k];
      counter[c] := counter[c].(freq := counter[c].freq + 1);
      k := k + 1;
    }
    assert key[..k] == key;
    assert (keys + [key])[..|keys|] == keys;
  }

  method CountAll(counter: array<Counter>, keys: seq<Key>) returns (maxLength: nat)
    requires Counted(counter[..], [])
    modifies counter
    ensures Counted(counter[..], keys) && Longest(keys, maxLength)
  {
    maxLength := 0;
    var i := 0;
    while i < |keys|
      invariant i <= |keys| && Counted(counter[..], keys[..i]) && Longest(keys[..i], maxLength)
    {
      ghost var was := maxLength;
      CountKey(counter, keys[i], keys[..i]);
      maxLength := if maxLength < |keys[i]| then |keys[i]| else maxLength;
      assert keys[..i + 1] == keys[..i] + [keys[i]];
      LongestNext(keys[..i], keys[i], was);
      i := i + 1;
    }
    assert keys[..i] == keys;
  }

  lemma LongestNext(keys: seq<Key>, key: Key, n: nat)
    requires Longest(keys, n)
    ensures Longest(keys + [key], if n < |key| then |key| else n)
  {
    var all := keys + [key];
    assert all[|keys|] == key;
    if n > 0 {
      var i :| 0 <= i < |keys| && |keys[i]| == n;
      assert all[i] == keys[i];
    }
  }

  /** The bytes that occur, in ascending order. */
  method Alphabet(counter: array<Counter>, ghost keys: seq<Key>) returns (alphabet: seq<byte>)
    requires Counted(counter[..], keys)
    ensures Sorted(alphabet) && forall ch: byte :: ch in alphabet <==> Occurs(keys, ch)
  {
    alphabet := [];
    var c := 0;
    while c < 256
      invariant c <= 256 && Sorted(alphabet) && forall a :: 0 <= a < |alphabet| ==> alphabet[a] < c
      invariant forall ch: byte :: ch in alphabet <==> ch < c && Frequency(keys, ch) > 0
    {
      if counter[c].freq != 0 {
        alphabet := alphabet + [counter[c].ch];
      }
      c := c + 1;
    }
    forall ch: byte ensures ch in alphabet <==> Occurs(keys, ch) {
      FrequencyOccurs(keys, ch);
    }
  }

  // ---------- sorting ----------

  ghost predicate Descending(s: seq<Counter>) {
    forall a, b :: 0 <= a < b < |s| ==> s[a].freq >= s[b].freq
  }

  lemma InsertKeepsOrder(r: seq<Counter>, p: nat, x: Counter)
    requires Descending(r) && p <= |r|
    requires forall a :: 0 <= a < p ==> r[a].freq >= x.freq
    requires p < |r| ==> r[p].freq < x.freq
    ensures Descending(Inserted(r, p, x))
  {
  }

  /** Where x goes in a descending list. */
  method Position(r: seq<Counter>, x: Counter) returns (p: nat)
    ensures p <= |r| && forall a :: 0 <= a < p ==> r[a].freq >= x.freq
    ensures p < |r| ==> r[p].freq < x.freq
  {
    p := 0;
    while p < |r| && r[p].freq >= x.freq
      invariant p <= |r| && forall a :: 0 <= a < p ==> r[a].freq >= x.freq
    {
      p := p + 1;
    }
  }

  /** Any order of the counters by falling frequency will do. */
  method SortByFrequency(s: seq<Counter>) returns (r: seq<Counter>)
    ensures multiset(r) == multiset(s) && Descending(r)
  {
    r := [];
    var i := 0;
    while i < |s|
      invariant i <= |s| && Descending(r) && multiset(r) == multiset(s[..i])
    {
      var p := Position(r, s[i]);
      InsertKeepsOrder(r, p, s[i]);
      InsertAdds(r, p, s[i]);
      r := Inserted(r, p, s[i]);
      assert s[..i + 1] == s[..i] + [s[i]];
      i := i + 1;
    }
    assert s[..i] == s;
  }

  predicate CharAt(r: seq<Counter>, p: nat, ch: byte) {
    p < 256 && |r| == 256 && r[p].ch == ch
  }

  ghost predicate HasChar(r: seq<Counter>, ch: byte) {
    exists p: nat :: CharAt(r, p, ch)
  }

  /** A sorted counter list still has every byte once. */
  ghost predicate Permuted(r: seq<Counter>, keys: seq<Key>) {
    && |r| == 256 && Descending(r)
    && (forall p :: 0 <= p < 256 ==> r[p].freq == Frequency(keys, r[p].ch))
    && (forall ch: byte :: HasChar(r, ch))
    && (forall p, q :: 0 <= p < q < 256 ==> r[p].ch != r[q].ch)
  }

  lemma {:induction false} DistinctOnce(s: seq<Counter>, x: Counter)
    requires forall a, b :: 0 <= a < b < |s| ==> s[a] != s[b]
    ensures multiset(s)[x] <= 1
  {
    if s != [] {
      var n := |s| - 1;
      DistinctOnce(s[..n], x);
      assert s == s[..n] + [s[n]];
      if x == s[n] { assert x !in s[..n]; }
    }
  }

  lemma CountsTwice(s: seq<Counter>, p: nat, q: nat)
    requires p < q < |s| && s[p] == s[q]
    ensures multiset(s)[s[p]] >= 2
  {
    assert s == s[..q] + [s[q]] + s[q + 1..];
    assert s[p] in s[..q];
  }

  lemma SortedPermutes(s: seq<Counter>, r: seq<Counter>, keys: seq<Key>)
    requires Counted(s, keys) && multiset(r) == multiset(s) && Descending(r)
    ensures Permuted(r, keys)
  {
    assert |r| == |multiset(r)| == 256;
    forall p | 0 <= p < 256 ensures r[p].freq == Frequency(keys, r[p].ch) && r[p] == s[r[p].ch] {
      assert r[p] in multiset(r);
    }
    forall ch: byte ensures HasChar(r, ch) {
      assert s[ch] in multiset(r);
      var p :| 0 <= p < |r| && r[p] == s[ch];
      assert CharAt(r, p, ch);
    }
    forall p, q | 0 <= p < q < 256 ensures r[p].ch != r[q].ch {
      DistinctOnce(s, r[p]);
      if r[p].ch == r[q].ch {
        CountsTwice(r, p, q);
        assert false;
      }
    }
  }

  // ---------- the table ----------

  method FillCodes(table: array<byte>, r: seq<Counter>, ghost keys: seq<Key>)
    requires table.Length == 512 && Permuted(r, keys)
    modifies table
    ensures forall p: byte :: table[r[p].ch] == p
  {
    var i := 0;
    while i < 256
      invariant i <= 256 && forall p: byte :: p < i ==> table[r[p].ch] == p
    {
      table[r[i].ch] := i;
      i := i + 1;
    }
  }

  method FillChars(table: array<byte>, ghost r: seq<Counter>, ghost keys: seq<Key>)
    requires table.Length == 512 && Permuted(r, keys) && forall p: byte :: table[r[p].ch] == p
    modifies table
    ensures forall p: byte :: table[r[p].ch] == p
    ensures forall p: byte {:trigger r[p]} :: table[p + 256] == r[p].ch
  {
    var c := 0;
    while c < 256
      invariant c <= 256
      invariant forall p: byte :: table[r[p].ch] == p
      invariant forall p: byte {:trigger r[p]} :: r[p].ch < c ==> table[p + 256] == r[p].ch
    {
      assert HasChar(r, c);
      ghost var p: nat :| CharAt(r, p, c);
      assert table[c] == p;
      table[table[c] + 256] := c;
      c := c + 1;
    }
  }

  lemma TableDescribes(table: seq<byte>, r: seq<Counter>, keys: seq<Key>)
    requires |table| == 512 && Permuted(r, keys)
    requires forall p: byte :: table[r[p].ch] == p
    requires forall p: byte {:trigger r[p]} :: table[p + 256] == r[p].ch
    ensures CodesOk(table) && CodesOnto(table) && ByFrequency(table, keys)
  {
    forall ch: byte ensures table[table[ch] + 256] == ch {
      assert HasChar(r, ch);
      var p: nat :| CharAt(r, p, ch);
    }
    forall cd: byte {:trigger table[cd + 256]} ensures table[table[cd + 256]] == cd {
      assert table[r[cd].ch] == cd;
    }
    forall a: byte, b: byte | Frequency(keys, b) < Frequency(keys, a) ensures table[a] < table[b] {
      assert HasChar(r, a);
      var p: nat :| CharAt(r, p, a);
      assert HasChar(r, b);
      var q: nat :| CharAt(r, q, b);
    }
  }

  method Build(keys: seq<Key>) returns (t: CodeTable)
    ensures Describes(t, keys)
  {
    var counter := new Counter[256];
    var c := 0;
    while c < 256
      invariant c <= 256 && forall k: byte :: k < c ==> counter[k] == Counter(k, 0)
    {
      counter[c] := Counter(c, 0);
      c := c + 1;
    }
    var maxLength := CountAll(counter, keys);
    var alphabet := Alphabet(counter, keys);
    var sorted := SortByFrequency(counter[..]);
    SortedPermutes(counter[..], sorted, keys);
    var table := new byte[512];
    FillCodes(table, sorted, keys);
    FillChars(table, sorted, keys);
    TableDescribes(table[..], sorted, keys);
    t := CodeTable(maxLength, table[..], alphabet);
  }

  // ---------- has_null ----------

  datatype Probe = NullRead | Answer(found: bool)

  /** has_null reads the first byte of the alphabet, through a null pointer when no key has a byte. */
  function HasNull(t: CodeTable): Probe {
    if t.alphabet == [] then NullRead else Answer(t.alphabet[0] == 0)
  }

  /** A list of distinct keys has no byte only if it holds nothing but the empty key. */
  lemma HasNullReads(t: CodeTable, keys: seq<Key>)
    requires Describes(t, keys)
    ensures HasNull(t).NullRead? <==> forall i :: 0 <= i < |keys| ==> keys[i] == []
    ensures HasNull(t).Answer? ==> (HasNull(t).found <==> !NulFree(keys))
  {
    forall i | 0 <= i < |keys| && keys[i] != [] ensures t.alphabet != [] {
      assert Occurs(keys, keys[i][0]);
    }
    if t.alphabet != [] {
      assert t.alphabet[0] in t.alphabet;
      assert Occurs(keys, t.alphabet[0]);
      ZeroOccurs(keys);
    }
  }

  lemma ZeroOccurs(keys: seq<Key>)
    ensures Occurs(keys, 0) <==> !NulFree(keys)
  {
    if Occurs(keys, 0) {
      var i :| 0 <= i < |keys| && 0 in keys[i];
      assert !NulFreeKey(keys[i]);
    }
    if !NulFree(keys) {
      var i :| 0 <= i < |keys| && !NulFreeKey(keys[i]);
      assert 0 in keys[i];
    }
  }
}
