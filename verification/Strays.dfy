/** Where the searches of a compacted base go astray, told from its strings alone. */
module Strays {
  import opened Keys
  import opened Rests
  import opened Snapshot
  import DS = DeltaSegment
  import P = Predictive
  import T = Trie

  // ---------- the strings in order ----------

  /** The strings in ascending order, each once. */
  ghost predicate Listed(strings: map<nat, Key>, keys: seq<Key>) {
    StrictlySorted(keys) && forall key :: key in keys <==> DS.HasString(strings, key)
  }

  lemma {:induction false} SameLists(a: seq<Key>, b: seq<Key>)
    requires StrictlySorted(a) && StrictlySorted(b) && forall key :: key in a <==> key in b
    ensures a == b
  {
    BothEmpty(a, b);
    if a != [] {
      LastIsLast(a, b);
      var x, y := a[..|a| - 1], b[..|b| - 1];
      forall key ensures key in x <==> key in y {
        InFront(a, key);
        InFront(b, key);
      }
      FrontSorted(a);
      FrontSorted(b);
      SameLists(x, y);
      assert a == x + [a[|a| - 1]] && b == y + [b[|b| - 1]];
    }
  }

  lemma BothEmpty(a: seq<Key>, b: seq<Key>)
    requires forall key :: key in a <==> key in b
    ensures a == [] <==> b == []
  {
    if a != [] { assert a[0] in a; }
    if b != [] { assert b[0] in b; }
  }

  lemma FrontSorted(a: seq<Key>)
    requires StrictlySorted(a) && a != []
    ensures StrictlySorted(a[..|a| - 1])
  {
    forall i: nat {:trigger Step(a[..|a| - 1], i)} | 0 < i < |a| - 1 ensures Step(a[..|a| - 1], i) {
      assert Step(a, i);
    }
  }

  lemma InFront(a: seq<Key>, key: Key)
    requires StrictlySorted(a) && a != []
    ensures key in a[..|a| - 1] <==> key in a && key != a[|a| - 1]
  {
    var x, last := a[..|a| - 1], a[|a| - 1];
    assert a == x + [last];
    if key in x {
      var i: nat :| i < |x| && x[i] == key;
      if key == last { SortedDistinct(a, i, |a| - 1); }
    }
  }

  lemma LastIsLast(a: seq<Key>, b: seq<Key>)
    requires StrictlySorted(a) && StrictlySorted(b) && a != [] && b != [] && forall key :: key in a <==> key in b
    ensures a[|a| - 1] == b[|b| - 1]
  {
    var x, y := a[|a| - 1], b[|b| - 1];
    assert x in b && y in a;
    var i: nat :| i < |b| && b[i] == x;
    var j: nat :| j < |a| && a[j] == y;
    if i < |b| - 1 && j < |a| - 1 {
      SortedPairs(b, 0, |b|, i, |b| - 1);
      SortedPairs(a, 0, |a|, j, |a| - 1);
      LessTransitive(x, y, x);
      LessIrreflexive(x);
    }
  }

  ghost function KeysOf(strings: map<nat, Key>): seq<Key> {
    if keys: seq<Key> :| Listed(strings, keys) then keys else []
  }

  lemma KeysAre(strings: map<nat, Key>, keys: seq<Key>)
    requires Listed(strings, keys)
    ensures KeysOf(strings) == keys
  {
    hide StrictlySorted;
    SameLists(KeysOf(strings), keys);
  }

  // ---------- find_id ----------

  /** The answer of find_id on a string on which it strays; Absent where it does not. Only the compact profile has a
      trie, and only strings with null bytes lead it astray. */
  ghost function Strayed(profile: nat, strings: map<nat, Key>, value: Key): T.Answer {
    var keys := KeysOf(strings);
    if profile != 1 || NulFree(keys) then T.Absent
    else if i: nat :| T.Phantom(keys, i, value) then IdOf(strings, keys[i])
    else if exists i: nat :: T.Overread(keys, i, value) then T.OutOfBounds
    else T.Absent
  }

  ghost function IdOf(strings: map<nat, Key>, key: Key): T.Answer {
    if id :| id in strings && strings[id] == key then T.Id(id) else T.Absent
  }

  /** When find_id strays: one of the strings holds a null byte, and a bare one is taken for the value. */
  lemma StrayedWhen(profile: nat, strings: map<nat, Key>, keys: seq<Key>, value: Key)
    requires Listed(strings, keys)
    ensures Strayed(profile, strings, value) != T.Absent <==>
              profile == 1 && !NulFree(keys) && exists i: nat :: T.Taken(keys, i, value)
  {
    hide T.Overread, Listed, NulFree;
    KeysAre(strings, keys);
    if i: nat :| T.Phantom(keys, i, value) {
      assert T.Taken(keys, i, value);
      InStrings(strings, keys, i);
    } else if i: nat :| T.Overread(keys, i, value) {
      assert T.Taken(keys, i, value);
    }
    forall i: nat | T.Phantom(keys, i, value) ensures IdOf(strings, keys[i]).Id? {
      InStrings(strings, keys, i);
    }
  }

  lemma InStrings(strings: map<nat, Key>, keys: seq<Key>, i: nat)
    requires Listed(strings, keys) && i < |keys|
    ensures IdOf(strings, keys[i]).Id? && IdOf(strings, keys[i]).id in strings
            && strings[IdOf(strings, keys[i]).id] == keys[i]
  {
    hide StrictlySorted;
    assert keys[i] in keys;
    assert DS.HasString(strings, keys[i]);
  }

  // ---------- prefix search ----------

  /** Whether prefix search reports a stored string for a prefix that runs past its end: no other string shares all
      but the last of its bytes. */
  ghost predicate Overruns(profile: nat, strings: map<nat, Key>, value: Key, prefix: Key) {
    && profile == 1 && DS.HasString(strings, value) && value != [] && value < prefix
    && forall id :: id in strings && strings[id] != value ==> !SharePrefix(strings[id], value, |value| - 1)
  }

  lemma {:induction false} LeastDepth(keys: seq<Key>, i: nat, n: nat) returns (d: nat)
    requires i < |keys| && Alone(keys, i, n)
    ensures d <= n && Alone(keys, i, d) && (d > 0 ==> !Alone(keys, i, d - 1))
  {
    if n == 0 || !Alone(keys, i, n - 1) {
      d := n;
    } else {
      d := LeastDepth(keys, i, n - 1);
    }
  }

  /** A key ends in the tail if it is alone before its last byte. */
  lemma RestWhen(keys: seq<Key>, i: nat)
    requires i < |keys|
    ensures (exists w :: RestOf(keys, i, w)) <==> keys[i] != [] && Alone(keys, i, |keys[i]| - 1)
  {
    var key := keys[i];
    if w :| RestOf(keys, i, w) {
      AloneLonger(keys, i, |key| - |w|, |key| - 1);
    }
    if key != [] && Alone(keys, i, |key| - 1) {
      var d := LeastDepth(keys, i, |key| - 1);
      assert RestOf(keys, i, key[d..]);
    }
  }

  lemma OverrunsWhen(strings: map<nat, Key>, keys: seq<Key>, value: Key, prefix: Key)
    requires Listed(strings, keys)
    ensures Overruns(1, strings, value, prefix) <==> exists i: nat :: P.Overrun(keys, i, prefix) && keys[i] == value
  {
    hide RestOf, StrictlySorted;
    if i: nat :| i < |keys| && keys[i] == value {
      RestWhen(keys, i);
      AloneAmong(strings, keys, i, |value| - 1);
      if j: nat :| P.Overrun(keys, j, prefix) && keys[j] == value {
        SortedDistinct(keys, i, j);
      }
      assert P.Overrun(keys, i, prefix) <==> Overruns(1, strings, value, prefix);
    } else if j: nat :| P.Overrun(keys, j, prefix) && keys[j] == value {
      assert false;
    }
  }

  /** With only "a" held, the prefix "ab" finds it in the compact profile, and in no other. */
  lemma OverrunsExample(profile: nat, id: nat)
    ensures Overruns(profile, map[id := [97]], [97], [97, 98]) <==> profile == 1
  {
    var strings: map<nat, Key> := map[id := [97]];
    assert strings[id] == [97];
  }

  lemma AloneAmong(strings: map<nat, Key>, keys: seq<Key>, i: nat, n: int)
    requires Listed(strings, keys) && i < |keys|
    ensures n >= 0 ==> (Alone(keys, i, n) <==>
              forall id :: id in strings && strings[id] != keys[i] ==> !SharePrefix(strings[id], keys[i], n))
  {
    if n >= 0 {
      if Alone(keys, i, n) {
        forall id | id in strings && strings[id] != keys[i] ensures !SharePrefix(strings[id], keys[i], n) {
          assert strings[id] in keys;
          var j: nat :| j < |keys| && keys[j] == strings[id];
        }
      }
      if forall id :: id in strings && strings[id] != keys[i] ==> !SharePrefix(strings[id], keys[i], n) {
        forall j {:trigger keys[j]} | 0 <= j < |keys| && j != i ensures !SharePrefix(keys[j], keys[i], n) {
          assert keys[j] in keys;
          if keys[j] == keys[i] { SortedDistinct(keys, i, j); }
        }
      }
    }
  }
}
