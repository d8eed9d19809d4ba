/** The set of deleted ids, packed 64 to a word. */
module Tombstones {
  import opened Bits

  ghost predicate WordsOk(words: seq<nat>) {
    forall k :: 0 <= k < |words| ==> words[k] < WORD_SIZE
  }

  ghost predicate InWords(words: seq<nat>, id: nat) {
    id / 64 < |words| && Bit(words[id / 64], id % 64)
  }

  ghost function Members(words: seq<nat>): set<nat> {
    set id: nat | id < 64 * |words| && InWords(words, id)
  }

  lemma InMembers(words: seq<nat>, id: nat)
    ensures id in Members(words) <==> InWords(words, id)
  {
  }

  ghost predicate BitAbove(x: nat, base: nat, id: nat) {
    base <= id && Bit(x, id - base)
  }

  /** The numbers from base on whose bit is set in x, n of them looked at. */
  ghost function BitsFrom(x: nat, base: nat, n: nat): set<nat> {
    set id: nat | base <= id < base + n && BitAbove(x, base, id)
  }

  lemma {:induction false} BitsFromSize(x: nat, base: nat, n: nat)
    ensures |BitsFrom(x, base, n)| == OnesBelow(x, n)
    decreases n
  {
    if n == 0 {
      assert BitsFrom(x, base, 0) == {};
    } else {
      BitsFromSize(x, base, n - 1);
      var last := base + n - 1;
      assert BitsFrom(x, base, n) == BitsFrom(x, base, n - 1) + (if Bit(x, n - 1) then {last} else {});
    }
  }

  lemma WordOf(id: nat, k: nat)
    ensures id / 64 == k <==> 64 * k <= id < 64 * k + 64
    ensures id / 64 == k ==> id % 64 == id - 64 * k
  {
  }

  /** One word more holds its set bits more. */
  lemma MembersNext(words: seq<nat>, w: nat)
    requires w < WORD_SIZE
    ensures |Members(words + [w])| == |Members(words)| + Ones(w)
  {
    var n := |words|;
    var added := BitsFrom(w, 64 * n, 64);
    forall id: nat ensures id in Members(words + [w]) <==> id in Members(words) || id in added {
      WordOf(id, n);
      if id < 64 * n { WordOf(id, id / 64); }
    }
    assert Members(words + [w]) == Members(words) + added;
    assert Members(words) !! added;
    BitsFromSize(w, 64 * n, 64);
    Pow2Values();
    OnesCountsBits(w, 64);
  }

  class Tombstones {
    var words: seq<nat>
    /** The ids in the set. */
    ghost var ids: set<nat>

    ghost predicate Valid()
      reads this
    {
      WordsOk(words) && ids == Members(words)
    }

    constructor ()
      ensures Valid() && ids == {}
    {
      words, ids := [], {};
    }

    method Contains(id: nat) returns (r: bool)
      requires Valid()
      ensures r <==> id in ids
    {
      InMembers(words, id);
      var wordIndex, bitIndex := id / 64, id % 64;
      if wordIndex >= |words| {
        return false;
      }
      TestBit(words[wordIndex], bitIndex);
      r := And(words[wordIndex], Shl(1, bitIndex)) != 0;
    }

    method Add(id: nat) returns (added: bool)
      requires Valid()
      modifies this
      ensures Valid() && ids == old(ids) + {id}
      ensures added <==> id !in old(ids)
    {
      var wordIndex, bitIndex := id / 64, id % 64;
      ghost var before := words;
      if wordIndex >= |words| {
        words := words + seq(wordIndex + 1 - |words|, _ => 0);
      }
      SameMembers(before, words);
      InMembers(words, id);
      var mask := Shl(1, bitIndex);
      TestBit(words[wordIndex], bitIndex);
      SetBitOf(words[wordIndex], bitIndex);
      var alreadySet := And(words[wordIndex], mask) != 0;
      ghost var padded := words;
      words := words[wordIndex := Or(words[wordIndex], mask)];
      OneSet(padded, words, id);
      ids := ids + {id};
      return !alreadySet;
    }

    method Remove(id: nat) returns (removed: bool)
      requires Valid()
      modifies this
      ensures Valid() && ids == old(ids) - {id}
      ensures removed <==> id in old(ids)
    {
      InMembers(words, id);
      var wordIndex, bitIndex := id / 64, id % 64;
      if wordIndex >= |words| {
        return false;
      }
      var mask := Shl(1, bitIndex);
      TestBit(words[wordIndex], bitIndex);
      ClearBitOf(words[wordIndex], bitIndex);
      removed := And(words[wordIndex], mask) != 0;
      ghost var before := words;
      words := words[wordIndex := And(words[wordIndex], Not(mask, 64))];
      OneCleared(before, words, id);
      ids := ids - {id};
    }

    method Clear()
      modifies this
      ensures Valid() && ids == {}
    {
      words, ids := [], {};
    }

    method Empty() returns (r: bool)
      requires Valid()
      ensures r <==> ids == {}
    {
      var i := 0;
      while i < |words|
        invariant i <= |words| && forall k :: 0 <= k < i ==> words[k] == 0
      {
        if words[i] != 0 {
          SomeBit(words[i]);
          ghost var j: nat :| Bit(words[i], j);
          if 64 <= j { WordBits(words[i], j); }
          WordOf(64 * i + j, i);
          InMembers(words, 64 * i + j);
          return false;
        }
        i := i + 1;
      }
      forall id: nat ensures id !in ids {
        InMembers(words, id);
        ZeroBit(id % 64);
      }
      return true;
    }

    /** count: how many ids are in the set. */
    method Count() returns (total: nat)
      requires Valid()
      ensures total == |ids|
    {
      total := 0;
      var i := 0;
      while i < |words|
        invariant i <= |words| && total == |Members(words[..i])|
      {
        MembersNext(words[..i], words[i]);
        assert words[..i + 1] == words[..i] + [words[i]];
        total := total + Ones(words[i]);
        i := i + 1;
      }
      assert words[..i] == words;
    }
  }

  lemma {:induction false} SomeBit(x: nat)
    requires x > 0
    ensures exists j: nat :: Bit(x, j)
  {
    if x % 2 == 1 {
      assert Bit(x, 0);
    } else {
      SomeBit(x / 2);
      var j: nat :| Bit(x / 2, j);
      assert Bit(x, j + 1);
    }
  }

  /** Zero words at the end hold nothing. */
  lemma SameMembers(words: seq<nat>, padded: seq<nat>)
    requires |words| <= |padded| && padded[..|words|] == words && forall k :: |words| <= k < |padded| ==> padded[k] == 0
    ensures Members(padded) == Members(words)
  {
    forall id: nat ensures InWords(padded, id) <==> InWords(words, id) {
      ZeroBit(id % 64);
      if id / 64 < |words| { assert padded[..|words|][id / 64] == words[id / 64]; }
    }
    forall id: nat ensures id in Members(padded) <==> id in Members(words) {
      InMembers(padded, id);
      InMembers(words, id);
    }
  }

  lemma OneSet(words: seq<nat>, words': seq<nat>, id: nat)
    requires id / 64 < |words| == |words'|
    requires forall k :: 0 <= k < |words| && k != id / 64 ==> words'[k] == words[k]
    requires forall i: nat :: Bit(words'[id / 64], i) <==> i == id % 64 || Bit(words[id / 64], i)
    ensures Members(words') == Members(words) + {id}
  {
    forall x: nat ensures x in Members(words') <==> x in Members(words) || x == id {
      InMembers(words, x);
      InMembers(words', x);
      WordOf(x, id / 64);
      WordOf(id, id / 64);
    }
  }

  lemma OneCleared(words: seq<nat>, words': seq<nat>, id: nat)
    requires id / 64 < |words| == |words'|
    requires forall k :: 0 <= k < |words| && k != id / 64 ==> words'[k] == words[k]
    requires forall i: nat :: Bit(words'[id / 64], i) <==> i != id % 64 && Bit(words[id / 64], i)
    ensures Members(words') == Members(words) - {id}
  {
    forall x: nat ensures x in Members(words') <==> x in Members(words) && x != id {
      InMembers(words, x);
      InMembers(words', x);
      WordOf(x, id / 64);
      WordOf(id, id / 64);
    }
  }
}
