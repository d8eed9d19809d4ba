/** The order in which a walk through a hat-trie meets the keys. */
module HatOrder {
  import opened Options
  import opened Bits
  import opened Keys
  import opened Serialization
  import opened HatTree

  /** A tree with the order of the entries of each leaf; no path is longer than the bound. */
  datatype World = World(t: Tree, paths: Paths, root: Option<nat>, orders: map<nat, seq<Key>>, bound: nat)

  ghost predicate NoRepeats(s: seq<Key>) {
    forall i, j :: 0 <= i < j < |s| ==> s[i] != s[j]
  }

  ghost predicate OrderOk(w: World, n: nat)
    requires n in w.t && w.t[n].Leaf?
  {
    && n in w.orders && NoRepeats(w.orders[n])
    && forall rest :: rest in w.orders[n] <==> rest in w.t[n].entries
  }

  ghost predicate WorldOk(w: World) {
    && LinksOk(w.t, w.paths, w.root)
    && (forall n :: n in w.paths ==> |w.paths[n]| <= w.bound)
    && (forall n :: n in w.t && w.t[n].Leaf? ==> OrderOk(w, n))
  }

  ghost function MaxLen(paths: Paths): (r: nat)
    ensures forall n :: n in paths ==> |paths[n]| <= r
    decreases |paths|
  {
    if paths == map[] then 0
    else
      var n :| n in paths;
      var r := MaxLen(paths - {n});
      assert forall x :: x in paths && x != n ==> x in paths - {n};
      if |paths[n]| > r then |paths[n]| else r
  }

  ghost function Under(path: Key, rests: seq<Key>): (r: seq<Key>)
    ensures |r| == |rests| && forall i :: 0 <= i < |r| ==> r[i] == path + rests[i]
  {
    seq(|rests|, i requires 0 <= i < |rests| => path + rests[i])
  }

  /** The keys at a node and below it: its own first, then those of its children by their bytes. */
  ghost function Sub(w: World, n: nat): seq<Key>
    requires WorldOk(w) && n in w.t
    decreases w.bound - |w.paths[n]|, 257
  {
    if w.t[n].Leaf? then
      assert OrderOk(w, n);
      Under(w.paths[n], w.orders[n])
    else (if w.t[n].value.Some? then [w.paths[n]] else []) + From(w, n, 0)
  }

  /** The keys of the children from a byte on. */
  ghost function From(w: World, n: nat, c: nat): seq<Key>
    requires WorldOk(w) && n in w.t && w.t[n].Branch? && c <= 256
    decreases w.bound - |w.paths[n]|, 256 - c
  {
    if c == 256 then []
    else
      (if c in w.t[n].children then
         StepDown(w.t, w.paths, w.root, n, c);
         Sub(w, w.t[n].children[c])
       else [])
      + From(w, n, c + 1)
  }

  /** The keys that a walk meets when it has left a node behind. */
  ghost function After(w: World, n: nat): seq<Key>
    requires WorldOk(w) && n in w.t
    decreases |w.paths[n]|
  {
    assert LinkOk(w.t, w.paths, w.root, n);
    match w.t[n].up
    case None => []
    case Some(p) => From(w, p, w.t[n].childOf as nat + 1) + After(w, p)
  }

  /** The keys still to come from a child on, and from the children behind it. */
  lemma AfterChild(w: World, p: nat, c: byte)
    requires WorldOk(w) && p in w.t && w.t[p].Branch? && c in w.t[p].children
    ensures w.t[p].children[c] in w.t && After(w, w.t[p].children[c]) == From(w, p, c as nat + 1) + After(w, p)
    ensures From(w, p, c as nat) + After(w, p) == Sub(w, w.t[p].children[c]) + After(w, w.t[p].children[c])
  {
    StepDown(w.t, w.paths, w.root, p, c);
  }

  // ---------- which keys these are ----------

  /** A key of the map that goes on from the path of a node. */
  ghost predicate Below(w: World, m: map<Key, nat>, n: nat, key: Key)
    requires n in w.paths
  {
    key in m && w.paths[n] <= key
  }

  ghost predicate Denoted(w: World, m: map<Key, nat>) {
    WorldOk(w) && w.paths.Keys == w.t.Keys && Tells(w.t, w.paths, m)
  }

  lemma {:induction false} SubBelow(w: World, m: map<Key, nat>, n: nat, key: Key)
    requires Denoted(w, m) && n in w.t && key in Sub(w, n)
    ensures Below(w, m, n, key)
    decreases w.bound - |w.paths[n]|, 257
  {
    hide From;
    if w.t[n].Leaf? {
      assert OrderOk(w, n);
      var i :| 0 <= i < |w.orders[n]| && Sub(w, n)[i] == key;
      var rest := w.orders[n][i];
      assert key[|w.paths[n]|..] == rest;
      assert Gives(w.t, w.paths, n, key, w.t[n].entries[rest]);
      assert Given(w.t, w.paths, key, w.t[n].entries[rest]);
    } else if w.t[n].value.Some? && key == w.paths[n] {
      assert Gives(w.t, w.paths, n, key, w.t[n].value.value);
      assert Given(w.t, w.paths, key, w.t[n].value.value);
    } else {
      var c := FromBelow(w, m, n, 0, key);
    }
  }

  lemma {:induction false} FromBelow(w: World, m: map<Key, nat>, n: nat, c: nat, key: Key) returns (d: byte)
    requires Denoted(w, m) && n in w.t && w.t[n].Branch? && c <= 256 && key in From(w, n, c)
    ensures Below(w, m, n, key) && |w.paths[n]| < |key| && c <= d && key[|w.paths[n]|] == d && d in w.t[n].children
    ensures w.t[n].children[d] in w.t && key in Sub(w, w.t[n].children[d])
    decreases w.bound - |w.paths[n]|, 256 - c
  {
    hide Sub;
    if c < 256 {
      if key in From(w, n, c + 1) {
        d := FromBelow(w, m, n, c + 1, key);
      } else {
        d := c;
        StepDown(w.t, w.paths, w.root, n, d);
        SubBelow(w, m, w.t[n].children[d], key);
        ExtendsPrefix(w.paths[n], d, key);
      }
    }
  }

  lemma ExtendsPrefix(path: Key, c: byte, key: Key)
    requires path + [c] <= key
    ensures path <= key && |path| < |key| && key[|path|] == c
  {
    assert key[..|path| + 1] == path + [c];
    assert key[..|path|] == key[..|path| + 1][..|path|];
  }

  lemma {:induction false} InFrom(w: World, n: nat, c: nat, d: byte, key: Key)
    requires WorldOk(w) && n in w.t && w.t[n].Branch? && c <= d && d in w.t[n].children
    requires w.t[n].children[d] in w.t && key in Sub(w, w.t[n].children[d])
    ensures key in From(w, n, c)
    decreases d - c
  {
    hide Sub;
    if c < d {
      InFrom(w, n, c + 1, d, key);
    }
  }

  /** Every key of the map that goes on from the path of a node is met at it or below it. */
  lemma {:induction false} BelowSub(w: World, m: map<Key, nat>, n: nat, key: Key)
    requires Denoted(w, m) && n in w.t && Below(w, m, n, key)
    ensures key in Sub(w, n)
    decreases w.bound - |w.paths[n]|
  {
    hide From;
    var i := |w.paths[n]|;
    if w.t[n].Branch? && i < |key| && key[i] in w.t[n].children {
      var c := key[i];
      StepDown(w.t, w.paths, w.root, n, c);
      assert key[..i + 1] == w.paths[n] + [c];
      BelowSub(w, m, w.t[n].children[c], key);
      InFrom(w, n, 0, c, key);
    } else {
      assert Given(w.t, w.paths, key, m[key]);
      var x :| Gives(w.t, w.paths, x, key, m[key]);
      OnlyStop(w.t, w.paths, w.root, n, key, x, m[key]);
      if w.t[n].Leaf? {
        assert OrderOk(w, n);
        assert key == w.paths[n] + key[i..];
        var j :| 0 <= j < |w.orders[n]| && w.orders[n][j] == key[i..];
        assert Sub(w, n)[j] == key;
      }
    }
  }

  lemma JoinedNoRepeats(a: seq<Key>, b: seq<Key>)
    requires NoRepeats(a) && NoRepeats(b) && forall k :: k in a ==> k !in b
    ensures NoRepeats(a + b)
  {
    var s := a + b;
    forall i, j | 0 <= i < j < |s| ensures s[i] != s[j] {
      if i < |a| <= j {
        assert a[i] in a && b[j - |a|] in b;
      }
    }
  }

  lemma {:induction false} SubNoRepeats(w: World, m: map<Key, nat>, n: nat)
    requires Denoted(w, m) && n in w.t
    ensures NoRepeats(Sub(w, n))
    decreases w.bound - |w.paths[n]|, 257
  {
    hide From;
    if w.t[n].Leaf? {
      assert OrderOk(w, n);
      var s := Sub(w, n);
      forall i, j | 0 <= i < j < |s| ensures s[i] != s[j] {
        assert s[i][|w.paths[n]|..] == w.orders[n][i] && s[j][|w.paths[n]|..] == w.orders[n][j];
      }
    } else {
      FromNoRepeats(w, m, n, 0);
      var own := if w.t[n].value.Some? then [w.paths[n]] else [];
      forall k | k in From(w, n, 0) ensures k !in own {
        var d := FromBelow(w, m, n, 0, k);
      }
      JoinedNoRepeats(own, From(w, n, 0));
    }
  }

  lemma {:induction false} FromNoRepeats(w: World, m: map<Key, nat>, n: nat, c: nat)
    requires Denoted(w, m) && n in w.t && w.t[n].Branch? && c <= 256
    ensures NoRepeats(From(w, n, c))
    decreases w.bound - |w.paths[n]|, 256 - c
  {
    hide Sub;
    if c < 256 {
      FromNoRepeats(w, m, n, c + 1);
      if c in w.t[n].children {
        var child := w.t[n].children[c];
        StepDown(w.t, w.paths, w.root, n, c);
        SubNoRepeats(w, m, child);
        forall k | k in From(w, n, c + 1) ensures k !in Sub(w, child) {
          var d := FromBelow(w, m, n, c + 1, k);
          if k in Sub(w, child) {
            SubBelow(w, m, child, k);
            ExtendsPrefix(w.paths[n], c, k);
          }
        }
        JoinedNoRepeats(Sub(w, child), From(w, n, c + 1));
      }
    }
  }

  // ---------- places in a walk ----------

  /** Where a walk stands: at the value of a branch, at an entry of a leaf, or past the last key. */
  datatype Place = AtValue(n: nat) | AtEntry(leaf: nat, k: nat) | Over

  ghost predicate PlaceOk(w: World, p: Place) {
    match p
    case AtValue(n) => n in w.t && w.t[n].Branch? && w.t[n].value.Some?
    case AtEntry(n, k) => n in w.t && w.t[n].Leaf? && n in w.orders && k < |w.orders[n]|
    case Over => true
  }

  /** The keys still to come. */
  ghost function ToCome(w: World, p: Place): seq<Key>
    requires WorldOk(w) && PlaceOk(w, p)
  {
    match p
    case AtValue(n) => [w.paths[n]] + From(w, n, 0) + After(w, n)
    case AtEntry(n, k) => Under(w.paths[n], w.orders[n])[k..] + After(w, n)
    case Over => []
  }

  /** The key at a place. */
  ghost function KeyAt(w: World, p: Place): Key
    requires WorldOk(w) && PlaceOk(w, p) && p != Over
  {
    match p
    case AtValue(n) => w.paths[n]
    case AtEntry(n, k) => w.paths[n] + w.orders[n][k]
  }

  lemma FirstToCome(w: World, p: Place)
    requires WorldOk(w) && PlaceOk(w, p) && p != Over
    ensures ToCome(w, p) != [] && ToCome(w, p)[0] == KeyAt(w, p)
  {
    hide From, After;
  }

  ghost function NodeAt(p: Place): nat
    requires p != Over
  {
    match p
    case AtValue(n) => n
    case AtEntry(n, _) => n
  }

  lemma PlaceGives(w: World, m: map<Key, nat>, p: Place)
    requires Denoted(w, m) && PlaceOk(w, p) && p != Over
    ensures KeyAt(w, p) in m && Stops(w.t, w.paths, NodeAt(p), KeyAt(w, p))
            && Gives(w.t, w.paths, NodeAt(p), KeyAt(w, p), m[KeyAt(w, p)])
    ensures p.AtValue? ==> w.t[p.n].value == Some(m[KeyAt(w, p)])
    ensures p.AtEntry? ==>
              w.orders[p.leaf][p.k] in w.t[p.leaf].entries
              && w.t[p.leaf].entries[w.orders[p.leaf][p.k]] == m[KeyAt(w, p)]
  {
    var key := KeyAt(w, p);
    match p
    case AtValue(n) =>
      assert Gives(w.t, w.paths, n, key, w.t[n].value.value);
      assert Given(w.t, w.paths, key, w.t[n].value.value);
    case AtEntry(n, k) =>
      assert OrderOk(w, n);
      assert w.orders[n][k] in w.orders[n];
      var v := w.t[n].entries[w.orders[n][k]];
      assert key[|w.paths[n]|..] == w.orders[n][k];
      assert Gives(w.t, w.paths, n, key, v);
      assert Given(w.t, w.paths, key, v);
  }

  /** What is still to come tells where the walk stands. */
  lemma ToComeTells(w: World, m: map<Key, nat>, p: Place, q: Place)
    requires Denoted(w, m) && PlaceOk(w, p) && PlaceOk(w, q) && ToCome(w, p) == ToCome(w, q)
    ensures p == q
  {
    if p != Over { FirstToCome(w, p); }
    if q != Over { FirstToCome(w, q); }
    if p != Over && q != Over {
      var key := KeyAt(w, p);
      PlaceGives(w, m, p);
      PlaceGives(w, m, q);
      OnlyStop(w.t, w.paths, w.root, NodeAt(p), key, NodeAt(q), m[key]);
      if p.AtEntry? {
        assert OrderOk(w, p.leaf);
        assert w.orders[p.leaf][p.k] == key[|w.paths[p.leaf]|..] == w.orders[q.leaf][q.k];
      }
    }
  }
}
