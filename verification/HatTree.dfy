/** The tree of a hat-trie: branches with a child per byte and maybe a value, leaves with the
    rests of many keys. Nodes refer to one another, up and down. */
module HatTree {
  import opened Options
  import opened Bits
  import opened Keys
  import opened Serialization

  /** A node; a leaf stands for the map its array hash denotes. */
  datatype Node =
    | Branch(up: Option<nat>, childOf: byte, value: Option<nat>, children: map<byte, nat>)
    | Leaf(up: Option<nat>, childOf: byte, entries: map<Key, nat>)

  type Tree = map<nat, Node>
  type Paths = map<nat, Key>

  /** A node stands where its parent says, one byte further down. */
  ghost predicate LinkOk(t: Tree, paths: Paths, root: Option<nat>, n: nat)
    requires n in t && paths.Keys == t.Keys
  {
    match t[n].up
    case None => root == Some(n) && paths[n] == []
    case Some(p) =>
      && root != Some(n) && p in t && t[p].Branch?
      && t[n].childOf in t[p].children && t[p].children[t[n].childOf] == n
      && paths[n] == paths[p] + [t[n].childOf]
  }

  ghost predicate KidsOk(t: Tree, n: nat)
    requires n in t
  {
    t[n].Branch? ==>
      forall c :: c in t[n].children ==>
        t[n].children[c] in t && t[t[n].children[c]].up == Some(n) && t[t[n].children[c]].childOf == c
  }

  predicate IsEmpty(x: Node) {
    if x.Branch? then x.value.None? && x.children == map[] else x.entries == map[]
  }

  ghost predicate LinksOk(t: Tree, paths: Paths, root: Option<nat>) {
    && paths.Keys == t.Keys
    && (root.Some? ==> root.value in t && t[root.value].up == None)
    && (forall n {:trigger LinkOk(t, paths, root, n)} :: n in t ==> LinkOk(t, paths, root, n))
    && (forall n {:trigger KidsOk(t, n)} :: n in t ==> KidsOk(t, n))
  }

  /** A node with this path says that the key has the value. */
  ghost predicate Says(x: Node, path: Key, key: Key, value: nat) {
    && path <= key
    && if x.Branch? then key == path && x.value == Some(value)
       else key[|path|..] in x.entries && x.entries[key[|path|..]] == value
  }

  ghost predicate Gives(t: Tree, paths: Paths, n: nat, key: Key, value: nat)
    requires paths.Keys == t.Keys
  {
    n in t && Says(t[n], paths[n], key, value)
  }

  ghost predicate Given(t: Tree, paths: Paths, key: Key, value: nat)
    requires paths.Keys == t.Keys
  {
    exists n :: Gives(t, paths, n, key, value)
  }

  /** The nodes together say what the map says. */
  ghost predicate Tells(t: Tree, paths: Paths, m: map<Key, nat>)
    requires paths.Keys == t.Keys
  {
    forall key, value :: Given(t, paths, key, value) <==> key in m && m[key] == value
  }

  ghost function JudgeTree(t: Tree, paths: Paths, root: Option<nat>, m: map<Key, nat>, hole: Option<nat>): Verdict {
    if
      && LinksOk(t, paths, root) && Tells(t, paths, m)
      && forall n :: n in t && hole != Some(n) ==> !IsEmpty(t[n])
    then Sound else Unsound
  }

  /** The tree denotes the map, and no node but the hole is empty. */
  ghost predicate TreeOk(t: Tree, paths: Paths, root: Option<nat>, m: map<Key, nat>, hole: Option<nat>) {
    JudgeTree(t, paths, root, m, hole).Sound?
  }

  // ---------- paths ----------

  /** Different nodes have different paths. */
  lemma {:induction false} SamePath(t: Tree, paths: Paths, root: Option<nat>, a: nat, b: nat)
    requires LinksOk(t, paths, root) && a in t && b in t && paths[a] == paths[b]
    ensures a == b
    decreases |paths[a]|
  {
    assert LinkOk(t, paths, root, a) && LinkOk(t, paths, root, b);
    if t[a].up.Some? && t[b].up.Some? {
      var p, q := t[a].up.value, t[b].up.value;
      assert paths[p] == paths[a][..|paths[a]| - 1] == paths[q];
      SamePath(t, paths, root, p, q);
    }
  }

  /** The node above n at depth j, and the way down from it. */
  lemma {:induction false} Ancestor(t: Tree, paths: Paths, root: Option<nat>, n: nat, j: nat) returns (a: nat)
    requires LinksOk(t, paths, root) && n in t && j <= |paths[n]|
    ensures a in t && paths[a] == paths[n][..j]
    ensures j < |paths[n]| ==> t[a].Branch? && paths[n][j] in t[a].children
    decreases |paths[n]|
  {
    assert LinkOk(t, paths, root, n);
    if j == |paths[n]| {
      a := n;
      assert paths[n][..j] == paths[n];
    } else {
      var p := t[n].up.value;
      if j == |paths[p]| {
        a := p;
        assert paths[n][..j] == paths[p];
      } else {
        a := Ancestor(t, paths, root, p, j);
        assert paths[n][..j] == paths[p][..j];
      }
    }
  }

  /** Where the search for a key comes to its end. */
  ghost predicate Stops(t: Tree, paths: Paths, n: nat, key: Key)
    requires paths.Keys == t.Keys
  {
    && n in t && paths[n] <= key
    && (t[n].Branch? ==> |paths[n]| == |key| || key[|paths[n]|] !in t[n].children)
  }

  /** Only the node at which the search ends can give a value. */
  lemma OnlyStop(t: Tree, paths: Paths, root: Option<nat>, n: nat, key: Key, x: nat, value: nat)
    requires LinksOk(t, paths, root) && Stops(t, paths, n, key) && Gives(t, paths, x, key, value)
    ensures x == n
  {
    var i, j := |paths[n]|, |paths[x]|;
    if j < i {
      var a := Ancestor(t, paths, root, n, j);
      assert paths[a] == paths[n][..j] == key[..j] == paths[x];
      SamePath(t, paths, root, a, x);
    } else if j == i {
      SamePath(t, paths, root, n, x);
    } else {
      var a := Ancestor(t, paths, root, x, i);
      assert paths[a] == paths[x][..i] == key[..i] == paths[n];
      SamePath(t, paths, root, a, n);
    }
  }

  /** What the node at which the search ends says decides. */
  lemma StopDecides(t: Tree, paths: Paths, root: Option<nat>, m: map<Key, nat>, hole: Option<nat>, n: nat, key: Key)
    requires TreeOk(t, paths, root, m, hole) && paths.Keys == t.Keys && Stops(t, paths, n, key)
    ensures t[n].Branch? ==>
              (key in m <==> paths[n] == key && t[n].value.Some?) && (key in m ==> m[key] == t[n].value.value)
    ensures t[n].Leaf? ==> var rest := key[|paths[n]|..];
                           (key in m <==> rest in t[n].entries) && (key in m ==> m[key] == t[n].entries[rest])
  {
    if key in m {
      assert Given(t, paths, key, m[key]);
      var x :| Gives(t, paths, x, key, m[key]);
      OnlyStop(t, paths, root, n, key, x, m[key]);
    }
    if t[n].Branch? {
      if paths[n] == key && t[n].value.Some? {
        assert Gives(t, paths, n, key, t[n].value.value);
        assert Given(t, paths, key, t[n].value.value);
      }
    } else {
      var rest := key[|paths[n]|..];
      if rest in t[n].entries {
        assert Gives(t, paths, n, key, t[n].entries[rest]);
        assert Given(t, paths, key, t[n].entries[rest]);
      }
    }
  }

  /** A step down the tree. */
  lemma StepDown(t: Tree, paths: Paths, root: Option<nat>, n: nat, c: byte)
    requires LinksOk(t, paths, root) && n in t && t[n].Branch? && c in t[n].children
    ensures t[n].children[c] in t && paths[t[n].children[c]] == paths[n] + [c]
    ensures t[t[n].children[c]].up == Some(n) && t[t[n].children[c]].childOf == c && t[n].children[c] != n
  {
    assert KidsOk(t, n);
    assert LinkOk(t, paths, root, t[n].children[c]);
  }

  /** Every node lies below the root. */
  lemma BelowRoot(t: Tree, paths: Paths, root: Option<nat>, n: nat)
    requires LinksOk(t, paths, root) && n in t
    ensures root.Some? && root.value in t && paths[root.value] == []
    ensures n != root.value ==> t[root.value].Branch? && t[root.value].children != map[]
  {
    var a := Ancestor(t, paths, root, n, 0);
    assert LinkOk(t, paths, root, a);
    assert root == Some(a);
    if n != a && |paths[n]| == 0 {
      SamePath(t, paths, root, a, n);
    }
  }

  // ---------- changes of the tree ----------

  /** The same node in the tree, with other contents. */
  ghost predicate Refill(x: Node, y: Node) {
    x.up == y.up && x.childOf == y.childOf && (if x.Branch? then y.Branch? && x.children == y.children else y.Leaf?)
  }

  lemma RefillLinks(t: Tree, paths: Paths, root: Option<nat>, n: nat, x: Node)
    requires LinksOk(t, paths, root) && n in t && Refill(t[n], x)
    ensures LinksOk(t[n := x], paths, root)
  {
    var t' := t[n := x];
    assert t'.Keys == t.Keys;
    forall y | y in t' ensures LinkOk(t', paths, root, y) {
      assert LinkOk(t, paths, root, y);
    }
    forall y | y in t' ensures KidsOk(t', y) {
      assert KidsOk(t, y);
    }
  }

  /** Two trees have the same to say but for the nodes of d. */
  ghost predicate SameBut(t: Tree, paths: Paths, t': Tree, paths': Paths, d: set<nat>)
    requires paths.Keys == t.Keys && paths'.Keys == t'.Keys
  {
    && (forall n :: n in t && n !in d ==> n in t' && paths'[n] == paths[n] && SameContent(t[n], t'[n]))
    && (forall n :: n in t' && n !in d ==> n in t)
  }

  ghost predicate SameContent(x: Node, y: Node) {
    if x.Branch? then y.Branch? && x.value == y.value else y.Leaf? && x.entries == y.entries
  }

  ghost predicate GivenIn(t: Tree, paths: Paths, key: Key, value: nat, d: set<nat>)
    requires paths.Keys == t.Keys
  {
    exists n :: n in d && Gives(t, paths, n, key, value)
  }

  /** What is said changes as the nodes of d change what they say. */
  lemma GivenBut(t: Tree, paths: Paths, t': Tree, paths': Paths, d: set<nat>, key: Key, value: nat)
    requires paths.Keys == t.Keys && paths'.Keys == t'.Keys && SameBut(t, paths, t', paths', d)
    requires GivenIn(t, paths, key, value, d) <==> GivenIn(t', paths', key, value, d)
    ensures Given(t, paths, key, value) <==> Given(t', paths', key, value)
  {
    if Given(t, paths, key, value) {
      var n :| Gives(t, paths, n, key, value);
      assert n !in d ==> Gives(t', paths', n, key, value);
    }
    if Given(t', paths', key, value) {
      var n :| Gives(t', paths', n, key, value);
      assert n !in d ==> Gives(t, paths, n, key, value);
    }
  }

  /** The maps agree on all keys but one. */
  ghost predicate AgreeBut(m: map<Key, nat>, m': map<Key, nat>, key: Key) {
    forall k :: k != key ==> (k in m <==> k in m') && (k in m ==> m[k] == m'[k])
  }

  /** The search for the key ends at n, and n changes what it says about this key only. */
  lemma RefillTells(t: Tree, paths: Paths, root: Option<nat>, m: map<Key, nat>, n: nat, x: Node, key: Key,
      m': map<Key, nat>)
    requires LinksOk(t, paths, root) && Tells(t, paths, m) && Stops(t, paths, n, key) && Refill(t[n], x)
             && AgreeBut(m, m', key)
    requires forall k, v :: k != key ==> (Says(t[n], paths[n], k, v) <==> Says(x, paths[n], k, v))
    requires forall v :: Says(x, paths[n], key, v) <==> key in m' && m'[key] == v
    ensures Tells(t[n := x], paths, m')
  {
    hide Says;
    var t' := t[n := x];
    assert t'.Keys == t.Keys;
    forall k, v ensures Given(t', paths, k, v) <==> k in m' && m'[k] == v {
      if k != key {
        assert GivenIn(t, paths, k, v, {n}) <==>
                 Says(t[n], paths[n], k, v) by { assert GivenIn(t, paths, k, v, {n}) <==> Gives(t, paths, n, k, v); }
        assert GivenIn(t', paths, k, v, {n}) <==>
                 Says(x, paths[n], k, v) by { assert GivenIn(t', paths, k, v, {n}) <==> Gives(t', paths, n, k, v); }
        GivenBut(t, paths, t', paths, {n}, k, v);
      } else {
        if Given(t', paths, k, v) {
          var y :| Gives(t', paths, y, k, v);
          if y != n {
            assert Gives(t, paths, y, k, v);
            OnlyStop(t, paths, root, n, key, y, v);
          }
        }
        if Says(x, paths[n], key, v) { assert Gives(t', paths, n, k, v); }
      }
    }
  }

  /** Another value in a branch, or none. */
  lemma ValueSet(t: Tree, paths: Paths, root: Option<nat>, m: map<Key, nat>, n: nat, value: Option<nat>)
    requires TreeOk(t, paths, root, m, None) && n in t && t[n].Branch? && paths.Keys == t.Keys
    ensures var x := t[n].(value := value);
            TreeOk(t[n := x], paths, root, if value.Some? then m[paths[n] := value.value] else m - {paths[n]},
                if IsEmpty(x) then Some(n) else None)
  {
    hide LinkOk, KidsOk, Given;
    var x := t[n].(value := value);
    RefillLinks(t, paths, root, n, x);
    RefillTells(t, paths, root, m, n, x, paths[n], if value.Some? then m[paths[n] := value.value] else m - {paths[n]});
  }

  lemma RestIs(path: Key, key: Key, rest: Key)
    requires path <= key
    ensures key[|path|..] == rest <==> key == path + rest
  {
  }

  /** Other entries in a leaf: one more, or one less. */
  lemma EntriesSet(t: Tree, paths: Paths, root: Option<nat>, m: map<Key, nat>, hole: Option<nat>, n: nat, rest: Key,
      value: Option<nat>)
    requires TreeOk(t, paths, root, m, hole) && (hole.Some? ==> hole == Some(n)) && n in t && t[n].Leaf?
             && paths.Keys == t.Keys
    ensures var x := t[n].(entries := if value.Some? then t[n].entries[rest := value.value] else t[n].entries - {rest});
            var key := paths[n] + rest;
            TreeOk(t[n := x], paths, root, if value.Some? then m[key := value.value] else m - {key},
                if IsEmpty(x) then Some(n) else None)
  {
    hide LinkOk, KidsOk, Given;
    var x := t[n].(entries := if value.Some? then t[n].entries[rest := value.value] else t[n].entries - {rest});
    var key := paths[n] + rest;
    assert key[|paths[n]|..] == rest;
    forall k, v | k != key ensures Says(t[n], paths[n], k, v) <==> Says(x, paths[n], k, v) {
      if paths[n] <= k { RestIs(paths[n], k, rest); }
    }
    RefillLinks(t, paths, root, n, x);
    RefillTells(t, paths, root, m, n, x, key, if value.Some? then m[key := value.value] else m - {key});
  }

  // ---------- a new leaf ----------

  function Planted(t: Tree, p: nat, c: byte, n: nat, entries: map<Key, nat>): Tree
    requires p in t && t[p].Branch?
  {
    t[p := t[p].(children := t[p].children[c := n])][n := Leaf(Some(p), c, entries)]
  }

  lemma PlantLinks(t: Tree, paths: Paths, root: Option<nat>, p: nat, c: byte, n: nat, entries: map<Key, nat>)
    requires LinksOk(t, paths, root) && p in t && t[p].Branch? && c !in t[p].children && n !in t
    ensures LinksOk(Planted(t, p, c, n, entries), paths[n := paths[p] + [c]], root)
  {
    hide LinkOk, KidsOk;
    var t' := Planted(t, p, c, n, entries);
    var paths' := paths[n := paths[p] + [c]];
    assert t'.Keys == t.Keys + {n};
    forall y | y in t' ensures LinkOk(t', paths', root, y) && KidsOk(t', y) {
      PlantLink(t, paths, root, p, c, n, entries, y);
      PlantKids(t, p, c, n, entries, y);
    }
    PlantRoot(t, root, p, c, n, entries);
  }

  lemma PlantLink(t: Tree, paths: Paths, root: Option<nat>, p: nat, c: byte, n: nat, entries: map<Key, nat>, y: nat)
    requires paths.Keys == t.Keys && p in t && t[p].Branch? && c !in t[p].children && n !in t
    requires y == n || (y in t && LinkOk(t, paths, root, y))
    requires root.Some? ==> root.value in t
    ensures var t', paths' := Planted(t, p, c, n, entries), paths[n := paths[p] + [c]]; paths'.Keys == t'.Keys && y in t' && LinkOk(t', paths', root, y)
  {
    assert Planted(t, p, c, n, entries).Keys == t.Keys + {n};
  }

  lemma PlantKids(t: Tree, p: nat, c: byte, n: nat, entries: map<Key, nat>, y: nat)
    requires p in t && t[p].Branch? && c !in t[p].children && n !in t && (y == n || (y in t && KidsOk(t, y)))
    ensures var t' := Planted(t, p, c, n, entries); y in t' && KidsOk(t', y)
  {
  }

  lemma PlantRoot(t: Tree, root: Option<nat>, p: nat, c: byte, n: nat, entries: map<Key, nat>)
    requires p in t && t[p].Branch? && n !in t && (root.Some? ==> root.value in t && t[root.value].up == None)
    ensures var t' := Planted(t, p, c, n, entries); root.Some? ==> root.value in t' && t'[root.value].up == None
  {
  }

  /** A branch without a child for the next byte is given a leaf with the rest of the key. */
  lemma LeafPlanted(t: Tree, paths: Paths, root: Option<nat>, m: map<Key, nat>, p: nat, c: byte, n: nat, rest: Key,
      value: nat)
    requires TreeOk(t, paths, root, m, None) && paths.Keys == t.Keys && p in t && t[p].Branch?
             && c !in t[p].children && n !in t
    ensures paths[p] + [c] + rest !in m
    ensures TreeOk(Planted(t, p, c, n, map[rest := value]), paths[n := paths[p] + [c]], root,
        m[paths[p] + [c] + rest := value], None)
  {
    hide LinkOk, KidsOk;
    var t' := Planted(t, p, c, n, map[rest := value]);
    var paths' := paths[n := paths[p] + [c]];
    var key := paths[p] + [c] + rest;
    var m' := m[key := value];
    StopDecides(t, paths, root, m, None, p, key);
    PlantLinks(t, paths, root, p, c, n, map[rest := value]);
    assert rest in t'[n].entries && (p != n ==> c in t'[p].children);
    PlantTells(t, paths, m, p, c, n, rest, value);
  }

  lemma PlantTells(t: Tree, paths: Paths, m: map<Key, nat>, p: nat, c: byte, n: nat, rest: Key, value: nat)
    requires paths.Keys == t.Keys && Tells(t, paths, m) && p in t && t[p].Branch? && n !in t
             && paths[p] + [c] + rest !in m
    ensures Planted(t, p, c, n, map[rest := value]).Keys == paths[n := paths[p] + [c]].Keys
    ensures Tells(Planted(t, p, c, n, map[rest := value]), paths[n := paths[p] + [c]],
        m[paths[p] + [c] + rest := value])
  {
    hide Given;
    var t' := Planted(t, p, c, n, map[rest := value]);
    var paths' := paths[n := paths[p] + [c]];
    var key := paths[p] + [c] + rest;
    forall k, v ensures Given(t', paths', k, v) <==> k in m[key := value] && m[key := value][k] == v {
      if paths'[n] <= k { RestIs(paths'[n], k, rest); }
      assert Says(t'[n], paths'[n], k, v) <==> k == key && v == value by {
        if k == key { assert key[|paths'[n]|..] == rest; }
      }
      GivenOr(t, paths, t', paths', n, k, v);
    }
  }

  /** One more node has a say. */
  lemma GivenOr(t: Tree, paths: Paths, t': Tree, paths': Paths, n: nat, key: Key, value: nat)
    requires paths.Keys == t.Keys && paths'.Keys == t'.Keys && SameBut(t, paths, t', paths', {n}) && n !in t && n in t'
    ensures Given(t', paths', key, value) <==> Given(t, paths, key, value) || Says(t'[n], paths'[n], key, value)
  {
    if Given(t', paths', key, value) {
      var x :| Gives(t', paths', x, key, value);
      assert x != n ==> Gives(t, paths, x, key, value);
    }
    if Given(t, paths, key, value) {
      var x :| Gives(t, paths, x, key, value);
      assert Gives(t', paths', x, key, value);
    }
    if Says(t'[n], paths'[n], key, value) {
      assert Gives(t', paths', n, key, value);
    }
  }

  // ---------- bursting ----------

  /** The entries of a leaf that go on with a byte, without it. */
  ghost function Rests(entries: map<Key, nat>, c: byte): (r: map<Key, nat>)
    ensures forall w :: w in r <==> [c] + w in entries
    ensures forall w :: w in r ==> r[w] == entries[[c] + w]
  {
    var tails := set k | k in entries && k != [] && k[0] == c :: k[1..];
    assert forall w :: [c] + w in entries ==> ([c] + w)[0] == c && ([c] + w)[1..] == w;
    map w | w in tails && [c] + w in entries :: entries[[c] + w]
  }

  /** The children of b are new leaves with the rests of the entries. */
  ghost predicate KidsNew(t: Tree, b: nat, kids: map<byte, nat>, entries: map<Key, nat>) {
    && b !in t && (forall c :: c in kids ==> kids[c] !in t && kids[c] != b)
    && (forall c, d :: c in kids && d in kids && kids[c] == kids[d] ==> c == d)
    && (forall c :: c in kids <==> Rests(entries, c) != map[])
  }

  /** A child that is not n stays, and b comes in the place of n. */
  function Rehung(x: Node, up: Option<nat>, childOf: byte, y: nat, b: nat): Node {
    if x.Branch? && up == Some(y) then x.(children := x.children[childOf := b]) else x
  }

  function Grown(x: Node, kids: map<byte, nat>): Node
    requires x.Leaf?
  {
    Branch(x.up, x.childOf, if [] in x.entries then Some(x.entries[[]]) else None, kids)
  }

  /** Leaf n has become branch b, with leaves of its own. */
  ghost predicate BurstInto(t: Tree, paths: Paths, n: nat, b: nat, kids: map<byte, nat>, t': Tree, paths': Paths)
    requires paths.Keys == t.Keys && n in t && t[n].Leaf?
  {
    && KidsNew(t, b, kids, t[n].entries)
    && t'.Keys == t.Keys - {n} + {b} + kids.Values && paths'.Keys == t'.Keys
    && (forall x :: x in t && x != n ==> paths'[x] == paths[x] && t'[x] == Rehung(t[x], t[n].up, t[n].childOf, x, b))
    && t'[b] == Grown(t[n], kids) && paths'[b] == paths[n]
    && (forall c :: c in kids ==> t'[kids[c]] == Leaf(Some(b), c, Rests(t[n].entries, c)) && paths'[kids[c]] == paths[n] + [c])
  }

  lemma BurstOldLink(t: Tree, paths: Paths, root: Option<nat>, n: nat, b: nat, kids: map<byte, nat>, t': Tree,
      paths': Paths, y: nat)
    requires LinksOk(t, paths, root) && n in t && t[n].Leaf? && BurstInto(t, paths, n, b, kids, t', paths')
             && y in t && y != n
    ensures y in t' && LinkOk(t', paths', if root == Some(n) then Some(b) else root, y)
  {
    hide Rests, KidsNew, Grown, KidsOk;
    BurstNew(t, paths, n, b, kids, t', paths');
    assert LinkOk(t, paths, root, n) && LinkOk(t, paths, root, y);
    assert t'[y] == Rehung(t[y], t[n].up, t[n].childOf, y, b);
    if t[y].up.Some? {
      var p := t[y].up.value;
      assert t'[p] == Rehung(t[p], t[n].up, t[n].childOf, p, b);
    }
  }

  lemma BurstOldKids(t: Tree, paths: Paths, root: Option<nat>, n: nat, b: nat, kids: map<byte, nat>, t': Tree,
      paths': Paths, y: nat)
    requires LinksOk(t, paths, root) && n in t && t[n].Leaf? && BurstInto(t, paths, n, b, kids, t', paths')
             && y in t && y != n
    ensures y in t' && KidsOk(t', y)
  {
    hide Rests, KidsNew;
    BurstNew(t, paths, n, b, kids, t', paths');
    assert LinkOk(t, paths, root, n) && KidsOk(t, y);
    assert t'[y] == Rehung(t[y], t[n].up, t[n].childOf, y, b);
    if t[y].Branch? {
      forall c | c in t'[y].children ensures t'[y].children[c] in t' && t'[t'[y].children[c]].up == Some(y)
      && t'[t'[y].children[c]].childOf == c {
        if t[n].up == Some(y) && c == t[n].childOf {
          assert t'[y].children[c] == b;
        } else {
          var x := t[y].children[c];
          assert x in t && x != n && t'[x] == Rehung(t[x], t[n].up, t[n].childOf, x, b);
        }
      }
    }
  }

  lemma BurstNew(t: Tree, paths: Paths, n: nat, b: nat, kids: map<byte, nat>, t': Tree, paths': Paths)
    requires paths.Keys == t.Keys && n in t && t[n].Leaf? && BurstInto(t, paths, n, b, kids, t', paths')
    ensures b !in t && b in t' && n !in t' && (forall y :: y in t && y != n ==> y in t')
    ensures forall y :: y in t' && y !in t && y != b ==> exists c :: c in kids && kids[c] == y
    ensures forall c :: c in kids ==> kids[c] in t' && kids[c] !in t && kids[c] != b
  {
    hide Rests, Rehung, Grown;
  }

  lemma BurstLinks(t: Tree, paths: Paths, root: Option<nat>, n: nat, b: nat, kids: map<byte, nat>, t': Tree,
      paths': Paths)
    requires LinksOk(t, paths, root) && n in t && t[n].Leaf? && BurstInto(t, paths, n, b, kids, t', paths')
    ensures LinksOk(t', paths', if root == Some(n) then Some(b) else root)
  {
    hide Rests, Rehung, KidsNew;
    var root' := if root == Some(n) then Some(b) else root;
    BurstNew(t, paths, n, b, kids, t', paths');
    forall y | y in t' ensures LinkOk(t', paths', root', y) && KidsOk(t', y) {
      if y in t {
        BurstOldLink(t, paths, root, n, b, kids, t', paths', y);
        BurstOldKids(t, paths, root, n, b, kids, t', paths', y);
      } else if y != b {
        var c :| c in kids && kids[c] == y;
        assert t'[y].up == Some(b);
      } else {
        BurstBranch(t, paths, root, n, b, kids, t', paths');
      }
    }
    assert root.Some? && root != Some(n) ==>
             t'[root.value] == Rehung(t[root.value], t[n].up, t[n].childOf, root.value, b);
    BurstRoot(t, paths, root, n, b, kids, t', paths');
  }

  lemma BurstBranch(t: Tree, paths: Paths, root: Option<nat>, n: nat, b: nat, kids: map<byte, nat>, t': Tree,
      paths': Paths)
    requires LinksOk(t, paths, root) && n in t && t[n].Leaf? && BurstInto(t, paths, n, b, kids, t', paths')
    ensures b in t' && LinkOk(t', paths', if root == Some(n) then Some(b) else root, b) && KidsOk(t', b)
  {
    hide Rests;
    BurstNew(t, paths, n, b, kids, t', paths');
    assert LinkOk(t, paths, root, n);
    if t[n].up.Some? {
      var p := t[n].up.value;
      assert p != n && t'[p] == Rehung(t[p], t[n].up, t[n].childOf, p, b);
    }
  }

  lemma BurstRoot(t: Tree, paths: Paths, root: Option<nat>, n: nat, b: nat, kids: map<byte, nat>, t': Tree,
      paths': Paths)
    requires LinksOk(t, paths, root) && n in t && t[n].Leaf? && BurstInto(t, paths, n, b, kids, t', paths')
    ensures var root' := if root == Some(n) then Some(b) else root; root'.Some? ==>
              root'.value in t' && t'[root'.value].up == None
  {
    hide Rests, KidsNew;
    BurstNew(t, paths, n, b, kids, t', paths');
    assert LinkOk(t, paths, root, n);
  }

  /** The branch made of leaf x says so, or its leaf for the next byte. */
  ghost predicate SaysBurst(x: Node, path: Key, kids: map<byte, nat>, key: Key, value: nat, up: Option<nat>)
    requires x.Leaf?
  {
    || Says(Grown(x, kids), path, key, value)
    || (|path| < |key| && key[|path|] in kids && Says(Leaf(up, key[|path|], Rests(x.entries, key[|path|])),
        path + [key[|path|]], key, value))
  }

  /** What a leaf says is what the branch and the leaves say that it bursts into. */
  lemma BurstSays(x: Node, path: Key, kids: map<byte, nat>, key: Key, value: nat, up: Option<nat>)
    requires x.Leaf? && forall c :: c in kids <==> Rests(x.entries, c) != map[]
    ensures Says(x, path, key, value) <==> SaysBurst(x, path, kids, key, value, up)
  {
    if path <= key {
      var rest := key[|path|..];
      if rest != [] {
        var c := key[|path|];
        assert key[..|path| + 1] == path + [c];
        assert rest == [c] + key[|path| + 1..] && |path + [c]| == |path| + 1;
        assert key[|path| + 1..] in Rests(x.entries, c) <==> rest in x.entries;
      } else {
        assert key == path;
      }
    }
  }

  lemma BurstSame(t: Tree, paths: Paths, n: nat, b: nat, kids: map<byte, nat>, t': Tree, paths': Paths)
    requires paths.Keys == t.Keys && n in t && t[n].Leaf? && BurstInto(t, paths, n, b, kids, t', paths')
    ensures SameBut(t, paths, t', paths', {n, b} + kids.Values)
  {
    hide Rests, KidsNew, Grown;
    BurstNew(t, paths, n, b, kids, t', paths');
  }

  lemma BurstBefore(t: Tree, paths: Paths, n: nat, b: nat, kids: map<byte, nat>, key: Key, value: nat)
    requires paths.Keys == t.Keys && n in t && b !in t && forall c :: c in kids ==> kids[c] !in t
    ensures GivenIn(t, paths, key, value, {n, b} + kids.Values) <==> Says(t[n], paths[n], key, value)
  {
    hide Says;
    if Says(t[n], paths[n], key, value) {
      assert Gives(t, paths, n, key, value);
    }
  }

  lemma BurstAfter(t: Tree, paths: Paths, n: nat, b: nat, kids: map<byte, nat>, t': Tree, paths': Paths, key: Key,
      value: nat)
    requires paths.Keys == t.Keys && n in t && t[n].Leaf? && BurstInto(t, paths, n, b, kids, t', paths')
    ensures GivenIn(t', paths', key, value, {n, b} + kids.Values) <==>
              SaysBurst(t[n], paths[n], kids, key, value, Some(b))
  {
    hide Rests, Says, Grown, KidsNew, Rehung;
    BurstNew(t, paths, n, b, kids, t', paths');
    if GivenIn(t', paths', key, value, {n, b} + kids.Values) {
      var y :| y in {n, b} + kids.Values && Gives(t', paths', y, key, value);
      if y != b {
        var c :| c in kids && kids[c] == y;
        SaysBelow(t'[y], paths'[y], key, value);
        assert key[|paths[n]|] == paths'[y][|paths[n]|] == c;
      }
    }
    if Says(Grown(t[n], kids), paths[n], key, value) {
      assert Gives(t', paths', b, key, value);
    } else if |paths[n]| < |key| && key[|paths[n]|] in kids && Says(Leaf(Some(b), key[|paths[n]|],
        Rests(t[n].entries, key[|paths[n]|])), paths[n] + [key[|paths[n]|]], key, value) {
      assert Gives(t', paths', kids[key[|paths[n]|]], key, value);
    }
  }

  lemma BurstTells(t: Tree, paths: Paths, n: nat, b: nat, kids: map<byte, nat>, t': Tree, paths': Paths, key: Key,
      value: nat)
    requires paths.Keys == t.Keys && n in t && t[n].Leaf? && BurstInto(t, paths, n, b, kids, t', paths')
    ensures Given(t, paths, key, value) <==> Given(t', paths', key, value)
  {
    hide Rests, Says, Grown, KidsNew, Given, GivenIn, SameBut;
    BurstNew(t, paths, n, b, kids, t', paths');
    KidsNewFacts(t, b, kids, t[n].entries);
    BurstSays(t[n], paths[n], kids, key, value, Some(b));
    BurstBefore(t, paths, n, b, kids, key, value);
    BurstAfter(t, paths, n, b, kids, t', paths', key, value);
    BurstSame(t, paths, n, b, kids, t', paths');
    GivenBut(t, paths, t', paths', {n, b} + kids.Values, key, value);
  }

  lemma SaysBelow(x: Node, path: Key, key: Key, value: nat)
    requires Says(x, path, key, value)
    ensures path <= key
  {
  }

  lemma KidsNewFacts(t: Tree, b: nat, kids: map<byte, nat>, entries: map<Key, nat>)
    requires KidsNew(t, b, kids, entries)
    ensures b !in t && (forall c :: c in kids ==> kids[c] !in t && kids[c] != b)
    ensures forall c :: c in kids <==> Rests(entries, c) != map[]
  {
  }

  /** Bursting a leaf changes nothing of what the tree denotes. */
  lemma BurstOk(t: Tree, paths: Paths, root: Option<nat>, m: map<Key, nat>, n: nat, b: nat, kids: map<byte, nat>,
      t': Tree, paths': Paths)
    requires TreeOk(t, paths, root, m, None) && paths.Keys == t.Keys && n in t && t[n].Leaf?
             && BurstInto(t, paths, n, b, kids, t', paths')
    ensures TreeOk(t', paths', if root == Some(n) then Some(b) else root, m, None)
  {
    hide Rests, KidsNew, LinkOk, KidsOk, Given, Rehung;
    BurstLinks(t, paths, root, n, b, kids, t', paths');
    forall k, v ensures Given(t', paths', k, v) <==> k in m && m[k] == v {
      BurstTells(t, paths, n, b, kids, t', paths', k, v);
    }
    BurstNew(t, paths, n, b, kids, t', paths');
    KidsNewFacts(t, b, kids, t[n].entries);
    forall y | y in t' ensures !IsEmpty(t'[y]) {
      if y in t {
        RehungFull(t[y], t[n].up, t[n].childOf, y, b);
      } else if y == b {
        BurstFull(t[n], kids);
      } else {
        var c :| c in kids && kids[c] == y;
      }
    }
  }

  lemma RehungFull(x: Node, up: Option<nat>, childOf: byte, y: nat, b: nat)
    requires !IsEmpty(x)
    ensures !IsEmpty(Rehung(x, up, childOf, y, b))
  {
    if x.Branch? { assert childOf in x.children[childOf := b]; }
  }

  lemma BurstFull(x: Node, kids: map<byte, nat>)
    requires x.Leaf? && !IsEmpty(x) && forall c :: c in kids <==> Rests(x.entries, c) != map[]
    ensures !IsEmpty(Grown(x, kids))
  {
    var w :| w in x.entries;
    if w != [] {
      assert w == [w[0]] + w[1..];
      assert w[1..] in Rests(x.entries, w[0]);
      assert w[0] in kids;
    }
  }

  // ---------- empty nodes ----------

  lemma EmptySays(x: Node, path: Key, key: Key, value: nat)
    requires IsEmpty(x)
    ensures !Says(x, path, key, value)
  {
  }

  /** An empty node at the root is all there is. */
  lemma EmptyRoot(t: Tree, paths: Paths, root: Option<nat>, m: map<Key, nat>, n: nat)
    requires TreeOk(t, paths, root, m, Some(n)) && paths.Keys == t.Keys && n in t && IsEmpty(t[n]) && t[n].up.None?
    ensures t.Keys == {n} && m == map[]
  {
    assert LinkOk(t, paths, root, n);
    forall y | y in t ensures y == n {
      BelowRoot(t, paths, root, y);
    }
    NothingGiven(t, paths, m, {n});
  }

  /** A tree of empty nodes denotes the empty map. */
  lemma NothingGiven(t: Tree, paths: Paths, m: map<Key, nat>, d: set<nat>)
    requires paths.Keys == t.Keys == d && Tells(t, paths, m)
    requires forall n, k, v :: n in d ==> !Says(t[n], paths[n], k, v)
    ensures m == map[]
  {
    assert forall k, v :: !Given(t, paths, k, v);
    forall k ensures k !in m {
      TellsAt(t, paths, m, k);
    }
  }

  lemma TellsAt(t: Tree, paths: Paths, m: map<Key, nat>, key: Key)
    requires paths.Keys == t.Keys && Tells(t, paths, m)
    ensures key in m ==> Given(t, paths, key, m[key])
  {
  }

  /** An empty node under a root that has nothing else. */
  lemma EmptyUnderRoot(t: Tree, paths: Paths, root: Option<nat>, m: map<Key, nat>, n: nat, p: nat)
    requires TreeOk(t, paths, root, m, Some(n)) && paths.Keys == t.Keys && n in t && IsEmpty(t[n]) && t[n].up == Some(p)
    requires p in t && t[p].Branch? && t[p].value.None? && |t[p].children| <= 1 && t[p].up.None?
    ensures t.Keys == {n, p} && m == map[] && root == Some(p)
  {
    assert LinkOk(t, paths, root, n) && LinkOk(t, paths, root, p);
    OnlyChild(t[p].children, t[n].childOf);
    forall y | y in t && y != p ensures y == n {
      var a := Ancestor(t, paths, root, y, 0);
      assert LinkOk(t, paths, root, a);
      NotRootLonger(t, paths, root, y);
      var b := Ancestor(t, paths, root, y, 1);
      assert LinkOk(t, paths, root, b);
      SamePath(t, paths, root, b, n);
      if |paths[y]| == 1 {
        assert paths[y][..1] == paths[y];
        SamePath(t, paths, root, b, y);
      }
    }
    NothingGiven(t, paths, m, {n, p});
  }

  lemma NotRootLonger(t: Tree, paths: Paths, root: Option<nat>, y: nat)
    requires LinksOk(t, paths, root) && y in t && root != Some(y)
    ensures |paths[y]| > 0
  {
    assert LinkOk(t, paths, root, y);
  }

  lemma OnlyChild(children: map<byte, nat>, c: byte)
    requires c in children && |children| <= 1
    ensures children.Keys == {c}
  {
    if d :| d in children && d != c {
      assert {c, d} <= children.Keys;
      SubsetSize({c, d}, children.Keys);
    }
  }

  lemma SubsetSize<T>(a: set<T>, b: set<T>)
    requires a <= b
    ensures |a| <= |b|
  {
    if a != {} {
      var x :| x in a;
      SubsetSize(a - {x}, b - {x});
    }
  }

  /** The branch above loses an empty child, and something is left to it. */
  function Pruned(t: Tree, n: nat, p: nat): Tree
    requires n in t && p in t && t[p].Branch?
  {
    t[p := t[p].(children := t[p].children - {t[n].childOf})] - {n}
  }

  lemma PruneLinks(t: Tree, paths: Paths, root: Option<nat>, n: nat, p: nat)
    requires LinksOk(t, paths, root) && n in t && IsEmpty(t[n]) && t[n].up == Some(p) && p in t && t[p].Branch?
    ensures n != p && LinksOk(Pruned(t, n, p), paths - {n}, root)
  {
    assert LinkOk(t, paths, root, n);
    var t', paths' := Pruned(t, n, p), paths - {n};
    assert t'.Keys == t.Keys - {n};
    forall y | y in t' ensures LinkOk(t', paths', root, y) {
      assert LinkOk(t, paths, root, y);
    }
    forall y | y in t' ensures KidsOk(t', y) {
      assert KidsOk(t, y);
      if y != p && t[y].Branch? {
        forall c | c in t[y].children ensures t[y].children[c] != n {
        }
      }
    }
  }

  lemma EmptyGone(t: Tree, paths: Paths, m: map<Key, nat>, n: nat, t': Tree, paths': Paths, d: set<nat>)
    requires paths.Keys == t.Keys && paths'.Keys == t'.Keys && Tells(t, paths, m) && SameBut(t, paths, t', paths', d)
    requires forall x, k, v :: x in d && x in t ==> !Says(t[x], paths[x], k, v)
    requires forall x, k, v :: x in d && x in t' ==> !Says(t'[x], paths'[x], k, v)
    ensures Tells(t', paths', m)
  {
    forall k, v ensures Given(t', paths', k, v) <==> k in m && m[k] == v {
      GivenBut(t, paths, t', paths', d, k, v);
    }
  }

  /** clear_empty_nodes, when the parent keeps a value or another child. */
  lemma PruneOk(t: Tree, paths: Paths, root: Option<nat>, m: map<Key, nat>, n: nat, p: nat)
    requires TreeOk(t, paths, root, m, Some(n)) && paths.Keys == t.Keys && n in t && IsEmpty(t[n]) && t[n].up == Some(p)
    requires p in t && t[p].Branch? && (t[p].value.Some? || |t[p].children| > 1)
    ensures TreeOk(Pruned(t, n, p), paths - {n}, root, m, None) && Pruned(t, n, p).Keys == (paths - {n}).Keys
  {
    hide LinkOk, KidsOk, Given, Says;
    PruneLinks(t, paths, root, n, p);
    var t' := Pruned(t, n, p);
    assert t'.Keys == t.Keys - {n};
    forall k, v ensures !Says(t[n], paths[n], k, v) {
      EmptySays(t[n], paths[n], k, v);
    }
    EmptyGone(t, paths, m, n, t', paths - {n}, {n});
    if t[p].value.None? {
      FewerKids(t[p].children, t[n].childOf);
    }
  }

  lemma FewerKids(children: map<byte, nat>, c: byte)
    requires |children| > 1
    ensures children - {c} != map[]
  {
    assert (children - {c}).Keys == children.Keys - {c};
    if children.Keys - {c} == {} {
      SubsetSize(children.Keys, {c});
    }
  }

  /** The empty node takes the place of its parent. */
  function Hoisted(t: Tree, n: nat, p: nat, g: nat): Tree
    requires n in t && p in t && g in t && t[g].Branch?
  {
    t[g := t[g].(children := t[g].children[t[p].childOf := n])][n := t[n].(up := Some(g),
        childOf := t[p].childOf)] - {p}
  }

  lemma HoistLinks(t: Tree, paths: Paths, root: Option<nat>, n: nat, p: nat, g: nat)
    requires LinksOk(t, paths, root) && n in t && IsEmpty(t[n]) && t[n].up == Some(p) && p in t && t[p].Branch?
             && |t[p].children| <= 1
    requires t[p].up == Some(g) && g in t && t[g].Branch?
    ensures n != p && g != p && n != g && LinksOk(Hoisted(t, n, p, g), paths[n := paths[p]] - {p}, root)
  {
    assert LinkOk(t, paths, root, n) && LinkOk(t, paths, root, p);
    var t', paths' := Hoisted(t, n, p, g), paths[n := paths[p]] - {p};
    assert t'.Keys == t.Keys - {p};
    forall y | y in t' ensures LinkOk(t', paths', root, y) && KidsOk(t', y) {
      HoistLink(t, paths, root, n, p, g, y);
      HoistKids(t, paths, root, n, p, g, y);
    }
  }

  lemma HoistLink(t: Tree, paths: Paths, root: Option<nat>, n: nat, p: nat, g: nat, y: nat)
    requires LinksOk(t, paths, root) && n in t && IsEmpty(t[n]) && t[n].up == Some(p) && p in t && t[p].Branch?
             && |t[p].children| <= 1
    requires t[p].up == Some(g) && g in t && t[g].Branch? && y in t && y != p
    ensures LinkOk(Hoisted(t, n, p, g), paths[n := paths[p]] - {p}, root, y)
  {
    assert LinkOk(t, paths, root, n) && LinkOk(t, paths, root, p) && LinkOk(t, paths, root, y);
    OnlyChild(t[p].children, t[n].childOf);
    assert Hoisted(t, n, p, g).Keys == t.Keys - {p};
  }

  lemma HoistKids(t: Tree, paths: Paths, root: Option<nat>, n: nat, p: nat, g: nat, y: nat)
    requires LinksOk(t, paths, root) && n in t && IsEmpty(t[n]) && t[n].up == Some(p) && p in t && t[p].Branch?
             && |t[p].children| <= 1
    requires t[p].up == Some(g) && g in t && t[g].Branch? && y in t && y != p
    ensures KidsOk(Hoisted(t, n, p, g), y)
  {
    assert LinkOk(t, paths, root, n) && LinkOk(t, paths, root, p) && KidsOk(t, y);
    var t' := Hoisted(t, n, p, g);
    assert t'.Keys == t.Keys - {p};
    if t'[y].Branch? {
      forall c | c in t'[y].children ensures t'[y].children[c] in t' && t'[t'[y].children[c]].up == Some(y)
      && t'[t'[y].children[c]].childOf == c {
        if y != g || c != t[p].childOf {
          var x := t[y].children[c];
          assert t[x].up == Some(y) && x != n && x != p;
        }
      }
    }
  }

  /** clear_empty_nodes, when the parent would become empty and has a parent itself. */
  lemma HoistOk(t: Tree, paths: Paths, root: Option<nat>, m: map<Key, nat>, n: nat, p: nat, g: nat)
    requires TreeOk(t, paths, root, m, Some(n)) && paths.Keys == t.Keys && n in t && IsEmpty(t[n]) && t[n].up == Some(p)
    requires p in t && t[p].Branch? && t[p].value.None? && |t[p].children| <= 1
    requires t[p].up == Some(g) && g in t && t[g].Branch?
    ensures TreeOk(Hoisted(t, n, p, g), paths[n := paths[p]] - {p}, root, m, Some(n))
            && Hoisted(t, n, p, g).Keys == (paths[n := paths[p]] - {p}).Keys
    ensures |paths[p]| < |paths[n]| && n != p && g != p && n != g && IsEmpty(Hoisted(t, n, p, g)[n])
  {
    hide LinkOk, KidsOk, Given, Says;
    HoistLinks(t, paths, root, n, p, g);
    PathGrows(t, paths, root, n, p);
    var t', paths' := Hoisted(t, n, p, g), paths[n := paths[p]] - {p};
    assert t'.Keys == t.Keys - {p};
    HoistSilent(t, paths, n, p, t'[n], paths'[n]);
    EmptyGone(t, paths, m, n, t', paths', {n, p});
  }

  lemma HoistSilent(t: Tree, paths: Paths, n: nat, p: nat, x: Node, path: Key)
    requires n in t && p in t && n in paths && p in paths && IsEmpty(t[n]) && IsEmpty(x) && t[p].Branch?
             && t[p].value.None?
    ensures forall k, v :: !Says(t[n], paths[n], k, v) && !Says(t[p], paths[p], k, v) && !Says(x, path, k, v)
  {
    hide Says, IsEmpty;
    forall k, v ensures !Says(t[n], paths[n], k, v) && !Says(t[p], paths[p], k, v) && !Says(x, path, k, v) {
      EmptySays(t[n], paths[n], k, v);
      EmptySays(x, path, k, v);
      NoValueSays(t[p], paths[p], k, v);
    }
  }

  lemma NoValueSays(x: Node, path: Key, key: Key, value: nat)
    requires x.Branch? && x.value.None?
    ensures !Says(x, path, key, value)
  {
  }

  lemma PathGrows(t: Tree, paths: Paths, root: Option<nat>, n: nat, p: nat)
    requires LinksOk(t, paths, root) && n in t && t[n].up == Some(p)
    ensures p in t && |paths[n]| == |paths[p]| + 1 && n != p
  {
    assert LinkOk(t, paths, root, n);
  }
}
