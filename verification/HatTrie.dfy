/** The hat-trie: a map from keys to ids in a tree whose leaves are array hashes that burst when they are full. */
module HatTrie {
  import opened Maps
  import opened Options
  import opened Bits
  import opened Keys
  import opened Serialization
  import opened HatTree
  import GP = GrowthPolicy
  import AB = ArrayBucket
  import AH = ArrayHash

  /** The nodes of the program, each under its address. */
  datatype Slot =
    | TrieNode(up: Option<nat>, childOf: byte, value: Option<nat>, children: map<byte, nat>)
    | HashNode(up: Option<nat>, childOf: byte, hash: AH.ArrayHash)

  const LEAF_FORMAT := AB.Format(2, false, 4)
  const MIN_BURST_THRESHOLD: nat := 4
  const MAX_BURST_THRESHOLD: nat := 0xFFFF
  const DEFAULT_BUCKETS: nat := 32

  /** With at most 65535 entries and a load factor of at least 0.1, a bigger table is never loaded. */
  const MAX_LOADED_BUCKETS: nat := 0x10_0000

  datatype Inserting = Added | There | KeyTooLong

  /** A node of the program and the node it stands for. */
  ghost predicate Mirrors(x: Slot, y: Node)
    reads if x.HashNode? then {x.hash} else {}
  {
    match x
    case TrieNode(up, childOf, value, children) => y == Branch(up, childOf, value, children)
    case HashNode(up, childOf, hash) => y == Leaf(up, childOf, hash.contents) && hash.Valid() && hash.f == LEAF_FORMAT
  }

  ghost function HashesOf(nodes: map<nat, Slot>): set<AH.ArrayHash> {
    set n | n in nodes && nodes[n].HashNode? :: nodes[n].hash
  }

  ghost predicate AllMirror(nodes: map<nat, Slot>, tree: Tree)
    reads HashesOf(nodes)
  {
    nodes.Keys == tree.Keys && forall n :: n in nodes ==> Mirrors(nodes[n], tree[n])
  }

  /** No two leaves share a hash. */
  ghost predicate Apart(nodes: map<nat, Slot>) {
    forall a, b :: a in nodes && b in nodes && nodes[a].HashNode? && nodes[b].HashNode? && nodes[a].hash == nodes[b].hash ==> a == b
  }

  ghost function JudgeTrie(nodes: map<nat, Slot>, unused: nat, t: Tree, paths: Paths, root: Option<nat>,
      m: map<Key, nat>, hole: Option<nat>): Verdict
    reads HashesOf(nodes)
  {
    if
      && AllMirror(nodes, t) && Apart(nodes) && (forall n :: n in nodes ==> n < unused)
      && paths.Keys == t.Keys && TreeOk(t, paths, root, m, hole)
    then Sound else Unsound
  }

  /** The nodes are those of a tree that denotes the map, with no empty node but the hole. */
  ghost predicate TrieOk(nodes: map<nat, Slot>, unused: nat, t: Tree, paths: Paths, root: Option<nat>, m: map<Key, nat>,
      hole: Option<nat>)
    reads HashesOf(nodes)
  {
    JudgeTrie(nodes, unused, t, paths, root, m, hole).Sound?
  }

  class HatTrie {
    const hash: Key -> nat
    const burstThreshold: nat
    var root: Option<nat>
    var nodes: map<nat, Slot>
    var unused: nat
    var nbElements: nat
    ghost var tree: Tree
    ghost var paths: Paths
    ghost var contents: map<Key, nat>

    ghost predicate ValidBut(hole: Option<nat>)
      reads this, HashesOf(nodes)
    {
      MIN_BURST_THRESHOLD <= burstThreshold <= MAX_BURST_THRESHOLD
      && TrieOk(nodes, unused, tree, paths, root, contents, hole)
    }

    ghost predicate Valid()
      reads this, HashesOf(nodes)
    {
      ValidBut(None) && nbElements == |contents|
    }

    constructor (hash: Key -> nat, threshold: nat)
      ensures Valid() && contents == map[] && fresh(HashesOf(nodes))
    {
      this.hash := hash;
      burstThreshold := if threshold < MIN_BURST_THRESHOLD then MIN_BURST_THRESHOLD else if threshold > MAX_BURST_THRESHOLD then MAX_BURST_THRESHOLD else threshold;
      root, nodes, unused, nbElements := None, map[], 0, 0;
      tree, paths, contents := map[], map[], map[];
    }

    /** The end of the search. */
    lemma Decides(n: nat, key: Key, hole: Option<nat>)
      requires ValidBut(hole) && paths.Keys == tree.Keys && Stops(tree, paths, n, key)
      ensures n in nodes
      ensures nodes[n].TrieNode? ==>
                (key in contents <==> paths[n] == key && nodes[n].value.Some?)
                && (key in contents ==> contents[key] == nodes[n].value.value)
      ensures nodes[n].HashNode? ==> var rest := key[|paths[n]|..]; var m := nodes[n].hash.contents;
                                     (key in contents <==> rest in m) && (key in contents ==> contents[key] == m[rest])
    {
      StopDecides(tree, paths, root, contents, hole, n, key);
      assert Mirrors(nodes[n], tree[n]);
    }

    lemma Down(n: nat, c: byte, hole: Option<nat>)
      requires ValidBut(hole) && n in nodes && nodes[n].TrieNode? && c in nodes[n].children
      ensures nodes[n].children[c] in nodes && paths[nodes[n].children[c]] == paths[n] + [c]
    {
      assert Mirrors(nodes[n], tree[n]);
      StepDown(tree, paths, root, n, c);
    }

    /** find_impl: the node at which the search for a key ends. */
    method Descend(start: nat, key: Key, pos: nat, ghost hole: Option<nat>) returns (n: nat, ikey: nat)
      requires ValidBut(hole) && start in nodes && pos <= |key| && paths[start] == key[..pos]
      ensures n in nodes && pos <= ikey <= |key| && paths[n] == key[..ikey] && Stops(tree, paths, n, key)
    {
      hide JudgeTree, Mirrors, Apart;
      n, ikey := start, pos;
      while ikey < |key| && nodes[n].TrieNode? && key[ikey] in nodes[n].children
        invariant n in nodes && pos <= ikey <= |key| && paths[n] == key[..ikey]
      {
        Down(n, key[ikey], hole);
        assert key[..ikey + 1] == key[..ikey] + [key[ikey]];
        n := nodes[n].children[key[ikey]];
        ikey := ikey + 1;
      }
      MirrorKids(n);
    }

    lemma MirrorKids(n: nat)
      requires AllMirror(nodes, tree) && n in nodes
      ensures n in tree && (tree[n].Branch? <==> nodes[n].TrieNode?)
      ensures tree[n].Branch? ==> tree[n].children == nodes[n].children && tree[n].value == nodes[n].value
      ensures tree[n].up == nodes[n].up && tree[n].childOf == nodes[n].childOf
      ensures tree[n].Leaf? ==>
                nodes[n].hash.Valid() && tree[n].entries == nodes[n].hash.contents && nodes[n].hash.f == LEAF_FORMAT
    {
      assert Mirrors(nodes[n], tree[n]);
    }

    /** The count is that of the keys; every leaf holds an entry, every branch has a value or a child. */
    lemma ShapeTells(n: nat)
      requires Valid()
      ensures nbElements == |contents|
      ensures n in nodes ==> match nodes[n]
              case TrieNode(_, _, value, children) => value.Some? || children != map[]
              case HashNode(_, _, h) => h.Valid() && h.contents != map[] && h.nbElements == |h.contents|
    {
      hide AH.ArrayHash.Valid, LinksOk, Tells;
      if n in nodes {
        assert Mirrors(nodes[n], tree[n]) && !IsEmpty(tree[n]);
        if nodes[n].HashNode? { nodes[n].hash.Bounds([]); }
      }
    }

    /** find */
    method Find(key: Key) returns (r: Option<nat>)
      requires Valid()
      ensures r == if key in contents then Some(contents[key]) else None
    {
      hide JudgeTree, Apart;
      if root.None? {
        NoRoot();
        return None;
      }
      RootThere();
      var n, ikey := Descend(root.value, key, 0, None);
      Decides(n, key, None);
      MirrorKids(n);
      if nodes[n].TrieNode? {
        r := if ikey == |key| then nodes[n].value else None;
      } else {
        r := nodes[n].hash.Find(key[ikey..]);
      }
    }

    lemma NoRoot()
      requires Valid() && root.None?
      ensures contents == map[] && nodes == map[]
    {
      forall n | n in tree ensures false {
        BelowRoot(tree, paths, root, n);
      }
      NothingGiven(tree, paths, contents, {});
    }

    lemma RootThere()
      requires Valid() && root.Some?
      ensures root.value in nodes && root.value in paths && paths[root.value] == []
    {
      assert LinkOk(tree, paths, root, root.value);
    }

    /** The parent of a node is a branch, and only the root has none. */
    lemma LinkAt(n: nat, hole: Option<nat>)
      requires ValidBut(hole) && n in nodes
      ensures nodes[n].up.None? <==> root == Some(n)
      ensures nodes[n].up.Some? ==>
                nodes[n].up.value in nodes && nodes[nodes[n].up.value].TrieNode? && nodes[n].up.value != n
      ensures nodes[n].up.Some? ==>
                nodes[n].childOf in nodes[nodes[n].up.value].children
                && nodes[nodes[n].up.value].children[nodes[n].childOf] == n
      ensures nodes[n].up.Some? ==> |paths[n]| == |paths[nodes[n].up.value]| + 1
    {
      assert LinkOk(tree, paths, root, n);
      MirrorKids(n);
      if nodes[n].up.Some? {
        MirrorKids(nodes[n].up.value);
        PathGrows(tree, paths, root, n, nodes[n].up.value);
      }
    }

    /** The leaf is replaced by a branch with leaves of its own, under fresh addresses. */
    method BurstNode(n: nat) returns (b: nat)
      requires ValidBut(None) && n in nodes && nodes[n].HashNode?
      modifies this
      ensures ValidBut(None) && contents == old(contents) && nbElements == old(nbElements)
      ensures b in nodes && nodes[b].TrieNode? && b in paths && n in old(paths) && paths[b] == old(paths)[n]
      ensures fresh(HashesOf(nodes) - old(HashesOf(nodes)))
    {
      hide TrieOk, AH.ArrayHash.Valid, BurstTree, BurstPaths, BurstSlots, KidIds, Bursting;
      b := unused;
      var x := nodes[n];
      HashAt(n, None);
      LinkAt(n, None);
      var value, hashes := Burst(x.hash);
      BurstFits(n, value, hashes, x.hash.nbElements);
      label Ready:
      tree, paths := BurstTree(tree, n, b, KidIds(b, hashes)), BurstPaths(paths, n, b, KidIds(b, hashes));
      nodes := BurstSlots(nodes, n, b, value, hashes);
      if x.up.None? { root := Some(b); }
      unused := b + 257;
      assert forall h :: h in HashesOf(nodes) ==> unchanged@Ready(h);
    }

    lemma HashAt(n: nat, hole: Option<nat>)
      requires TrieOk(nodes, unused, tree, paths, root, contents, hole) && n in nodes && nodes[n].HashNode?
      ensures nodes[n].hash in HashesOf(nodes) && nodes[n].hash.Valid() && nodes[n].hash.f == LEAF_FORMAT
      ensures n in tree && tree[n] == Leaf(nodes[n].up, nodes[n].childOf, nodes[n].hash.contents)
      ensures forall x :: x in nodes ==> x < unused
    {
      assert Mirrors(nodes[n], tree[n]);
    }

    lemma BurstFits(n: nat, value: Option<nat>, hashes: map<byte, AH.ArrayHash>, k: nat)
      requires ValidBut(None) && n in nodes && nodes[n].HashNode? && Bursting(nodes[n].hash.contents, value, hashes, k)
      requires hashes.Values !! HashesOf(nodes)
      ensures n in tree && tree[n].Leaf?
      ensures nodes[n].up.Some? ==> nodes[n].up.value in nodes && nodes[nodes[n].up.value].TrieNode?
      ensures var kids := KidIds(unused, hashes);
        var r, t', paths' := BurstSlots(nodes, n, unused, value, hashes), BurstTree(tree, n, unused,
            kids), BurstPaths(paths, n, unused, kids);
        && TrieOk(r, unused + 257, t', paths', if nodes[n].up.None? then Some(unused) else root, contents, None)
        && HashesOf(r) <= HashesOf(nodes) + hashes.Values
        && unused in r && r[unused].TrieNode? && unused in paths' && n in paths && paths'[unused] == paths[n]
    {
      hide JudgeTree, AH.ArrayHash.Valid, Rests, BurstTree, BurstPaths, BurstSlots, Mirrors, Apart, KidIds, IsKid;
      HashAt(n, None);
      LinkAt(n, None);
      var kids := KidIds(unused, hashes);
      var t', paths' := BurstTree(tree, n, unused, kids), BurstPaths(paths, n, unused, kids);
      KidIdsAre(unused, hashes);
      KidsAreNew(tree, unused, hashes, value, nodes[n].hash.contents, k);
      BurstIs(tree, paths, n, unused, kids);
      BurstOk(tree, paths, root, contents, n, unused, kids, t', paths');
      BurstMirrors(nodes, tree, n, unused, value, hashes, k);
      BurstPlace(nodes, n, unused, value, hashes);
    }

    // ---------- insertion ----------

    /** A leaf with other entries. */
    lemma LeafChanged(n: nat, rest: Key, value: Option<nat>, before: map<Key, nat>, hole: Option<nat>)
      requires n in nodes && nodes[n].HashNode? && Apart(nodes) && (forall x :: x in nodes ==> x < unused)
      requires nodes.Keys == tree.Keys && tree[n] == Leaf(nodes[n].up, nodes[n].childOf, before)
      requires forall x :: x in nodes && x != n ==> Mirrors(nodes[x], tree[x])
      requires paths.Keys == tree.Keys && TreeOk(tree, paths, root, contents, hole) && (hole.Some? ==> hole == Some(n))
      requires nodes[n].hash.Valid() && nodes[n].hash.f == LEAF_FORMAT
      requires nodes[n].hash.contents == if value.Some? then before[rest := value.value] else before - {rest}
      ensures var key := paths[n] + rest; var x := Leaf(nodes[n].up, nodes[n].childOf, nodes[n].hash.contents);
              TrieOk(nodes, unused, tree[n := x], paths, root,
                  if value.Some? then contents[key := value.value] else contents - {key},
                     if x.entries == map[] then Some(n) else None)
    {
      hide JudgeTree, AH.ArrayHash.Valid;
      EntriesSet(tree, paths, root, contents, hole, n, rest, value);
    }

    lemma Parts(hole: Option<nat>)
      requires ValidBut(hole)
      ensures AllMirror(nodes, tree) && Apart(nodes) && (forall x :: x in nodes ==> x < unused)
      ensures paths.Keys == tree.Keys && TreeOk(tree, paths, root, contents, hole)
    {
    }

    /** The part of insert_in_hash_node that does not burst. */
    method InsertInLeaf(n: nat, key: Key, pos: nat, value: nat, ghost hole: Option<nat>) returns (added: bool)
      requires ValidBut(hole) && nbElements == |contents| && n in nodes && nodes[n].HashNode?
               && (hole.Some? ==> hole == Some(n))
      requires pos <= |key| <= AB.MaxKeySize(LEAF_FORMAT) && n in paths && paths[n] == key[..pos]
               && nodes[n].hash.nbElements < burstThreshold
      modifies this, HashesOf(nodes)
      ensures Valid() && added == (key !in old(contents)) && nodes == old(nodes)
      ensures contents == if added then old(contents)[key := value] else old(contents)
    {
      hide TrieOk, TreeOk, AH.ArrayHash.Valid, Mirrors, AH.MaxSize;
      var h := nodes[n].hash;
      var rest := key[pos..];
      assert key == paths[n] + rest;
      HashAt(n, hole);
      Parts(hole);
      Decides(n, key, hole);
      LeafBounds();
      h.Bounds([]);
      ghost var before := h.contents;
      var highLoad, clear := *, *;
      var e := h.Emplace(rest, value, highLoad && |h.buckets| <= MAX_LOADED_BUCKETS, clear);
      added := e.Inserted?;
      ghost var v := if added then value else before[rest];
      assert h.contents == before[rest := v];
      assert forall x :: x in nodes && x != n ==> Mirrors(nodes[x], tree[x]);
      LeafChanged(n, rest, Some(v), before, hole);
      ghost var m := contents[key := v];
      if added {
        nbElements := nbElements + 1;
      }
      assert rest in h.contents && added == (key !in contents);
      contents := m;
      tree := tree[n := Leaf(nodes[n].up, nodes[n].childOf, h.contents)];
    }

    /** insert_in_hash_node: a leaf that is full bursts, and the search goes on in what it has become. */
    method InsertInHashNode(n: nat, key: Key, pos: nat, value: nat, ghost hole: Option<nat>) returns (added: bool)
      requires ValidBut(hole) && nbElements == |contents| && n in nodes && nodes[n].HashNode?
               && (hole.Some? ==> hole == Some(n) && nodes[n].hash.nbElements == 0)
      requires pos <= |key| <= AB.MaxKeySize(LEAF_FORMAT) && n in paths && paths[n] == key[..pos]
      modifies this, HashesOf(nodes)
      ensures Valid() && added == (key !in old(contents)) && fresh(HashesOf(nodes) - old(HashesOf(nodes)))
      ensures contents == if added then old(contents)[key := value] else old(contents)
      ensures old(nodes[n].hash.nbElements) < burstThreshold ==> nodes == old(nodes)
      decreases |key| - pos, 1
    {
      hide JudgeTrie, AH.ArrayHash.Valid, Mirrors;
      if nodes[n].hash.nbElements >= burstThreshold {
        var b := BurstNode(n);
        added := InsertImpl(b, key, pos, value);
      } else {
        added := InsertInLeaf(n, key, pos, value, hole);
      }
    }

    lemma PlantMirrors(n: nat, c: byte, hnode: AH.ArrayHash, rest: Key, value: nat)
      requires ValidBut(None) && n in nodes && nodes[n].TrieNode? && c !in nodes[n].children
      requires hnode.Valid() && hnode.f == LEAF_FORMAT && hnode.contents == map[rest := value]
               && hnode !in HashesOf(nodes)
      ensures n in tree && tree[n].Branch? && n in paths && paths[n] + [c] + rest !in contents
      ensures var r := PlantSlots(nodes, n, c, unused, hnode);
              TrieOk(r, unused + 1, Planted(tree, n, c, unused, map[rest := value]), paths[unused := paths[n] + [c]],
                  root, contents[paths[n] + [c] + rest := value], None)
              && HashesOf(r) == HashesOf(nodes) + {hnode}
    {
      hide JudgeTree, AH.ArrayHash.Valid;
      MirrorKids(n);
      LeafPlanted(tree, paths, root, contents, n, c, unused, rest, value);
      var r, t' := PlantSlots(nodes, n, c, unused, hnode), Planted(tree, n, c, unused, map[rest := value]);
      forall x | x in r ensures x in t' && Mirrors(r[x], t'[x]) {
        if x != unused { assert Mirrors(nodes[x], tree[x]); }
      }
      PlantApart(nodes, n, c, unused, hnode);
    }

    /** A child that is not there yet: a leaf with the rest of the key. */
    method InsertNewLeaf(n: nat, key: Key, ikey: nat, value: nat)
      requires Valid() && n in nodes && nodes[n].TrieNode? && n in paths
               && ikey < |key| <= AB.MaxKeySize(LEAF_FORMAT) && paths[n] == key[..ikey]
      requires key[ikey] !in nodes[n].children
      modifies this
      ensures Valid() && key !in old(contents) && contents == old(contents)[key := value]
              && fresh(HashesOf(nodes) - old(HashesOf(nodes)))
    {
      hide TrieOk, AH.ArrayHash.Valid, PlantSlots, Planted;
      var c := key[ikey];
      var rest := key[ikey + 1..];
      var hnode := NewLeaf(hash, rest, value);
      assert hnode !in HashesOf(nodes);
      assert key == paths[n] + [c] + rest;
      PlantMirrors(n, c, hnode, rest, value);
      tree, paths := Planted(tree, n, c, unused, map[rest := value]), paths[unused := paths[n] + [c]];
      nodes := PlantSlots(nodes, n, c, unused, hnode);
      unused := unused + 1;
      contents := contents[key := value];
      nbElements := nbElements + 1;
    }

    lemma ValueMirrors(n: nat, value: Option<nat>)
      requires ValidBut(None) && n in nodes && nodes[n].TrieNode?
      ensures n in tree && tree[n].Branch? && n in paths
      ensures tree[n].value == nodes[n].value && tree[n].children == nodes[n].children
      ensures TrieOk(nodes[n := nodes[n].(value := value)], unused, tree[n := tree[n].(value := value)], paths, root,
                     if value.Some? then contents[paths[n] := value.value] else contents - {paths[n]},
                     if IsEmpty(tree[n].(value := value)) then Some(n) else None)
      ensures HashesOf(nodes[n := nodes[n].(value := value)]) == HashesOf(nodes)
    {
      hide JudgeTree, AH.ArrayHash.Valid;
      MirrorKids(n);
      ValueSet(tree, paths, root, contents, n, value);
      var r := nodes[n := nodes[n].(value := value)];
      forall x | x in r ensures Mirrors(r[x], tree[n := tree[n].(value := value)][x]) {
        assert Mirrors(nodes[x], tree[x]);
      }
    }

    /** The value of a branch. */
    method InsertValue(n: nat, key: Key, value: nat)
      requires Valid() && n in nodes && nodes[n].TrieNode? && n in paths && paths[n] == key && key !in contents
      modifies this
      ensures Valid() && contents == old(contents)[key := value] && HashesOf(nodes) == old(HashesOf(nodes))
    {
      hide TrieOk, AH.ArrayHash.Valid;
      ValueMirrors(n, Some(value));
      tree := tree[n := tree[n].(value := Some(value))];
      nodes := nodes[n := nodes[n].(value := Some(value))];
      contents := contents[key := value];
      nbElements := nbElements + 1;
    }

    lemma HashBelow(start: nat, key: Key, pos: nat, n: nat, ikey: nat)
      requires ValidBut(None) && start in nodes && nodes[start].TrieNode? && n in nodes && nodes[n].HashNode?
               && start in paths && n in paths
      requires pos <= ikey <= |key| && paths[start] == key[..pos] && paths[n] == key[..ikey]
      ensures pos < ikey
    {
      if pos == ikey {
        SamePath(tree, paths, root, start, n);
      }
    }

    /** insert_impl */
    method InsertImpl(start: nat, key: Key, pos: nat, value: nat) returns (added: bool)
      requires Valid() && start in nodes && nodes[start].TrieNode? && start in paths
      requires pos <= |key| <= AB.MaxKeySize(LEAF_FORMAT) && paths[start] == key[..pos]
      modifies this, HashesOf(nodes)
      ensures Valid() && added == (key !in old(contents)) && fresh(HashesOf(nodes) - old(HashesOf(nodes)))
      ensures contents == if added then old(contents)[key := value] else old(contents)
      decreases |key| - pos, 0
    {
      hide JudgeTrie, AH.ArrayHash.Valid, Mirrors;
      var n, ikey := Descend(start, key, pos, None);
      Parts(None);
      MirrorKids(n);
      Decides(n, key, None);
      if nodes[n].HashNode? {
        HashBelow(start, key, pos, n, ikey);
        added := InsertInHashNode(n, key, ikey, value, None);
      } else if ikey < |key| {
        InsertNewLeaf(n, key, ikey, value);
        added := true;
      } else if nodes[n].value.Some? {
        added := false;
      } else {
        added := true;
        InsertValue(n, key, value);
      }
    }

    /** insert: keys that are too long are refused, and keys that are there keep their value. */
    method Insert(key: Key, value: nat) returns (r: Inserting)
      requires Valid()
      modifies this, HashesOf(nodes)
      ensures Valid() && fresh(HashesOf(nodes) - old(HashesOf(nodes)))
      ensures r == if |key| > AB.MaxKeySize(LEAF_FORMAT) then KeyTooLong else if key in old(contents) then There else Added
      ensures contents == if r.Added? then old(contents)[key := value] else old(contents)
    {
      hide TrieOk, AH.ArrayHash.Valid;
      if |key| > AB.MaxKeySize(LEAF_FORMAT) {
        return KeyTooLong;
      }
      var added;
      if root.None? {
        added := InsertFirst(key, value);
      } else {
        added := InsertAtRoot(key, value);
      }
      r := if added then Added else There;
    }

    /** A trie without a root gets a leaf for one. */
    method MakeRoot() returns (n: nat)
      requires Valid() && root.None?
      modifies this
      ensures ValidBut(Some(n)) && n in nodes && nodes[n].HashNode? && nodes[n].hash.nbElements == 0
      ensures n in paths && paths[n] == [] && fresh(HashesOf(nodes)) && contents == old(contents)
              && nbElements == old(nbElements)
    {
      hide TrieOk, AH.ArrayHash.Valid;
      NoRoot();
      var hnode := new AH.ArrayHash(LEAF_FORMAT, hash, DEFAULT_BUCKETS);
      hnode.Bounds([]);
      n := unused;
      nodes := map[n := HashNode(None, 0, hnode)];
      root := Some(n);
      tree, paths := map[n := Leaf(None, 0, map[])], map[n := []];
      unused := n + 1;
      FirstLeaf(n, hnode);
    }

    method InsertFirst(key: Key, value: nat) returns (added: bool)
      requires Valid() && |key| <= AB.MaxKeySize(LEAF_FORMAT) && root.None?
      modifies this, HashesOf(nodes)
      ensures Valid() && added == (key !in old(contents)) && fresh(HashesOf(nodes) - old(HashesOf(nodes)))
      ensures contents == if added then old(contents)[key := value] else old(contents)
    {
      hide TrieOk, AH.ArrayHash.Valid;
      var n := MakeRoot();
      added := InsertInHashNode(n, key, 0, value, Some(n));
    }

    method InsertAtRoot(key: Key, value: nat) returns (added: bool)
      requires Valid() && |key| <= AB.MaxKeySize(LEAF_FORMAT) && root.Some?
      modifies this, HashesOf(nodes)
      ensures Valid() && added == (key !in old(contents)) && fresh(HashesOf(nodes) - old(HashesOf(nodes)))
      ensures contents == if added then old(contents)[key := value] else old(contents)
    {
      hide TrieOk, AH.ArrayHash.Valid;
      RootThere();
      if nodes[root.value].HashNode? {
        added := InsertInHashNode(root.value, key, 0, value, None);
      } else {
        added := InsertImpl(root.value, key, 0, value);
      }
    }

    /** clear */
    method Clear()
      requires Valid()
      modifies this
      ensures Valid() && contents == map[] && HashesOf(nodes) == {}
    {
      root, nodes, nbElements := None, map[], 0;
      tree, paths, contents := map[], map[], map[];
      EmptyTrie(unused);
    }

    /** The value of a key that is there, assigned through its iterator. */
    method Assign(key: Key, value: nat) returns (found: bool)
      requires Valid()
      modifies this, HashesOf(nodes)
      ensures Valid() && found == (key in old(contents)) && HashesOf(nodes) == old(HashesOf(nodes))
      ensures contents == if found then old(contents)[key := value] else old(contents)
    {
      hide TrieOk, AH.ArrayHash.Valid;
      if root.None? {
        NoRoot();
        return false;
      }
      RootThere();
      var n, ikey := Descend(root.value, key, 0, None);
      Parts(None);
      MirrorKids(n);
      Decides(n, key, None);
      if nodes[n].TrieNode? {
        found := ikey == |key| && nodes[n].value.Some?;
        if found {
          AssignValue(n, key, value);
        }
      } else {
        found := AssignInLeaf(n, key, ikey, value);
      }
    }

    method AssignValue(n: nat, key: Key, value: nat)
      requires Valid() && n in nodes && nodes[n].TrieNode? && n in paths && paths[n] == key && key in contents
      modifies this
      ensures Valid() && contents == old(contents)[key := value] && HashesOf(nodes) == old(HashesOf(nodes))
    {
      hide TrieOk, AH.ArrayHash.Valid;
      ValueMirrors(n, Some(value));
      SizeAssign(contents, key, value);
      tree := tree[n := tree[n].(value := Some(value))];
      nodes := nodes[n := nodes[n].(value := Some(value))];
      contents := contents[key := value];
    }

    method AssignInLeaf(n: nat, key: Key, ikey: nat, value: nat) returns (found: bool)
      requires Valid() && n in nodes && nodes[n].HashNode? && n in paths && ikey <= |key| && paths[n] == key[..ikey]
      modifies this, HashesOf(nodes)
      ensures Valid() && found == (key in old(contents)) && nodes == old(nodes)
      ensures contents == if found then old(contents)[key := value] else old(contents)
    {
      hide TrieOk, TreeOk, AH.ArrayHash.Valid, Mirrors;
      var h := nodes[n].hash;
      var rest := key[ikey..];
      assert key == paths[n] + rest;
      HashAt(n, None);
      Parts(None);
      Decides(n, key, None);
      ghost var before := h.contents;
      found := h.Assign(rest, value);
      if found {
        assert forall x :: x in nodes && x != n ==> Mirrors(nodes[x], tree[x]);
        LeafChanged(n, rest, Some(value), before, None);
        SizeAssign(contents, key, value);
        assert rest in h.contents;
        contents := contents[key := value];
        tree := tree[n := Leaf(nodes[n].up, nodes[n].childOf, h.contents)];
      } else {
        assert forall x :: x in HashesOf(nodes) ==> unchanged(x);
      }
    }

    // ---------- erasure ----------

    lemma PruneMirrors(n: nat, p: nat)
      requires ValidBut(Some(n)) && n in nodes && IsEmpty(tree[n]) && nodes[n].up == Some(p)
      requires p in nodes && nodes[p].TrieNode? && (nodes[p].value.Some? || |nodes[p].children| > 1)
      ensures p in tree && tree[p].Branch? && tree[n].childOf == nodes[n].childOf
      ensures TrieOk(PruneSlots(nodes, n, p), unused, Pruned(tree, n, p), paths - {n}, root, contents, None)
      ensures HashesOf(PruneSlots(nodes, n, p)) <= HashesOf(nodes)
    {
      hide TreeOk, AllMirror, Apart, Pruned, PruneSlots, AH.ArrayHash.Valid;
      PartsAt(n, Some(n));
      PartsAt(p, Some(n));
      PruneOk(tree, paths, root, contents, n, p);
      SlotsPruned(nodes, tree, n, p);
      assert PruneSlots(nodes, n, p).Keys <= nodes.Keys;
    }

    lemma HoistMirrors(n: nat, p: nat, g: nat)
      requires ValidBut(Some(n)) && n in nodes && IsEmpty(tree[n]) && nodes[n].up == Some(p)
      requires p in nodes && nodes[p].TrieNode? && nodes[p].value.None? && |nodes[p].children| <= 1
      requires nodes[p].up == Some(g) && g in nodes && nodes[g].TrieNode?
      ensures p in tree && tree[p].Branch? && g in tree && tree[g].Branch? && n in paths && p in paths && n != p
              && g != p
      ensures TrieOk(HoistSlots(nodes, n, p, g), unused, Hoisted(tree, n, p, g), paths[n := paths[p]] - {p}, root,
          contents, Some(n))
      ensures HashesOf(HoistSlots(nodes, n, p, g)) <= HashesOf(nodes) && n in HoistSlots(nodes, n, p, g)
      ensures n in Hoisted(tree, n, p, g) && IsEmpty(Hoisted(tree, n, p, g)[n]) && |paths[p]| < |paths[n]|
    {
      hide TreeOk, AllMirror, Apart, Hoisted, HoistSlots, AH.ArrayHash.Valid;
      PartsAt(n, Some(n));
      PartsAt(p, Some(n));
      PartsAt(g, Some(n));
      HoistOk(tree, paths, root, contents, n, p, g);
      SlotsHoisted(nodes, tree, n, p, g);
    }

    /** What is known of a node. */
    lemma PartsAt(n: nat, hole: Option<nat>)
      requires ValidBut(hole) && n in nodes
      ensures AllMirror(nodes, tree) && Apart(nodes) && (forall x :: x in nodes ==> x < unused)
      ensures paths.Keys == tree.Keys && TreeOk(tree, paths, root, contents, hole)
      ensures n in tree && (tree[n].Branch? <==> nodes[n].TrieNode?) && tree[n].up == nodes[n].up
              && tree[n].childOf == nodes[n].childOf
      ensures tree[n].Branch? ==> tree[n].children == nodes[n].children && tree[n].value == nodes[n].value
    {
      MirrorKids(n);
    }

    lemma AllGone(n: nat)
      requires ValidBut(Some(n)) && n in nodes && IsEmpty(tree[n])
      requires nodes[n].up.Some? ==> var p := nodes[n].up.value; p in nodes && nodes[p].TrieNode? && nodes[p].value.None? && |nodes[p].children| <= 1 && nodes[p].up.None?
      ensures contents == map[]
    {
      MirrorKids(n);
      if nodes[n].up.None? {
        EmptyRoot(tree, paths, root, contents, n);
      } else {
        MirrorKids(nodes[n].up.value);
        EmptyUnderRoot(tree, paths, root, contents, n, nodes[n].up.value);
      }
    }

    /** clear_empty_nodes: the empty node goes, and with it every branch above that had nothing else. */
    method ClearEmptyNodes(n: nat)
      requires ValidBut(Some(n)) && n in nodes && n in tree && IsEmpty(tree[n]) && n in paths
      modifies this
      ensures ValidBut(None) && contents == old(contents) && nbElements == old(nbElements)
              && HashesOf(nodes) <= old(HashesOf(nodes))
      decreases |paths[n]|
    {
      hide TrieOk, AH.ArrayHash.Valid, IsEmpty, Pruned, Hoisted;
      LinkAt(n, Some(n));
      if nodes[n].up.None? {
        AllGone(n);
        root, nodes, tree, paths := None, map[], map[], map[];
        EmptyTrie(unused);
        return;
      }
      var p := nodes[n].up.value;
      LinkAt(p, Some(n));
      if nodes[p].value.Some? || |nodes[p].children| > 1 {
        PruneMirrors(n, p);
        tree, paths := Pruned(tree, n, p), paths - {n};
        nodes := PruneSlots(nodes, n, p);
      } else if nodes[p].up.None? {
        AllGone(n);
        root, nodes, tree, paths := None, map[], map[], map[];
        EmptyTrie(unused);
      } else {
        var g := nodes[p].up.value;
        HoistMirrors(n, p, g);
        tree, paths := Hoisted(tree, n, p, g), paths[n := paths[p]] - {p};
        nodes := HoistSlots(nodes, n, p, g);
        ClearEmptyNodes(n);
      }
    }

    /** The end of erase for a key that ends at a branch. */
    method EraseValue(n: nat, key: Key)
      requires Valid() && n in nodes && nodes[n].TrieNode? && n in paths && paths[n] == key && key in contents
      modifies this
      ensures Valid() && contents == old(contents) - {key} && HashesOf(nodes) <= old(HashesOf(nodes))
    {
      hide TrieOk, AH.ArrayHash.Valid;
      ValueMirrors(n, None);
      SizeDrop(contents, key);
      var x := nodes[n].(value := None);
      tree := tree[n := tree[n].(value := None)];
      nodes := nodes[n := x];
      contents := contents - {key};
      nbElements := nbElements - 1;
      if x.children == map[] {
        ClearEmptyNodes(n);
      }
    }

    /** The end of erase for a key that ends in a leaf. */
    method EraseInLeaf(n: nat, key: Key, ikey: nat) returns (erased: bool)
      requires Valid() && n in nodes && nodes[n].HashNode? && n in paths && ikey <= |key| && paths[n] == key[..ikey]
      modifies this, HashesOf(nodes)
      ensures Valid() && contents == old(contents) - {key} && erased == (key in old(contents))
              && HashesOf(nodes) <= old(HashesOf(nodes))
    {
      hide TrieOk, AH.ArrayHash.Valid, AH.ArrayHash.At, AH.ArrayHash.Entries;
      var h := nodes[n].hash;
      var rest := key[ikey..];
      assert key == paths[n] + rest;
      HashAt(n, None);
      Parts(None);
      Decides(n, key, None);
      ghost var k;
      var c;
      c, k := h.FindAt(rest);
      if h.AtEnd(c) {
        assert contents - {key} == contents;
        return false;
      }
      erased := true;
      EraseEntry(n, key, rest, c, k);
    }

    /** erase through an iterator into a leaf. */
    method EraseEntry(n: nat, key: Key, rest: Key, c: AH.Cursor, ghost k: nat)
      requires Valid() && n in nodes && nodes[n].HashNode? && n in paths && key == paths[n] + rest && key in contents
      requires nodes[n].hash in HashesOf(nodes) && nodes[n].hash.Valid() && nodes[n].hash.At(c, k)
               && k < |nodes[n].hash.Entries()| && nodes[n].hash.Entries()[k].key == rest
      modifies this, HashesOf(nodes)
      ensures Valid() && contents == old(contents) - {key} && HashesOf(nodes) <= old(HashesOf(nodes))
    {
      hide TrieOk, AH.ArrayHash.Valid, AH.ArrayHash.At, AH.ArrayHash.Entries;
      SizeDrop(contents, key);
      nbElements := nbElements - 1;
      var gone := EraseEntryOnly(n, key, rest, c, k);
      if gone {
        ClearEmptyNodes(n);
      }
    }

    method EraseEntryOnly(n: nat, key: Key, rest: Key, c: AH.Cursor, ghost k: nat) returns (gone: bool)
      requires ValidBut(None) && n in nodes && nodes[n].HashNode? && n in paths && key == paths[n] + rest
               && key in contents
      requires nodes[n].hash in HashesOf(nodes) && nodes[n].hash.Valid() && nodes[n].hash.At(c, k)
               && k < |nodes[n].hash.Entries()| && nodes[n].hash.Entries()[k].key == rest
      modifies this, HashesOf(nodes)
      ensures ValidBut(if gone then Some(n) else None) && contents == old(contents) - {key} && nodes == old(nodes)
              && paths == old(paths)
      ensures nbElements == old(nbElements) && n in tree && (gone ==> IsEmpty(tree[n]))
    {
      hide TrieOk, TreeOk, AH.ArrayHash.Valid, AH.ArrayHash.At, AH.ArrayHash.Entries, Mirrors;
      var h := nodes[n].hash;
      HashAt(n, None);
      Parts(None);
      ghost var before := h.contents;
      var clear := *;
      var next := h.EraseAt(c, clear, k);
      h.EndTells(next, k);
      h.Bounds(rest);
      assert forall x :: x in nodes && x != n ==> Mirrors(nodes[x], tree[x]);
      LeafChanged(n, rest, None, before, None);
      contents := contents - {key};
      tree := tree[n := Leaf(nodes[n].up, nodes[n].childOf, h.contents)];
      gone := h.AtEnd(next) && h.nbElements == 0;
      EmptyMap(h.contents);
    }

    /** erase of a key: a node left without anything is taken out of the tree. */
    method Erase(key: Key) returns (erased: bool)
      requires Valid()
      modifies this, HashesOf(nodes)
      ensures Valid() && contents == old(contents) - {key} && erased == (key in old(contents))
      ensures HashesOf(nodes) <= old(HashesOf(nodes))
    {
      hide TrieOk, AH.ArrayHash.Valid;
      if root.None? {
        NoRoot();
        return false;
      }
      RootThere();
      var n, ikey := Descend(root.value, key, 0, None);
      Parts(None);
      MirrorKids(n);
      Decides(n, key, None);
      if nodes[n].TrieNode? {
        if ikey < |key| || nodes[n].value.None? {
          assert contents - {key} == contents;
          return false;
        }
        erased := true;
        EraseValue(n, key);
      } else {
        erased := EraseInLeaf(n, key, ikey);
      }
    }
  }

  lemma EmptyMap(m: map<Key, nat>)
    ensures |m| == 0 <==> m == map[]
  {
  }

  lemma EmptyTrie(unused: nat)
    ensures TrieOk(map[], unused, map[], map[], None, map[], None)
  {
  }

  /** reset of the child of p that n is. */
  function PruneSlots(nodes: map<nat, Slot>, n: nat, p: nat): map<nat, Slot>
    requires n in nodes && p in nodes && nodes[p].TrieNode?
  {
    nodes[p := nodes[p].(children := nodes[p].children - {nodes[n].childOf})] - {n}
  }

  lemma SlotsPruned(nodes: map<nat, Slot>, t: Tree, n: nat, p: nat)
    requires AllMirror(nodes, t) && Apart(nodes) && n in nodes && p in nodes && nodes[p].TrieNode? && t[p].Branch?
    ensures AllMirror(PruneSlots(nodes, n, p), Pruned(t, n, p)) && Apart(PruneSlots(nodes, n, p))
            && PruneSlots(nodes, n, p).Keys <= nodes.Keys
    ensures HashesOf(PruneSlots(nodes, n, p)) <= HashesOf(nodes)
  {
    hide AH.ArrayHash.Valid;
    var r, t' := PruneSlots(nodes, n, p), Pruned(t, n, p);
    assert Mirrors(nodes[n], t[n]);
    forall x | x in r ensures x in t' && Mirrors(r[x], t'[x]) {
      assert Mirrors(nodes[x], t[x]);
    }
  }

  /** n put in the place of its parent, which goes. */
  function HoistSlots(nodes: map<nat, Slot>, n: nat, p: nat, g: nat): map<nat, Slot>
    requires n in nodes && p in nodes && g in nodes && nodes[g].TrieNode?
  {
    nodes[g := nodes[g].(children := nodes[g].children[nodes[p].childOf := n])][n := nodes[n].(up := Some(g),
        childOf := nodes[p].childOf)] - {p}
  }

  lemma SlotsHoisted(nodes: map<nat, Slot>, t: Tree, n: nat, p: nat, g: nat)
    requires AllMirror(nodes, t) && Apart(nodes) && n in nodes && p in nodes && g in nodes && nodes[g].TrieNode?
             && t[g].Branch?
    requires n != p && n != g && g != p
    ensures AllMirror(HoistSlots(nodes, n, p, g), Hoisted(t, n, p, g)) && Apart(HoistSlots(nodes, n, p, g))
            && HoistSlots(nodes, n, p, g).Keys <= nodes.Keys
    ensures HashesOf(HoistSlots(nodes, n, p, g)) <= HashesOf(nodes) && n in HoistSlots(nodes, n, p, g)
  {
    hide AH.ArrayHash.Valid;
    var r, t' := HoistSlots(nodes, n, p, g), Hoisted(t, n, p, g);
    assert Mirrors(nodes[p], t[p]);
    forall x | x in r ensures x in t' && Mirrors(r[x], t'[x]) {
      assert Mirrors(nodes[x], t[x]);
    }
  }

  /** A new root without entries. */
  lemma FirstLeaf(n: nat, hnode: AH.ArrayHash)
    requires hnode.Valid() && hnode.f == LEAF_FORMAT && hnode.contents == map[]
    ensures TrieOk(map[n := HashNode(None, 0, hnode)], n + 1, map[n := Leaf(None, 0, map[])], map[n := []], Some(n),
        map[], Some(n))
  {
    hide AH.ArrayHash.Valid;
    EmptyLeafTree(n);
  }

  lemma EmptyLeafTree(n: nat)
    ensures TreeOk(map[n := Leaf(None, 0, map[])], map[n := []], Some(n), map[], Some(n))
  {
    var t: Tree, paths: Paths := map[n := Leaf(None, 0, map[])], map[n := []];
    assert LinkOk(t, paths, Some(n), n) && KidsOk(t, n);
  }

  /** A leaf with one entry. */
  method NewLeaf(hash: Key -> nat, rest: Key, value: nat) returns (hnode: AH.ArrayHash)
    requires |rest| <= AB.MaxKeySize(LEAF_FORMAT)
    ensures fresh(hnode) && hnode.Valid() && hnode.f == LEAF_FORMAT && hnode.contents == map[rest := value]
  {
    hide AH.ArrayHash.Valid;
    hnode := new AH.ArrayHash(LEAF_FORMAT, hash, DEFAULT_BUCKETS);
    LeafBounds();
    hnode.Bounds([]);
    var highLoad, clear := *, *;
    var e := hnode.Emplace(rest, value, highLoad && |hnode.buckets| <= MAX_LOADED_BUCKETS, clear);
  }

  /** set_child of a new leaf. */
  function PlantSlots(nodes: map<nat, Slot>, n: nat, c: byte, i: nat, hnode: AH.ArrayHash): map<nat, Slot>
    requires n in nodes && nodes[n].TrieNode?
  {
    nodes[n := nodes[n].(children := nodes[n].children[c := i])][i := HashNode(Some(n), c, hnode)]
  }

  lemma PlantApart(nodes: map<nat, Slot>, n: nat, c: byte, i: nat, hnode: AH.ArrayHash)
    requires n in nodes && nodes[n].TrieNode? && i !in nodes && Apart(nodes) && hnode !in HashesOf(nodes)
    ensures Apart(PlantSlots(nodes, n, c, i, hnode))
            && HashesOf(PlantSlots(nodes, n, c, i, hnode)) == HashesOf(nodes) + {hnode}
  {
    var r := PlantSlots(nodes, n, c, i, hnode);
    forall h ensures h in HashesOf(r) <==> h in HashesOf(nodes) || h == hnode {
      if h in HashesOf(nodes) {
        var x :| x in nodes && nodes[x].HashNode? && nodes[x].hash == h;
        assert r[x] == nodes[x];
      }
      assert r[i].HashNode?;
    }
  }

  lemma BurstPlace(nodes: map<nat, Slot>, n: nat, b: nat, value: Option<nat>, hashes: map<byte, AH.ArrayHash>)
    requires n in nodes && (nodes[n].up.Some? ==> nodes[n].up.value in nodes && nodes[nodes[n].up.value].TrieNode?)
    requires forall x :: x in nodes ==> x < b
    ensures b in BurstSlots(nodes, n, b, value, hashes) && BurstSlots(nodes, n, b, value, hashes)[b].TrieNode?
  {
    hide BurstSlots, IsKid;
    BurstSlotsAre(nodes, n, b, value, hashes);
  }

  // ---------- bursting ----------

  /** The part of a map that the first entries of a listing make up. */
  ghost function Listed(es: seq<AB.Entry>, m: map<Key, nat>, k: nat): map<Key, nat>
    requires k <= |es|
  {
    map key | key in m && AH.HasKey(es[..k], key) :: m[key]
  }

  lemma ListedStart(es: seq<AB.Entry>, m: map<Key, nat>)
    ensures Listed(es, m, 0) == map[]
  {
  }

  lemma ListedStep(es: seq<AB.Entry>, m: map<Key, nat>, k: nat)
    requires k < |es| && AH.Distinct(es) && es[k].key in m
    ensures es[k].key !in Listed(es, m, k) && Listed(es, m, k + 1) == Listed(es, m, k)[es[k].key := m[es[k].key]]
  {
    assert es[..k + 1] == es[..k] + [es[k]];
    forall key ensures AH.HasKey(es[..k + 1], key) <==> AH.HasKey(es[..k], key) || key == es[k].key {
      if AH.HasKey(es[..k], key) {
        var i :| 0 <= i < k && es[..k][i].key == key;
        assert es[..k + 1][i].key == key;
      }
      if key == es[k].key { assert es[..k + 1][k].key == key; }
      if AH.HasKey(es[..k + 1], key) {
        var i :| 0 <= i < k + 1 && es[..k + 1][i].key == key;
        if i < k { assert es[..k][i].key == key; }
      }
    }
  }

  lemma ListedAll(es: seq<AB.Entry>, m: map<Key, nat>)
    requires forall key :: key in m ==> AH.HasKey(es, key)
    ensures Listed(es, m, |es|) == m
  {
    assert es[..|es|] == es;
  }

  /** One more entry, and what it changes in the rests. */
  lemma RestsStep(m: map<Key, nat>, key: Key, value: nat, c: byte)
    requires key !in m
    ensures Rests(m[key := value], c) == if key != []
            && key[0] == c then Rests(m, c)[key[1..] := value] else Rests(m, c)
  {
    hide Rests;
    var r := if key != [] && key[0] == c then Rests(m, c)[key[1..] := value] else Rests(m, c);
    forall w ensures [c] + w == key <==> (key != [] && key[0] == c && w == key[1..]) {
      ConsIs(c, w, key);
    }
    forall w ensures w in Rests(m[key := value], c) <==> w in r {
    }
  }

  lemma ConsIs(c: byte, w: Key, key: Key)
    ensures [c] + w == key <==> (key != [] && key[0] == c && w == key[1..])
  {
    assert ([c] + w)[1..] == w;
    assert key != [] ==> key == [key[0]] + key[1..];
  }

  /** The hashes hold the rests of the entries so far, the value that of the empty key. */
  ghost predicate Bursting(m: map<Key, nat>, value: Option<nat>, kids: map<byte, AH.ArrayHash>, k: nat)
    reads kids.Values
  {
    && value == (if [] in m then Some(m[[]]) else None)
    && (forall c :: c in kids <==> Rests(m, c) != map[])
    && (forall c :: c in kids ==> kids[c].Valid() && kids[c].f == LEAF_FORMAT && kids[c].contents == Rests(m, c) && kids[c].nbElements <= k)
    && (forall c, d :: c in kids && d in kids && kids[c] == kids[d] ==> c == d)
  }

  lemma LeafBounds()
    ensures AH.MaxSize(LEAF_FORMAT) == 0xFFFF && AB.MaxKeySize(LEAF_FORMAT) == 0xFFFE
  {
    Pow2Values();
    Pow2Add(8, 8);
  }

  /** get_hash_node_for_char, then the insertion of what follows the byte. Bucket counts and loads are float
      computations, and any will do. */
  method BurstEntry(hash: Key -> nat, key: Key, v: nat, value: Option<nat>, kids: map<byte, AH.ArrayHash>,
      ghost m: map<Key, nat>, ghost k: nat)
      returns (r: map<byte, AH.ArrayHash>)
    requires Bursting(m, value, kids, k) && key != [] && key !in m && k < 0xFFFF && |key| <= AB.MaxKeySize(LEAF_FORMAT)
    modifies kids.Values
    ensures Bursting(m[key := v], value, r, k + 1) && fresh(r.Values - kids.Values)
  {
    hide AH.ArrayHash.Valid, AH.ArrayHash.Entries, Rests;
    var c := key[0];
    var kid;
    if c !in kids {
      assert Rests(m, c) == map[];
      var bucketCount: nat :| bucketCount <= MAX_LOADED_BUCKETS;
      kid := new AH.ArrayHash(LEAF_FORMAT, hash, bucketCount);
      kid.Bounds([]);
    } else {
      kid := kids[c];
    }
    r := kids[c := kid];
    assert kid.Valid() && kid.f == LEAF_FORMAT && kid.contents == Rests(m, c) && kid.nbElements <= k;
    assert forall d :: d in kids && d != c ==> kids[d] != kid;
    BurstRest(kid, key, v, value, kids, r, m, k);
  }

  /** The rest of an entry goes to the hash of its first byte. */
  method BurstRest(kid: AH.ArrayHash, key: Key, v: nat, ghost value: Option<nat>, ghost kids: map<byte, AH.ArrayHash>,
      ghost r: map<byte, AH.ArrayHash>, ghost m: map<Key, nat>, ghost k: nat)
    requires Bursting(m, value, kids, k) && key != [] && key !in m && k < 0xFFFF && |key| <= AB.MaxKeySize(LEAF_FORMAT)
    requires r == kids[key[0] := kid] && kid.Valid() && kid.f == LEAF_FORMAT && kid.contents == Rests(m, key[0])
             && kid.nbElements <= k
    requires forall d :: d in kids && d != key[0] ==> kids[d] != kid
    modifies kid
    ensures Bursting(m[key := v], value, r, k + 1)
  {
    hide AH.ArrayHash.Valid, AH.ArrayHash.Entries, Rests;
    var c := key[0];
    EmplaceRest(kid, key, v, m, k);
    forall d | d in r && d != c ensures r[d].Valid() && r[d].f == LEAF_FORMAT && r[d].contents == Rests(m, d)
    && r[d].nbElements <= k {
      assert r[d] == kids[d];
    }
    forall d ensures Rests(m[key := v], d) == if d == c then Rests(m, d)[key[1..] := v] else Rests(m, d) {
      RestsStep(m, key, v, d);
    }
    BurstEmpty(m, key, v, c);
  }

  lemma BurstEmpty(m: map<Key, nat>, key: Key, v: nat, c: byte)
    requires key != [] && key !in m && key[0] == c
    ensures Rests(m[key := v], c) != map[]
  {
    assert key == [c] + key[1..];
    assert key[1..] in Rests(m[key := v], c);
  }

  method EmplaceRest(kid: AH.ArrayHash, key: Key, v: nat, ghost m: map<Key, nat>, ghost k: nat)
    requires kid.Valid() && kid.f == LEAF_FORMAT && key != [] && key !in m && k < 0xFFFF
             && |key| <= AB.MaxKeySize(LEAF_FORMAT)
    requires kid.contents == Rests(m, key[0]) && kid.nbElements <= k
    modifies kid
    ensures kid.Valid() && kid.contents == old(kid.contents)[key[1..] := v] && kid.nbElements <= k + 1
  {
    hide AH.ArrayHash.Valid, AH.MaxSize;
    LeafBounds();
    kid.Bounds([]);
    assert key == [key[0]] + key[1..];
    var highLoad, clear := *, *;
    var e := kid.Emplace(key[1..], v, highLoad && |kid.buckets| <= MAX_LOADED_BUCKETS, clear);
  }

  /** burst: the entries of a leaf sorted by their first byte, the empty one apart. */
  method Burst(h: AH.ArrayHash) returns (value: Option<nat>, kids: map<byte, AH.ArrayHash>)
    requires h.Valid() && h.f == LEAF_FORMAT
    ensures Bursting(h.contents, value, kids, h.nbElements)
    ensures fresh(kids.Values)
  {
    hide AH.ArrayHash.Valid, AH.ArrayHash.Entries, AH.ArrayHash.At, AH.ArrayHash.AtEnd, AH.Distinct, AH.HasKey, Listed;
    hide AH.MaxSize, Rests;
    value, kids := None, map[];
    ghost var es := h.Entries();
    ghost var k: nat := 0;
    h.EntriesCover();
    LeafBounds();
    h.Bounds([]);
    ListedStart(es, h.contents);
    NoRests();
    var c := h.Begin();
    h.EndTells(c, 0);
    while !h.AtEnd(c)
      invariant h.At(c, k) && k <= |es| && (h.AtEnd(c) <==> k == |es|)
      invariant Bursting(Listed(es, h.contents, k), value, kids, k) && fresh(kids.Values)
      decreases |es| - k
    {
      var key, v := h.Read(c, k);
      h.Bounds(key);
      ListedStep(es, h.contents, k);
      if |key| == 0 {
        EmptyStep(Listed(es, h.contents, k), v);
        value := Some(v);
      } else {
        kids := BurstEntry(h.hash, key, v, value, kids, Listed(es, h.contents, k), k);
      }
      c := h.Step(c, k);
      k := k + 1;
      h.EndTells(c, k);
    }
    ListedAll(es, h.contents);
  }

  lemma NoRests()
    ensures forall c :: Rests(map[], c) == map[]
  {
  }

  lemma EmptyStep(m: map<Key, nat>, v: nat)
    requires [] !in m
    ensures forall c :: Rests(m[[] := v], c) == Rests(m, c)
  {
    forall c ensures Rests(m[[] := v], c) == Rests(m, c) {
      RestsStep(m, [], v, c);
    }
  }

  /** The address of the new leaf for a byte, and back. */
  function KidId(b: nat, c: byte): nat {
    b + 1 + c
  }

  predicate IsKid(hashes: map<byte, AH.ArrayHash>, b: nat, i: nat) {
    b < i <= b + 256 && Letter(b, i) in hashes
  }

  function Letter(b: nat, i: nat): byte {
    if b < i <= b + 256 then i - b - 1 else 0
  }

  lemma KidLetter(b: nat, c: byte)
    ensures Letter(b, KidId(b, c)) == c && b < KidId(b, c) <= b + 256
    ensures forall i :: b < i <= b + 256 ==> KidId(b, Letter(b, i)) == i
  {
  }

  function KidIds(b: nat, hashes: map<byte, AH.ArrayHash>): map<byte, nat> {
    map c | c in hashes :: KidId(b, c)
  }

  lemma KidIdsAre(b: nat, hashes: map<byte, AH.ArrayHash>)
    ensures var r := KidIds(b, hashes); r.Keys == hashes.Keys && (forall c :: c in r ==> r[c] == KidId(b, c))
    ensures forall i :: i in KidIds(b, hashes).Values <==> IsKid(hashes, b, i)
  {
    var r := KidIds(b, hashes);
    assert forall i :: IsKid(hashes, b, i) ==> i == KidId(b, Letter(b, i)) && i == r[Letter(b, i)];
  }

  /** The tree after the burst of n. */
  ghost function BurstNode(t: Tree, n: nat, b: nat, kids: map<byte, nat>, i: nat): Node
    requires n in t && t[n].Leaf?
  {
    if i == b then Grown(t[n], kids)
    else if i in t then Rehung(t[i], t[n].up, t[n].childOf, i, b)
    else Leaf(Some(b), Letter(b, i), Rests(t[n].entries, Letter(b, i)))
  }

  ghost function BurstTree(t: Tree, n: nat, b: nat, kids: map<byte, nat>): Tree
    requires n in t && t[n].Leaf?
  {
    map i | i in t.Keys - {n} + {b} + kids.Values :: BurstNode(t, n, b, kids, i)
  }

  ghost function BurstPaths(paths: Paths, n: nat, b: nat, kids: map<byte, nat>): Paths
    requires n in paths
  {
    map i | i in paths.Keys - {n} + {b} + kids.Values ::
      if i == b then paths[n] else if i in paths then paths[i] else paths[n] + [Letter(b, i)]
  }

  lemma BurstIs(t: Tree, paths: Paths, n: nat, b: nat, kids: map<byte, nat>)
    requires paths.Keys == t.Keys && n in t && t[n].Leaf? && KidsNew(t, b, kids, t[n].entries)
             && forall c :: c in kids ==> kids[c] == KidId(b, c)
    ensures BurstInto(t, paths, n, b, kids, BurstTree(t, n, b, kids), BurstPaths(paths, n, b, kids))
  {
    hide Rests, Rehung, Grown, KidId, Letter, KidsNew, BurstNode, BurstTree, BurstPaths;
    KidsNewFacts(t, b, kids, t[n].entries);
    BurstKeys(t, paths, n, b, kids);
    BurstAt(t, paths, n, b, kids, b);
    forall c | c in kids
      ensures BurstTree(t, n, b, kids)[kids[c]] == Leaf(Some(b), c, Rests(t[n].entries, c))
              && BurstPaths(paths, n, b, kids)[kids[c]] == paths[n] + [c]
    {
      KidLetter(b, c);
      BurstAt(t, paths, n, b, kids, kids[c]);
    }
    forall i | i in t && i != n
      ensures BurstTree(t, n, b, kids)[i] == Rehung(t[i], t[n].up, t[n].childOf, i, b)
              && BurstPaths(paths, n, b, kids)[i] == paths[i]
    {
      BurstAt(t, paths, n, b, kids, i);
    }
  }

  lemma BurstKeys(t: Tree, paths: Paths, n: nat, b: nat, kids: map<byte, nat>)
    requires paths.Keys == t.Keys && n in t && t[n].Leaf?
    ensures BurstTree(t, n, b, kids).Keys == BurstPaths(paths, n, b, kids).Keys == t.Keys - {n} + {b} + kids.Values
    ensures forall c :: c in kids ==> kids[c] in kids.Values
  {
  }

  lemma BurstAt(t: Tree, paths: Paths, n: nat, b: nat, kids: map<byte, nat>, i: nat)
    requires paths.Keys == t.Keys && n in t && t[n].Leaf? && i in t.Keys - {n} + {b} + kids.Values
    ensures i in BurstTree(t, n, b, kids) && BurstTree(t, n, b, kids)[i] == BurstNode(t, n, b, kids, i)
            && i in BurstPaths(paths, n, b, kids)
    ensures i == b ==> BurstNode(t, n, b, kids, i) == Grown(t[n], kids) && BurstPaths(paths, n, b, kids)[i] == paths[n]
    ensures i != b && i in t ==>
              BurstNode(t, n, b, kids, i) == Rehung(t[i], t[n].up, t[n].childOf, i, b)
              && BurstPaths(paths, n, b, kids)[i] == paths[i]
    ensures i != b && i !in t ==>
              BurstNode(t, n, b, kids, i) == Leaf(Some(b), Letter(b, i), Rests(t[n].entries, Letter(b, i)))
                                  && BurstPaths(paths, n, b, kids)[i] == paths[n] + [Letter(b, i)]
  {
    hide Rests, Rehung, Grown, Letter;
  }

  /** set_child of the parent of a node, if it has one. */
  function SetChild(nodes: map<nat, Slot>, up: Option<nat>, childOf: byte, y: nat): map<nat, Slot>
    requires up.Some? ==> up.value in nodes && nodes[up.value].TrieNode?
  {
    if up.None? then nodes else nodes[up.value := nodes[up.value].(children := nodes[up.value].children[childOf := y])]
  }

  /** The new nodes in the place of n. */
  function BurstSlots(nodes: map<nat, Slot>, n: nat, b: nat, value: Option<nat>,
      hashes: map<byte, AH.ArrayHash>): map<nat, Slot>
    requires n in nodes && (nodes[n].up.Some? ==> nodes[n].up.value in nodes && nodes[nodes[n].up.value].TrieNode?)
  {
    var x := nodes[n];
    (SetChild(nodes, x.up, x.childOf, b) - {n})[b := TrieNode(x.up, x.childOf, value, KidIds(b, hashes))] + KidSlots(b,
        hashes)
  }

  /** The new leaves under their addresses. */
  function KidSlots(b: nat, hashes: map<byte, AH.ArrayHash>): map<nat, Slot> {
    map i: nat | b < i <= b + 256 && IsKid(hashes, b, i) :: HashNode(Some(b), Letter(b, i), hashes[Letter(b, i)])
  }

  lemma KidSlotsAre(b: nat, hashes: map<byte, AH.ArrayHash>)
    ensures forall i: nat :: i in KidSlots(b, hashes) <==> IsKid(hashes, b, i)
    ensures forall i: nat :: IsKid(hashes, b, i) ==>
              b < i && KidSlots(b, hashes)[i] == HashNode(Some(b), Letter(b, i), hashes[Letter(b, i)])
  {
  }

  lemma BurstSlotsAre(nodes: map<nat, Slot>, n: nat, b: nat, value: Option<nat>, hashes: map<byte, AH.ArrayHash>)
    requires n in nodes && (nodes[n].up.Some? ==> nodes[n].up.value in nodes && nodes[nodes[n].up.value].TrieNode?)
    requires forall x :: x in nodes ==> x < b
    ensures forall i: nat :: i in BurstSlots(nodes, n, b, value, hashes) <==>
              (i in nodes && i != n) || i == b || IsKid(hashes, b, i)
    ensures BurstSlots(nodes, n, b, value, hashes)[b] == TrieNode(nodes[n].up, nodes[n].childOf, value,
        KidIds(b, hashes))
    ensures forall i: nat :: i in nodes && i != n ==>
              BurstSlots(nodes, n, b, value, hashes)[i] == if nodes[n].up == Some(i) then nodes[i].(children := nodes[i].children[nodes[n].childOf := b]) else nodes[i]
    ensures forall i: nat :: IsKid(hashes, b, i) ==>
              BurstSlots(nodes, n, b, value, hashes)[i] == HashNode(Some(b), Letter(b, i), hashes[Letter(b, i)])
  {
    hide KidSlots, IsKid, Letter, KidIds;
    KidSlotsAre(b, hashes);
    SelfNotKid(b, hashes);
  }

  lemma SelfNotKid(b: nat, hashes: map<byte, AH.ArrayHash>)
    ensures !IsKid(hashes, b, b)
  {
  }

  lemma KidsAreNew(t: Tree, b: nat, hashes: map<byte, AH.ArrayHash>, value: Option<nat>, m: map<Key, nat>, k: nat)
    requires Bursting(m, value, hashes, k) && (forall n :: n in t ==> n < b)
    ensures KidsNew(t, b, KidIds(b, hashes), m)
  {
    hide Rests, AH.ArrayHash.Valid;
    KidIdsAre(b, hashes);
  }

  /** What the burst needs to know of the nodes. */
  ghost predicate BurstReady(nodes: map<nat, Slot>, t: Tree, n: nat, b: nat, value: Option<nat>,
      hashes: map<byte, AH.ArrayHash>, k: nat)
    reads HashesOf(nodes), hashes.Values
  {
    && AllMirror(nodes, t) && n in nodes && nodes[n].HashNode? && (forall x :: x in nodes ==> x < b)
    && (nodes[n].up.Some? ==> nodes[n].up.value in nodes && nodes[nodes[n].up.value].TrieNode? && nodes[n].up.value != n)
    && t[n].Leaf? && Bursting(t[n].entries, value, hashes, k)
  }

  /** A node after the burst of n, and what it stands for. */
  lemma BurstMirror(nodes: map<nat, Slot>, t: Tree, n: nat, b: nat, value: Option<nat>, hashes: map<byte, AH.ArrayHash>,
      k: nat, i: nat)
    requires BurstReady(nodes, t, n, b, value, hashes, k) && i in BurstSlots(nodes, n, b, value, hashes)
    ensures Mirrors(BurstSlots(nodes, n, b, value, hashes)[i], BurstNode(t, n, b, KidIds(b, hashes), i))
  {
    hide Rests, AH.ArrayHash.Valid, BurstSlots, KidIds, Letter, IsKid;
    BurstSlotsAre(nodes, n, b, value, hashes);
    assert Mirrors(nodes[n], t[n]);
    if i in nodes && i != n {
      assert Mirrors(nodes[i], t[i]);
    }
    if IsKid(hashes, b, i) { KidNotOld(nodes, hashes, b, i); }
  }

  lemma KidNotOld(nodes: map<nat, Slot>, hashes: map<byte, AH.ArrayHash>, b: nat, i: nat)
    requires IsKid(hashes, b, i) && forall x :: x in nodes ==> x < b
    ensures i !in nodes && i != b && Letter(b, i) in hashes
  {
  }

  lemma BurstMirrors(nodes: map<nat, Slot>, t: Tree, n: nat, b: nat, value: Option<nat>,
      hashes: map<byte, AH.ArrayHash>, k: nat)
    requires BurstReady(nodes, t, n, b, value, hashes, k) && Apart(nodes) && hashes.Values !! HashesOf(nodes)
    ensures AllMirror(BurstSlots(nodes, n, b, value, hashes), BurstTree(t, n, b, KidIds(b, hashes)))
    ensures Apart(BurstSlots(nodes, n, b, value, hashes))
    ensures HashesOf(BurstSlots(nodes, n, b, value, hashes)) <= HashesOf(nodes) + hashes.Values
    ensures forall x :: x in BurstSlots(nodes, n, b, value, hashes) ==> x < b + 257
  {
    hide Rests, AH.ArrayHash.Valid, Mirrors, BurstNode, BurstSlots, BurstTree, KidIds, Bursting;
    var r := BurstSlots(nodes, n, b, value, hashes);
    SlotKeys(nodes, t, n, b, value, hashes);
    forall i | i in r ensures Mirrors(r[i], BurstTree(t, n, b, KidIds(b, hashes))[i]) {
      BurstMirror(nodes, t, n, b, value, hashes, k, i);
    }
    HashesApart(t[n].entries, value, hashes, k);
    BurstApart(nodes, n, b, value, hashes);
  }

  lemma SlotKeys(nodes: map<nat, Slot>, t: Tree, n: nat, b: nat, value: Option<nat>, hashes: map<byte, AH.ArrayHash>)
    requires nodes.Keys == t.Keys && n in nodes && t[n].Leaf? && (forall x :: x in nodes ==> x < b)
    requires nodes[n].up.Some? ==> nodes[n].up.value in nodes && nodes[nodes[n].up.value].TrieNode?
    ensures BurstSlots(nodes, n, b, value, hashes).Keys == BurstTree(t, n, b, KidIds(b, hashes)).Keys
    ensures forall i :: i in BurstTree(t, n, b, KidIds(b, hashes)) ==>
              BurstTree(t, n, b, KidIds(b, hashes))[i] == BurstNode(t, n, b, KidIds(b, hashes), i)
  {
    hide BurstNode, BurstSlots, KidIds, IsKid, Letter;
    BurstSlotsAre(nodes, n, b, value, hashes);
    KidIdsAre(b, hashes);
  }

  lemma HashesApart(m: map<Key, nat>, value: Option<nat>, hashes: map<byte, AH.ArrayHash>, k: nat)
    requires Bursting(m, value, hashes, k)
    ensures forall c, d :: c in hashes && d in hashes && hashes[c] == hashes[d] ==> c == d
  {
    hide Rests, AH.ArrayHash.Valid;
  }

  lemma BurstApart(nodes: map<nat, Slot>, n: nat, b: nat, value: Option<nat>, hashes: map<byte, AH.ArrayHash>)
    requires Apart(nodes) && n in nodes && nodes[n].HashNode? && (forall x :: x in nodes ==> x < b)
    requires nodes[n].up.Some? ==> nodes[n].up.value in nodes && nodes[nodes[n].up.value].TrieNode?
    requires hashes.Values !! HashesOf(nodes) && forall c, d :: c in hashes && d in hashes && hashes[c] == hashes[d] ==> c == d
    ensures Apart(BurstSlots(nodes, n, b, value, hashes))
    ensures HashesOf(BurstSlots(nodes, n, b, value, hashes)) <= HashesOf(nodes) + hashes.Values
    ensures forall x :: x in BurstSlots(nodes, n, b, value, hashes) ==> x < b + 257
  {
    hide BurstSlots, KidIds, Letter;
    var r := BurstSlots(nodes, n, b, value, hashes);
    BurstSlotsAre(nodes, n, b, value, hashes);
    forall i | i in r && r[i].HashNode? && i in nodes ensures nodes[i].HashNode? && r[i].hash == nodes[i].hash
    && r[i].hash in HashesOf(nodes) {
      if IsKid(hashes, b, i) { KidNotOld(nodes, hashes, b, i); }
    }
    forall i | i in r && r[i].HashNode? && i !in nodes ensures IsKid(hashes, b, i)
    && r[i].hash == hashes[Letter(b, i)] && r[i].hash in hashes.Values {
    }
    forall i, j | IsKid(hashes, b, i) && IsKid(hashes, b, j) && Letter(b, i) == Letter(b, j) ensures i == j {
      KidLetter(b, Letter(b, i));
    }
  }
}
