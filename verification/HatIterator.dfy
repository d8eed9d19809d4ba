/** Walking through a hat-trie, and the range of the keys with a prefix. */
module HatIterator {
  import opened Options
  import opened Bits
  import opened Keys
  import opened Serialization
  import opened HatTree
  import opened HatOrder
  import HT = HatTrie
  import AB = ArrayBucket
  import AH = ArrayHash

  ghost function KeysOf(es: seq<AB.Entry>): (r: seq<Key>)
    ensures |r| == |es| && forall i :: 0 <= i < |r| ==> r[i] == es[i].key
  {
    seq(|es|, i requires 0 <= i < |es| => es[i].key)
  }

  ghost function OrdersOf(nodes: map<nat, HT.Slot>): map<nat, seq<Key>>
    reads HT.HashesOf(nodes)
  {
    map n | n in nodes && nodes[n].HashNode? :: KeysOf(nodes[n].hash.Entries())
  }

  ghost function WorldOf(trie: HT.HatTrie): World
    reads trie, HT.HashesOf(trie.nodes)
  {
    World(trie.tree, trie.paths, trie.root, OrdersOf(trie.nodes), MaxLen(trie.paths))
  }

  lemma LeafOrder(trie: HT.HatTrie, n: nat)
    requires trie.Valid() && n in trie.nodes && trie.nodes[n].HashNode?
    ensures n in trie.tree && trie.tree[n].Leaf? && OrderOk(WorldOf(trie), n)
  {
    hide AH.ArrayHash.Valid, AH.ArrayHash.Entries;
    trie.Parts(None);
    trie.MirrorKids(n);
    var h := trie.nodes[n].hash;
    h.EntriesCover();
    var es := h.Entries();
    assert WorldOf(trie).orders[n] == KeysOf(es);
    forall rest ensures rest in KeysOf(es) <==> rest in trie.tree[n].entries {
      assert AH.HasKey(es, rest) <==> rest in h.contents;
      if AH.HasKey(es, rest) {
        var i :| 0 <= i < |es| && es[i].key == rest;
        assert KeysOf(es)[i] == rest;
      }
    }
  }

  lemma WorldHolds(trie: HT.HatTrie)
    requires trie.Valid()
    ensures Denoted(WorldOf(trie), trie.contents)
    ensures forall n :: n in trie.tree ==> !IsEmpty(trie.tree[n])
  {
    hide AH.ArrayHash.Valid, LinkOk, KidsOk, Tells, OrderOk;
    trie.Parts(None);
    var w := WorldOf(trie);
    forall n | n in w.t && w.t[n].Leaf? ensures OrderOk(w, n) {
      trie.MirrorKids(n);
      LeafOrder(trie, n);
    }
  }

  class HatIterator {
    const trie: HT.HatTrie
    const filter: Key
    var trieNode: Option<nat>
    var hashNode: Option<nat>
    var cursor: AH.Cursor
    var reading: bool
    ghost const w: World
    ghost var place: Place

    /** The fields show the place. */
    ghost predicate Shows()
      reads this, trie, HT.HashesOf(trie.nodes)
    {
      match place
      case AtValue(n) => reading && trieNode == Some(n)
      case AtEntry(n, k) =>
        && !reading && hashNode == Some(n) && n in trie.nodes && trie.nodes[n].HashNode?
        && trieNode == trie.nodes[n].up && trie.nodes[n].hash.At(cursor, k)
      case Over => !reading && trieNode == None && hashNode == None
    }

    ghost predicate Ready()
      reads this, trie, HT.HashesOf(trie.nodes)
    {
      trie.Valid() && w == WorldOf(trie)
    }

    ghost predicate Valid()
      reads this, trie, HT.HashesOf(trie.nodes)
    {
      Ready() && PlaceOk(w, place) && Shows()
    }

    lemma Facts()
      requires Ready()
      ensures Denoted(w, trie.contents) && WorldOk(w) && w.t == trie.tree && w.paths == trie.paths
              && w.root == trie.root
      ensures w.t.Keys == trie.nodes.Keys
    {
      WorldHolds(trie);
      trie.Parts(None);
    }

    lemma NodeFacts(n: nat)
      requires Ready() && n in trie.nodes
      ensures n in w.t && (w.t[n].Branch? <==> trie.nodes[n].TrieNode?) && w.t[n].up == trie.nodes[n].up
              && w.t[n].childOf == trie.nodes[n].childOf
      ensures w.t[n].Branch? ==> w.t[n].children == trie.nodes[n].children && w.t[n].value == trie.nodes[n].value
      ensures w.t[n].Branch? ==> w.t[n].value.Some? || w.t[n].children != map[]
      ensures w.t[n].Leaf? ==>
                n in w.orders && |w.orders[n]| > 0 && w.orders[n] == KeysOf(trie.nodes[n].hash.Entries())
                && trie.nodes[n].hash.Valid()
    {
      WorldHolds(trie);
      trie.Parts(None);
      trie.MirrorKids(n);
      if w.t[n].Leaf? {
        LeafOrder(trie, n);
        var rest :| rest in w.t[n].entries;
        assert rest in w.orders[n];
      }
    }

    /** An end iterator. */
    constructor (trie: HT.HatTrie, filter: Key)
      requires trie.Valid()
      ensures Valid() && place == Over && this.trie == trie && this.filter == filter
    {
      hide HT.HatTrie.Valid, WorldOf;
      this.trie, this.filter := trie, filter;
      trieNode, hashNode, reading, cursor := None, None, false, AH.Cursor(0, None);
      w := WorldOf(trie);
      place := Over;
      new;
      assert forall h :: h in HT.HashesOf(trie.nodes) ==> unchanged(h);
    }

    /** first_child and next_child: the first child from a byte on. */
    method ChildFrom(n: nat, start: nat) returns (r: Option<nat>, ghost c: nat)
      requires Ready() && n in trie.nodes && trie.nodes[n].TrieNode? && start <= 256
      ensures n in w.t && w.t[n].Branch? && WorldOk(w)
      ensures r.None? ==> From(w, n, start) == []
      ensures r.Some? ==>
                start <= c < 256 && c in w.t[n].children && w.t[n].children[c] == r.value
                && From(w, n, start) == From(w, n, c)
      ensures forall d :: start <= d < c ==> d !in w.t[n].children
      ensures r.None? ==> c == 256
    {
      hide HT.HatTrie.Valid, WorldOf, After;
      Facts();
      NodeFacts(n);
      var ichild := start;
      while ichild < 256
        invariant start <= ichild <= 256 && From(w, n, start) == From(w, n, ichild)
        invariant forall d :: start <= d < ichild ==> d !in w.t[n].children
      {
        if ichild in trie.nodes[n].children {
          return Some(trie.nodes[n].children[ichild]), ichild;
        }
        ichild := ichild + 1;
      }
      return None, 256;
    }

    /** set_as_end_iterator */
    method SetEnd()
      requires Ready()
      modifies this
      ensures Valid() && place == Over
    {
      hide HT.HatTrie.Valid, WorldOf;
      trieNode, hashNode, reading := None, None, false;
      place := Over;
      assert forall h :: h in HT.HashesOf(trie.nodes) ==> unchanged(h);
    }

    /** set_current_hash_node */
    method SetHash(n: nat)
      requires Ready() && n in trie.nodes && trie.nodes[n].HashNode? && trieNode == trie.nodes[n].up && !reading
      modifies this
      ensures Valid() && place == AtEntry(n, 0)
      ensures n in w.t && WorldOk(w) && ToCome(w, place) == Sub(w, n) + After(w, n)
    {
      hide HT.HatTrie.Valid, WorldOf, AH.ArrayHash.Valid, AH.ArrayHash.At, AH.ArrayHash.Entries;
      Facts();
      NodeFacts(n);
      hashNode := Some(n);
      cursor := trie.nodes[n].hash.Begin();
      place := AtEntry(n, 0);
      assert forall h :: h in HT.HashesOf(trie.nodes) ==> unchanged(h);
      assert Under(w.paths[n], w.orders[n])[0..] == Under(w.paths[n], w.orders[n]);
    }

    /** most_left_descendant_value_trie_node: the first branch with a value, or with a leaf for its first child. */
    method MostLeft(start: nat) returns (n: nat)
      requires Ready() && start in trie.nodes && trie.nodes[start].TrieNode?
      ensures n in trie.nodes && trie.nodes[n].TrieNode? && n in w.t && start in w.t && WorldOk(w)
      ensures Sub(w, start) + After(w, start) == Sub(w, n) + After(w, n)
      ensures trie.nodes[n].value.None? ==>
                exists c: nat :: FirstIs(n, c) && trie.nodes[trie.nodes[n].children[c]].HashNode?
    {
      hide HT.HatTrie.Valid, WorldOf, From, After, Denoted, LinksOk;
      Facts();
      NodeFacts(start);
      n := start;
      while true
        invariant n in trie.nodes && trie.nodes[n].TrieNode? && n in w.t
        invariant Sub(w, start) + After(w, start) == Sub(w, n) + After(w, n)
        invariant Ready()
        decreases w.bound - |w.paths[n]|
      {
        NodeFacts(n);
        if trie.nodes[n].value.Some? {
          return;
        }
        var child;
        ghost var c;
        child, c := ChildFrom(n, 0);
        assert forall h :: h in HT.HashesOf(trie.nodes) ==> unchanged(h);
        SomeChild(w.t[n]);
        FirstBelow(w, n, c);
        NodeFacts(child.value);
        if trie.nodes[child.value].HashNode? {
          assert FirstIs(n, c);
          return;
        }
        n := child.value;
      }
    }

    ghost predicate FirstIs(n: nat, c: nat)
      reads trie
    {
      n in trie.nodes && trie.nodes[n].TrieNode? && c < 256 && c in trie.nodes[n].children
      && trie.nodes[n].children[c] in trie.nodes
      && forall d :: 0 <= d < c ==> d !in trie.nodes[n].children
    }

    /** set_most_left_descendant_as_next_node: on to the first key at a node or below it. */
    method SetMostLeft(start: nat)
      requires Ready() && start in trie.nodes && !reading
               && (trie.nodes[start].HashNode? ==> trieNode == trie.nodes[start].up)
      modifies this
      ensures Valid() && place != Over && start in w.t && WorldOk(w)
              && ToCome(w, place) == Sub(w, start) + After(w, start)
    {
      hide HT.HatTrie.Valid, WorldOf, From, After, Denoted, LinksOk;
      Facts();
      NodeFacts(start);
      if trie.nodes[start].HashNode? {
        SetHash(start);
        return;
      }
      var n := MostLeft(start);
      trieNode := Some(n);
      assert forall h :: h in HT.HashesOf(trie.nodes) ==> unchanged(h);
      NodeFacts(n);
      if trie.nodes[n].value.Some? {
        reading := true;
        place := AtValue(n);
        assert forall h :: h in HT.HashesOf(trie.nodes) ==> unchanged(h);
      } else {
        var child;
        ghost var c;
        child, c := ChildFrom(n, 0);
        assert forall h :: h in HT.HashesOf(trie.nodes) ==> unchanged(h);
        FirstBelow(w, n, c);
        NodeFacts(child.value);
        SetHash(child.value);
      }
    }

    /** The climb of set_next_node_ascending: the next sibling of the node, or of the closest ancestor that has one. */
    method NextAbove(child: nat) returns (next: Option<nat>, ghost above: nat)
      requires Ready() && child in trie.nodes && trie.nodes[child].up.Some?
      ensures child in w.t && WorldOk(w)
      ensures next.None? ==> After(w, child) == []
      ensures next.Some? ==> next.value in w.t && next.value in trie.nodes && trie.nodes[next.value].up == Some(above)
                             && After(w, child) == Sub(w, next.value) + After(w, next.value)
    {
      hide HT.HatTrie.Valid, WorldOf, From, Sub, Denoted, LinksOk;
      Facts();
      NodeFacts(child);
      ParentFacts(child);
      var current := child;
      var tn := trie.nodes[child].up.value;
      ghost var c;
      next, c := ChildFrom(tn, trie.nodes[child].childOf as nat + 1);
      assert forall h :: h in HT.HashesOf(trie.nodes) ==> unchanged(h);
      while next.None? && trie.nodes[tn].up.Some?
        invariant Ready() && current in trie.nodes && trie.nodes[current].up == Some(tn) && tn in trie.nodes
                  && trie.nodes[tn].TrieNode? && tn in w.t && current in w.t && w.t[tn].Branch?
        invariant After(w, child) == From(w, tn, trie.nodes[current].childOf as nat + 1) + After(w, tn)
        invariant next.None? ==> From(w, tn, trie.nodes[current].childOf as nat + 1) == []
        invariant next.Some? ==>
                    c < 256 && c in w.t[tn].children && w.t[tn].children[c] == next.value
                    && From(w, tn, trie.nodes[current].childOf as nat + 1) == From(w, tn, c)
        decreases |w.paths[tn]|
      {
        ParentFacts(tn);
        current := tn;
        tn := trie.nodes[tn].up.value;
        NodeFacts(current);
        next, c := ChildFrom(tn, trie.nodes[current].childOf as nat + 1);
        assert forall h :: h in HT.HashesOf(trie.nodes) ==> unchanged(h);
      }
      above := tn;
      NodeFacts(tn);
      if next.Some? {
        AfterChild(w, tn, c);
        ChildFacts(tn, c);
      } else {
        NoAfter(w, tn);
      }
    }

    lemma ParentFacts(n: nat)
      requires Ready() && n in trie.nodes && trie.nodes[n].up.Some?
      ensures WorldOk(w) && n in w.t && trie.nodes[n].up.value in trie.nodes
              && trie.nodes[trie.nodes[n].up.value].TrieNode?
      ensures trie.nodes[n].up.value in w.t && w.t[trie.nodes[n].up.value].Branch?
              && |w.paths[trie.nodes[n].up.value]| < |w.paths[n]|
      ensures After(w, n) == From(w, trie.nodes[n].up.value, trie.nodes[n].childOf as nat + 1) + After(w,
          trie.nodes[n].up.value)
    {
      hide From, After, HT.HatTrie.Valid, WorldOf, LinksOk;
      Facts();
      NodeFacts(n);
      AfterParent(w, n);
      NodeFacts(trie.nodes[n].up.value);
    }

    lemma ChildFacts(n: nat, c: nat)
      requires Ready() && n in trie.nodes && n in w.t && w.t[n].Branch? && c < 256 && c in w.t[n].children
      ensures w.t[n].children[c] in trie.nodes && trie.nodes[w.t[n].children[c]].up == Some(n)
    {
      Facts();
      StepDown(w.t, w.paths, w.root, n, c);
      NodeFacts(w.t[n].children[c]);
    }

    /** set_next_node_ascending */
    method SetNextAscending(child: nat)
      requires Ready() && child in trie.nodes && trie.nodes[child].up.Some? && !reading
      modifies this
      ensures Valid() && child in w.t && WorldOk(w) && ToCome(w, place) == After(w, child)
    {
      hide HT.HatTrie.Valid, WorldOf, From, After, Denoted, LinksOk;
      var next;
      ghost var above;
      next, above := NextAbove(child);
      assert forall h :: h in HT.HashesOf(trie.nodes) ==> unchanged(h);
      if next.None? {
        SetEnd();
      } else {
        trieNode := trie.nodes[next.value].up;
        assert forall h :: h in HT.HashesOf(trie.nodes) ==> unchanged(h);
        SetMostLeft(next.value);
      }
    }

    /** What is known at an entry of a leaf. */
    lemma EntryFacts()
      requires Valid() && place.AtEntry?
      ensures WorldOk(w) && place.leaf in w.t && place.leaf in w.orders && place.leaf in w.paths
              && place.k < |w.orders[place.leaf]|
      ensures hashNode == Some(place.leaf) && place.leaf in trie.nodes && trie.nodes[place.leaf].HashNode?
              && trieNode == trie.nodes[place.leaf].up && !reading
      ensures trie.nodes[place.leaf].hash.Valid() && trie.nodes[place.leaf].hash.At(cursor, place.k)
      ensures |trie.nodes[place.leaf].hash.Entries()| == |w.orders[place.leaf]|
      ensures forall j :: 0 <= j < |w.orders[place.leaf]| ==>
                trie.nodes[place.leaf].hash.Entries()[j].key == w.orders[place.leaf][j]
    {
      Facts();
      NodeFacts(place.leaf);
    }

    /** The end of a leaf: on to the next node above. */
    method LeaveLeaf(n: nat)
      requires Ready() && n in trie.nodes && trieNode == trie.nodes[n].up && !reading
      modifies this
      ensures Valid() && n in w.t && WorldOk(w) && ToCome(w, place) == After(w, n)
    {
      hide HT.HatTrie.Valid, WorldOf, From, After, Denoted, LinksOk, Shows, PlaceOk;
      Facts();
      NodeFacts(n);
      if trieNode.None? {
        NoAfter(w, n);
        SetEnd();
      } else {
        SetNextAscending(n);
      }
    }

    /** One step of the array hash iterator of the leaf. */
    method StepInLeaf(ghost n: nat, ghost k: nat) returns (more: bool)
      requires Valid() && place == AtEntry(n, k)
      modifies this
      ensures Ready() && n in w.orders && k < |w.orders[n]| && hashNode == Some(n) && n in trie.nodes
              && trieNode == trie.nodes[n].up && !reading
      ensures more ==> Valid() && place == AtEntry(n, k + 1)
      ensures more <==> k + 1 < |w.orders[n]|
    {
      hide HT.HatTrie.Valid, WorldOf, AH.ArrayHash.Valid, AH.ArrayHash.At, AH.ArrayHash.Entries, AH.ArrayHash.AtEnd;
      EntryFacts();
      var h := trie.nodes[hashNode.value].hash;
      cursor := h.Step(cursor, k);
      assert forall h :: h in HT.HashesOf(trie.nodes) ==> unchanged(h);
      h.EndTells(cursor, k + 1);
      more := !h.AtEnd(cursor);
      if more {
        place := AtEntry(n, k + 1);
        assert forall h :: h in HT.HashesOf(trie.nodes) ==> unchanged(h);
      }
    }

    /** Does the rest of the key in the leaf begin with the filter? */
    method Matches() returns (r: bool)
      requires Valid() && place.AtEntry?
      ensures place.leaf in w.orders && place.k < |w.orders[place.leaf]|
              && (r <==> filter <= w.orders[place.leaf][place.k])
    {
      hide HT.HatTrie.Valid, WorldOf, AH.ArrayHash.Valid, AH.ArrayHash.At, AH.ArrayHash.Entries;
      EntryFacts();
      var rest, _ := trie.nodes[hashNode.value].hash.Read(cursor, place.k);
      r := |filter| <= |rest| && rest[..|filter|] == filter;
    }

    /** filter_prefix: on to the first entry of the leaf that matches, or out of the leaf. */
    method FilterPrefix()
      requires Valid() && place.AtEntry?
      modifies this
      ensures Valid() && old(place).leaf in w.t && old(place).leaf in w.orders
              && old(place).k < |w.orders[old(place).leaf]| && WorldOk(w)
      ensures filter == [] ==> place == old(place)
      ensures filter != [] ==> Filtered(w, filter, old(place).leaf, old(place).k, place)
    {
      hide HT.HatTrie.Valid, WorldOf, Shows, Picked, From, After, Sub, LinksOk, ToCome, AH.ArrayHash.Valid;
      hide AH.ArrayHash.At, AH.ArrayHash.Entries;
      EntryFacts();
      if |filter| == 0 {
        return;
      }
      ghost var n, k := place.leaf, place.k;
      var matches := Matches();
      assert forall h :: h in HT.HashesOf(trie.nodes) ==> unchanged(h);
      while !matches
        invariant Valid() && place.AtEntry? && place.leaf == n && k <= place.k < |w.orders[n]|
        invariant Picked(w, filter, n, k) == Picked(w, filter, n, place.k)
        invariant matches <==> filter <= w.orders[n][place.k]
        decreases |w.orders[n]| - place.k
      {
        PickedStep(w, filter, n, place.k);
        ghost var j := place.k;
        var more := StepInLeaf(n, j);
        if !more {
          PickedEnd(w, filter, n, j + 1);
          LeaveLeaf(hashNode.value);
          return;
        }
        matches := Matches();
        assert forall h :: h in HT.HashesOf(trie.nodes) ==> unchanged(h);
      }
    }

    /** operator++ at the value of a branch. */
    method NextFromValue()
      requires Valid() && place.AtValue?
      modifies this
      ensures Valid() && WorldOk(w) && PlaceOk(w, old(place))
              && ToCome(w, old(place)) == [w.paths[old(place).n]] + ToCome(w, place)
    {
      hide HT.HatTrie.Valid, WorldOf, From, After, Sub, Denoted, LinksOk;
      ghost var n0 := place.n;
      ValueFacts();
      var n := trieNode.value;
      reading := false;
      assert forall h :: h in HT.HashesOf(trie.nodes) ==> unchanged(h);
      var child;
      ghost var c;
      child, c := ChildFrom(n, 0);
      assert forall h :: h in HT.HashesOf(trie.nodes) ==> unchanged(h);
      if child.Some? {
        AfterChild(w, n, c);
        ChildFacts(n, c);
        SetMostLeft(child.value);
      } else if trie.nodes[n].up.Some? {
        trieNode := trie.nodes[n].up;
        assert forall h :: h in HT.HashesOf(trie.nodes) ==> unchanged(h);
        SetNextAscending(n);
      } else {
        NodeFacts(n);
        NoAfter(w, n);
        SetEnd();
      }
    }

    lemma ValueFacts()
      requires Valid() && place.AtValue?
      ensures WorldOk(w) && PlaceOk(w, place) && trieNode == Some(place.n) && place.n in trie.nodes
              && trie.nodes[place.n].TrieNode?
      ensures ToCome(w, place) == [w.paths[place.n]] + From(w, place.n, 0) + After(w, place.n)
      ensures trie.nodes[place.n].value == w.t[place.n].value && trie.nodes[place.n].value.Some?
    {
      Facts();
      NodeFacts(place.n);
    }

    /** operator++ at an entry of a leaf. */
    method NextFromEntry()
      requires Valid() && place.AtEntry?
      modifies this
      ensures Valid() && WorldOk(w) && PlaceOk(w, old(place)) && old(place).leaf in w.paths
      ensures filter == [] ==> ToCome(w, old(place)) == [KeyAt(w, old(place))] + ToCome(w, place)
      ensures filter != [] ==> Filtered(w, filter, old(place).leaf, old(place).k + 1, place)
    {
      hide HT.HatTrie.Valid, WorldOf, Shows, Picked, From, After, Sub, LinksOk, AH.ArrayHash.Valid, AH.ArrayHash.At;
      hide AH.ArrayHash.Entries, Filtered, ToCome;
      EntryFacts();
      ghost var n, k := place.leaf, place.k;
      EntryStep(w, n, k);
      var more := StepInLeaf(n, k);
      if more {
        FilterPrefix();
      } else {
        LeaveLeaf(hashNode.value);
        FilteredOut(w, filter, n, k + 1, place);
      }
    }

    /** The key of the iterator: the bytes up the parents, turned around, and in a leaf the rest. */
    method Key() returns (key: Key)
      requires Valid() && place != Over
      ensures WorldOk(w) && key == KeyAt(w, place)
    {
      hide HT.HatTrie.Valid, WorldOf, From, After, Sub, AH.ArrayHash.Valid, AH.ArrayHash.At, AH.ArrayHash.Entries;
      Facts();
      ghost var n := NodeAt(place);
      if reading {
        ValueFacts();
        key := PathOf(trieNode.value);
      } else {
        EntryFacts();
        var rest, _ := trie.nodes[hashNode.value].hash.Read(cursor, place.k);
        assert forall h :: h in HT.HashesOf(trie.nodes) ==> unchanged(h);
        key := [];
        if trieNode.Some? {
          ParentPath(hashNode.value);
          key := PathOf(trieNode.value);
          key := key + [trie.nodes[hashNode.value].childOf];
        } else {
          RootPath(hashNode.value);
        }
        key := key + rest;
      }
    }

    /** The climb from a node to the root. */
    method PathOf(n: nat) returns (path: Key)
      requires Ready() && n in trie.nodes
      ensures n in w.paths && path == w.paths[n]
    {
      hide HT.HatTrie.Valid, WorldOf, From, After, Sub;
      Facts();
      var buffer: Key := [];
      var tnode := n;
      while trie.nodes[tnode].up.Some?
        invariant Ready() && tnode in trie.nodes && tnode in w.paths && n in w.paths
        invariant w.paths[n] == w.paths[tnode] + Backwards(buffer)
        decreases |w.paths[tnode]|
      {
        ParentPath(tnode);
        buffer := buffer + [trie.nodes[tnode].childOf];
        tnode := trie.nodes[tnode].up.value;
      }
      RootPath(tnode);
      path := Backwards(buffer);
    }

    lemma ParentPath(n: nat)
      requires Ready() && n in trie.nodes && trie.nodes[n].up.Some?
      ensures trie.nodes[n].up.value in trie.nodes && trie.nodes[n].up.value in w.paths && n in w.paths
      ensures w.paths[n] == w.paths[trie.nodes[n].up.value] + [trie.nodes[n].childOf]
    {
      Facts();
      NodeFacts(n);
      assert LinkOk(w.t, w.paths, w.root, n);
    }

    lemma RootPath(n: nat)
      requires Ready() && n in trie.nodes && trie.nodes[n].up.None?
      ensures n in w.paths && w.paths[n] == []
    {
      Facts();
      NodeFacts(n);
      assert LinkOk(w.t, w.paths, w.root, n);
    }

    /** The value of the iterator. */
    method Value() returns (value: nat)
      requires Valid() && place != Over
      ensures WorldOk(w) && KeyAt(w, place) in trie.contents && value == trie.contents[KeyAt(w, place)]
    {
      hide HT.HatTrie.Valid, WorldOf, From, After, Sub, AH.ArrayHash.Valid, AH.ArrayHash.At, AH.ArrayHash.Entries;
      Facts();
      PlaceGives(w, trie.contents, place);
      if reading {
        ValueFacts();
        value := trie.nodes[trieNode.value].value.value;
      } else {
        EntryFacts();
        LeafEntries();
        var rest;
        rest, value := trie.nodes[hashNode.value].hash.Read(cursor, place.k);
      }
    }

    lemma LeafEntries()
      requires Valid() && place.AtEntry?
      ensures place.leaf in trie.nodes && trie.nodes[place.leaf].HashNode? && place.leaf in w.t && w.t[place.leaf].Leaf?
      ensures w.t[place.leaf].entries == trie.nodes[place.leaf].hash.contents
    {
      Facts();
      trie.Parts(None);
      trie.MirrorKids(place.leaf);
    }

    /** cbegin of a node. */
    method StartAt(n: nat)
      requires Ready() && n in trie.nodes && !reading
      modifies this
      ensures Valid() && n in w.t && WorldOk(w) && ToCome(w, place) == Sub(w, n) + After(w, n)
    {
      hide HT.HatTrie.Valid, WorldOf, From, After, Sub;
      trieNode := trie.nodes[n].up;
      assert forall h :: h in HT.HashesOf(trie.nodes) ==> unchanged(h);
      SetMostLeft(n);
    }

    /** The begin of a range inside a leaf. */
    method StartInLeaf(n: nat)
      requires Ready() && n in trie.nodes && trie.nodes[n].HashNode? && !reading && filter != []
      modifies this
      ensures Valid() && n in w.t && n in w.orders && WorldOk(w) && Filtered(w, filter, n, 0, place)
    {
      hide HT.HatTrie.Valid, WorldOf, From, After, Sub, Filtered;
      trieNode := trie.nodes[n].up;
      assert forall h :: h in HT.HashesOf(trie.nodes) ==> unchanged(h);
      SetHash(n);
      FilterPrefix();
    }

    /** cend of a node. */
    method StartAfter(n: nat)
      requires Ready() && n in trie.nodes && !reading
      modifies this
      ensures Valid() && n in w.t && WorldOk(w) && ToCome(w, place) == After(w, n)
    {
      hide HT.HatTrie.Valid, WorldOf, From, After, Sub;
      trieNode := trie.nodes[n].up;
      assert forall h :: h in HT.HashesOf(trie.nodes) ==> unchanged(h);
      LeaveLeaf(n);
    }

    lemma ReadingTells()
      requires Valid()
      ensures PlaceOk(w, place) && (reading <==> place.AtValue?)
    {
    }

    /** operator++ */
    method Next(ghost range: seq<Key>, ghost stop: Place)
      requires Valid() && WorldOk(w) && PlaceOk(w, stop) && Leads(w, filter, place, range, stop) && range != []
               && place != Over
      requires filter != [] ==> place.AtEntry?
      modifies this
      ensures Valid() && WorldOk(w) && Leads(w, filter, place, range[1..], stop)
      ensures range[0] == KeyAt(w, old(place))
    {
      hide HT.HatTrie.Valid, WorldOf, From, After, Sub, Leads, Shows, PlaceOk;
      Facts();
      ReadingTells();
      ghost var p := place;
      if reading {
        NextFromValue();
      } else {
        NextFromEntry();
      }
      Facts();
      ReadingTells();
      LeadsOn(w, trie.contents, filter, p, place, range, stop);
    }

    /** operator== */
    predicate Same(other: HatIterator)
      reads this, other
    {
      if trieNode != other.trieNode || reading != other.reading then false
      else if reading then true
      else if hashNode != other.hashNode then false
      else if hashNode.None? then true
      else cursor == other.cursor
    }

    /** Iterators are equal just when they stand at the same place. */
    lemma SameTells(other: HatIterator)
      requires Valid() && other.Valid() && other.trie == trie
      ensures Same(other) <==> place == other.place
    {
      hide HT.HatTrie.Valid, WorldOf, From, After, Sub, AH.ArrayHash.Valid, AH.ArrayHash.Entries, AH.ArrayHash.At;
      if place.AtEntry? && other.place.AtEntry? {
        EntryFacts();
        other.EntryFacts();
        if place.leaf == other.place.leaf {
          trie.nodes[place.leaf].hash.CursorTells(cursor, place.k, other.cursor, other.place.k);
        }
      }
    }
  }

  /** Going on from a place meets the keys of the range, and then the place where it stops. */
  ghost predicate Leads(w: World, filter: Key, p: Place, range: seq<Key>, stop: Place)
    requires WorldOk(w) && PlaceOk(w, p) && PlaceOk(w, stop)
  {
    if filter == [] then ToCome(w, p) == range + ToCome(w, stop)
    else if range == [] then p == stop
    else p.AtEntry? && p.leaf in w.paths && filter <= w.orders[p.leaf][p.k] && range == Picked(w, filter, p.leaf, p.k) && ToCome(w, stop) == After(w, p.leaf)
  }

  lemma LeadsOn(w: World, m: map<Key, nat>, filter: Key, p: Place, q: Place, range: seq<Key>, stop: Place)
    requires Denoted(w, m) && PlaceOk(w, p) && PlaceOk(w, q) && PlaceOk(w, stop) && p != Over && range != []
             && Leads(w, filter, p, range, stop)
    requires p.AtValue? ==> filter == [] && ToCome(w, p) == [KeyAt(w, p)] + ToCome(w, q)
    requires p.AtEntry? && filter == [] ==> ToCome(w, p) == [KeyAt(w, p)] + ToCome(w, q)
    requires p.AtEntry? && filter != [] ==> Filtered(w, filter, p.leaf, p.k + 1, q)
    ensures range[0] == KeyAt(w, p) && Leads(w, filter, q, range[1..], stop)
  {
    hide From, After;
    if filter == [] {
      assert ToCome(w, q) == ToCome(w, p)[1..] == range[1..] + ToCome(w, stop);
      assert ToCome(w, p)[0] == range[0];
    } else {
      PickedStep(w, filter, p.leaf, p.k);
      if range[1..] == [] {
        LeadsOut(w, m, filter, p.leaf, p.k + 1, q, stop);
      }
    }
  }

  /** Nothing left to pick: the walk has left the leaf. */
  lemma LeadsOut(w: World, m: map<Key, nat>, filter: Key, n: nat, k: nat, q: Place, stop: Place)
    requires Denoted(w, m) && n in w.t && n in w.orders && n in w.paths && k <= |w.orders[n]| && PlaceOk(w, q)
             && PlaceOk(w, stop)
    requires Filtered(w, filter, n, k, q) && Picked(w, filter, n, k) == [] && ToCome(w, stop) == After(w, n)
    ensures q == stop
  {
    hide From, After;
    if q.AtEntry? && q.leaf == n && k <= q.k && filter <= w.orders[n][q.k]
       && Picked(w, filter, n, k) == Picked(w, filter, n, q.k) {
      PickedStep(w, filter, n, q.k);
    } else {
      ToComeTells(w, m, q, stop);
    }
  }

  /** The range is empty just when its two ends are the same place. */
  lemma LeadsEnds(w: World, m: map<Key, nat>, filter: Key, p: Place, range: seq<Key>, stop: Place)
    requires Denoted(w, m) && PlaceOk(w, p) && PlaceOk(w, stop) && Leads(w, filter, p, range, stop)
    ensures range == [] <==> p == stop
    ensures range != [] ==> p != Over && (filter != [] ==> p.AtEntry?)
  {
    hide From, After;
    if filter == [] {
      if range == [] { ToComeTells(w, m, p, stop); }
      if p == stop { assert |ToCome(w, p)| == |range| + |ToCome(w, p)|; }
    } else if range != [] {
      LongerThanAfter(w, p);
    }
  }

  lemma LongerThanAfter(w: World, p: Place)
    requires WorldOk(w) && PlaceOk(w, p) && p.AtEntry?
    ensures |ToCome(w, p)| > |After(w, p.leaf)|
  {
    hide From, After;
  }

  // ---------- the keys of a range ----------

  ghost predicate RangeOf(range: seq<Key>, m: map<Key, nat>, prefix: Key) {
    NoRepeats(range) && forall key :: key in range <==> key in m && prefix <= key
  }

  /** A prefix that ends at a node. */
  lemma RangeAtNode(w: World, m: map<Key, nat>, n: nat, prefix: Key)
    requires Denoted(w, m) && n in w.t && w.paths[n] == prefix
    ensures RangeOf(Sub(w, n), m, prefix)
  {
    hide Sub;
    SubNoRepeats(w, m, n);
    forall key ensures key in Sub(w, n) <==> key in m && prefix <= key {
      if key in Sub(w, n) { SubBelow(w, m, n, key); }
      if key in m && prefix <= key { BelowSub(w, m, n, key); }
    }
  }

  /** A prefix that leads to a child that is not there. */
  lemma RangeNowhere(w: World, m: map<Key, nat>, n: nat, prefix: Key)
    requires Denoted(w, m) && n in w.t && w.t[n].Branch? && w.paths[n] <= prefix && |w.paths[n]| < |prefix|
             && prefix[|w.paths[n]|] !in w.t[n].children
    ensures RangeOf([], m, prefix)
  {
    forall key | key in m ensures !(prefix <= key) {
      if prefix <= key {
        assert Given(w.t, w.paths, key, m[key]);
        var x :| Gives(w.t, w.paths, x, key, m[key]);
        OnlyStop(w.t, w.paths, w.root, n, key, x, m[key]);
      }
    }
  }

  /** A prefix that ends inside a leaf. */
  lemma RangeInLeaf(w: World, m: map<Key, nat>, n: nat, prefix: Key, filter: Key)
    requires Denoted(w, m) && n in w.t && w.t[n].Leaf? && n in w.orders && prefix == w.paths[n] + filter
    ensures RangeOf(Picked(w, filter, n, 0), m, prefix)
  {
    assert OrderOk(w, n);
    PickedNoRepeats(w, filter, n, 0);
    forall key ensures key in Picked(w, filter, n, 0) <==> key in m && prefix <= key {
      if key in Picked(w, filter, n, 0) {
        var i := PickedFrom(w, filter, n, 0, key);
        PlaceGives(w, m, AtEntry(n, i));
      }
      if key in m && prefix <= key {
        BelowSub(w, m, n, key);
        var i :| 0 <= i < |w.orders[n]| && Sub(w, n)[i] == key;
        assert key == w.paths[n] + w.orders[n][i];
        assert filter <= w.orders[n][i] by {
          assert key[|w.paths[n]|..] == w.orders[n][i];
          assert key[..|prefix|] == prefix;
          assert key[|w.paths[n]|..][..|filter|] == key[..|prefix|][|w.paths[n]|..] == filter;
        }
        PickedHas(w, filter, n, 0, i);
      }
    }
  }

  lemma {:induction false} PickedFrom(w: World, filter: Key, n: nat, k: nat, key: Key) returns (i: nat)
    requires n in w.orders && n in w.paths && k <= |w.orders[n]| && key in Picked(w, filter, n, k)
    ensures k <= i < |w.orders[n]| && key == w.paths[n] + w.orders[n][i] && w.paths[n] + filter <= key
    decreases |w.orders[n]| - k
  {
    if key in Picked(w, filter, n, k + 1) {
      i := PickedFrom(w, filter, n, k + 1, key);
    } else {
      i := k;
      assert key[..|w.paths[n]| + |filter|] == w.paths[n] + w.orders[n][i][..|filter|];
    }
  }

  lemma {:induction false} PickedHas(w: World, filter: Key, n: nat, k: nat, i: nat)
    requires n in w.orders && n in w.paths && k <= i < |w.orders[n]| && filter <= w.orders[n][i]
    ensures w.paths[n] + w.orders[n][i] in Picked(w, filter, n, k)
    decreases i - k
  {
    if k < i {
      PickedHas(w, filter, n, k + 1, i);
    }
  }

  lemma RestsDiffer(path: Key, a: Key, b: Key)
    requires a != b
    ensures path + a != path + b
  {
    assert (path + a)[|path|..] == a && (path + b)[|path|..] == b;
  }

  lemma {:induction false} PickedNoRepeats(w: World, filter: Key, n: nat, k: nat)
    requires n in w.orders && n in w.paths && k <= |w.orders[n]| && NoRepeats(w.orders[n])
    ensures NoRepeats(Picked(w, filter, n, k))
    decreases |w.orders[n]| - k
  {
    if k < |w.orders[n]| {
      PickedNoRepeats(w, filter, n, k + 1);
      var first := w.paths[n] + w.orders[n][k];
      var rest := Picked(w, filter, n, k + 1);
      forall key | key in rest ensures key != first {
        var i := PickedFrom(w, filter, n, k + 1, key);
        RestsDiffer(w.paths[n], w.orders[n][i], w.orders[n][k]);
      }
      JoinedNoRepeats([first], rest);
    }
  }

  // ---------- the range ----------

  /** A range without keys. */
  method EmptyRange(trie: HT.HatTrie, filter: Key) returns (begin: HatIterator, end: HatIterator)
    requires trie.Valid()
    ensures Bounds(trie, begin, end, []) && fresh(begin) && fresh(end)
  {
    hide HT.HatTrie.Valid, WorldOf, From, After, Sub;
    begin := new HatIterator(trie, filter);
    assert forall h :: h in HT.HashesOf(trie.nodes) ==> unchanged(h);
    end := new HatIterator(trie, []);
    assert forall h :: h in HT.HashesOf(trie.nodes) ==> unchanged(h);
    begin.Facts();
  }

  /** The iterators bound the keys of the range. */
  ghost predicate Bounds(trie: HT.HatTrie, begin: HatIterator, end: HatIterator, range: seq<Key>)
    reads trie, HT.HashesOf(trie.nodes), begin, end
  {
    && begin != end && begin.trie == end.trie == trie && begin.w == end.w && begin.Valid() && end.Valid()
    && WorldOk(begin.w)
    && Leads(begin.w, begin.filter, begin.place, range, end.place)
  }

  /** The range of a whole node. */
  method NodeRange(trie: HT.HatTrie, n: nat) returns (begin: HatIterator, end: HatIterator)
    requires trie.Valid() && n in trie.nodes
    ensures WorldOk(WorldOf(trie)) && n in WorldOf(trie).t && Bounds(trie, begin, end, Sub(WorldOf(trie), n))
            && fresh(begin) && fresh(end)
  {
    hide HT.HatTrie.Valid, WorldOf, From, After, Sub;
    end := new HatIterator(trie, []);
    assert forall h :: h in HT.HashesOf(trie.nodes) ==> unchanged(h);
    end.StartAfter(n);
    assert forall h :: h in HT.HashesOf(trie.nodes) ==> unchanged(h);
    begin := new HatIterator(trie, []);
    assert forall h :: h in HT.HashesOf(trie.nodes) ==> unchanged(h);
    begin.StartAt(n);
    assert forall h :: h in HT.HashesOf(trie.nodes) ==> unchanged(h);
  }

  /** The range of the keys of a leaf that match a filter. */
  method LeafRange(trie: HT.HatTrie, n: nat, filter: Key) returns (begin: HatIterator, end: HatIterator)
    requires trie.Valid() && n in trie.nodes && trie.nodes[n].HashNode? && filter != []
    ensures WorldOk(WorldOf(trie)) && n in WorldOf(trie).t && n in WorldOf(trie).orders && n in WorldOf(trie).paths
    ensures Bounds(trie, begin, end, Picked(WorldOf(trie), filter, n, 0)) && fresh(begin) && fresh(end)
  {
    hide HT.HatTrie.Valid, WorldOf, From, After, Sub, Picked;
    end := new HatIterator(trie, []);
    assert forall h :: h in HT.HashesOf(trie.nodes) ==> unchanged(h);
    end.StartAfter(n);
    assert forall h :: h in HT.HashesOf(trie.nodes) ==> unchanged(h);
    begin := new HatIterator(trie, filter);
    assert forall h :: h in HT.HashesOf(trie.nodes) ==> unchanged(h);
    begin.StartInLeaf(n);
    assert forall h :: h in HT.HashesOf(trie.nodes) ==> unchanged(h);
    begin.Facts();
    LeadsStart(begin.w, trie.contents, filter, n, begin.place, end.place);
  }

  lemma LeadsStart(w: World, m: map<Key, nat>, filter: Key, n: nat, p: Place, stop: Place)
    requires Denoted(w, m) && n in w.t && n in w.orders && n in w.paths && PlaceOk(w, p) && PlaceOk(w, stop)
             && filter != []
    requires Filtered(w, filter, n, 0, p) && ToCome(w, stop) == After(w, n)
    ensures Leads(w, filter, p, Picked(w, filter, n, 0), stop)
  {
    hide From, After;
    if Picked(w, filter, n, 0) == [] {
      LeadsOut(w, m, filter, n, 0, p, stop);
    }
  }

  /** equal_prefix_range: the iterators around the keys with the prefix. */
  method EqualPrefixRange(trie: HT.HatTrie, prefix: Key)
      returns (begin: HatIterator, end: HatIterator, ghost range: seq<Key>)
    requires trie.Valid()
    ensures Bounds(trie, begin, end, range) && fresh(begin) && fresh(end)
    ensures RangeOf(range, trie.contents, prefix)
  {
    hide HT.TrieOk, WorldOf, From, After, Sub, Bounds, RangeOf, Picked;
    if trie.root.None? {
      trie.NoRoot();
      NoKeys(trie.contents, prefix);
      range := [];
      begin, end := EmptyRange(trie, []);
      return;
    }
    trie.RootThere();
    var n, ikey := trie.Descend(trie.root.value, prefix, 0, None);
    assert forall h :: h in HT.HashesOf(trie.nodes) ==> unchanged(h);
    WorldNode(trie, n);
    if trie.nodes[n].TrieNode? && ikey < |prefix| {
      RangeNowhere(WorldOf(trie), trie.contents, n, prefix);
      range := [];
      begin, end := EmptyRange(trie, []);
    } else if ikey < |prefix| {
      RangeInLeaf(WorldOf(trie), trie.contents, n, prefix, prefix[ikey..]);
      range := Picked(WorldOf(trie), prefix[ikey..], n, 0);
      begin, end := LeafRange(trie, n, prefix[ikey..]);
    } else {
      RangeAtNode(WorldOf(trie), trie.contents, n, prefix);
      range := Sub(WorldOf(trie), n);
      begin, end := NodeRange(trie, n);
    }
  }

  /** One round of a walk: the key and value under the iterator, and on. */
  method Visit(trie: HT.HatTrie, begin: HatIterator, ghost end: HatIterator, ghost range: seq<Key>)
      returns (key: Key, value: nat)
    requires trie.Valid() && Bounds(trie, begin, end, range) && range != []
    modifies begin
    ensures Bounds(trie, begin, end, range[1..]) && key == range[0] && key in trie.contents
            && value == trie.contents[key]
  {
    hide HT.HatTrie.Valid, WorldOf, From, After, Sub, Leads, HatIterator.Shows;
    begin.Facts();
    begin.ReadingTells();
    end.ReadingTells();
    LeadsEnds(begin.w, trie.contents, begin.filter, begin.place, range, end.place);
    key := begin.Key();
    assert forall h :: h in HT.HashesOf(trie.nodes) ==> unchanged(h);
    value := begin.Value();
    assert forall h :: h in HT.HashesOf(trie.nodes) ==> unchanged(h);
    begin.Next(range, end.place);
    assert forall h :: h in HT.HashesOf(trie.nodes) ==> unchanged(h);
  }

  lemma BoundsTell(trie: HT.HatTrie, begin: HatIterator, end: HatIterator, range: seq<Key>)
    requires trie.Valid() && Bounds(trie, begin, end, range)
    ensures begin.Same(end) <==> range == []
  {
    hide HT.HatTrie.Valid, WorldOf, From, After, Sub, Leads, HatIterator.Shows, HatIterator.Same;
    begin.Facts();
    begin.ReadingTells();
    end.ReadingTells();
    LeadsEnds(begin.w, trie.contents, begin.filter, begin.place, range, end.place);
    begin.SameTells(end);
  }

  /** The loop over a range: every key with the prefix is met once, with its value, and the walk comes to its end. */
  method WithPrefix(trie: HT.HatTrie, prefix: Key) returns (keys: seq<Key>, values: seq<nat>)
    requires trie.Valid()
    ensures RangeOf(keys, trie.contents, prefix) && |values| == |keys|
    ensures forall i :: 0 <= i < |keys| ==> keys[i] in trie.contents && values[i] == trie.contents[keys[i]]
  {
    hide HT.HatTrie.Valid, WorldOf, Bounds, RangeOf, HatIterator.Same;
    var begin, end;
    ghost var range;
    begin, end, range := EqualPrefixRange(trie, prefix);
    assert forall h :: h in HT.HashesOf(trie.nodes) ==> unchanged(h);
    keys, values := [], [];
    ghost var rest := range;
    BoundsTell(trie, begin, end, rest);
    while !begin.Same(end)
      invariant trie.Valid() && Bounds(trie, begin, end, rest) && range == keys + rest && |values| == |keys|
      invariant begin.Same(end) <==> rest == []
      invariant forall i :: 0 <= i < |keys| ==> keys[i] in trie.contents && values[i] == trie.contents[keys[i]]
      decreases |rest|
    {
      var key, value := Visit(trie, begin, end, rest);
      assert forall h :: h in HT.HashesOf(trie.nodes) ==> unchanged(h);
      keys, values := keys + [key], values + [value];
      rest := rest[1..];
      BoundsTell(trie, begin, end, rest);
    }
    assert keys == range;
  }

  lemma WorldNode(trie: HT.HatTrie, n: nat)
    requires trie.Valid() && n in trie.nodes
    ensures Denoted(WorldOf(trie), trie.contents) && WorldOf(trie).t == trie.tree && WorldOf(trie).paths == trie.paths
    ensures n in trie.tree && n in trie.paths && (trie.tree[n].Branch? <==> trie.nodes[n].TrieNode?)
    ensures trie.tree[n].Branch? ==> trie.tree[n].children == trie.nodes[n].children
    ensures trie.tree[n].Leaf? ==> n in WorldOf(trie).orders
  {
    WorldHolds(trie);
    trie.Parts(None);
    trie.MirrorKids(n);
  }

  lemma NoKeys(m: map<Key, nat>, prefix: Key)
    requires m == map[]
    ensures RangeOf([], m, prefix)
  {
  }

  function Backwards(s: Key): Key {
    if s == [] then [] else [s[|s| - 1]] + Backwards(s[..|s| - 1])
  }

  /** The keys to come from an entry on. */
  lemma EntryStep(w: World, n: nat, k: nat)
    requires WorldOk(w) && PlaceOk(w, AtEntry(n, k))
    ensures k + 1 < |w.orders[n]| ==>
              ToCome(w, AtEntry(n, k)) == [KeyAt(w, AtEntry(n, k))] + ToCome(w, AtEntry(n, k + 1))
    ensures k + 1 == |w.orders[n]| ==> ToCome(w, AtEntry(n, k)) == [KeyAt(w, AtEntry(n, k))] + After(w, n)
  {
    hide From, After;
    var u := Under(w.paths[n], w.orders[n]);
    assert u[k..] == [u[k]] + u[k + 1..];
  }

  lemma FilteredOut(w: World, filter: Key, n: nat, k: nat, p: Place)
    requires WorldOk(w) && n in w.t && n in w.orders && k == |w.orders[n]| && PlaceOk(w, p)
             && ToCome(w, p) == After(w, n)
    ensures Filtered(w, filter, n, k, p)
  {
    PickedEnd(w, filter, n, k);
  }

  /** The keys of a leaf from entry k on that match the filter. */
  ghost function Picked(w: World, filter: Key, n: nat, k: nat): seq<Key>
    requires n in w.orders && n in w.paths && k <= |w.orders[n]|
    decreases |w.orders[n]| - k
  {
    if k == |w.orders[n]| then []
    else (if filter <= w.orders[n][k] then [w.paths[n] + w.orders[n][k]] else []) + Picked(w, filter, n, k + 1)
  }

  lemma PickedStep(w: World, filter: Key, n: nat, k: nat)
    requires n in w.orders && n in w.paths && k < |w.orders[n]|
    ensures !(filter <= w.orders[n][k]) ==> Picked(w, filter, n, k) == Picked(w, filter, n, k + 1)
    ensures filter <= w.orders[n][k] ==>
              Picked(w, filter, n, k) == [w.paths[n] + w.orders[n][k]] + Picked(w, filter, n, k + 1)
  {
  }

  lemma PickedEnd(w: World, filter: Key, n: nat, k: nat)
    requires n in w.orders && n in w.paths && k == |w.orders[n]|
    ensures Picked(w, filter, n, k) == []
  {
  }

  /** A walk that filters from entry k of a leaf on has come to p. */
  ghost predicate Filtered(w: World, filter: Key, n: nat, k: nat, p: Place)
    requires WorldOk(w) && n in w.t && n in w.orders && k <= |w.orders[n]| && PlaceOk(w, p)
  {
    || (p.AtEntry? && p.leaf == n && k <= p.k && filter <= w.orders[n][p.k] && Picked(w, filter, n, k) == Picked(w,
        filter, n, p.k))
    || (Picked(w, filter, n, k) == [] && ToCome(w, p) == After(w, n))
  }

  lemma AfterParent(w: World, n: nat)
    requires WorldOk(w) && n in w.t && w.t[n].up.Some?
    ensures w.t[n].up.value in w.t && w.t[w.t[n].up.value].Branch? && |w.paths[w.t[n].up.value]| < |w.paths[n]|
    ensures After(w, n) == From(w, w.t[n].up.value, w.t[n].childOf as nat + 1) + After(w, w.t[n].up.value)
  {
    assert LinkOk(w.t, w.paths, w.root, n);
  }

  lemma NoAfter(w: World, n: nat)
    requires WorldOk(w) && n in w.t && w.t[n].up.None?
    ensures After(w, n) == []
  {
  }

  lemma SomeChild(x: Node)
    requires x.Branch? && x.children != map[]
    ensures exists d: nat :: d < 256 && d in x.children
  {
    var c :| c in x.children;
    assert 0 <= c < 256;
  }

  /** A branch without a value: its first child comes first. */
  lemma FirstBelow(w: World, n: nat, c: nat)
    requires WorldOk(w) && n in w.t && w.t[n].Branch? && w.t[n].value.None? && c < 256 && c in w.t[n].children
             && From(w, n, 0) == From(w, n, c)
    ensures w.t[n].children[c] in w.t && w.t[w.t[n].children[c]].up == Some(n)
    ensures Sub(w, n) + After(w, n) == Sub(w, w.t[n].children[c]) + After(w, w.t[n].children[c])
    ensures |w.paths[n]| < |w.paths[w.t[n].children[c]]| <= w.bound
  {
    hide From, After;
    StepDown(w.t, w.paths, w.root, n, c);
    AfterChild(w, n, c);
  }
}
