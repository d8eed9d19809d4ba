/** A dictionary as a map from ids to strings, and what happens to it over a run. */
module Dictionary {
  import opened Bits
  import opened Keys
  import opened Serialization
  import opened Snapshot
  import opened BaseSegment
  import DS = DeltaSegment

  /** The live entries, and the id the next new string gets. */
  datatype Dict = Dict(live: map<nat, Key>, nextId: nat)

  ghost predicate WellFormed(d: Dict) {
    && d.nextId <= INVALID_ID && DS.Injective(d.live)
    && (forall id :: id in d.live ==> id < d.nextId && d.live[id] != [])
  }

  /** One operation: a new string gets the next id, a live id is erased, or nothing changes. */
  ghost predicate Change(d: Dict, e: Dict) {
    e == d || Inserts(d, e) || Erases(d, e)
  }

  ghost predicate Inserts(d: Dict, e: Dict) {
    && d.nextId < INVALID_ID && e.nextId == d.nextId + 1 && d.nextId in e.live
    && e.live[d.nextId] != [] && !DS.HasString(d.live, e.live[d.nextId])
    && e.live == d.live[d.nextId := e.live[d.nextId]]
  }

  ghost predicate Erases(d: Dict, e: Dict) {
    e.nextId == d.nextId && exists id :: id in d.live && e.live == d.live - {id}
  }

  ghost predicate Run(ds: seq<Dict>) {
    ds != [] && WellFormed(ds[0]) && forall i: nat :: i + 1 < |ds| ==> ChangeAt(ds, i)
  }

  ghost predicate ChangeAt(ds: seq<Dict>, i: nat)
    requires i + 1 < |ds|
  {
    Change(ds[i], ds[i + 1])
  }

  lemma ChangeKeepsWellFormed(d: Dict, e: Dict)
    requires WellFormed(d) && Change(d, e)
    ensures WellFormed(e)
  {
    if Inserts(d, e) {
      var id := d.nextId;
      forall a | a in d.live ensures d.live[a] != e.live[id] {}
    }
  }

  lemma {:induction false} RunWellFormed(ds: seq<Dict>, i: nat)
    requires Run(ds) && i < |ds|
    ensures WellFormed(ds[i])
  {
    if i > 0 {
      RunWellFormed(ds, i - 1);
      assert ChangeAt(ds, i - 1);
      ChangeKeepsWellFormed(ds[i - 1], ds[i]);
    }
  }

  /** Ids are handed out in ascending order: what is live later was live before or has a later id. */
  lemma {:induction false} IdsAscend(ds: seq<Dict>, i: nat, j: nat)
    requires Run(ds) && i <= j < |ds|
    ensures ds[i].nextId <= ds[j].nextId
    ensures forall id :: id in ds[j].live ==>
              id >= ds[i].nextId || (id in ds[i].live && ds[i].live[id] == ds[j].live[id])
    decreases j
  {
    if i < j {
      IdsAscend(ds, i, j - 1);
      assert ChangeAt(ds, j - 1);
    }
  }

  /** An erased id never becomes live again. */
  lemma NeverReused(ds: seq<Dict>, i: nat, j: nat, k: nat, id: nat)
    requires Run(ds) && i <= j <= k < |ds| && id in ds[i].live && id !in ds[j].live
    ensures id !in ds[k].live
  {
    RunWellFormed(ds, i);
    IdsAscend(ds, i, j);
    IdsAscend(ds, j, k);
  }

  // ---------- the live entries in order ----------

  /** The live entries with ids below n, in ascending order of ids. */
  function LiveItems(live: map<nat, Key>, n: nat): (r: seq<Item>)
    ensures forall i :: 0 <= i < |r| ==> r[i].id < n && r[i].id in live && r[i].value == live[r[i].id]
  {
    if n == 0 then []
    else LiveItems(live, n - 1) + (if n - 1 in live then [Item(n - 1, live[n - 1])] else [])
  }

  lemma {:induction false} LiveItemsOrder(live: map<nat, Key>, n: nat)
    ensures ById(LiveItems(live, n))
  {
    if n > 0 {
      LiveItemsOrder(live, n - 1);
    }
  }

  lemma LiveItemsDistinct(live: map<nat, Key>, n: nat)
    requires DS.Injective(live)
    ensures DistinctItems(LiveItems(live, n))
  {
    LiveItemsOrder(live, n);
  }

  ghost function Below(live: map<nat, Key>, n: nat): map<nat, Key> {
    map id | id in live && id < n :: live[id]
  }

  lemma BelowNext(live: map<nat, Key>, n: nat)
    requires n > 0
    ensures Below(live, n) == if n - 1 in live then Below(live, n - 1)[n - 1 := live[n - 1]] else Below(live, n - 1)
  {
  }

  lemma {:induction false} LiveItemsMap(live: map<nat, Key>, n: nat)
    ensures ItemMap(LiveItems(live, n)) == Below(live, n)
  {
    if n > 0 {
      LiveItemsMap(live, n - 1);
      BelowNext(live, n);
      var r := LiveItems(live, n);
      if n - 1 in live {
        assert r[..|r| - 1] == LiveItems(live, n - 1);
      } else {
        assert r == LiveItems(live, n - 1);
      }
    } else {
      assert Below(live, 0) == map[];
    }
  }

  /** Listing all live entries and mapping them back gives the dictionary. */
  lemma LiveItemsAll(d: Dict)
    requires WellFormed(d)
    ensures ItemMap(LiveItems(d.live, d.nextId)) == d.live && DistinctItems(LiveItems(d.live, d.nextId))
    ensures |LiveItems(d.live, d.nextId)| == |d.live|
  {
    LiveItemsMap(d.live, d.nextId);
    LiveItemsDistinct(d.live, d.nextId);
    ItemMapSize(LiveItems(d.live, d.nextId));
  }

  lemma {:induction false} LiveItemsFew(live: map<nat, Key>, n: nat)
    ensures |LiveItems(live, n)| <= n
  {
    if n > 0 {
      LiveItemsFew(live, n - 1);
    }
  }

  /** What saving a dictionary writes down. */
  ghost function SnapshotOf(d: Dict, profile: nat): Snapshot {
    Snapshot(d.nextId, profile, LiveItems(d.live, d.nextId))
  }

  lemma SnapshotSane(d: Dict, profile: nat)
    requires WellFormed(d) && KnownProfile(profile) && forall id :: id in d.live ==> |d.live[id]| <= INVALID_ID
    ensures Sane(SnapshotOf(d, profile))
  {
    LiveItemsDistinct(d.live, d.nextId);
    LiveItemsFew(d.live, d.nextId);
  }
}
