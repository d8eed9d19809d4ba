/** The two encodings of BASE and CHECK, as the dictionary is built over either of them. */
module BcVector {
  import opened Options
  import opened Bits
  import opened FreeList
  import opened BcUnits
  import B7 = BcVector7
  import B8 = BcVector8
  import BV = BitVector

  datatype BcVector = Seven(seven: B7.BcVector7) | Eight(eight: B8.BcVector8)

  ghost predicate Encodes(v: BcVector, units: seq<Unit>, leaves: seq<bool>) {
    match v
    case Seven(w) => B7.Encodes(w, units, leaves)
    case Eight(w) => B8.Encodes(w, units, leaves)
  }

  /** num_free_units */
  function NumFrees(v: BcVector): nat {
    match v
    case Seven(w) => w.numFrees
    case Eight(w) => w.numFrees
  }

  /** Nothing is lost: what is read below is what the array held. */
  method Build(units: seq<Unit>, leaves: seq<bool>, l1Bits: nat) returns (r: Option<BcVector>)
    requires |units| == |leaves| < WORD_SIZE && (l1Bits == 7 || l1Bits == 8)
    requires forall i :: 0 <= i < |units| ==> units[i].base < WORD_SIZE && units[i].check < WORD_SIZE
    ensures r.Some? <==> BV.Count(leaves, |leaves|) > 0
    ensures r.Some? ==> Encodes(r.value, units, leaves) && NumFrees(r.value) == BV.Count(SelfChecked(units), |units|)
    ensures r.Some? ==> r.value.Seven? == (l1Bits == 7)
  {
    if l1Bits == 7 {
      var seven := B7.Build(units, leaves);
      r := if seven.Some? then Some(Seven(seven.value)) else None;
    } else {
      var eight := B8.Build(units, leaves);
      r := if eight.Some? then Some(Eight(eight.value)) else None;
    }
  }

  method Base(v: BcVector, i: nat, ghost units: seq<Unit>, ghost leaves: seq<bool>) returns (r: nat)
    requires Encodes(v, units, leaves) && i < |units| == |leaves| && !leaves[i]
    ensures r == units[i].base
  {
    match v
    case Seven(w) => r := B7.Base(w, i, units, leaves);
    case Eight(w) => r := B8.Base(w, i, units, leaves);
  }

  method Check(v: BcVector, i: nat, ghost units: seq<Unit>, ghost leaves: seq<bool>) returns (r: nat)
    requires Encodes(v, units, leaves) && i < |units| == |leaves|
    ensures r == units[i].check
  {
    match v
    case Seven(w) => r := B7.Check(w, i, units, leaves);
    case Eight(w) => r := B8.Check(w, i, units, leaves);
  }

  method IsLeaf(v: BcVector, i: nat, ghost units: seq<Unit>, ghost leaves: seq<bool>) returns (r: bool)
    requires Encodes(v, units, leaves) && i < |units| == |leaves|
    ensures r == leaves[i]
  {
    match v
    case Seven(w) => r := B7.IsLeaf(w, i, units, leaves);
    case Eight(w) => r := B8.IsLeaf(w, i, units, leaves);
  }

  method Link(v: BcVector, i: nat, ghost units: seq<Unit>, ghost leaves: seq<bool>) returns (r: nat)
    requires Encodes(v, units, leaves) && i < |units| == |leaves| && leaves[i]
    ensures r == units[i].base
  {
    match v
    case Seven(w) => r := B7.Link(w, i, units, leaves);
    case Eight(w) => r := B8.Link(w, i, units, leaves);
  }
}
