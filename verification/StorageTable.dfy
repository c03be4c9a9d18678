/**
 How a policy finds the segment behind a list element it has popped from its ring: the
 element's address is looked for in the ranges of the registered element arrays, and its
 index is the distance from the start of the array. Decoding undoes encoding, for every
 element of every array.
 */
module StorageTable {
  import opened Arithmetic
  import opened Wrappers

  /** The element array of one mapping, as registerMapping records it. */
  datatype PolicyStorage = PolicyStorage(mapping: nat, elements: nat, elementCount: nat, elementSize: nat) {
    function End(): nat { elements + elementCount * elementSize }

    /** Policy::contains. */
    predicate Contains(entry: nat) { elements <= entry < End() }

    function AddressOf(i: nat): nat { elements + i * elementSize }
  }

  /** What the allocator guarantees: elements have a size and arrays do not overlap. */
  predicate Disjoint(registry: seq<PolicyStorage>) {
    && (forall k :: 0 <= k < |registry| ==> 0 < registry[k].elementSize)
    && (forall k, l :: 0 <= k < l < |registry| ==>
          registry[k].End() <= registry[l].elements || registry[l].End() <= registry[k].elements)
  }

  /** An address stands for element i of array k. */
  predicate Decodes(registry: seq<PolicyStorage>, entry: nat, k: nat, i: nat) {
    k < |registry| && i < registry[k].elementCount && registry[k].AddressOf(i) == entry
  }

  /** getStorageInfo of an element, and the pointer subtraction its callers do; a missing
      entry stops the process. */
  method GetStorageInfo(registry: seq<PolicyStorage>, entry: nat) returns (r: Option<(nat, nat)>)
    requires Disjoint(registry)
    ensures r.None? <==> forall k :: 0 <= k < |registry| ==> !registry[k].Contains(entry)
    ensures forall k: nat, i: nat :: Decodes(registry, entry, k, i) ==> r == Some((k, i))
  {
    for j := 0 to |registry|
      invariant forall k :: 0 <= k < j ==> !registry[k].Contains(entry)
    {
      if registry[j].Contains(entry) {
        var i := (entry - registry[j].elements) / registry[j].elementSize;
        forall k: nat, l: nat | Decodes(registry, entry, k, l) ensures k == j && l == i {
          Inside(registry[k], l);
          OneRange(registry, entry, k, j);
          Index(registry[j], l);
        }
        return Some((j, i));
      }
    }
    forall k: nat, i: nat | Decodes(registry, entry, k, i) ensures false { Inside(registry[k], i); }
    r := None;
  }

  lemma Inside(st: PolicyStorage, i: nat)
    requires i < st.elementCount && 0 < st.elementSize
    ensures st.Contains(st.AddressOf(i))
  {
    TimesMono(i + 1, st.elementCount, st.elementSize);
    Distributes(i, 1, st.elementSize);
  }

  lemma Index(st: PolicyStorage, i: nat)
    requires 0 < st.elementSize
    ensures (st.AddressOf(i) - st.elements) / st.elementSize == i
  {
    Quotient(i, st.elementSize);
  }

  lemma OneRange(registry: seq<PolicyStorage>, entry: nat, k: nat, l: nat)
    requires Disjoint(registry) && k < |registry| && l < |registry|
    requires registry[k].Contains(entry) && registry[l].Contains(entry)
    ensures k == l
  {
  }

  /** No two elements share an address: what a popped element stands for is determined. */
  lemma EncodingInjective(registry: seq<PolicyStorage>, k: nat, i: nat, l: nat, j: nat)
    requires Disjoint(registry) && k < |registry| && l < |registry|
    requires i < registry[k].elementCount && j < registry[l].elementCount
    requires registry[k].AddressOf(i) == registry[l].AddressOf(j)
    ensures k == l && i == j
  {
    Inside(registry[k], i);
    Inside(registry[l], j);
    OneRange(registry, registry[k].AddressOf(i), k, l);
    Index(registry[k], i);
    Index(registry[l], j);
  }
}
