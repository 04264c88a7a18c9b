/**
 * The part of the Annoy approximate-nearest-neighbour engine the scripts depend on, as an
 * abstract value: which vector each integer item id holds, Annoy's `n_items` counter, and whether
 * the index has been built (or loaded), after which it refuses new items. Nearest-neighbour
 * search itself is not modelled here: its answer is an input of the decision functions.
 */
module Annoy {
  import opened Wrappers

  /** An embedding vector; the engine only checks its length against the dimension `f`. */
  type Embedding = seq<real>

  /** The content of an index: item vectors by id, and Annoy's `n_items`. */
  datatype IndexState = IndexState(items: map<nat, Embedding>, nItems: nat)

  function EmptyIndex(): IndexState {
    IndexState(map[], 0)
  }

  /**
   * `n_items` is one past the largest id ever added: `add_item(i, v)` raises it to `i + 1` and
   * allocates storage for every id below it.
   */
  predicate WellFormed(st: IndexState) {
    && (forall s :: s in st.items ==> s < st.nItems)
    && (st.nItems > 0 ==> st.nItems - 1 in st.items)
  }

  /** What an index file holds: Annoy writes `n_items` nodes, so a stored index is well formed. */
  type StoredIndex = st: IndexState | WellFormed(st) witness IndexState(map[], 0)

  /** `add_item` raises an IndexError for a negative id or a vector whose length is not `f`. */
  predicate CanAdd(dim: nat, slot: int, v: Embedding) {
    slot >= 0 && |v| == dim
  }

  /** The effect of a successful `add_item(slot, v)`: the id holds `v`, overwriting any earlier vector. */
  function Add(st: IndexState, slot: nat, v: Embedding): (r: IndexState)
    ensures WellFormed(st) ==> WellFormed(r)
    ensures slot in r.items && r.items[slot] == v && r.nItems > slot
    ensures forall s :: s != slot ==> (s in r.items <==> s in st.items)
    ensures forall s :: s != slot && s in st.items ==> r.items[s] == st.items[s]
  {
    IndexState(st.items[slot := v], if slot + 1 > st.nItems then slot + 1 else st.nItems)
  }

  function Zeros(dim: nat): (z: Embedding)
    ensures |z| == dim
  {
    seq(dim, _ => 0.0)
  }

  /**
   * `get_item_vector(slot)`: an IndexError (`None`) for a negative id or one at or beyond
   * `n_items`; the stored vector for an added id; the zero-filled storage for an id below
   * `n_items` that was never added.
   */
  function ItemVector(st: IndexState, dim: nat, slot: int): (r: Option<Embedding>)
    ensures r.Some? <==> 0 <= slot < st.nItems
    ensures slot in st.items ==> WellFormed(st) ==> r == Some(st.items[slot])
  {
    if slot < 0 || slot >= st.nItems then None
    else if slot in st.items then Some(st.items[slot])
    else Some(Zeros(dim))
  }

  /** When the ids in use are exactly `0 .. n-1`, `n_items` is their number `n`. */
  lemma DenseNItems(st: IndexState, n: nat)
    requires WellFormed(st)
    requires forall s: nat :: s in st.items <==> s < n
    ensures st.nItems == n
  {
    if st.nItems > 0 {
      assert st.nItems - 1 in st.items;
    }
    if n > 0 {
      assert n - 1 in st.items;
    }
  }

  /** The ids below `n`. */
  function IdsBelow(n: nat): (ids: set<nat>)
    ensures forall s: nat :: s in ids <==> s < n
  {
    if n == 0 then {} else IdsBelow(n - 1) + {n - 1}
  }

  lemma {:induction false} IdsBelowCard(n: nat)
    ensures |IdsBelow(n)| == n
  {
    if n > 0 {
      IdsBelowCard(n - 1);
    }
  }

  /** A subset as large as its superset is the whole superset. */
  lemma SubsetOfSameSize(a: set<nat>, b: set<nat>)
    requires a <= b && |a| == |b|
    ensures a == b
  {
    assert b == a + (b - a);
    assert |b - a| == 0;
  }

  /**
   * Conversely, `get_n_items()` counts the stored items only when the ids in use are exactly
   * `0 .. n_items-1`: any gap below the largest id makes `n_items` exceed the count.
   */
  lemma CountedNItemsIsDense(st: IndexState)
    requires WellFormed(st) && |st.items.Keys| == st.nItems
    ensures forall s: nat :: s in st.items <==> s < st.nItems
  {
    var below := IdsBelow(st.nItems);
    IdsBelowCard(st.nItems);
    SubsetOfSameSize(st.items.Keys, below);
  }

  /** An Annoy index object: built or loaded objects are read-only, fresh ones accept items. */
  class AnnoyIndex {
    const dim: nat
    var items: map<nat, Embedding>
    var nItems: nat
    var built: bool

    function State(): IndexState
      reads this
    {
      IndexState(items, nItems)
    }

    ghost predicate Valid()
      reads this
    {
      WellFormed(State())
    }

    /** `AnnoyIndex(f, metric)`: an empty index accepting items. */
    constructor (dim: nat)
      ensures this.dim == dim && Valid() && !built
      ensures State() == EmptyIndex()
    {
      this.dim := dim;
      items, nItems, built := map[], 0, false;
    }

    /** `AnnoyIndex(f, metric)` followed by a successful `load(path)`: read-only over the stored items. */
    constructor Load(dim: nat, stored: IndexState)
      requires WellFormed(stored)
      ensures this.dim == dim && Valid() && built
      ensures State() == stored
    {
      this.dim := dim;
      items, nItems, built := stored.items, stored.nItems, true;
    }

    /** `get_n_items()`. */
    function GetNItems(): nat
      reads this
    {
      nItems
    }

    /** `get_item_vector(slot)`. */
    function GetItemVector(slot: int): Option<Embedding>
      reads this
    {
      ItemVector(State(), dim, slot)
    }

    /** `add_item(slot, v)`; `ok` is false where Annoy raises, and then nothing changes. */
    method AddItem(slot: int, v: Embedding) returns (ok: bool)
      requires Valid() && !built
      modifies this
      ensures Valid() && !built
      ensures ok == CanAdd(dim, slot, v)
      ensures ok ==> State() == Add(old(State()), slot, v)
      ensures !ok ==> State() == old(State())
    {
      ok := slot >= 0 && |v| == dim;
      if ok {
        items := items[slot := v];
        if slot + 1 > nItems {
          nItems := slot + 1;
        }
      }
    }

    /** `build(n_trees)`: the index becomes queryable and read-only. */
    method Build()
      requires Valid() && nItems > 0
      modifies this
      ensures Valid() && built
      ensures State() == old(State())
    {
      built := true;
    }
  }
}
