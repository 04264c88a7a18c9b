/**
 * convert.py: enrolling one photo into the persisted face index. Annoy cannot add items to an
 * index that was built or loaded, so every write starts a fresh index and copies across only the
 * slots that an `id_map` key names for another user (stored slots that no key names are
 * dropped). It then gives the user a slot (its old one, or the next id) and saves the new index
 * together with the slot-to-user map.
 */
module Convert {
  import opened Wrappers
  import opened Decimal
  import opened Text
  import opened Dicts
  import opened Annoy
  import opened Storage

  /** VECTOR_DIMENSION of convert.py. */
  const Dim: nat := 128

  /** `id_map`: slot key (`str` of an Annoy id) to user_id, in JSON object order. */
  type IdMap = Dict<string, string>

  /** `user_id_to_annoy_id`: user_id to Annoy id. */
  type ReverseIdMap = Dict<string, int>

  /** The two artifacts: face_vectors.ann and face_id_map.json. */
  datatype Store = Store(indexFile: FileState<StoredIndex>, mapFile: FileState<IdMap>)

  /** `{v: int(k) for k, v in id_map.items()}`; `None` where some `int(k)` raises. */
  function ReverseMap(m: IdMap): Option<ReverseIdMap>
    decreases |m|
  {
    if m == [] then Some([])
    else
      match ReverseMap(m[..|m| - 1])
      case None => None
      case Some(r) =>
        match ParseInt(m[|m| - 1].0)
        case None => None
        case Some(slot) => Some(Put(r, m[|m| - 1].1, slot))
  }

  /** `load_id_map()`: both maps empty when the file is absent, unreadable, or has a non-integer key. */
  function LoadIdMap(f: FileState<IdMap>): (IdMap, ReverseIdMap) {
    match f
    case Present(m) =>
      (match ReverseMap(m)
       case Some(r) => (m, r)
       case None => ([], []))
    case _ => ([], [])
  }

  /** `os.path.splitext(image_filename)[0]`. */
  function UserIdOf(imageFilename: string): string {
    Splitext(imageFilename).0
  }

  /** The fresh index after some iterations of the copy loop, and whether one of them raised. */
  datatype Copy = Copy(state: IndexState, failed: bool)

  /**
   * One iteration of the copy loop: `int(key)`, then, unless the entry is the enrolled user's,
   * `add_item(slot, get_item_vector(slot))` on the fresh index. Any of these may raise.
   */
  function CopyStep(st: IndexState, entry: (string, string), userId: string, previous: StoredIndex): Copy {
    match ParseInt(entry.0)
    case None => Copy(st, true)
    case Some(slot) =>
      if entry.1 == userId then Copy(st, false)
      else
        match ItemVector(previous, Dim, slot)
        case None => Copy(st, true)
        case Some(v) => if CanAdd(Dim, slot, v) then Copy(Add(st, slot, v), false) else Copy(st, true)
  }

  /** The copy loop over `entries` in order, starting from an empty index and stopping at the first raise. */
  function CopyLoop(entries: IdMap, userId: string, previous: StoredIndex): (c: Copy)
    ensures WellFormed(c.state)
    decreases |entries|
  {
    if entries == [] then Copy(EmptyIndex(), false)
    else
      var c := CopyLoop(entries[..|entries| - 1], userId, previous);
      if c.failed then c else CopyStep(c.state, entries[|entries| - 1], userId, previous)
  }

  /** A raise in the copy loop ends it: later entries change nothing. */
  lemma {:induction false} CopyFailureSticks(entries: IdMap, n: nat, userId: string, previous: StoredIndex)
    requires n <= |entries|
    requires CopyLoop(entries[..n], userId, previous).failed
    ensures CopyLoop(entries, userId, previous) == CopyLoop(entries[..n], userId, previous)
    decreases |entries| - n
  {
    if n < |entries| {
      var longer := entries[..n + 1];
      assert longer[..n] == entries[..n];
      assert CopyLoop(longer, userId, previous) == CopyLoop(entries[..n], userId, previous);
      CopyFailureSticks(entries, n + 1, userId, previous);
    } else {
      assert entries[..n] == entries;
    }
  }

  /** The fresh index and the maps just before the save step. */
  datatype Rebuild = Rebuild(
    index: IndexState,      // temp_annoy_index
    idMap: IdMap,           // id_map after the update
    reverse: ReverseIdMap,  // user_id_to_annoy_id after the update
    slot: nat,              // the enrolled user's Annoy id
    isNew: bool,            // the user had no slot in the (possibly cleared) reverse map
    baseLost: bool)         // the old index failed to load or to copy, and both maps were cleared

  /** The fresh index and the two maps after the copy phase (lines 93-117 of convert.py). */
  datatype Base = Base(index: IndexState, idMap: IdMap, reverse: ReverseIdMap, lost: bool)

  /**
   * Load the maps, then copy the old index into a fresh one when its file exists; when loading
   * or copying raises, both maps are cleared (`lost`) but what was already copied stays.
   */
  function CopyPhase(store: Store, userId: string): Base {
    var (loadedMap, loadedReverse) := LoadIdMap(store.mapFile);
    match store.indexFile
    case Absent => Base(EmptyIndex(), loadedMap, loadedReverse, false)
    case Unreadable => Base(EmptyIndex(), [], [], true)
    case Present(previous) =>
      var c := CopyLoop(loadedMap, userId, previous);
      if c.failed then Base(c.state, [], [], true) else Base(c.state, loadedMap, loadedReverse, false)
  }

  /**
   * Lines 93-135 of convert.py: the copy phase, then the slot (the known one, else
   * `get_n_items()` of the fresh index) and the new vector. `None` when that `add_item` raises.
   */
  function RebuildFor(store: Store, userId: string, vector: Embedding): Option<Rebuild> {
    var base := CopyPhase(store, userId);
    var known := Get(base.reverse, userId);
    var slot := if known.Some? then known.value else base.index.nItems;
    if CanAdd(Dim, slot, vector) then
      Some(Rebuild(Add(base.index, slot, vector), Put(base.idMap, Str(slot), userId),
                   Put(base.reverse, userId, slot), slot, known.None?, base.lost))
    else None
  }

  /**
   * `save_annoy_index_and_map`: build and save the index only when it has items, then write the
   * map; the result is False as soon as a write raises.
   */
  function SaveOutcome(index: StoredIndex, idMap: IdMap, store: Store, faults: IoFaults): (bool, Store) {
    var afterIndex :=
      if index.nItems > 0 && !faults.indexSaveFails then store.(indexFile := Present(index)) else store;
    if index.nItems > 0 && faults.indexSaveFails then (false, store)
    else if faults.mapWriteFails then (false, afterIndex)
    else (true, afterIndex.(mapFile := Present(idMap)))
  }

  /** `convert_and_store_photo(image_filename)` with the photo's existence and embedding given. */
  function ConvertOutcome(store: Store, imageFilename: string, photoExists: bool, vector: Embedding,
                          faults: IoFaults): (bool, Store)
  {
    if !photoExists then (false, store)
    else
      match RebuildFor(store, UserIdOf(imageFilename), vector)
      case None => (false, store)
      case Some(rb) => SaveOutcome(rb.index, rb.idMap, store, faults)
  }

  /** `save_annoy_index_and_map(annoy_index, id_map)`. */
  method SaveAnnoyIndexAndMap(index: AnnoyIndex, idMap: IdMap, store: Store, faults: IoFaults)
    returns (ok: bool, stored: Store)
    requires index.Valid()
    modifies index
    ensures index.Valid() && index.State() == old(index.State())
    ensures old(index.nItems) > 0 ==> index.built
    ensures (ok, stored) == SaveOutcome(index.State(), idMap, store, faults)
  {
    stored := store;
    if index.GetNItems() > 0 {
      index.Build();
      if faults.indexSaveFails {
        return false, store;
      }
      stored := stored.(indexFile := Present(index.State()));
    }
    if faults.mapWriteFails {
      return false, stored;
    }
    ok, stored := true, stored.(mapFile := Present(idMap));
  }

  /** The loop of lines 105-111: copy every other user's vector from the loaded index into `temp`. */
  method CopyExisting(temp: AnnoyIndex, idMap: IdMap, userId: string, previous: StoredIndex)
    returns (failed: bool)
    requires temp.Valid() && !temp.built && temp.dim == Dim && temp.State() == EmptyIndex()
    modifies temp
    ensures temp.Valid() && !temp.built
    ensures Copy(temp.State(), failed) == CopyLoop(idMap, userId, previous)
  {
    var source := new AnnoyIndex.Load(Dim, previous);
    var i := 0;
    failed := false;
    while i < |idMap| && !failed
      invariant 0 <= i <= |idMap|
      invariant temp.Valid() && !temp.built
      invariant source.State() == previous && source.dim == Dim
      invariant Copy(temp.State(), failed) == CopyLoop(idMap[..i], userId, previous)
    {
      var key, existingUser := idMap[i].0, idMap[i].1;
      assert idMap[..i + 1][..i] == idMap[..i];
      var slot := ParseInt(key);
      if slot.None? {
        failed := true;
      } else if existingUser != userId {
        var v := source.GetItemVector(slot.value);
        if v.None? {
          failed := true;
        } else {
          var added := temp.AddItem(slot.value, v.value);
          failed := !added;
        }
      }
      i := i + 1;
    }
    if failed {
      CopyFailureSticks(idMap, i, userId, previous);
    } else {
      assert idMap[..i] == idMap;
    }
  }

  /** `convert_and_store_photo(image_filename)`. */
  method ConvertAndStorePhoto(store: Store, imageFilename: string, photoExists: bool, faceVector: Embedding,
                              faults: IoFaults)
    returns (ok: bool, stored: Store)
    ensures (ok, stored) == ConvertOutcome(store, imageFilename, photoExists, faceVector, faults)
  {
    var userId := Splitext(imageFilename).0;
    if !photoExists {
      return false, store;
    }
    var idMap, reverse := LoadIdMap(store.mapFile).0, LoadIdMap(store.mapFile).1;
    var temp := new AnnoyIndex(Dim);
    var lost := false;
    if store.indexFile.Unreadable? {
      idMap, reverse, lost := [], [], true;
    } else if store.indexFile.Present? {
      var failed := CopyExisting(temp, idMap, userId, store.indexFile.content);
      if failed {
        idMap, reverse, lost := [], [], true;
      }
    }
    assert Base(temp.State(), idMap, reverse, lost) == CopyPhase(store, userId);
    var known := Get(reverse, userId);
    var annoyId := if known.Some? then known.value else temp.GetNItems();
    var added := temp.AddItem(annoyId, faceVector);
    if !added {
      return false, store;
    }
    idMap := Put(idMap, Str(annoyId), userId);
    reverse := Put(reverse, userId, annoyId);
    ok, stored := SaveAnnoyIndexAndMap(temp, idMap, store, faults);
  }
}
