/**
 * app-command-line.py: a face database held in three globals (the Annoy index, the slot-to-name
 * mapping and the `next_id` counter), loaded from disk, rebuilt from a folder of photos in one
 * batch, and queried face by face with a Euclidean distance threshold. Photos, face detection
 * and the nearest-neighbour answers are inputs.
 */
module CommandLine {
  import opened Wrappers
  import opened Text
  import opened Dicts
  import opened Annoy
  import opened Storage

  /** VECTOR_DIMENSION (face_recognition encodings). */
  const Dim: nat := 128

  /** FACE_MATCH_THRESHOLD: a match needs a distance strictly below it. */
  const MatchThreshold: real := 0.6

  /** `face_names_mapping`: Annoy id to person name, in insertion order. */
  type Names = Dict<int, string>

  /** The two artifacts: face_embeddings.ann and face_names.pkl. */
  datatype CliStore = CliStore(indexFile: FileState<StoredIndex>, namesFile: FileState<Names>)

  /** What reading a photo yields: no image, an image without a face, or the first face's encoding. */
  datatype Photo = NoImage | NoFace | Face(encoding: Embedding)

  /** The three globals: the index's content and whether it is built, the mapping, `next_id`. */
  datatype DbState = DbState(index: IndexState, built: bool, names: Names, nextId: int)

  /** A fresh `AnnoyIndex`, an empty mapping and `next_id = 0`. */
  function EmptyDb(): DbState {
    DbState(EmptyIndex(), false, [], 0)
  }

  /** `max(face_names_mapping.keys())`. */
  function MaxKey(names: Names): (m: int)
    requires names != []
    ensures exists i :: 0 <= i < |names| && names[i].0 == m
    ensures forall i :: 0 <= i < |names| ==> names[i].0 <= m
    decreases |names|
  {
    if |names| == 1 then names[0].0
    else
      var rest := MaxKey(names[1..]);
      assert forall i :: 1 <= i < |names| ==> names[i] == names[1..][i - 1];
      if names[0].0 >= rest then names[0].0 else rest
  }

  /**
   * `next_id` after a successful load: one past the largest id in use, or 0 for an empty
   * mapping, so it is above every id and names a fresh slot.
   */
  function NextId(names: Names): (n: int)
    ensures forall i :: 0 <= i < |names| ==> names[i].0 < n
    ensures names == [] ==> n == 0
    ensures names != [] ==> exists i :: 0 <= i < |names| && names[i].0 == n - 1
  {
    if names == [] then 0 else MaxKey(names) + 1
  }

  /**
   * `load_or_create_annoy_index`: the stored index (loaded, so read-only) and mapping when both
   * files exist and read; otherwise a fresh, empty database.
   */
  function LoadResult(store: CliStore): DbState {
    if store.indexFile.Present? && store.namesFile.Present? then
      DbState(store.indexFile.content, true, store.namesFile.content, NextId(store.namesFile.content))
    else EmptyDb()
  }

  /**
   * The bookkeeping of a successful `enroll_face`: the encoding at slot `next_id`, the name under
   * that id, and `next_id` one higher; a photo without a face changes nothing.
   */
  function EnrollResult(db: DbState, photo: Photo, personName: string): DbState
    requires db.nextId >= 0
  {
    if photo.Face? then
      DbState(Add(db.index, db.nextId, photo.encoding), db.built, Put(db.names, db.nextId, personName), db.nextId + 1)
    else db
  }

  /** The batch loop's filter: `filename.lower().endswith(('.png', '.jpg', '.jpeg'))`. */
  predicate Accepted(filename: string) {
    var lower := Lower(filename);
    EndsWith(lower, ".png") || EndsWith(lower, ".jpg") || EndsWith(lower, ".jpeg")
  }

  /** `os.path.splitext(filename)[0]`: the person's name. */
  function PersonName(filename: string): string {
    Splitext(filename).0
  }

  /** `images_found` after the loop: some entry of the listing passed the filter. */
  predicate ImagesFound(listing: seq<(string, Photo)>) {
    exists i :: 0 <= i < |listing| && Accepted(listing[i].0)
  }

  /** The database after the batch loop over `listing`, starting from the reset one. */
  function BatchEnroll(listing: seq<(string, Photo)>): (r: DbState)
    ensures r.nextId >= 0 && !r.built && WellFormed(r.index)
    decreases |listing|
  {
    if listing == [] then EmptyDb()
    else
      var before := BatchEnroll(listing[..|listing| - 1]);
      var (filename, photo) := listing[|listing| - 1];
      if Accepted(filename) then EnrollResult(before, photo, PersonName(filename)) else before
  }

  /** The enrolled faces, in listing order: each accepted photo with a face, with its person's name. */
  function Faces(listing: seq<(string, Photo)>): seq<(string, Embedding)>
    decreases |listing|
  {
    if listing == [] then []
    else
      var (filename, photo) := listing[|listing| - 1];
      Faces(listing[..|listing| - 1]) +
        (if Accepted(filename) && photo.Face? then [(PersonName(filename), photo.encoding)] else [])
  }

  /** The mapping that gives the i-th enrolled face the id i. */
  function DenseNames(faces: seq<(string, Embedding)>): (names: Names)
    ensures |names| == |faces|
    ensures forall i :: 0 <= i < |faces| ==> names[i] == (i, faces[i].0)
  {
    seq(|faces|, i requires 0 <= i < |faces| => (i, faces[i].0))
  }

  /** The index and mapping written after a batch: only when at least one face was enrolled. */
  function SaveBatch(store: CliStore, db: DbState): CliStore
    requires WellFormed(db.index)
  {
    if db.index.nItems > 0 then CliStore(Present(db.index), Present(db.names)) else store
  }

  /** A Euclidean distance Annoy reported, or `float('inf')` when there was none. */
  datatype Distance = Infinite | Finite(value: real)

  /** One entry of `identified_faces`, without the face's location. */
  datatype FaceResult = FaceResult(name: string, distance: Distance, percentage: real)

  function Clamp(x: real): (c: real)
    ensures 0.0 <= c <= 100.0
  {
    if x < 0.0 then 0.0 else if x > 100.0 then 100.0 else x
  }

  /** `min(100, max(0, (T - d) / T * 100))`: 100 at distance 0, 0 at the threshold and beyond. */
  function Percentage(d: real): (p: real)
    ensures 0.0 <= p <= 100.0
  {
    Clamp((MatchThreshold - d) / MatchThreshold * 100.0)
  }

  /**
   * The decision for one detected face, given `get_n_items()`, the search answer
   * (`None` when no id came back) and the mapping.
   */
  function IdentifyOne(nItems: nat, nearest: Option<(nat, real)>, names: Names): (r: FaceResult)
    ensures 0.0 <= r.percentage <= 100.0
    ensures r.distance.Finite? <==> nItems > 0 && nearest.Some?
    ensures r.distance.Finite? ==> r.distance.value == nearest.value.1
    ensures r.percentage > 0.0 ==> r.distance.Finite? && r.distance.value < MatchThreshold
    ensures nItems == 0 ==> r == FaceResult("Database Kosong", Infinite, 0.0)
    ensures nItems > 0 && nearest.None? ==> r == FaceResult("Tidak Dikenal", Infinite, 0.0)
    ensures nItems > 0 && nearest.Some? && nearest.value.1 >= MatchThreshold ==>
              r == FaceResult("Tidak Dikenal (Jarak > Threshold)", Finite(nearest.value.1), 0.0)
  {
    if nItems == 0 then FaceResult("Database Kosong", Infinite, 0.0)
    else if nearest.None? then FaceResult("Tidak Dikenal", Infinite, 0.0)
    else
      var (matchedId, distance) := nearest.value;
      if distance < MatchThreshold then
        FaceResult(Get(names, matchedId).GetOr("ID Tidak Dikenal (Error)"), Finite(distance), Percentage(distance))
      else FaceResult("Tidak Dikenal (Jarak > Threshold)", Finite(distance), 0.0)
  }

  /** The globals of the program, with the index as the object it is. */
  class FaceDatabase {
    var index: AnnoyIndex
    var names: Names
    var nextId: int

    ghost predicate Valid()
      reads this, index
    {
      index.dim == Dim && index.Valid()
    }

    function Snapshot(): DbState
      reads this, index
    {
      DbState(index.State(), index.built, names, nextId)
    }

    /** The module-level initialisation. */
    constructor ()
      ensures Valid() && Snapshot() == EmptyDb()
    {
      index := new AnnoyIndex(Dim);
      names := [];
      nextId := 0;
    }

    /** `annoy_index = AnnoyIndex(...)`, `face_names_mapping = {}`, `next_id = 0`. */
    method Reset()
      modifies this
      ensures Valid() && fresh(index) && Snapshot() == EmptyDb()
    {
      index := new AnnoyIndex(Dim);
      names := [];
      nextId := 0;
    }

    /** `load_or_create_annoy_index()`. */
    method LoadOrCreate(store: CliStore) returns (loaded: bool)
      modifies this
      ensures Valid() && fresh(index)
      ensures loaded <==> store.indexFile.Present? && store.namesFile.Present?
      ensures Snapshot() == LoadResult(store)
    {
      if !store.indexFile.Absent? && !store.namesFile.Absent? {
        if store.indexFile.Present? && store.namesFile.Present? {
          index := new AnnoyIndex.Load(Dim, store.indexFile.content);
          names := store.namesFile.content;
          nextId := if names != [] then MaxKey(names) + 1 else 0;
          return true;
        }
      }
      Reset();
      return false;
    }

    /**
     * `enroll_face(image_path, person_name, is_first_enroll)`, with `photo` what reading and
     * detecting gave. The first-enroll flag resets the database before anything else.
     */
    method EnrollFace(photo: Photo, personName: string, isFirstEnroll: bool) returns (ok: bool)
      requires Valid()
      requires !isFirstEnroll ==> !index.built && nextId >= 0
      requires photo.Face? ==> |photo.encoding| == Dim
      modifies this, index
      ensures Valid() && !index.built
      ensures isFirstEnroll ==> fresh(index)
      ensures !isFirstEnroll ==> index == old(index)
      ensures ok == photo.Face?
      ensures Snapshot() == EnrollResult(if isFirstEnroll then EmptyDb() else old(Snapshot()), photo, personName)
    {
      if isFirstEnroll {
        Reset();
      }
      if !photo.Face? {
        return false;
      }
      var added := index.AddItem(nextId, photo.encoding);
      names := Put(names, nextId, personName);
      nextId := nextId + 1;
      ok := true;
    }

    /**
     * Menu choice 1 for a folder whose listing is `listing`: reset, enroll every accepted photo,
     * and, when some photo was accepted, save (only if a face was enrolled) and reload.
     * `saved` is the store afterwards.
     */
    method EnrollFolder(store: CliStore, listing: seq<(string, Photo)>) returns (saved: CliStore)
      requires forall i :: 0 <= i < |listing| && listing[i].1.Face? ==> |listing[i].1.encoding| == Dim
      modifies this
      ensures Valid()
      ensures !ImagesFound(listing) ==> saved == store && Snapshot() == EmptyDb()
      ensures ImagesFound(listing) ==>
                saved == SaveBatch(store, BatchEnroll(listing)) && Snapshot() == LoadResult(saved)
    {
      Reset();
      var imagesFound := false;
      var i := 0;
      while i < |listing|
        invariant 0 <= i <= |listing|
        invariant Valid() && fresh(index) && !index.built
        invariant Snapshot() == BatchEnroll(listing[..i])
        invariant imagesFound <==> ImagesFound(listing[..i])
        invariant !imagesFound ==> Snapshot() == EmptyDb()
      {
        var (filename, photo) := listing[i];
        assert listing[..i + 1][..i] == listing[..i];
        if Accepted(filename) {
          var personName := Splitext(filename).0;
          var enrolled := EnrollFace(photo, personName, false);
          imagesFound := true;
        }
        i := i + 1;
      }
      assert listing[..i] == listing;
      saved := store;
      if imagesFound {
        if index.GetNItems() > 0 {
          index.Build();
          saved := CliStore(Present(index.State()), Present(names));
        }
        var reloaded := LoadOrCreate(saved);
      }
    }

    /** `identify_face_in_frame`: one result per detected face, in order, each from its search answer. */
    method IdentifyFaces(nearest: seq<Option<(nat, real)>>) returns (faces: seq<FaceResult>)
      ensures |faces| == |nearest|
      ensures forall i :: 0 <= i < |nearest| ==> faces[i] == IdentifyOne(index.nItems, nearest[i], names)
    {
      faces := [];
      var i := 0;
      while i < |nearest|
        invariant 0 <= i <= |nearest|
        invariant |faces| == i
        invariant forall j :: 0 <= j < i ==> faces[j] == IdentifyOne(index.nItems, nearest[j], names)
      {
        faces := faces + [IdentifyOne(index.nItems, nearest[i], names)];
        i := i + 1;
      }
    }
  }
}
