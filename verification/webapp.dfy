/**
 * app.py: the recognition endpoint. An uploaded photo's extension is checked, its embedding is
 * compared with the nearest stored vector, and the angular distance Annoy reports is turned
 * into a cosine similarity that must reach a threshold before the slot's user is reported.
 * The embedding and the nearest-neighbour answer are inputs; the profile database is not
 * modelled.
 */
module WebApp {
  import opened Wrappers
  import opened Decimal
  import opened Text
  import opened Dicts
  import opened Annoy
  import opened Storage
  import Convert

  /** VECTOR_DIMENSION of app.py (FaceNet embeddings). */
  const Dim: nat := 512

  /** SIMILARITY_THRESHOLD of `upload_photo`. */
  const SimilarityThreshold: real := 0.6

  /** ALLOWED_EXTENSIONS. */
  const AllowedExtensions: set<string> := {"png", "jpg", "jpeg", "gif", "webp", "bmp", "tiff"}

  /** `i` is the position of the last dot of `s`. */
  predicate LastDotAt(s: string, i: int) {
    0 <= i < |s| && s[i] == '.' && forall j :: i < j < |s| ==> s[j] != '.'
  }

  /**
   * `allowed_file`: the name has a dot and the text after its last dot, lower-cased, is an
   * allowed extension.
   */
  function AllowedFile(filename: string): (ok: bool)
    ensures ok <==> exists i :: LastDotAt(filename, i) && Lower(filename[i + 1..]) in AllowedExtensions
  {
    var dot := RFind(filename, '.');
    if dot >= 0 then
      assert LastDotAt(filename, dot);
      assert forall i :: LastDotAt(filename, i) ==> i == dot;
      Lower(filename[dot + 1..]) in AllowedExtensions
    else false
  }

  /** Only the text after the last dot counts, in any letter case, even when nothing precedes the dot. */
  lemma AllowedFileAccepts()
    ensures AllowedFile("photo.JPG")
    ensures AllowedFile(".png")
  {
    var upper := "photo.JPG";
    assert LastDotAt(upper, 5);
    assert upper[6..] == "JPG";
    assert LowerChar('J') == 'j' && LowerChar('P') == 'p' && LowerChar('G') == 'g';
    assert Lower("JPG") == "jpg";
    assert LastDotAt(".png", 0);
    assert ".png"[1..] == "png";
    assert Lower("png") == "png";
  }

  /** A name without a dot, or whose last extension is not an image type, is refused. */
  lemma AllowedFileRejects()
    ensures !AllowedFile("png")
    ensures !AllowedFile("photo.png.exe")
  {
    var s := "photo.png.exe";
    forall i | LastDotAt(s, i) ensures i == 9 {
      assert s[9] == '.';
    }
    assert Lower("exe") == "exe";
  }

  /** `min(a, b)` on reals. */
  function Min(a: real, b: real): real {
    if a <= b then a else b
  }

  /**
   * The cosine similarity of two unit vectors at Annoy's angular distance `d`
   * (`d = sqrt(2 - 2 cos)`), with `d²` capped at 2 as the source does.
   */
  function Similarity(d: real): (s: real)
    ensures 0.0 <= s <= 1.0
  {
    1.0 - Min(d * d, 2.0) / 2.0
  }

  /** Distance 0 means similarity 1, and the similarity never grows with the distance. */
  lemma SimilarityMonotone(d1: real, d2: real)
    requires 0.0 <= d1 <= d2
    ensures Similarity(0.0) == 1.0
    ensures Similarity(d2) <= Similarity(d1)
  {
    assert d1 * (d2 - d1) >= 0.0 && d2 * (d2 - d1) >= 0.0;
    assert d1 * d1 <= d2 * d2;
    assert Min(d1 * d1, 2.0) <= Min(d2 * d2, 2.0);
  }

  /** Reaching the threshold 0.6 means exactly that the squared distance is at most 0.8. */
  lemma MatchIffClose(d: real)
    ensures Similarity(d) >= SimilarityThreshold <==> d * d <= 0.8
  {
  }

  /** The locals of `upload_photo` after the search block (lines 150-183 of app.py). */
  datatype Decision = Decision(
    matchedUserId: Option<string>,
    highestSimilarity: real,
    matchedAnnoyId: Option<nat>,
    rawDistance: Option<real>)

  /**
   * The search block: `nearest` is what `get_nns_by_vector(embedding, 1, include_distances=True)`
   * returns (`None` for no neighbour); it is asked only when the index has items. The slot's user
   * is recorded only at or above the threshold; below it the similarity stays 0.0 while the raw
   * distance is still reported.
   */
  function Decide(nItems: nat, nearest: Option<(nat, real)>, idMap: Convert.IdMap): (r: Decision)
    ensures nItems == 0 || nearest.None? ==> r == Decision(None, 0.0, None, None)
    ensures nItems > 0 && nearest.Some? ==> r.rawDistance == Some(nearest.value.1)
    ensures r.matchedAnnoyId.Some? <==>
              nItems > 0 && nearest.Some? && Similarity(nearest.value.1) >= SimilarityThreshold
    ensures r.matchedAnnoyId.Some? ==>
              && r.matchedAnnoyId.value == nearest.value.0
              && r.matchedUserId == Get(idMap, Str(nearest.value.0))
              && r.highestSimilarity == Similarity(nearest.value.1)
    ensures r.matchedAnnoyId.None? ==> r.matchedUserId.None? && r.highestSimilarity == 0.0
  {
    if nItems > 0 && nearest.Some? then
      var (closestId, closestDistance) := nearest.value;
      var similarity := Similarity(closestDistance);
      if similarity >= SimilarityThreshold then
        Decision(Get(idMap, Str(closestId)), similarity, Some(closestId), Some(closestDistance))
      else Decision(None, 0.0, None, Some(closestDistance))
    else Decision(None, 0.0, None, None)
  }

  /** The reported similarity is 0.0 or a value that reached the threshold, and a match is always close. */
  lemma DecisionBounds(nItems: nat, nearest: Option<(nat, real)>, idMap: Convert.IdMap)
    ensures var r := Decide(nItems, nearest, idMap);
      && (r.highestSimilarity == 0.0 || SimilarityThreshold <= r.highestSimilarity <= 1.0)
      && (r.matchedAnnoyId.Some? ==> nearest.value.1 * nearest.value.1 <= 0.8)
  {
    if nearest.Some? {
      MatchIffClose(nearest.value.1);
    }
  }

  /**
   * `load_annoy_index_and_map`: both artifacts when the index file exists and both read;
   * `(None, None)` when the index file is missing or either read raises.
   */
  function LoadIndexAndMap(store: Convert.Store): (r: Option<(IndexState, Convert.IdMap)>)
    ensures r.Some? <==> store.indexFile.Present? && store.mapFile.Present?
    ensures r.Some? ==> r.value == (store.indexFile.content, store.mapFile.content)
  {
    match store.indexFile
    case Present(index) =>
      (match store.mapFile
       case Present(idMap) => Some((index, idMap))
       case _ => None)
    case _ => None
  }

  /** The response classes of `upload_photo` that this model distinguishes. */
  datatype Response =
    | NoSelectedPhoto                         // 400: empty file name
    | NoFace                                  // 400: no embedding could be extracted
    | NotReady                                // 503: index or map could not be loaded
    | Recognized(userId: string, annoyId: nat, similarity: real, rawDistance: real)
    | NotRecognized(highestSimilarity: real, distanceFound: Option<real>)  // 404
    | Unsupported                             // 500: extension not allowed

  /**
   * `upload_photo` for a request carrying a photo: `embedding` is what `get_face_embedding`
   * returned for it and `nearest` the search answer. A match is reported only when the user id
   * found is truthy, so a missing key or an empty user id reads as not recognised.
   */
  function UploadPhoto(filename: string, embedding: Option<Embedding>, store: Convert.Store,
                       nearest: Option<(nat, real)>): (r: Response)
    ensures r.NoSelectedPhoto? <==> filename == ""
    ensures r.Unsupported? <==> filename != "" && !AllowedFile(filename)
    ensures r.NoFace? <==> filename != "" && AllowedFile(filename) && embedding.None?
    ensures r.NotReady? <==>
              && filename != "" && AllowedFile(filename) && embedding.Some?
              && !(store.indexFile.Present? && store.mapFile.Present?)
  {
    if filename == "" then NoSelectedPhoto
    else if !AllowedFile(filename) then Unsupported
    else if embedding.None? then NoFace
    else
      match LoadIndexAndMap(store)
      case None => NotReady
      case Some((index, idMap)) =>
        var d := Decide(index.nItems, nearest, idMap);
        if d.matchedUserId.Some? && d.matchedUserId.value != "" then
          Recognized(d.matchedUserId.value, d.matchedAnnoyId.value, d.highestSimilarity, d.rawDistance.value)
        else NotRecognized(d.highestSimilarity, d.rawDistance)
  }

  /**
   * The "not recognised" answers for a request that reached the search: an empty index or no
   * neighbour reports similarity 0.0 and no distance; a neighbour below the threshold reports
   * 0.0, not its own similarity, together with its distance; a close neighbour whose key is
   * missing from the map, or names an empty user id, reports its similarity and distance.
   */
  lemma UnmatchedUpload(filename: string, embedding: Option<Embedding>, store: Convert.Store,
                        nearest: Option<(nat, real)>)
    requires filename != "" && AllowedFile(filename) && embedding.Some?
    requires store.indexFile.Present? && store.mapFile.Present?
    ensures var n, r := store.indexFile.content.nItems, UploadPhoto(filename, embedding, store, nearest);
      && (n == 0 || nearest.None? ==> r == NotRecognized(0.0, None))
      && (n > 0 && nearest.Some? && Similarity(nearest.value.1) < SimilarityThreshold ==>
            r == NotRecognized(0.0, Some(nearest.value.1)))
      && (n > 0 && nearest.Some? && Similarity(nearest.value.1) >= SimilarityThreshold
          && Get(store.mapFile.content, Str(nearest.value.0)) in {None, Some("")} ==>
            r == NotRecognized(Similarity(nearest.value.1), Some(nearest.value.1)))
  {
    var index, idMap := store.indexFile.content, store.mapFile.content;
    assert LoadIndexAndMap(store) == Some((index, idMap));
  }

  /**
   * Conversely, for any loaded store, a close neighbour whose key names a non-empty user id is a
   * recognition of that user at that slot, with its similarity and distance.
   */
  lemma MatchedUpload(filename: string, embedding: Option<Embedding>, store: Convert.Store,
                      slot: nat, distance: real, userId: string)
    requires filename != "" && AllowedFile(filename) && embedding.Some?
    requires store.indexFile.Present? && store.mapFile.Present? && store.indexFile.content.nItems > 0
    requires Similarity(distance) >= SimilarityThreshold
    requires Get(store.mapFile.content, Str(slot)) == Some(userId) && userId != ""
    ensures UploadPhoto(filename, embedding, store, Some((slot, distance))) ==
              Recognized(userId, slot, Similarity(distance), distance)
  {
    var index, idMap := store.indexFile.content, store.mapFile.content;
    assert LoadIndexAndMap(store) == Some((index, idMap));
  }

  /**
   * A recognition names the user stored under `str` of the nearest slot, at a similarity at or
   * above the threshold; it needs both artifacts, an allowed file and an embedding.
   */
  lemma RecognizedMeaning(filename: string, embedding: Option<Embedding>, store: Convert.Store,
                          nearest: Option<(nat, real)>)
    requires UploadPhoto(filename, embedding, store, nearest).Recognized?
    ensures AllowedFile(filename) && embedding.Some?
    ensures store.indexFile.Present? && store.mapFile.Present? && store.indexFile.content.nItems > 0
    ensures var r := UploadPhoto(filename, embedding, store, nearest);
      && nearest == Some((r.annoyId, r.rawDistance))
      && Get(store.mapFile.content, Str(r.annoyId)) == Some(r.userId)
      && r.userId != ""
      && SimilarityThreshold <= r.similarity == Similarity(r.rawDistance)
  {
    assert filename != "" && AllowedFile(filename) && embedding.Some?;
    assert LoadIndexAndMap(store).Some?;
    var (index, idMap) := LoadIndexAndMap(store).value;
    var d := Decide(index.nItems, nearest, idMap);
    assert d.matchedUserId.Some? && d.matchedUserId.value != "";
    assert d.matchedAnnoyId.Some?;
  }
}
