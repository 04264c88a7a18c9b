/**
 * The link between the enrolment side (convert.py) and the recognition side (app.py): both read
 * the same two artifacts, and the key `str(slot)` the one writes is the key the other looks up.
 */
module RecognitionProperties {
  import opened Wrappers
  import opened Decimal
  import opened Dicts
  import opened Annoy
  import opened Storage
  import opened Convert
  import opened ConvertProperties
  import WebApp

  /**
   * Over a consistent pair of artifacts, a close enough neighbour at a stored slot always
   * resolves to the user enrolled at that slot: the response is a recognition of that user (a
   * "not recognised" only for an empty user id), and the enrolment's reverse map sends the
   * user back to the same slot.
   */
  lemma ConsistentStoreResolvesMatch(store: Store, filename: string, embedding: Option<Embedding>,
                                     slot: nat, distance: real)
    requires Consistent(store)
    requires filename != "" && WebApp.AllowedFile(filename) && embedding.Some?
    requires slot in store.indexFile.content.items
    requires WebApp.Similarity(distance) >= WebApp.SimilarityThreshold
    ensures Get(store.mapFile.content, Str(slot)).Some?
    ensures var user := Get(store.mapFile.content, Str(slot)).value;
      && ReverseMap(store.mapFile.content).Some?
      && Get(ReverseMap(store.mapFile.content).value, user) == Some(slot)
      && WebApp.UploadPhoto(filename, embedding, store, Some((slot, distance))) ==
           if user != "" then WebApp.Recognized(user, slot, WebApp.Similarity(distance), distance)
           else WebApp.NotRecognized(WebApp.Similarity(distance), Some(distance))
  {
    var m := store.mapFile.content;
    var ix := store.indexFile.content;
    assert Str(slot) in Keys(m);
    GetKeys(m, Str(slot));
    var user := Get(m, Str(slot)).value;
    ReverseMapInverse(m, user, slot);
    assert ix.nItems > 0;
  }

  /**
   * Conversely, whatever the recognition side reports as recognised over a consistent pair of
   * artifacts is an enrolled user at a stored slot, which the reverse map sends back to it.
   */
  lemma RecognitionIsEnrolment(store: Store, filename: string, embedding: Option<Embedding>,
                               nearest: Option<(nat, real)>)
    requires Consistent(store)
    requires WebApp.UploadPhoto(filename, embedding, store, nearest).Recognized?
    ensures var r := WebApp.UploadPhoto(filename, embedding, store, nearest);
      && r.userId in Values(store.mapFile.content)
      && ReverseMap(store.mapFile.content).Some?
      && Get(ReverseMap(store.mapFile.content).value, r.userId) == Some(r.annoyId)
  {
    var r := WebApp.UploadPhoto(filename, embedding, store, nearest);
    var m := store.mapFile.content;
    WebApp.RecognizedMeaning(filename, embedding, store, nearest);
    var i :| 0 <= i < |m| && m[i] == (Str(r.annoyId), r.userId);
    assert m[i].1 in Values(m);
    ReverseMapInverse(m, r.userId, r.annoyId);
  }
}
