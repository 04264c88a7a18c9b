/**
 * What the command-line tool's bookkeeping guarantees: `next_id` always names an unused slot,
 * a folder enrollment numbers its faces densely from 0, the reload after it restores exactly
 * what was enrolled, and the match percentage behaves as a score.
 */
module CommandLineProperties {
  import opened Wrappers
  import opened Dicts
  import opened Annoy
  import opened Storage
  import opened CommandLine

  /** Every id in the mapping and every slot in the index lies below `next_id`, which is not negative. */
  predicate IdsBelowNext(db: DbState) {
    && db.nextId >= 0
    && (forall i :: 0 <= i < |db.names| ==> db.names[i].0 < db.nextId)
    && (forall s :: s in db.index.items ==> s < db.nextId)
  }

  /**
   * An enrolment from a database whose ids lie below `next_id` writes a new slot and a new
   * mapping entry, overwriting neither, and keeps the property.
   */
  lemma EnrollKeepsIdsBelowNext(db: DbState, photo: Photo, personName: string)
    requires IdsBelowNext(db)
    ensures IdsBelowNext(EnrollResult(db, photo, personName))
    ensures photo.Face? ==>
              && db.nextId !in db.index.items
              && EnrollResult(db, photo, personName).index.items == db.index.items[db.nextId := photo.encoding]
              && EnrollResult(db, photo, personName).names == db.names + [(db.nextId, personName)]
  {
    if photo.Face? {
      assert Get(db.names, db.nextId).None?;
      PutAppends(db.names, db.nextId, personName);
    }
  }

  /**
   * After a load, `next_id` is one past the largest id of the mapping; when the stored ids are
   * not negative and every stored slot has a name, ids lie below it.
   */
  lemma LoadKeepsIdsBelowNext(store: CliStore)
    requires store.namesFile.Present? ==>
               forall i :: 0 <= i < |store.namesFile.content| ==> store.namesFile.content[i].0 >= 0
    requires store.indexFile.Present? && store.namesFile.Present? ==>
               forall s :: s in store.indexFile.content.items ==> Get(store.namesFile.content, s).Some?
    ensures IdsBelowNext(LoadResult(store))
    ensures LoadResult(store).names != [] ==> Get(LoadResult(store).names, LoadResult(store).nextId - 1).Some?
  {
    var db := LoadResult(store);
    if store.indexFile.Present? && store.namesFile.Present? {
      if db.names != [] {
        var i :| 0 <= i < |db.names| && db.names[i].0 == db.nextId - 1;
        assert db.names[i].0 >= 0;
      }
      forall s | s in db.index.items ensures s < db.nextId {
        var j :| 0 <= j < |db.names| && db.names[j] == (s, Get(db.names, s).value);
      }
    }
  }

  /** The database holds the faces `f` under ids 0 .. |f|-1, in order. */
  ghost predicate DenseBatch(db: DbState, f: seq<(string, Embedding)>) {
    && db.nextId == |f|
    && db.names == DenseNames(f)
    && (forall s: nat :: s in db.index.items <==> s < |f|)
    && (forall k :: 0 <= k < |f| ==> db.index.items[k] == f[k].1)
    && db.index.nItems == |f|
  }

  /** Enrolling one more face into a dense batch gives it the next id. */
  lemma DenseBatchStep(db: DbState, f: seq<(string, Embedding)>, personName: string, encoding: Embedding)
    requires DenseBatch(db, f)
    ensures DenseBatch(EnrollResult(db, Face(encoding), personName), f + [(personName, encoding)])
  {
    assert Get(db.names, |f|).None?;
    PutAppends(db.names, |f|, personName);
    assert DenseNames(f) + [(|f|, personName)] == DenseNames(f + [(personName, encoding)]);
  }

  /**
   * The batch loop gives the k-th enrolled face id k: the mapping lists the faces' names under
   * 0, 1, 2, ... in order, the index holds their encodings at exactly those slots, and both
   * `next_id` and `n_items` are the number of faces. A name that appears twice gets two slots.
   */
  lemma {:induction false} BatchEnrollDense(listing: seq<(string, Photo)>)
    ensures DenseBatch(BatchEnroll(listing), Faces(listing))
    decreases |listing|
  {
    if listing != [] {
      var init := listing[..|listing| - 1];
      BatchEnrollDense(init);
      var (filename, photo) := listing[|listing| - 1];
      if Accepted(filename) && photo.Face? {
        assert Faces(listing) == Faces(init) + [(PersonName(filename), photo.encoding)];
        DenseBatchStep(BatchEnroll(init), Faces(init), PersonName(filename), photo.encoding);
      } else {
        assert Faces(listing) == Faces(init) + [];
        assert BatchEnroll(listing) == BatchEnroll(init);
      }
    }
  }

  /** `max(keys) + 1` over the ids 0 .. n-1 is n. */
  lemma NextIdDense(faces: seq<(string, Embedding)>)
    ensures NextId(DenseNames(faces)) == |faces|
  {
    var names := DenseNames(faces);
    if faces != [] {
      var i :| 0 <= i < |names| && names[i].0 == NextId(names) - 1;
      assert names[|names| - 1].0 < NextId(names);
    }
  }

  /**
   * When a folder enrollment stored at least one face, the reload restores exactly the batch:
   * a loaded index with the faces' encodings at slots 0 .. n-1, the dense mapping, and
   * `next_id = n`, so the next enrolment goes to a fresh slot.
   */
  lemma ReloadAfterBatch(store: CliStore, listing: seq<(string, Photo)>)
    requires |Faces(listing)| > 0
    ensures var db := LoadResult(SaveBatch(store, BatchEnroll(listing))); var f := Faces(listing);
      && db.built
      && (forall s: nat :: s in db.index.items <==> s < |f|)
      && (forall k :: 0 <= k < |f| ==> db.index.items[k] == f[k].1)
      && db.names == DenseNames(f)
      && db.nextId == |f|
      && IdsBelowNext(db)
  {
    BatchEnrollDense(listing);
    NextIdDense(Faces(listing));
  }

  /**
   * When a folder had accepted files but no face could be enrolled, nothing is written and the
   * reload brings back the database that was on disk before the reset.
   */
  lemma EmptyBatchRestoresOld(store: CliStore, listing: seq<(string, Photo)>)
    requires |Faces(listing)| == 0
    ensures SaveBatch(store, BatchEnroll(listing)) == store
  {
    BatchEnrollDense(listing);
  }

  /**
   * The match percentage is 100 at distance 0, never grows with the distance, is positive
   * exactly below the threshold and is 0 from the threshold on.
   */
  lemma PercentageMonotone(d1: real, d2: real)
    requires d1 <= d2
    ensures Percentage(0.0) == 100.0
    ensures Percentage(d2) <= Percentage(d1)
    ensures Percentage(d1) > 0.0 <==> d1 < MatchThreshold
  {
    assert (MatchThreshold - d2) / MatchThreshold * 100.0 <= (MatchThreshold - d1) / MatchThreshold * 100.0;
  }

  /**
   * A face whose nearest stored vector is closer than the threshold is named from the mapping
   * (or flagged as an unknown id), with a positive percentage; any other face gets one of the
   * three "unknown" labels at 0: an empty database, no neighbour, or a neighbour too far away.
   */
  lemma IdentifyMeaning(nItems: nat, nearest: Option<(nat, real)>, names: Names)
    ensures var r := IdentifyOne(nItems, nearest, names);
      if nItems > 0 && nearest.Some? && nearest.value.1 < MatchThreshold then
        && r.name == Get(names, nearest.value.0).GetOr("ID Tidak Dikenal (Error)")
        && r.percentage == Percentage(nearest.value.1) > 0.0
      else
        && r.percentage == 0.0
        && r.name in {"Database Kosong", "Tidak Dikenal", "Tidak Dikenal (Jarak > Threshold)"}
  {
    if nItems > 0 && nearest.Some? && nearest.value.1 < MatchThreshold {
      PercentageMonotone(nearest.value.1, nearest.value.1);
    }
  }
}
