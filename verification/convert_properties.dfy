/**
 * What convert.py promises about its two maps and its rebuilt index, proved about the model in
 * module Convert.
 */
module ConvertProperties {
  import opened Wrappers
  import opened Decimal
  import opened Dicts
  import opened Annoy
  import opened Storage
  import opened Convert

  /** Every key of the map is an integer as far as `int(k)` is concerned. */
  predicate AllKeysParse(m: IdMap) {
    forall i :: 0 <= i < |m| ==> ParseInt(m[i].0).Some?
  }

  /** The reverse map exists exactly when every key parses. */
  lemma {:induction false} ReverseMapDefined(m: IdMap)
    ensures ReverseMap(m).Some? <==> AllKeysParse(m)
    decreases |m|
  {
    if m != [] {
      var init := m[..|m| - 1];
      ReverseMapDefined(init);
      assert forall i :: 0 <= i < |init| ==> init[i] == m[i];
    }
  }

  /** The reverse map's users are exactly the map's users. */
  lemma {:induction false} ReverseMapKeys(m: IdMap)
    requires ReverseMap(m).Some?
    ensures Keys(ReverseMap(m).value) == Values(m)
    ensures KeysDistinct(ReverseMap(m).value)
    decreases |m|
  {
    if m != [] {
      var init := m[..|m| - 1];
      ReverseMapKeys(init);
      var r := ReverseMap(init).value;
      PutKeys(r, m[|m| - 1].1, ParseInt(m[|m| - 1].0).value);
      PutKeysDistinct(r, m[|m| - 1].1, ParseInt(m[|m| - 1].0).value);
      assert Values(m) == Values(init) + {m[|m| - 1].1} by {
        assert forall i :: 0 <= i < |init| ==> init[i] == m[i];
        forall u | u in Values(m) ensures u in Values(init) + {m[|m| - 1].1} {
          var i :| 0 <= i < |m| && m[i].1 == u;
          if i < |init| { assert init[i].1 == u; }
        }
      }
    }
  }

  /**
   * Each user is sent to the integer form of its slot key; when a user appears more than once,
   * the last entry wins, as in the dict comprehension.
   */
  lemma {:induction false} ReverseMapLookup(m: IdMap, i: int)
    requires ReverseMap(m).Some? && 0 <= i < |m|
    requires forall j :: i < j < |m| ==> m[j].1 != m[i].1
    ensures Get(ReverseMap(m).value, m[i].1) == ParseInt(m[i].0)
    decreases |m|
  {
    var init := m[..|m| - 1];
    ReverseMapDefined(m);
    ReverseMapDefined(init);
    assert forall j :: 0 <= j < |init| ==> init[j] == m[j];
    PutSpec(ReverseMap(init).value, m[|m| - 1].1, ParseInt(m[|m| - 1].0).value);
    if i < |m| - 1 {
      ReverseMapLookup(init, i);
    }
  }

  /**
   * When the keys are slot keys as `str` writes them and neither keys nor users repeat, the map
   * and its reverse are mutual inverses.
   */
  lemma ReverseMapInverse(m: IdMap, u: string, s: nat)
    requires KeysDistinct(m) && ValuesDistinct(m)
    requires forall i :: 0 <= i < |m| ==> IsSlotKey(m[i].0)
    ensures ReverseMap(m).Some?
    ensures Get(ReverseMap(m).value, u) == Some(s) <==> Get(m, Str(s)) == Some(u)
  {
    ReverseMapDefined(m);
    var r := ReverseMap(m).value;
    if Get(m, Str(s)) == Some(u) {
      var i :| 0 <= i < |m| && m[i] == (Str(s), u);
      ParseStr(s);
      ReverseMapLookup(m, i);
    }
    if Get(r, u) == Some(s) {
      ReverseMapKeys(m);
      GetKeys(r, u);
      var i :| 0 <= i < |m| && m[i].1 == u;
      ReverseMapLookup(m, i);
      assert m[i].0 == Str(s);
      GetAt(m, i);
    }
  }

  /**
   * `load_id_map`: the map as stored together with a reverse map over the same users when the
   * file reads and every key is an integer; two empty maps otherwise.
   */
  lemma LoadIdMapResult(f: FileState<IdMap>)
    ensures f.Present? && AllKeysParse(f.content) ==>
              LoadIdMap(f).0 == f.content && Keys(LoadIdMap(f).1) == Values(f.content)
    ensures !(f.Present? && AllKeysParse(f.content)) ==> LoadIdMap(f) == ([], [])
  {
    if f.Present? {
      ReverseMapDefined(f.content);
      if AllKeysParse(f.content) {
        ReverseMapKeys(f.content);
      }
    }
  }

  /** The slot of a key that `int` reads as a non-negative id holding a vector of dimension Dim. */
  predicate SlotBacked(key: string, ix: IndexState) {
    && ParseInt(key).Some? && ParseInt(key).value >= 0
    && ParseInt(key).value in ix.items && |ix.items[ParseInt(key).value]| == Dim
  }

  /** The slots of the entries whose user is not `userId`: what the copy loop carries across. */
  function OtherSlots(entries: IdMap, userId: string): set<int> {
    set i | 0 <= i < |entries| && entries[i].1 != userId && ParseInt(entries[i].0).Some? :: ParseInt(entries[i].0).value
  }

  lemma OtherSlotsSnoc(entries: IdMap, userId: string)
    requires |entries| > 0
    ensures var init, last := entries[..|entries| - 1], entries[|entries| - 1];
      OtherSlots(entries, userId) ==
        OtherSlots(init, userId) + (if last.1 != userId && ParseInt(last.0).Some? then {ParseInt(last.0).value} else {})
  {
    var init := entries[..|entries| - 1];
    assert forall i :: 0 <= i < |init| ==> init[i] == entries[i];
  }

  /**
   * When every key names a stored vector of the right dimension, the copy loop does not raise,
   * and the fresh index holds exactly the other users' slots, each with its stored vector.
   */
  lemma {:induction false} CopyLoopFromIndex(entries: IdMap, userId: string, previous: StoredIndex)
    requires forall i :: 0 <= i < |entries| ==> SlotBacked(entries[i].0, previous)
    ensures !CopyLoop(entries, userId, previous).failed
    ensures forall s: int :: s in CopyLoop(entries, userId, previous).state.items <==> s in OtherSlots(entries, userId)
    ensures forall s :: s in CopyLoop(entries, userId, previous).state.items ==>
              s in previous.items && CopyLoop(entries, userId, previous).state.items[s] == previous.items[s]
    decreases |entries|
  {
    if entries != [] {
      var init, last := entries[..|entries| - 1], entries[|entries| - 1];
      assert forall i :: 0 <= i < |init| ==> init[i] == entries[i];
      CopyLoopFromIndex(init, userId, previous);
      OtherSlotsSnoc(entries, userId);
      assert SlotBacked(last.0, previous);
    }
  }

  /**
   * The map and an index agree: keys are `str` of slots and never repeat, no user has two slots,
   * every key names a stored vector of dimension Dim, and every stored id has a key.
   */
  predicate MapMatchesIndex(m: IdMap, ix: IndexState) {
    && KeysDistinct(m) && ValuesDistinct(m)
    && (forall i :: 0 <= i < |m| ==> IsSlotKey(m[i].0) && SlotBacked(m[i].0, ix))
    && (forall s: nat :: s in ix.items ==> Str(s) in Keys(m))
  }

  /** The state convert.py is meant to leave behind: both files present and in agreement. */
  predicate Consistent(store: Store) {
    && store.indexFile.Present? && store.mapFile.Present?
    && MapMatchesIndex(store.mapFile.content, store.indexFile.content)
  }

  /** Two well-formed indexes over the same ids have the same `n_items`. */
  lemma SameItemsSameNItems(a: IndexState, b: IndexState)
    requires WellFormed(a) && WellFormed(b) && a.items.Keys == b.items.Keys
    ensures a.nItems == b.nItems
  {
    if a.nItems > 0 { assert a.nItems - 1 in b.items; }
    if b.nItems > 0 { assert b.nItems - 1 in a.items; }
  }

  /** Adding `v` at `slot` to an index holding every id of `ix` but possibly `slot` gives `ix` with `slot` set. */
  lemma AddOverCopy(c: IndexState, ix: IndexState, slot: nat, v: Embedding)
    requires forall s :: s in c.items ==> s in ix.items && c.items[s] == ix.items[s]
    requires forall s :: s in ix.items && s != slot ==> s in c.items
    ensures Add(c, slot, v).items == ix.items[slot := v]
  {
  }

  /** In a consistent map, the entry of a stored id is found under `str` of that id. */
  lemma KeyOfSlot(m: IdMap, ix: IndexState, i: int)
    requires MapMatchesIndex(m, ix) && 0 <= i < |m|
    ensures ParseInt(m[i].0).Some? && ParseInt(m[i].0).value >= 0
    ensures m[i].0 == Str(ParseInt(m[i].0).value)
    ensures Get(m, m[i].0) == Some(m[i].1)
  {
    GetAt(m, i);
  }

  /**
   * From a consistent pair, the copy loop does not raise and carries across every stored id
   * except the one whose key belongs to `userId`, each with its stored vector.
   */
  lemma CopyOfConsistent(m: IdMap, ix: StoredIndex, userId: string)
    requires MapMatchesIndex(m, ix)
    ensures !CopyLoop(m, userId, ix).failed
    ensures forall s: nat :: s in CopyLoop(m, userId, ix).state.items <==>
              s in ix.items && Get(m, Str(s)) != Some(userId)
    ensures forall s :: s in CopyLoop(m, userId, ix).state.items ==>
              s in ix.items && CopyLoop(m, userId, ix).state.items[s] == ix.items[s]
  {
    CopyLoopFromIndex(m, userId, ix);
    forall s: nat
      ensures s in OtherSlots(m, userId) <==> s in ix.items && Get(m, Str(s)) != Some(userId)
    {
      if s in OtherSlots(m, userId) {
        var i :| 0 <= i < |m| && m[i].1 != userId && ParseInt(m[i].0) == Some(s);
        KeyOfSlot(m, ix, i);
      }
      if s in ix.items && Get(m, Str(s)) != Some(userId) {
        var i :| 0 <= i < |m| && m[i].0 == Str(s);
        KeyOfSlot(m, ix, i);
        ParseStr(s);
      }
    }
  }

  /** From a consistent store, loading and copying keep both maps and raise nothing. */
  lemma CopyPhaseOfConsistent(store: Store, userId: string)
    requires Consistent(store)
    ensures ReverseMap(store.mapFile.content).Some?
    ensures !CopyLoop(store.mapFile.content, userId, store.indexFile.content).failed
    ensures CopyPhase(store, userId) ==
              Base(CopyLoop(store.mapFile.content, userId, store.indexFile.content).state,
                   store.mapFile.content, ReverseMap(store.mapFile.content).value, false)
  {
    var m := store.mapFile.content;
    ReverseMapDefined(m);
    CopyOfConsistent(m, store.indexFile.content, userId);
  }

  /** From a consistent store, the rebuild is the copy loop's index plus the user's vector. */
  lemma RebuildOfConsistent(store: Store, userId: string, vector: Embedding)
    requires Consistent(store) && |vector| == Dim
    ensures ReverseMap(store.mapFile.content).Some?
    ensures var m, ix := store.mapFile.content, store.indexFile.content;
      var c, r := CopyLoop(m, userId, ix), ReverseMap(m).value;
      var slot := if Get(r, userId).Some? then Get(r, userId).value else c.state.nItems;
      && slot >= 0
      && RebuildFor(store, userId, vector) ==
           Some(Rebuild(Add(c.state, slot, vector), Put(m, Str(slot), userId), Put(r, userId, slot),
                        slot, Get(r, userId).None?, false))
  {
    var m, ix := store.mapFile.content, store.indexFile.content;
    CopyPhaseOfConsistent(store, userId);
    var r := ReverseMap(m).value;
    if Get(r, userId).Some? {
      var i :| 0 <= i < |r| && r[i] == (userId, Get(r, userId).value);
      ReverseMapKeys(m);
      assert userId in Values(m);
      var j :| 0 <= j < |m| && m[j].1 == userId;
      ReverseMapLookup(m, j);
      KeyOfSlot(m, ix, j);
    }
  }

  /**
   * The index the rebuild produces for a user that holds `slot`: the old index with only that
   * slot's vector replaced, same ids and same `n_items`.
   */
  lemma CopyForExistingUser(m: IdMap, ix: StoredIndex, userId: string, slot: nat, vector: Embedding)
    requires MapMatchesIndex(m, ix) && |vector| == Dim
    requires Get(m, Str(slot)) == Some(userId)
    ensures slot in ix.items
    ensures WellFormed(IndexState(ix.items[slot := vector], ix.nItems))
    ensures Add(CopyLoop(m, userId, ix).state, slot, vector) == IndexState(ix.items[slot := vector], ix.nItems)
  {
    var c := CopyLoop(m, userId, ix);
    CopyOfConsistent(m, ix, userId);
    var i :| 0 <= i < |m| && m[i] == (Str(slot), userId);
    KeyOfSlot(m, ix, i);
    ParseStr(slot);
    forall s: nat | s != slot && s in ix.items
      ensures s in c.state.items
    {
      if Get(m, Str(s)) == Some(userId) {
        var j :| 0 <= j < |m| && m[j] == (Str(s), userId);
        StrInjective(s, slot);
      }
    }
    AddOverCopy(c.state, ix, slot, vector);
    SameItemsSameNItems(Add(c.state, slot, vector), IndexState(ix.items[slot := vector], ix.nItems));
  }

  /**
   * The index the rebuild produces for a user with no slot: the old index with the vector added
   * at `n_items`, a slot no key names yet.
   */
  lemma CopyForNewUser(m: IdMap, ix: StoredIndex, userId: string, vector: Embedding)
    requires MapMatchesIndex(m, ix) && |vector| == Dim
    requires userId !in Values(m)
    ensures CopyLoop(m, userId, ix).state.nItems == ix.nItems
    ensures Get(m, Str(ix.nItems)).None?
    ensures Add(CopyLoop(m, userId, ix).state, ix.nItems, vector) ==
              IndexState(ix.items[ix.nItems := vector], ix.nItems + 1)
  {
    var c := CopyLoop(m, userId, ix);
    CopyOfConsistent(m, ix, userId);
    forall s: nat | s in ix.items ensures s in c.state.items {
      if Get(m, Str(s)).Some? {
        var j :| 0 <= j < |m| && m[j] == (Str(s), Get(m, Str(s)).value);
        assert m[j].1 in Values(m);
      }
    }
    SameItemsSameNItems(c.state, ix);
    var n := ix.nItems;
    forall i | 0 <= i < |m| ensures m[i].0 != Str(n) {
      KeyOfSlot(m, ix, i);
      StrInjective(ParseInt(m[i].0).value, n);
    }
    AddOverCopy(c.state, ix, n, vector);
  }

  /**
   * Re-enrolling a user that already holds `slot`: the slot is reused, both maps are written back
   * unchanged (so the map keeps its size and the maps agree on the user), and the index keeps
   * its ids and `n_items` with only that slot's vector replaced.
   */
  lemma RebuildExistingUser(store: Store, userId: string, vector: Embedding, slot: nat)
    requires Consistent(store) && |vector| == Dim
    requires Get(store.mapFile.content, Str(slot)) == Some(userId)
    ensures slot in store.indexFile.content.items
    ensures var ix := store.indexFile.content; WellFormed(IndexState(ix.items[slot := vector], ix.nItems))
    ensures ReverseMap(store.mapFile.content).Some?
    ensures Get(ReverseMap(store.mapFile.content).value, userId) == Some(slot as int)
    ensures var m, ix := store.mapFile.content, store.indexFile.content;
      RebuildFor(store, userId, vector) ==
        Some(Rebuild(IndexState(ix.items[slot := vector], ix.nItems), m, ReverseMap(m).value, slot, false, false))
  {
    var m, ix := store.mapFile.content, store.indexFile.content;
    RebuildOfConsistent(store, userId, vector);
    ReverseMapInverse(m, userId, slot);
    PutExisting(m, Str(slot), userId);
    PutExisting(ReverseMap(m).value, userId, slot as int);
    CopyForExistingUser(m, ix, userId, slot, vector);
  }

  /**
   * Enrolling a user the map does not know: the user gets `n_items` of the old index, which is
   * `get_n_items()` of the fresh one and a slot no key names yet; the map grows by exactly that
   * one entry at its end, the reverse map gains the user, and every stored vector stays put.
   */
  lemma RebuildNewUser(store: Store, userId: string, vector: Embedding)
    requires Consistent(store) && |vector| == Dim
    requires userId !in Values(store.mapFile.content)
    ensures Str(store.indexFile.content.nItems) !in Keys(store.mapFile.content)
    ensures ReverseMap(store.mapFile.content).Some?
    ensures var m, ix := store.mapFile.content, store.indexFile.content;
      RebuildFor(store, userId, vector) ==
        Some(Rebuild(IndexState(ix.items[ix.nItems := vector], ix.nItems + 1), m + [(Str(ix.nItems), userId)],
                     ReverseMap(m).value + [(userId, ix.nItems as int)], ix.nItems, true, false))
  {
    var m, ix := store.mapFile.content, store.indexFile.content;
    RebuildOfConsistent(store, userId, vector);
    CopyForNewUser(m, ix, userId, vector);
    var r := ReverseMap(m).value;
    ReverseMapKeys(m);
    GetKeys(r, userId);
    GetKeys(m, Str(ix.nItems));
    PutAppends(m, Str(ix.nItems), userId);
    PutAppends(r, userId, ix.nItems as int);
  }

  /** Replacing the vector of a stored id keeps map and index in agreement. */
  lemma MatchAfterReplace(m: IdMap, ix: StoredIndex, slot: nat, vector: Embedding)
    requires MapMatchesIndex(m, ix) && slot in ix.items && |vector| == Dim
    ensures WellFormed(IndexState(ix.items[slot := vector], ix.nItems))
    ensures MapMatchesIndex(m, IndexState(ix.items[slot := vector], ix.nItems))
  {
  }

  /** The slot keys of a map stay backed when a vector is added at `n_items` under a new key. */
  lemma AppendKeepsSlotsBacked(m: IdMap, ix: StoredIndex, userId: string, vector: Embedding)
    requires MapMatchesIndex(m, ix) && |vector| == Dim
    ensures var m', ix' := m + [(Str(ix.nItems), userId)], IndexState(ix.items[ix.nItems := vector], ix.nItems + 1);
      forall i :: 0 <= i < |m'| ==> IsSlotKey(m'[i].0) && SlotBacked(m'[i].0, ix')
  {
    var n := ix.nItems;
    var m', ix' := m + [(Str(n), userId)], IndexState(ix.items[n := vector], n + 1);
    forall i | 0 <= i < |m'| ensures IsSlotKey(m'[i].0) && SlotBacked(m'[i].0, ix') {
      if i < |m| {
        assert m'[i] == m[i];
        KeyOfSlot(m, ix, i);
      } else {
        ParseStr(n);
      }
    }
  }

  /** Adding a vector at `n_items` together with a new entry for a new user keeps the agreement. */
  lemma MatchAfterAppend(m: IdMap, ix: StoredIndex, userId: string, vector: Embedding)
    requires MapMatchesIndex(m, ix) && |vector| == Dim
    requires userId !in Values(m) && Get(m, Str(ix.nItems)).None?
    ensures MapMatchesIndex(m + [(Str(ix.nItems), userId)], IndexState(ix.items[ix.nItems := vector], ix.nItems + 1))
  {
    var n := ix.nItems;
    var m', ix' := m + [(Str(n), userId)], IndexState(ix.items[n := vector], n + 1);
    AppendDistinct(m, Str(n), userId);
    AppendKeepsSlotsBacked(m, ix, userId, vector);
    assert forall s: nat :: s in ix'.items ==> Str(s) in Keys(m') by {
      forall s: nat | s in ix'.items ensures Str(s) in Keys(m') {
        if s == n {
          assert m'[|m|].0 == Str(n);
        } else {
          var i :| 0 <= i < |m| && m[i].0 == Str(s);
          assert m'[i].0 == Str(s);
        }
      }
    }
  }

  /** `convert_and_store_photo` for a user holding `slot`: the index is saved with that slot's vector replaced, the map as it was. */
  lemma ConvertExistingUser(store: Store, imageFilename: string, vector: Embedding, slot: nat)
    requires Consistent(store) && |vector| == Dim
    requires Get(store.mapFile.content, Str(slot)) == Some(UserIdOf(imageFilename))
    ensures slot in store.indexFile.content.items
    ensures var ix := store.indexFile.content; WellFormed(IndexState(ix.items[slot := vector], ix.nItems))
    ensures var m, ix := store.mapFile.content, store.indexFile.content;
      ConvertOutcome(store, imageFilename, true, vector, NoFaults()) ==
        (true, Store(Present(IndexState(ix.items[slot := vector], ix.nItems)), Present(m)))
  {
    RebuildExistingUser(store, UserIdOf(imageFilename), vector, slot);
  }

  /** `convert_and_store_photo` for a new user: the index is saved with the vector at `n_items`, the map with one entry appended. */
  lemma ConvertNewUser(store: Store, imageFilename: string, vector: Embedding)
    requires Consistent(store) && |vector| == Dim
    requires UserIdOf(imageFilename) !in Values(store.mapFile.content)
    ensures Str(store.indexFile.content.nItems) !in Keys(store.mapFile.content)
    ensures var ix := store.indexFile.content; WellFormed(IndexState(ix.items[ix.nItems := vector], ix.nItems + 1))
    ensures var m, ix := store.mapFile.content, store.indexFile.content;
      ConvertOutcome(store, imageFilename, true, vector, NoFaults()) ==
        (true, Store(Present(IndexState(ix.items[ix.nItems := vector], ix.nItems + 1)),
                     Present(m + [(Str(ix.nItems), UserIdOf(imageFilename))])))
  {
    RebuildNewUser(store, UserIdOf(imageFilename), vector);
  }

  /**
   * What enrolling `userId` with `vector` promises about the files: the user holds some slot with
   * the new vector, every other stored id keeps its key's user and its vector, and the map grows
   * by one entry exactly when the user was new.
   */
  predicate EnrolledFrom(before: Store, after: Store, userId: string, vector: Embedding) {
    && before.indexFile.Present? && before.mapFile.Present?
    && after.indexFile.Present? && after.mapFile.Present?
    && var m, m' := before.mapFile.content, after.mapFile.content;
       var ix, ix' := before.indexFile.content, after.indexFile.content;
       && (exists slot: nat :: Get(m', Str(slot)) == Some(userId) && slot in ix'.items && ix'.items[slot] == vector)
       && (forall s: nat :: s in ix.items && Get(m, Str(s)) != Some(userId) ==>
             Get(m', Str(s)) == Get(m, Str(s)) && s in ix'.items && ix'.items[s] == ix.items[s])
       && |m'| == |m| + (if userId in Values(m) then 0 else 1)
  }

  lemma EnrolledAfterReplace(m: IdMap, ix: StoredIndex, userId: string, vector: Embedding, slot: nat)
    requires Get(m, Str(slot)) == Some(userId)
    requires WellFormed(IndexState(ix.items[slot := vector], ix.nItems))
    ensures EnrolledFrom(Store(Present(ix), Present(m)),
                         Store(Present(IndexState(ix.items[slot := vector], ix.nItems)), Present(m)), userId, vector)
  {
    var ix' := IndexState(ix.items[slot := vector], ix.nItems);
    var i :| 0 <= i < |m| && m[i] == (Str(slot), userId);
    assert userId in Values(m);
    assert slot in ix'.items && ix'.items[slot] == vector;
  }

  lemma EnrolledAfterAppend(m: IdMap, ix: StoredIndex, userId: string, vector: Embedding)
    requires MapMatchesIndex(m, ix) && userId !in Values(m) && Str(ix.nItems) !in Keys(m)
    requires WellFormed(IndexState(ix.items[ix.nItems := vector], ix.nItems + 1))
    ensures EnrolledFrom(Store(Present(ix), Present(m)),
                         Store(Present(IndexState(ix.items[ix.nItems := vector], ix.nItems + 1)),
                               Present(m + [(Str(ix.nItems), userId)])), userId, vector)
  {
    var n := ix.nItems;
    GetKeys(m, Str(n));
    PutAppends(m, Str(n), userId);
    PutSpec(m, Str(n), userId);
    forall s: nat | s in ix.items ensures Str(s) != Str(n) {
      StrInjective(s, n);
    }
  }

  /**
   * Enrolling into a consistent store with no write fault always succeeds, leaves a consistent
   * store, and changes only the enrolled user's slot (`EnrolledFrom`).
   */
  lemma ConvertPreservesConsistency(store: Store, imageFilename: string, vector: Embedding)
    requires Consistent(store) && |vector| == Dim
    ensures var (ok, after) := ConvertOutcome(store, imageFilename, true, vector, NoFaults());
      ok && Consistent(after) && EnrolledFrom(store, after, UserIdOf(imageFilename), vector)
  {
    var m, ix := store.mapFile.content, store.indexFile.content;
    var userId := UserIdOf(imageFilename);
    if userId in Values(m) {
      var i :| 0 <= i < |m| && m[i].1 == userId;
      KeyOfSlot(m, ix, i);
      var slot: nat := ParseInt(m[i].0).value;
      ConvertExistingUser(store, imageFilename, vector, slot);
      MatchAfterReplace(m, ix, slot, vector);
      EnrolledAfterReplace(m, ix, userId, vector, slot);
    } else {
      ConvertNewUser(store, imageFilename, vector);
      GetKeys(m, Str(ix.nItems));
      MatchAfterAppend(m, ix, userId, vector);
      EnrolledAfterAppend(m, ix, userId, vector);
    }
  }

  /**
   * Whatever the store, a successful rebuild leaves `id_map[str(slot)] == user_id` and
   * `user_id_to_annoy_id[user_id] == slot` with the new vector at `slot`; the user is new exactly
   * when the reverse map after the copy phase did not know it, and then the slot is `n_items`.
   */
  lemma RebuildAgreement(store: Store, userId: string, vector: Embedding)
    requires RebuildFor(store, userId, vector).Some?
    ensures var rb := RebuildFor(store, userId, vector).value;
      && Get(rb.idMap, Str(rb.slot)) == Some(userId)
      && Get(rb.reverse, userId) == Some(rb.slot as int)
      && rb.slot in rb.index.items && rb.index.items[rb.slot] == vector
      && (rb.isNew <==> Get(CopyPhase(store, userId).reverse, userId).None?)
      && (rb.isNew ==> rb.slot == CopyPhase(store, userId).index.nItems)
      && (!rb.isNew ==> Get(CopyPhase(store, userId).reverse, userId) == Some(rb.slot as int))
  {
    var base := CopyPhase(store, userId);
    var rb := RebuildFor(store, userId, vector).value;
    PutSpec(base.idMap, Str(rb.slot), userId);
    PutSpec(base.reverse, userId, rb.slot as int);
  }

  /** From a consistent store, the final `add_item` raises, and nothing is saved, exactly when the new vector has the wrong length. */
  lemma RebuildFailsOnlyOnBadVector(store: Store, userId: string, vector: Embedding)
    requires Consistent(store)
    ensures RebuildFor(store, userId, vector).None? <==> |vector| != Dim
  {
    var m, ix := store.mapFile.content, store.indexFile.content;
    CopyPhaseOfConsistent(store, userId);
    var r := ReverseMap(m).value;
    if Get(r, userId).Some? {
      ReverseMapKeys(m);
      GetKeys(r, userId);
      var j :| 0 <= j < |m| && m[j].1 == userId;
      ReverseMapLookup(m, j);
      KeyOfSlot(m, ix, j);
    }
  }

  /**
   * When the old index cannot be loaded or copied, both maps are cleared, so the user is new,
   * takes `get_n_items()` of what was copied, and the saved map holds that single entry.
   */
  lemma LostBaseStartsOver(store: Store, userId: string, vector: Embedding)
    requires CopyPhase(store, userId).lost && |vector| == Dim
    ensures var base := CopyPhase(store, userId);
      RebuildFor(store, userId, vector) ==
        Some(Rebuild(Add(base.index, base.index.nItems, vector), [(Str(base.index.nItems), userId)],
                     [(userId, base.index.nItems as int)], base.index.nItems, true, true))
  {
  }

  /** An unreadable index file: the new index holds only the enrolled vector, at slot 0. */
  lemma UnreadableIndexStartsOver(mapFile: FileState<IdMap>, userId: string, vector: Embedding)
    requires |vector| == Dim
    ensures RebuildFor(Store(Unreadable, mapFile), userId, vector) ==
              Some(Rebuild(IndexState(map[0 := vector], 1), [("0", userId)], [(userId, 0)], 0, true, true))
  {
    LostBaseStartsOver(Store(Unreadable, mapFile), userId, vector);
    assert Str(0) == "0";
  }

  /**
   * A reachable inconsistency: with the index file missing but the map file present, nothing is
   * copied, so a new user gets slot 0 and takes over the key "0" of another user, whose entry is lost.
   */
  lemma AbsentIndexCollision(vector: Embedding)
    requires |vector| == Dim
    ensures RebuildFor(Store(Absent, Present([("0", "alice")])), "bob", vector) ==
              Some(Rebuild(IndexState(map[0 := vector], 1), [("0", "bob")], [("alice", 0), ("bob", 0)], 0, true, false))
  {
    assert Str(0) == "0";
    assert ParseInt("0") == Some(0);
    assert ReverseMap([("0", "alice")]) == Some([("alice", 0)]) by {
      assert [("0", "alice")][..0] == [];
    }
    var store := Store(Absent, Present([("0", "alice")]));
    assert CopyPhase(store, "bob") == Base(EmptyIndex(), [("0", "alice")], [("alice", 0)], false);
    assert Get([("alice", 0)], "bob") == None;
    assert Put([("0", "alice")], Str(0), "bob") == [("0", "bob")];
    assert Put([("alice", 0)], "bob", 0) == [("alice", 0), ("bob", 0)];
    assert Add(EmptyIndex(), 0, vector) == IndexState(map[0 := vector], 1);
  }

  /**
   * A reachable gap: with the index file missing, a known user keeps the slot its key names, so
   * re-enrolling under key "5" saves an index whose `n_items` is 6 with slots 0-4 never added.
   */
  lemma AbsentIndexKnownUser(vector: Embedding)
    requires |vector| == Dim
    ensures RebuildFor(Store(Absent, Present([("5", "alice")])), "alice", vector) ==
              Some(Rebuild(IndexState(map[5 := vector], 6), [("5", "alice")], [("alice", 5)], 5, false, false))
  {
    assert Str(5) == "5";
    assert ParseInt("5") == Some(5);
    assert ReverseMap([("5", "alice")]) == Some([("alice", 5)]) by {
      assert [("5", "alice")][..0] == [];
    }
    var store := Store(Absent, Present([("5", "alice")]));
    assert CopyPhase(store, "alice") == Base(EmptyIndex(), [("5", "alice")], [("alice", 5)], false);
    assert Get([("alice", 5)], "alice") == Some(5);
    assert Put([("5", "alice")], Str(5), "alice") == [("5", "alice")];
    assert Put([("alice", 5)], "alice", 5) == [("alice", 5)];
    assert Add(EmptyIndex(), 5, vector) == IndexState(map[5 := vector], 6);
  }

  /**
   * A reachable inconsistency: a map naming a slot beyond the stored index makes the copy loop
   * raise after copying slot 0; the maps are cleared, the new user takes slot 1, and the saved
   * index keeps the copied vector at slot 0 with no key naming it.
   */
  lemma CopyFailureKeepsOrphan(v0: Embedding, vector: Embedding)
    requires |v0| == Dim && |vector| == Dim
    ensures var store := Store(Present(IndexState(map[0 := v0], 1)), Present([("0", "alice"), ("1", "bob")]));
      RebuildFor(store, "carol", vector) ==
        Some(Rebuild(IndexState(map[0 := v0, 1 := vector], 2), [("1", "carol")], [("carol", 1)], 1, true, true))
  {
    var m := [("0", "alice"), ("1", "bob")];
    var store := Store(Present(IndexState(map[0 := v0], 1)), Present(m));
    assert ParseInt("0") == Some(0) && ParseInt("1") == Some(1);
    assert m[..1] == [("0", "alice")] && m[..1][..0] == [] && m[..2] == m;
    assert Str(1) == "1";
    var st := IndexState(map[0 := v0], 1);
    assert CopyLoop(m[..1], "carol", st) == Copy(IndexState(map[0 := v0], 1), false);
    assert CopyLoop(m, "carol", st) == Copy(IndexState(map[0 := v0], 1), true);
    assert ReverseMap(m[..1]) == Some([("alice", 0)]);
    assert ReverseMap(m).Some?;
    assert CopyPhase(store, "carol") == Base(IndexState(map[0 := v0], 1), [], [], true);
    assert Add(IndexState(map[0 := v0], 1), 1, vector) == IndexState(map[0 := v0, 1 := vector], 2);
  }

  /**
   * `save_annoy_index_and_map`: an empty index is never built or written, the map is written
   * whenever the index step did not raise, and the result is True exactly when no write raised.
   */
  lemma SaveOutcomeSpec(index: StoredIndex, idMap: IdMap, store: Store, faults: IoFaults)
    ensures var (ok, after) := SaveOutcome(index, idMap, store, faults);
      && (ok <==> !(index.nItems > 0 && faults.indexSaveFails) && !faults.mapWriteFails)
      && (index.nItems == 0 ==> after.indexFile == store.indexFile)
      && (index.nItems > 0 && !faults.indexSaveFails ==> after.indexFile == Present(index))
      && (ok ==> after.mapFile == Present(idMap))
      && (!ok ==> after.mapFile == store.mapFile)
  {
  }

  /**
   * Whatever the files held before, a True result leaves both files present with the user's
   * key naming a slot that holds the new vector; a False result leaves the map file as it was,
   * and a missing photo leaves everything as it was.
   */
  lemma ConvertResultMeaning(store: Store, imageFilename: string, photoExists: bool, vector: Embedding,
                             faults: IoFaults)
    ensures var (ok, after) := ConvertOutcome(store, imageFilename, photoExists, vector, faults);
      && (!photoExists ==> after == store)
      && (!ok ==> after.mapFile == store.mapFile)
      && (ok ==> after.indexFile.Present? && after.mapFile.Present?
                 && exists slot: nat :: Get(after.mapFile.content, Str(slot)) == Some(UserIdOf(imageFilename))
                                        && slot in after.indexFile.content.items
                                        && after.indexFile.content.items[slot] == vector)
  {
    var userId := UserIdOf(imageFilename);
    if photoExists && RebuildFor(store, userId, vector).Some? {
      RebuildAgreement(store, userId, vector);
    }
  }

  /** The first photo into empty storage: slot 0, key "0", and a consistent pair of files. */
  lemma FirstEnrollment(imageFilename: string, vector: Embedding)
    requires |vector| == Dim
    ensures ConvertOutcome(Store(Absent, Absent), imageFilename, true, vector, NoFaults()) ==
              (true, Store(Present(IndexState(map[0 := vector], 1)), Present([("0", UserIdOf(imageFilename))])))
    ensures Consistent(Store(Present(IndexState(map[0 := vector], 1)), Present([("0", UserIdOf(imageFilename))])))
  {
    assert Str(0) == "0";
    ParseStr(0);
    assert "0" in Keys([("0", UserIdOf(imageFilename))]) by {
      assert [("0", UserIdOf(imageFilename))][0].0 == "0";
    }
    assert Add(EmptyIndex(), 0, vector) == IndexState(map[0 := vector], 1);
  }

  /**
   * Re-enrolling a user the map already knows: the map is written back unchanged and the index
   * keeps its ids and `n_items`, so the number of entries does not grow.
   */
  lemma ReenrollKeepsMap(store: Store, imageFilename: string, vector: Embedding)
    requires Consistent(store) && |vector| == Dim
    requires UserIdOf(imageFilename) in Values(store.mapFile.content)
    ensures var r := ConvertOutcome(store, imageFilename, true, vector, NoFaults());
      && r.0 && Consistent(r.1)
      && r.1.mapFile == store.mapFile
      && r.1.indexFile.content.items.Keys == store.indexFile.content.items.Keys
      && r.1.indexFile.content.nItems == store.indexFile.content.nItems
  {
    var m, ix := store.mapFile.content, store.indexFile.content;
    var i :| 0 <= i < |m| && m[i].1 == UserIdOf(imageFilename);
    KeyOfSlot(m, ix, i);
    var slot: nat := ParseInt(m[i].0).value;
    ConvertExistingUser(store, imageFilename, vector, slot);
    MatchAfterReplace(m, ix, slot, vector);
  }

  /**
   * Enrolling the same photo name twice, with any two embeddings: the second run writes the map
   * back unchanged and keeps the index's ids and `n_items`.
   */
  lemma ReenrollIsStable(store: Store, imageFilename: string, first: Embedding, second: Embedding)
    requires Consistent(store) && |first| == Dim && |second| == Dim
    ensures var once := ConvertOutcome(store, imageFilename, true, first, NoFaults());
      && once.0 && Consistent(once.1)
      && var twice := ConvertOutcome(once.1, imageFilename, true, second, NoFaults());
         && twice.0 && Consistent(twice.1)
         && twice.1.mapFile == once.1.mapFile
         && twice.1.indexFile.content.items.Keys == once.1.indexFile.content.items.Keys
         && twice.1.indexFile.content.nItems == once.1.indexFile.content.nItems
  {
    ConvertPreservesConsistency(store, imageFilename, first);
    var after1 := ConvertOutcome(store, imageFilename, true, first, NoFaults()).1;
    var slot: nat :| Get(after1.mapFile.content, Str(slot)) == Some(UserIdOf(imageFilename));
    var i :| 0 <= i < |after1.mapFile.content| && after1.mapFile.content[i] == (Str(slot), UserIdOf(imageFilename));
    assert UserIdOf(imageFilename) in Values(after1.mapFile.content);
    ReenrollKeepsMap(after1, imageFilename, second);
  }
}
