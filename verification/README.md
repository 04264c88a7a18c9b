# Face index bookkeeping, modelled in Dafny

This project models the bookkeeping of the face-recognition scripts. It covers how face vectors
are stored in an Annoy index, how index ids (slots) are tied to users, and how a nearest-neighbour
answer becomes a match or no match. Face detection, embeddings and Annoy's search are inputs.

There are three programs. Each shares the Annoy and dictionary models below.

- **convert.py** (modules `Convert`, `ConvertProperties`) enrolls one photo into the persisted
  index.
  - A loaded Annoy index is read-only, so every enrolment starts a fresh index.
  - It copies only the slots that an `id_map` key names for another user. Stored slots that no
    key names are dropped, and so is the enrolled user's own slot.
  - The user then gets a slot: the slot it already had, or `get_n_items()` of the fresh index.
  - Finally it saves the index together with `id_map` (slot key to user_id).
  - `load_id_map` rebuilds the reverse map `user_id_to_annoy_id` with a dict comprehension.
  - `save_annoy_index_and_map` skips the build and the index write when the index is empty.
- **app.py** (module `WebApp`) covers three pieces of `upload_photo`: the extension check, the
  `(None, None)` fallback of `load_annoy_index_and_map`, and the decision from the nearest
  neighbour. That decision turns Annoy's angular distance `d` into `1 - min(d², 2)/2` and
  requires at least 0.6.
- **app-command-line.py** (modules `CommandLine`, `CommandLineProperties`) keeps a global index,
  `face_names_mapping` and `next_id`.
  - Loading sets `next_id` to `max(keys) + 1`.
  - Each enrolment writes slot `next_id` and increments it.
  - Folder enrolment resets everything and tries each `.png`/`.jpg`/`.jpeg` file. Only a file in
    which a face is detected adds a vector. The index and the mapping are saved only when the
    index has items. The files are reloaded only when an accepted file was found; otherwise the
    database stays reset.
  - Identification matches at a Euclidean distance strictly below 0.6 and reports a clamped
    percentage.

Shared modules:

- `Dicts` models a Python dict as an insertion-ordered list of pairs. `Get` finds a key; `Put`
  replaces the value in place or appends the pair.
- `Decimal` models Python's `str(n)` and `int(s)` on slot keys.
- `Text` models `rfind`, `lower`, `endswith` and `os.path.splitext`.
- `Annoy` models the index as a map from ids to vectors plus `n_items`. `n_items` is one past the
  largest id ever added. The `AnnoyIndex` class holds the fields that `add_item` and `build`
  change.
- `Storage` models the two files of each program. A file is absent, unreadable (loading raises)
  or present. Whether each write raises is an input (`IoFaults`).

The imperative parts are Dafny methods, each proved against a specification function.

The convert.py methods are module-level methods of `Convert` that create or take an
`AnnoyIndex` object:

- the copy loop (`CopyExisting`);
- the save step (`SaveAnnoyIndexAndMap`);
- `convert_and_store_photo` (`ConvertAndStorePhoto`).

The command-line methods belong to the `FaceDatabase` class, whose fields are the tool's globals:

- `load_or_create_annoy_index` (`LoadOrCreate`);
- `enroll_face` (`EnrollFace`);
- the folder-enrolment loop (`EnrollFolder`);
- the per-frame identification loop (`IdentifyFaces`).

`RecognitionProperties` ties the two sides together. Over a consistent pair of files written by
convert.py, a close neighbour at a stored slot resolves in app.py to the user enrolled at that
slot, unless that user id is empty, and a recognised user is always one the reverse map sends back to the reported slot.

Where the two programs differ, each keeps its own constants. convert.py writes 128-dimensional
vectors, app.py declares a 512-dimensional index over the same files, and the command-line tool
uses 128 and the Euclidean metric.

## Model

| member | source | states |
|---|---|---|
| Decimal.ParseStr | convert.py:44 | `int(str(n)) == n` for every slot n ≥ 0, so a key written by `str` reads back as its slot |
| Decimal.StrInjective | convert.py:134 | distinct slots are written as distinct keys, and equal keys mean equal slots |
| Text.Splitext | convert.py:82 | `stem + ext` is the whole name; ext is empty or runs from the last dot, with no dot or `/` after it, and the stem's last path component has a non-dot character |
| Text.SplitextOfNamedFile | convert.py:82 | for a plain file name `name.e` (no `/`, name not all dots, e without dots) the user_id is `name` and the extension `.e` |
| Annoy.AnnoyIndex.AddItem | convert.py:131 | `add_item` succeeds exactly for a non-negative id and a vector of the index's dimension, overwriting that id and raising `n_items` to at least id+1; otherwise nothing changes |
| Annoy.DenseNItems | convert.py:126 | when the ids in use are exactly 0..n-1, `get_n_items()` is their number n |
| Annoy.CountedNItemsIsDense | convert.py:126 | conversely, when `get_n_items()` equals the number of stored items, the ids in use are exactly 0..n_items-1, so any gap makes it exceed the count |
| Annoy.ItemVector | convert.py:109 | `get_item_vector` raises exactly outside `0 <= id < n_items` and returns the stored vector for an added id |
| Convert.CopyFailureSticks | convert.py:102-117 | once an iteration of the copy loop raises, later entries change nothing: the loop has stopped |
| Convert.CopyExisting | convert.py:105-111 | the copy loop over `id_map` leaves the fresh index and the raise flag exactly as the specification `CopyLoop` says |
| Convert.SaveAnnoyIndexAndMap | convert.py:55-73 | status and files after the save are `SaveOutcome`'s; a non-empty index is built before it is saved, and the build does not change its content |
| Convert.ConvertAndStorePhoto | convert.py:75-148 | status and files after one enrolment are `ConvertOutcome`'s (photo check, copy phase, slot choice, map updates, save) |
| ConvertProperties.ReverseMapDefined | convert.py:44 | the comprehension raises exactly when some key is not an integer |
| ConvertProperties.ReverseMapKeys | convert.py:44 | the reverse map's users are exactly the users of `id_map`, each once |
| ConvertProperties.ReverseMapLookup | convert.py:44 | each user is sent to `int` of its key, the last entry winning for a repeated user |
| ConvertProperties.ReverseMapInverse | convert.py:41-44 | with distinct keys and users and keys written by `str`, `reverse[u] == s` iff `id_map[str(s)] == u` |
| ConvertProperties.LoadIdMapResult | convert.py:33-53 | a readable map with integer keys is returned with a reverse map over the same users; an absent or unreadable file, or a bad key, gives two empty maps |
| ConvertProperties.CopyLoopFromIndex | convert.py:105-111 | when every key names a stored vector, the loop does not raise and copies exactly the other users' slots, each with its old vector |
| ConvertProperties.CopyOfConsistent | convert.py:105-111 | from a consistent pair of files, the fresh index holds every stored id except the enrolled user's, with the stored vectors |
| ConvertProperties.CopyPhaseOfConsistent | convert.py:93-117 | from a consistent pair, loading and copying raise nothing and keep both maps |
| ConvertProperties.RebuildExistingUser | convert.py:121-135 | a known user keeps its slot; both maps come back unchanged; the index keeps its ids and `n_items` with only that slot's vector replaced |
| ConvertProperties.RebuildNewUser | convert.py:123-135 | a new user gets the old `n_items`, a key nobody holds; the map grows by exactly that entry and the reverse map gains the user |
| ConvertProperties.ConvertExistingUser | convert.py:121-144 | re-enrolment succeeds and saves the index with one vector replaced and the map unchanged |
| ConvertProperties.ConvertNewUser | convert.py:123-144 | a first enrolment succeeds and saves the index with the vector at `n_items` and the map with one entry appended |
| ConvertProperties.ConvertPreservesConsistency | convert.py:75-148 | from a consistent pair and without write faults, enrolment succeeds, leaves a consistent pair, gives the user a slot holding the new vector, keeps every other slot and user, and grows the map by one entry exactly for a new user |
| ConvertProperties.RebuildAgreement | convert.py:134-135 | for any files, after the update `id_map[str(slot)] == user_id` and `user_id_to_annoy_id[user_id] == slot` with the new vector at slot; the user is new iff unknown, and then slot is `n_items` of the fresh index; a known user keeps the slot the reverse map gave it |
| ConvertProperties.RebuildFailsOnlyOnBadVector | convert.py:131 | from a consistent pair, the final `add_item` raises exactly when the vector's length is not 128 |
| ConvertProperties.LostBaseStartsOver | convert.py:113-117 | when loading or copying the old index raises, both maps are cleared, so the user is new and the saved map holds only its entry |
| ConvertProperties.UnreadableIndexStartsOver | convert.py:113-126 | an unreadable index file gives a new index holding only the enrolled vector at slot 0, with key "0" |
| ConvertProperties.AbsentIndexKnownUser | convert.py:100-135 | with the index file missing and the map `{"5": "alice"}`, re-enrolling alice keeps slot 5, so the saved index has `n_items` 6 with slots 0-4 never added |
| ConvertProperties.AbsentIndexCollision | convert.py:100-135 | with the index file missing but the map present, a new user gets slot 0 and overwrites another user's key "0"; the reverse map then sends both users to 0 |
| ConvertProperties.CopyFailureKeepsOrphan | convert.py:105-117 | a key beyond the stored index makes the copy raise after slot 0 was copied; the maps are cleared and the saved index keeps a vector no key names |
| ConvertProperties.SaveOutcomeSpec | convert.py:55-73 | an empty index is never written; the map is written unless the index write raised; True exactly when no write raised; on False the map file is as before |
| ConvertProperties.ConvertResultMeaning | convert.py:85-148 | a missing photo changes nothing; False leaves the map file as it was; True leaves both files present with the user's key naming a slot that holds the new vector |
| ConvertProperties.FirstEnrollment | convert.py:120-144 | into empty storage, the first user gets slot 0 and key "0", and the resulting files are consistent |
| ConvertProperties.ReenrollKeepsMap | convert.py:121-135 | re-enrolling a known user from a consistent pair writes the map back unchanged and keeps the index's ids and `n_items` |
| ConvertProperties.ReenrollIsStable | convert.py:75-148 | enrolling the same photo name twice: the second run changes neither the map nor the set of ids |
| WebApp.AllowedFile | app.py:47-49 | true iff the name has a dot and the lower-cased text after its last dot is one of the seven extensions |
| WebApp.AllowedFileAccepts | app.py:47-49 | `photo.JPG` and `.png` are accepted |
| WebApp.AllowedFileRejects | app.py:47-49 | `png` (no dot) and `photo.png.exe` (last extension) are refused |
| WebApp.Similarity | app.py:169-170 | the similarity lies in [0, 1] |
| WebApp.SimilarityMonotone | app.py:169-170 | distance 0 gives similarity 1, and the similarity never grows with the distance |
| WebApp.MatchIffClose | app.py:174 | the similarity reaches 0.6 exactly when `d² <= 0.8` |
| WebApp.Decide | app.py:150-183 | with no items or no neighbour nothing is set; otherwise the raw distance is reported, and the slot, its user `id_map[str(id)]` and the similarity are recorded iff the similarity reaches 0.6; below it the similarity stays 0.0 |
| WebApp.DecisionBounds | app.py:150-179 | the reported similarity is 0.0 or between 0.6 and 1, and a match has `d² <= 0.8` |
| WebApp.LoadIndexAndMap | app.py:102-117 | both artifacts are returned iff both files exist and read; otherwise `(None, None)` |
| WebApp.UploadPhoto | app.py:121-225 | an empty file name, a refused extension, a missing embedding and missing or unreadable artifacts each give their own error response, and each exactly in its case, checked in that order |
| WebApp.UnmatchedUpload | app.py:147-222 | with both artifacts loaded: an empty index or no neighbour gives "not recognised" with 0.0 and no distance; below the threshold it gives 0.0 with the distance; a close neighbour whose key is missing or names an empty user id gives its similarity and distance |
| WebApp.MatchedUpload | app.py:147-211 | for any loaded store, a close neighbour whose key names a non-empty user id is recognised as that user, at that slot, with its similarity and distance |
| WebApp.RecognizedMeaning | app.py:120-189 | a recognition needs an allowed file, an embedding and both files; it names the non-empty user under `str` of the nearest slot, at a similarity at or above 0.6 |
| CommandLine.MaxKey | app-command-line.py:46 | `max(keys)` is one of the keys and at least every key |
| CommandLine.NextId | app-command-line.py:45-48 | `next_id` is above every id of the mapping, 0 for an empty mapping, and otherwise one past an id in use |
| CommandLine.FaceDatabase.LoadOrCreate | app-command-line.py:29-64 | True iff both files exist and read; the database is then the stored index (read-only), the mapping and `max(keys)+1`, and otherwise a fresh empty index, `{}` and 0 |
| CommandLine.FaceDatabase.EnrollFace | app-command-line.py:70-121 | True iff a face was found; after the optional reset, a success writes slot `next_id`, maps it to the name and increments `next_id`, and a failure changes nothing |
| CommandLine.FaceDatabase.EnrollFolder | app-command-line.py:250-280 | with no accepted file the database is left reset and nothing is written; otherwise the batch is saved when it has items, and the database is what reloading the files gives |
| CommandLine.BatchEnroll | app-command-line.py:256-263 | the batch never leaves `next_id` negative, never builds, and keeps the index well formed |
| CommandLine.FaceDatabase.IdentifyFaces | app-command-line.py:125-177 | one result per detected face, in order, each the per-face decision for its search answer |
| CommandLine.IdentifyOne | app-command-line.py:138-166 | the percentage lies in [0, 100]; a distance is reported iff the index has items and a neighbour was found; a positive percentage needs a distance below 0.6; an empty index gives "Database Kosong", no neighbour gives "Tidak Dikenal", and a distance of 0.6 or more gives "Tidak Dikenal (Jarak > Threshold)", each with percentage 0 and the distance as reported |
| CommandLine.Percentage | app-command-line.py:158-159 | the clamped percentage lies in [0, 100] |
| CommandLineProperties.EnrollKeepsIdsBelowNext | app-command-line.py:115-118 | while every id lies below `next_id`, an enrolment writes a slot and a key no one holds, appends to the mapping, and keeps the property, so slots are never reused |
| CommandLineProperties.LoadKeepsIdsBelowNext | app-command-line.py:45-48 | after a load of non-negative ids covering the stored slots, every id lies below `next_id`, and `next_id - 1` is in use |
| CommandLineProperties.BatchEnrollDense | app-command-line.py:256-263 | the k-th enrolled face gets id k: the mapping lists the names under 0, 1, 2, … in order, the index holds exactly those slots with their encodings, and `next_id` and `n_items` are the number of faces |
| CommandLineProperties.NextIdDense | app-command-line.py:45-48 | `max(keys) + 1` over the ids 0..n-1 is n |
| CommandLineProperties.ReloadAfterBatch | app-command-line.py:269-280 | when the batch enrolled a face, the reload restores exactly the batch, with `next_id` the number of faces |
| CommandLineProperties.EmptyBatchRestoresOld | app-command-line.py:265-280 | when no face could be enrolled, nothing is written, so the reload brings back the old files |
| CommandLineProperties.PercentageMonotone | app-command-line.py:154-162 | 100 at distance 0, never growing with the distance, positive exactly below 0.6 |
| CommandLineProperties.IdentifyMeaning | app-command-line.py:138-166 | below the threshold the name comes from the mapping (or the error text) with a positive percentage; otherwise the percentage is 0 and the name is one of the three "unknown" labels |
| RecognitionProperties.ConsistentStoreResolvesMatch | app.py:174-177 | over files convert.py left consistent, a close neighbour at a stored slot is recognised as the user enrolled there (unless that user id is empty), and the reverse map sends that user back to the slot |
| RecognitionProperties.RecognitionIsEnrolment | app.py:174-177 | over consistent files, a recognised user is an enrolled user whom the reverse map sends to the reported slot |

## Left out

- Face detection and embedding extraction (the random vectors of convert.py, FaceNet/MTCNN in
  app.py, face_recognition in the command-line tool). Embeddings and "photo exists / has a face"
  are inputs.
- Annoy's nearest-neighbour search and trees. The search answer is an input. `build` is a flag,
  and the number of trees is irrelevant to the bookkeeping.
- File formats and file-system calls (JSON, pickle, `.ann`, `os.path.exists`, `makedirs`,
  `listdir`). Each file is absent, unreadable or present. A folder listing is a sequence of
  (file name, photo) pairs in `listdir` order. The original's listing order is unspecified.
- The save step: partial writes (a map file truncated by a raising `json.dump`) are not modelled.
  A failed write leaves that file as it was.
- `CommandLine.FaceDatabase.EnrollFolder` assumes that the batch's `build`, `save` and
  `pickle.dump` do not raise. The original does not catch those exceptions, and the tool would
  stop.
- `CommandLine.FaceDatabase.EnrollFace` requires three things: a non-negative `next_id`,
  128-long encodings, and, unless it resets first, an index that is not loaded or built. The
  original lets `add_item` raise uncaught otherwise. The last case is Annoy's "You can't add an
  item to a loaded index". The only call site (the folder enrolment) runs after the reset, so
  all three hold there.
- Flask routing and request handling, uploaded-file saving and removal, and the SQLite profile
  lookup of app.py (lines 185-237). `WebApp.UploadPhoto` stops at "a truthy user id was matched".
  Whether a profile row exists (200 versus 404) is not modelled.
- init_db.py and watcher.py. watcher.py would pass new .png/.jpg/.jpeg names to convert.py. It
  first calls a method its handler does not define (watcher.py:27), so it raises before launching
  anything. Its call also passes two arguments (watcher.py:32), which would only make convert.py
  print its usage text (convert.py:169-173).
- The bulk loop of convert.py's `__main__` (convert.py:157-168). It calls the modelled
  `convert_and_store_photo` for each listed file whose lower-cased name ends in one of
  `IMAGE_EXTENSIONS` (convert.py:164), and only counts successes.
- The interactive menu, the webcam loop and the OpenCV drawing of app-command-line.py.
  `identify_face_from_file` is also left out: it only reads a file and calls the modelled
  per-frame identification.
- Floating point. Distances, similarities and percentages are exact reals, and 0.6 is exactly
  3/5. `float('inf')` is a separate `Infinite` value.
- `str.lower` is modelled for ASCII letters only. For the extension checks this is exact: the
  only non-ASCII character that lower-cases to an ASCII letter is the Kelvin sign (to `k`), and
  no extension contains `k`.
- `Annoy.AnnoyIndex.AddItem` and `Annoy.CanAdd` accept any non-negative id, since the model's ids are
  unbounded integers. Annoy's Python binding reads an id as a C `int`, so `add_item` with an id of 2^31 or more raises `OverflowError`. For example, with no index
  file and the map `{"3000000000": "alice"}`, enrolling `alice.png` returns False in convert.py
  (the raise at line 131 is caught at line 146). The model instead succeeds with
  `n_items` 3000000001. The same applies to a `next_id` of 2^31 or more in the command-line tool.
- `int(k)` accepts an optional sign and ASCII digits. The surrounding whitespace, underscores and
  non-ASCII digits that Python also accepts are not modelled.
- app.py declares a 512-dimensional index, while convert.py writes 128-dimensional vectors to
  the same file. Annoy's behaviour when the dimensions disagree is not modelled. The app side
  treats the loaded content as given.
