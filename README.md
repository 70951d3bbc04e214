# Face-recognition surveillance core, modelled in Dafny

The system watches an ESP32-CAM stream. For every frame it finds faces, labels each one with the name of
the first authorized person within distance 0.5 or as "Intruso", and records an intruder
(snapshot, store row, in-memory ledger entry) unless one within distance 0.6 is already on record.
It draws the boxes and labels, and yields the frame as one part of a
`multipart/x-mixed-replace` JPEG response. The engine keeps its state in four module globals:
- the authorized names and embeddings, as two parallel lists;
- the intruder ledger;
- the `camera_active` flag.

Embeddings are stored in the database as the hex text of their float64 buffer.

The model has these modules:

- `EmbeddingCodec` (codec.dfy): `embedding_to_hex` / `hex_to_embedding`.
  - `bytes.fromhex` succeeds and fails exactly as CPython's does: ASCII whitespace is skipped before each
    byte pair, and digits of either case are accepted.
  - `np.frombuffer(..., float64)` succeeds exactly when the byte count is a multiple of 8.
  - The error payloads (`NonHexDigit(position)`, `BufferNotWholeElements(size)`) are the model's own.
    CPython reports the first non-ASCII character's index instead, and numpy's error carries no count.
    The engine swallows both exceptions, so it never sees either payload.
  - An embedding is an opaque byte buffer of whole 8-byte elements.
- `Matching` (matching.dfy): the two tolerances and the numpy broadcast rule under which `face_distance` succeeds.
  - The first-match classification of a face.
  - The "already recorded" test of `save_intruso_if_new`.
- `Annotation` (annotation.dfy): the doubled boxes and the rectangle and label drawn per face.
  - A frame is the image read plus the marks drawn on it.
  - The multipart framing of each chunk.
- `Clock` (clock.dfy): the two `strftime` formats and the intruder snapshot name.
- `Store` (store.dfy): the rows the store lists, what a reference photo yields, and the writes the engine makes.
- `Caches` (caches.dfy): the authorized registry and the intruder ledger as functions of the rows.
  - Also the cache-fill write-backs, and `save_intruso_if_new` as a function of the ledger.
- `Session` (session.dfy): one frame's per-face loop and the whole `while camera_active` loop over a scripted run.
  - Each turn of the script says whether `stop_camera` ran since the flag was last tested, what
    `cap.read()` returned, and the clock reading.
- `Reconocimiento` (reconocimiento.dfy): class `Recognizer`, holding the four globals plus a log of writes.
  - It has one method per engine function, with the `for` and `while` loops of the source.
  - Each method is proved to leave exactly the state the `Caches` and `Session` functions describe.

Behaviour of the code worth noting (the model follows it):
- An exception from `face_locations` / `face_encodings` is not caught in `gen_frames`. The generator
  ends (`End.Raised`) and the `finally` block clears the flag; it is not treated as "no faces".
- An exception from `compare_faces` ends the session the same way.
- When the stream does not open, `gen_frames` returns before its `try`, so `camera_active` keeps its
  previous value rather than being cleared. Both caches have already been reloaded at that point.
- The flag is set after the open. A stop requested while the caches reload is overwritten and lost.
- `bytes.fromhex` skips whitespace, so an odd-length text such as `" " + hex` can decode.
  - "Odd length fails" holds only for whitespace-free text (`DecodeSucceedsIff`).
- `if name:` treats an authorized person with an empty name like no match: the face is an intruder.
- A `face_distance` exception in `save_intruso_if_new` is swallowed, so the face is recorded anyway.
  The grown ledger keeps raising, so the same face is recorded on every later call.

## Model

| member | source | states |
|---|---|---|
| EmbeddingCodec.ToHex | reconocimiento.py:25-26 | two hex digits per byte, none of them whitespace |
| EmbeddingCodec.EmbeddingToHex | reconocimiento.py:25-26 | the hex text has 16 characters per float64 element |
| EmbeddingCodec.FromHex | reconocimiento.py:29 | no contract: `bytes.fromhex`; its properties are in FromHexToHex, FromHexPlain, LeadingSpaceIgnored and NonHexCharacterFails |
| EmbeddingCodec.HexToEmbedding | reconocimiento.py:28-29 | no contract: the decode; its properties are in RoundTrip, DecodeSucceedsIff, NonHexCharacterFails and PartialElementFails |
| EmbeddingCodec.FromHexToHex | reconocimiento.py:25-29 | `bytes.fromhex` gives back exactly the bytes `hex()` wrote |
| EmbeddingCodec.RoundTrip | reconocimiento.py:25-29 | decoding an encoded embedding gives the same embedding |
| EmbeddingCodec.LeadingSpaceIgnored | reconocimiento.py:28-29 | an odd-length text (a space before valid hex) still decodes to the embedding |
| EmbeddingCodec.FromHexPlain | reconocimiento.py:29 | on whitespace-free text, `fromhex` succeeds iff the length is even and every character is a hex digit; it then gives half as many bytes |
| EmbeddingCodec.DecodeSucceedsIff | reconocimiento.py:28-29 | on whitespace-free text, decoding succeeds iff every character is a hex digit and the length is a multiple of 16 |
| EmbeddingCodec.NonHexCharacterFails | reconocimiento.py:28-29 | a character that is neither a hex digit nor whitespace makes decoding fail |
| EmbeddingCodec.PartialElementFails | reconocimiento.py:29 | a byte count that is not a multiple of 8 makes `frombuffer` fail (the size in the error is the model's own) |
| Matching.GrownLedgerBroadcastsIff | reconocimiento.py:87 | a ledger grown by the probe is comparable with it iff every earlier entry has the probe's element count |
| Matching.MixedShapesRaise | reconocimiento.py:87 | references with two different element counts make `face_distance` raise, whatever the probe |
| Matching.FirstWithin | reconocimiento.py:134-135 | the index found is the first whose distance is within tolerance; none is found iff all are beyond it |
| Matching.ClassifyFace | reconocimiento.py:131-142 | raises iff the registry is non-empty and does not broadcast; an authorized label is the non-empty name at the first match; an intruder label means every first match has an empty name |
| Matching.AlreadyRecorded | reconocimiento.py:85-89 | no contract: the duplicate test (a non-empty, broadcastable ledger with a distance at most 0.6); its properties are in SecondSaveIsDuplicate, UnbroadcastableLedgerRecordsAgain, SaveKeepsNovel and NovelEntriesAreDistinct |
| Matching.ToleranceIsInclusive | reconocimiento.py:133-136 | a first reference at distance exactly 0.5 with a name matches |
| Matching.EmptyRegistryNeverMatches | reconocimiento.py:131-142 | with no authorized embeddings every face is an intruder |
| Matching.FirstMatchUnique | reconocimiento.py:134-135 | the first-match tie-break selects a single index |
| Matching.AuthorizedIff | reconocimiento.py:131-142 | the converse of ClassifyFace: the first match's name labels the face when non-empty, and otherwise the face is an intruder |
| Annotation.ToFullFrame | reconocimiento.py:145-146 | every drawn coordinate halves back to the detected one; the drawn box is twice as tall and wide |
| Annotation.FaceMarks | reconocimiento.py:145-148 | no contract: the rectangle over the doubled box and the label at (left, top-10), scale 0.8, thickness 2; its properties are in ToFullFrame and FrameCarriesDetectionMarks |
| Annotation.DrawFace | reconocimiento.py:147-148 | no contract: `cv2.rectangle` then `cv2.putText` on the frame; its properties are in FrameCarriesDetectionMarks |
| Annotation.HeaderBytesSpellPartHeader | reconocimiento.py:154 | the header bytes are the characters of `--frame\r\nContent-Type: image/jpeg\r\n\r\n` |
| Annotation.Chunk | reconocimiento.py:154 | no contract: header, JPEG bytes, CRLF; its properties are in ChunkFraming |
| Annotation.ChunkFraming | reconocimiento.py:153-154 | every chunk starts with the part header and ends with CRLF; its payload is exactly the JPEG bytes |
| Clock.Digits | reconocimiento.py:92 | zero-padded fields have exactly their width |
| Clock.CompactStamp | reconocimiento.py:92 | `%Y%m%d_%H%M%S` is 15 characters with `_` at index 8 |
| Clock.ReadableStamp | reconocimiento.py:97 | `%Y-%m-%d %H:%M:%S` is 19 characters with its separators at indices 4, 7, 10, 13 and 16 |
| Clock.IntrusoFilename | reconocimiento.py:92 | the snapshot name is 27 characters long |
| Clock.DigitsInjective | reconocimiento.py:92 | zero-padded digits of numbers that fit the width determine the number |
| Clock.FilenameCollisionIff | reconocimiento.py:92 | two snapshot names coincide iff they were taken in the same second |
| Caches.RowSource | reconocimiento.py:39-62 | no contract: a decodable stored hex, else the photo's first face, else nothing; its properties are in StoredRowsIgnorePhotos, RefreshedRowStored and EnrolledIff |
| Caches.AuthEntries | reconocimiento.py:33-62 | no contract: the registry after a reload, in row order; its properties are in EnrolledIff, NoRowLostIff and ReloadAfterWriteBackIsStable |
| Caches.WriteBacks | reconocimiento.py:55-58 | no contract: the embedding write-backs of a reload, in row order; its properties are in StoredRowsIgnorePhotos and ReloadAfterWriteBackIsStable |
| Caches.ContributionIff | reconocimiento.py:40-58 | a row adds a person iff it carries that name and yields that embedding |
| Caches.EnrolledFromRow | reconocimiento.py:36-62 | every registry entry comes from a row with that name yielding that embedding |
| Caches.RowEnrolled | reconocimiento.py:36-62 | every row that yields an embedding has its name and embedding in the registry |
| Caches.EnrolledIff | reconocimiento.py:36-62 | a (name, embedding) pair is in the registry iff some row with that name yields that embedding, from its stored hex or from its photo |
| Caches.NoRowLostIff | reconocimiento.py:36-62 | the registry has at most one entry per row, and exactly one per row iff no row is omitted |
| Caches.StoredRowsIgnorePhotos | reconocimiento.py:40-45 | when every stored hex decodes, the photos are never consulted and nothing is written back |
| Caches.RefreshedRowStored | reconocimiento.py:48-58 | after its write-back, a row whose embedding was computed from its photo yields it from the store |
| Caches.ReloadAfterWriteBackIsStable | reconocimiento.py:31-62 | once the write-backs reach the store, a second reload gives the same registry and writes nothing |
| Caches.Ledger | reconocimiento.py:64-75 | no contract: the ledger after a reload, in row order; its properties are in LedgerIff and LedgerCons |
| Caches.LedgerIff | reconocimiento.py:64-75 | an embedding is in the reloaded ledger iff some row's non-empty hex decodes to it |
| Caches.LedgerCons | reconocimiento.py:68-73 | the rows listed first contribute first |
| Caches.SaveIntruso | reconocimiento.py:83-101 | no contract: the record-if-novel step; its properties are in SecondSaveIsDuplicate, UnbroadcastableLedgerRecordsAgain, RecordedIntruderReloads, SaveKeepsNovel and NovelEntriesAreDistinct |
| Caches.SecondSaveIsDuplicate | reconocimiento.py:85-101 | right after a face is recorded or found recorded, offering it again returns None and changes nothing (given distance 0 to itself and recorded embeddings of its element count) |
| Caches.UnbroadcastableLedgerRecordsAgain | reconocimiento.py:85-91 | when `face_distance` raises, the face is recorded anyway and the grown ledger still raises |
| Caches.RecordedIntruderReloads | reconocimiento.py:95-100 | the hex a save writes to the store reloads as the very embedding appended to the ledger |
| Session.AnnotateFace | reconocimiento.py:131-148 | no contract: one detection classified, recorded if an intruder, and drawn; its properties are in FaceStep, OnlyIntrudersAreRecorded and FrameCarriesDetectionMarks |
| Session.AnnotateFaces | reconocimiento.py:130-148 | the per-face loop keeps the image; the ledger and the writes only grow, by at most one entry per face; the marks only grow, two per face when nothing raises |
| Session.OnlyIntrudersAreRecorded | reconocimiento.py:137-143 | an authorized face changes neither ledger nor writes; an intruder changes them exactly as `save_intruso_if_new` does, with the frame as drawn so far |
| Session.FrameCarriesDetectionMarks | reconocimiento.py:130-148 | without an exception the frame carries exactly each face's doubled box and label, in detection order, whatever the ledger holds |
| Session.SaveKeepsNovel | reconocimiento.py:83-101 | a save appends only an embedding that was novel against the ledger at that moment |
| Session.AnnotateKeepsNovel | reconocimiento.py:130-143 | over one frame, every ledger append was novel when made |
| Session.Emit | reconocimiento.py:150-154 | no contract: a failed encode skips the frame, a successful one yields its chunk; its properties are in EmitFramed and TurnYieldsEncodedFrame |
| Session.EmitFramed | reconocimiento.py:150-154 | a framed list of chunks stays framed after a frame is emitted or skipped |
| Session.Turn | reconocimiento.py:116-154 | a stop request or failed read ends the loop before anything is read or drawn; a turn yields at most one chunk; the ledger and writes only grow |
| Session.ComparableFacesNeverRaise | reconocimiento.py:130-136 | when every face is comparable with the registry, the per-face loop raises nothing |
| Session.TurnYieldsEncodedFrame | reconocimiento.py:150-154 | a turn that reads a frame whose faces are all comparable with the registry goes on, and yields exactly the chunk of the encoded annotated frame, or nothing when `imencode` fails |
| Session.Loop | reconocimiento.py:116-154 | the session yields at most one chunk per turn, never ends as an open failure, and only grows the ledger and the writes |
| Session.TurnFramed | reconocimiento.py:150-154 | a turn keeps every yielded chunk framed |
| Session.ChunksFramed | reconocimiento.py:116-154 | every chunk of a session is a framed multipart part |
| Session.NothingAfterStopOrFailedRead | reconocimiento.py:118-122 | once a turn finds a stop request or failed read, later turns are never looked at and at most one chunk per earlier turn was yielded |
| Session.TurnKeepsNovel | reconocimiento.py:119-143 | a turn appends to the ledger only novel faces |
| Session.LoopKeepsNovel | reconocimiento.py:116-154 | over a whole session every ledger append was novel when made |
| Session.NovelEntriesAreDistinct | reconocimiento.py:85-100 | with a zero self-distance and uniform element counts, no face is recorded twice |
| Reconocimiento.Recognizer.constructor | reconocimiento.py:18-23 | the engine starts with empty caches, the camera off and nothing written |
| Reconocimiento.Recognizer.LoadAutorizado | reconocimiento.py:37-62 | one row appends its stored-or-computed embedding under its name, or nothing; only a computed one is written back |
| Reconocimiento.Recognizer.LoadAutorizadosCache | reconocimiento.py:31-62 | the parallel lists are rebuilt to exactly the registry of the rows; the writes are those write-backs |
| Reconocimiento.Recognizer.LoadIntrusosCache | reconocimiento.py:64-75 | the ledger is replaced by exactly the reloaded ledger of the rows |
| Reconocimiento.Recognizer.InitializeCaches | reconocimiento.py:77-81 | both caches are rebuilt from the rows |
| Reconocimiento.Recognizer.SaveIntrusoIfNew | reconocimiento.py:83-101 | the ledger, writes and returned name are exactly those of the record-if-novel step |
| Reconocimiento.Recognizer.AnnotateFrame | reconocimiento.py:130-148 | the per-face loop leaves exactly the ledger, writes and frame of the per-face function, and reports whether a face raised |
| Reconocimiento.Recognizer.StopCamera | reconocimiento.py:103-105 | the flag is cleared |
| Reconocimiento.Recognizer.GenFrames | reconocimiento.py:107-160 | the caches are reloaded first; an unopened stream yields nothing and keeps the flag; otherwise the chunks, end, ledger and writes are exactly those of the session loop, and the flag is cleared |

## Left out

- Flask routes, login, uploads and templates (`app.py`), the SQLite statements (`database.py`) and the browser script:
  these are request plumbing.
  - The store is modelled as the sequences of rows it lists, newest first.
  - Its writes are appended to a log; whether they succeed is never observed by the engine.
- The face library and OpenCV are parameters.
  - The detector is a function from the image read to its detections, or a failure. It pairs each box with
    its encoding, so `zip`'s truncation of unequal lists is inside it.
  - The metric is a function from two embeddings to a real.
  - The JPEG encoder is a function from the annotated frame to bytes, or a failure.
  - Reference photos map a file name to absent, unreadable, or the encodings found.
  - Float arithmetic, the resize and the colour-channel flip are not modelled; pixel drawing is recorded as marks.
- Caches.SaveIntruso: the two `datetime.now()` calls (snapshot name and record timestamp) read one clock
  value per loop turn, so a save that straddles a second boundary is not modelled.
- Clock.ValidDateTime: only years 1000-9999 are modelled, where `%Y` gives four digits.
- `os.makedirs`, `cap.release()` and the log `print`s: they do not change the modelled state.
- Threading: `stop_camera` running in another thread is modelled as a per-turn flag.
  - The flag means that `stop_camera` ran since the loop last tested `camera_active`.
  - Data races and the generator being closed by its consumer are not modelled.
- Session.Loop: cache reloads that web requests trigger while a session streams are not modelled.
  The registry stays fixed for the session, and the ledger changes only through the session's own
  appends. In the program, a reload can change the registry between frames, and deleting an intruder
  shrinks the ledger. A reload landing between the two paired appends can leave the parallel lists of
  unequal length, so the name lookup raises. Two raises are also not modelled; each would end the
  session through its `finally`: `cv2.imwrite` raising, and `cv2.imencode` raising instead of returning False.
- Reconocimiento.Recognizer.GenFrames: a raise from the store listing is not modelled. It happens in
  `initialize_caches`, before the stream is opened and outside the `try`. So `gen_frames` would end before
  any session begins: nothing is yielded, `finally` does not run, the flag keeps its value, and an
  authorized listing failure leaves the two authorized lists emptied.
- Session.Loop: reading past the end of a scripted run counts as a failed read, so every modelled session is finite.
- Matching.FaceDistances: numpy's behaviour on ragged reference lists (different element counts) is modelled
  as a failure, which is what recent numpy versions do.
