/**
 * The two in-memory caches as functions of what the store lists: the
 * authorized registry (parallel names and embeddings) with its
 * cache-fill-on-miss write-backs, and the intruder ledger with the
 * record-if-novel step that grows it.
 */
module Caches {

  import opened Wrappers
  import opened EmbeddingCodec
  import opened Matching
  import opened Annotation
  import opened Clock
  import opened Store

  // ---------------------------------------------------------------------------
  // Authorized registry

  /** Where a row's matchable embedding comes from, in the order the reload tries. */
  datatype Source = Stored(encoding: Embedding) | Computed(encoding: Embedding) | Omitted

  /**
   * A stored hex that decodes is used as is; otherwise the first face found in
   * the reference photo is used; otherwise the row is left out.
   */
  function RowSource(r: AuthRow, photos: ReferencePhotos): Source {
    if HasHex(r.embeddingHex) && HexToEmbedding(r.embeddingHex.value).Ok? then
      Stored(HexToEmbedding(r.embeddingHex.value).value)
    else
      match photos(r.filename)
      case Faces(encs) => if |encs| > 0 then Computed(encs[0]) else Omitted
      case _ => Omitted
  }

  /** One matchable authorized person: index i of both cache lists. */
  datatype Enrolled = Enrolled(name: string, encoding: Embedding)

  function Contribution(r: AuthRow, photos: ReferencePhotos): seq<Enrolled> {
    match RowSource(r, photos)
    case Stored(e) => [Enrolled(r.nombre, e)]
    case Computed(e) => [Enrolled(r.nombre, e)]
    case Omitted => []
  }

  /** The registry after a reload from `rows`, in row order. */
  function AuthEntries(rows: seq<AuthRow>, photos: ReferencePhotos): seq<Enrolled> {
    if rows == [] then []
    else AuthEntries(rows[..|rows| - 1], photos) + Contribution(rows[|rows| - 1], photos)
  }

  function WriteBack(r: AuthRow, photos: ReferencePhotos): seq<Effect> {
    match RowSource(r, photos)
    case Computed(e) => [UpdateEmbedding(r.id, EmbeddingToHex(e))]
    case _ => []
  }

  /** The embedding write-backs a reload makes, in row order. */
  function WriteBacks(rows: seq<AuthRow>, photos: ReferencePhotos): seq<Effect> {
    if rows == [] then []
    else WriteBacks(rows[..|rows| - 1], photos) + WriteBack(rows[|rows| - 1], photos)
  }

  /** One reload step: the row after a prefix adds its contribution and its write-back. */
  lemma PrefixStep(rows: seq<AuthRow>, photos: ReferencePhotos, i: nat)
    requires i < |rows|
    ensures AuthEntries(rows[..i + 1], photos) == AuthEntries(rows[..i], photos) + Contribution(rows[i], photos)
    ensures WriteBacks(rows[..i + 1], photos) == WriteBacks(rows[..i], photos) + WriteBack(rows[i], photos)
  {
    assert rows[..i + 1][..i] == rows[..i];
  }

  /** The two parallel cache lists hold exactly `entries`, index by index. */
  predicate Unzips(entries: seq<Enrolled>, names: seq<string>, encs: seq<Embedding>) {
    |names| == |encs| == |entries| &&
    forall i :: 0 <= i < |entries| ==> entries[i] == Enrolled(names[i], encs[i])
  }

  lemma UnzipsAppend(entries: seq<Enrolled>, names: seq<string>, encs: seq<Embedding>, n: string, e: Embedding)
    requires Unzips(entries, names, encs)
    ensures Unzips(entries + [Enrolled(n, e)], names + [n], encs + [e])
  {
  }

  /** A row yields embedding e, from the store or from its photo. */
  predicate Yields(r: AuthRow, photos: ReferencePhotos, e: Embedding) {
    RowSource(r, photos) == Stored(e) || RowSource(r, photos) == Computed(e)
  }

  /** A row contributes a person exactly when it carries that name and yields that embedding. */
  lemma ContributionIff(r: AuthRow, photos: ReferencePhotos, n: string, e: Embedding)
    ensures Enrolled(n, e) in Contribution(r, photos) <==> r.nombre == n && Yields(r, photos, e)
  {
  }

  /** Nothing is invented: a registry entry comes from a row with that name yielding that embedding. */
  lemma {:induction false} EnrolledFromRow(rows: seq<AuthRow>, photos: ReferencePhotos, n: string, e: Embedding)
    requires Enrolled(n, e) in AuthEntries(rows, photos)
    ensures exists j :: 0 <= j < |rows| && rows[j].nombre == n && Yields(rows[j], photos, e)
  {
    var front, last := rows[..|rows| - 1], rows[|rows| - 1];
    assert AuthEntries(rows, photos) == AuthEntries(front, photos) + Contribution(last, photos);
    if Enrolled(n, e) in AuthEntries(front, photos) {
      EnrolledFromRow(front, photos, n, e);
      var j :| 0 <= j < |front| && front[j].nombre == n && Yields(front[j], photos, e);
      assert rows[j] == front[j];
    } else {
      ContributionIff(last, photos, n, e);
      assert rows[|rows| - 1] == last;
    }
  }

  /** No yielding row is lost: row j's name and embedding are in the registry. */
  lemma {:induction false} RowEnrolled(rows: seq<AuthRow>, photos: ReferencePhotos, j: nat, e: Embedding)
    requires j < |rows| && Yields(rows[j], photos, e)
    ensures Enrolled(rows[j].nombre, e) in AuthEntries(rows, photos)
  {
    var front, last := rows[..|rows| - 1], rows[|rows| - 1];
    assert AuthEntries(rows, photos) == AuthEntries(front, photos) + Contribution(last, photos);
    if j < |front| {
      assert front[j] == rows[j];
      RowEnrolled(front, photos, j, e);
    } else {
      ContributionIff(last, photos, rows[j].nombre, e);
    }
  }

  /**
   * A person is in the registry exactly when some row with that name yields
   * that embedding: nothing is invented and no yielding row is lost.
   */
  lemma EnrolledIff(rows: seq<AuthRow>, photos: ReferencePhotos, n: string, e: Embedding)
    ensures Enrolled(n, e) in AuthEntries(rows, photos) <==>
            exists j :: 0 <= j < |rows| && rows[j].nombre == n && Yields(rows[j], photos, e)
  {
    if Enrolled(n, e) in AuthEntries(rows, photos) {
      EnrolledFromRow(rows, photos, n, e);
    }
    if exists j :: 0 <= j < |rows| && rows[j].nombre == n && Yields(rows[j], photos, e) {
      var j :| 0 <= j < |rows| && rows[j].nombre == n && Yields(rows[j], photos, e);
      RowEnrolled(rows, photos, j, e);
    }
  }

  /** The registry has one entry per row, exactly when no row is omitted. */
  lemma {:induction false} NoRowLostIff(rows: seq<AuthRow>, photos: ReferencePhotos)
    ensures |AuthEntries(rows, photos)| <= |rows|
    ensures |AuthEntries(rows, photos)| == |rows| <==> forall j :: 0 <= j < |rows| ==> !RowSource(rows[j], photos).Omitted?
  {
    if rows != [] {
      var front := rows[..|rows| - 1];
      assert AuthEntries(rows, photos) == AuthEntries(front, photos) + Contribution(rows[|rows| - 1], photos);
      NoRowLostIff(front, photos);
      if forall j :: 0 <= j < |rows| ==> !RowSource(rows[j], photos).Omitted? {
        forall j | 0 <= j < |front| ensures !RowSource(front[j], photos).Omitted? {
          assert front[j] == rows[j];
        }
      }
    }
  }

  /**
   * When every row carries a stored embedding that decodes, the reference
   * photos are never consulted and nothing is written back.
   */
  lemma {:induction false} StoredRowsIgnorePhotos(rows: seq<AuthRow>, photos: ReferencePhotos, other: ReferencePhotos)
    requires forall j :: 0 <= j < |rows| ==> HasHex(rows[j].embeddingHex) && HexToEmbedding(rows[j].embeddingHex.value).Ok?
    ensures AuthEntries(rows, photos) == AuthEntries(rows, other)
    ensures WriteBacks(rows, photos) == []
  {
    if rows != [] {
      var front := rows[..|rows| - 1];
      assert forall j :: 0 <= j < |front| ==> front[j] == rows[j];
      StoredRowsIgnorePhotos(front, photos, other);
    }
  }

  /** The row as the store holds it after the reload's write-back. */
  function Refresh(r: AuthRow, photos: ReferencePhotos): AuthRow {
    match RowSource(r, photos)
    case Computed(e) => r.(embeddingHex := Some(EmbeddingToHex(e)))
    case _ => r
  }

  function Refreshed(rows: seq<AuthRow>, photos: ReferencePhotos): (s: seq<AuthRow>)
    ensures |s| == |rows|
  {
    if rows == [] then [] else Refreshed(rows[..|rows| - 1], photos) + [Refresh(rows[|rows| - 1], photos)]
  }

  /** The photos yield only non-empty embeddings (a face encoding is never zero-length). */
  predicate NonEmptyFaces(rows: seq<AuthRow>, photos: ReferencePhotos) {
    forall j :: 0 <= j < |rows| ==>
      (photos(rows[j].filename).Faces? ==> forall k :: 0 <= k < |photos(rows[j].filename).encodings| ==> |photos(rows[j].filename).encodings[k]| > 0)
  }

  lemma RefreshedRowStored(r: AuthRow, photos: ReferencePhotos)
    requires NonEmptyFaces([r], photos)
    ensures RowSource(Refresh(r, photos), photos) ==
            match RowSource(r, photos) case Computed(e) => Stored(e) case s => s
  {
    match RowSource(r, photos)
    case Computed(e) =>
      assert [r][0] == r;
      RoundTrip(e);
    case _ =>
  }

  /**
   * Cache fill on miss: once the write-backs of a reload have reached the
   * store, the next reload gives the same registry and writes nothing back.
   */
  lemma {:induction false} ReloadAfterWriteBackIsStable(rows: seq<AuthRow>, photos: ReferencePhotos)
    requires NonEmptyFaces(rows, photos)
    ensures AuthEntries(Refreshed(rows, photos), photos) == AuthEntries(rows, photos)
    ensures WriteBacks(Refreshed(rows, photos), photos) == []
  {
    if rows != [] {
      var front, last := rows[..|rows| - 1], rows[|rows| - 1];
      assert NonEmptyFaces(front, photos) by {
        assert forall j :: 0 <= j < |front| ==> front[j] == rows[j];
      }
      assert NonEmptyFaces([last], photos);
      ReloadAfterWriteBackIsStable(front, photos);
      RefreshedRowStored(last, photos);
      var refreshed := Refreshed(rows, photos);
      assert refreshed[..|refreshed| - 1] == Refreshed(front, photos);
      assert refreshed[|refreshed| - 1] == Refresh(last, photos);
    }
  }

  // ---------------------------------------------------------------------------
  // Intruder ledger

  /** The decoded embedding of an intruder row, when it has a hex that decodes. */
  function LedgerEntry(r: IntrusoRow): seq<Embedding> {
    if HasHex(r.embeddingHex) && HexToEmbedding(r.embeddingHex.value).Ok? then
      [HexToEmbedding(r.embeddingHex.value).value]
    else []
  }

  /** The ledger after a reload from `rows`, in row order. */
  function Ledger(rows: seq<IntrusoRow>): seq<Embedding> {
    if rows == [] then [] else Ledger(rows[..|rows| - 1]) + LedgerEntry(rows[|rows| - 1])
  }

  predicate Decodes(r: IntrusoRow, e: Embedding) {
    HasHex(r.embeddingHex) && HexToEmbedding(r.embeddingHex.value) == Ok(e)
  }

  /** An embedding is in the reloaded ledger exactly when some row's hex decodes to it. */
  lemma {:induction false} LedgerIff(rows: seq<IntrusoRow>, e: Embedding)
    ensures e in Ledger(rows) <==> exists j :: 0 <= j < |rows| && Decodes(rows[j], e)
  {
    if rows != [] {
      var front := rows[..|rows| - 1];
      LedgerIff(front, e);
      if exists j :: 0 <= j < |front| && Decodes(front[j], e) {
        var j :| 0 <= j < |front| && Decodes(front[j], e);
        assert rows[j] == front[j];
      }
      if exists j :: 0 <= j < |rows| && Decodes(rows[j], e) {
        var j :| 0 <= j < |rows| && Decodes(rows[j], e);
        if j < |front| {
          assert front[j] == rows[j];
        }
      }
    }
  }

  /** A row listed before the others contributes first. */
  lemma {:induction false} LedgerCons(r: IntrusoRow, rows: seq<IntrusoRow>)
    ensures Ledger([r] + rows) == LedgerEntry(r) + Ledger(rows)
  {
    if rows == [] {
      assert ([r] + rows)[..0] == [];
    } else {
      var all := [r] + rows;
      assert all[..|all| - 1] == [r] + rows[..|rows| - 1];
      LedgerCons(r, rows[..|rows| - 1]);
    }
  }

  // ---------------------------------------------------------------------------
  // Recording an intruder if novel

  /** The state save_intruso_if_new leaves and what it returns. */
  datatype Saved = Saved(ledger: seq<Embedding>, writes: seq<Effect>, filename: Option<string>)

  /**
   * save_intruso_if_new: nothing when the face is already recorded; otherwise
   * the snapshot is written, the record is added (whether the store accepts
   * it or not), the embedding is appended to the ledger and the snapshot name
   * is returned.
   */
  function SaveIntruso(ledger: seq<Embedding>, writes: seq<Effect>, snapshot: Frame, enc: Embedding,
                       dist: DistanceFn, now: Timestamp): Saved {
    if AlreadyRecorded(ledger, enc, dist) then Saved(ledger, writes, None)
    else
      var fname := IntrusoFilename(now);
      Saved(ledger + [enc],
            writes + [WriteImage(IntrusosDir + "/" + fname, snapshot),
                      AddIntruso(fname, ReadableStamp(now), EmbeddingToHex(enc))],
            Some(fname))
  }

  /**
   * Deduplication: right after an intruder is recorded (or found recorded), the
   * same embedding is found recorded and changes nothing. This needs the
   * distance of an embedding to itself to be 0 and every recorded embedding to
   * have its element count.
   */
  lemma SecondSaveIsDuplicate(ledger: seq<Embedding>, writes: seq<Effect>, snap1: Frame, snap2: Frame,
                              enc: Embedding, dist: DistanceFn, now1: Timestamp, now2: Timestamp)
    requires dist(enc, enc) == 0.0
    requires forall i :: 0 <= i < |ledger| ==> Elements(ledger[i]) == Elements(enc)
    ensures var s1 := SaveIntruso(ledger, writes, snap1, enc, dist, now1);
            SaveIntruso(s1.ledger, s1.writes, snap2, enc, dist, now2) == Saved(s1.ledger, s1.writes, None)
  {
    var s1 := SaveIntruso(ledger, writes, snap1, enc, dist, now1);
    GrownLedgerBroadcastsIff(ledger, enc);
    if s1.filename.Some? {
      assert s1.ledger[|ledger|] == enc;
      assert AlreadyRecorded(s1.ledger, enc, dist);
    }
  }

  /**
   * When face_distance raises on the ledger (an entry whose element count does
   * not broadcast against the probe), the exception is swallowed and the face
   * is recorded; the grown ledger still raises, so the same face is recorded
   * again on every later call.
   */
  lemma UnbroadcastableLedgerRecordsAgain(ledger: seq<Embedding>, writes: seq<Effect>, snapshot: Frame,
                                         enc: Embedding, dist: DistanceFn, now: Timestamp)
    requires !Broadcastable(ledger, enc)
    ensures var s := SaveIntruso(ledger, writes, snapshot, enc, dist, now);
            s.filename == Some(IntrusoFilename(now)) && s.ledger == ledger + [enc] && !Broadcastable(s.ledger, enc)
  {
    var grown := ledger + [enc];
    if Broadcastable(grown, enc) {
      forall i | 0 <= i < |ledger| ensures Elements(ledger[i]) == Elements(ledger[0]) {
        assert grown[i] == ledger[i];
      }
      assert false;
    }
  }

  /**
   * The record a save adds, once the store lists it first (newest first),
   * reloads as the very embedding that was appended to the ledger.
   */
  lemma RecordedIntruderReloads(ledger: seq<Embedding>, writes: seq<Effect>, snapshot: Frame, enc: Embedding,
                                dist: DistanceFn, now: Timestamp, older: seq<IntrusoRow>)
    requires |enc| > 0
    requires SaveIntruso(ledger, writes, snapshot, enc, dist, now).filename.Some?
    ensures var s := SaveIntruso(ledger, writes, snapshot, enc, dist, now);
            s.writes[|s.writes| - 1].AddIntruso? &&
            Ledger([IntrusoRow(Some(s.writes[|s.writes| - 1].embeddingHex))] + older) == [enc] + Ledger(older)
  {
    var hex := EmbeddingToHex(enc);
    RoundTrip(enc);
    LedgerCons(IntrusoRow(Some(hex)), older);
  }
}
