/**
 * The recognition engine's module state (the two authorized caches, the
 * intruder ledger and the camera flag) as one object, and its operations as
 * methods over it. The store, the reference photos, the stream, the face
 * library and the JPEG encoder are parameters; the writes the engine makes
 * to the store and the filesystem are appended to `writes`. Each method is
 * proved to leave exactly the state the functions of modules Caches and
 * Session describe.
 */
module Reconocimiento {

  import opened Wrappers
  import opened EmbeddingCodec
  import opened Matching
  import opened Annotation
  import opened Clock
  import opened Store
  import opened Caches
  import opened Session

  class Recognizer {
    /** known_face_encodings and known_face_names: parallel lists. */
    var knownEncodings: seq<Embedding>
    var knownNames: seq<string>
    /** intruso_encodings: the intruder ledger. */
    var intrusoEncodings: seq<Embedding>
    /** camera_active */
    var cameraActive: bool
    /** Every store update, snapshot write and record insert made so far, in order. */
    var writes: seq<Effect>

    ghost predicate Valid()
      reads this
    {
      |knownEncodings| == |knownNames|
    }

    /** Index i of the two authorized lists is entry i of `entries`, and nothing more is cached. */
    predicate RegistryIs(entries: seq<Enrolled>)
      reads this
    {
      Unzips(entries, knownNames, knownEncodings)
    }

    /** The state at import: empty caches, camera off, nothing written. */
    constructor ()
      ensures Valid()
      ensures knownEncodings == [] && knownNames == [] && intrusoEncodings == []
      ensures !cameraActive && writes == []
    {
      knownEncodings := [];
      knownNames := [];
      intrusoEncodings := [];
      cameraActive := false;
      writes := [];
    }

    /**
     * One row of load_autorizados_cache: its decodable stored embedding, else
     * the first face of its reference photo (written back to the store), else
     * nothing, is appended under the row's name.
     */
    method LoadAutorizado(r: AuthRow, photos: ReferencePhotos, ghost entries: seq<Enrolled>)
      requires RegistryIs(entries)
      modifies this`knownEncodings, this`knownNames, this`writes
      ensures RegistryIs(entries + Contribution(r, photos))
      ensures writes == old(writes) + WriteBack(r, photos)
    {
      var hx := r.embeddingHex;
      if hx.Some? && hx.value != "" {
        var decoded := HexToEmbedding(hx.value);
        if decoded.Ok? {
          UnzipsAppend(entries, knownNames, knownEncodings, r.nombre, decoded.value);
          knownEncodings := knownEncodings + [decoded.value];
          knownNames := knownNames + [r.nombre];
          return;
        }
      }
      var probe := photos(r.filename);
      if probe.Faces? && |probe.encodings| > 0 {
        var emb := probe.encodings[0];
        UnzipsAppend(entries, knownNames, knownEncodings, r.nombre, emb);
        knownEncodings := knownEncodings + [emb];
        knownNames := knownNames + [r.nombre];
        writes := writes + [UpdateEmbedding(r.id, EmbeddingToHex(emb))];
      }
    }

    /**
     * load_autorizados_cache: both lists are rebuilt from the rows in store
     * order, and the embeddings computed from photos are written back.
     */
    method LoadAutorizadosCache(rows: seq<AuthRow>, photos: ReferencePhotos)
      modifies this`knownEncodings, this`knownNames, this`writes
      ensures Valid() && RegistryIs(AuthEntries(rows, photos))
      ensures writes == old(writes) + WriteBacks(rows, photos)
    {
      knownEncodings := [];
      knownNames := [];
      for i := 0 to |rows|
        invariant RegistryIs(AuthEntries(rows[..i], photos))
        invariant writes == old(writes) + WriteBacks(rows[..i], photos)
      {
        PrefixStep(rows, photos, i);
        LoadAutorizado(rows[i], photos, AuthEntries(rows[..i], photos));
      }
      assert rows[..|rows|] == rows;
    }

    /** load_intrusos_cache: the ledger is rebuilt from the rows whose hex decodes, in store order. */
    method LoadIntrusosCache(rows: seq<IntrusoRow>)
      modifies this`intrusoEncodings
      ensures intrusoEncodings == Ledger(rows)
    {
      intrusoEncodings := [];
      for i := 0 to |rows|
        invariant intrusoEncodings == Ledger(rows[..i])
      {
        assert rows[..i + 1][..i] == rows[..i] && rows[..i + 1][i] == rows[i];
        var hx := rows[i].embeddingHex;
        if hx.Some? && hx.value != "" {
          var decoded := HexToEmbedding(hx.value);
          if decoded.Ok? {
            intrusoEncodings := intrusoEncodings + [decoded.value];
          }
        }
      }
      assert rows[..|rows|] == rows;
    }

    /** initialize_caches: the authorized registry, then the intruder ledger. */
    method InitializeCaches(authRows: seq<AuthRow>, intrusoRows: seq<IntrusoRow>, photos: ReferencePhotos)
      modifies this`knownEncodings, this`knownNames, this`writes, this`intrusoEncodings
      ensures Valid() && RegistryIs(AuthEntries(authRows, photos))
      ensures intrusoEncodings == Ledger(intrusoRows)
      ensures writes == old(writes) + WriteBacks(authRows, photos)
    {
      LoadAutorizadosCache(authRows, photos);
      LoadIntrusosCache(intrusoRows);
    }

    /**
     * save_intruso_if_new: returns None, changing nothing, when the face is
     * within the intruder tolerance of a recorded one; otherwise writes the
     * snapshot and the record, appends the embedding and returns the name.
     */
    method SaveIntrusoIfNew(frame: Frame, enc: Embedding, dist: DistanceFn, now: Timestamp) returns (fname: Option<string>)
      modifies this`intrusoEncodings, this`writes
      ensures var s := SaveIntruso(old(intrusoEncodings), old(writes), frame, enc, dist, now);
              intrusoEncodings == s.ledger && writes == s.writes && fname == s.filename
    {
      if |intrusoEncodings| > 0 {
        var dists := FaceDistances(intrusoEncodings, enc, dist);
        DistancesInReferenceOrder(intrusoEncodings, enc, dist);
        if dists.Some? {
          var ds := dists.value;
          for k := 0 to |ds|
            invariant forall j :: 0 <= j < k ==> ds[j] > IntrusoTolerance
          {
            if ds[k] <= IntrusoTolerance {
              return None;
            }
          }
        }
      }
      var name := IntrusoFilename(now);
      writes := writes + [WriteImage(IntrusosDir + "/" + name, frame),
                          AddIntruso(name, ReadableStamp(now), EmbeddingToHex(enc))];
      intrusoEncodings := intrusoEncodings + [enc];
      return Some(name);
    }

    /**
     * The per-face loop of one frame: each detection is classified against
     * the authorized caches (an exception from compare_faces ends the frame
     * with `raised`), an intruder is offered to the ledger with the frame as
     * drawn so far, and the box and label are drawn.
     */
    method AnnotateFrame(image: Image, dets: seq<Detection>, dist: DistanceFn, now: Timestamp)
      returns (frame: Frame, raised: bool)
      requires Valid()
      modifies this`intrusoEncodings, this`writes
      ensures AnnotateFaces(knownEncodings, knownNames, Work(old(intrusoEncodings), old(writes), Frame(image, [])), dets, dist, now) ==
              Annotated(Work(intrusoEncodings, writes, frame), raised)
    {
      frame := Frame(image, []);
      ghost var before := Work(intrusoEncodings, writes, frame);
      for j := 0 to |dets|
        invariant AnnotateFaces(knownEncodings, knownNames, before, dets, dist, now) ==
                  AnnotateFaces(knownEncodings, knownNames, Work(intrusoEncodings, writes, frame), dets[j..], dist, now)
      {
        var d := dets[j];
        FaceStep(knownEncodings, knownNames, Work(intrusoEncodings, writes, frame), dets[j..], dist, now);
        assert dets[j..][0] == d && dets[j..][1..] == dets[j + 1..];
        var verdict := ClassifyFace(knownEncodings, knownNames, d.encoding, dist);
        if verdict.None? {
          return frame, true;
        }
        if verdict.value.Intruso? {
          var recorded := SaveIntrusoIfNew(frame, d.encoding, dist, now);
        }
        frame := DrawFace(frame, d.box, LabelText(verdict.value), LabelColor(verdict.value));
      }
      return frame, false;
    }

    /** stop_camera */
    method StopCamera()
      modifies this`cameraActive
      ensures !cameraActive
    {
      cameraActive := false;
    }

    /**
     * gen_frames over a scripted run: the caches are reloaded; when the
     * stream does not open nothing is yielded and the flag is left as it was;
     * otherwise the flag is raised and the loop yields exactly the chunks of
     * Session.Loop, leaving its ledger and writes, and the flag is cleared
     * however the loop ends. `streamOpen` is cap.isOpened().
     */
    method GenFrames(authRows: seq<AuthRow>, intrusoRows: seq<IntrusoRow>, photos: ReferencePhotos,
                     streamOpen: bool, script: seq<Tick>, dev: Devices) returns (chunks: seq<seq<Byte>>, end: End)
      modifies this
      ensures Valid() && RegistryIs(AuthEntries(authRows, photos))
      ensures !streamOpen ==>
                chunks == [] && end == OpenFailed && cameraActive == old(cameraActive) &&
                intrusoEncodings == Ledger(intrusoRows) && writes == old(writes) + WriteBacks(authRows, photos)
      ensures streamOpen ==>
                !cameraActive &&
                Run(chunks, end, intrusoEncodings, writes) ==
                Loop(knownEncodings, knownNames, Ledger(intrusoRows), old(writes) + WriteBacks(authRows, photos), script, dev, [])
    {
      InitializeCaches(authRows, intrusoRows, photos);
      if !streamOpen {
        return [], OpenFailed;
      }
      ghost var known, names := knownEncodings, knownNames;
      ghost var start := Loop(known, names, intrusoEncodings, writes, script, dev, []);
      cameraActive := true;
      chunks := [];
      end := Stopped;
      var i := 0;
      if |script| > 0 && script[0].stopRequested {
        StopCamera();
      }
      while cameraActive
        invariant 0 <= i <= |script| && end == Stopped
        invariant knownEncodings == known && knownNames == names && |known| == |names|
        invariant cameraActive <==> !(i < |script| && script[i].stopRequested)
        invariant Loop(known, names, intrusoEncodings, writes, script[i..], dev, chunks) == start
        decreases |script| - i
      {
        if i == |script| {
          end := ReadFailed;
          break;
        }
        var t := script[i];
        assert script[i..][0] == t && script[i..][1..] == script[i + 1..];
        if t.read.None? {
          end := ReadFailed;
          break;
        }
        var detected := dev.detect(t.read.value);
        if detected.None? {
          end := Raised;
          break;
        }
        var frame, raised := AnnotateFrame(t.read.value, detected.value, dev.dist, t.now);
        if raised {
          end := Raised;
          break;
        }
        var encoded := dev.encode(frame);
        if encoded.Some? {
          chunks := chunks + [Chunk(encoded.value)];
        }
        i := i + 1;
        if i < |script| && script[i].stopRequested {
          StopCamera();
        }
      }
      assert end == Stopped ==> i < |script| && script[i..][0] == script[i];
      cameraActive := false;
    }
  }
}
