/**
 * The capture loop as a function of a scripted run: what each frame read,
 * detected, drew, recorded and emitted, and how the loop ended. The
 * Recognizer class in module Reconocimiento is proved to produce exactly this.
 */
module Session {

  import opened Wrappers
  import opened EmbeddingCodec
  import opened Matching
  import opened Annotation
  import opened Clock
  import opened Store
  import opened Caches

  /** One face found on the half-size frame: its box and its embedding. */
  datatype Detection = Detection(box: Box, encoding: Embedding)

  /**
   * The foreign operations of one cycle. `detect` is face_locations followed
   * by face_encodings on the resized frame (None: it raised); `encode` is
   * cv2.imencode('.jpg') (None: it failed); `dist` is face_distance's metric.
   */
  datatype Devices = Devices(
    detect: Image -> Option<seq<Detection>>,
    encode: Frame -> Option<seq<Byte>>,
    dist: DistanceFn)

  /** What the detections of one frame change: the ledger, the writes, the frame being drawn on. */
  datatype Work = Work(ledger: seq<Embedding>, writes: seq<Effect>, frame: Frame)

  function LabelColor(l: Label): Color {
    if l.Authorized? then AuthorizedColor else IntrusoColor
  }

  /**
   * One detection: classify it (None: compare_faces raised); an intruder is
   * offered to the ledger with the frame as drawn so far; then its box and
   * label are drawn.
   */
  function AnnotateFace(known: seq<Embedding>, names: seq<string>, w: Work, d: Detection,
                        dist: DistanceFn, now: Timestamp): Option<Work>
    requires |known| == |names|
  {
    match ClassifyFace(known, names, d.encoding, dist)
    case None => None
    case Some(l) =>
      var s := if l.Intruso? then SaveIntruso(w.ledger, w.writes, w.frame, d.encoding, dist, now)
               else Saved(w.ledger, w.writes, None);
      Some(Work(s.ledger, s.writes, DrawFace(w.frame, d.box, LabelText(l), LabelColor(l))))
  }

  /** The work left after the detections, and whether one of them raised. */
  datatype Annotated = Annotated(work: Work, raised: bool)

  /**
   * All detections of one frame, in order, stopping at the first that raises.
   * The ledger and the writes only grow, by at most one entry per detection,
   * and without an exception every detection adds its two marks.
   */
  function AnnotateFaces(known: seq<Embedding>, names: seq<string>, w: Work, dets: seq<Detection>,
                         dist: DistanceFn, now: Timestamp): (r: Annotated)
    requires |known| == |names|
    ensures r.work.frame.image == w.frame.image
    ensures w.ledger <= r.work.ledger && |r.work.ledger| <= |w.ledger| + |dets|
    ensures w.writes <= r.work.writes
    ensures w.frame.marks <= r.work.frame.marks
    ensures !r.raised ==> |r.work.frame.marks| == |w.frame.marks| + 2 * |dets|
    decreases |dets|
  {
    if dets == [] then Annotated(w, false)
    else
      match AnnotateFace(known, names, w, dets[0], dist, now)
      case None => Annotated(w, true)
      case Some(next) => AnnotateFaces(known, names, next, dets[1..], dist, now)
  }

  /**
   * One detection either raises, ending the frame, or adds exactly its box and
   * label and hands the rest of the detections the updated work.
   */
  lemma FaceStep(known: seq<Embedding>, names: seq<string>, w: Work, dets: seq<Detection>, dist: DistanceFn, now: Timestamp)
    requires |known| == |names| && dets != []
    ensures var c := ClassifyFace(known, names, dets[0].encoding, dist);
            var next := AnnotateFace(known, names, w, dets[0], dist, now);
            next.Some? == c.Some? &&
            (next.None? ==> AnnotateFaces(known, names, w, dets, dist, now).raised) &&
            (next.Some? ==> next.value.frame.marks == w.frame.marks + FaceMarks(dets[0].box, LabelText(c.value), LabelColor(c.value)) &&
                            next.value.frame.image == w.frame.image &&
                            AnnotateFaces(known, names, w, dets, dist, now) == AnnotateFaces(known, names, next.value, dets[1..], dist, now))
  {
  }

  /**
   * Only an intruder reaches the ledger: an authorized face leaves the ledger
   * and the writes as they were, and an intruder changes them exactly as
   * save_intruso_if_new does, offering the frame as drawn before its own box.
   */
  lemma OnlyIntrudersAreRecorded(known: seq<Embedding>, names: seq<string>, w: Work, d: Detection,
                                 dist: DistanceFn, now: Timestamp)
    requires |known| == |names|
    ensures var c := ClassifyFace(known, names, d.encoding, dist);
            var next := AnnotateFace(known, names, w, d, dist, now);
            (c.Some? && c.value.Authorized? ==> next.value.ledger == w.ledger && next.value.writes == w.writes) &&
            (c.Some? && c.value.Intruso? ==>
               var s := SaveIntruso(w.ledger, w.writes, w.frame, d.encoding, dist, now);
               next.value.ledger == s.ledger && next.value.writes == s.writes)
  {
  }

  /**
   * The marks the detections of a frame should leave: for each face in order,
   * its doubled box and its label, in the label's colour.
   */
  function DetectionMarks(known: seq<Embedding>, names: seq<string>, dets: seq<Detection>, dist: DistanceFn): seq<Mark>
    requires |known| == |names|
  {
    if dets == [] then []
    else
      var c := ClassifyFace(known, names, dets[0].encoding, dist);
      (if c.Some? then FaceMarks(dets[0].box, LabelText(c.value), LabelColor(c.value)) else []) +
      DetectionMarks(known, names, dets[1..], dist)
  }

  /**
   * Without an exception, the annotated frame is the frame read with exactly
   * the marks of its detections added in detection order; what the ledger
   * holds never changes what is drawn.
   */
  lemma {:induction false} FrameCarriesDetectionMarks(known: seq<Embedding>, names: seq<string>, w: Work,
                                                     dets: seq<Detection>, dist: DistanceFn, now: Timestamp)
    requires |known| == |names|
    requires !AnnotateFaces(known, names, w, dets, dist, now).raised
    ensures AnnotateFaces(known, names, w, dets, dist, now).work.frame ==
            Frame(w.frame.image, w.frame.marks + DetectionMarks(known, names, dets, dist))
    decreases |dets|
  {
    if dets != [] {
      FaceStep(known, names, w, dets, dist, now);
      var next := AnnotateFace(known, names, w, dets[0], dist, now).value;
      FrameCarriesDetectionMarks(known, names, next, dets[1..], dist, now);
      var c := ClassifyFace(known, names, dets[0].encoding, dist);
      var own := FaceMarks(dets[0].box, LabelText(c.value), LabelColor(c.value));
      var rest := DetectionMarks(known, names, dets[1..], dist);
      assert DetectionMarks(known, names, dets, dist) == own + rest;
      assert w.frame.marks + own + rest == w.frame.marks + (own + rest);
    }
  }

  /**
   * The ledger entries from index `from` on were each novel against the
   * entries before them when they were appended.
   */
  predicate NovelFrom(ledger: seq<Embedding>, from: nat, dist: DistanceFn) {
    forall k :: from <= k < |ledger| ==> !AlreadyRecorded(ledger[..k], ledger[k], dist)
  }

  lemma SaveKeepsNovel(ledger: seq<Embedding>, writes: seq<Effect>, snapshot: Frame, enc: Embedding,
                       dist: DistanceFn, now: Timestamp, from: nat)
    requires from <= |ledger| && NovelFrom(ledger, from, dist)
    ensures NovelFrom(SaveIntruso(ledger, writes, snapshot, enc, dist, now).ledger, from, dist)
  {
    var s := SaveIntruso(ledger, writes, snapshot, enc, dist, now);
    if s.filename.Some? {
      forall k | from <= k < |s.ledger| ensures !AlreadyRecorded(s.ledger[..k], s.ledger[k], dist) {
        if k < |ledger| {
          assert s.ledger[..k] == ledger[..k] && s.ledger[k] == ledger[k];
        } else {
          assert s.ledger[..k] == ledger && s.ledger[k] == enc;
        }
      }
    }
  }

  /** The detections of a frame append to the ledger only faces that were novel at that moment. */
  lemma {:induction false} AnnotateKeepsNovel(known: seq<Embedding>, names: seq<string>, w: Work, dets: seq<Detection>,
                                             dist: DistanceFn, now: Timestamp, from: nat)
    requires |known| == |names|
    requires from <= |w.ledger| && NovelFrom(w.ledger, from, dist)
    ensures NovelFrom(AnnotateFaces(known, names, w, dets, dist, now).work.ledger, from, dist)
    decreases |dets|
  {
    if dets != [] {
      var c := ClassifyFace(known, names, dets[0].encoding, dist);
      if c.Some? {
        if c.value.Intruso? {
          SaveKeepsNovel(w.ledger, w.writes, w.frame, dets[0].encoding, dist, now, from);
        }
        var next := AnnotateFace(known, names, w, dets[0], dist, now).value;
        AnnotateKeepsNovel(known, names, next, dets[1..], dist, now, from);
      }
    }
  }

  // ---------------------------------------------------------------------------
  // The capture loop

  /**
   * One turn of the loop as the script gives it: whether stop_camera ran since
   * the previous test of the flag, what cap.read() returned, and the clock.
   */
  datatype Tick = Tick(stopRequested: bool, read: Option<Image>, now: Timestamp)

  /** How a session ended. */
  datatype End = OpenFailed | Stopped | ReadFailed | Raised

  /** The chunks yielded after a frame is encoded: one more, or none when encoding failed. */
  function Emit(emitted: seq<seq<Byte>>, encoded: Option<seq<Byte>>): seq<seq<Byte>> {
    match encoded
    case None => emitted
    case Some(jpeg) => emitted + [Chunk(jpeg)]
  }

  predicate AllFramed(chunks: seq<seq<Byte>>) {
    forall k :: 0 <= k < |chunks| ==> IsFramed(chunks[k])
  }

  lemma EmitFramed(emitted: seq<seq<Byte>>, encoded: Option<seq<Byte>>)
    requires AllFramed(emitted)
    ensures AllFramed(Emit(emitted, encoded))
  {
    if encoded.Some? {
      ChunkFraming(encoded.value);
      var out := Emit(emitted, encoded);
      assert out[|emitted|] == Chunk(encoded.value);
      forall k | 0 <= k < |out| ensures IsFramed(out[k]) {
        if k < |emitted| {
          assert out[k] == emitted[k];
        }
      }
    }
  }

  datatype Run = Run(chunks: seq<seq<Byte>>, end: End, ledger: seq<Embedding>, writes: seq<Effect>)

  /** After one turn the loop either goes on from a new state or has ended. */
  datatype Step =
    | Continue(ledger: seq<Embedding>, writes: seq<Effect>, emitted: seq<seq<Byte>>)
    | Finish(run: Run)

  /**
   * One turn of `while camera_active`: test the flag, read, detect, annotate
   * and record, encode and yield. A failed encode yields nothing and the loop
   * goes on; a stop request, a failed read or an exception ends it.
   */
  function Turn(known: seq<Embedding>, names: seq<string>, ledger: seq<Embedding>, writes: seq<Effect>,
                t: Tick, dev: Devices, emitted: seq<seq<Byte>>): (s: Step)
    requires |known| == |names|
    ensures s.Continue? ==> emitted <= s.emitted && |s.emitted| <= |emitted| + 1
    ensures s.Continue? ==> ledger <= s.ledger && writes <= s.writes
    ensures s.Finish? ==> s.run.chunks == emitted && ledger <= s.run.ledger && writes <= s.run.writes
    ensures s.Finish? ==> s.run.end != OpenFailed
    ensures t.stopRequested ==> s == Finish(Run(emitted, Stopped, ledger, writes))
    ensures !t.stopRequested && t.read.None? ==> s == Finish(Run(emitted, ReadFailed, ledger, writes))
  {
    if t.stopRequested then Finish(Run(emitted, Stopped, ledger, writes))
    else if t.read.None? then Finish(Run(emitted, ReadFailed, ledger, writes))
    else
      match dev.detect(t.read.value)
      case None => Finish(Run(emitted, Raised, ledger, writes))
      case Some(dets) =>
        var a := AnnotateFaces(known, names, Work(ledger, writes, Frame(t.read.value, [])), dets, dev.dist, t.now);
        if a.raised then Finish(Run(emitted, Raised, a.work.ledger, a.work.writes))
        else Continue(a.work.ledger, a.work.writes, Emit(emitted, dev.encode(a.work.frame)))
  }

  /**
   * `while camera_active` from a given state, with `emitted` the chunks already
   * yielded. Reading past the end of the script fails. Each turn yields at
   * most one chunk; what was yielded, the ledger and the writes only grow.
   */
  function Loop(known: seq<Embedding>, names: seq<string>, ledger: seq<Embedding>, writes: seq<Effect>,
                script: seq<Tick>, dev: Devices, emitted: seq<seq<Byte>>): (r: Run)
    requires |known| == |names|
    ensures emitted <= r.chunks && |r.chunks| <= |emitted| + |script|
    ensures ledger <= r.ledger && writes <= r.writes
    ensures r.end != OpenFailed
    decreases |script|
  {
    if script == [] then Run(emitted, ReadFailed, ledger, writes)
    else
      match Turn(known, names, ledger, writes, script[0], dev, emitted)
      case Finish(r) => r
      case Continue(l, w, e) => Loop(known, names, l, w, script[1..], dev, e)
  }

  lemma TurnFramed(known: seq<Embedding>, names: seq<string>, ledger: seq<Embedding>, writes: seq<Effect>,
                   t: Tick, dev: Devices, emitted: seq<seq<Byte>>)
    requires |known| == |names|
    requires AllFramed(emitted)
    ensures var s := Turn(known, names, ledger, writes, t, dev, emitted);
            s.Continue? ==> AllFramed(s.emitted)
  {
    if !t.stopRequested && t.read.Some? && dev.detect(t.read.value).Some? {
      var a := AnnotateFaces(known, names, Work(ledger, writes, Frame(t.read.value, [])), dev.detect(t.read.value).value, dev.dist, t.now);
      EmitFramed(emitted, dev.encode(a.work.frame));
    }
  }

  /** compare_faces raises only on a face not comparable with the registry. */
  lemma {:induction false} ComparableFacesNeverRaise(known: seq<Embedding>, names: seq<string>, w: Work,
                                                    dets: seq<Detection>, dist: DistanceFn, now: Timestamp)
    requires |known| == |names|
    requires forall k :: 0 <= k < |dets| ==> Broadcastable(known, dets[k].encoding)
    ensures !AnnotateFaces(known, names, w, dets, dist, now).raised
    decreases |dets|
  {
    if dets != [] {
      FaceStep(known, names, w, dets, dist, now);
      assert forall k :: 0 <= k < |dets[1..]| ==> dets[1..][k] == dets[k + 1];
      ComparableFacesNeverRaise(known, names, AnnotateFace(known, names, w, dets[0], dist, now).value, dets[1..], dist, now);
    }
  }

  /**
   * A turn that reads a frame whose faces are all comparable with the
   * registry (so that annotating it raises nothing) goes on,
   * and yields exactly the chunk of the encoded annotated frame (the image
   * read with the marks of its detections), or nothing when encoding fails.
   */
  lemma TurnYieldsEncodedFrame(known: seq<Embedding>, names: seq<string>, ledger: seq<Embedding>, writes: seq<Effect>,
                               t: Tick, dev: Devices, emitted: seq<seq<Byte>>, dets: seq<Detection>)
    requires |known| == |names|
    requires !t.stopRequested && t.read.Some? && dev.detect(t.read.value) == Some(dets)
    requires forall k :: 0 <= k < |dets| ==> Broadcastable(known, dets[k].encoding)
    ensures var s := Turn(known, names, ledger, writes, t, dev, emitted);
            var f := Frame(t.read.value, DetectionMarks(known, names, dets, dev.dist));
            s.Continue? &&
            (dev.encode(f).None? ==> s.emitted == emitted) &&
            (dev.encode(f).Some? ==> s.emitted == emitted + [Chunk(dev.encode(f).value)])
  {
    var marks := DetectionMarks(known, names, dets, dev.dist);
    ComparableFacesNeverRaise(known, names, Work(ledger, writes, Frame(t.read.value, [])), dets, dev.dist, t.now);
    FrameCarriesDetectionMarks(known, names, Work(ledger, writes, Frame(t.read.value, [])), dets, dev.dist, t.now);
    assert [] + marks == marks;
  }

  /** Every chunk the loop yields is a framed multipart part. */
  lemma {:induction false} ChunksFramed(known: seq<Embedding>, names: seq<string>, ledger: seq<Embedding>,
                                        writes: seq<Effect>, script: seq<Tick>, dev: Devices, emitted: seq<seq<Byte>>)
    requires |known| == |names|
    requires AllFramed(emitted)
    ensures AllFramed(Loop(known, names, ledger, writes, script, dev, emitted).chunks)
    decreases |script|
  {
    if script != [] {
      var s := Turn(known, names, ledger, writes, script[0], dev, emitted);
      TurnFramed(known, names, ledger, writes, script[0], dev, emitted);
      if s.Continue? {
        ChunksFramed(known, names, s.ledger, s.writes, script[1..], dev, s.emitted);
      }
    }
  }

  /**
   * The flag is tested and the read is checked before anything else in a
   * turn: once a turn finds a stop request or a failed read, the turns after
   * it are never looked at, and at most one chunk per earlier turn was yielded.
   */
  lemma {:induction false} NothingAfterStopOrFailedRead(known: seq<Embedding>, names: seq<string>, ledger: seq<Embedding>,
                                                        writes: seq<Effect>, script: seq<Tick>, dev: Devices,
                                                        emitted: seq<seq<Byte>>, k: nat)
    requires |known| == |names|
    requires k < |script| && (script[k].stopRequested || script[k].read.None?)
    ensures Loop(known, names, ledger, writes, script, dev, emitted) ==
            Loop(known, names, ledger, writes, script[..k + 1], dev, emitted)
    ensures |Loop(known, names, ledger, writes, script, dev, emitted).chunks| <= |emitted| + k
    decreases k
  {
    var cut := script[..k + 1];
    assert cut[0] == script[0];
    var s := Turn(known, names, ledger, writes, script[0], dev, emitted);
    if s.Continue? {
      assert k > 0;
      assert cut[1..] == script[1..][..k];
      assert script[1..][k - 1] == script[k];
      NothingAfterStopOrFailedRead(known, names, s.ledger, s.writes, script[1..], dev, s.emitted, k - 1);
    }
  }

  lemma TurnKeepsNovel(known: seq<Embedding>, names: seq<string>, ledger: seq<Embedding>, writes: seq<Effect>,
                       t: Tick, dev: Devices, emitted: seq<seq<Byte>>, from: nat)
    requires |known| == |names|
    requires from <= |ledger| && NovelFrom(ledger, from, dev.dist)
    ensures var s := Turn(known, names, ledger, writes, t, dev, emitted);
            NovelFrom(if s.Continue? then s.ledger else s.run.ledger, from, dev.dist)
  {
    if !t.stopRequested && t.read.Some? && dev.detect(t.read.value).Some? {
      AnnotateKeepsNovel(known, names, Work(ledger, writes, Frame(t.read.value, [])), dev.detect(t.read.value).value, dev.dist, t.now, from);
    }
  }

  /** Over a whole session, every embedding appended to the ledger was novel when appended. */
  lemma {:induction false} LoopKeepsNovel(known: seq<Embedding>, names: seq<string>, ledger: seq<Embedding>,
                                          writes: seq<Effect>, script: seq<Tick>, dev: Devices,
                                          emitted: seq<seq<Byte>>, from: nat)
    requires |known| == |names|
    requires from <= |ledger| && NovelFrom(ledger, from, dev.dist)
    ensures NovelFrom(Loop(known, names, ledger, writes, script, dev, emitted).ledger, from, dev.dist)
    decreases |script|
  {
    if script != [] {
      var s := Turn(known, names, ledger, writes, script[0], dev, emitted);
      TurnKeepsNovel(known, names, ledger, writes, script[0], dev, emitted, from);
      if s.Continue? {
        LoopKeepsNovel(known, names, s.ledger, s.writes, script[1..], dev, s.emitted, from);
      }
    }
  }

  /**
   * At most one record per distinct face: in a ledger whose entries all have
   * one element count, under a metric that puts every embedding at distance 0
   * from itself, an entry appended as novel never repeats an earlier entry.
   */
  lemma NovelEntriesAreDistinct(ledger: seq<Embedding>, from: nat, dist: DistanceFn, j: nat, k: nat)
    requires NovelFrom(ledger, from, dist)
    requires forall i :: 0 <= i < |ledger| ==> Elements(ledger[i]) == Elements(ledger[0])
    requires forall e: Embedding :: dist(e, e) == 0.0
    requires j < k < |ledger| && from <= k
    ensures ledger[j] != ledger[k]
  {
    var before := ledger[..k];
    assert before[j] == ledger[j];
    if ledger[j] == ledger[k] {
      assert dist(before[j], ledger[k]) == 0.0;
      assert Broadcastable(before, ledger[k]) by {
        assert before[0] == ledger[0];
        forall i | 0 <= i < |before| ensures Elements(before[i]) == Elements(before[0]) {
          assert before[i] == ledger[i];
        }
      }
      assert AlreadyRecorded(before, ledger[k], dist);
      assert false;
    }
  }
}
