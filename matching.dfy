/**
 * Matching a probe embedding against a list of reference embeddings, as the
 * recognition core does with face_recognition.face_distance and
 * face_recognition.compare_faces.
 *
 * The distance itself is computed by a floating-point library and is not
 * modelled: it is a parameter `dist` giving, for a reference and a probe, the
 * real number the library reports. What is modelled is when the library
 * raises (numpy cannot broadcast the shapes), the inclusive tolerance test
 * and the first-index tie-break.
 */
module Matching {

  import opened Wrappers
  import opened EmbeddingCodec

  /** The distance face_distance reports for one reference against one probe. */
  type DistanceFn = (Embedding, Embedding) -> real

  /** Authorized matching: a distance at or below this is the same person. */
  const AuthTolerance: real := 0.5

  /** Intruder deduplication: a distance at or below this is an intruder already recorded. */
  const IntrusoTolerance: real := 0.6

  /** Number of float64 elements in an embedding. */
  function Elements(e: Embedding): nat {
    |e| / ElementWidth
  }

  /**
   * face_distance subtracts the probe from the stacked references; numpy
   * accepts this when every reference has one element count and that count
   * equals the probe's or one of the two is a single element. An empty
   * reference list never reaches numpy.
   */
  predicate Broadcastable(refs: seq<Embedding>, probe: Embedding) {
    |refs| == 0 ||
    ((forall i :: 0 <= i < |refs| ==> Elements(refs[i]) == Elements(refs[0])) &&
     (Elements(refs[0]) == Elements(probe) || Elements(refs[0]) == 1 || Elements(probe) == 1))
  }

  /** face_distance: one distance per reference, in reference order; None when it raises. */
  function FaceDistances(refs: seq<Embedding>, probe: Embedding, dist: DistanceFn): Option<seq<real>>
  {
    if Broadcastable(refs, probe) then Some(seq(|refs|, i requires 0 <= i < |refs| => dist(refs[i], probe)))
    else None
  }

  /** `matches.index(True)` over `d <= tol`: the first index within tolerance. */
  function FirstWithin(ds: seq<real>, tol: real): (r: Option<nat>)
    ensures r.Some? ==> r.value < |ds| && ds[r.value] <= tol
    ensures r.Some? ==> forall j :: 0 <= j < r.value ==> ds[j] > tol
    ensures r.None? ==> forall j :: 0 <= j < |ds| ==> ds[j] > tol
  {
    if ds == [] then None
    else if ds[0] <= tol then Some(0)
    else
      match FirstWithin(ds[1..], tol)
      case None => None
      case Some(i) => Some(i + 1)
  }

  /** Index i is the first reference within the authorized tolerance of the probe. */
  ghost predicate IsFirstMatch(known: seq<Embedding>, probe: Embedding, dist: DistanceFn, i: int) {
    0 <= i < |known| && dist(known[i], probe) <= AuthTolerance &&
    forall j :: 0 <= j < i ==> dist(known[j], probe) > AuthTolerance
  }

  /** The label drawn for a face. */
  datatype Label = Authorized(name: string) | Intruso

  function LabelText(l: Label): string {
    match l
    case Authorized(n) => n
    case Intruso => "Intruso"
  }

  /**
   * The classification in the per-frame loop: with no authorized embeddings the
   * face is an intruder; otherwise compare_faces runs (None: it raised), and
   * the name at the first match labels the face when that name is non-empty
   * (the source tests the name's truth value, so an empty name counts as no
   * match).
   */
  function ClassifyFace(known: seq<Embedding>, names: seq<string>, probe: Embedding, dist: DistanceFn): (r: Option<Label>)
    requires |known| == |names|
    ensures r.None? <==> (|known| > 0 && !Broadcastable(known, probe))
    ensures r.Some? && r.value.Authorized? ==>
      r.value.name != "" && exists i :: IsFirstMatch(known, probe, dist, i) && names[i] == r.value.name
    ensures r.Some? && r.value.Intruso? ==>
      forall i :: IsFirstMatch(known, probe, dist, i) ==> names[i] == ""
  {
    if |known| == 0 then Some(Intruso)
    else
      DistancesInReferenceOrder(known, probe, dist);
      match FaceDistances(known, probe, dist)
      case None => None
      case Some(ds) =>
        match FirstWithin(ds, AuthTolerance)
        case None => Some(Intruso)
        case Some(i) => if names[i] != "" then Some(Authorized(names[i])) else Some(Intruso)
  }

  /**
   * save_intruso_if_new's duplicate test: the ledger is non-empty, face_distance
   * does not raise, and some recorded intruder is within the (inclusive)
   * intruder tolerance.
   */
  predicate AlreadyRecorded(ledger: seq<Embedding>, enc: Embedding, dist: DistanceFn) {
    |ledger| > 0 && Broadcastable(ledger, enc) &&
    exists i :: 0 <= i < |ledger| && dist(ledger[i], enc) <= IntrusoTolerance
  }

  // ---------------------------------------------------------------------------
  // Lemmas

  /**
   * A ledger grown by the probe itself is comparable with the probe exactly
   * when every earlier entry has the probe's element count.
   */
  lemma GrownLedgerBroadcastsIff(ledger: seq<Embedding>, enc: Embedding)
    ensures Broadcastable(ledger + [enc], enc) <==>
            forall i :: 0 <= i < |ledger| ==> Elements(ledger[i]) == Elements(enc)
  {
    var grown := ledger + [enc];
    assert grown[|ledger|] == enc;
    if Broadcastable(grown, enc) {
      forall i | 0 <= i < |ledger| ensures Elements(ledger[i]) == Elements(enc) {
        assert grown[i] == ledger[i];
      }
    }
    if forall i :: 0 <= i < |ledger| ==> Elements(ledger[i]) == Elements(enc) {
      forall i | 0 <= i < |grown| ensures Elements(grown[i]) == Elements(enc) {
        if i < |ledger| {
          assert grown[i] == ledger[i];
        }
      }
    }
  }

  /** References of two different element counts never broadcast: face_distance raises. */
  lemma MixedShapesRaise(refs: seq<Embedding>, probe: Embedding, dist: DistanceFn, i: nat, j: nat)
    requires i < |refs| && j < |refs| && Elements(refs[i]) != Elements(refs[j])
    ensures !Broadcastable(refs, probe) && FaceDistances(refs, probe, dist).None?
  {
  }

  /** Under a successful face_distance, the distances follow the references in order. */
  lemma DistancesInReferenceOrder(refs: seq<Embedding>, probe: Embedding, dist: DistanceFn)
    ensures FaceDistances(refs, probe, dist).Some? <==> Broadcastable(refs, probe)
    ensures FaceDistances(refs, probe, dist).Some? ==>
              |FaceDistances(refs, probe, dist).value| == |refs| &&
              forall i :: 0 <= i < |refs| ==> FaceDistances(refs, probe, dist).value[i] == dist(refs[i], probe)
  {
  }

  /** The tolerance test is inclusive: a first reference at exactly 0.5 with a name matches. */
  lemma ToleranceIsInclusive(known: seq<Embedding>, names: seq<string>, probe: Embedding, dist: DistanceFn)
    requires |known| == |names| > 0 && Broadcastable(known, probe)
    requires dist(known[0], probe) == AuthTolerance && names[0] != ""
    ensures ClassifyFace(known, names, probe, dist) == Some(Authorized(names[0]))
  {
    var ds := FaceDistances(known, probe, dist).value;
    assert ds[0] == AuthTolerance;
  }

  /** With no authorized embeddings every face is an intruder, whatever the distances. */
  lemma EmptyRegistryNeverMatches(probe: Embedding, dist: DistanceFn)
    ensures ClassifyFace([], [], probe, dist) == Some(Intruso)
  {
  }

  /** The first-match tie-break picks one index: among equal candidates, the earliest. */
  lemma FirstMatchUnique(known: seq<Embedding>, probe: Embedding, dist: DistanceFn, i: int, j: int)
    requires IsFirstMatch(known, probe, dist, i) && IsFirstMatch(known, probe, dist, j)
    ensures i == j
  {
  }

  /**
   * Classification is the authorized name exactly when the first match carries
   * that (non-empty) name; this is the converse of ClassifyFace's contract.
   */
  lemma AuthorizedIff(known: seq<Embedding>, names: seq<string>, probe: Embedding, dist: DistanceFn, i: int)
    requires |known| == |names| && Broadcastable(known, probe)
    requires IsFirstMatch(known, probe, dist, i)
    ensures names[i] != "" ==> ClassifyFace(known, names, probe, dist) == Some(Authorized(names[i]))
    ensures names[i] == "" ==> ClassifyFace(known, names, probe, dist) == Some(Intruso)
  {
    var r := ClassifyFace(known, names, probe, dist);
    assert r.Some?;
    if r.value.Authorized? {
      var k :| IsFirstMatch(known, probe, dist, k) && names[k] == r.value.name;
      FirstMatchUnique(known, probe, dist, i, k);
    }
  }
}
