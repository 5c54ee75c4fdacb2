/**
 * The label records the detector returns, and what the resolver computes for
 * one bounding-box instance. A key missing from the detector's response is
 * read with a default of 0 by the resolver (`Left`, `Top`, `Width`, `Height`,
 * the label's `Confidence`), so those fields hold 0.0 when the key is absent.
 * An instance's own `Confidence` defaults to its label's instead, so it is an
 * `Option`.
 */
module Labels {
  import opened Wrappers
  import Sorting

  datatype Box = Box(left: real, top: real, width: real, height: real)

  datatype Instance = Instance(box: Box, confidence: Option<real>)

  datatype Label = Label(name: string, confidence: real, instances: seq<Instance>)

  /** Boxes with a non-positive width or height are skipped. */
  predicate IsValid(b: Box) {
    b.width > 0.0 && b.height > 0.0
  }

  /** Containment with closed intervals on both axes. */
  predicate Contains(b: Box, u: real, v: real) {
    b.left <= u <= b.left + b.width && b.top <= v <= b.top + b.height
  }

  function Area(b: Box): real {
    b.width * b.height
  }

  function CenterX(b: Box): real {
    b.left + b.width / 2.0
  }

  function CenterY(b: Box): real {
    b.top + b.height / 2.0
  }

  /** Squared distance from the point to the box's center. */
  function Dist2(b: Box, u: real, v: real): (r: real)
    ensures r >= 0.0
  {
    var dx, dy := u - CenterX(b), v - CenterY(b);
    Square(dx);
    Square(dy);
    dx * dx + dy * dy
  }

  /** A square is never negative. */
  lemma Square(a: real)
    ensures a * a >= 0.0
  {
    if a < 0.0 {
      assert a * a == (-a) * (-a);
    }
  }

  /** What the resolver records for one valid instance of label `name`. */
  datatype Candidate = Candidate(name: string, inside: bool, area: real, confidence: real, dist2: real)

  function MakeCandidate(name: string, labelConfidence: real, inst: Instance, u: real, v: real): Candidate {
    Candidate(
      name,
      Contains(inst.box, u, v),
      Area(inst.box),
      inst.confidence.GetOr(labelConfidence),
      Dist2(inst.box, u, v))
  }

  /** The score of a box that does not contain the point. */
  function Score(c: Candidate): real {
    -c.dist2 + c.confidence / 1000.0
  }

  /** Strict lexicographic order on the sort key `(area, -confidence, dist2)`. */
  predicate KeyLess(a: Candidate, b: Candidate) {
    || a.area < b.area
    || (a.area == b.area && -a.confidence < -b.confidence)
    || (a.area == b.area && -a.confidence == -b.confidence && a.dist2 < b.dist2)
  }

  /** `a` may stand in front of `b` in the ascending key sort. */
  predicate KeyLe(a: Candidate, b: Candidate) {
    !KeyLess(b, a)
  }

  /** `a` may stand in front of `b` in the descending confidence sort. */
  predicate ConfidenceGe(a: Label, b: Label) {
    a.confidence >= b.confidence
  }

  lemma KeyLeIsTotalPreorder()
    ensures Sorting.TotalPreorder(KeyLe)
  {
  }

  lemma ConfidenceGeIsTotalPreorder()
    ensures Sorting.TotalPreorder(ConfidenceGe)
  {
  }

  /** Every corner and the center of a valid box count as inside it. */
  lemma ValidBoxContainsCornersAndCenter(b: Box)
    requires IsValid(b)
    ensures Contains(b, b.left, b.top)
    ensures Contains(b, b.left + b.width, b.top)
    ensures Contains(b, b.left, b.top + b.height)
    ensures Contains(b, b.left + b.width, b.top + b.height)
    ensures Contains(b, CenterX(b), CenterY(b)) && Dist2(b, CenterX(b), CenterY(b)) == 0.0
  {
  }
}
