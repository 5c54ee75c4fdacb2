/**
 * `_best_label_near_point`: the two nested loops over labels and their
 * instances, written as a left fold that carries the same two pieces of state
 * as the source — the list of containing candidates and the best-scoring
 * non-containing one — followed by the three-way selection.
 */
module Resolver {
  import opened Wrappers
  import opened Labels
  import Sorting

  /** The running best non-containing instance: its score and label name. */
  datatype Best = Best(score: real, name: string)

  /** The loop state: containing candidates in visiting order, and the running best. */
  datatype Scan = Scan(containing: seq<Candidate>, best: Option<Best>)

  const Start: Scan := Scan([], None)

  /** One valid instance: a containing one is appended; any other replaces the best only on a strictly higher score. */
  function Observe(acc: Scan, c: Candidate): (r: Scan)
    ensures c.inside ==> r.containing == acc.containing + [c] && r.best == acc.best
    ensures !c.inside ==> r.containing == acc.containing && r.best.Some?
    ensures !c.inside ==> r.best.value.score >= Score(c)
    ensures !c.inside && acc.best.Some? ==> r.best.value.score >= acc.best.value.score
    ensures !c.inside ==> r.best == acc.best || r.best == Some(Best(Score(c), c.name))
  {
    if c.inside then acc.(containing := acc.containing + [c])
    else if acc.best.None? || Score(c) > acc.best.value.score then acc.(best := Some(Best(Score(c), c.name)))
    else acc
  }

  /**
   * `later` grew from `earlier`: the containing list only gains entries at its
   * end, and the running best, once set, never scores lower.
   */
  predicate Extends(earlier: Scan, later: Scan) {
    && |earlier.containing| <= |later.containing|
    && later.containing[..|earlier.containing|] == earlier.containing
    && (earlier.best.Some? ==> later.best.Some? && later.best.value.score >= earlier.best.value.score)
  }

  /** The inner loop over one label's instances; invalid boxes are skipped. */
  function ScanInstances(acc: Scan, name: string, labelConfidence: real, insts: seq<Instance>, u: real, v: real): (r: Scan)
    ensures Extends(acc, r)
    decreases |insts|
  {
    if |insts| == 0 then acc
    else
      var acc' := if IsValid(insts[0].box) then Observe(acc, MakeCandidate(name, labelConfidence, insts[0], u, v)) else acc;
      ScanInstances(acc', name, labelConfidence, insts[1..], u, v)
  }

  /** The outer loop over the labels. */
  function ScanLabels(acc: Scan, labels: seq<Label>, u: real, v: real): (r: Scan)
    ensures Extends(acc, r)
    decreases |labels|
  {
    if |labels| == 0 then acc
    else
      var acc' := ScanInstances(acc, labels[0].name, labels[0].confidence, labels[0].instances, u, v);
      ScanLabels(acc', labels[1..], u, v)
  }

  /**
   * The selection after the loops: the head of the containing list sorted by
   * `(area, -confidence, dist2)`, else the running best, else the head of the
   * labels sorted by descending confidence, else nothing.
   */
  function Choose(acc: Scan, labels: seq<Label>): (r: Option<string>)
    ensures r.None? <==> |acc.containing| == 0 && acc.best.None? && |labels| == 0
    ensures |acc.containing| > 0 ==> exists k :: 0 <= k < |acc.containing| && r == Some(acc.containing[k].name)
    ensures |acc.containing| == 0 && acc.best.Some? ==> r == Some(acc.best.value.name)
    ensures |acc.containing| == 0 && acc.best.None? && |labels| > 0 ==>
              exists k :: 0 <= k < |labels| && r == Some(labels[k].name)
  {
    if |acc.containing| > 0 then
      Sorting.SortByHeadIsMember(acc.containing, KeyLe);
      Some(Sorting.SortBy(acc.containing, KeyLe)[0].name)
    else if acc.best.Some? then Some(acc.best.value.name)
    else if |labels| > 0 then
      Sorting.SortByHeadIsMember(labels, ConfidenceGe);
      Some(Sorting.SortBy(labels, ConfidenceGe)[0].name)
    else None
  }

  /** The resolver answers with some name exactly when the label list is non-empty. */
  function BestLabelNearPoint(labels: seq<Label>, u: real, v: real): (r: Option<string>)
    ensures r.None? <==> |labels| == 0
  {
    Choose(ScanLabels(Start, labels, u, v), labels)
  }
}
