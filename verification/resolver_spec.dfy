/**
 * What `_best_label_near_point` computes, stated without the loop: the valid
 * instances flattened in label/instance order, and the three selection rules
 * over them. The fold of the Resolver module is proved to meet each rule.
 */
module ResolverSpec {
  import opened Wrappers
  import opened Labels
  import opened Resolver
  import Sorting

  /** The candidates one label contributes: its valid instances, in order. */
  function InstanceCandidates(name: string, labelConfidence: real, insts: seq<Instance>, u: real, v: real): seq<Candidate>
    decreases |insts|
  {
    if |insts| == 0 then []
    else
      (if IsValid(insts[0].box) then [MakeCandidate(name, labelConfidence, insts[0], u, v)] else [])
      + InstanceCandidates(name, labelConfidence, insts[1..], u, v)
  }

  /** Every valid instance of every label, in the order the loops visit them. */
  function Candidates(labels: seq<Label>, u: real, v: real): seq<Candidate>
    decreases |labels|
  {
    if |labels| == 0 then []
    else InstanceCandidates(labels[0].name, labels[0].confidence, labels[0].instances, u, v) + Candidates(labels[1..], u, v)
  }

  /** `c` is what the resolver records for a valid instance of one of the labels. */
  ghost predicate IsCandidateOf(labels: seq<Label>, u: real, v: real, c: Candidate) {
    exists i, j ::
      && 0 <= i < |labels|
      && 0 <= j < |labels[i].instances|
      && IsValid(labels[i].instances[j].box)
      && c == MakeCandidate(labels[i].name, labels[i].confidence, labels[i].instances[j], u, v)
  }

  ghost predicate SomeValidBox(labels: seq<Label>) {
    exists i, j :: 0 <= i < |labels| && 0 <= j < |labels[i].instances| && IsValid(labels[i].instances[j].box)
  }

  ghost predicate SomeValidBoxContains(labels: seq<Label>, u: real, v: real) {
    exists i, j ::
      && 0 <= i < |labels|
      && 0 <= j < |labels[i].instances|
      && IsValid(labels[i].instances[j].box)
      && Contains(labels[i].instances[j].box, u, v)
  }

  /** The containing candidates, in order. */
  function InsideOf(cs: seq<Candidate>): (r: seq<Candidate>)
    ensures forall c :: c in r <==> c in cs && c.inside
  {
    if |cs| == 0 then []
    else
      var p := cs[..|cs| - 1];
      assert cs == p + [cs[|cs| - 1]];
      InsideOf(p) + (if cs[|cs| - 1].inside then [cs[|cs| - 1]] else [])
  }

  /**
   * `cs[k]` is a non-containing candidate with the highest score, and every
   * earlier non-containing candidate scores strictly less.
   */
  ghost predicate IsFirstBestOutside(cs: seq<Candidate>, k: int) {
    && 0 <= k < |cs|
    && !cs[k].inside
    && (forall j :: 0 <= j < |cs| && !cs[j].inside ==> Score(cs[j]) <= Score(cs[k]))
    && (forall j :: 0 <= j < k && !cs[j].inside ==> Score(cs[j]) < Score(cs[k]))
  }

  /** The running best after visiting `cs`. */
  ghost predicate TracksBest(cs: seq<Candidate>, best: Option<Best>) {
    match best
    case None => forall j :: 0 <= j < |cs| ==> cs[j].inside
    case Some(b) => exists k :: IsFirstBestOutside(cs, k) && b == Best(Score(cs[k]), cs[k].name)
  }

  /** The loop state after visiting the candidates `cs`. */
  ghost predicate ScanInvariant(cs: seq<Candidate>, acc: Scan) {
    acc.containing == InsideOf(cs) && TracksBest(cs, acc.best)
  }

  lemma InsideOfSnoc(cs: seq<Candidate>, c: Candidate)
    ensures InsideOf(cs + [c]) == InsideOf(cs) + (if c.inside then [c] else [])
  {
    assert (cs + [c])[..|cs|] == cs;
  }

  /** A candidate after `cs[k]` that does not beat it leaves it the first best. */
  lemma FirstBestSurvives(cs: seq<Candidate>, k: int, c: Candidate)
    requires IsFirstBestOutside(cs, k)
    requires !c.inside ==> Score(c) <= Score(cs[k])
    ensures IsFirstBestOutside(cs + [c], k)
  {
    var cs' := cs + [c];
    assert forall j :: 0 <= j < |cs| ==> cs'[j] == cs[j];
  }

  /** A non-containing candidate that beats every earlier one becomes the first best. */
  lemma NewFirstBest(cs: seq<Candidate>, c: Candidate)
    requires !c.inside
    requires forall j :: 0 <= j < |cs| && !cs[j].inside ==> Score(cs[j]) < Score(c)
    ensures IsFirstBestOutside(cs + [c], |cs|)
  {
    var cs' := cs + [c];
    assert forall j :: 0 <= j < |cs| ==> cs'[j] == cs[j];
  }

  lemma ObserveKeepsInvariant(cs: seq<Candidate>, acc: Scan, c: Candidate)
    requires ScanInvariant(cs, acc)
    ensures ScanInvariant(cs + [c], Observe(acc, c))
  {
    InsideOfSnoc(cs, c);
    var acc' := Observe(acc, c);
    if acc.best.None? {
      if !c.inside {
        NewFirstBest(cs, c);
      } else {
        assert forall j :: 0 <= j < |cs| ==> (cs + [c])[j] == cs[j];
      }
    } else {
      var k :| IsFirstBestOutside(cs, k) && acc.best.value == Best(Score(cs[k]), cs[k].name);
      if !c.inside && Score(c) > acc.best.value.score {
        NewFirstBest(cs, c);
        assert acc'.best.value == Best(Score((cs + [c])[|cs|]), (cs + [c])[|cs|].name);
      } else {
        FirstBestSurvives(cs, k, c);
        assert acc'.best == acc.best;
        assert acc'.best.value == Best(Score((cs + [c])[k]), (cs + [c])[k].name);
      }
    }
  }

  lemma {:induction false} ScanInstancesKeepsInvariant(
    cs: seq<Candidate>, acc: Scan, name: string, labelConfidence: real, insts: seq<Instance>, u: real, v: real)
    requires ScanInvariant(cs, acc)
    ensures ScanInvariant(
              cs + InstanceCandidates(name, labelConfidence, insts, u, v),
              ScanInstances(acc, name, labelConfidence, insts, u, v))
    decreases |insts|
  {
    var all := InstanceCandidates(name, labelConfidence, insts, u, v);
    if |insts| == 0 {
      assert cs + all == cs;
    } else {
      var c := MakeCandidate(name, labelConfidence, insts[0], u, v);
      var rest := InstanceCandidates(name, labelConfidence, insts[1..], u, v);
      var head: seq<Candidate>, acc': Scan;
      if IsValid(insts[0].box) {
        head, acc' := [c], Observe(acc, c);
        ObserveKeepsInvariant(cs, acc, c);
      } else {
        head, acc' := [], acc;
        assert cs + head == cs;
      }
      var cs1 := cs + head;
      assert cs1 + rest == cs + all by {
        assert all == head + rest;
      }
      assert ScanInstances(acc, name, labelConfidence, insts, u, v)
          == ScanInstances(acc', name, labelConfidence, insts[1..], u, v);
      ScanInstancesKeepsInvariant(cs1, acc', name, labelConfidence, insts[1..], u, v);
    }
  }

  lemma {:induction false} ScanLabelsKeepsInvariant(cs: seq<Candidate>, acc: Scan, labels: seq<Label>, u: real, v: real)
    requires ScanInvariant(cs, acc)
    ensures ScanInvariant(cs + Candidates(labels, u, v), ScanLabels(acc, labels, u, v))
    decreases |labels|
  {
    var all := Candidates(labels, u, v);
    if |labels| == 0 {
      assert cs + all == cs;
    } else {
      var own := InstanceCandidates(labels[0].name, labels[0].confidence, labels[0].instances, u, v);
      var rest := Candidates(labels[1..], u, v);
      var acc' := ScanInstances(acc, labels[0].name, labels[0].confidence, labels[0].instances, u, v);
      ScanInstancesKeepsInvariant(cs, acc, labels[0].name, labels[0].confidence, labels[0].instances, u, v);
      var cs1 := cs + own;
      assert cs1 + rest == cs + all by {
        assert all == own + rest;
      }
      assert ScanLabels(acc, labels, u, v) == ScanLabels(acc', labels[1..], u, v);
      ScanLabelsKeepsInvariant(cs1, acc', labels[1..], u, v);
    }
  }

  /** After the loops, the state holds exactly the containing candidates and the first best other one. */
  lemma ScanComputesCandidates(labels: seq<Label>, u: real, v: real)
    ensures ScanInvariant(Candidates(labels, u, v), ScanLabels(Start, labels, u, v))
  {
    assert ScanInvariant([], Start);
    ScanLabelsKeepsInvariant([], Start, labels, u, v);
    assert [] + Candidates(labels, u, v) == Candidates(labels, u, v);
  }

  lemma {:induction false} InstanceCandidatesAreValidInstances(
    name: string, labelConfidence: real, insts: seq<Instance>, u: real, v: real)
    ensures forall c :: c in InstanceCandidates(name, labelConfidence, insts, u, v) <==>
              exists j :: 0 <= j < |insts| && IsValid(insts[j].box) && c == MakeCandidate(name, labelConfidence, insts[j], u, v)
    decreases |insts|
  {
    if |insts| > 0 {
      InstanceCandidatesAreValidInstances(name, labelConfidence, insts[1..], u, v);
      forall c ensures c in InstanceCandidates(name, labelConfidence, insts, u, v) <==>
                exists j :: 0 <= j < |insts| && IsValid(insts[j].box) && c == MakeCandidate(name, labelConfidence, insts[j], u, v)
      {
        if exists j :: 0 <= j < |insts| && IsValid(insts[j].box) && c == MakeCandidate(name, labelConfidence, insts[j], u, v) {
          var j :| 0 <= j < |insts| && IsValid(insts[j].box) && c == MakeCandidate(name, labelConfidence, insts[j], u, v);
          if j > 0 {
            assert insts[1..][j - 1] == insts[j];
          }
        }
        if c in InstanceCandidates(name, labelConfidence, insts[1..], u, v) {
          var j :| 0 <= j < |insts[1..]| && IsValid(insts[1..][j].box)
                   && c == MakeCandidate(name, labelConfidence, insts[1..][j], u, v);
          assert insts[1..][j] == insts[j + 1];
        }
      }
    }
  }

  /** The candidates are exactly the records of the valid instances. */
  lemma {:induction false} CandidatesAreValidInstances(labels: seq<Label>, u: real, v: real)
    ensures forall c :: c in Candidates(labels, u, v) <==> IsCandidateOf(labels, u, v, c)
    decreases |labels|
  {
    if |labels| > 0 {
      var own := InstanceCandidates(labels[0].name, labels[0].confidence, labels[0].instances, u, v);
      CandidatesAreValidInstances(labels[1..], u, v);
      InstanceCandidatesAreValidInstances(labels[0].name, labels[0].confidence, labels[0].instances, u, v);
      forall c ensures c in Candidates(labels, u, v) <==> IsCandidateOf(labels, u, v, c) {
        if c in own {
          var j :| 0 <= j < |labels[0].instances| && IsValid(labels[0].instances[j].box)
                   && c == MakeCandidate(labels[0].name, labels[0].confidence, labels[0].instances[j], u, v);
          assert IsCandidateOf(labels, u, v, c);
        }
        if c in Candidates(labels[1..], u, v) {
          var i, j :| 0 <= i < |labels[1..]| && 0 <= j < |labels[1..][i].instances|
                      && IsValid(labels[1..][i].instances[j].box)
                      && c == MakeCandidate(labels[1..][i].name, labels[1..][i].confidence, labels[1..][i].instances[j], u, v);
          assert labels[1..][i] == labels[i + 1];
          assert IsCandidateOf(labels, u, v, c);
        }
        if IsCandidateOf(labels, u, v, c) {
          var i, j :| 0 <= i < |labels| && 0 <= j < |labels[i].instances| && IsValid(labels[i].instances[j].box)
                      && c == MakeCandidate(labels[i].name, labels[i].confidence, labels[i].instances[j], u, v);
          if i == 0 {
            assert c in own;
          } else {
            assert labels[1..][i - 1] == labels[i];
            assert IsCandidateOf(labels[1..], u, v, c);
          }
        }
      }
    }
  }

  /** In terms of the candidates: a valid box exists, and a valid box contains the point. */
  lemma CandidatesWitnessBoxes(labels: seq<Label>, u: real, v: real)
    ensures SomeValidBox(labels) <==> |Candidates(labels, u, v)| > 0
    ensures SomeValidBoxContains(labels, u, v) <==> |InsideOf(Candidates(labels, u, v))| > 0
  {
    var cs := Candidates(labels, u, v);
    CandidatesAreValidInstances(labels, u, v);
    if SomeValidBox(labels) {
      var i, j :| 0 <= i < |labels| && 0 <= j < |labels[i].instances| && IsValid(labels[i].instances[j].box);
      assert MakeCandidate(labels[i].name, labels[i].confidence, labels[i].instances[j], u, v) in cs;
    }
    if |cs| > 0 {
      assert cs[0] in cs;
    }
    if SomeValidBoxContains(labels, u, v) {
      var i, j :| 0 <= i < |labels| && 0 <= j < |labels[i].instances| && IsValid(labels[i].instances[j].box)
                  && Contains(labels[i].instances[j].box, u, v);
      assert MakeCandidate(labels[i].name, labels[i].confidence, labels[i].instances[j], u, v) in InsideOf(cs);
    }
    if |InsideOf(cs)| > 0 {
      assert InsideOf(cs)[0] in InsideOf(cs);
    }
  }

  /**
   * Rule 1: when some valid box contains the point, the answer is the label of
   * the containing instance with the lexicographically least
   * `(area, -confidence, dist2)`, the earliest one among equal keys — whatever
   * the non-containing boxes score.
   */
  lemma ResolvePrefersContaining(labels: seq<Label>, u: real, v: real) returns (k: nat)
    requires SomeValidBoxContains(labels, u, v)
    ensures Sorting.IsFirstLeast(InsideOf(Candidates(labels, u, v)), k, KeyLe)
    ensures InsideOf(Candidates(labels, u, v))[k].inside
    ensures IsCandidateOf(labels, u, v, InsideOf(Candidates(labels, u, v))[k])
    ensures BestLabelNearPoint(labels, u, v) == Some(InsideOf(Candidates(labels, u, v))[k].name)
  {
    var ins := InsideOf(Candidates(labels, u, v));
    CandidatesWitnessBoxes(labels, u, v);
    CandidatesAreValidInstances(labels, u, v);
    ScanComputesCandidates(labels, u, v);
    KeyLeIsTotalPreorder();
    k := Sorting.SortByHead(ins, KeyLe);
    assert ins[k] in ins;
  }

  /**
   * Rule 2: when valid boxes exist but none contains the point, the answer is
   * the label of the first instance whose score `-dist2 + confidence/1000` is
   * maximal; a later equal score never replaces it.
   */
  lemma ResolveFallsBackToNearest(labels: seq<Label>, u: real, v: real) returns (k: nat)
    requires SomeValidBox(labels) && !SomeValidBoxContains(labels, u, v)
    ensures IsFirstBestOutside(Candidates(labels, u, v), k)
    ensures IsCandidateOf(labels, u, v, Candidates(labels, u, v)[k])
    ensures BestLabelNearPoint(labels, u, v) == Some(Candidates(labels, u, v)[k].name)
  {
    var cs := Candidates(labels, u, v);
    CandidatesWitnessBoxes(labels, u, v);
    CandidatesAreValidInstances(labels, u, v);
    ScanComputesCandidates(labels, u, v);
    var acc := ScanLabels(Start, labels, u, v);
    assert cs[0] !in InsideOf(cs);
    var k' :| IsFirstBestOutside(cs, k') && acc.best.value == Best(Score(cs[k']), cs[k'].name);
    k := k';
    assert cs[k] in cs;
  }

  /**
   * Rule 3: when no label has a valid box, the answer is the first label with
   * the highest top-level confidence.
   */
  lemma ResolveFallsBackToTopConfidence(labels: seq<Label>, u: real, v: real) returns (k: nat)
    requires |labels| > 0 && !SomeValidBox(labels)
    ensures Sorting.IsFirstLeast(labels, k, ConfidenceGe)
    ensures forall j :: 0 <= j < |labels| ==> labels[j].confidence <= labels[k].confidence
    ensures forall j :: 0 <= j < k ==> labels[j].confidence < labels[k].confidence
    ensures BestLabelNearPoint(labels, u, v) == Some(labels[k].name)
  {
    var cs := Candidates(labels, u, v);
    CandidatesWitnessBoxes(labels, u, v);
    ScanComputesCandidates(labels, u, v);
    ConfidenceGeIsTotalPreorder();
    k := Sorting.SortByHead(labels, ConfidenceGe);
  }

  /** Any answer is the name of one of the input labels. */
  lemma ResolveNamesAnInputLabel(labels: seq<Label>, u: real, v: real)
    ensures BestLabelNearPoint(labels, u, v).Some? ==>
              exists i :: 0 <= i < |labels| && labels[i].name == BestLabelNearPoint(labels, u, v).value
  {
    var r := BestLabelNearPoint(labels, u, v);
    var cs := Candidates(labels, u, v);
    if SomeValidBoxContains(labels, u, v) {
      var k := ResolvePrefersContaining(labels, u, v);
      var i, j :| 0 <= i < |labels| && 0 <= j < |labels[i].instances| && IsValid(labels[i].instances[j].box)
                  && InsideOf(cs)[k] == MakeCandidate(labels[i].name, labels[i].confidence, labels[i].instances[j], u, v);
      assert labels[i].name == r.value;
    } else if SomeValidBox(labels) {
      var k := ResolveFallsBackToNearest(labels, u, v);
      var i, j :| 0 <= i < |labels| && 0 <= j < |labels[i].instances| && IsValid(labels[i].instances[j].box)
                  && cs[k] == MakeCandidate(labels[i].name, labels[i].confidence, labels[i].instances[j], u, v);
      assert labels[i].name == r.value;
    } else if |labels| > 0 {
      var k := ResolveFallsBackToTopConfidence(labels, u, v);
      assert labels[k].name == r.value;
    }
  }

  /** The label list with instance `j` of label `i` taken out. */
  function RemoveInstance(labels: seq<Label>, i: nat, j: nat): seq<Label>
    requires i < |labels| && j < |labels[i].instances|
  {
    var insts := labels[i].instances;
    labels[i := labels[i].(instances := insts[..j] + insts[j + 1..])]
  }

  lemma {:induction false} ScanInstancesSkipsInvalid(
    acc: Scan, name: string, labelConfidence: real, insts: seq<Instance>, j: nat, u: real, v: real)
    requires j < |insts| && !IsValid(insts[j].box)
    ensures ScanInstances(acc, name, labelConfidence, insts[..j] + insts[j + 1..], u, v)
         == ScanInstances(acc, name, labelConfidence, insts, u, v)
    decreases j
  {
    var rest := insts[..j] + insts[j + 1..];
    if j == 0 {
      assert rest == insts[1..];
    } else {
      assert rest[0] == insts[0];
      assert rest[1..] == insts[1..][..j - 1] + insts[1..][j..];
      var acc' := if IsValid(insts[0].box) then Observe(acc, MakeCandidate(name, labelConfidence, insts[0], u, v)) else acc;
      ScanInstancesSkipsInvalid(acc', name, labelConfidence, insts[1..], j - 1, u, v);
    }
  }

  lemma {:induction false} ScanLabelsSkipsInvalid(acc: Scan, labels: seq<Label>, i: nat, j: nat, u: real, v: real)
    requires i < |labels| && j < |labels[i].instances| && !IsValid(labels[i].instances[j].box)
    ensures ScanLabels(acc, RemoveInstance(labels, i, j), u, v) == ScanLabels(acc, labels, u, v)
    decreases i
  {
    var labels' := RemoveInstance(labels, i, j);
    if i == 0 {
      ScanInstancesSkipsInvalid(acc, labels[0].name, labels[0].confidence, labels[0].instances, j, u, v);
      assert labels'[1..] == labels[1..];
    } else {
      assert labels'[0] == labels[0];
      assert labels'[1..] == RemoveInstance(labels[1..], i - 1, j);
      var acc' := ScanInstances(acc, labels[0].name, labels[0].confidence, labels[0].instances, u, v);
      ScanLabelsSkipsInvalid(acc', labels[1..], i - 1, j, u, v);
    }
  }

  /** The descending-confidence sort picks the same name from two lists that agree on names and confidences. */
  lemma TopConfidenceNameAgrees(labels: seq<Label>, labels': seq<Label>)
    requires |labels| == |labels'| > 0
    requires forall a :: 0 <= a < |labels| ==>
               labels'[a].confidence == labels[a].confidence && labels'[a].name == labels[a].name
    ensures Sorting.SortBy(labels', ConfidenceGe)[0].name == Sorting.SortBy(labels, ConfidenceGe)[0].name
  {
    ConfidenceGeIsTotalPreorder();
    var k := Sorting.SortByHead(labels, ConfidenceGe);
    var k' := Sorting.SortByHead(labels', ConfidenceGe);
    assert Sorting.IsFirstLeast(labels, k', ConfidenceGe);
    Sorting.FirstLeastUnique(labels, k, k', ConfidenceGe);
  }

  /** An instance whose box has a non-positive side never matters: taking it out leaves the answer unchanged. */
  lemma InvalidInstanceIsIgnored(labels: seq<Label>, i: nat, j: nat, u: real, v: real)
    requires i < |labels| && j < |labels[i].instances| && !IsValid(labels[i].instances[j].box)
    ensures BestLabelNearPoint(RemoveInstance(labels, i, j), u, v) == BestLabelNearPoint(labels, u, v)
  {
    var labels' := RemoveInstance(labels, i, j);
    ScanLabelsSkipsInvalid(Start, labels, i, j, u, v);
    var acc := ScanLabels(Start, labels, u, v);
    assert BestLabelNearPoint(labels', u, v) == Choose(acc, labels');
    if |acc.containing| == 0 && acc.best.None? {
      TopConfidenceNameAgrees(labels, labels');
    }
  }
}
