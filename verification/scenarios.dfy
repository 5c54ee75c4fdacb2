/** Worked examples of the resolver on small label lists. */
module ResolverExamples {
  import opened Wrappers
  import opened Labels
  import opened Resolver

  function OneBox(name: string, conf: real, left: real, top: real, width: real, height: real): Label {
    Label(name, conf, [Instance(Box(left, top, width, height), Some(conf))])
  }

  /** A point inside the only box resolves to its label. */
  lemma InsideTheOnlyBox()
    ensures BestLabelNearPoint([OneBox("Cup", 90.0, 0.1, 0.1, 0.1, 0.1)], 0.15, 0.15) == Some("Cup")
  {
  }

  /** Of two boxes containing the point, the smaller wins even when it comes later. */
  lemma SmallerContainingBoxWins()
    ensures BestLabelNearPoint(
              [OneBox("Table", 80.0, 0.0, 0.0, 1.0, 1.0), OneBox("Cup", 90.0, 0.1, 0.1, 0.1, 0.1)],
              0.15, 0.15) == Some("Cup")
  {
  }

  /** Of two containing boxes of equal area, the more confident wins. */
  lemma MoreConfidentEqualBoxWins()
    ensures BestLabelNearPoint(
              [OneBox("Mug", 60.0, 0.1, 0.1, 0.2, 0.2), OneBox("Cup", 90.0, 0.0, 0.0, 0.2, 0.2)],
              0.15, 0.15) == Some("Cup")
  {
  }

  /** A box that does not contain the point is still chosen when it is the only valid one. */
  lemma OnlyOutsideBoxIsChosen()
    ensures BestLabelNearPoint([OneBox("Far", 50.0, 0.9, 0.9, 0.05, 0.05)], 0.0, 0.0) == Some("Far")
  {
  }

  /** Without any instance the most confident label wins. */
  lemma MostConfidentLabelWithoutBoxes()
    ensures BestLabelNearPoint([Label("A", 95.0, []), Label("B", 99.0, [])], 0.5, 0.5) == Some("B")
  {
  }

  /** A zero-width box is skipped, so the label-level fallback decides. */
  lemma ZeroWidthBoxIsSkipped()
    ensures BestLabelNearPoint(
              [OneBox("Flat", 99.0, 0.1, 0.1, 0.0, 0.5), Label("Wide", 99.5, [])],
              0.1, 0.1) == Some("Wide")
  {
  }
}
