/**
 * Worked cases on the service's own registry: how detections are collected,
 * first seen wins, Python's negative indexing, a failed lookup in the
 * middle of a call, and a session of two uploads and a log download.
 */
module Scenarios {
  import opened Wrappers
  import opened Sampling
  import opened Registry
  import opened Interpretation
  import opened App

  /** Results without boxes contribute nothing; the others contribute their boxes in order. */
  lemma ScenarioDetections()
    ensures Detections([Boxes([2]), NoBoxes, Boxes([2, 0])]) == [2, 2, 0]
  {
    var r := [Boxes([2]), NoBoxes, Boxes([2, 0])];
    assert r[..2] == [Boxes([2]), NoBoxes];
    assert r[..2][..1] == [Boxes([2])];
    assert [Boxes([2])][..0] == [];
    assert Detections(r[..2]) == [2];
  }

  /** Two head-line boxes: the class is sampled once and logged once, from the first draws and clock readings. */
  lemma HeadLineTwice(rnd: nat -> nat, clock: nat -> int)
    ensures WellFormed(Palm)
    ensures var line2 := Sample(Palm.predictions["line2"], 2, rnd, 0);
      Select(Palm, [2, 2], rnd, clock) == Run(Selection(map["line2" := line2], ["line2"], Records("line2", line2, clock, 0)), None)
  {
    PalmWellFormed();
    assert [] + [2] == [2] && [2] + [2] == [2, 2];
    SelectStep(Palm, [], 2, rnd, clock);
    SelectStep(Palm, [2], 2, rnd, clock);
    assert NameOf(Palm, 2) == "line2";
  }

  /** Class index -1 is the last registered class, as in Python's list indexing. */
  lemma NegativeIndexCountsFromEnd(rnd: nat -> nat, clock: nat -> int)
    ensures WellFormed(Palm)
    ensures var run := Select(Palm, [-1], rnd, clock);
      run.failedAt.None? && run.sel.order == ["line3"] && "line3" in run.sel.chosen
  {
    PalmWellFormed();
    assert [] + [-1] == [-1];
    SelectStep(Palm, [], -1, rnd, clock);
    assert NameOf(Palm, -1) == "line3";
  }

  /** Index 4 has no class: the call fails on it, but the entries of the life line before it stay logged. */
  lemma OutOfRangeKeepsEarlierEntries(rnd: nat -> nat, clock: nat -> int)
    ensures WellFormed(Palm)
    ensures var run := Select(Palm, [0, 4], rnd, clock);
      run.failedAt == Some(4) && run.sel.order == ["line0"] && |run.sel.appended| == 2
  {
    PalmWellFormed();
    assert [] + [0] == [0] && [0] + [4] == [0, 4];
    SelectStep(Palm, [], 0, rnd, clock);
    SelectStep(Palm, [0], 4, rnd, clock);
    assert NameOf(Palm, 0) == "line0";
    assert !Known(Palm, 4);
  }

  /**
   * A fresh service: an upload without an image is turned away and logs
   * nothing; an upload whose image shows the head line twice is answered
   * with that class alone, and the log then holds its two entries.
   */
  method RejectedThenHeadLine(rnd: nat -> nat, clock: nat -> int) returns (first: Response, second: Response, log: seq<Entry>)
    ensures first == Rejected(400, "No image provided")
    ensures second.Predicted? && second.predictions.Keys == {"line2"}
    ensures |log| == 2 && log[0].lineName == "line2" && log[1].lineName == "line2"
  {
    var service := new InterpretationLog();
    PalmWellFormed();
    first := service.Upload(Request(None), [Boxes([2])], rnd, clock);
    assert service.entries == [];
    var results := [Boxes([2, 2])];
    assert results[..0] == [];
    assert Detections(results) == [2, 2];
    HeadLineTwice(rnd, clock);
    second := service.Upload(Request(Some(FilePart("palm.jpg", true))), results, rnd, clock);
    log := service.DownloadLog();
    var line2 := Sample(Palm.predictions["line2"], 2, rnd, 0);
    RecordsAt("line2", line2, clock, 0, 0);
    RecordsAt("line2", line2, clock, 0, 1);
  }
}
