/**
 * The interpretation selector of one `/upload` call, as a reference
 * definition over values, and what it promises.
 *
 * The selector walks the detections in order. A detection's class index is
 * looked up in the registry; the first time a class name comes up in the
 * call it gets a sample of `SampleSize` candidate sentences, and one log
 * entry per sampled sentence is appended. Later detections of a class
 * already seen change nothing. A class index the registry lookup rejects
 * stops the walk with an IndexError; what was appended before it stays.
 *
 * Randomness and time are parameters: the t-th draw of the call below a
 * bound `m` is `rnd(t) % m` and the t-th clock reading is `clock(t)`. Each new class takes
 * `SampleSize` of each, so both counters equal the number of entries the
 * call has appended so far.
 */
module Interpretation {
  import opened Wrappers
  import opened Sampling
  import opened Registry

  /** One record of the interpretation log: timestamp, line_name, interpretation. */
  datatype Entry = Entry(timestamp: int, lineName: string, interpretation: string)

  /** One detector result: its `boxes` are None, or it holds the class index of each box in order. */
  datatype Batch = NoBoxes | Boxes(classes: seq<int>)

  /** What the selector has built so far in one call: the per-call map, the classes in the order they were first seen, and the log entries appended. */
  datatype Selection = Selection(chosen: map<string, seq<string>>, order: seq<string>, appended: seq<Entry>)

  /** A selection, and the class index whose lookup failed, if one did. */
  datatype Run = Run(sel: Selection, failedAt: Option<int>)

  const Empty: Selection := Selection(map[], [], [])

  function ClassesOf(b: Batch): seq<int> {
    match b
    case NoBoxes => []
    case Boxes(cs) => cs
  }

  /** The class indices of all detections, batch after batch; every box of every batch with boxes is among them. */
  function Detections(results: seq<Batch>): (r: seq<int>)
    ensures forall i, c :: 0 <= i < |results| && results[i].Boxes? && c in results[i].classes ==> c in r
    decreases |results|
  {
    if results == [] then []
    else
      var init := results[..|results| - 1];
      assert forall i :: 0 <= i < |init| ==> init[i] == results[i];
      Detections(init) + ClassesOf(results[|results| - 1])
  }

  /** The registry lookup of `cls` succeeds. */
  predicate Known(reg: Registry, cls: int)
    requires WellFormed(reg)
  {
    ClassIndex(reg, cls).Some?
  }

  /** Every lookup succeeds. */
  predicate AllKnown(reg: Registry, classes: seq<int>)
    requires WellFormed(reg)
  {
    forall i :: 0 <= i < |classes| ==> Known(reg, classes[i])
  }

  /** `class_names[cls]`: a non-negative index from the front, a negative one from the end. */
  function NameOf(reg: Registry, cls: int): (name: string)
    requires WellFormed(reg)
    requires Known(reg, cls)
    ensures name in reg.classNames
    ensures 0 <= cls ==> name == reg.classNames[cls]
    ensures cls < 0 ==> name == reg.classNames[cls + |reg.classNames|]
  {
    reg.classNames[ClassIndex(reg, cls).value]
  }

  /** The class name of each detection, in detection order. */
  function Names(reg: Registry, classes: seq<int>): (names: seq<string>)
    requires WellFormed(reg)
    requires AllKnown(reg, classes)
    ensures |names| == |classes|
  {
    seq(|classes|, i requires 0 <= i < |classes| => NameOf(reg, classes[i]))
  }

  /** The log records of one sampled class, taking clock readings from `t` on. */
  function Records(name: string, chosen: seq<string>, clock: nat -> int, t: nat): (r: seq<Entry>)
    ensures |r| == |chosen|
    decreases |chosen|
  {
    if chosen == [] then []
    else
      var k := |chosen| - 1;
      Records(name, chosen[..k], clock, t) + [Entry(clock(t + k), name, chosen[k])]
  }

  /** The `i`-th record is the `i`-th chosen sentence, stamped with the `i`-th clock reading from `t`. */
  lemma {:induction false} RecordsAt(name: string, chosen: seq<string>, clock: nat -> int, t: nat, i: nat)
    requires i < |chosen|
    ensures Records(name, chosen, clock, t)[i] == Entry(clock(t + i), name, chosen[i])
    decreases |chosen|
  {
    var k := |chosen| - 1;
    if i < k {
      RecordsAt(name, chosen[..k], clock, t, i);
    }
  }

  /**
   * One detection of class `name`: sample and log it unless the class was
   * already seen. Nothing assigned or logged before changes; a new class
   * goes last in the order and adds `SampleSize` entries to the log.
   */
  function Assign(reg: Registry, sel: Selection, name: string, rnd: nat -> nat, clock: nat -> int): (r: Selection)
    requires WellFormed(reg)
    requires name in reg.classNames
    ensures r.chosen.Keys == sel.chosen.Keys + {name}
    ensures Extends(sel, r)
    ensures name in sel.chosen ==> r == sel
    ensures name !in sel.chosen ==> r.order == sel.order + [name] && |r.appended| == |sel.appended| + SampleSize
  {
    if name in sel.chosen then sel
    else Added(sel, name, Sample(Candidates(reg, name), SampleSize, rnd, |sel.appended|), clock)
  }

  /**
   * What `analyze_image` hands back: the map on success, or `Failure` with
   * the class index whose lookup raised the IndexError that leaves
   * `analyze_image` uncaught and reaches Flask as a server error.
   */
  function Outcome(run: Run): Result<map<string, seq<string>>, int> {
    if run.failedAt.None? then Success(run.sel.chosen) else Failure(run.failedAt.value)
  }

  /**
   * One detection of class index `c` after the run `prev`: a failure stays,
   * a failed lookup stops the run with `c` and keeps the selection, and a
   * successful one leaves the class assigned. The selection only grows.
   */
  function Step(reg: Registry, prev: Run, c: int, rnd: nat -> nat, clock: nat -> int): (r: Run)
    requires WellFormed(reg)
    ensures r.failedAt.None? <==> prev.failedAt.None? && Known(reg, c)
    ensures prev.failedAt.Some? ==> r.failedAt == prev.failedAt
    ensures prev.failedAt.None? && !Known(reg, c) ==> r.failedAt == Some(c)
    ensures r.failedAt.Some? ==> r.sel == prev.sel
    ensures r.failedAt.None? ==> NameOf(reg, c) in r.sel.chosen
    ensures Extends(prev.sel, r.sel)
  {
    if prev.failedAt.Some? then prev
    else if !Known(reg, c) then Run(prev.sel, Some(c))
    else Run(Assign(reg, prev.sel, NameOf(reg, c), rnd, clock), None)
  }

  /**
   * The run continued from `start` over further class indices. A failed
   * run stays as it is; otherwise a failure is at an index of `classes`
   * the registry rejects. The selection only grows.
   *
   * `Walk` and `Extend` are one definition split in two, so that unfolding
   * `Walk` once exposes only the last step, not the walk before it.
   */
  function Walk(reg: Registry, start: Run, classes: seq<int>, rnd: nat -> nat, clock: nat -> int): (r: Run)
    requires WellFormed(reg)
    ensures start.failedAt.Some? ==> r == start
    ensures r.failedAt.Some? && start.failedAt.None? ==> r.failedAt.value in classes && !Known(reg, r.failedAt.value)
    ensures Extends(start.sel, r.sel)
    decreases |classes|, 1
  {
    if classes == [] then start else Extend(reg, start, classes, rnd, clock)
  }

  /** A walk over at least one index: the last one after the walk over the others. */
  function Extend(reg: Registry, start: Run, classes: seq<int>, rnd: nat -> nat, clock: nat -> int): (r: Run)
    requires WellFormed(reg)
    requires classes != []
    ensures start.failedAt.Some? ==> r == start
    ensures r.failedAt.Some? && start.failedAt.None? ==> r.failedAt.value in classes && !Known(reg, r.failedAt.value)
    ensures Extends(start.sel, r.sel)
    decreases |classes|, 0
  {
    var init := classes[..|classes| - 1];
    var mid := Walk(reg, start, init, rnd, clock);
    assert forall x :: x in init ==> x in classes;
    ExtendsTrans(start.sel, mid.sel, Step(reg, mid, classes[|classes| - 1], rnd, clock).sel);
    Step(reg, mid, classes[|classes| - 1], rnd, clock)
  }

  /**
   * The walk from `start` over `classes` ends in `run`. Stated as a
   * predicate so that method contracts name the walk without unfolding it.
   */
  ghost predicate Reaches(reg: Registry, start: Run, classes: seq<int>, rnd: nat -> nat, clock: nat -> int, run: Run)
    requires WellFormed(reg)
  {
    Walk(reg, start, classes, rnd, clock) == run
  }

  /** The selector run over a sequence of class indices, from the empty selection; a failure is at a rejected index. */
  function Select(reg: Registry, classes: seq<int>, rnd: nat -> nat, clock: nat -> int): (r: Run)
    requires WellFormed(reg)
    ensures r.failedAt.Some? ==> r.failedAt.value in classes && !Known(reg, r.failedAt.value)
  {
    Walk(reg, Run(Empty, None), classes, rnd, clock)
  }

  /**
   * The invariant of a selection: classes are assigned once each and are
   * exactly the keys of the map; the d-th class gets the sample drawn with
   * the random values from `SampleSize * d` on, which has `SampleSize`
   * distinct registry sentences; and the log part holds, in order, one
   * entry per sampled sentence of each class, the i-th stamped `clock(i)`.
   */
  ghost predicate Consistent(reg: Registry, sel: Selection, rnd: nat -> nat, clock: nat -> int)
    requires WellFormed(reg)
  {
    && OncePerClass(reg, sel)
    && DrawnFrom(reg, sel, rnd)
    && WellSampled(reg, sel)
    && Logged(reg, sel, clock)
  }

  /** Each class is in `order` once, and `order` lists exactly the keys of the map. */
  ghost predicate OncePerClass(reg: Registry, sel: Selection) {
    && NoDuplicates(sel.order)
    && (forall n :: n in sel.chosen <==> n in sel.order)
    && (forall n :: n in sel.chosen ==> n in reg.classNames)
  }

  /** The d-th class got the sample drawn with the random values from `SampleSize * d` on. */
  ghost predicate DrawnFrom(reg: Registry, sel: Selection, rnd: nat -> nat)
    requires WellFormed(reg)
    requires OncePerClass(reg, sel)
  {
    forall d :: 0 <= d < |sel.order| ==>
      sel.chosen[sel.order[d]] == Sample(Candidates(reg, sel.order[d]), SampleSize, rnd, SampleSize * d)
  }

  /** Every class got `SampleSize` distinct sentences of its own registry list. */
  ghost predicate WellSampled(reg: Registry, sel: Selection)
    requires WellFormed(reg)
    requires OncePerClass(reg, sel)
  {
    forall n :: n in sel.chosen ==>
      |sel.chosen[n]| == SampleSize && NoDuplicates(sel.chosen[n]) &&
      forall i :: 0 <= i < SampleSize ==> sel.chosen[n][i] in Candidates(reg, n)
  }

  /**
   * The log part holds one entry per sampled sentence, class after class in
   * `order` and sentence after sentence in sample order; the i-th entry is
   * stamped `clock(i)`.
   */
  ghost predicate Logged(reg: Registry, sel: Selection, clock: nat -> int)
    requires WellFormed(reg)
    requires OncePerClass(reg, sel) && WellSampled(reg, sel)
  {
    && |sel.appended| == SampleSize * |sel.order|
    && forall i :: 0 <= i < |sel.appended| ==>
         sel.appended[i] == Entry(clock(i), sel.order[i / SampleSize], sel.chosen[sel.order[i / SampleSize]][i % SampleSize])
  }

  /** `f` is `p` grown: classes and log entries only added, no class's sentences changed. */
  ghost predicate Extends(p: Selection, f: Selection) {
    && p.order <= f.order
    && p.appended <= f.appended
    && forall n :: n in p.chosen ==> n in f.chosen && f.chosen[n] == p.chosen[n]
  }

  lemma ExtendsTrans(p: Selection, q: Selection, f: Selection)
    requires Extends(p, q) && Extends(q, f)
    ensures Extends(p, f)
  {
  }

  // ---------------------------------------------------------------------
  // Detections

  /** A class index is detected exactly when some batch with boxes holds it; batches without boxes contribute nothing. */
  lemma {:induction false} DetectionsMembers(results: seq<Batch>, c: int)
    ensures c in Detections(results) <==> exists i :: 0 <= i < |results| && results[i].Boxes? && c in results[i].classes
    decreases |results|
  {
    if results != [] {
      var init := results[..|results| - 1];
      var last := results[|results| - 1];
      DetectionsMembers(init, c);
      assert Detections(results) == Detections(init) + ClassesOf(last);
      if c in Detections(results) {
        if c in Detections(init) {
          var i :| 0 <= i < |init| && init[i].Boxes? && c in init[i].classes;
          assert results[i] == init[i];
        } else {
          assert results[|results| - 1] == last;
        }
      } else {
        forall i | 0 <= i < |results| && results[i].Boxes?
          ensures c !in results[i].classes
        {
          if i < |init| {
            assert results[i] == init[i];
          }
        }
      }
    }
  }

  /** Detections of consecutive runs of batches concatenate. */
  lemma {:induction false} DetectionsAppend(a: seq<Batch>, b: seq<Batch>)
    ensures Detections(a + b) == Detections(a) + Detections(b)
    decreases |b|
  {
    if b == [] {
      assert a + b == a;
    } else {
      var b', last, ab := b[..|b| - 1], ClassesOf(b[|b| - 1]), a + b;
      assert ab[..|ab| - 1] == a + b' && ab[|ab| - 1] == b[|b| - 1];
      calc {
        Detections(ab);
        Detections(a + b') + last;
        { DetectionsAppend(a, b'); }
        (Detections(a) + Detections(b')) + last;
        Detections(a) + (Detections(b') + last);
        Detections(a) + Detections(b);
      }
    }
  }

  // ---------------------------------------------------------------------
  // One step

  /** The sample a new class receives is well formed. */
  lemma NewSample(reg: Registry, name: string, rnd: nat -> nat, t: nat)
    requires WellFormed(reg)
    requires name in reg.classNames
    ensures var c := Sample(Candidates(reg, name), SampleSize, rnd, t);
      |c| == SampleSize && NoDuplicates(c) && forall i :: 0 <= i < SampleSize ==> c[i] in Candidates(reg, name)
  {
    SampleDistinct(Candidates(reg, name), SampleSize, rnd, t);
    SampleFromPool(Candidates(reg, name), SampleSize, rnd, t);
  }

  /** The selection after a new class `name` receives `chosen` and its records. */
  function Added(sel: Selection, name: string, chosen: seq<string>, clock: nat -> int): Selection {
    Selection(sel.chosen[name := chosen], sel.order + [name], sel.appended + Records(name, chosen, clock, |sel.appended|))
  }

  lemma AddedOnce(reg: Registry, sel: Selection, name: string, chosen: seq<string>, clock: nat -> int)
    requires name in reg.classNames && name !in sel.chosen
    requires OncePerClass(reg, sel)
    ensures OncePerClass(reg, Added(sel, name, chosen, clock))
  {
    var s' := Added(sel, name, chosen, clock);
    assert name !in sel.order;
    forall a, b | 0 <= a < b < |s'.order| ensures s'.order[a] != s'.order[b] {
      if b < |sel.order| {
        assert s'.order[a] == sel.order[a] && s'.order[b] == sel.order[b];
      } else {
        assert s'.order[a] == sel.order[a];
      }
    }
  }

  lemma AddedDrawn(reg: Registry, sel: Selection, name: string, rnd: nat -> nat, clock: nat -> int)
    requires WellFormed(reg)
    requires name in reg.classNames && name !in sel.chosen
    requires OncePerClass(reg, sel) && DrawnFrom(reg, sel, rnd)
    requires |sel.appended| == SampleSize * |sel.order|
    ensures var s' := Added(sel, name, Sample(Candidates(reg, name), SampleSize, rnd, |sel.appended|), clock);
      OncePerClass(reg, s') && DrawnFrom(reg, s', rnd)
  {
    var chosen := Sample(Candidates(reg, name), SampleSize, rnd, |sel.appended|);
    var s' := Added(sel, name, chosen, clock);
    AddedOnce(reg, sel, name, chosen, clock);
    forall d | 0 <= d < |s'.order|
      ensures s'.chosen[s'.order[d]] == Sample(Candidates(reg, s'.order[d]), SampleSize, rnd, SampleSize * d)
    {
      if d < |sel.order| {
        assert s'.order[d] == sel.order[d];
        assert sel.order[d] != name;
      }
    }
  }

  lemma AddedWellSampled(reg: Registry, sel: Selection, name: string, rnd: nat -> nat, clock: nat -> int, t: nat)
    requires WellFormed(reg)
    requires name in reg.classNames && name !in sel.chosen
    requires OncePerClass(reg, sel) && WellSampled(reg, sel)
    ensures var s' := Added(sel, name, Sample(Candidates(reg, name), SampleSize, rnd, t), clock);
      OncePerClass(reg, s') && WellSampled(reg, s')
  {
    var chosen := Sample(Candidates(reg, name), SampleSize, rnd, t);
    AddedOnce(reg, sel, name, chosen, clock);
    NewSample(reg, name, rnd, t);
  }

  lemma AddedLogged(reg: Registry, sel: Selection, name: string, chosen: seq<string>, clock: nat -> int)
    requires WellFormed(reg)
    requires name in reg.classNames && name !in sel.chosen && |chosen| == SampleSize
    requires OncePerClass(reg, sel) && WellSampled(reg, sel) && Logged(reg, sel, clock)
    requires OncePerClass(reg, Added(sel, name, chosen, clock)) && WellSampled(reg, Added(sel, name, chosen, clock))
    ensures Logged(reg, Added(sel, name, chosen, clock), clock)
  {
    var t := |sel.appended|;
    var recs := Records(name, chosen, clock, t);
    var s' := Added(sel, name, chosen, clock);
    forall i | 0 <= i < |s'.appended|
      ensures s'.appended[i] == Entry(clock(i), s'.order[i / SampleSize], s'.chosen[s'.order[i / SampleSize]][i % SampleSize])
    {
      if i < t {
        assert s'.appended[i] == sel.appended[i];
        assert i / SampleSize < |sel.order|;
        assert s'.order[i / SampleSize] == sel.order[i / SampleSize];
        assert sel.order[i / SampleSize] != name;
      } else {
        assert i / SampleSize == |sel.order|;
        assert i % SampleSize == i - t;
        assert s'.appended[i] == recs[i - t];
        RecordsAt(name, chosen, clock, t, i - t);
      }
    }
  }

  lemma AssignConsistent(reg: Registry, sel: Selection, name: string, rnd: nat -> nat, clock: nat -> int)
    requires WellFormed(reg)
    requires name in reg.classNames
    requires Consistent(reg, sel, rnd, clock)
    ensures Consistent(reg, Assign(reg, sel, name, rnd, clock), rnd, clock)
    ensures Extends(sel, Assign(reg, sel, name, rnd, clock))
  {
    if name !in sel.chosen {
      var t := |sel.appended|;
      var chosen := Sample(Candidates(reg, name), SampleSize, rnd, t);
      AddedDrawn(reg, sel, name, rnd, clock);
      AddedWellSampled(reg, sel, name, rnd, clock, t);
      AddedLogged(reg, sel, name, chosen, clock);
    }
  }

  /** The run over some detections is the step for the last one after the run over the others. */
  lemma SelectLast(reg: Registry, classes: seq<int>, rnd: nat -> nat, clock: nat -> int)
    requires WellFormed(reg)
    requires classes != []
    ensures Select(reg, classes, rnd, clock) ==
            Step(reg, Select(reg, classes[..|classes| - 1], rnd, clock), classes[|classes| - 1], rnd, clock)
  {
    assert Select(reg, classes, rnd, clock) == Extend(reg, Run(Empty, None), classes, rnd, clock);
  }

  /** One more detection takes one more step. */
  lemma SelectStep(reg: Registry, classes: seq<int>, c: int, rnd: nat -> nat, clock: nat -> int)
    requires WellFormed(reg)
    ensures Select(reg, classes + [c], rnd, clock) == Step(reg, Select(reg, classes, rnd, clock), c, rnd, clock)
  {
    assert (classes + [c])[..|classes|] == classes;
    SelectLast(reg, classes + [c], rnd, clock);
  }

  // ---------------------------------------------------------------------
  // Continuing a run

  /** The walk over the first `j + 1` indices, from the walk over the first `j`. */
  lemma WalkSnoc(reg: Registry, start: Run, classes: seq<int>, j: nat, rnd: nat -> nat, clock: nat -> int)
    requires WellFormed(reg)
    requires j < |classes|
    ensures Walk(reg, start, classes[..j + 1], rnd, clock) == Step(reg, Walk(reg, start, classes[..j], rnd, clock), classes[j], rnd, clock)
  {
    assert classes[..j + 1][..j] == classes[..j];
  }

  /** Walking over `a + b` is walking over `a`, then over `b`. */
  lemma {:induction false} WalkAppend(reg: Registry, start: Run, a: seq<int>, b: seq<int>, rnd: nat -> nat, clock: nat -> int)
    requires WellFormed(reg)
    ensures Walk(reg, start, a + b, rnd, clock) == Walk(reg, Walk(reg, start, a, rnd, clock), b, rnd, clock)
    decreases |b|
  {
    if b == [] {
      assert a + b == a;
    } else {
      var b' := b[..|b| - 1];
      WalkAppend(reg, start, a, b', rnd, clock);
      assert (a + b)[..|a + b| - 1] == a + b';
      assert (a + b)[|a + b| - 1] == b[|b| - 1];
    }
  }

  /** Once the walk over a prefix has failed, the rest of the indices change nothing. */
  lemma WalkStops(reg: Registry, start: Run, classes: seq<int>, j: nat, rnd: nat -> nat, clock: nat -> int)
    requires WellFormed(reg)
    requires j <= |classes|
    requires Walk(reg, start, classes[..j], rnd, clock).failedAt.Some?
    ensures Walk(reg, start, classes, rnd, clock) == Walk(reg, start, classes[..j], rnd, clock)
  {
    assert classes == classes[..j] + classes[j..];
    WalkAppend(reg, start, classes[..j], classes[j..], rnd, clock);
  }

  /** The run over `seen + classes` continues the run over `seen`. */
  lemma SelectThenWalk(reg: Registry, seen: seq<int>, classes: seq<int>, rnd: nat -> nat, clock: nat -> int)
    requires WellFormed(reg)
    ensures Select(reg, seen + classes, rnd, clock) == Walk(reg, Select(reg, seen, rnd, clock), classes, rnd, clock)
  {
    WalkAppend(reg, Run(Empty, None), seen, classes, rnd, clock);
  }

  /** The run over the first `i + 1` batches continues the run over the first `i` by the boxes of batch `i`. */
  lemma BatchStep(reg: Registry, results: seq<Batch>, i: nat, prev: Run, next: Run, rnd: nat -> nat, clock: nat -> int)
    requires WellFormed(reg)
    requires i < |results|
    requires Reaches(reg, Run(Empty, None), Detections(results[..i]), rnd, clock, prev)
    requires Reaches(reg, prev, ClassesOf(results[i]), rnd, clock, next)
    ensures Reaches(reg, Run(Empty, None), Detections(results[..i + 1]), rnd, clock, next)
  {
    assert results[..i + 1][..i] == results[..i];
    SelectThenWalk(reg, Detections(results[..i]), ClassesOf(results[i]), rnd, clock);
  }

  /** A run that failed within the first `i + 1` batches is the run over all of them. */
  lemma BatchFailure(reg: Registry, results: seq<Batch>, i: nat, run: Run, rnd: nat -> nat, clock: nat -> int)
    requires WellFormed(reg)
    requires i < |results|
    requires Reaches(reg, Run(Empty, None), Detections(results[..i + 1]), rnd, clock, run)
    requires run.failedAt.Some?
    ensures Select(reg, Detections(results), rnd, clock) == run
  {
    var front, rest := results[..i + 1], results[i + 1..];
    assert front + rest == results;
    DetectionsAppend(front, rest);
    var done := Detections(front);
    assert Detections(results)[..|done|] == done;
    SelectFailureFinal(reg, Detections(results), |done|, rnd, clock);
  }

  // ---------------------------------------------------------------------
  // Properties of a whole run

  /** Every run, complete or stopped, leaves a consistent selection. */
  lemma {:induction false} SelectConsistent(reg: Registry, classes: seq<int>, rnd: nat -> nat, clock: nat -> int)
    requires WellFormed(reg)
    ensures Consistent(reg, Select(reg, classes, rnd, clock).sel, rnd, clock)
    decreases |classes|
  {
    if classes != [] {
      var init := classes[..|classes| - 1];
      var c := classes[|classes| - 1];
      SelectConsistent(reg, init, rnd, clock);
      SelectLast(reg, classes, rnd, clock);
      var prev := Select(reg, init, rnd, clock);
      if prev.failedAt.None? && Known(reg, c) {
        AssignConsistent(reg, prev.sel, NameOf(reg, c), rnd, clock);
      }
    }
  }

  lemma AllKnownSplit(reg: Registry, classes: seq<int>)
    requires WellFormed(reg)
    requires classes != []
    ensures AllKnown(reg, classes) <==> AllKnown(reg, classes[..|classes| - 1]) && Known(reg, classes[|classes| - 1])
  {
    var init := classes[..|classes| - 1];
    assert forall i :: 0 <= i < |init| ==> init[i] == classes[i];
  }

  /** A run fails exactly when some class index has no registry entry. */
  lemma {:induction false} SelectSucceeds(reg: Registry, classes: seq<int>, rnd: nat -> nat, clock: nat -> int)
    requires WellFormed(reg)
    ensures Select(reg, classes, rnd, clock).failedAt.None? <==> AllKnown(reg, classes)
    decreases |classes|
  {
    if classes != [] {
      SelectSucceeds(reg, classes[..|classes| - 1], rnd, clock);
      SelectLast(reg, classes, rnd, clock);
      AllKnownSplit(reg, classes);
    }
  }

  /**
   * The walk stops at the first unknown class index and reports it; the
   * selection, and so the log, keep what the detections before it produced.
   */
  lemma {:induction false} SelectStopsAtFirstUnknown(reg: Registry, classes: seq<int>, k: nat, rnd: nat -> nat, clock: nat -> int)
    requires WellFormed(reg)
    requires k < |classes| && !Known(reg, classes[k])
    requires AllKnown(reg, classes[..k])
    ensures Select(reg, classes, rnd, clock) == Run(Select(reg, classes[..k], rnd, clock).sel, Some(classes[k]))
    decreases |classes|
  {
    var init := classes[..|classes| - 1];
    SelectSucceeds(reg, classes[..k], rnd, clock);
    SelectLast(reg, classes, rnd, clock);
    if k == |classes| - 1 {
      assert init == classes[..k];
    } else {
      assert init[..k] == classes[..k];
      SelectStopsAtFirstUnknown(reg, init, k, rnd, clock);
    }
  }

  /** Once a lookup has failed, further detections change nothing. */
  lemma {:induction false} SelectFailureFinal(reg: Registry, classes: seq<int>, k: nat, rnd: nat -> nat, clock: nat -> int)
    requires WellFormed(reg)
    requires k <= |classes|
    requires Select(reg, classes[..k], rnd, clock).failedAt.Some?
    ensures Select(reg, classes, rnd, clock) == Select(reg, classes[..k], rnd, clock)
    decreases |classes|
  {
    if k < |classes| {
      var init := classes[..|classes| - 1];
      assert init[..k] == classes[..k];
      SelectFailureFinal(reg, init, k, rnd, clock);
      SelectLast(reg, classes, rnd, clock);
    } else {
      assert classes[..k] == classes;
    }
  }

  /** The keys of the map are exactly the class names of the detections. */
  lemma {:induction false} SelectKeys(reg: Registry, classes: seq<int>, rnd: nat -> nat, clock: nat -> int)
    requires WellFormed(reg)
    requires AllKnown(reg, classes)
    ensures forall n :: n in Select(reg, classes, rnd, clock).sel.chosen <==> n in Names(reg, classes)
    decreases |classes|
  {
    if classes != [] {
      var init := classes[..|classes| - 1];
      var c := classes[|classes| - 1];
      assert AllKnown(reg, init) by {
        forall i | 0 <= i < |init| ensures Known(reg, init[i]) {
          assert init[i] == classes[i];
        }
      }
      SelectKeys(reg, init, rnd, clock);
      SelectSucceeds(reg, init, rnd, clock);
      SelectLast(reg, classes, rnd, clock);
      assert Names(reg, classes) == Names(reg, init) + [NameOf(reg, c)];
    }
  }

  /**
   * First seen wins: running on more detections only adds classes and log
   * entries; a class already assigned keeps its sentences.
   */
  lemma {:induction false} SelectExtends(reg: Registry, classes: seq<int>, k: nat, rnd: nat -> nat, clock: nat -> int)
    requires WellFormed(reg)
    requires k <= |classes|
    ensures Extends(Select(reg, classes[..k], rnd, clock).sel, Select(reg, classes, rnd, clock).sel)
    decreases |classes|
  {
    if k == |classes| {
      assert classes[..k] == classes;
    } else {
      var init := classes[..|classes| - 1];
      var c := classes[|classes| - 1];
      assert init[..k] == classes[..k];
      SelectExtends(reg, init, k, rnd, clock);
      SelectLast(reg, classes, rnd, clock);
      var prev := Select(reg, init, rnd, clock);
      if prev.failedAt.None? && Known(reg, c) {
        SelectConsistent(reg, init, rnd, clock);
        AssignConsistent(reg, prev.sel, NameOf(reg, c), rnd, clock);
      }
    }
  }

  /** A further detection of a class already assigned changes nothing. */
  lemma SelectSeenKept(reg: Registry, classes: seq<int>, c: int, rnd: nat -> nat, clock: nat -> int)
    requires WellFormed(reg)
    requires Known(reg, c) && NameOf(reg, c) in Select(reg, classes, rnd, clock).sel.chosen
    ensures Select(reg, classes + [c], rnd, clock) == Select(reg, classes, rnd, clock)
  {
    SelectStep(reg, classes, c, rnd, clock);
  }

  /**
   * Every class in the map is a registry class and got `SampleSize`
   * distinct sentences, all from its own registry list.
   */
  lemma SelectSamples(reg: Registry, classes: seq<int>, rnd: nat -> nat, clock: nat -> int)
    requires WellFormed(reg)
    ensures var chosen := Select(reg, classes, rnd, clock).sel.chosen;
      forall n :: n in chosen ==>
        && n in reg.classNames
        && |chosen[n]| == SampleSize
        && NoDuplicates(chosen[n])
        && forall i :: 0 <= i < |chosen[n]| ==> chosen[n][i] in reg.predictions[n]
  {
    SelectConsistent(reg, classes, rnd, clock);
  }

  /** A run appends `SampleSize` entries per class in the map. */
  lemma SelectLogSize(reg: Registry, classes: seq<int>, rnd: nat -> nat, clock: nat -> int)
    requires WellFormed(reg)
    ensures var sel := Select(reg, classes, rnd, clock).sel;
      |sel.appended| == SampleSize * |sel.chosen.Keys|
  {
    var sel := Select(reg, classes, rnd, clock).sel;
    SelectConsistent(reg, classes, rnd, clock);
    assert sel.chosen.Keys == set n | n in sel.order;
    DistinctCount(sel.order);
  }

  /**
   * The entries of the d-th class come as one block, in sample order: the
   * k-th carries the class's name, its k-th sentence and the call's clock
   * reading at that position.
   */
  lemma SelectLogContents(reg: Registry, classes: seq<int>, rnd: nat -> nat, clock: nat -> int, d: nat, k: nat)
    requires WellFormed(reg)
    requires d < |Select(reg, classes, rnd, clock).sel.order| && k < SampleSize
    ensures var sel := Select(reg, classes, rnd, clock).sel;
      var i := SampleSize * d + k;
      && sel.order[d] in sel.chosen
      && |sel.chosen[sel.order[d]]| == SampleSize
      && i < |sel.appended|
      && sel.appended[i] == Entry(clock(i), sel.order[d], sel.chosen[sel.order[d]][k])
  {
    SelectConsistent(reg, classes, rnd, clock);
    LoggedAt(reg, Select(reg, classes, rnd, clock).sel, clock, d, k);
  }

  /** In a consistent log part, entry `SampleSize * d + k` is the k-th sentence of the d-th class. */
  lemma LoggedAt(reg: Registry, sel: Selection, clock: nat -> int, d: nat, k: nat)
    requires WellFormed(reg)
    requires OncePerClass(reg, sel) && WellSampled(reg, sel) && Logged(reg, sel, clock)
    requires d < |sel.order| && k < SampleSize
    ensures var i := SampleSize * d + k;
      && sel.order[d] in sel.chosen
      && |sel.chosen[sel.order[d]]| == SampleSize
      && i < |sel.appended|
      && sel.appended[i] == Entry(clock(i), sel.order[d], sel.chosen[sel.order[d]][k])
  {
    var i := SampleSize * d + k;
    assert i / SampleSize == d && i % SampleSize == k;
  }

  /** The position of the first occurrence of `x` in `s`. */
  function FirstIndex(s: seq<string>, x: string): (i: nat)
    requires x in s
    ensures i < |s| && s[i] == x
    ensures forall j :: 0 <= j < i ==> s[j] != x
  {
    if s[0] == x then 0 else 1 + FirstIndex(s[1..], x)
  }

  lemma FirstIndexAppend(s: seq<string>, y: string, x: string)
    requires x in s
    ensures FirstIndex(s + [y], x) == FirstIndex(s, x)
  {
    assert (s + [y])[FirstIndex(s, x)] == x;
  }

  lemma FirstIndexNew(s: seq<string>, x: string)
    requires x !in s
    ensures FirstIndex(s + [x], x) == |s|
  {
  }

  lemma SelectOncePerClass(reg: Registry, classes: seq<int>, rnd: nat -> nat, clock: nat -> int)
    requires WellFormed(reg)
    ensures OncePerClass(reg, Select(reg, classes, rnd, clock).sel)
  {
    SelectConsistent(reg, classes, rnd, clock);
  }

  lemma AllKnownInit(reg: Registry, classes: seq<int>)
    requires WellFormed(reg)
    requires classes != [] && AllKnown(reg, classes)
    ensures AllKnown(reg, classes[..|classes| - 1])
    ensures Names(reg, classes) == Names(reg, classes[..|classes| - 1]) + [NameOf(reg, classes[|classes| - 1])]
  {
    var init := classes[..|classes| - 1];
    forall i | 0 <= i < |init| ensures Known(reg, init[i]) {
      assert init[i] == classes[i];
    }
  }

  /**
   * `order` lists the distinct values of `names`, each once, in the order
   * of their first occurrence.
   */
  ghost predicate FirstSeenSorted(names: seq<string>, order: seq<string>) {
    && (forall n :: n in order <==> n in names)
    && forall d, e :: 0 <= d < e < |order| ==> FirstIndex(names, order[d]) < FirstIndex(names, order[e])
  }

  /** A name already present keeps the order and every first position. */
  lemma FirstSeenSortedSeen(names: seq<string>, x: string, order: seq<string>)
    requires FirstSeenSorted(names, order) && x in names
    ensures FirstSeenSorted(names + [x], order)
  {
    forall d | 0 <= d < |order| ensures FirstIndex(names + [x], order[d]) == FirstIndex(names, order[d]) {
      FirstIndexAppend(names, x, order[d]);
    }
    assert forall n :: n in names + [x] <==> n in names;
  }

  /** A new name goes to the end of the order, after every name seen before. */
  lemma FirstSeenSortedNew(names: seq<string>, x: string, order: seq<string>)
    requires FirstSeenSorted(names, order) && x !in names
    ensures FirstSeenSorted(names + [x], order + [x])
  {
    var names', order' := names + [x], order + [x];
    forall d | 0 <= d < |order| ensures FirstIndex(names', order[d]) == FirstIndex(names, order[d]) {
      FirstIndexAppend(names, x, order[d]);
    }
    FirstIndexNew(names, x);
    forall d, e | 0 <= d < e < |order'|
      ensures FirstIndex(names', order'[d]) < FirstIndex(names', order'[e])
    {
      assert order'[d] == order[d];
      if e < |order| {
        assert order'[e] == order[e];
      }
    }
    assert forall n :: n in order' <==> n in order || n == x;
    assert forall n :: n in names' <==> n in names || n == x;
  }

  lemma FirstSeenSortedStep(names: seq<string>, x: string, order: seq<string>)
    requires FirstSeenSorted(names, order)
    ensures FirstSeenSorted(names + [x], if x in names then order else order + [x])
  {
    if x in names {
      FirstSeenSortedSeen(names, x, order);
    } else {
      FirstSeenSortedNew(names, x, order);
    }
  }

  /**
   * The classes are ordered by first detection: every detected class name
   * occurs in `order`, and a class whose first detection comes earlier
   * stands earlier.
   */
  lemma {:induction false} SelectFirstSeenOrder(reg: Registry, classes: seq<int>, rnd: nat -> nat, clock: nat -> int)
    requires WellFormed(reg)
    requires AllKnown(reg, classes)
    ensures FirstSeenSorted(Names(reg, classes), Select(reg, classes, rnd, clock).sel.order)
    decreases |classes|
  {
    if classes != [] {
      var init := classes[..|classes| - 1];
      var c := classes[|classes| - 1];
      AllKnownInit(reg, classes);
      SelectFirstSeenOrder(reg, init, rnd, clock);
      SelectSucceeds(reg, init, rnd, clock);
      SelectOncePerClass(reg, init, rnd, clock);
      SelectKeys(reg, init, rnd, clock);
      SelectLast(reg, classes, rnd, clock);
      var x := NameOf(reg, c);
      var prev := Select(reg, init, rnd, clock).sel;
      assert Select(reg, classes, rnd, clock).sel == Assign(reg, prev, x, rnd, clock);
      assert x in prev.chosen <==> x in Names(reg, init);
      FirstSeenSortedStep(Names(reg, init), x, prev.order);
    }
  }

  /**
   * The classes assigned, their order, the outcome and the number of log
   * entries depend on the detections alone, not on the random source or
   * the clock.
   */
  lemma {:induction false} SelectShapeIndependent(reg: Registry, classes: seq<int>, rnd1: nat -> nat, clock1: nat -> int, rnd2: nat -> nat, clock2: nat -> int)
    requires WellFormed(reg)
    ensures var r1, r2 := Select(reg, classes, rnd1, clock1), Select(reg, classes, rnd2, clock2);
      && r1.sel.chosen.Keys == r2.sel.chosen.Keys
      && r1.sel.order == r2.sel.order
      && |r1.sel.appended| == |r2.sel.appended|
      && r1.failedAt == r2.failedAt
    decreases |classes|
  {
    if classes != [] {
      SelectShapeIndependent(reg, classes[..|classes| - 1], rnd1, clock1, rnd2, clock2);
      SelectLast(reg, classes, rnd1, clock1);
      SelectLast(reg, classes, rnd2, clock2);
    }
  }

  /** The readings of `clock` never go back in time. */
  ghost predicate Monotone(clock: nat -> int) {
    forall a: nat, b: nat :: a <= b ==> clock(a) <= clock(b)
  }

  /** Timestamps never decrease along the log. */
  ghost predicate Chronological(log: seq<Entry>) {
    forall i, j :: 0 <= i <= j < |log| ==> log[i].timestamp <= log[j].timestamp
  }

  /** The i-th entry a run appends carries the i-th clock reading of the call. */
  lemma SelectTimestamps(reg: Registry, classes: seq<int>, rnd: nat -> nat, clock: nat -> int)
    requires WellFormed(reg)
    ensures var app := Select(reg, classes, rnd, clock).sel.appended;
      forall i :: 0 <= i < |app| ==> app[i].timestamp == clock(i)
  {
    SelectConsistent(reg, classes, rnd, clock);
  }

  /**
   * Appending a run's entries to a chronological log keeps it
   * chronological, as long as the clock is monotone and not behind the
   * entries already logged.
   */
  lemma LogStaysChronological(reg: Registry, prior: seq<Entry>, classes: seq<int>, rnd: nat -> nat, clock: nat -> int)
    requires WellFormed(reg)
    requires Chronological(prior) && Monotone(clock)
    requires forall i :: 0 <= i < |prior| ==> prior[i].timestamp <= clock(0)
    ensures Chronological(prior + Select(reg, classes, rnd, clock).sel.appended)
  {
    SelectTimestamps(reg, classes, rnd, clock);
    StampedAppend(prior, Select(reg, classes, rnd, clock).sel.appended, clock);
  }

  lemma StampedAppend(prior: seq<Entry>, app: seq<Entry>, clock: nat -> int)
    requires Chronological(prior) && Monotone(clock)
    requires forall i :: 0 <= i < |prior| ==> prior[i].timestamp <= clock(0)
    requires forall i :: 0 <= i < |app| ==> app[i].timestamp == clock(i)
    ensures Chronological(prior + app)
  {
    var log := prior + app;
    forall i, j | 0 <= i <= j < |log| ensures log[i].timestamp <= log[j].timestamp {
      if j >= |prior| {
        assert log[j] == app[j - |prior|];
        if i >= |prior| {
          assert log[i] == app[i - |prior|];
        } else {
          assert clock(0) <= clock(j - |prior|);
        }
      }
    }
  }
}
