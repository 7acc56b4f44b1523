/**
 * The request side of the service: the process-wide interpretation log,
 * `analyze_image` appending to it, the validation of an `/upload` request
 * and `/download-log`.
 *
 * The detector is not modelled: an accepted request comes with the batches
 * the detector returns for its image. Whether the uploaded bytes decode to
 * an image is part of the request.
 */
module App {
  import opened Wrappers
  import opened Sampling
  import opened Registry
  import opened Interpretation

  /** The `image` part of a multipart upload: its filename, and whether its bytes decode to an image. */
  datatype FilePart = FilePart(filename: string, decodable: bool)

  datatype Request = Request(image: Option<FilePart>)

  /** A JSON reply: an error with its status, the predictions of a processed image, or an uncaught exception. */
  datatype Response =
    | Rejected(status: nat, error: string)
    | Predicted(predictions: map<string, seq<string>>)
    | ServerError

  /**
   * The checks `upload` makes before any image processing, in their order:
   * the image part is present, its filename is not empty, its bytes decode.
   * None means the request passes all three.
   */
  function Guard(req: Request): (r: Option<Response>)
    ensures r.None? <==> req.image.Some? && req.image.value.filename != "" && req.image.value.decodable
    ensures r.Some? ==> r.value.Rejected? && r.value.status == 400
    ensures req.image.None? ==> r == Some(Rejected(400, "No image provided"))
    ensures req.image.Some? && req.image.value.filename == "" ==> r == Some(Rejected(400, "Empty filename"))
    ensures req.image.Some? && req.image.value.filename != "" && !req.image.value.decodable ==>
              r == Some(Rejected(400, "Invalid image"))
  {
    match req.image
    case None => Some(Rejected(400, "No image provided"))
    case Some(file) =>
      if file.filename == "" then Some(Rejected(400, "Empty filename"))
      else if !file.decodable then Some(Rejected(400, "Invalid image"))
      else None
  }

  /** The process-wide `log_data` list and the routes that use it. */
  class InterpretationLog {
    /** The registry constants the selector reads. */
    const registry: Registry
    /** `log_data`. */
    var entries: seq<Entry>

    /** The state at process start: the service's registry and an empty log. */
    constructor ()
      ensures registry == Palm && entries == []
    {
      registry := Palm;
      entries := [];
    }

    /**
     * `analyze_image` after the detector call: select interpretations for
     * the detections in `results` and append their log entries. A failed
     * class lookup ends the call with its IndexError, after the entries of
     * the classes seen before it were appended.
     */
    method Analyze(results: seq<Batch>, rnd: nat -> nat, clock: nat -> int)
      returns (out: Result<map<string, seq<string>>, int>)
      requires WellFormed(registry)
      modifies this
      ensures entries == old(entries) + Select(registry, Detections(results), rnd, clock).sel.appended
      ensures out == Outcome(Select(registry, Detections(results), rnd, clock))
    {
      var interpretations: map<string, seq<string>> := map[];
      ghost var order: seq<string> := [];
      ghost var appended: seq<Entry> := [];
      var taken: nat := 0;  // random values drawn and clock readings taken so far
      var i := 0;
      while i < |results|
        invariant 0 <= i <= |results|
        invariant Reaches(registry, Run(Empty, None), Detections(results[..i]), rnd, clock, Run(Selection(interpretations, order, appended), None))
        invariant taken == |appended|
        invariant entries == old(entries) + appended
      {
        var failed;
        ghost var added;
        interpretations, order, appended, taken, failed, added :=
          AnalyzeResult(results, i, interpretations, order, appended, taken, rnd, clock);
        if failed.Some? {
          out := Failure(failed.value);
          return;
        }
        i := i + 1;
      }
      assert results[..i] == results;
      out := Success(interpretations);
    }

    /**
     * One `result` of the outer loop: its boxes, unless they are None,
     * continue the selection over the results before it. A failed lookup
     * in it is the outcome of the whole call.
     */
    method AnalyzeResult(results: seq<Batch>, i: nat,
                         interpretations: map<string, seq<string>>, ghost order: seq<string>, ghost appended: seq<Entry>,
                         taken: nat, rnd: nat -> nat, clock: nat -> int)
      returns (interpretations': map<string, seq<string>>, ghost order': seq<string>, ghost appended': seq<Entry>,
               taken': nat, failed: Option<int>, ghost added: seq<Entry>)
      requires WellFormed(registry)
      requires i < |results|
      requires Reaches(registry, Run(Empty, None), Detections(results[..i]), rnd, clock, Run(Selection(interpretations, order, appended), None))
      requires taken == |appended|
      modifies this
      ensures Reaches(registry, Run(Empty, None), Detections(results[..i + 1]), rnd, clock, Run(Selection(interpretations', order', appended'), failed))
      ensures failed.Some? ==> Select(registry, Detections(results), rnd, clock) == Run(Selection(interpretations', order', appended'), failed)
      ensures taken' == |appended'|
      ensures appended' == appended + added
      ensures entries == old(entries) + added
    {
      ghost var prev := Run(Selection(interpretations, order, appended), None);
      if results[i].Boxes? {
        interpretations', order', appended', taken', failed, added :=
          AnalyzeBoxes(results[i].classes, interpretations, order, appended, taken, rnd, clock);
      } else {
        interpretations', order', appended', taken', failed, added := interpretations, order, appended, taken, None, [];
      }
      ghost var next := Run(Selection(interpretations', order', appended'), failed);
      BatchStep(registry, results, i, prev, next, rnd, clock);
      if failed.Some? {
        BatchFailure(registry, results, i, next, rnd, clock);
      }
    }

    /**
     * The inner loop of `analyze_image`, over the boxes of one result whose
     * boxes are not None, continuing the selection made so far. On a failed
     * lookup it stops and reports the class index.
     */
    method AnalyzeBoxes(classes: seq<int>,
                        interpretations: map<string, seq<string>>, ghost order: seq<string>, ghost appended: seq<Entry>,
                        taken: nat, rnd: nat -> nat, clock: nat -> int)
      returns (interpretations': map<string, seq<string>>, ghost order': seq<string>, ghost appended': seq<Entry>,
               taken': nat, failed: Option<int>, ghost added: seq<Entry>)
      requires WellFormed(registry)
      requires taken == |appended|
      modifies this
      ensures Reaches(registry, Run(Selection(interpretations, order, appended), None), classes, rnd, clock, Run(Selection(interpretations', order', appended'), failed))
      ensures taken' == |appended'|
      ensures appended' == appended + added
      ensures entries == old(entries) + added
    {
      ghost var start := Run(Selection(interpretations, order, appended), None);
      interpretations', order', appended', taken' := interpretations, order, appended, taken;
      added := [];
      var j := 0;
      while j < |classes|
        invariant 0 <= j <= |classes|
        invariant Reaches(registry, start, classes[..j], rnd, clock, Run(Selection(interpretations', order', appended'), None))
        invariant taken' == |appended'|
        invariant appended' == appended + added
        invariant entries == old(entries) + added
      {
        ghost var more;
        interpretations', order', appended', taken', failed, more :=
          AnalyzeBox(start, classes, j, interpretations', order', appended', taken', rnd, clock);
        added := added + more;
        if failed.Some? {
          WalkStops(registry, start, classes, j + 1, rnd, clock);
          return;
        }
        j := j + 1;
      }
      assert classes[..j] == classes;
      failed := None;
    }

    /**
     * Box `j` of the inner loop: look its class up, and on the first box of
     * a class draw its interpretations and log them. On a failed lookup the
     * class index is reported and nothing changes.
     */
    method AnalyzeBox(ghost start: Run, classes: seq<int>, j: nat,
                      interpretations: map<string, seq<string>>, ghost order: seq<string>, ghost appended: seq<Entry>,
                      taken: nat, rnd: nat -> nat, clock: nat -> int)
      returns (interpretations': map<string, seq<string>>, ghost order': seq<string>, ghost appended': seq<Entry>,
               taken': nat, failed: Option<int>, ghost added: seq<Entry>)
      requires WellFormed(registry)
      requires j < |classes|
      requires Reaches(registry, start, classes[..j], rnd, clock, Run(Selection(interpretations, order, appended), None))
      requires taken == |appended|
      modifies this
      ensures Reaches(registry, start, classes[..j + 1], rnd, clock, Run(Selection(interpretations', order', appended'), failed))
      ensures taken' == |appended'|
      ensures appended' == appended + added
      ensures entries == old(entries) + added
    {
      WalkSnoc(registry, start, classes, j, rnd, clock);
      var cls := classes[j];
      interpretations', order', appended', taken', added := interpretations, order, appended, taken, [];
      var index := ClassIndex(registry, cls);
      if index.None? {
        failed := Some(cls);
        return;
      }
      failed := None;
      var classText := registry.classNames[index.value];
      if classText in interpretations {
        return;
      }
      var chosen := Sample(Candidates(registry, classText), SampleSize, rnd, taken);
      interpretations' := interpretations[classText := chosen];
      order' := order + [classText];
      added := Records(classText, chosen, clock, taken);
      Log(classText, chosen, clock, taken);
      appended' := appended + added;
      taken' := taken + |chosen|;
    }

    /** One `log_data.append` per chosen sentence, stamped with successive clock readings from `t` on. */
    method Log(name: string, chosen: seq<string>, clock: nat -> int, t: nat)
      modifies this
      ensures entries == old(entries) + Records(name, chosen, clock, t)
    {
      var k := 0;
      while k < |chosen|
        invariant 0 <= k <= |chosen|
        invariant entries == old(entries) + Records(name, chosen[..k], clock, t)
      {
        assert chosen[..k + 1][..k] == chosen[..k];
        entries := entries + [Entry(clock(t + k), name, chosen[k])];
        k := k + 1;
      }
      assert chosen[..k] == chosen;
    }

    /**
     * `upload`: a request the guard rejects is answered with its error and
     * leaves the log as it was; an accepted one is analysed, answered with
     * its predictions, or with a server error if a class lookup failed.
     */
    method Upload(req: Request, results: seq<Batch>, rnd: nat -> nat, clock: nat -> int) returns (resp: Response)
      requires WellFormed(registry)
      modifies this
      ensures Guard(req).Some? ==> resp == Guard(req).value && entries == old(entries)
      ensures Guard(req).None? ==>
        var run := Select(registry, Detections(results), rnd, clock);
        && entries == old(entries) + run.sel.appended
        && resp == (if run.failedAt.None? then Predicted(run.sel.chosen) else ServerError)
    {
      var rejection := Guard(req);
      if rejection.Some? {
        return rejection.value;
      }
      var analysis := Analyze(results, rnd, clock);
      match analysis
      case Success(interpretations) => resp := Predicted(interpretations);
      case Failure(_) => resp := ServerError;
    }

    /** `/download-log`: the whole log, in append order. */
    method DownloadLog() returns (log: seq<Entry>)
      ensures log == entries
    {
      log := entries;
    }
  }
}
