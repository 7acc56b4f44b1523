# Palm-line interpretation service: a Dafny model

`app.py` is a small Flask service that reads palms. It takes an uploaded
photograph and runs a line detector over it. For each kind of palm line
found (life, heart, head, fate) it picks two interpretation sentences at
random from a fixed list. It answers with those sentences and records each
one, with a timestamp, in a process-wide log that `/download-log` returns.

This project models the logic of that service and proves properties about it:

- the class registry (`class_names`, `colors`, `predictions`);
- the selector inside `analyze_image`, which walks the detections, lets the
  first box of a class win, draws two sentences per class and appends log
  entries;
- the global `log_data` list;
- the early-return checks of `/upload`;
- `/download-log`.

Modules:

- `wrappers.dfy`: `Option` and `Result`.
- `sampling.dfy`: `random.sample` as CPython computes it for a sample of
  two from a population of at most 21 (the service's lists have three).
  This is the pool method: draw an index below the size of the pool, and
  move the pool's last element into the gap. Random draws come from an
  injected function `rnd`.
- `registry.dfy`: the registry, the service's own registry `Palm`, and
  Python list indexing of a class index (`-4..3` is valid for four
  classes).
- `interpretation.dfy`: the selection as a function of the detected class
  indices (`Select`), and the lemmas about it.
- `app.dfy`: the log as a class (`InterpretationLog`). Its methods are
  `Analyze` (the loops of `analyze_image`, updating a map and the log in
  place) and `Upload`, each proved against `Select`, and `DownloadLog`,
  which returns `entries` unchanged.
  `Guard` is the check order of `/upload`.
- `scenarios.dfy`: worked cases on the service's registry.

How the model represents the parts it does not compute:

- Randomness and the clock are parameters. The t-th result of
  `randbelow(m)` within one request is `rnd(t) % m`, and `clock(t)` is the
  t-th reading of `datetime.now()` within it. Both counters equal the
  number of entries logged so far in the call, because with the pool
  method each new class takes two draws, and it takes two clock readings.
  `WellFormed` bounds each candidate list by 21 so that the pool method is
  the one CPython uses.
- The detector's output is a sequence of `Batch`es. `NoBoxes` stands for a
  result whose `boxes` is `None`. `Boxes(classes)` holds a result's class
  indices, as integers.

A class index is looked up with Python's list indexing
(`class_names[int(label)]`, app.py:85). A negative index counts from the
end. An index out of range raises `IndexError`, which nothing catches, so
the request is answered with a server error (500). The log entries of the
classes met before the bad index stay appended. The model treats a bad
index as an error path (`Run.failedAt`, `Response.ServerError`) after a
partial log, not as a precondition.

## Model

| member | source | states |
|---|---|---|
| Registry.PalmWellFormed | app.py:32-56 | The service's registry has as many colours as class names and no duplicate names. Every class name has a candidate list of at least two distinct sentences, so the size-2 sample cannot fail. The `predictions` keys are exactly the class names. |
| Registry.ClassIndex | app.py:85 | A class index is accepted exactly when it is in `-n..n-1` for `n` classes. The position it selects is the index itself, or the index plus `n` when the index is negative. |
| Registry.Candidates | app.py:88 | The candidate list of a registered class holds at least two sentences and no duplicates. |
| Sampling.Without | app.py:88 | Removing by the pool method leaves one element fewer. |
| Sampling.WithoutProps | app.py:88 | What is left is drawn from the pool. If the pool was duplicate-free, what is left is too, and the removed element is gone from it. |
| Sampling.Sample | app.py:88 | `random.sample(pool, k)` has exactly `k` elements. |
| Sampling.SampleFromPool | app.py:88 | Every sampled element comes from the pool. |
| Sampling.SampleDistinct | app.py:88 | A sample from a duplicate-free pool has no duplicates. |
| Sampling.DistinctCount | app.py:88 | A duplicate-free sequence has as many distinct elements as its length. |
| Interpretation.NewSample | app.py:88 | The sample for a new class has length 2, no duplicates, and elements from that class's candidates. |
| Interpretation.Detections | app.py:77-84 | The class indices of all results, in order, skipping results whose `boxes` is `None`. Every index of every result with boxes is among them. |
| Interpretation.NameOf | app.py:85 | `class_names[cls]` for a valid index: a non-negative index from the front, a negative one counted from the end. |
| Interpretation.Assign | app.py:87-96 | One box of a known class. The map's keys gain that class. Nothing chosen, ordered or logged before changes. An already seen class leaves the selection as it was. A new class goes last in the order and adds exactly 2 log entries. |
| Interpretation.Step | app.py:84-96 | One box after the run so far. A failed run stays failed. A rejected index fails the run at that index and keeps the selection. Otherwise the run stays successful and the class is in the map. The selection only grows. |
| Interpretation.Walk | app.py:77-98 | The selector continued over further indices. A failed run is unchanged. A new failure is at an index of those boxes that the registry rejects. The selection only grows. `Extend` is its last step and has the same contract. |
| Interpretation.Extend | app.py:84-96 | A walk over at least one index: the walk over all but the last, then one step. Same contract as `Walk`. |
| Interpretation.Select | app.py:73-98 | The whole selector on the detections of one call, from the empty selection. A failure is at a detected index that the registry rejects. |
| Interpretation.DetectionsMembers | app.py:77-84 | A class index is among the detections exactly when some result with boxes holds it. Results without boxes contribute nothing. |
| Interpretation.DetectionsAppend | app.py:77-84 | The detections of consecutive results are the concatenation of their detections, in result order. |
| Interpretation.Records | app.py:91-96 | One log entry per chosen sentence. |
| Interpretation.RecordsAt | app.py:91-96 | Entry `i` of a class pairs the `i`-th clock reading of the class with the class name and the `i`-th chosen sentence, in order. |
| Interpretation.AddedOnce | app.py:87-89 | Adding a class not yet chosen keeps the order duplicate-free, and keeps it naming exactly the map's keys. |
| Interpretation.AddedDrawn | app.py:88 | Adding a new class keeps every chosen list equal to the sample drawn at that class's position in the draw sequence. |
| Interpretation.AddedWellSampled | app.py:88 | Adding a new class keeps every chosen list a two-element, duplicate-free subset of its class's candidates. |
| Interpretation.AddedLogged | app.py:91-96 | Adding a new class appends that class's entries after the earlier classes' entries, in order. |
| Interpretation.AssignConsistent | app.py:87-96 | One box preserves the whole selection invariant (once per class, draws, sample shape, log layout). An existing class's entry, the earlier order and earlier log entries are unchanged. |
| Interpretation.SelectLast | app.py:84-96 | The selection of a sequence of boxes is the selection of all but the last, followed by one step for the last box. |
| Interpretation.SelectStep | app.py:84-96 | Selecting one more box is one step on the selection so far. |
| Interpretation.WalkSnoc | app.py:84 | Continuing a selection over one more box is one step. |
| Interpretation.WalkAppend | app.py:77-84 | Walking two sequences of boxes in turn is walking their concatenation. |
| Interpretation.WalkStops | app.py:85 | Once a prefix of the boxes has failed, the rest of the boxes are not looked at. |
| Interpretation.SelectThenWalk | app.py:77-84 | The selection over `seen + more` continues the selection over `seen`. |
| Interpretation.BatchStep | app.py:77-84 | Processing result `i` after results `0..i-1` yields the selection over the detections of results `0..i`. |
| Interpretation.BatchFailure | app.py:85 | A failure in result `i` is the outcome of the whole call, whatever later results hold. |
| Interpretation.SelectConsistent | app.py:73-98 | Every selection satisfies the invariant below. Each class is chosen once, and `order` lists exactly the keys. Each chosen list is the draw at its position. Each list is two distinct candidates of its class. The log is the classes' entries in `order`. |
| Interpretation.AllKnownSplit | app.py:85 | All boxes have valid indices exactly when all but the last do and the last does. |
| Interpretation.SelectSucceeds | app.py:85 | A call succeeds exactly when every detected index is valid, in both directions. |
| Interpretation.SelectStopsAtFirstUnknown | app.py:85 | The call fails on the first invalid index. It keeps the map, order and log entries of the boxes before it. |
| Interpretation.SelectFailureFinal | app.py:85 | Boxes after a failure do not change the outcome. |
| Interpretation.SelectKeys | app.py:77-89 | On success, the keys of `interpretations` are exactly the class names of the detected indices. |
| Interpretation.SelectExtends | app.py:87-96 | The selection of a prefix of the boxes is extended by the whole. Existing keys keep their lists, the order grows at the end, and the log grows at the end. |
| Interpretation.SelectSeenKept | app.py:87 | A later box of an already chosen class changes nothing: not the map, not the order, not the log. |
| Interpretation.SelectSamples | app.py:88 | Every key is a registered class name. Its list has length 2, has no duplicates, and comes from `predictions` of that class. |
| Interpretation.SelectLogSize | app.py:91-96 | The call appends exactly 2 × (number of distinct classes chosen) entries. |
| Interpretation.SelectLogContents | app.py:84-96 | Log entry `2d+k` of the call is the `k`-th chosen sentence of the `d`-th class in first-seen order. It carries that class's name and the clock reading at its position. |
| Interpretation.LoggedAt | app.py:84-96 | In a consistent selection, entry `2d+k` is the `k`-th sentence of the `d`-th class, with its name and clock reading. |
| Interpretation.FirstIndex | app.py:84 | The first position of a name, and no earlier occurrence. |
| Interpretation.FirstIndexAppend | app.py:84 | Appending a box keeps the first position of an already present name. |
| Interpretation.FirstIndexNew | app.py:84 | A new name's first position is where it is appended. |
| Interpretation.SelectOncePerClass | app.py:87-89 | No class name is chosen twice in a call, and the order names exactly the keys. |
| Interpretation.AllKnownInit | app.py:85 | The class names of all boxes are those of all but the last, then the last's. |
| Interpretation.FirstSeenSortedSeen | app.py:87 | A box of a class already seen keeps the order sorted by first detection. |
| Interpretation.FirstSeenSortedNew | app.py:87-89 | A box of a new class puts it last, after every class seen before. |
| Interpretation.FirstSeenSortedStep | app.py:84-89 | One more box keeps the classes sorted by first detection. |
| Interpretation.SelectFirstSeenOrder | app.py:84-89 | Classes appear in `order` once each, sorted by their first detection. `SelectLogContents` lays the log out in this order. |
| Interpretation.SelectShapeIndependent | app.py:84-96 | Randomness and the clock do not change which classes are chosen, their order, the log size, or where a call fails. |
| Interpretation.SelectTimestamps | app.py:93 | The `i`-th entry of a call carries the `i`-th clock reading. |
| Interpretation.StampedAppend | app.py:58 | Appending entries stamped by a monotone clock that starts at or after the last stamp keeps a log in time order. |
| Interpretation.LogStaysChronological | app.py:58 | With such a clock, a log in time order stays in time order after a call of `analyze_image`. |
| App.Guard | app.py:103-115 | The checks run in order: missing `image` part gives "No image provided", then an empty filename gives "Empty filename", then an undecodable image gives "Invalid image". All three are status 400. A request passes exactly when none applies. |
| App.InterpretationLog.constructor | app.py:32-58 | At process start the log is empty and the registry is the service's. |
| App.InterpretationLog.Analyze | app.py:73-98 | The two loops leave the log as the old log plus exactly the selection's appended entries. They return the selection's map, or the failing class index. |
| App.InterpretationLog.AnalyzeResult | app.py:77-96 | One result of the outer loop continues the selection over the results before it. A result whose `boxes` is `None` changes nothing. A failed lookup in it is the outcome of the whole call. |
| App.InterpretationLog.AnalyzeBoxes | app.py:84-96 | The inner loop over one result's boxes continues the selection over those boxes. It appends only the new entries. |
| App.InterpretationLog.AnalyzeBox | app.py:85-96 | One box is one step of the selection. |
| App.InterpretationLog.Log | app.py:91-96 | The append loop adds exactly the class's records, in order, to the end of the log. |
| App.InterpretationLog.Upload | app.py:101-117 | A rejected request is answered with the guard's error and leaves the log unchanged. An accepted one appends exactly the selection's entries. It is answered with the predictions on success and with a server error on a bad index. |
| App.InterpretationLog.DownloadLog | app.py:153-155 | Returns the whole log, unchanged and in append order. |
| Scenarios.ScenarioDetections | app.py:77-84 | Results `[2]`, none, `[2, 0]` give detections `2, 2, 0`. |
| Scenarios.HeadLineTwice | app.py:84-96 | Two head-line boxes give one key, `line2`, with the first two draws and two log entries. |
| Scenarios.NegativeIndexCountsFromEnd | app.py:85 | Index `-1` selects the fate line `line3`. |
| Scenarios.OutOfRangeKeepsEarlierEntries | app.py:85-96 | Boxes `0, 4` fail at 4 after the life line's two entries were logged. |
| Scenarios.RejectedThenHeadLine | app.py:101-155 | On a fresh service, an upload without an image is rejected and logs nothing. A head-line upload is answered with `line2` alone and logs two `line2` entries. |

## Left out

- YOLO loading and inference (`YOLO(...)`, `model.predict`, the model path check), including the resizing to 256 pixels and the confidence threshold of 0.3 (app.py:74): a foreign machine-learning library. Its output is a parameter of `Analyze` and `Upload`.
- Sampling by rejecting repeats, which `random.sample` uses for a population over 21: the service's lists have three sentences, and `WellFormed` excludes longer ones.
- OpenCV decoding, drawing of boxes and labels, and JPEG encoding: raster image processing in a library. Whether the upload decodes is a yes/no field of the request.
- An image part with a filename but no bytes: `cv2.imdecode` raises on an empty buffer rather than returning `None`, so such a request gets a server error with the log unchanged, not "Invalid image". `FilePart.decodable` cannot express this third outcome, and `Guard` answers it as "Invalid image".
- The lookups `colors[int(label)]` and `class_names[int(label)]` in the drawing loop of `upload`: they use the same labels that `analyze_image` has already looked up, so they cannot fail once it succeeded. Their only effect is drawing. `colors` appears only in `Palm` and in `WellFormed`'s length condition.
- Base64 encoding (RFC 4648, section 4) and the data-URI of the annotated image: a library call with nothing local to verify. `Predicted` carries the predictions only.
- Flask routing, CORS, `jsonify`, the `/` health route and server start-up: HTTP plumbing.
- `datetime.now().isoformat()`: timestamps are integers read from an injected clock, not ISO strings.
- `random`: the random source is an injected function, and the model makes no claim about its distribution.
- Concurrent requests on the shared unsynchronised `log_data`: the model is sequential.
- Box coordinates and their float-to-int truncation: used only for drawing.
- Conversion of float labels by `int(label)`: the detector's class indices are modelled as integers already.
- Not a gap: `WellFormed(registry)` is a precondition of `Analyze` and `Upload` that the source states nowhere. `PalmWellFormed` proves that the service's own registry meets it.
