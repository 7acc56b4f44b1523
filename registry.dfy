/**
 * The class registry: label index to class name, display colour and the
 * candidate interpretation sentences of each palm line class. The service
 * has one fixed registry, `Palm`; the selector is defined for any registry
 * that is well formed, and `Palm` is.
 */
module Registry {
  import opened Wrappers
  import opened Sampling

  /** A colour as OpenCV takes it: (blue, green, red). */
  type Color = (int, int, int)

  /** The three parallel tables `class_names`, `colors` and `predictions`. */
  datatype Registry = Registry(classNames: seq<string>, colors: seq<Color>, predictions: map<string, seq<string>>)

  /** How many interpretations are drawn for each detected class. */
  const SampleSize: nat := 2

  /**
   * The longest population that `random.sample` draws `SampleSize` values
   * from by the pool method; a longer one it samples by rejecting repeats,
   * which `Sampling.Sample` does not describe.
   */
  const PoolMethodMax: nat := 21

  /**
   * What the selector and the annotator rely on: one colour per class, and
   * every class name has a candidate list of distinct sentences long enough
   * for a sample of `SampleSize` (a shorter one would make the sampling
   * fail, a missing one the dictionary lookup) and short enough for the
   * pool method.
   */
  ghost predicate WellFormed(reg: Registry) {
    && |reg.colors| == |reg.classNames|
    && forall n :: n in reg.classNames ==>
         && n in reg.predictions
         && SampleSize <= |reg.predictions[n]| <= PoolMethodMax
         && NoDuplicates(reg.predictions[n])
  }

  /**
   * The position `class_names[cls]` reads, with Python's list indexing:
   * a negative index counts from the end, anything else out of range is an
   * IndexError (None here).
   */
  function ClassIndex(reg: Registry, cls: int): (r: Option<nat>)
    ensures r.Some? <==> -|reg.classNames| <= cls < |reg.classNames|
    ensures r.Some? ==> r.value < |reg.classNames| && (r.value == cls || r.value == cls + |reg.classNames|)
  {
    var n := |reg.classNames|;
    if 0 <= cls < n then Some(cls)
    else if -n <= cls < 0 then Some(cls + n)
    else None
  }

  /** The candidate list `predictions[name]` of a registered class. */
  function Candidates(reg: Registry, name: string): (c: seq<string>)
    requires WellFormed(reg) && name in reg.classNames
    ensures SampleSize <= |c| <= PoolMethodMax && NoDuplicates(c)
  {
    reg.predictions[name]
  }

  /** The registry of the service: four palm lines, three sentences each. */
  const Palm: Registry := Registry(
    ["line0", "line1", "line2", "line3"],
    [(0, 0, 255), (255, 0, 0), (0, 255, 0), (0, 255, 255)],
    map[
      "line0" := [
        "Life line: vitality and health.",
        "Life line: resilience and stamina.",
        "Life line: inner strength."
      ],
      "line1" := [
        "Heart line: emotions and love.",
        "Heart line: empathy and compassion.",
        "Heart line: emotional balance."
      ],
      "line2" := [
        "Head line: intelligence and mindset.",
        "Head line: analytical thinking.",
        "Head line: creativity."
      ],
      "line3" := [
        "Fate line: career and destiny.",
        "Fate line: ambition.",
        "Fate line: long-term vision."
      ]
    ])

  lemma DistinctTriple(a: string, b: string, c: string)
    requires a != b && a != c && b != c
    ensures NoDuplicates([a, b, c])
  {
  }

  /**
   * The service's registry is well formed, registers no class twice, and
   * `predictions` holds exactly the registered classes.
   */
  lemma PalmWellFormed()
    ensures WellFormed(Palm)
    ensures NoDuplicates(Palm.classNames)
    ensures Palm.predictions.Keys == set n | n in Palm.classNames
  {
    var p := Palm.predictions;
    DistinctTriple(p["line0"][0], p["line0"][1], p["line0"][2]);
    DistinctTriple(p["line1"][0], p["line1"][1], p["line1"][2]) by {
      assert p["line1"][0][19] != p["line1"][2][19];
    }
    DistinctTriple(p["line2"][0], p["line2"][1], p["line2"][2]);
    DistinctTriple(p["line3"][0], p["line3"][1], p["line3"][2]);
    assert p["line0"] == [p["line0"][0], p["line0"][1], p["line0"][2]];
    assert p["line1"] == [p["line1"][0], p["line1"][1], p["line1"][2]];
    assert p["line2"] == [p["line2"][0], p["line2"][1], p["line2"][2]];
    assert p["line3"] == [p["line3"][0], p["line3"][1], p["line3"][2]];
  }
}
