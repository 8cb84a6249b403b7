/**
 * The attendance screen (ams.py): the gallery built from the `dataset`
 * folder at start-up, the nearest-identity matcher, the per-frame
 * recognition session on `current_name`, and the "Time In" / "Time Out"
 * buttons that append to the attendance ledger.
 *
 * Face detection, alignment and the embedding network are not modelled:
 * a frame arrives as "were face boxes found" plus the embedding the
 * network produced (or nothing when the face could not be aligned), and the
 * distance between embeddings is an abstract function into the reals.
 */
module Ams {
  import opened Wrappers
  import opened Text
  import opened Timestamps
  import opened Storage

  datatype Embedding = Embedding(components: seq<real>)

  /** One item of `embeddings_dict`: gallery key and reference embedding. */
  datatype Entry = Entry(name: string, embedding: Embedding)

  /** `embeddings_dict`, as its items in the dictionary's iteration (insertion) order. */
  type Gallery = seq<Entry>

  /** `mtcnn` then `resnet` on a photograph: its face embedding, or nothing when no face is found. */
  type Extractor = Image -> Option<Embedding>

  /** `np.linalg.norm(a - b)`. */
  type Metric = (Embedding, Embedding) -> real

  /** `recognize_face`'s default acceptance threshold. */
  const THRESHOLD: real := 0.9

  // ----- the gallery (process_dataset) -----

  /** `img_name.lower().endswith(('.png','jpg','jpeg'))`: note that the last two carry no dot. */
  predicate IsGalleryImage(f: string)
  {
    EndsWithFolded(f, ".png") || EndsWithFolded(f, "jpg") || EndsWithFolded(f, "jpeg")
  }

  function Keys(g: Gallery): set<string>
  {
    set i | 0 <= i < |g| :: g[i].name
  }

  predicate DistinctKeys(g: Gallery)
  {
    forall i, j :: 0 <= i < j < |g| ==> g[i].name != g[j].name
  }

  /** `os.listdir` contract: every file of the folder exactly once, in some order. */
  ghost predicate IsListingOf(listing: seq<string>, names: set<string>)
  {
    && Distinct(listing)
    && (forall f :: f in listing <==> f in names)
  }

  /**
   * `d[k] = v` on a dictionary: a new key goes to the end, an existing key
   * keeps its place and gets the new value.
   */
  function Put(g: Gallery, k: string, v: Embedding): (r: Gallery)
    requires DistinctKeys(g)
    ensures DistinctKeys(r)
    ensures Keys(r) == Keys(g) + {k}
    ensures |r| == if k in Keys(g) then |g| else |g| + 1
    ensures forall i :: 0 <= i < |g| ==> r[i] == if g[i].name == k then Entry(k, v) else g[i]
    ensures k !in Keys(g) ==> r[|g|] == Entry(k, v)
  {
    if k in Keys(g) then
      var r := seq(|g|, i requires 0 <= i < |g| => if g[i].name == k then Entry(k, v) else g[i]);
      assert Keys(r) == Keys(g) + {k} by {
        forall x | x in Keys(g) + {k} ensures x in Keys(r) {
          if x != k {
            var i :| 0 <= i < |g| && g[i].name == x;
            assert r[i].name == x;
          } else {
            var i :| 0 <= i < |g| && g[i].name == k;
            assert r[i].name == k;
          }
        }
      }
      r
    else
      var r := g + [Entry(k, v)];
      assert r[|g|].name == k;
      assert Keys(r) == Keys(g) + {k} by {
        forall x | x in Keys(r) ensures x in Keys(g) + {k} {
          var i :| 0 <= i < |r| && r[i].name == x;
          if i < |g| { assert g[i].name == x; }
        }
        forall x | x in Keys(g) ensures x in Keys(r) {
          var i :| 0 <= i < |g| && g[i].name == x;
          assert r[i].name == x;
        }
      }
      r
  }

  /** A folder file that ends up in the gallery: an image by suffix whose photo yields a face. */
  predicate Enrolls(f: string, files: map<string, Image>, embed: Extractor)
  {
    f in files && IsGalleryImage(f) && embed(files[f]).Some?
  }

  /** The dictionary `process_dataset` has built after the files of `listing`, in that order. */
  function GalleryOf(listing: seq<string>, files: map<string, Image>, embed: Extractor): (g: Gallery)
    ensures DistinctKeys(g)
  {
    if listing == [] then []
    else
      var g := GalleryOf(listing[..|listing| - 1], files, embed);
      var f := listing[|listing| - 1];
      if Enrolls(f, files, embed) then Put(g, Stem(f), embed(files[f]).value) else g
  }

  /** The gallery's keys are exactly the stems of the files that enrol; every other file is absent. */
  lemma {:induction false} GalleryKeys(listing: seq<string>, files: map<string, Image>, embed: Extractor)
    ensures forall k :: k in Keys(GalleryOf(listing, files, embed)) <==>
                        exists i :: 0 <= i < |listing| && Enrolls(listing[i], files, embed) && Stem(listing[i]) == k
  {
    if listing != [] {
      var n := |listing| - 1;
      var p := listing[..n];
      GalleryKeys(p, files, embed);
      GalleryKeysStep(listing, files, embed);
      forall k
        ensures k in Keys(GalleryOf(listing, files, embed)) <==>
                exists i :: 0 <= i < |listing| && Enrolls(listing[i], files, embed) && Stem(listing[i]) == k
      {
        if k in Keys(GalleryOf(p, files, embed)) {
          var i :| 0 <= i < |p| && Enrolls(p[i], files, embed) && Stem(p[i]) == k;
          assert listing[i] == p[i];
        }
        if exists i :: 0 <= i < |listing| && Enrolls(listing[i], files, embed) && Stem(listing[i]) == k {
          var i :| 0 <= i < |listing| && Enrolls(listing[i], files, embed) && Stem(listing[i]) == k;
          if i < n {
            assert p[i] == listing[i];
          }
        }
      }
    }
  }

  /** One more file adds its stem to the keys when it enrols, and nothing otherwise. */
  lemma GalleryKeysStep(listing: seq<string>, files: map<string, Image>, embed: Extractor)
    requires listing != []
    ensures var f := listing[|listing| - 1];
            Keys(GalleryOf(listing, files, embed))
            == Keys(GalleryOf(listing[..|listing| - 1], files, embed)) + (if Enrolls(f, files, embed) then {Stem(f)} else {})
  {
  }

  /** `listing[i]` enrols under `key`, and no later file of the listing does. */
  ghost predicate LastEnrolledAt(listing: seq<string>, files: map<string, Image>, embed: Extractor, i: int, key: string)
  {
    && 0 <= i < |listing| && Enrolls(listing[i], files, embed) && Stem(listing[i]) == key
    && forall i' :: i < i' < |listing| && Enrolls(listing[i'], files, embed) ==> Stem(listing[i']) != key
  }

  /**
   * Every gallery entry holds the embedding of the LAST file in listing order
   * whose stem is its key (a later `a.jpg` overwrites an earlier `a.png`).
   */
  lemma {:induction false} GalleryEntryFromLastFile(listing: seq<string>, files: map<string, Image>, embed: Extractor, j: nat)
    requires j < |GalleryOf(listing, files, embed)|
    ensures var e := GalleryOf(listing, files, embed)[j];
            exists i :: LastEnrolledAt(listing, files, embed, i, e.name) && e.embedding == embed(files[listing[i]]).value
  {
    var n := |listing| - 1;
    var p := listing[..n];
    var f := listing[n];
    var e := GalleryOf(listing, files, embed)[j];
    GalleryEntryStep(listing, files, embed, j);
    if Enrolls(f, files, embed) && e.name == Stem(f) {
      assert LastEnrolledAt(listing, files, embed, n, e.name);
    } else {
      GalleryEntryFromLastFile(p, files, embed, j);
      var i :| LastEnrolledAt(p, files, embed, i, e.name) && e.embedding == embed(files[p[i]]).value;
      LastEnrolledExtends(listing, files, embed, i, e.name);
    }
  }

  /** A last enrolment stays the last one after a file that does not enrol under the same key. */
  lemma LastEnrolledExtends(listing: seq<string>, files: map<string, Image>, embed: Extractor, i: int, key: string)
    requires listing != [] && LastEnrolledAt(listing[..|listing| - 1], files, embed, i, key)
    requires !(Enrolls(listing[|listing| - 1], files, embed) && Stem(listing[|listing| - 1]) == key)
    ensures LastEnrolledAt(listing, files, embed, i, key) && listing[i] == listing[..|listing| - 1][i]
  {
    var n := |listing| - 1;
    var p := listing[..n];
    forall i' | i < i' < |listing| && Enrolls(listing[i'], files, embed)
      ensures Stem(listing[i']) != key
    {
      if i' < n {
        assert listing[i'] == p[i'];
      }
    }
  }

  /** Entry `j` after one more file: that file's embedding when it enrols under this key, else entry `j` from before. */
  lemma GalleryEntryStep(listing: seq<string>, files: map<string, Image>, embed: Extractor, j: nat)
    requires listing != [] && j < |GalleryOf(listing, files, embed)|
    ensures var f, g, g' := listing[|listing| - 1], GalleryOf(listing, files, embed), GalleryOf(listing[..|listing| - 1], files, embed);
            if Enrolls(f, files, embed) && g[j].name == Stem(f) then g[j].embedding == embed(files[f]).value
            else j < |g'| && g'[j] == g[j]
  {
  }

  /** `process_dataset(path)`: scans the folder in `os.listdir` order and fills the dictionary. */
  method ProcessDataset(folder: Dataset, listing: seq<string>, embed: Extractor) returns (g: Gallery)
    requires IsListingOf(listing, folder.files.Keys)
    ensures g == GalleryOf(listing, folder.files, embed)
  {
    g := [];
    var i := 0;
    while i < |listing|
      invariant 0 <= i <= |listing|
      invariant g == GalleryOf(listing[..i], folder.files, embed)
    {
      var f := listing[i];
      assert listing[..i + 1][..i] == listing[..i];
      if IsGalleryImage(f) {
        var face := embed(folder.files[f]);
        if face.Some? {
          g := Put(g, Stem(f), face.value);
        }
      }
      i := i + 1;
    }
    assert listing[..i] == listing;
  }

  // ----- the matcher (recognize_face) -----

  /** A float that may be `float('inf')`. */
  datatype Distance = Finite(value: real) | Infinite

  /** `x < d` for a finite `x`. */
  predicate Closer(x: real, d: Distance)
  {
    d.Infinite? || x < d.value
  }

  /** `d < threshold` for a finite threshold. */
  predicate Accepted(d: Distance, threshold: real)
  {
    d.Finite? && d.value < threshold
  }

  datatype MatchResult = MatchResult(name: Option<string>, distance: Distance)

  /** `best, dist` after the loop of `recognize_face` has visited the entries of `g`. */
  function Scan(probe: Embedding, g: Gallery, metric: Metric): MatchResult
  {
    if g == [] then MatchResult(None, Infinite)
    else
      var prev := Scan(probe, g[..|g| - 1], metric);
      var d := metric(probe, g[|g| - 1].embedding);
      if Closer(d, prev.distance) then MatchResult(Some(g[|g| - 1].name), Finite(d)) else prev
  }

  /** What `recognize_face(probe, g, threshold)` returns. */
  function MatchFace(probe: Embedding, g: Gallery, threshold: real, metric: Metric): MatchResult
  {
    var m := Scan(probe, g, metric);
    if Accepted(m.distance, threshold) then m else MatchResult(None, m.distance)
  }

  /** Entry `k` is the first of `g` at the smallest distance from `probe`. */
  predicate FirstNearest(probe: Embedding, g: Gallery, metric: Metric, k: int)
  {
    && 0 <= k < |g|
    && (forall j :: 0 <= j < |g| ==> metric(probe, g[k].embedding) <= metric(probe, g[j].embedding))
    && (forall j :: 0 <= j < k ==> metric(probe, g[k].embedding) < metric(probe, g[j].embedding))
  }

  /** The scan ends on the first entry at the minimum distance, reporting that minimum. */
  lemma {:induction false} ScanFindsFirstNearest(probe: Embedding, g: Gallery, metric: Metric)
    requires g != []
    ensures exists k :: FirstNearest(probe, g, metric, k)
                        && Scan(probe, g, metric) == MatchResult(Some(g[k].name), Finite(metric(probe, g[k].embedding)))
  {
    var n := |g| - 1;
    var p := g[..n];
    if p == [] {
      assert Scan(probe, p, metric) == MatchResult(None, Infinite);
      assert FirstNearest(probe, g, metric, 0);
    } else {
      ScanFindsFirstNearest(probe, p, metric);
      var k :| FirstNearest(probe, p, metric, k)
               && Scan(probe, p, metric) == MatchResult(Some(p[k].name), Finite(metric(probe, p[k].embedding)));
      assert p[k] == g[k];
      if metric(probe, g[n].embedding) < metric(probe, p[k].embedding) {
        LastBecomesNearest(probe, g, metric, k);
      } else {
        NearestStaysNearest(probe, g, metric, k);
      }
    }
  }

  /** An entry appended strictly closer than the first nearest of the others is the new first nearest. */
  lemma LastBecomesNearest(probe: Embedding, g: Gallery, metric: Metric, k: nat)
    requires g != [] && FirstNearest(probe, g[..|g| - 1], metric, k)
    requires metric(probe, g[|g| - 1].embedding) < metric(probe, g[k].embedding)
    ensures FirstNearest(probe, g, metric, |g| - 1)
  {
    var n := |g| - 1;
    forall j | 0 <= j < n
      ensures metric(probe, g[n].embedding) < metric(probe, g[j].embedding)
    {
      assert g[..n][j] == g[j] && g[..n][k] == g[k];
    }
  }

  /** An entry appended no closer than the first nearest of the others leaves it the first nearest. */
  lemma NearestStaysNearest(probe: Embedding, g: Gallery, metric: Metric, k: nat)
    requires g != [] && FirstNearest(probe, g[..|g| - 1], metric, k)
    requires metric(probe, g[k].embedding) <= metric(probe, g[|g| - 1].embedding)
    ensures FirstNearest(probe, g, metric, k)
  {
    var n := |g| - 1;
    assert g[..n][k] == g[k];
    forall j | 0 <= j < n
      ensures metric(probe, g[k].embedding) <= metric(probe, g[j].embedding)
      ensures j < k ==> metric(probe, g[k].embedding) < metric(probe, g[j].embedding)
    {
      assert g[..n][j] == g[j];
    }
  }

  /**
   * `recognize_face` in full: an empty gallery gives no name and infinite
   * distance; otherwise the distance is the minimum over the gallery whether
   * or not the match is accepted, a name is returned exactly when that
   * minimum is below the threshold, and the name is that of the first entry
   * (in iteration order) at the minimum.
   */
  lemma MatchFaceSpec(probe: Embedding, g: Gallery, threshold: real, metric: Metric)
    ensures g == [] ==> MatchFace(probe, g, threshold, metric) == MatchResult(None, Infinite)
    ensures g != [] ==>
      exists k :: FirstNearest(probe, g, metric, k)
                  && var d := metric(probe, g[k].embedding);
                     MatchFace(probe, g, threshold, metric)
                       == MatchResult(if d < threshold then Some(g[k].name) else None, Finite(d))
  {
    if g != [] {
      ScanFindsFirstNearest(probe, g, metric);
    }
  }

  /** Any returned name is a gallery key. */
  lemma MatchedNameIsKey(probe: Embedding, g: Gallery, threshold: real, metric: Metric)
    ensures MatchFace(probe, g, threshold, metric).name.Some? ==> MatchFace(probe, g, threshold, metric).name.value in Keys(g)
  {
    MatchFaceSpec(probe, g, threshold, metric);
    if g != [] {
      var k :| FirstNearest(probe, g, metric, k)
               && var d := metric(probe, g[k].embedding);
                  MatchFace(probe, g, threshold, metric)
                    == MatchResult(if d < threshold then Some(g[k].name) else None, Finite(d));
      assert g[k].name in Keys(g);
    }
  }

  /**
   * A probe identical to an enrolled embedding is accepted at distance 0 for
   * any positive threshold, when the metric is zero on equal embeddings and
   * never negative (as a norm is).
   */
  lemma ExactProbeAccepted(probe: Embedding, g: Gallery, threshold: real, metric: Metric, i: nat)
    requires i < |g| && g[i].embedding == probe
    requires metric(probe, probe) == 0.0
    requires forall j :: 0 <= j < |g| ==> metric(probe, g[j].embedding) >= 0.0
    requires threshold > 0.0
    ensures MatchFace(probe, g, threshold, metric).name.Some?
    ensures MatchFace(probe, g, threshold, metric).distance == Finite(0.0)
  {
    MatchFaceSpec(probe, g, threshold, metric);
    var k :| FirstNearest(probe, g, metric, k)
             && var d := metric(probe, g[k].embedding);
                MatchFace(probe, g, threshold, metric)
                  == MatchResult(if d < threshold then Some(g[k].name) else None, Finite(d));
    assert metric(probe, g[k].embedding) <= metric(probe, g[i].embedding);
  }

  /** A probe at least `threshold` away from every entry is unknown. */
  lemma FarProbeUnknown(probe: Embedding, g: Gallery, threshold: real, metric: Metric)
    requires forall j :: 0 <= j < |g| ==> metric(probe, g[j].embedding) >= threshold
    ensures MatchFace(probe, g, threshold, metric).name == None
  {
    MatchFaceSpec(probe, g, threshold, metric);
  }

  /** `recognize_face(face_emb, db, threshold)`: the linear scan with strict `<`. */
  method RecognizeFace(probe: Embedding, g: Gallery, threshold: real, metric: Metric) returns (best: Option<string>, dist: Distance)
    ensures MatchResult(best, dist) == MatchFace(probe, g, threshold, metric)
  {
    best, dist := None, Infinite;
    var i := 0;
    while i < |g|
      invariant 0 <= i <= |g|
      invariant MatchResult(best, dist) == Scan(probe, g[..i], metric)
    {
      assert g[..i + 1][..i] == g[..i];
      var d := metric(probe, g[i].embedding);
      if Closer(d, dist) {
        best, dist := Some(g[i].name), Finite(d);
      }
      i := i + 1;
    }
    assert g[..i] == g;
    if !Accepted(dist, threshold) {
      best := None;
    }
  }

  // ----- the recognition session (update_video, reset_detection) -----

  /** What one processed frame amounts to. */
  datatype FrameOutcome = NoFace | NotAligned | UnknownFace | Known(name: string)

  /** The text of `name_label`. */
  datatype Status = NoFaceDetected | Detected(name: string) | ShowsUnknownFace | ShowsNotAligned

  /** Python truthiness of `name` / `current_name`: neither `None` nor the empty string. */
  predicate Truthy(n: Option<string>)
  {
    n.Some? && n.value != []
  }

  /** The outcome of a frame in which `boxes` tells whether any face box was found and `probe` is the aligned face's embedding, if any. */
  function Classify(boxes: bool, probe: Option<Embedding>, g: Gallery, metric: Metric): FrameOutcome
  {
    if !boxes then NoFace
    else if probe.None? then NotAligned
    else
      var m := MatchFace(probe.value, g, THRESHOLD, metric);
      if Truthy(m.name) then Known(m.name.value) else UnknownFace
  }

  /** `current_name` after a frame: cleared by no face, set by a known face, otherwise kept. */
  function NextName(current: Option<string>, o: FrameOutcome): Option<string>
  {
    match o
    case NoFace => None
    case Known(n) => Some(n)
    case _ => current
  }

  function StatusOf(o: FrameOutcome): Status
  {
    match o
    case NoFace => NoFaceDetected
    case NotAligned => ShowsNotAligned
    case UnknownFace => ShowsUnknownFace
    case Known(n) => Detected(n)
  }

  /** `current_name` after a run of frames. */
  function Run(current: Option<string>, outcomes: seq<FrameOutcome>): Option<string>
  {
    if outcomes == [] then current
    else NextName(Run(current, outcomes[..|outcomes| - 1]), outcomes[|outcomes| - 1])
  }

  /** Outcomes that leave `current_name` alone. */
  predicate Indecisive(o: FrameOutcome)
  {
    o.NotAligned? || o.UnknownFace?
  }

  /**
   * The session remembers only the last decisive frame: after a run,
   * `current_name` is what the last "no face" or "known face" frame made it,
   * and the starting value when there was none.
   */
  lemma {:induction false} RunKeepsLastDecisive(current: Option<string>, outcomes: seq<FrameOutcome>)
    ensures (forall j :: 0 <= j < |outcomes| ==> Indecisive(outcomes[j])) ==> Run(current, outcomes) == current
    ensures forall i :: 0 <= i < |outcomes| && !Indecisive(outcomes[i])
                        && (forall j :: i < j < |outcomes| ==> Indecisive(outcomes[j]))
                        ==> Run(current, outcomes) == (if outcomes[i].NoFace? then None else Some(outcomes[i].name))
  {
    if outcomes != [] {
      var n := |outcomes| - 1;
      var p := outcomes[..n];
      RunKeepsLastDecisive(current, p);
      forall i | 0 <= i < |outcomes| && !Indecisive(outcomes[i]) && (forall j :: i < j < |outcomes| ==> Indecisive(outcomes[j]))
        ensures Run(current, outcomes) == (if outcomes[i].NoFace? then None else Some(outcomes[i].name))
      {
        if i < n {
          assert p[i] == outcomes[i];
          forall j | i < j < |p| ensures Indecisive(p[j]) {
            assert p[j] == outcomes[j];
          }
        }
      }
      if forall j :: 0 <= j < |outcomes| ==> Indecisive(outcomes[j]) {
        forall j | 0 <= j < |p| ensures Indecisive(p[j]) {
          assert p[j] == outcomes[j];
        }
      }
    }
  }

  /** `mark_attendance(name, typ)` with the clock reading `now`: one `[name, ts, typ]` line at the end of the file. */
  method MarkAttendance(ledger: LedgerFile, name: string, kind: string, now: DateTime)
    requires ValidDateTime(now)
    modifies ledger
    ensures ledger.content == Some(RowsOf(old(ledger.content)) + [Row(name, FormatStamp(now), kind)])
  {
    var ts := FormatStamp(now);
    ledger.Append(Row(name, ts, kind));
  }

  /** The two attendance buttons. */
  datatype EventType = TimeIn | TimeOut

  function Label(t: EventType): string
  {
    match t
    case TimeIn => "Time In"
    case TimeOut => "Time Out"
  }

  /** `FaceAttendanceApp`: the recognition session and its buttons. */
  class FaceAttendanceApp {
    var currentName: Option<string>
    var status: Status
    const gallery: Gallery
    const metric: Metric
    const ledger: LedgerFile

    /** `current_name` is always empty or a gallery key. */
    ghost predicate Valid()
      reads this
    {
      currentName.None? || currentName.value in Keys(gallery)
    }

    /** Module load (`embeddings_dict = process_dataset("dataset")`) followed by `__init__`. */
    constructor (folder: Dataset, listing: seq<string>, embed: Extractor, metric: Metric, ledger: LedgerFile)
      requires IsListingOf(listing, folder.files.Keys)
      ensures Valid()
      ensures currentName == None && status == NoFaceDetected
      ensures gallery == GalleryOf(listing, folder.files, embed)
      ensures this.metric == metric && this.ledger == ledger
    {
      var g := ProcessDataset(folder, listing, embed);
      gallery := g;
      this.metric := metric;
      this.ledger := ledger;
      currentName := None;
      status := NoFaceDetected;
    }

    /**
     * `update_video` for one camera read: `frameRead` is `ret`, `boxes` says
     * whether `mtcnn.detect` found any box, `probe` is the embedding of the
     * aligned face (nothing when `mtcnn(pil)` returned `None`).
     */
    method UpdateVideo(frameRead: bool, boxes: bool, probe: Option<Embedding>)
      requires Valid()
      modifies this
      ensures Valid()
      ensures !frameRead ==> currentName == old(currentName) && status == old(status)
      ensures frameRead ==> var o := Classify(boxes, probe, gallery, metric);
                            currentName == NextName(old(currentName), o) && status == StatusOf(o)
    {
      if !frameRead {
        return;
      }
      if boxes {
        if probe.Some? {
          var name, dist := RecognizeFace(probe.value, gallery, THRESHOLD, metric);
          MatchedNameIsKey(probe.value, gallery, THRESHOLD, metric);
          if name.Some? && name.value != [] {
            currentName := name;
            status := Detected(name.value);
          } else {
            status := ShowsUnknownFace;
          }
        } else {
          status := ShowsNotAligned;
        }
      } else {
        currentName := None;
        status := NoFaceDetected;
      }
    }

    /** `record(typ)`: refused without a current name, else one ledger line for it. */
    method Record(typ: EventType, now: DateTime) returns (recorded: bool)
      requires Valid() && ValidDateTime(now)
      modifies ledger
      ensures recorded == Truthy(currentName)
      ensures recorded ==> currentName.value in Keys(gallery)
      ensures recorded ==> ledger.content == Some(RowsOf(old(ledger.content)) + [Row(currentName.value, FormatStamp(now), Label(typ))])
      ensures !recorded ==> ledger.content == old(ledger.content)
    {
      if !Truthy(currentName) {
        return false;
      }
      MarkAttendance(ledger, currentName.value, Label(typ), now);
      return true;
    }

    /** `reset_detection`: the "Again" button. */
    method ResetDetection()
      requires Valid()
      modifies this
      ensures Valid()
      ensures currentName == None && status == NoFaceDetected
    {
      currentName := None;
      status := NoFaceDetected;
    }
  }
}
