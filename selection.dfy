/** The candidate-selection pass: every candidate image is matched against the
    query in turn, each processed candidate gets its top matches drawn, and a
    best-so-far record keeps the first candidate with the most matches. The
    feature detector, the matcher and all file and window I/O are outside the
    model: a candidate arrives already loaded (or not) and already matched. */
module Selection {
  import opened Matches
  import opened Paths

  datatype Option<T> = None | Some(value: T)

  /** A decoded image; the selection pass copies it but never looks inside. */
  datatype Image = Image(pixels: seq<int>)

  /** A detected keypoint, reduced to its pixel location. */
  datatype Keypoint = Keypoint(x: int, y: int)

  /** What the pass learns about one candidate file before it compares counts. */
  datatype Load =
    | Unreadable
      // the image could not be read
    | Loaded(image: Image, keypoints: seq<Keypoint>, matched: Option<seq<Match>>)
      // `matched` is None when the detector gave no descriptor set, so the
      // matcher never ran; otherwise it is the matcher's output, unsorted

  /** A candidate file, in the order the folder listing produced it. */
  datatype Candidate = Candidate(path: string, load: Load)

  /** The best-so-far record: match count, image, matches, keypoints and name. */
  datatype Best = Best(
    count: nat,
    image: Option<Image>,
    matches: Option<seq<Match>>,
    keypoints: Option<seq<Keypoint>>,
    name: string)

  /** What the pass finally reports. */
  datatype Outcome =
    | NoSatisfactoryMatch
    | BestMatch(name: string, count: nat, savePath: string, image: Image,
                keypoints: seq<Keypoint>, drawn: seq<Match>)

  /** The rendering written for one processed candidate. */
  datatype Rendering = Rendering(savePath: string, image: Image, keypoints: seq<Keypoint>, drawn: seq<Match>)

  /** The record before any candidate is seen. */
  const Initial: Best := Best(0, None, None, None, "")

  /** A candidate that was read and had descriptors, so that it was matched. */
  predicate Processed(c: Candidate)
  {
    c.load.Loaded? && c.load.matched.Some?
  }

  /** The number of matches a processed candidate has. */
  function Count(c: Candidate): nat
    requires Processed(c)
  {
    |c.load.matched.value|
  }

  /** A record either holds nothing, or holds one candidate's fields together,
      with a positive count equal to the number of its (sorted) matches. */
  predicate Coherent(b: Best)
  {
    && b.matches.Some? == b.image.Some?
    && b.keypoints.Some? == b.image.Some?
    && (b.image.None? ==> b.count == 0 && b.name == "")
    && (b.image.Some? ==> b.count == |b.matches.value| > 0 && Sorted(b.matches.value))
  }

  /** The record a processed candidate puts in place when it becomes the best. */
  function Record(c: Candidate): (b: Best)
    requires Processed(c)
    ensures b.count == Count(c) && b.name == BaseName(c.path)
    ensures b.image == Some(c.load.image) && b.keypoints == Some(c.load.keypoints)
    ensures b.matches == Some(SortByDistance(c.load.matched.value))
    ensures b.matches.Some? && Sorted(b.matches.value)
    ensures multiset(b.matches.value) == multiset(c.load.matched.value)
    ensures Count(c) > 0 ==> Coherent(b)
  {
    var sorted := SortByDistance(c.load.matched.value);
    Best(|sorted|, Some(c.load.image), Some(sorted), Some(c.load.keypoints), BaseName(c.path))
  }

  /** One iteration of the loop: a skipped candidate changes nothing, and a
      processed one replaces the record only with strictly more matches. */
  function Step(b: Best, c: Candidate): (r: Best)
    ensures !Processed(c) ==> r == b
    ensures Processed(c) && Count(c) <= b.count ==> r == b
    ensures Processed(c) && Count(c) > b.count ==> r == Record(c)
    ensures r.count >= b.count
    ensures Coherent(b) ==> Coherent(r)
  {
    if Processed(c) && Count(c) > b.count then Record(c) else b
  }

  /** The record after the loop has run over `cs`, one candidate at a time. */
  function Fold(cs: seq<Candidate>): (b: Best)
    ensures Coherent(b)
  {
    if cs == [] then Initial else Step(Fold(cs[..|cs| - 1]), cs[|cs| - 1])
  }

  /** The largest match count over the processed candidates, 0 if there are none. */
  function MaxCount(cs: seq<Candidate>): (m: nat)
    ensures forall i :: 0 <= i < |cs| && Processed(cs[i]) ==> Count(cs[i]) <= m
    ensures m == 0 || exists i :: 0 <= i < |cs| && Processed(cs[i]) && Count(cs[i]) == m
  {
    if cs == [] then 0
    else
      var m, c := MaxCount(cs[..|cs| - 1]), cs[|cs| - 1];
      if Processed(c) && Count(c) > m then Count(c) else m
  }

  /** The index of the first processed candidate with exactly `k` matches. */
  function FirstWithCount(cs: seq<Candidate>, k: nat): (r: Option<nat>)
    ensures r.Some? ==> r.value < |cs| && Processed(cs[r.value]) && Count(cs[r.value]) == k
    ensures r.Some? ==> forall j :: 0 <= j < r.value && Processed(cs[j]) ==> Count(cs[j]) != k
    ensures r.None? ==> forall j :: 0 <= j < |cs| && Processed(cs[j]) ==> Count(cs[j]) != k
  {
    if cs == [] then None
    else match FirstWithCount(cs[..|cs| - 1], k)
      case Some(i) => Some(i)
      case None =>
        var c := cs[|cs| - 1];
        if Processed(c) && Count(c) == k then Some(|cs| - 1) else None
  }

  /** The candidate the pass should pick, defined independently of the loop:
      the first processed candidate whose count is the maximum, provided that
      maximum is positive. */
  function FirstBest(cs: seq<Candidate>): (r: Option<nat>)
    ensures r.None? <==> forall j :: 0 <= j < |cs| && Processed(cs[j]) ==> Count(cs[j]) == 0
    ensures r.Some? ==> r.value < |cs| && Processed(cs[r.value]) && Count(cs[r.value]) > 0
    ensures r.Some? ==> forall j :: 0 <= j < |cs| && Processed(cs[j]) ==> Count(cs[j]) <= Count(cs[r.value])
    ensures r.Some? ==> forall j :: 0 <= j < r.value && Processed(cs[j]) ==> Count(cs[j]) < Count(cs[r.value])
  {
    var m := MaxCount(cs);
    if m == 0 then None else FirstWithCount(cs, m)
  }

  /** The record the pass should end with, by the independent definition. */
  function Expected(cs: seq<Candidate>): (b: Best)
    ensures b.count == MaxCount(cs)
  {
    match FirstBest(cs)
    case None => Initial
    case Some(i) => Record(cs[i])
  }

  /** The loop computes the first maximum: its final record is the initial one
      when no processed candidate has a match, and otherwise is exactly the
      record of the earliest candidate with the largest count. */
  lemma {:induction false} FoldIsFirstMaximum(cs: seq<Candidate>)
    ensures Fold(cs) == Expected(cs)
  {
    if cs != [] {
      var prefix, c := cs[..|cs| - 1], cs[|cs| - 1];
      FoldIsFirstMaximum(prefix);
      var m := MaxCount(prefix);
      assert Fold(cs) == Step(Fold(prefix), c);
      assert Fold(prefix).count == m;
      if Processed(c) && Count(c) > m {
        assert MaxCount(cs) == Count(c);
        assert FirstWithCount(prefix, Count(c)).None?;
        assert FirstBest(cs) == Some(|cs| - 1);
      } else {
        assert MaxCount(cs) == m;
        if m > 0 {
          var i := FirstWithCount(prefix, m).value;
          assert FirstBest(prefix) == Some(i);
          assert FirstBest(cs) == Some(i);
          assert cs[i] == prefix[i];
        }
      }
    }
  }

  /** The final count is the largest count of any processed candidate. */
  lemma BestCountIsMaximum(cs: seq<Candidate>)
    ensures Fold(cs).count == MaxCount(cs)
    ensures forall i :: 0 <= i < |cs| && Processed(cs[i]) ==> Count(cs[i]) <= Fold(cs).count
  {
    FoldIsFirstMaximum(cs);
  }

  /** "No satisfactory match" is reported exactly when there are no candidates,
      all of them are skipped, or every processed one has zero matches. */
  lemma NoMatchExactlyWhenNoCount(cs: seq<Candidate>)
    ensures Fold(cs).image.None? <==> forall i :: 0 <= i < |cs| && Processed(cs[i]) ==> Count(cs[i]) == 0
  {
    FoldIsFirstMaximum(cs);
  }

  /** The folder listing is all `.png` files, then all `.jpg`, then all `.jpeg`,
      so a `.png` candidate that reaches the maximum beats every `.jpg` or
      `.jpeg` candidate with the same count. */
  lemma {:induction false} PngWinsTies(png: seq<Candidate>, jpg: seq<Candidate>, jpeg: seq<Candidate>, j: nat)
    requires j < |png| && Processed(png[j])
    requires Count(png[j]) == MaxCount(png + jpg + jpeg) > 0
    ensures exists i :: 0 <= i <= j && Processed(png[i]) && Fold(png + jpg + jpeg) == Record(png[i])
  {
    var cs := png + jpg + jpeg;
    assert cs[j] == png[j];
    FoldIsFirstMaximum(cs);
    var w := FirstBest(cs).value;
    assert w <= j;
    assert cs[w] == png[w];
  }

  /** A skipped candidate (unreadable, or without descriptors) leaves every
      field of the record as it was. */
  lemma SkipLeavesRecord(cs: seq<Candidate>, c: Candidate)
    requires !Processed(c)
    ensures Fold(cs + [c]) == Fold(cs)
  {
    assert (cs + [c])[..|cs|] == cs;
  }

  /** The best count never decreases from one iteration to the next. */
  lemma {:induction false} CountNeverDecreases(cs: seq<Candidate>, k: nat)
    requires k <= |cs|
    ensures Fold(cs[..k]).count <= Fold(cs).count
  {
    if k < |cs| {
      assert cs[..|cs| - 1][..k] == cs[..k];
      CountNeverDecreases(cs[..|cs| - 1], k);
    } else {
      assert cs[..k] == cs;
    }
  }

  /** A rendering draws at most `PerCandidateLimit` matches, closest first. */
  predicate WithinLimit(r: Rendering)
  {
    |r.drawn| <= PerCandidateLimit && Sorted(r.drawn)
  }

  /** The rendering drawn for a processed candidate: its matches sorted by
      distance and cut to the first `PerCandidateLimit`, with no padding. */
  function RenderingOf(c: Candidate): Rendering
    requires Processed(c)
  {
    var sorted := SortByDistance(c.load.matched.value);
    Rendering(OutputPath(MatchesPrefix, BaseName(c.path)), c.load.image, c.load.keypoints,
              Take(sorted, PerCandidateLimit))
  }

  /** A processed candidate's rendering is saved as `matches_<base name>` in the
      output folder, shows the candidate's own image and keypoints, and draws
      the first `min(PerCandidateLimit, count)` of its sorted matches. */
  lemma RenderingDrawsClosest(c: Candidate)
    requires Processed(c)
    ensures RenderingOf(c).savePath == OutputPath(MatchesPrefix, BaseName(c.path))
    ensures RenderingOf(c).savePath[..|OutputFolder| + 1] == OutputFolder + "/"
    ensures BaseName(RenderingOf(c).savePath) == MatchesPrefix + BaseName(c.path)
    ensures RenderingOf(c).image == c.load.image && RenderingOf(c).keypoints == c.load.keypoints
    ensures |RenderingOf(c).drawn| == if Count(c) < PerCandidateLimit then Count(c) else PerCandidateLimit
    ensures RenderingOf(c).drawn == Record(c).matches.value[..|RenderingOf(c).drawn|]
    ensures WithinLimit(RenderingOf(c))
  {
    assert '/' !in MatchesPrefix;
  }

  /** The renderings the loop writes, one per processed candidate, in order. */
  function Renders(cs: seq<Candidate>): (rs: seq<Rendering>)
    ensures |rs| <= |cs|
  {
    if cs == [] then []
    else
      var c := cs[|cs| - 1];
      Renders(cs[..|cs| - 1]) + if Processed(c) then [RenderingOf(c)] else []
  }

  /** The number of processed candidates in `cs`. */
  function ProcessedCount(cs: seq<Candidate>): nat
  {
    if cs == [] then 0
    else ProcessedCount(cs[..|cs| - 1]) + if Processed(cs[|cs| - 1]) then 1 else 0
  }

  /** Exactly one rendering is written per processed candidate. */
  lemma {:induction false} RendersCountProcessed(cs: seq<Candidate>)
    ensures |Renders(cs)| == ProcessedCount(cs)
  {
    if cs != [] {
      RendersCountProcessed(cs[..|cs| - 1]);
    }
  }

  /** Appending a candidate keeps the earlier renderings and adds the new
      candidate's own rendering if it is processed. */
  lemma RendersSnoc(cs: seq<Candidate>)
    requires cs != []
    ensures var prefix, c := cs[..|cs| - 1], cs[|cs| - 1];
      && |Renders(cs)| == |Renders(prefix)| + (if Processed(c) then 1 else 0)
      && Renders(cs)[..|Renders(prefix)|] == Renders(prefix)
      && (Processed(c) ==> Renders(cs)[|Renders(prefix)|] == RenderingOf(c))
  {
  }

  /** Every processed candidate has its rendering written, in listing order:
      candidate `i`'s rendering comes right after those of the processed
      candidates before it. */
  lemma {:induction false} RendersCoverProcessed(cs: seq<Candidate>, i: nat)
    requires i < |cs| && Processed(cs[i])
    ensures ProcessedCount(cs[..i]) < |Renders(cs)|
    ensures Renders(cs)[ProcessedCount(cs[..i])] == RenderingOf(cs[i])
  {
    var prefix := cs[..|cs| - 1];
    RendersSnoc(cs);
    if i < |prefix| {
      assert prefix[i] == cs[i] && prefix[..i] == cs[..i];
      RendersCoverProcessed(prefix, i);
      var k := ProcessedCount(cs[..i]);
      assert Renders(cs)[..|Renders(prefix)|][k] == Renders(cs)[k];
    } else {
      assert cs[..i] == prefix;
      RendersCountProcessed(prefix);
    }
  }

  /** Every rendering written belongs to a processed candidate, so a skipped
      candidate gets none. */
  lemma {:induction false} RendersFromProcessed(cs: seq<Candidate>, k: nat)
    requires k < |Renders(cs)|
    ensures exists i :: 0 <= i < |cs| && Processed(cs[i]) && Renders(cs)[k] == RenderingOf(cs[i])
  {
    var prefix, c := cs[..|cs| - 1], cs[|cs| - 1];
    if k < |Renders(prefix)| {
      RendersFromProcessed(prefix, k);
      var i :| 0 <= i < |prefix| && Processed(prefix[i]) && Renders(prefix)[k] == RenderingOf(prefix[i]);
      assert prefix[i] == cs[i];
    } else {
      assert Renders(cs)[k] == RenderingOf(c);
    }
  }

  /** Every rendering the loop writes draws at most `PerCandidateLimit`
      matches, closest first. */
  lemma {:induction false} RendersWithinLimit(cs: seq<Candidate>, k: nat)
    requires k < |Renders(cs)|
    ensures WithinLimit(Renders(cs)[k])
  {
    var prefix, c := cs[..|cs| - 1], cs[|cs| - 1];
    if k < |Renders(prefix)| {
      RendersWithinLimit(prefix, k);
    } else {
      assert Renders(cs)[k] == RenderingOf(c);
      RenderingDrawsClosest(c);
    }
  }

  /** The branch after the loop: no satisfactory match, or the best candidate
      with its closest `BestLimit` matches drawn. */
  function Report(b: Best): (o: Outcome)
    requires Coherent(b)
    ensures o.NoSatisfactoryMatch? <==> b.image.None?
    ensures o.BestMatch? ==> o.name == b.name && o.count == b.count
    ensures o.BestMatch? ==> o.savePath == OutputPath(BestMatchPrefix, b.name)
    ensures o.BestMatch? ==> o.image == b.image.value && o.keypoints == b.keypoints.value
    ensures o.BestMatch? ==> |o.drawn| == (if b.count < BestLimit then b.count else BestLimit)
    ensures o.BestMatch? ==> o.drawn == b.matches.value[..|o.drawn|] && Sorted(o.drawn)
  {
    if b.image.None? then NoSatisfactoryMatch
    else BestMatch(b.name, b.count, OutputPath(BestMatchPrefix, b.name), b.image.value,
                   b.keypoints.value, BestDrawn(b.matches.value))
  }

  /** The whole pass: the loop over the candidates in listing order, then the
      report. Its record is the first maximum, its renderings are those of the
      processed candidates, and "no satisfactory match" is reported exactly
      when no processed candidate has a match. */
  method SelectBest(candidates: seq<Candidate>) returns (best: Best, renders: seq<Rendering>, outcome: Outcome)
    ensures best == Fold(candidates) && renders == Renders(candidates)
    ensures best == Expected(candidates)
    ensures outcome == Report(best)
    ensures outcome.NoSatisfactoryMatch? <==>
              forall i :: 0 <= i < |candidates| && Processed(candidates[i]) ==> Count(candidates[i]) == 0
  {
    best, renders := Initial, [];
    for i := 0 to |candidates|
      invariant best == Fold(candidates[..i])
      invariant renders == Renders(candidates[..i])
    {
      assert candidates[..i + 1][..i] == candidates[..i];
      var candidate := candidates[i];
      if candidate.load.Unreadable? {
        continue;
      }
      var image, keypoints := candidate.load.image, candidate.load.keypoints;
      if candidate.load.matched.None? {
        continue;
      }
      var matches := SortByDistance(candidate.load.matched.value);
      var name := BaseName(candidate.path);
      renders := renders + [Rendering(OutputPath(MatchesPrefix, name), image, keypoints,
                                      Take(matches, PerCandidateLimit))];
      if |matches| > best.count {
        best := Best(|matches|, Some(image), Some(matches), Some(keypoints), name);
      }
    }
    assert candidates[..|candidates|] == candidates;
    FoldIsFirstMaximum(candidates);
    if best.image.None? {
      outcome := NoSatisfactoryMatch;
    } else {
      outcome := BestMatch(best.name, best.count, OutputPath(BestMatchPrefix, best.name),
                           best.image.value, best.keypoints.value, BestDrawn(best.matches.value));
    }
  }
}
