/**
 One run end to end, with the file system and the worker processes as
 parameters: the PNG names of both listings, the dispatch of those names
 over the workers under a given interleaving, and the report built from
 the recorded replies. Also the worker's message handler, which loads
 both sides and diffs them with the threshold the message carries.
 */
module Orchestrator {
  import opened Basics
  import opened Images
  import opened Engine
  import opened PngNames
  import opened Results
  import opened Dispatch

  /** What the file system holds for one path: the decoded image if the
      file exists, and its parsed sidecar if that exists. */
  datatype StoredFile = StoredFile(image: Option<Image>, sidecar: Option<TestInformation>)

  /**
   The worker's handler for one request. The request carries no
   threshold, so `msg.threshold` is undefined and the engine uses its
   default. Both files missing gives an undefined reply.
   */
  function WorkerReply(req: Request, baseline: StoredFile, candidate: StoredFile): (r: Option<int>)
    ensures r.None? <==> baseline.image.None? && candidate.image.None?
    ensures r.Some? ==> r.value == DiffImages(
      Load(req.baselineImagePath, baseline.image, baseline.sidecar),
      Load(req.candidateImagePath, candidate.image, candidate.sidecar),
      Some(DEFAULT_THRESHOLD)).value.mismatchedPixels
  {
    var b := Load(req.baselineImagePath, baseline.image, baseline.sidecar);
    var c := Load(req.candidateImagePath, candidate.image, candidate.sidecar);
    assert Setup(b, c, None) == Setup(b, c, Some(DEFAULT_THRESHOLD));
    match DiffImages(b, c, None)
    case None => None
    case Some(o) => Some(o.mismatchedPixels)
  }

  /** The path has no line terminator, so the file-name pattern sees all of it. */
  predicate SingleLine(p: string)
  {
    forall i :: 0 <= i < |p| ==> !IsLineTerminator(p[i])
  }

  /**
   The message the orchestrator builds for a claimed name, handled by a
   worker: when either file exists the reply is the engine's count on the
   two loaded screenshots at the default threshold 0.03, and a screenshot
   loaded without a sidecar is named after the claimed name itself.
   */
  lemma DispatchedReply(baselinePath: string, candidatePath: string, diffPath: string, imageName: string,
                        baseline: StoredFile, candidate: StoredFile)
    requires baseline.image.Some? || candidate.image.Some?
    requires '/' !in imageName
    ensures var req := RequestFor(baselinePath, candidatePath, diffPath, imageName);
      WorkerReply(req, baseline, candidate) == Some(DiffImages(
        Load(baselinePath + "/" + imageName, baseline.image, baseline.sidecar),
        Load(candidatePath + "/" + imageName, candidate.image, candidate.sidecar),
        Some(DEFAULT_THRESHOLD)).value.mismatchedPixels)
    ensures var req := RequestFor(baselinePath, candidatePath, diffPath, imageName);
      baseline.image.Some? && baseline.sidecar.None? && SingleLine(req.baselineImagePath) ==>
        Load(req.baselineImagePath, baseline.image, baseline.sidecar).value.info.name == imageName
    ensures var req := RequestFor(baselinePath, candidatePath, diffPath, imageName);
      candidate.image.Some? && candidate.sidecar.None? && SingleLine(req.candidateImagePath) ==>
        Load(req.candidateImagePath, candidate.image, candidate.sidecar).value.info.name == imageName
  {
    if SingleLine(baselinePath + "/" + imageName) {
      FileNameStripsDirectories(baselinePath, imageName);
    }
    if SingleLine(candidatePath + "/" + imageName) {
      FileNameStripsDirectories(candidatePath, imageName);
    }
  }

  /** A finished or partial run: the names, the dispatch state, the report. */
  datatype Outcome = Outcome(names: seq<string>, state: State, report: Report)

  function Orchestrate(
    baselinePath: string, candidatePath: string, diffPath: string,
    baselineListing: seq<string>, candidateListing: seq<string>,
    workerCount: nat, progress: Progress, events: seq<Event>): Outcome
    requires ValidEvents(workerCount, events)
  {
    var names := PngFileNames(baselineListing, candidateListing);
    var s := Run(names, Start(workerCount, progress), events);
    Outcome(names, s, Conclude(baselinePath, candidatePath, diffPath, s.results))
  }

  /**
   When either listing has no PNG, no name is dispatched, no reply is
   recorded and the run ends without a report, whatever the workers do.
   */
  lemma NoPngsNoReport(
    baselinePath: string, candidatePath: string, diffPath: string,
    baselineListing: seq<string>, candidateListing: seq<string>,
    workerCount: nat, progress: Progress, events: seq<Event>)
    requires ValidEvents(workerCount, events)
    requires FilterPngs(baselineListing) == [] || FilterPngs(candidateListing) == []
    ensures var o := Orchestrate(baselinePath, candidatePath, diffPath, baselineListing, candidateListing, workerCount, progress, events);
      o.names == [] && o.state.claims == [] && o.report == NoTestsRan
  {
    var names := PngFileNames(baselineListing, candidateListing);
    DispatchClaimsInOrder(names, workerCount, progress, events);
  }

  /**
   A finished run (some worker killed) has claimed every PNG name once,
   in union order, and its report keeps exactly the recorded replies with
   a non-zero count.
   */
  lemma FinishedRunCoversAllNames(
    baselinePath: string, candidatePath: string, diffPath: string,
    baselineListing: seq<string>, candidateListing: seq<string>,
    workerCount: nat, progress: Progress, events: seq<Event>)
    requires ValidEvents(workerCount, events)
    requires var o := Orchestrate(baselinePath, candidatePath, diffPath, baselineListing, candidateListing, workerCount, progress, events);
      exists w :: 0 <= w < |o.state.workers| && o.state.workers[w].Killed?
    ensures var o := Orchestrate(baselinePath, candidatePath, diffPath, baselineListing, candidateListing, workerCount, progress, events);
      && o.state.claims == o.names
      && NoDuplicates(o.state.claims)
      && (o.report.Stored? ==> forall x :: x in o.report.runData.testRunResults <==> x in o.state.results && x.mismatchedPixels != 0)
  {
    var names := PngFileNames(baselineListing, candidateListing);
    DispatchClaimsInOrder(names, workerCount, progress, events);
  }
}
