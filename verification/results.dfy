/**
 Recording worker replies and building the run report: each recorded
 reply gets the next id from the process-wide progress counters, results
 with a count of exactly 0 are dropped from the report, and the summary
 message says whether anything visibly differs.
 */
module Results {
  import opened Basics

  /** One recorded comparison. A negative count is the missing-side
      sentinel of the diff engine. */
  datatype TestRunResult = TestRunResult(diffId: nat, imageName: string, mismatchedPixels: int)

  /** The module-level counters `diffScreenshotId` and `countDifferent`.
      They live as long as the process, not one run. */
  datatype Progress = Progress(diffScreenshotId: nat, countDifferent: nat)

  /** `mismatchedPixels !== 0`: the result shows a difference. */
  predicate IsDifferent(r: TestRunResult)
  {
    r.mismatchedPixels != 0
  }

  /** `createTestRunResultAndUpdateProgressReport` without its console line. */
  function CreateTestRunResult(progress: Progress, imageName: string, mismatchedPixels: int): (r: (Progress, TestRunResult))
    ensures r.1.diffId == progress.diffScreenshotId + 1
    ensures r.0.diffScreenshotId == r.1.diffId
    ensures r.1.imageName == imageName && r.1.mismatchedPixels == mismatchedPixels
    ensures r.0.countDifferent == progress.countDifferent + (if IsDifferent(r.1) then 1 else 0)
  {
    var different := if mismatchedPixels != 0 then progress.countDifferent + 1 else progress.countDifferent;
    var id := progress.diffScreenshotId + 1;
    (Progress(id, different), TestRunResult(id, imageName, mismatchedPixels))
  }

  /** `testRunResults.filter(r => r.mismatchedPixels !== 0)`. */
  function KeepDifferent(results: seq<TestRunResult>): (r: seq<TestRunResult>)
    ensures |r| <= |results|
    ensures forall x :: x in r <==> x in results && IsDifferent(x)
  {
    if results == [] then []
    else if IsDifferent(results[0]) then [results[0]] + KeepDifferent(results[1..])
    else KeepDifferent(results[1..])
  }

  /** Filtering a longer list keeps what it kept before, in order. */
  lemma {:induction false} KeepDifferentAppend(a: seq<TestRunResult>, b: seq<TestRunResult>)
    ensures KeepDifferent(a + b) == KeepDifferent(a) + KeepDifferent(b)
  {
    if a == [] {
      assert a + b == b;
    } else {
      assert (a + b)[0] == a[0];
      assert (a + b)[1..] == a[1..] + b;
      KeepDifferentAppend(a[1..], b);
    }
  }

  const REPORT_VERSION: string := "0.0.1"
  const VISIBLE_DIFFERENCES: string :=
    "Alright, there are some visible difference. But are they regressions or expected changes ?"
  const NO_VISIBLE_DIFFERENCE: string :=
    "Great! There are no visible difference between the two versions."

  /** The object serialised to `diff.json`. */
  datatype RunData = RunData(
    version: string,
    message: string,
    baselinePath: string,
    candidatePath: string,
    diffPath: string,
    testRunResults: seq<TestRunResult>)

  /** How a run ends: with no recorded result only the error is logged;
      otherwise the run data is stored at `filePath`. */
  datatype Report = NoTestsRan | Stored(filePath: string, runData: RunData)

  /**
   The end of a run. With zero recorded results there is no report.
   Otherwise the different results (non-zero counts, negative sentinels
   included) are kept in order, and the "visible difference" message is
   chosen exactly when any is.
   */
  function Conclude(baselinePath: string, candidatePath: string, diffPath: string, results: seq<TestRunResult>): (r: Report)
    ensures r.NoTestsRan? <==> results == []
    ensures r.Stored? ==>
      && r.filePath == diffPath + "/diff.json"
      && r.runData.version == REPORT_VERSION
      && r.runData.baselinePath == baselinePath
      && r.runData.candidatePath == candidatePath
      && r.runData.diffPath == diffPath
      && r.runData.testRunResults == KeepDifferent(results)
      && (forall x :: x in r.runData.testRunResults <==> x in results && x.mismatchedPixels != 0)
      && (r.runData.message == VISIBLE_DIFFERENCES <==> exists x :: x in results && x.mismatchedPixels != 0)
      && (r.runData.message == VISIBLE_DIFFERENCES || r.runData.message == NO_VISIBLE_DIFFERENCE)
  {
    if |results| == 0 then NoTestsRan
    else
      var filtered := KeepDifferent(results);
      var message := if |filtered| > 0 then VISIBLE_DIFFERENCES else NO_VISIBLE_DIFFERENCE;
      assert |filtered| > 0 ==> filtered[0] in filtered;
      Stored(diffPath + "/diff.json", RunData(REPORT_VERSION, message, baselinePath, candidatePath, diffPath, filtered))
  }

  /** Results recorded one after another from some starting counters. */
  ghost predicate RecordedFrom(start: Progress, results: seq<TestRunResult>, now: Progress)
  {
    && now.diffScreenshotId == start.diffScreenshotId + |results|
    && now.countDifferent == start.countDifferent + |KeepDifferent(results)|
    && forall i :: 0 <= i < |results| ==> results[i].diffId == start.diffScreenshotId + i + 1
  }

  /**
   Recording one more reply keeps the counters in step with the results:
   the ids run on consecutively and `countDifferent` counts exactly the
   results that the report keeps.
   */
  lemma RecordKeepsCounters(start: Progress, results: seq<TestRunResult>, now: Progress, imageName: string, mismatchedPixels: int)
    requires RecordedFrom(start, results, now)
    ensures var (next, r) := CreateTestRunResult(now, imageName, mismatchedPixels);
      RecordedFrom(start, results + [r], next)
  {
    var (next, r) := CreateTestRunResult(now, imageName, mismatchedPixels);
    KeepDifferentAppend(results, [r]);
    assert KeepDifferent([r]) == if IsDifferent(r) then [r] else [] by {
      assert [r][1..] == [];
    }
  }
}
