/**
 The worker pool's shared cursor as a sequential state machine. Every
 worker runs `while (cursor < names.length) { name = names[cursor++];
 send; await one reply }` and is killed when the loop ends. JavaScript
 runs each worker's test-claim-advance without interruption, so any
 concurrent run is some interleaving of single steps:

   - an idle worker claims `names[cursor]` and advances the cursor, or,
     when the cursor has reached the end, is killed;
   - a busy worker receives its one reply and becomes idle again; a
     defined reply is recorded as a result, an undefined one is not;
   - a killed worker does nothing.

 An event names the worker that moves and the reply it would receive.
 */
module Dispatch {
  import opened Basics
  import opened Results

  datatype Worker = Idle | Busy(imageName: string) | Killed

  /** A reply is `undefined` or carries `mismatchedPixels`. */
  datatype Event = Event(worker: nat, reply: Option<int>)

  datatype State = State(
    cursor: nat,
    workers: seq<Worker>,
    claims: seq<string>,
    results: seq<TestRunResult>,
    progress: Progress)

  /** The message sent for one claimed name. It has no threshold field,
      so the worker's engine always falls back to the default. */
  datatype Request = Request(baselineImagePath: string, candidateImagePath: string, diffImagePath: string)

  function RequestFor(baselinePath: string, candidatePath: string, diffPath: string, imageName: string): (r: Request)
    ensures r.baselineImagePath == baselinePath + "/" + imageName
    ensures r.candidateImagePath == candidatePath + "/" + imageName
    ensures r.diffImagePath == diffPath + "/" + imageName
  {
    Request(baselinePath + "/" + imageName, candidatePath + "/" + imageName, diffPath + "/" + imageName)
  }

  /** All workers idle, nothing claimed yet. */
  function Start(workerCount: nat, progress: Progress): State
  {
    State(0, seq(workerCount, i => Idle), [], [], progress)
  }

  predicate ValidEvent(s: State, e: Event)
  {
    e.worker < |s.workers|
  }

  /** One atomic step of one worker. */
  function Step(names: seq<string>, s: State, e: Event): (s': State)
    requires ValidEvent(s, e)
    ensures |s'.workers| == |s.workers|
    ensures s.cursor <= s'.cursor <= s.cursor + 1
  {
    match s.workers[e.worker]
    case Idle =>
      if s.cursor < |names| then
        var name := names[s.cursor];
        s.(cursor := s.cursor + 1,
           workers := s.workers[e.worker := Busy(name)],
           claims := s.claims + [name])
      else
        s.(workers := s.workers[e.worker := Killed])
    case Busy(name) =>
      var s1 := s.(workers := s.workers[e.worker := Idle]);
      if e.reply.Some? then
        var (progress, result) := CreateTestRunResult(s.progress, name, e.reply.value);
        s1.(results := s.results + [result], progress := progress)
      else s1
    case Killed => s
  }

  predicate ValidEvents(workerCount: nat, events: seq<Event>)
  {
    forall i :: 0 <= i < |events| ==> events[i].worker < workerCount
  }

  /** The state after the events, in order. */
  function Run(names: seq<string>, s: State, events: seq<Event>): (s': State)
    requires ValidEvents(|s.workers|, events)
    ensures |s'.workers| == |s.workers|
    decreases |events|
  {
    if events == [] then s
    else Run(names, Step(names, s, events[0]), events[1..])
  }

  /** Busy workers: jobs in flight. */
  function InFlight(workers: seq<Worker>): (r: nat)
    ensures r <= |workers|
  {
    if workers == [] then 0
    else (if workers[0].Busy? then 1 else 0) + InFlight(workers[1..])
  }

  lemma {:induction false} InFlightUpdate(workers: seq<Worker>, i: nat, w: Worker)
    requires i < |workers|
    ensures InFlight(workers[i := w]) + (if workers[i].Busy? then 1 else 0)
      == InFlight(workers) + (if w.Busy? then 1 else 0)
  {
    if i > 0 {
      assert workers[i := w][1..] == workers[1..][i - 1 := w];
      InFlightUpdate(workers[1..], i - 1, w);
    }
  }

  /**
   What holds in every reachable state:
   the claims are exactly the first `cursor` names, in order;
   a killed worker means the cursor has reached the end;
   a busy worker holds a claimed name;
   recorded results plus jobs in flight never exceed the claims;
   every result is for a claimed name;
   and the counters are in step with the results.
   */
  ghost predicate Invariant(names: seq<string>, start: Progress, s: State)
  {
    && s.cursor <= |names|
    && s.claims == names[..s.cursor]
    && (forall w :: 0 <= w < |s.workers| && s.workers[w].Killed? ==> s.cursor == |names|)
    && (forall w :: 0 <= w < |s.workers| && s.workers[w].Busy? ==> s.workers[w].imageName in s.claims)
    && |s.results| + InFlight(s.workers) <= s.cursor
    && (forall i :: 0 <= i < |s.results| ==> s.results[i].imageName in s.claims)
    && RecordedFrom(start, s.results, s.progress)
  }

  lemma StartInvariant(names: seq<string>, workerCount: nat, progress: Progress)
    ensures Invariant(names, progress, Start(workerCount, progress))
  {
    var s := Start(workerCount, progress);
    assert InFlight(s.workers) == 0 by {
      InFlightAllIdle(s.workers);
    }
  }

  lemma {:induction false} InFlightAllIdle(workers: seq<Worker>)
    requires forall i :: 0 <= i < |workers| ==> workers[i] == Idle
    ensures InFlight(workers) == 0
  {
    if workers != [] {
      InFlightAllIdle(workers[1..]);
    }
  }

  lemma StepKeepsInvariant(names: seq<string>, start: Progress, s: State, e: Event)
    requires Invariant(names, start, s) && ValidEvent(s, e)
    ensures Invariant(names, start, Step(names, s, e))
  {
    var s' := Step(names, s, e);
    var w := e.worker;
    match s.workers[w]
    case Idle =>
      if s.cursor < |names| {
        InFlightUpdate(s.workers, w, Busy(names[s.cursor]));
        assert names[..s.cursor + 1] == names[..s.cursor] + [names[s.cursor]];
      } else {
        InFlightUpdate(s.workers, w, Killed);
      }
    case Busy(name) =>
      InFlightUpdate(s.workers, w, Idle);
      if e.reply.Some? {
        RecordKeepsCounters(start, s.results, s.progress, name, e.reply.value);
      }
    case Killed =>
  }

  lemma {:induction false} RunKeepsInvariant(names: seq<string>, start: Progress, s: State, events: seq<Event>)
    requires Invariant(names, start, s) && ValidEvents(|s.workers|, events)
    ensures Invariant(names, start, Run(names, s, events))
    decreases |events|
  {
    if events != [] {
      StepKeepsInvariant(names, start, s, events[0]);
      RunKeepsInvariant(names, start, Step(names, s, events[0]), events[1..]);
    }
  }

  /**
   Under any interleaving: the names claimed so far are the first
   `cursor` names in order, so none is claimed twice (for a duplicate-free
   list) and none is skipped; once any worker has been killed every name
   has been claimed; results never outnumber claims; and the result ids
   run on from the starting counters.
   */
  lemma DispatchClaimsInOrder(names: seq<string>, workerCount: nat, progress: Progress, events: seq<Event>)
    requires ValidEvents(workerCount, events)
    ensures var s := Run(names, Start(workerCount, progress), events);
      && s.cursor <= |names|
      && s.claims == names[..s.cursor]
      && (NoDuplicates(names) ==> NoDuplicates(s.claims))
      && ((exists w :: 0 <= w < |s.workers| && s.workers[w].Killed?) ==> s.claims == names)
      && |s.results| <= |s.claims|
      && (forall i :: 0 <= i < |s.results| ==> s.results[i].imageName in names)
      && (forall i :: 0 <= i < |s.results| ==> s.results[i].diffId == progress.diffScreenshotId + i + 1)
      && s.progress.countDifferent == progress.countDifferent + |KeepDifferent(s.results)|
  {
    StartInvariant(names, workerCount, progress);
    RunKeepsInvariant(names, progress, Start(workerCount, progress), events);
    var s := Run(names, Start(workerCount, progress), events);
    assert names[..|names|] == names;
    forall i | 0 <= i < |s.results|
      ensures s.results[i].imageName in names
    {
      var k :| 0 <= k < s.cursor && names[..s.cursor][k] == s.results[i].imageName;
      assert names[k] == s.results[i].imageName;
    }
  }

  /** With the cursor at the end, a step claims nothing. */
  lemma NoClaimAfterEnd(names: seq<string>, s: State, e: Event)
    requires ValidEvent(s, e) && s.cursor == |names|
    ensures Step(names, s, e).claims == s.claims
    ensures Step(names, s, e).cursor == s.cursor
    ensures s.workers[e.worker].Idle? ==> Step(names, s, e).workers[e.worker].Killed?
  {
  }

  /**
   An undefined reply records nothing; a defined one records exactly one
   result for the worker's claimed name, carrying the reply's count.
   */
  lemma ReplyRecording(names: seq<string>, s: State, e: Event)
    requires ValidEvent(s, e) && s.workers[e.worker].Busy?
    ensures var s' := Step(names, s, e);
      && s'.workers[e.worker].Idle?
      && s'.claims == s.claims
      && (e.reply.None? ==> s'.results == s.results)
      && (e.reply.Some? ==>
        && s'.results[..|s.results|] == s.results
        && |s'.results| == |s.results| + 1
        && s'.results[|s.results|].imageName == s.workers[e.worker].imageName
        && s'.results[|s.results|].mismatchedPixels == e.reply.value)
  {
  }
}
