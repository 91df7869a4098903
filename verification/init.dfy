/**
 InitializeFat: bring the storage driver up once per process, retrying on
 later calls for as long as the bring-up keeps failing.
 */
module FatInit {

  /** The module-wide flag g_Initialized. */
  datatype InitState = InitState(initialized: bool)

  /** The flag as the process starts. */
  const Boot := InitState(false)

  /** One call of InitializeFat: what it returns, the flag afterwards, and whether it called fatInitDefault. */
  datatype InitCall = InitCall(result: bool, next: InitState, calledDriver: bool)

  /**
   InitializeFat with `driverUp` standing for what fatInitDefault would
   report if called. Once the flag is set the call returns true without
   touching the driver; otherwise it asks the driver, and a success is
   remembered.
   */
  function InitializeFat(s: InitState, driverUp: bool): (c: InitCall)
    ensures c.result == c.next.initialized
    ensures s.initialized ==> c.next.initialized
    ensures c.calledDriver <==> !s.initialized
    ensures c.result <==> s.initialized || driverUp
  {
    if s.initialized then InitCall(true, s, false)
    else if !driverUp then InitCall(false, s, true)
    else InitCall(true, InitState(true), true)
  }

  /** The outcome of a run of successive calls. */
  datatype InitRun = InitRun(results: seq<bool>, driverCalls: nat, final: InitState)

  /**
   Successive calls of InitializeFat from `s`; `answers[i]` is what
   fatInitDefault would report at the i-th call.
   */
  function Run(s: InitState, answers: seq<bool>): (r: InitRun)
    ensures |r.results| == |answers|
    ensures r.driverCalls <= |answers|
    decreases answers
  {
    if answers == [] then InitRun([], 0, s)
    else
      var c := InitializeFat(s, answers[0]);
      var rest := Run(c.next, answers[1..]);
      InitRun([c.result] + rest.results, (if c.calledDriver then 1 else 0) + rest.driverCalls, rest.final)
  }

  /** Index of the first successful bring-up among `answers`, or |answers| if there is none. */
  function FirstUp(answers: seq<bool>): (k: nat)
    ensures k <= |answers|
    ensures forall i :: 0 <= i < k ==> !answers[i]
    ensures k < |answers| ==> answers[k]
  {
    if answers == [] || answers[0] then 0 else 1 + FirstUp(answers[1..])
  }

  /** Once initialised, every later call returns true, the driver is never called again, and the flag stays set. */
  lemma {:induction false} RunAfterInit(answers: seq<bool>)
    ensures var r := Run(InitState(true), answers);
            && (forall i :: 0 <= i < |r.results| ==> r.results[i])
            && r.driverCalls == 0
            && r.final.initialized
  {
    if answers != [] {
      RunAfterInit(answers[1..]);
    }
  }

  /**
   What a run from process start reports: the i-th call returns true exactly
   when one of the bring-ups up to and including the i-th succeeded;
   fatInitDefault is called until (and including) its first success and never
   after; and the flag ends set iff some bring-up succeeded.
   */
  ghost predicate ReportsFirstUp(answers: seq<bool>)
  {
    var r := Run(Boot, answers);
    && (forall i :: 0 <= i < |answers| ==> (r.results[i] <==> FirstUp(answers) <= i))
    && r.driverCalls == (if FirstUp(answers) < |answers| then FirstUp(answers) + 1 else |answers|)
    && (r.final.initialized <==> FirstUp(answers) < |answers|)
  }

  /** Every run from process start reports the first successful bring-up, as ReportsFirstUp says. */
  lemma {:induction false} RunFromBoot(answers: seq<bool>)
    ensures ReportsFirstUp(answers)
  {
    if answers != [] {
      if answers[0] {
        UpAtOnce(answers);
      } else {
        RunFromBoot(answers[1..]);
        DownFirst(answers);
      }
    }
  }

  /** A first bring-up that succeeds: every call returns true and the driver is called once. */
  lemma UpAtOnce(answers: seq<bool>)
    requires answers != [] && answers[0]
    ensures ReportsFirstUp(answers)
  {
    RunAfterInit(answers[1..]);
  }

  /** A first bring-up that fails costs one driver call and one false, and the rest of the run is a run from start. */
  lemma DownFirst(answers: seq<bool>)
    requires answers != [] && !answers[0]
    requires ReportsFirstUp(answers[1..])
    ensures ReportsFirstUp(answers)
  {
    var rest := answers[1..];
    var r := Run(Boot, answers);
    var r' := Run(Boot, rest);
    assert InitializeFat(Boot, false).next == Boot;
    assert FirstUp(answers) == 1 + FirstUp(rest);
    assert r == InitRun([false] + r'.results, 1 + r'.driverCalls, r'.final);
    forall i | 1 <= i < |answers|
      ensures r.results[i] <==> FirstUp(answers) <= i
    {
      assert r.results[i] == r'.results[i - 1];
    }
  }

  /** The flag is never reset: a run that starts initialised ends initialised, whatever the driver says. */
  lemma {:induction false} FlagNeverCleared(s: InitState, answers: seq<bool>)
    ensures s.initialized ==> Run(s, answers).final.initialized
    ensures Run(s, answers).final.initialized <==> s.initialized || true in answers
    decreases answers
  {
    if answers != [] {
      var c := InitializeFat(s, answers[0]);
      FlagNeverCleared(c.next, answers[1..]);
      assert answers == [answers[0]] + answers[1..];
    }
  }
}
