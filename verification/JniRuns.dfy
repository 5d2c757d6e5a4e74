/** Whole runs of JNI requests against the object table. */
module JniRuns {
  import opened ObjectTable
  import opened JniRequests

  /** A request that trips an assertion: a class without a name, or no slot left. */
  ghost predicate Fails(t: seq<Object>, r: Request) {
    r == FindClass("") || Overflows(t, r)
  }

  /** One request and its answer; a request with a handle that was never given out is passed over. */
  ghost predicate Step(t: seq<Object>, r: Request, h: nat, t': seq<Object>) {
    && !Fails(t, r)
    && if Proper(t, r) then Answers(t, r, t', h) else t' == t && h == 0
  }

  /** The requests served so far, with their answers and the tables between them. */
  ghost predicate Run(requests: seq<Request>, results: seq<nat>, trace: seq<seq<Object>>) {
    && |trace| == |results| + 1 && |results| <= |requests| && Sound(trace[0])
    && forall k :: 0 <= k < |results| ==> Step(trace[k], requests[k], results[k], trace[k + 1])
  }

  lemma StepSound(t: seq<Object>, r: Request, h: nat, t': seq<Object>)
    requires Step(t, r, h, t') && Sound(t)
    ensures Sound(t') && t <= t'
  {
    hide Sound, After, Result;
    AfterSound(t, r);
  }

  /** Every table of a run is sound and begins with every earlier one. */
  lemma {:induction false} RunSound(requests: seq<Request>, results: seq<nat>, trace: seq<seq<Object>>, i: nat, k: nat)
    requires Run(requests, results, trace) && i <= k <= |results|
    ensures Sound(trace[k]) && trace[i] <= trace[k]
    decreases k
  {
    hide Sound, Step;
    if k > 0 {
      RunSound(requests, results, trace, if i < k then i else 0, k - 1);
      StepSound(trace[k - 1], requests[k - 1], results[k - 1], trace[k - 1 + 1]);
    }
  }

  /** A request that was answered with a handle is settled in every later table. */
  lemma RunSettles(requests: seq<Request>, results: seq<nat>, trace: seq<seq<Object>>, i: nat, k: nat)
    requires Run(requests, results, trace) && i < k <= |results| && results[i] != 0
    ensures Again(trace[k], requests[i], results[i])
  {
    hide Sound, Answers, Again, Proper;
    assert Step(trace[i], requests[i], results[i], trace[i + 1]);
    RunSound(requests, results, trace, i + 1, k);
    AnswersSettle(trace[i], requests[i], trace[i + 1], results[i]);
    AgainLater(trace[i + 1], trace[k], requests[i], results[i]);
  }

  /** The same request is answered with the same handle ever after. */
  lemma RunRepeats(requests: seq<Request>, results: seq<nat>, trace: seq<seq<Object>>, i: nat, j: nat)
    requires Run(requests, results, trace) && i < j < |results| && requests[i] == requests[j] && results[i] != 0
    ensures results[j] == results[i]
  {
    hide Sound, Answers, Again, Proper;
    RunSettles(requests, results, trace, i, j);
    AgainProper(trace[j], requests[i], results[i]);
    assert Step(trace[j], requests[j], results[j], trace[j + 1]);
    AgainAnswer(trace[j], requests[j], results[i], trace[j + 1], results[j]);
  }

  /** A plain object was asked for with NULL or a class as its class, or not at all. */
  predicate GivesClass(t: seq<Object>, r: Request) {
    r.AllocObject? && 0 < r.klass <= |t| ==> IsClass(t, r.klass)
  }

  lemma StepTyped(t: seq<Object>, r: Request, h: nat, t': seq<Object>)
    requires Step(t, r, h, t') && Sound(t)
    ensures Typed(t') <==> Typed(t) && GivesClass(t, r)
  {
    hide Sound, After, Result, Typed;
    if Proper(t, r) {
      AfterTyped(t, r);
    }
  }

  /** All plain objects have classes as classes if and only if callers always gave them one. */
  lemma {:induction false} RunTyped(requests: seq<Request>, results: seq<nat>, trace: seq<seq<Object>>, n: nat)
    requires Run(requests, results, trace) && n <= |results|
    ensures Typed(trace[n]) <==> Typed(trace[0]) && forall k :: 0 <= k < n ==> GivesClass(trace[k], requests[k])
  {
    hide Sound, Step, Typed, GivesClass;
    if n > 0 {
      RunTyped(requests, results, trace, n - 1);
      RunSound(requests, results, trace, 0, n - 1);
      StepTyped(trace[n - 1], requests[n - 1], results[n - 1], trace[n - 1 + 1]);
    }
  }

  /** Then, from any handle at any time, two hops reach the class of classes. */
  lemma RunTwoHops(requests: seq<Request>, results: seq<nat>, trace: seq<seq<Object>>, n: nat, h: nat)
    requires Run(requests, results, trace) && n <= |results| && Typed(trace[0])
    requires forall k :: 0 <= k < n ==> GivesClass(trace[k], requests[k])
    requires 0 < h <= |trace[n]|
    ensures IsClass(trace[n], ClassOf(trace[n], h)) && ClassOf(trace[n], ClassOf(trace[n], h)) == 1
  {
    hide Sound, Step, Typed, GivesClass;
    RunTyped(requests, results, trace, n);
    RunSound(requests, results, trace, 0, n);
    TwoHops(trace[n], h);
  }

  lemma RunStarts(requests: seq<Request>, t: seq<Object>)
    requires Sound(t)
    ensures Run(requests, [], [t])
  {
    hide Sound;
  }

  lemma RunMore(requests: seq<Request>, results: seq<nat>, trace: seq<seq<Object>>, h: nat, t: seq<Object>)
    requires Run(requests, results, trace) && |results| < |requests|
    requires Step(trace[|results|], requests[|results|], h, t)
    ensures Run(requests, results + [h], trace + [t])
  {
    hide Step, Sound;
    var results', trace' := results + [h], trace + [t];
    forall k | 0 <= k < |results'| ensures Step(trace'[k], requests[k], results'[k], trace'[k + 1]) {
      if k < |results| {
        assert trace'[k] == trace[k] && trace'[k + 1] == trace[k + 1];
      }
    }
  }
}
