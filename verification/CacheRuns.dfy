/**
 Any sequence of runs over one cache that starts empty: replay and live ones,
 completed ones, and ones that a failed call aborted and a later run resumed.
 */
module CacheRuns {
  import opened DecisionCache
  import opened Wrappers

  /** One invocation of the benchmark: what it would ask, and what the models would reply. */
  datatype Session = Session(requests: seq<Request>, replies: seq<Option<Decision>>)

  predicate AllPaired(runs: seq<Session>) {
    forall i | 0 <= i < |runs| :: |runs[i].requests| == |runs[i].replies|
  }

  /** The cache after the first m runs. */
  function CacheAfter(runs: seq<Session>, m: nat): Store
    requires AllPaired(runs) && m <= |runs|
  {
    if m == 0 then map[]
    else RunFrom(CacheAfter(runs, m - 1), runs[m - 1].requests, runs[m - 1].replies, |runs[m - 1].requests|).0
  }

  /** What run i answered; an aborted run answers fewer requests than it has, the last one with nothing. */
  function Answers(runs: seq<Session>, i: nat): (answers: seq<Answer>)
    requires AllPaired(runs) && i < |runs|
    ensures |answers| <= |runs[i].requests|
  {
    RunFrom(CacheAfter(runs, i), runs[i].requests, runs[i].replies, |runs[i].requests|).1
  }

  /** What run i did: the events it got to. */
  function Done(runs: seq<Session>, i: nat): seq<Event>
    requires AllPaired(runs) && i < |runs|
  {
    Zipped(runs[i].requests, runs[i].replies)[..|Answers(runs, i)|]
  }

  /** Everything done in the first m runs, in order. */
  function Trace(runs: seq<Session>, m: nat): seq<Event>
    requires AllPaired(runs) && m <= |runs|
  {
    if m == 0 then [] else Trace(runs, m - 1) + Done(runs, m - 1)
  }

  // --------------------------------------------------- runs are one event list

  lemma {:induction false} StorePrefix(store: Store, a: seq<Event>, b: seq<Event>, n: nat)
    requires n <= |a|
    ensures StoreAfter(store, a + b, n) == StoreAfter(store, a, n)
  {
    hide Decide;
    if n > 0 {
      StorePrefix(store, a, b, n - 1);
    }
  }

  lemma {:induction false} StoreAppend(store: Store, a: seq<Event>, b: seq<Event>, n: nat)
    requires n <= |b|
    ensures StoreAfter(store, a + b, |a| + n) == StoreAfter(StoreAfter(store, a, |a|), b, n)
  {
    hide Decide;
    if n > 0 {
      StoreAppend(store, a, b, n - 1);
    } else {
      StorePrefix(store, a, b, |a|);
    }
  }

  lemma {:induction false} StoreSlice(store: Store, a: seq<Event>, k: nat, n: nat)
    requires n <= k <= |a|
    ensures StoreAfter(store, a[..k], n) == StoreAfter(store, a, n)
  {
    assert a[..k] + a[k..] == a;
    StorePrefix(store, a[..k], a[k..], n);
  }

  lemma {:induction false} TraceIsPrefix(runs: seq<Session>, i: nat, m: nat)
    requires AllPaired(runs) && i <= m <= |runs|
    ensures |Trace(runs, i)| <= |Trace(runs, m)| && Trace(runs, m)[..|Trace(runs, i)|] == Trace(runs, i)
    decreases m
  {
    hide Done;
    if i < m {
      TraceIsPrefix(runs, i, m - 1);
    }
  }

  /** A run leaves the cache as the events it got to do. */
  lemma CacheStep(runs: seq<Session>, i: nat)
    requires AllPaired(runs) && i < |runs|
    ensures CacheAfter(runs, i + 1) == StoreAfter(CacheAfter(runs, i), Done(runs, i), |Done(runs, i)|)
  {
    var run, before, a := runs[i], CacheAfter(runs, i), |Answers(runs, i)|;
    hide RunFrom, Decide, StoreAfter, Zipped;
    RunIsEvents(before, run.requests, run.replies, |run.requests|);
    StoreSlice(before, Zipped(run.requests, run.replies), a, a);
  }

  /** The runs leave the cache as their trace does. */
  lemma {:induction false} CacheOfTrace(runs: seq<Session>, m: nat)
    requires AllPaired(runs) && m <= |runs|
    ensures CacheAfter(runs, m) == StoreAfter(map[], Trace(runs, m), |Trace(runs, m)|)
  {
    hide RunFrom, Decide, Done;
    if m > 0 {
      CacheOfTrace(runs, m - 1);
      CacheStep(runs, m - 1);
      StoreAppend(map[], Trace(runs, m - 1), Done(runs, m - 1), |Done(runs, m - 1)|);
    }
  }

  /** The event of answer k of run i. */
  function EventOf(runs: seq<Session>, i: nat, k: nat): Event
    requires AllPaired(runs) && i < |runs| && k < |Answers(runs, i)|
  {
    Event(runs[i].requests[k], runs[i].replies[k])
  }

  lemma DoneAt(runs: seq<Session>, i: nat, k: nat)
    requires AllPaired(runs) && i < |runs| && k < |Answers(runs, i)|
    ensures |Done(runs, i)| == |Answers(runs, i)| && Done(runs, i)[k] == EventOf(runs, i, k)
  {
    hide Answers;
  }

  lemma TraceNext(runs: seq<Session>, i: nat, k: nat)
    requires AllPaired(runs) && i < |runs| && k < |Answers(runs, i)|
    ensures |Trace(runs, i)| + k < |Trace(runs, i + 1)|
    ensures Trace(runs, i + 1)[|Trace(runs, i)| + k] == EventOf(runs, i, k)
  {
    DoneAt(runs, i, k);
    hide Answers, Done, EventOf;
  }

  lemma SameAnswer(store: Store, a: seq<Event>, i: nat, store': Store, b: seq<Event>, j: nat)
    requires i < |a| && j < |b| && a[i] == b[j] && StoreAfter(store, a, i) == StoreAfter(store', b, j)
    ensures AnswerAt(store, a, i) == AnswerAt(store', b, j)
  {
    hide StoreAfter, Decide;
  }

  lemma AnswerOfDone(runs: seq<Session>, i: nat, k: nat)
    requires AllPaired(runs) && i < |runs| && k < |Answers(runs, i)|
    ensures |Done(runs, i)| == |Answers(runs, i)|
    ensures AnswerAt(CacheAfter(runs, i), Done(runs, i), k) == Answers(runs, i)[k]
  {
    var run, before, events := runs[i], CacheAfter(runs, i), Zipped(runs[i].requests, runs[i].replies);
    hide RunFrom, Decide, StoreAfter, AnswerAt, CacheAfter;
    RunIsEvents(before, run.requests, run.replies, |run.requests|);
    StoreSlice(before, events, |Answers(runs, i)|, k);
    SameAnswer(before, events, k, before, Done(runs, i), k);
  }

  /** Within the trace of the runs up to its own, answer k of run i is the answer to its event. */
  lemma AnswerInNext(runs: seq<Session>, i: nat, k: nat)
    requires AllPaired(runs) && i < |runs| && k < |Answers(runs, i)|
    ensures |Trace(runs, i)| + k < |Trace(runs, i + 1)|
    ensures AnswerAt(map[], Trace(runs, i + 1), |Trace(runs, i)| + k) == Answers(runs, i)[k]
  {
    hide Answers, Done, StoreAfter, AnswerAt, CacheAfter, Trace, EventOf;
    var before, events := Trace(runs, i), Done(runs, i);
    AnswerOfDone(runs, i, k);
    CacheOfTrace(runs, i);
    TraceGrows(runs, i);
    StoreAppend(map[], before, events, k);
    SameAnswer(map[], before + events, |before| + k, CacheAfter(runs, i), events, k);
  }

  lemma TraceGrows(runs: seq<Session>, i: nat)
    requires AllPaired(runs) && i < |runs|
    ensures Trace(runs, i + 1) == Trace(runs, i) + Done(runs, i)
  {
    hide Done;
  }

  lemma PrefixAnswer(whole: seq<Event>, next: seq<Event>, at: nat)
    requires at < |next| <= |whole| && whole[..|next|] == next
    ensures whole[at] == next[at] && AnswerAt(map[], whole, at) == AnswerAt(map[], next, at)
  {
    hide AnswerAt, StoreAfter;
    StoreSlice(map[], whole, |next|, at);
    assert whole[at] == whole[..|next|][at];
    SameAnswer(map[], whole, at, map[], next, at);
  }

  /** Answer k of run i is the answer to its event in the trace. */
  lemma AnswersOfTrace(runs: seq<Session>, i: nat, k: nat, m: nat)
    requires AllPaired(runs) && i < m <= |runs| && k < |Answers(runs, i)|
    ensures |Trace(runs, i)| + k < |Trace(runs, i + 1)| <= |Trace(runs, m)|
    ensures var at := |Trace(runs, i)| + k;
            && Trace(runs, m)[at] == EventOf(runs, i, k)
            && AnswerAt(map[], Trace(runs, m), at) == Answers(runs, i)[k]
  {
    hide Trace, Answers, EventOf, AnswerAt;
    TraceIsPrefix(runs, i + 1, m);
    TraceNext(runs, i, k);
    AnswerInNext(runs, i, k);
    PrefixAnswer(Trace(runs, m), Trace(runs, i + 1), |Trace(runs, i)| + k);
  }

  // ------------------------------------------------------------ main results

  /** Request k of run i comes before request l of run j. */
  predicate Earlier(i: nat, k: nat, j: nat, l: nat) { i < j || (i == j && k < l) }

  lemma Places(runs: seq<Session>, i: nat, k: nat, j: nat, l: nat)
    requires AllPaired(runs) && i < |runs| && j < |runs| && Earlier(i, k, j, l)
    requires k < |Answers(runs, i)| && l < |Answers(runs, j)|
    ensures |Trace(runs, i)| + k < |Trace(runs, j)| + l
  {
    hide Answers, Done;
    if i < j {
      AnswersOfTrace(runs, i, k, j);
    }
  }

  /**
   Over any sequence of runs, once a request has been answered every later one
   like it gets the identical decision, in the same run or a resumed one, and
   asks no model.
   */
  lemma RepeatsFreeAcrossRuns(runs: seq<Session>, i: nat, k: nat, j: nat, l: nat)
    requires AllPaired(runs) && i < |runs| && j < |runs| && Earlier(i, k, j, l)
    requires k < |Answers(runs, i)| && l < |Answers(runs, j)|
    requires Answers(runs, i)[k].decision.Some? && SameRequest(runs[i].requests[k], runs[j].requests[l])
    ensures Answers(runs, j)[l] == Answer(Answers(runs, i)[k].decision, false)
  {
    hide Answers, Done, Trace, Decide, Key;
    var m := |runs|;
    AnswersOfTrace(runs, i, k, m);
    AnswersOfTrace(runs, j, l, m);
    Places(runs, i, k, j, l);
    RepeatsAreFree(map[], Trace(runs, m), |Trace(runs, i)| + k, |Trace(runs, j)| + l);
  }

  /** Over any sequence of runs a model completes at most one call for each key and task. */
  lemma OneCallAcrossRuns(runs: seq<Session>, i: nat, k: nat, j: nat, l: nat)
    requires AllPaired(runs) && i < |runs| && j < |runs|
    requires k < |Answers(runs, i)| && l < |Answers(runs, j)|
    requires Answers(runs, i)[k].called && Answers(runs, i)[k].decision.Some?
    requires Answers(runs, j)[l].called && Answers(runs, j)[l].decision.Some?
    requires SameRequest(runs[i].requests[k], runs[j].requests[l])
    ensures i == j && k == l
  {
    hide Answers, Done, Trace, Decide, Key;
    if Earlier(i, k, j, l) {
      RepeatsFreeAcrossRuns(runs, i, k, j, l);
    } else if Earlier(j, l, i, k) {
      RepeatsFreeAcrossRuns(runs, j, l, i, k);
    }
  }

  /** Every place in the trace belongs to one answer of one run. */
  lemma {:induction false} PlaceOf(runs: seq<Session>, m: nat, at: nat) returns (i: nat, k: nat)
    requires AllPaired(runs) && m <= |runs| && at < |Trace(runs, m)|
    ensures i < m && k < |Answers(runs, i)| && at == |Trace(runs, i)| + k
  {
    hide Answers;
    if at < |Trace(runs, m - 1)| {
      i, k := PlaceOf(runs, m - 1, at);
    } else {
      i, k := m - 1, at - |Trace(runs, m - 1)|;
    }
  }

  lemma TraceEvent(runs: seq<Session>, i: nat, k: nat)
    requires AllPaired(runs) && i < |runs| && k < |Answers(runs, i)|
    ensures var t, at := Trace(runs, |runs|), |Trace(runs, i)| + k;
            at < |t| && t[at] == EventOf(runs, i, k) && AnswerAt(map[], t, at) == Answers(runs, i)[k]
  {
    hide Answers, Done, Trace, EventOf, AnswerAt;
    AnswersOfTrace(runs, i, k, |runs|);
  }

  /** Answer k of run i is the first decision of all runs for its key and task. */
  ghost predicate FirstOfAll(runs: seq<Session>, i: nat, k: nat)
    requires AllPaired(runs) && i < |runs| && k < |Answers(runs, i)|
  {
    && Answers(runs, i)[k].decision.Some?
    && forall j: nat, l: nat ::
         j < |runs| && l < |Answers(runs, j)| && Earlier(j, l, i, k)
         && SameRequest(runs[j].requests[l], runs[i].requests[k]) ==>
           Answers(runs, j)[l].decision.None?
  }

  lemma FirstInTrace(runs: seq<Session>, i: nat, k: nat)
    requires AllPaired(runs) && i < |runs| && k < |Answers(runs, i)|
    requires |Trace(runs, i)| + k < |Trace(runs, |runs|)| && FirstAnswered(Trace(runs, |runs|), |Trace(runs, i)| + k)
    ensures FirstOfAll(runs, i, k)
  {
    hide Answers, Done, Trace, AnswerAt, Key;
    TraceEvent(runs, i, k);
    forall j: nat, l: nat |
      && j < |runs| && l < |Answers(runs, j)| && Earlier(j, l, i, k)
      && SameRequest(runs[j].requests[l], runs[i].requests[k])
      ensures Answers(runs, j)[l].decision.None?
    {
      TraceEvent(runs, j, l);
      Places(runs, j, l, i, k);
    }
  }

  /**
   Every decision of every run is that of the first request of all runs with its
   key and task that was answered, and carries that request's reply or seed
   unchanged: action, confidence, reasons, and every raw field.
   */
  lemma DecisionsCarriedAcrossRuns(runs: seq<Session>, i: nat, k: nat)
    requires AllPaired(runs) && i < |runs| && k < |Answers(runs, i)| && Answers(runs, i)[k].decision.Some?
    ensures exists j: nat, l: nat ::
              && j < |runs| && l < |Answers(runs, j)| && ((j, l) == (i, k) || Earlier(j, l, i, k))
              && SameRequest(runs[j].requests[l], runs[i].requests[k]) && FirstOfAll(runs, j, l)
              && FreshAnswer(Answers(runs, j)[l], EventOf(runs, j, l))
              && Answers(runs, i)[k].decision == Answers(runs, j)[l].decision
  {
    hide Answers, Done, Trace, AnswerAt, Key, FreshAnswer, FirstAnswered, FirstOfAll;
    var t, at := Trace(runs, |runs|), |Trace(runs, i)| + k;
    TraceEvent(runs, i, k);
    AnswerCarries(t, at);
    var b: nat :| b <= at && SameRequest(t[b].q, t[at].q) && FirstAnswered(t, b)
                  && FreshAnswer(AnswerAt(map[], t, b), t[b])
                  && AnswerAt(map[], t, at).decision == AnswerAt(map[], t, b).decision;
    var j, l := PlaceOf(runs, |runs|, b);
    TraceEvent(runs, j, l);
    FirstInTrace(runs, j, l);
    if (j, l) != (i, k) && !Earlier(j, l, i, k) {
      Places(runs, i, k, j, l);
    }
  }

  /** Every request of every run is as the benchmark issues it, every reply as a client gives it. */
  ghost predicate AllProper(runs: seq<Session>) {
    && AllPaired(runs)
    && forall i | 0 <= i < |runs| :: forall e | e in Zipped(runs[i].requests, runs[i].replies) :: Proper(e)
  }

  lemma {:induction false} TraceProper(runs: seq<Session>, m: nat)
    requires AllProper(runs) && m <= |runs|
    ensures forall e | e in Trace(runs, m) :: Proper(e)
  {
    hide Proper, Answers;
    if m > 0 {
      TraceProper(runs, m - 1);
    }
  }

  /** After any runs the cache is clean: no run is served another mode's entries, or another model's. */
  lemma CacheStaysClean(runs: seq<Session>, m: nat)
    requires AllProper(runs) && m <= |runs|
    ensures CleanFor(CacheAfter(runs, m))
  {
    hide CleanFor, Proper, Decide;
    TraceProper(runs, m);
    CacheOfTrace(runs, m);
    EmptyClean();
    EventsClean(map[], Trace(runs, m), |Trace(runs, m)|);
  }

  lemma EmptyClean()
    ensures CleanFor(map[])
  {}

  /** Every answer of every run, aborted ones included, comes from where its request says. */
  lemma HonestAcrossRuns(runs: seq<Session>, i: nat, k: nat)
    requires AllProper(runs) && i < |runs| && k < |Answers(runs, i)|
    requires Answers(runs, i)[k].decision.Some?
    ensures Honest(Answers(runs, i)[k].decision.value, runs[i].requests[k].mode)
  {
    hide Honest, Proper, Decide, Answers, Done, Trace;
    TraceProper(runs, |runs|);
    AnswersOfTrace(runs, i, k, |runs|);
    AnswersHonest(Trace(runs, |runs|), |Trace(runs, i)| + k);
  }

  /** A completed run reports one source for a baseline that it asked in one mode, whatever runs came before. */
  lemma NeverMixedAcrossRuns(runs: seq<Session>, i: nat, baseline: string, mode: Mode)
    requires AllProper(runs) && i < |runs| && !Aborted(Answers(runs, i))
    requires forall q | q in runs[i].requests && q.baseline == baseline :: q.mode == mode
    requires exists q :: q in runs[i].requests && q.baseline == baseline
    ensures |Answers(runs, i)| == |runs[i].requests|
    ensures var asked := Singles(runs[i].requests, Answers(runs, i), baseline, |runs[i].requests|);
            SourceOf(asked) == ModeLabel(mode) != "mixed" && LabelCounts(asked) == map[ModeLabel(mode) := |asked|]
  {
    hide CleanFor, Proper, RunFrom, Singles, SourceOf, LabelCounts, ModeLabel;
    CacheStaysClean(runs, i);
    SourcesNeverMixed(CacheAfter(runs, i), runs[i].requests, runs[i].replies, baseline, mode);
  }

  /** A completed table over at least one task names one source for each baseline, after any earlier runs. */
  lemma TableAfterRuns(earlier: seq<Session>, tasks: seq<string>, mode: nat -> Mode, seed: (string, nat) -> Decision,
                       replies: seq<Option<Decision>>, v: nat)
    requires AllProper(earlier) && |tasks| > 0 && v < 3
    requires TableInputs(tasks, mode, seed, replies)
    requires var qs := TableRequests(tasks, mode, seed);
             !Aborted(RunFrom(CacheAfter(earlier, |earlier|), qs, replies, |qs|).1)
    ensures var qs := TableRequests(tasks, mode, seed);
            var answers := RunFrom(CacheAfter(earlier, |earlier|), qs, replies, |qs|).1;
            |answers| == |qs| && SourceOf(Singles(qs, answers, ORDERED[v], |qs|)) == ModeLabel(mode(v)) != "mixed"
  {
    hide CleanFor, TableRequests, TableInputs, RunFrom, Singles, SourceOf, ModeLabel;
    CacheStaysClean(earlier, |earlier|);
    TableSources(CacheAfter(earlier, |earlier|), tasks, mode, seed, replies, v);
  }
}
