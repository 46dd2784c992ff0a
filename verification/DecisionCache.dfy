/**
 The live/replay decision cache of the tool-call benchmark. Model replies are
 inputs: a reply is what the client would answer if it were asked, or nothing
 when the call fails. Runs may be aborted and resumed in any order.
 */
module DecisionCache {
  import opened Sums
  import opened Wrappers

  datatype Decision = Decision(action: string, confidence: Option<real>, reasons: seq<string>, raw: map<string, string>)

  datatype Mode = Replay | Live(model: string)

  /** One decision asked of a baseline: replay uses the seed, live the model's reply. */
  datatype Request = Request(mode: Mode, baseline: string, taskId: string, seed: Decision)

  /** The "decisions" part of the cache: key -> task id -> entry. */
  type Store = map<string, map<string, Decision>>

  datatype Answer = Answer(decision: Option<Decision>, called: bool)

  const ORDERED := ["single_model_gpt", "single_model_claude", "single_model_gemini"]
  const BASELINES := {"single_model_gpt", "single_model_claude", "single_model_gemini"}

  function LiveKey(baseline: string, model: string): string { baseline + "@" + model }

  function Key(q: Request): string {
    match q.mode
    case Replay => q.baseline
    case Live(model) => LiveKey(q.baseline, model)
  }

  function Get(store: Store, key: string, taskId: string): Option<Decision> {
    if key in store && taskId in store[key] then Some(store[key][taskId]) else None
  }

  /** The entry as stored: the source tag first, then the decision's own fields over it. */
  function Tagged(d: Decision, source: string): Decision {
    d.(raw := map["source" := source] + d.raw)
  }

  function Put(store: Store, key: string, taskId: string, d: Decision, source: string): Store {
    store[key := (if key in store then store[key] else map[])[taskId := Tagged(d, source)]]
  }

  /** One decision: the new store, the answer (none when the model call failed) and whether the model was asked. */
  function Decide(store: Store, q: Request, reply: Option<Decision>): (Store, Answer) {
    match Get(store, Key(q), q.taskId)
    case Some(d) => (store, Answer(Some(d), false))
    case None =>
      match q.mode
      case Replay =>
        var after := Put(store, Key(q), q.taskId, q.seed, "replay_seed");
        (after, Answer(Get(after, Key(q), q.taskId), false))
      case Live(_) =>
        match reply
        case None => (store, Answer(None, true))
        case Some(d) =>
          var after := Put(store, Key(q), q.taskId, d, "live");
          (after, Answer(Get(after, Key(q), q.taskId), true))
  }

  /** The cache object that the source's functions share and mutate. */
  class Cache {
    var decisions: Store

    constructor ()
      ensures decisions == map[]
    {
      decisions := map[];
    }

    method Insert(key: string, taskId: string, d: Decision, source: string)
      modifies this
      ensures decisions == Put(old(decisions), key, taskId, d, source)
    {
      if key !in decisions {
        decisions := decisions[key := map[]];
      }
      decisions := decisions[key := decisions[key][taskId := Tagged(d, source)]];
    }

    method DecideSingleModel(q: Request, reply: Option<Decision>) returns (a: Answer)
      modifies this
      ensures (decisions, a) == Decide(old(decisions), q, reply)
    {
      var key := Key(q);
      var cached := Get(decisions, key, q.taskId);
      if cached.Some? {
        return Answer(cached, false);
      }
      if q.mode.Live? {
        if reply.None? {
          return Answer(None, true);
        }
        Insert(key, q.taskId, reply.value, "live");
        return Answer(Get(decisions, key, q.taskId), true);
      }
      Insert(key, q.taskId, q.seed, "replay_seed");
      return Answer(Get(decisions, key, q.taskId), false);
    }

    /** One run over the requests in order; the first failed call aborts it and what was paid for stays. */
    method Run(requests: seq<Request>, replies: seq<Option<Decision>>) returns (answers: seq<Answer>)
      requires |requests| == |replies|
      modifies this
      ensures (decisions, answers) == RunFrom(old(decisions), requests, replies, |requests|)
      ensures UpToFailure(answers, |requests|)
    {
      hide Decide, Put, Key, Get;
      answers := [];
      for i := 0 to |requests|
        invariant (decisions, answers) == RunFrom(old(decisions), requests, replies, i)
        invariant |answers| == i && forall k | 0 <= k < i :: answers[k].decision.Some?
      {
        var a := DecideSingleModel(requests[i], replies[i]);
        answers := answers + [a];
        if a.decision.None? {
          AbortStays(old(decisions), requests, replies, i + 1);
          return;
        }
      }
    }
  }

  // -------------------------------------------------------------------- runs

  /** The first n requests, stopping after the first failed call. */
  function RunFrom(store: Store, requests: seq<Request>, replies: seq<Option<Decision>>, n: nat)
    : (r: (Store, seq<Answer>))
    requires n <= |requests| == |replies|
    ensures |r.1| <= n
  {
    if n == 0 then (store, [])
    else
      var (before, answers) := RunFrom(store, requests, replies, n - 1);
      if Aborted(answers) then (before, answers)
      else
        var (after, a) := Decide(before, requests[n - 1], replies[n - 1]);
        (after, answers + [a])
  }

  predicate Aborted(answers: seq<Answer>) {
    |answers| > 0 && answers[|answers| - 1].decision.None?
  }

  /** Every request is answered with a decision, up to the first one without, which is the last one made. */
  ghost predicate UpToFailure(answers: seq<Answer>, n: nat) {
    && |answers| <= n
    && (forall k | 0 <= k < |answers| - 1 :: answers[k].decision.Some?)
    && (|answers| < n ==> |answers| > 0 && answers[|answers| - 1].decision.None?)
  }

  /** A run of n requests stops at the first failed call, and only there. */
  lemma {:induction false} RunStops(store: Store, requests: seq<Request>, replies: seq<Option<Decision>>, n: nat)
    requires n <= |requests| == |replies|
    ensures UpToFailure(RunFrom(store, requests, replies, n).1, n)
  {
    hide Decide;
    if n > 0 {
      RunStops(store, requests, replies, n - 1);
    }
  }

  lemma {:induction false} AbortStays(store: Store, requests: seq<Request>, replies: seq<Option<Decision>>, n: nat)
    requires n <= |requests| == |replies| && Aborted(RunFrom(store, requests, replies, n).1)
    ensures RunFrom(store, requests, replies, |requests|) == RunFrom(store, requests, replies, n)
    decreases |requests| - n
  {
    hide Decide;
    if n < |requests| {
      AbortStays(store, requests, replies, n + 1);
    }
  }

  /** One step of any interleaving of runs, over the shared store. */
  datatype Event = Event(q: Request, reply: Option<Decision>)

  function StoreAfter(store: Store, events: seq<Event>, n: nat): Store
    requires n <= |events|
  {
    if n == 0 then store else Decide(StoreAfter(store, events, n - 1), events[n - 1].q, events[n - 1].reply).0
  }

  function AnswerAt(store: Store, events: seq<Event>, i: nat): Answer
    requires i < |events|
  {
    Decide(StoreAfter(store, events, i), events[i].q, events[i].reply).1
  }

  /** Entries are never changed or dropped. */
  ghost predicate Keeps(before: Store, after: Store) {
    forall key, id :: Get(before, key, id).Some? ==> Get(after, key, id) == Get(before, key, id)
  }

  lemma DecideKeeps(store: Store, q: Request, reply: Option<Decision>)
    ensures Keeps(store, Decide(store, q, reply).0)
    ensures var a := Decide(store, q, reply).1;
            a.decision.Some? ==> Get(Decide(store, q, reply).0, Key(q), q.taskId) == a.decision
  {}

  lemma {:induction false} EventsKeep(store: Store, events: seq<Event>, i: nat, j: nat)
    requires i <= j <= |events|
    ensures Keeps(StoreAfter(store, events, i), StoreAfter(store, events, j))
    decreases j
  {
    hide Get, Decide;
    if i < j {
      EventsKeep(store, events, i, j - 1);
      DecideKeeps(StoreAfter(store, events, j - 1), events[j - 1].q, events[j - 1].reply);
    }
  }

  /**
   Once a request has been answered, every later request with its key and task
   gets the identical decision, and no model is asked.
   */
  lemma RepeatsAreFree(store: Store, events: seq<Event>, i: nat, j: nat)
    requires i < j < |events| && AnswerAt(store, events, i).decision.Some?
    requires Key(events[i].q) == Key(events[j].q) && events[i].q.taskId == events[j].q.taskId
    ensures AnswerAt(store, events, j) == Answer(AnswerAt(store, events, i).decision, false)
  {
    var q := events[i].q;
    DecideKeeps(StoreAfter(store, events, i), q, events[i].reply);
    EventsKeep(store, events, i + 1, j);
    assert Get(StoreAfter(store, events, j), Key(q), q.taskId) == AnswerAt(store, events, i).decision;
    hide StoreAfter, Get, Key, Keeps;
    ServedFromCache(StoreAfter(store, events, j), events[j].q, events[j].reply);
  }

  lemma ServedFromCache(store: Store, q: Request, reply: Option<Decision>)
    requires Get(store, Key(q), q.taskId).Some?
    ensures Decide(store, q, reply) == (store, Answer(Get(store, Key(q), q.taskId), false))
  {}

  function Completed(store: Store, events: seq<Event>, key: string, id: string, n: nat): nat
    requires n <= |events|
  {
    if n == 0 then 0
    else
      var a, q := AnswerAt(store, events, n - 1), events[n - 1].q;
      Completed(store, events, key, id, n - 1)
      + if Key(q) == key && q.taskId == id && a.called && a.decision.Some? then 1 else 0
  }

  /** Whatever the order of runs, a model is successfully asked at most once per key and task. */
  lemma {:induction false} AtMostOneCall(store: Store, events: seq<Event>, key: string, id: string, n: nat)
    requires n <= |events|
    ensures Completed(store, events, key, id, n) <= 1
    ensures Completed(store, events, key, id, n) > 0 ==> Get(StoreAfter(store, events, n), key, id).Some?
  {
    if n > 0 {
      AtMostOneCall(store, events, key, id, n - 1);
      DecideKeeps(StoreAfter(store, events, n - 1), events[n - 1].q, events[n - 1].reply);
    }
  }

  // -------------------------------------------------------------- provenance

  predicate NoAt(s: string) { forall i | 0 <= i < |s| :: s[i] != '@' }

  lemma BaselinesHaveNoAt()
    ensures forall b | b in BASELINES :: NoAt(b)
  {}

  /** The first '@' of a live key separates baseline from model. */
  lemma {:induction false} LiveKeyUnique(b: string, m: string, b': string, m': string)
    requires NoAt(b) && NoAt(b') && LiveKey(b, m) == LiveKey(b', m')
    ensures b == b' && m == m'
  {
    var k := LiveKey(b, m);
    LiveKeyHead(b, m);
    LiveKeyHead(b', m');
    if |b| == 0 {
      assert k[1..] == m == m';
    } else {
      assert k[0] == b[0] == b'[0];
      assert k[1..] == LiveKey(b[1..], m) == LiveKey(b'[1..], m');
      LiveKeyUnique(b[1..], m, b'[1..], m');
      assert b == [b[0]] + b[1..] && b' == [b'[0]] + b'[1..];
    }
  }

  /** Replay answers are kept under the baseline, live ones under the baseline, an '@' and the model. */
  lemma KeyExact(q: Request)
    ensures q.mode.Replay? ==> Key(q) == q.baseline
    ensures q.mode.Live? ==> var k, n := Key(q), |q.baseline|;
                             && |k| == n + 1 + |q.mode.model| && k[..n] == q.baseline
                             && k[n] == '@' && k[n + 1..] == q.mode.model
  {}

  lemma LiveKeyHead(b: string, m: string)
    requires NoAt(b)
    ensures |LiveKey(b, m)| > 0 && (LiveKey(b, m)[0] == '@' <==> |b| == 0)
  {}

  lemma LiveKeyHasAt(b: string, m: string)
    ensures !NoAt(LiveKey(b, m))
  {
    assert LiveKey(b, m)[|b|] == '@';
  }

  /** The shape of every decision a provider client returns: it names its model and leaves "source" alone. */
  predicate FromProvider(d: Decision, model: string) {
    "source" !in d.raw && "model" in d.raw && d.raw["model"] == model
  }

  /** A request as the benchmark issues them, with a reply as the clients give them. */
  predicate Proper(e: Event) {
    && e.q.baseline in BASELINES
    && e.q.seed.raw == map[]
    && (e.q.mode.Live? && e.reply.Some? ==> FromProvider(e.reply.value, e.q.mode.model))
  }

  predicate IsReplay(d: Decision) { "source" in d.raw && d.raw["source"] == "replay_seed" }
  predicate IsLive(d: Decision, model: string) {
    "source" in d.raw && d.raw["source"] == "live" && "model" in d.raw && d.raw["model"] == model
  }

  /** Requests share a key only when they agree on mode and baseline: the two kinds never serve each other. */
  lemma KeysSeparate(q: Request, q': Request)
    requires q.baseline in BASELINES && q'.baseline in BASELINES && Key(q) == Key(q')
    ensures q.baseline == q'.baseline && q.mode == q'.mode
  {
    hide LiveKey, NoAt;
    BaselinesHaveNoAt();
    match (q.mode, q'.mode)
    case (Live(m), Live(m')) => LiveKeyUnique(q.baseline, m, q'.baseline, m');
    case (Live(m), Replay) => LiveKeyHasAt(q.baseline, m);
    case (Replay, Live(m')) => LiveKeyHasAt(q'.baseline, m');
    case (Replay, Replay) =>
  }

  predicate Honest(d: Decision, mode: Mode) {
    match mode
    case Replay => IsReplay(d)
    case Live(model) => IsLive(d, model)
  }

  /** Replay keys hold only seeds, and a model's live keys only that model's answers. */
  ghost predicate CleanFor(store: Store) {
    forall q: Request | q.baseline in BASELINES && Get(store, Key(q), q.taskId).Some? ::
      Honest(Get(store, Key(q), q.taskId).value, q.mode)
  }

  lemma TaggedHonest(e: Event)
    requires Proper(e)
    ensures e.q.mode == Replay ==> Honest(Tagged(e.q.seed, "replay_seed"), e.q.mode)
    ensures e.q.mode.Live? && e.reply.Some? ==> Honest(Tagged(e.reply.value, "live"), e.q.mode)
  {}

  lemma DecideAdds(store: Store, e: Event, key: string, id: string)
    requires Get(Decide(store, e.q, e.reply).0, key, id).Some?
    ensures var entry := Get(Decide(store, e.q, e.reply).0, key, id);
            || entry == Get(store, key, id)
            || (key == Key(e.q) && id == e.q.taskId
                && (if e.q.mode.Replay? then entry.value == Tagged(e.q.seed, "replay_seed")
                    else e.reply.Some? && entry.value == Tagged(e.reply.value, "live")))
  {
    hide Key, Tagged;
  }

  lemma DecideClean(store: Store, e: Event)
    requires CleanFor(store) && Proper(e)
    ensures CleanFor(Decide(store, e.q, e.reply).0)
    ensures var a := Decide(store, e.q, e.reply).1; a.decision.Some? ==> Honest(a.decision.value, e.q.mode)
  {
    hide Key, Honest, Tagged, Decide, Get;
    var after := Decide(store, e.q, e.reply).0;
    TaggedHonest(e);
    forall q: Request | q.baseline in BASELINES && Get(after, Key(q), q.taskId).Some?
      ensures Honest(Get(after, Key(q), q.taskId).value, q.mode)
    {
      DecideAdds(store, e, Key(q), q.taskId);
      if Key(q) == Key(e.q) {
        KeysSeparate(q, e.q);
      }
    }
    DecideKeeps(store, e.q, e.reply);
  }

  lemma {:induction false} EventsClean(store: Store, events: seq<Event>, n: nat)
    requires CleanFor(store) && n <= |events| && forall e | e in events :: Proper(e)
    ensures CleanFor(StoreAfter(store, events, n))
  {
    hide CleanFor, Decide, Proper;
    if n > 0 {
      EventsClean(store, events, n - 1);
      DecideClean(StoreAfter(store, events, n - 1), events[n - 1]);
    }
  }

  /** From an empty cache, every replay answer is a seed and every live answer comes from the requested model. */
  lemma AnswersHonest(events: seq<Event>, i: nat)
    requires i < |events| && forall e | e in events :: Proper(e)
    requires AnswerAt(map[], events, i).decision.Some?
    ensures Honest(AnswerAt(map[], events, i).decision.value, events[i].q.mode)
  {
    hide Decide, Honest, Proper;
    EventsClean(map[], events, i);
    DecideClean(StoreAfter(map[], events, i), events[i]);
  }

  // ------------------------------------------- what every answer is made of

  predicate SameRequest(q: Request, q': Request) { Key(q) == Key(q') && q.taskId == q'.taskId }

  /** Event j is the first that was answered of those with its key and task. */
  ghost predicate FirstAnswered(events: seq<Event>, j: nat)
    requires j < |events|
  {
    && AnswerAt(map[], events, j).decision.Some?
    && forall k: nat | k < j && SameRequest(events[k].q, events[j].q) :: AnswerAt(map[], events, k).decision.None?
  }

  /** d is the original decision; its raw part may have gained the tag, and nothing else. */
  ghost predicate Carries(d: Decision, original: Decision, tag: string) {
    && d.action == original.action && d.confidence == original.confidence && d.reasons == original.reasons
    && d.raw.Keys == original.raw.Keys + {"source"}
    && (forall f | f in original.raw :: d.raw[f] == original.raw[f])
    && ("source" !in original.raw ==> d.raw["source"] == tag)
  }

  /** What an event is answered when nothing was stored for it: its seed, its reply, or nothing for a failed call. */
  ghost predicate FreshAnswer(a: Answer, e: Event) {
    match e.q.mode
    case Replay => !a.called && a.decision.Some? && Carries(a.decision.value, e.q.seed, "replay_seed")
    case Live(_) =>
      && a.called && (a.decision.Some? <==> e.reply.Some?)
      && (e.reply.Some? ==> Carries(a.decision.value, e.reply.value, "live"))
  }

  lemma TaggedCarries(d: Decision, tag: string)
    ensures Carries(Tagged(d, tag), d, tag)
  {}

  lemma DecideFresh(store: Store, e: Event)
    requires Get(store, Key(e.q), e.q.taskId).None?
    ensures FreshAnswer(Decide(store, e.q, e.reply).1, e)
  {
    TaggedCarries(e.q.seed, "replay_seed");
    if e.reply.Some? {
      TaggedCarries(e.reply.value, "live");
    }
    hide Carries, Tagged, Key;
  }

  /** Only an answered event changes what is stored, and only under its own key and task. */
  lemma DecideStores(store: Store, e: Event, key: string, id: string)
    ensures var (after, a) := Decide(store, e.q, e.reply);
            Get(after, key, id) == if key == Key(e.q) && id == e.q.taskId then a.decision else Get(store, key, id)
  {
    hide Tagged, Key;
  }

  lemma StoredStep(events: seq<Event>, i: nat, key: string, id: string)
    requires i < |events|
    ensures var was, now := Get(StoreAfter(map[], events, i), key, id), Get(StoreAfter(map[], events, i + 1), key, id);
            && (was.Some? ==> now == was)
            && (was.None? ==> now == if Asks(events[i], key, id) then AnswerAt(map[], events, i).decision else None)
  {
    var before := StoreAfter(map[], events, i);
    DecideStores(before, events[i], key, id);
    if Asks(events[i], key, id) && Get(before, key, id).Some? {
      ServedFromCache(before, events[i].q, events[i].reply);
    }
    hide Decide, Get, Key;
  }

  predicate Asks(e: Event, key: string, id: string) { Key(e.q) == key && e.q.taskId == id }

  ghost predicate Unanswered(events: seq<Event>, n: nat, key: string, id: string)
    requires n <= |events|
  {
    forall k: nat | k < n && Asks(events[k], key, id) :: AnswerAt(map[], events, k).decision.None?
  }

  lemma FirstNow(events: seq<Event>, i: nat, key: string, id: string)
    requires i < |events| && Asks(events[i], key, id) && Unanswered(events, i, key, id)
    requires AnswerAt(map[], events, i).decision.Some?
    ensures FirstAnswered(events, i)
  {
    hide Key, AnswerAt;
  }

  /** The entry is the decision of the first of the n events that was answered for the key and task. */
  ghost predicate FromFirst(events: seq<Event>, n: nat, key: string, id: string, entry: Option<Decision>)
    requires n <= |events|
  {
    exists j: nat :: j < n && Asks(events[j], key, id)
                     && FirstAnswered(events, j) && AnswerAt(map[], events, j).decision == entry
  }

  lemma UnansweredStep(events: seq<Event>, n: nat, key: string, id: string)
    requires n < |events| && Unanswered(events, n, key, id)
    requires Asks(events[n], key, id) ==> AnswerAt(map[], events, n).decision.None?
    ensures Unanswered(events, n + 1, key, id)
  {
    hide Asks, AnswerAt;
  }

  lemma FromFirstStep(events: seq<Event>, n: nat, key: string, id: string, entry: Option<Decision>)
    requires n < |events|
    requires FromFirst(events, n, key, id, entry)
             || (Asks(events[n], key, id) && FirstAnswered(events, n) && AnswerAt(map[], events, n).decision == entry)
    ensures FromFirst(events, n + 1, key, id, entry)
  {
    hide Asks, AnswerAt, FirstAnswered;
  }

  /** What is stored after n events is what the first answered one of that key and task was answered. */
  lemma {:induction false} StoredFirst(events: seq<Event>, n: nat, key: string, id: string)
    requires n <= |events|
    ensures var entry := Get(StoreAfter(map[], events, n), key, id);
            if entry.None? then Unanswered(events, n, key, id) else FromFirst(events, n, key, id, entry)
  {
    if n == 0 {
    } else {
      var i := n - 1;
      StoredFirst(events, i, key, id);
      StoredStep(events, i, key, id);
      hide Decide, Get, Asks, StoreAfter, AnswerAt, FirstAnswered, Unanswered, FromFirst;
      if Get(StoreAfter(map[], events, i), key, id).Some? {
        FromFirstStep(events, i, key, id, Get(StoreAfter(map[], events, i), key, id));
      } else if Asks(events[i], key, id) && AnswerAt(map[], events, i).decision.Some? {
        FirstNow(events, i, key, id);
        FromFirstStep(events, i, key, id, AnswerAt(map[], events, i).decision);
      } else {
        UnansweredStep(events, i, key, id);
      }
    }
  }

  /**
   Every answer, from an empty cache: that of the first answered event with the
   same key and task, without a call, if there is one before it; else a fresh one.
   */
  lemma AnswerExact(events: seq<Event>, i: nat)
    requires i < |events|
    ensures (exists j: nat :: j < i && SameRequest(events[j].q, events[i].q) && FirstAnswered(events, j)
                              && AnswerAt(map[], events, i) == Answer(AnswerAt(map[], events, j).decision, false))
            || (FreshAnswer(AnswerAt(map[], events, i), events[i])
                && forall k: nat | k < i && SameRequest(events[k].q, events[i].q) ::
                     AnswerAt(map[], events, k).decision.None?)
  {
    var q, store := events[i].q, StoreAfter(map[], events, i);
    StoredFirst(events, i, Key(q), q.taskId);
    if Get(store, Key(q), q.taskId).Some? {
      ServedFromCache(store, q, events[i].reply);
    } else {
      DecideFresh(store, events[i]);
    }
    hide Decide, Get, Key, FreshAnswer;
  }

  /** Every decision carries the reply or the seed of the first answered event with its key and task. */
  lemma AnswerCarries(events: seq<Event>, i: nat)
    requires i < |events| && AnswerAt(map[], events, i).decision.Some?
    ensures exists j: nat :: j <= i && SameRequest(events[j].q, events[i].q) && FirstAnswered(events, j)
                             && FreshAnswer(AnswerAt(map[], events, j), events[j])
                             && AnswerAt(map[], events, i).decision == AnswerAt(map[], events, j).decision
  {
    hide AnswerAt, FreshAnswer, Key;
    AnswerExact(events, i);
    if j: nat :| j < i && SameRequest(events[j].q, events[i].q) && FirstAnswered(events, j)
                 && AnswerAt(map[], events, i) == Answer(AnswerAt(map[], events, j).decision, false)
    {
      AnswerExact(events, j);
    } else {
      assert FirstAnswered(events, i);
    }
  }

  // --------------------------------------------------- the decision sources

  function RawOr(d: Decision, field: string, default: string): string {
    if field in d.raw then d.raw[field] else default
  }

  function SourceLabel(d: Decision): string {
    if "source" in d.raw && d.raw["source"] == "replay_seed" then "replay_seed"
    else "live:" + RawOr(d, "model", "unknown")
  }

  /** The one label of a list of decisions, or "mixed". */
  function SourceOf(decisions: seq<Decision>): string {
    var labels := set d | d in decisions :: SourceLabel(d);
    if |labels| == 1 && |decisions| > 0 then SourceLabel(decisions[0]) else "mixed"
  }

  /** How many decisions carry each label. */
  function LabelCounts(decisions: seq<Decision>): map<string, nat> {
    if |decisions| == 0 then map[]
    else
      var before, label_ := LabelCounts(decisions[..|decisions| - 1]), SourceLabel(decisions[|decisions| - 1]);
      before[label_ := (if label_ in before then before[label_] else 0) + 1]
  }

  function ModeLabel(mode: Mode): string {
    match mode
    case Replay => "replay_seed"
    case Live(model) => "live:" + model
  }

  /** The decisions of one baseline in a run. */
  function Singles(requests: seq<Request>, answers: seq<Answer>, baseline: string, n: nat): seq<Decision>
    requires n <= |requests| && n <= |answers|
  {
    if n == 0 then []
    else
      Singles(requests, answers, baseline, n - 1)
      + if requests[n - 1].baseline == baseline && answers[n - 1].decision.Some?
        then [answers[n - 1].decision.value] else []
  }

  function Zipped(requests: seq<Request>, replies: seq<Option<Decision>>): seq<Event>
    requires |requests| == |replies|
  {
    seq(|requests|, i requires 0 <= i < |requests| => Event(requests[i], replies[i]))
  }

  /** A run, aborted or not, is the sequence of the events it answered. */
  lemma {:induction false} RunIsEvents(store: Store, requests: seq<Request>, replies: seq<Option<Decision>>, n: nat)
    requires n <= |requests| == |replies|
    ensures var (after, answers) := RunFrom(store, requests, replies, n);
            && |answers| <= n && (!Aborted(answers) ==> |answers| == n)
            && after == StoreAfter(store, Zipped(requests, replies), |answers|)
            && (forall i | 0 <= i < |answers| :: answers[i] == AnswerAt(store, Zipped(requests, replies), i))
            && (forall i | 0 <= i < |answers| && (i < |answers| - 1 || !Aborted(answers)) :: answers[i].decision.Some?)
  {
    hide Decide;
    if n > 0 {
      RunIsEvents(store, requests, replies, n - 1);
    }
  }

  lemma {:induction false} SinglesLabelled(requests: seq<Request>, answers: seq<Answer>,
                                           baseline: string, mode: Mode, n: nat)
    requires n <= |requests| && n <= |answers|
    requires forall i | 0 <= i < n && requests[i].baseline == baseline ::
               answers[i].decision.Some? && Honest(answers[i].decision.value, mode)
    ensures forall d | d in Singles(requests, answers, baseline, n) :: SourceLabel(d) == ModeLabel(mode)
    ensures (exists i | 0 <= i < n :: requests[i].baseline == baseline)
            ==> Singles(requests, answers, baseline, n) != []
  {
    if n > 0 {
      SinglesLabelled(requests, answers, baseline, mode, n - 1);
      if answers[n - 1].decision.Some? && requests[n - 1].baseline == baseline {
        HonestLabel(answers[n - 1].decision.value, mode);
      }
    }
  }

  lemma HonestLabel(d: Decision, mode: Mode)
    requires Honest(d, mode)
    ensures SourceLabel(d) == ModeLabel(mode)
  {
    if mode.Live? {
      assert "live" != "replay_seed" by { assert "live"[0] != "replay_seed"[0]; }
    }
  }

  lemma OneLabel(decisions: seq<Decision>, label_: string)
    requires decisions != [] && forall d | d in decisions :: SourceLabel(d) == label_
    ensures SourceOf(decisions) == label_
  {
    hide SourceLabel;
    assert decisions[0] in decisions;
    assert (set d | d in decisions :: SourceLabel(d)) == {label_};
  }

  /** The label is reported exactly when every decision carries it; "mixed" is reported otherwise, and for none. */
  lemma SourceOfExact(decisions: seq<Decision>, label_: string)
    requires label_ != "mixed"
    ensures SourceOf(decisions) == label_ <==> decisions != [] && forall d | d in decisions :: SourceLabel(d) == label_
    ensures decisions == [] ==> SourceOf(decisions) == "mixed"
  {
    hide SourceLabel;
    if decisions != [] && forall d | d in decisions :: SourceLabel(d) == label_ {
      OneLabel(decisions, label_);
    }
    if SourceOf(decisions) == label_ {
      var labels := set d | d in decisions :: SourceLabel(d);
      forall d | d in decisions ensures SourceLabel(d) == label_ {
        assert decisions[0] in decisions;
        Single(labels, SourceLabel(d), SourceLabel(decisions[0]));
      }
    }
  }

  lemma Single(labels: set<string>, a: string, b: string)
    requires |labels| == 1 && a in labels && b in labels
    ensures a == b
  {
    assert |labels - {a}| == 0;
    assert labels - {a} == {};
  }

  /** The label of a decision: its own source tag decides, then its model, then "unknown". */
  lemma SourceLabelExact(d: Decision)
    ensures SourceLabel(d) == "replay_seed" <==> "source" in d.raw && d.raw["source"] == "replay_seed"
    ensures SourceLabel(d) != "replay_seed" ==>
              SourceLabel(d) == "live:" + if "model" in d.raw then d.raw["model"] else "unknown"
  {
    assert "live:"[0] != "replay_seed"[0];
  }

  function Labelled(label_: string): Decision -> bool { (d: Decision) => SourceLabel(d) == label_ }

  /** Each label is counted as often as it occurs. */
  lemma {:induction false} LabelCountsExact(decisions: seq<Decision>, label_: string)
    ensures label_ in LabelCounts(decisions) <==> CountOf(decisions, Labelled(label_)) > 0
    ensures label_ in LabelCounts(decisions) ==> LabelCounts(decisions)[label_] == CountOf(decisions, Labelled(label_))
  {
    hide SourceLabel;
    if |decisions| > 0 {
      LabelCountsExact(decisions[..|decisions| - 1], label_);
    }
  }

  lemma {:induction false} OneCount(decisions: seq<Decision>, label_: string)
    requires decisions != [] && forall d | d in decisions :: SourceLabel(d) == label_
    ensures LabelCounts(decisions) == map[label_ := |decisions|]
  {
    hide SourceLabel;
    var m := |decisions| - 1;
    assert decisions[m] in decisions;
    if m > 0 {
      OneCount(decisions[..m], label_);
    } else {
      assert decisions[..0] == [];
    }
  }

  /**
   A completed run that asks every baseline in one mode each reports that mode
   for it, never "mixed", as soon as the baseline was asked at all.
   */
  lemma SourcesNeverMixed(store: Store, requests: seq<Request>, replies: seq<Option<Decision>>,
                          baseline: string, mode: Mode)
    requires CleanFor(store) && |requests| == |replies|
    requires forall e | e in Zipped(requests, replies) :: Proper(e)
    requires forall q | q in requests && q.baseline == baseline :: q.mode == mode
    requires exists q :: q in requests && q.baseline == baseline
    requires !Aborted(RunFrom(store, requests, replies, |requests|).1)
    ensures var answers := RunFrom(store, requests, replies, |requests|).1;
            |answers| == |requests|
            && var asked := Singles(requests, answers, baseline, |requests|);
               SourceOf(asked) == ModeLabel(mode) != "mixed" && LabelCounts(asked) == map[ModeLabel(mode) := |asked|]
  {
    hide Decide, Honest, Proper, CleanFor, Singles, SourceLabel, SourceOf;
    var n, events := |requests|, Zipped(requests, replies);
    var answers := RunFrom(store, requests, replies, n).1;
    RunIsEvents(store, requests, replies, n);
    forall i | 0 <= i < n && requests[i].baseline == baseline
      ensures answers[i].decision.Some? && Honest(answers[i].decision.value, mode)
    {
      EventsClean(store, events, i);
      assert events[i] in events && requests[i] in requests;
      DecideClean(StoreAfter(store, events, i), events[i]);
    }
    SinglesLabelled(requests, answers, baseline, mode, n);
    var q :| q in requests && q.baseline == baseline;
    var k :| 0 <= k < n && requests[k] == q;
    OneLabel(Singles(requests, answers, baseline, n), ModeLabel(mode));
    OneCount(Singles(requests, answers, baseline, n), ModeLabel(mode));
    assert ModeLabel(mode)[0] != "mixed"[0];
  }

  // ------------------------------------------------------- the decision table

  function TaskRequests(t: string, mode: nat -> Mode, seed: (string, nat) -> Decision): seq<Request> {
    [Request(mode(0), ORDERED[0], t, seed(t, 0)),
     Request(mode(1), ORDERED[1], t, seed(t, 1)),
     Request(mode(2), ORDERED[2], t, seed(t, 2))]
  }

  /** What the table builder asks, task by task: each baseline in its own mode and with its own seed. */
  function TableRequests(tasks: seq<string>, mode: nat -> Mode, seed: (string, nat) -> Decision): seq<Request> {
    if |tasks| == 0 then []
    else TableRequests(tasks[..|tasks| - 1], mode, seed) + TaskRequests(tasks[|tasks| - 1], mode, seed)
  }

  /** The requests in order: for each task the three baselines, each in its own mode and with its own seed. */
  lemma {:induction false} TableRequestAt(tasks: seq<string>, mode: nat -> Mode, seed: (string, nat) -> Decision,
                                          i: nat, v: nat)
    requires i < |tasks| && v < 3
    ensures |TableRequests(tasks, mode, seed)| == 3 * |tasks|
    ensures TableRequests(tasks, mode, seed)[3 * i + v] == Request(mode(v), ORDERED[v], tasks[i], seed(tasks[i], v))
  {
    var m := |tasks| - 1;
    var front, last := TableRequests(tasks[..m], mode, seed), TaskRequests(tasks[m], mode, seed);
    assert last[v] == Request(mode(v), ORDERED[v], tasks[m], seed(tasks[m], v));
    if m > 0 {
      TableRequestAt(tasks[..m], mode, seed, if i < m then i else 0, v);
    } else {
      assert tasks[..0] == [];
    }
    hide TaskRequests;
  }

  ghost predicate FromTable(q: Request, mode: nat -> Mode, seed: (string, nat) -> Decision) {
    exists v: nat :: v < 3 && q.baseline == ORDERED[v] && q.mode == mode(v) && q.seed == seed(q.taskId, v)
  }

  lemma TaskShape(t: string, mode: nat -> Mode, seed: (string, nat) -> Decision)
    ensures forall q | q in TaskRequests(t, mode, seed) :: FromTable(q, mode, seed)
    ensures forall v: nat | v < 3 :: TaskRequests(t, mode, seed)[v].baseline == ORDERED[v]
  {
    var qs := TaskRequests(t, mode, seed);
    forall q | q in qs ensures FromTable(q, mode, seed) {
      var v: nat :| v < |qs| && qs[v] == q;
      assert v == 0 || v == 1 || v == 2;
    }
  }

  lemma {:induction false} TableShape(tasks: seq<string>, mode: nat -> Mode, seed: (string, nat) -> Decision)
    ensures forall q | q in TableRequests(tasks, mode, seed) :: FromTable(q, mode, seed)
  {
    hide FromTable, TaskRequests;
    if |tasks| > 0 {
      TableShape(tasks[..|tasks| - 1], mode, seed);
      TaskShape(tasks[|tasks| - 1], mode, seed);
    }
  }

  lemma EveryBaselineAsked(tasks: seq<string>, mode: nat -> Mode, seed: (string, nat) -> Decision, v: nat)
    requires |tasks| > 0 && v < 3
    ensures exists q :: q in TableRequests(tasks, mode, seed) && q.baseline == ORDERED[v]
  {
    hide FromTable;
    TaskShape(tasks[|tasks| - 1], mode, seed);
    var last := TaskRequests(tasks[|tasks| - 1], mode, seed);
    assert last[v] in last;
    assert last[v] in TableRequests(tasks, mode, seed);
  }

  lemma BaselinesDiffer(v: nat, w: nat)
    requires v < 3 && w < 3 && ORDERED[v] == ORDERED[w]
    ensures v == w
  {
    assert "single_model_gpt"[14] != "single_model_gemini"[14];
    assert "single_model_gpt"[13] != "single_model_claude"[13];
    assert "single_model_gemini"[13] != "single_model_claude"[13];
  }

  /** Seeds have no raw part, and a live reply names the model it was asked of. */
  ghost predicate TableInputs(tasks: seq<string>, mode: nat -> Mode, seed: (string, nat) -> Decision,
                              replies: seq<Option<Decision>>)
  {
    && (forall t, w :: seed(t, w).raw == map[])
    && var qs := TableRequests(tasks, mode, seed);
       && |replies| == |qs|
       && forall i | 0 <= i < |qs| && qs[i].mode.Live? && replies[i].Some? ::
            FromProvider(replies[i].value, qs[i].mode.model)
  }

  /** A completed table over at least one task reports one source for each of the three baselines. */
  lemma TableSources(store: Store, tasks: seq<string>, mode: nat -> Mode, seed: (string, nat) -> Decision,
                     replies: seq<Option<Decision>>, v: nat)
    requires CleanFor(store) && |tasks| > 0 && v < 3
    requires TableInputs(tasks, mode, seed, replies)
    requires var qs := TableRequests(tasks, mode, seed); !Aborted(RunFrom(store, qs, replies, |qs|).1)
    ensures var qs := TableRequests(tasks, mode, seed);
            var answers := RunFrom(store, qs, replies, |qs|).1;
            |answers| == |qs| && SourceOf(Singles(qs, answers, ORDERED[v], |qs|)) == ModeLabel(mode(v)) != "mixed"
  {
    hide Decide, Honest, CleanFor, Singles, SourceLabel, SourceOf, TableRequests, ModeLabel;
    var qs := TableRequests(tasks, mode, seed);
    TableShape(tasks, mode, seed);
    EveryBaselineAsked(tasks, mode, seed, v);
    forall e | e in Zipped(qs, replies) ensures Proper(e) {
      var i :| 0 <= i < |qs| && Zipped(qs, replies)[i] == e;
      assert qs[i] in qs && FromTable(qs[i], mode, seed);
      KnownBaseline(qs[i], mode, seed);
    }
    forall q | q in qs && q.baseline == ORDERED[v] ensures q.mode == mode(v) {
      assert FromTable(q, mode, seed);
      var w: nat :| w < 3 && q.baseline == ORDERED[w] && q.mode == mode(w) && q.seed == seed(q.taskId, w);
      BaselinesDiffer(v, w);
    }
    SourcesNeverMixed(store, qs, replies, ORDERED[v], mode(v));
  }

  lemma KnownBaseline(q: Request, mode: nat -> Mode, seed: (string, nat) -> Decision)
    requires FromTable(q, mode, seed)
    ensures q.baseline in BASELINES
  {
    var v: nat :| v < 3 && q.baseline == ORDERED[v] && q.mode == mode(v) && q.seed == seed(q.taskId, v);
    assert v == 0 || v == 1 || v == 2;
  }
}
