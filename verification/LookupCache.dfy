/**
 * The single-flight cache of name lookups (ssrf/lookupcache.go), as a state machine over every
 * interleaving of callers and background runs, and as the class whose critical sections are its steps.
 */
module LookupCache {
  import opened Options

  type Host = string
  type CallerId = nat

  /** Times and durations in nanoseconds. */
  const SECOND := 1_000_000_000
  const LOOKUP_CACHE_TTL := 30 * SECOND
  const LOOKUP_ERROR_TTL := 5 * SECOND
  const LOOKUP_CACHE_MAX := 1024

  /** What a resolver answers: addresses, "no such host", or any other failure. */
  datatype Answer = Addrs(addrs: seq<string>) | NotFound | Failed(reason: string)

  datatype Result = Result(answer: Answer, expires: nat)

  function Ttl(answer: Answer): nat {
    if answer.Failed? then LOOKUP_ERROR_TTL else LOOKUP_CACHE_TTL
  }

  // The state machine.

  /** How far the run behind a call has come. */
  datatype Phase = Looking | Resolved | Published | Closed

  /** A call with its run; completed is when its lookup did. */
  datatype Call = Call(host: Host, phase: Phase, res: Option<Result>, completed: nat)

  /** from is the call whose lookup produced the answer. */
  datatype Caller =
    | Waiting(host: Host, call: nat)
    | Got(host: Host, answer: Answer, at: nat, hit: bool, from: nat)
    | GaveUp(host: Host)

  /** origin records which call each entry came from. */
  datatype State = State(
    now: nat, entries: map<Host, Result>, origin: map<Host, nat>, inflight: map<Host, nat>,
    calls: seq<Call>, callers: map<CallerId, Caller>)

  const INITIAL := State(0, map[], map[], map[], [], map[])

  datatype Step =
    | Tick(passed: nat)
    | Enter(caller: CallerId, host: Host)
    | Receive(caller: CallerId)
    | GiveUp(caller: CallerId)
    | Resolve(call: nat, answer: Answer)
    | Publish(call: nat)
    | Close(call: nat)

  predicate Enabled(s: State, step: Step) {
    match step
    case Tick(_) => true
    case Enter(caller, _) => caller !in s.callers
    case Receive(caller) =>
      caller in s.callers && s.callers[caller].Waiting? && s.callers[caller].call < |s.calls|
      && s.calls[s.callers[caller].call].phase == Closed && s.calls[s.callers[caller].call].res.Some?
    case GiveUp(caller) => caller in s.callers && s.callers[caller].Waiting?
    case Resolve(c, _) => c < |s.calls| && s.calls[c].phase == Looking
    case Publish(c) => c < |s.calls| && s.calls[c].phase == Resolved && s.calls[c].res.Some?
    case Close(c) => c < |s.calls| && s.calls[c].phase == Published
  }

  predicate Fresh(s: State, host: Host) {
    host in s.entries && s.now < s.entries[host].expires
  }

  /** The critical section of lookup. */
  function EnterStep(s: State, caller: CallerId, host: Host): State {
    if Fresh(s, host) then
      var from := if host in s.origin then s.origin[host] else 0;
      s.(callers := s.callers[caller := Got(host, s.entries[host].answer, s.now, true, from)])
    else if host in s.inflight then s.(callers := s.callers[caller := Waiting(host, s.inflight[host])])
    else
      var c := |s.calls|;
      s.(inflight := s.inflight[host := c],
         calls := s.calls + [Call(host, Looking, None, 0)],
         callers := s.callers[caller := Waiting(host, c)])
  }

  /** The critical section of run: the cache is cleared when full. */
  function PublishStep(s: State, c: nat): State
    requires Enabled(s, Publish(c))
  {
    var call := s.calls[c];
    var kept := if |s.entries| >= LOOKUP_CACHE_MAX then s.(entries := map[], origin := map[]) else s;
    kept.(entries := kept.entries[call.host := call.res.value],
          origin := kept.origin[call.host := c],
          inflight := s.inflight - {call.host},
          calls := s.calls[c := call.(phase := Published)])
  }

  function Apply(s: State, step: Step): State
    requires Enabled(s, step)
  {
    match step
    case Tick(passed) => s.(now := s.now + passed)
    case Enter(caller, host) => EnterStep(s, caller, host)
    case Receive(caller) =>
      var w := s.callers[caller];
      s.(callers := s.callers[caller := Got(w.host, s.calls[w.call].res.value.answer, s.now, false, w.call)])
    case GiveUp(caller) => s.(callers := s.callers[caller := GaveUp(s.callers[caller].host)])
    case Resolve(c, answer) =>
      s.(calls := s.calls[c := s.calls[c].(phase := Resolved, res := Some(Result(answer, s.now + Ttl(answer))),
        completed := s.now)])
    case Publish(c) => PublishStep(s, c)
    case Close(c) => s.(calls := s.calls[c := s.calls[c].(phase := Closed)])
  }

  /** Every step of the list is enabled when its turn comes. */
  predicate Executes(s: State, steps: seq<Step>)
    decreases steps
  {
    steps == [] || (Enabled(s, steps[0]) && Executes(Apply(s, steps[0]), steps[1..]))
  }

  function After(s: State, steps: seq<Step>): State
    requires Executes(s, steps)
    decreases steps
  {
    if steps == [] then s else After(Apply(s, steps[0]), steps[1..])
  }

  // The invariant.

  predicate Unpublished(call: Call) {
    call.phase == Looking || call.phase == Resolved
  }

  predicate Flies(s: State, h: Host) {
    && h in s.inflight && s.inflight[h] < |s.calls|
    && s.calls[s.inflight[h]].host == h && Unpublished(s.calls[s.inflight[h]])
  }

  predicate Tracked(s: State, c: nat)
    requires c < |s.calls|
  {
    Unpublished(s.calls[c]) ==> s.calls[c].host in s.inflight && s.inflight[s.calls[c].host] == c
  }

  /** inflight holds, for each host, exactly the run that has started and not yet published. */
  ghost predicate SingleFlight(s: State) {
    && (forall h :: h in s.inflight ==> Flies(s, h))
    && (forall c :: 0 <= c < |s.calls| ==> Tracked(s, c))
  }

  /** A call has its result once its lookup returned, and the result says when that was. */
  ghost predicate CallsSound(s: State) {
    forall c :: 0 <= c < |s.calls| ==> CallSound(s.calls[c], s.now)
  }

  predicate CallSound(call: Call, now: nat) {
    && (call.res.Some? <==> call.phase != Looking)
    && (call.res.Some? ==>
        call.completed <= now && call.res.value.expires == call.completed + Ttl(call.res.value.answer))
  }

  /** The answer of a completed lookup of that host. */
  predicate From(s: State, host: Host, answer: Answer, c: nat) {
    c < |s.calls| && s.calls[c].host == host && s.calls[c].res.Some? && s.calls[c].res.value.answer == answer
  }

  ghost predicate EntriesSound(s: State) {
    EntriesOf(s.entries, s.origin, s.calls)
  }

  predicate CallerSound(s: State, caller: Caller) {
    match caller
    case Waiting(host, c) => c < |s.calls| && s.calls[c].host == host
    case Got(host, answer, at, hit, c) =>
      && From(s, host, answer, c) && s.calls[c].completed <= at <= s.now
      && (hit ==> at < s.calls[c].completed + Ttl(answer))
    case GaveUp(_) => true
  }

  ghost predicate CallersSound(s: State) {
    forall p :: p in s.callers ==> CallerSound(s, s.callers[p])
  }

  ghost predicate Inv(s: State) {
    SingleFlight(s) && CallsSound(s) && EntriesSound(s) && CallersSound(s)
  }

  /** Calls only grow in number and in what is known of them. */
  ghost predicate Extends(s: State, t: State) {
    && s.now <= t.now && |s.calls| <= |t.calls|
    && forall c :: 0 <= c < |s.calls| ==>
         && t.calls[c].host == s.calls[c].host
         && (s.calls[c].res.Some? ==> t.calls[c].res == s.calls[c].res && t.calls[c].completed == s.calls[c].completed)
  }

  /** A result is written once: no step changes one that is there. */
  lemma StepExtends(s: State, step: Step)
    requires Enabled(s, step) && CallsSound(s)
    ensures Extends(s, Apply(s, step))
  {
    match step
    case Resolve(c, answer) => OneCallExtends(s, Apply(s, step), c);
    case Publish(c) => OneCallExtends(s, Apply(s, step), c);
    case Close(c) => OneCallExtends(s, Apply(s, step), c);
    case _ =>
  }

  lemma OneCallExtends(s: State, t: State, c: nat)
    requires CallsSound(s) && c < |s.calls| == |t.calls| && s.now == t.now && t.calls == s.calls[c := t.calls[c]]
    requires t.calls[c].host == s.calls[c].host
    requires s.calls[c].res.Some? ==> t.calls[c].res == s.calls[c].res && t.calls[c].completed == s.calls[c].completed
    ensures Extends(s, t)
  {}

  lemma PublishSingleFlight(s: State, c: nat)
    requires Enabled(s, Publish(c)) && SingleFlight(s)
    ensures SingleFlight(PublishStep(s, c))
  {
    var t := PublishStep(s, c);
    assert Tracked(s, c);
    forall h | h in t.inflight ensures Flies(t, h) {
      assert Flies(s, h);
    }
    forall d | 0 <= d < |t.calls| ensures Tracked(t, d) {
      assert Tracked(s, d);
    }
  }

  lemma EnterSingleFlight(s: State, caller: CallerId, host: Host)
    requires SingleFlight(s)
    ensures SingleFlight(EnterStep(s, caller, host))
  {
    var t := EnterStep(s, caller, host);
    forall h | h in t.inflight ensures Flies(t, h) {
      assert h in s.inflight ==> Flies(s, h);
    }
    forall d | 0 <= d < |t.calls| ensures Tracked(t, d) {
      assert d < |s.calls| ==> Tracked(s, d);
    }
  }

  /** A run's other steps leave it as published, or unpublished, as it was. */
  lemma PhaseSingleFlight(s: State, c: nat, call: Call)
    requires SingleFlight(s) && c < |s.calls|
    requires call.host == s.calls[c].host && (Unpublished(call) <==> Unpublished(s.calls[c]))
    ensures SingleFlight(s.(calls := s.calls[c := call]))
  {
    var t := s.(calls := s.calls[c := call]);
    forall h | h in t.inflight ensures Flies(t, h) {
      assert Flies(s, h);
    }
    forall d | 0 <= d < |t.calls| ensures Tracked(t, d) {
      assert Tracked(s, d);
    }
  }

  /** So do steps that touch neither runs nor the table. */
  lemma OtherSingleFlight(s: State, t: State)
    requires SingleFlight(s) && t.calls == s.calls && t.inflight == s.inflight
    ensures SingleFlight(t)
  {
    forall h | h in t.inflight ensures Flies(t, h) {
      assert Flies(s, h);
    }
    forall d | 0 <= d < |t.calls| ensures Tracked(t, d) {
      assert Tracked(s, d);
    }
  }

  lemma StepSingleFlight(s: State, step: Step)
    requires Enabled(s, step) && SingleFlight(s)
    ensures SingleFlight(Apply(s, step))
  {
    match step
    case Enter(caller, host) => EnterSingleFlight(s, caller, host);
    case Publish(c) => PublishSingleFlight(s, c);
    case Resolve(c, answer) => PhaseSingleFlight(s, c, Apply(s, step).calls[c]);
    case Close(c) => PhaseSingleFlight(s, c, Apply(s, step).calls[c]);
    case Tick(_) => OtherSingleFlight(s, Apply(s, step));
    case Receive(_) => OtherSingleFlight(s, Apply(s, step));
    case GiveUp(_) => OtherSingleFlight(s, Apply(s, step));
  }

  lemma StepCalls(s: State, step: Step)
    requires Enabled(s, step) && CallsSound(s)
    ensures CallsSound(Apply(s, step))
  {}

  lemma StepEntries(s: State, step: Step)
    requires Enabled(s, step) && CallsSound(s) && EntriesSound(s)
    ensures EntriesSound(Apply(s, step))
  {
    if step.Publish? {
      PublishEntries(s, step.call);
    } else {
      CacheKept(s, step);
      StepExtends(s, step);
      EntriesKept(s, Apply(s, step));
    }
  }

  /** Only publishing touches the cache. */
  lemma CacheKept(s: State, step: Step)
    requires Enabled(s, step) && !step.Publish?
    ensures Apply(s, step).entries == s.entries && Apply(s, step).origin == s.origin
  {}

  lemma EntriesKept(s: State, t: State)
    requires Extends(s, t) && EntriesSound(s) && t.entries == s.entries && t.origin == s.origin
    ensures EntriesSound(t)
  {}

  /** The entry came from that call. */
  predicate EntryFrom(calls: seq<Call>, h: Host, c: nat, r: Result) {
    c < |calls| && calls[c].host == h && calls[c].res == Some(r)
  }

  ghost predicate EntriesOf(entries: map<Host, Result>, origin: map<Host, nat>, calls: seq<Call>) {
    && origin.Keys == entries.Keys && |entries| <= LOOKUP_CACHE_MAX
    && forall h :: h in entries ==> EntryFrom(calls, h, origin[h], entries[h])
  }

  lemma AddEntry(entries: map<Host, Result>, origin: map<Host, nat>, calls: seq<Call>, h: Host, c: nat, r: Result)
    requires EntriesOf(entries, origin, calls) && |entries| < LOOKUP_CACHE_MAX && EntryFrom(calls, h, c, r)
    ensures EntriesOf(entries[h := r], origin[h := c], calls)
  {}

  lemma PublishEntries(s: State, c: nat)
    requires Enabled(s, Publish(c)) && EntriesSound(s)
    ensures EntriesSound(PublishStep(s, c))
  {
    var call := s.calls[c];
    var calls := s.calls[c := call.(phase := Published)];
    forall h | h in s.entries ensures EntryFrom(calls, h, s.origin[h], s.entries[h]) {
      assert EntryFrom(s.calls, h, s.origin[h], s.entries[h]);
    }
    if |s.entries| >= LOOKUP_CACHE_MAX {
      AddEntry(map[], map[], calls, call.host, c, call.res.value);
    } else {
      AddEntry(s.entries, s.origin, calls, call.host, c, call.res.value);
    }
  }

  lemma CallerKept(s: State, t: State, caller: Caller)
    requires Extends(s, t) && CallerSound(s, caller)
    ensures CallerSound(t, caller)
  {}

  lemma CallersKept(s: State, t: State)
    requires Extends(s, t) && CallersSound(s)
    requires forall p :: p in t.callers ==> t.callers[p].GaveUp? || (p in s.callers && t.callers[p] == s.callers[p])
    ensures CallersSound(t)
  {
    forall p | p in t.callers ensures CallerSound(t, t.callers[p]) {
      if !t.callers[p].GaveUp? { CallerKept(s, t, s.callers[p]); }
    }
  }

  lemma EnterCallers(s: State, caller: CallerId, host: Host)
    requires Enabled(s, Enter(caller, host)) && Inv(s)
    ensures CallersSound(EnterStep(s, caller, host))
  {
    var t := EnterStep(s, caller, host);
    StepExtends(s, Enter(caller, host));
    forall p | p in t.callers ensures CallerSound(t, t.callers[p]) {
      if p != caller {
        CallerKept(s, t, s.callers[p]);
      } else if Fresh(s, host) {
        assert CallSound(s.calls[s.origin[host]], s.now);
      } else if host in s.inflight {
        assert Flies(s, host);
      }
    }
  }

  lemma ReceiveCallers(s: State, caller: CallerId)
    requires Enabled(s, Receive(caller)) && Inv(s)
    ensures CallersSound(Apply(s, Receive(caller)))
  {
    var t := Apply(s, Receive(caller));
    forall p | p in t.callers ensures CallerSound(t, t.callers[p]) {
      assert CallerSound(s, s.callers[p]);
      if p == caller {
        assert CallSound(s.calls[s.callers[p].call], s.now);
      }
    }
  }

  lemma StepCallers(s: State, step: Step)
    requires Enabled(s, step) && Inv(s)
    ensures CallersSound(Apply(s, step))
  {
    match step
    case Enter(caller, host) => EnterCallers(s, caller, host);
    case Receive(caller) => ReceiveCallers(s, caller);
    case _ =>
      StepExtends(s, step);
      CallersKept(s, Apply(s, step));
  }

  lemma {:induction false} Reachable(s: State, steps: seq<Step>)
    requires Inv(s) && Executes(s, steps)
    ensures Inv(After(s, steps))
    decreases steps
  {
    if steps != [] {
      StepSingleFlight(s, steps[0]);
      StepCalls(s, steps[0]);
      StepEntries(s, steps[0]);
      StepCallers(s, steps[0]);
      Reachable(Apply(s, steps[0]), steps[1..]);
    }
  }

  /** In every reachable state, whatever the interleaving: one run per host, and a bounded cache. */
  lemma OneFlightPerHost(steps: seq<Step>)
    requires Executes(INITIAL, steps)
    ensures var s := After(INITIAL, steps);
            && (forall h, c :: 0 <= c < |s.calls| ==>
                  (h in s.inflight && s.inflight[h] == c <==> s.calls[c].host == h && Unpublished(s.calls[c])))
            && |s.entries| <= LOOKUP_CACHE_MAX
  {
    Reachable(INITIAL, steps);
    FlightsExact(After(INITIAL, steps));
  }

  lemma FlightsExact(s: State)
    requires SingleFlight(s)
    ensures forall h, c :: 0 <= c < |s.calls| ==>
              (h in s.inflight && s.inflight[h] == c <==> s.calls[c].host == h && Unpublished(s.calls[c]))
  {
    forall h, c | 0 <= c < |s.calls|
      ensures h in s.inflight && s.inflight[h] == c <==> s.calls[c].host == h && Unpublished(s.calls[c])
    {
      assert Tracked(s, c);
      assert h in s.inflight ==> Flies(s, h);
    }
  }

  /**
   * Transparency. Every answer a caller has received was returned by a completed lookup of that
   * very host, no earlier than that lookup completed; and one served from the cache was served
   * strictly before the lookup's completion plus 30s, or 5s for a failure other than "no such host".
   */
  lemma AnswersAreLookups(steps: seq<Step>, p: CallerId)
    requires Executes(INITIAL, steps)
    requires p in After(INITIAL, steps).callers && After(INITIAL, steps).callers[p].Got?
    ensures var s := After(INITIAL, steps);
            var got := s.callers[p];
            && From(s, got.host, got.answer, got.from)
            && s.calls[got.from].completed <= got.at
            && (got.hit ==> got.at < s.calls[got.from].completed + if got.answer.Failed? then 5 * SECOND
                else 30 * SECOND)
  {
    Reachable(INITIAL, steps);
    assert CallerSound(After(INITIAL, steps), After(INITIAL, steps).callers[p]);
  }

  // What is cached, and for how long.

  /** No run for the host publishes along the steps. */
  predicate NoPublication(s: State, steps: seq<Step>, h: Host)
    requires Executes(s, steps)
    decreases steps
  {
    steps != [] ==>
      && !(steps[0].Publish? && s.calls[steps[0].call].host == h)
      && NoPublication(Apply(s, steps[0]), steps[1..], h)
  }

  /** No run publishes into a cache that holds 1024 entries. */
  predicate NeverFull(s: State, steps: seq<Step>)
    requires Executes(s, steps)
    decreases steps
  {
    steps != [] ==> (steps[0].Publish? ==> |s.entries| < 1024) && NeverFull(Apply(s, steps[0]), steps[1..])
  }

  /** Publishing stores the run's result, and drops the other hosts' entries exactly when 1024 are held. */
  lemma PublishingStores(s: State, c: nat)
    requires Enabled(s, Publish(c))
    ensures var t, h := Apply(s, Publish(c)), s.calls[c].host;
            && h in t.entries && t.entries[h] == s.calls[c].res.value && h in t.origin && t.origin[h] == c
            && (forall g :: g != h ==>
                  (g in t.entries <==> g in s.entries && |s.entries| < 1024)
                  && (g in t.entries ==> t.entries[g] == s.entries[g])
                  && (g in s.origin && |s.entries| < 1024 ==> g in t.origin && t.origin[g] == s.origin[g]))
  {}

  /** Of the calls it changes nothing that callers see. */
  lemma PublishKeepsCalls(s: State, c: nat)
    requires Enabled(s, Publish(c))
    ensures var t := Apply(s, Publish(c));
            && |t.calls| == |s.calls| && t.inflight == s.inflight - {s.calls[c].host}
            && forall d :: 0 <= d < |s.calls| ==>
                 t.calls[d].host == s.calls[d].host && t.calls[d].res == s.calls[d].res
                 && (t.calls[d].phase == Closed <==> s.calls[d].phase == Closed)
  {}

  lemma StepKeepsEntry(s: State, step: Step, h: Host)
    requires Enabled(s, step) && h in s.entries && h in s.origin
    requires step.Publish? ==> s.calls[step.call].host != h
    ensures var t := Apply(s, step);
            if step.Publish? && |s.entries| >= 1024 then h !in t.entries
            else h in t.entries && t.entries[h] == s.entries[h] && h in t.origin && t.origin[h] == s.origin[h]
  {
    if step.Publish? {
      PublishingStores(s, step.call);
    } else {
      CacheKept(s, step);
    }
  }

  lemma StepAddsNoEntry(s: State, step: Step, h: Host)
    requires Enabled(s, step) && h !in s.entries
    requires step.Publish? ==> s.calls[step.call].host != h
    ensures h !in Apply(s, step).entries
  {
    if step.Publish? {
      PublishingStores(s, step.call);
    } else {
      CacheKept(s, step);
    }
  }

  lemma {:induction false} NoEntryAppears(s: State, steps: seq<Step>, h: Host)
    requires Executes(s, steps) && NoPublication(s, steps, h) && h !in s.entries
    ensures h !in After(s, steps).entries
    decreases steps
  {
    if steps != [] {
      StepAddsNoEntry(s, steps[0], h);
      NoEntryAppears(Apply(s, steps[0]), steps[1..], h);
    }
  }

  /** An entry stays as it is until its host publishes again, exactly if no run publishes into a full cache. */
  lemma {:induction false} EntryStays(s: State, steps: seq<Step>, h: Host)
    requires Executes(s, steps) && NoPublication(s, steps, h) && h in s.entries && h in s.origin
    ensures h in After(s, steps).entries <==> NeverFull(s, steps)
    ensures NeverFull(s, steps) ==>
              var t := After(s, steps); t.entries[h] == s.entries[h] && h in t.origin && t.origin[h] == s.origin[h]
    decreases steps
  {
    if steps != [] {
      StepKeepsEntry(s, steps[0], h);
      if steps[0].Publish? && |s.entries| >= 1024 {
        NoEntryAppears(Apply(s, steps[0]), steps[1..], h);
      } else {
        EntryStays(Apply(s, steps[0]), steps[1..], h);
      }
    }
  }

  lemma {:induction false} ResultStays(s: State, steps: seq<Step>, c: nat)
    requires Executes(s, steps) && Inv(s) && c < |s.calls| && s.calls[c].res.Some?
    ensures var t := After(s, steps);
            c < |t.calls| && t.calls[c].host == s.calls[c].host && t.calls[c].res == s.calls[c].res
            && t.calls[c].completed == s.calls[c].completed
    decreases steps
  {
    if steps != [] {
      OneStep(s, steps);
      Reachable(s, steps[..1]);
      StepExtends(s, steps[0]);
      ResultStays(Apply(s, steps[0]), steps[1..], c);
    }
  }

  lemma OneStep(s: State, steps: seq<Step>)
    requires Executes(s, steps) && steps != []
    ensures Executes(s, steps[..1]) && After(s, steps[..1]) == Apply(s, steps[0])
  {
    assert steps[..1] == [steps[0]] && steps[..1][1..] == [];
  }

  lemma {:induction false} ExecutesOn(s: State, a: seq<Step>, b: seq<Step>)
    ensures Executes(s, a + b) <==> Executes(s, a) && Executes(After(s, a), b)
    ensures Executes(s, a + b) ==> After(s, a + b) == After(After(s, a), b)
    decreases a
  {
    if a == [] {
      assert a + b == b;
    } else {
      assert (a + b)[1..] == a[1..] + b;
      if Enabled(s, a[0]) {
        ExecutesOn(Apply(s, a[0]), a[1..], b);
      }
    }
  }

  /**
   * A completed lookup is served from the cache. Once the run of a call has published, and until
   * another run for its host does, a caller who enters is answered with that lookup's result, and starts
   * no call, exactly if no run has published into a full cache since and less than 30 seconds, or 5
   * for a failure other than "no such host", have passed since the lookup completed; else it waits.
   */
  lemma CachedExactly(pre: seq<Step>, c: nat, post: seq<Step>, p: CallerId)
    requires Executes(INITIAL, pre) && Enabled(After(INITIAL, pre), Publish(c))
    requires var s1 := Apply(After(INITIAL, pre), Publish(c));
             && Executes(s1, post) && NoPublication(s1, post, s1.calls[c].host)
             && p !in After(s1, post).callers
    ensures var s1 := Apply(After(INITIAL, pre), Publish(c));
            var s := After(s1, post);
            && c < |s.calls| && s.calls[c].res.Some?
            && var call, ttl := s.calls[c], if s.calls[c].res.value.answer.Failed? then 5_000_000_000
                else 30_000_000_000;
               AnsweredBy(s, call.host, c, p, NeverFull(s1, post) && s.now < call.completed + ttl)
  {
    Reachable(INITIAL, pre);
    CachedFrom(After(INITIAL, pre), c, post, p);
  }

  /** What a caller who enters is told, with or without an entry that came from the call. */
  ghost predicate AnsweredBy(s: State, h: Host, c: nat, p: CallerId, cached: bool)
    requires p !in s.callers && c < |s.calls| && s.calls[c].res.Some?
  {
    var t := Apply(s, Enter(p, h));
    if cached then t.callers[p] == Got(h, s.calls[c].res.value.answer, s.now, true, c) && |t.calls| == |s.calls|
    else t.callers[p].Waiting?
  }

  lemma EnterAnswers(s: State, h: Host, c: nat, p: CallerId, held: bool)
    requires p !in s.callers && c < |s.calls| && s.calls[c].res.Some?
    requires h in s.entries <==> held
    requires held ==> s.entries[h] == s.calls[c].res.value && h in s.origin && s.origin[h] == c
    ensures AnsweredBy(s, h, c, p, held && s.now < s.calls[c].res.value.expires)
  {}

  lemma CachedFrom(s0: State, c: nat, post: seq<Step>, p: CallerId)
    requires Inv(s0) && Enabled(s0, Publish(c)) && Executes(Apply(s0, Publish(c)), post)
    requires NoPublication(Apply(s0, Publish(c)), post, s0.calls[c].host)
            && p !in After(Apply(s0, Publish(c)), post).callers
    ensures var s1 := Apply(s0, Publish(c));
            var s := After(s1, post);
            && c < |s.calls| && s.calls[c].res.Some? && s.calls[c].host == s0.calls[c].host
            && s.calls[c].res.value.expires == s.calls[c].completed + Ttl(s.calls[c].res.value.answer)
            && AnsweredBy(s, s.calls[c].host, c, p, NeverFull(s1, post) && s.now < s.calls[c].res.value.expires)
  {
    var s1 := Apply(s0, Publish(c));
    OneStepInv(s0, Publish(c));
    PublishingStores(s0, c);
    EntryStays(s1, post, s1.calls[c].host);
    ResultStays(s1, post, c);
    assert CallSound(s1.calls[c], s1.now);
    EnterAnswers(After(s1, post), s1.calls[c].host, c, p, NeverFull(s1, post));
  }

  lemma OneStepInv(s: State, step: Step)
    requires Inv(s) && Enabled(s, step)
    ensures Inv(Apply(s, step))
  {
    OneStep(s, [step]);
    assert [step][..1] == [step];
    Reachable(s, [step]);
  }

  function Publications(steps: seq<Step>): nat {
    if steps == [] then 0 else (if steps[0].Publish? then 1 else 0) + Publications(steps[1..])
  }

  lemma StepAddsOne(s: State, step: Step)
    requires Enabled(s, step)
    ensures |Apply(s, step).entries| <= |s.entries| + if step.Publish? then 1 else 0
  {
    if step.Publish? {
      PublishAddsOne(s, step.call);
    } else {
      CacheKept(s, step);
    }
  }

  lemma PublishAddsOne(s: State, c: nat)
    requires Enabled(s, Publish(c))
    ensures |PublishStep(s, c).entries| <= |s.entries| + 1
  {
    var h, r := s.calls[c].host, s.calls[c].res.value;
    OneMoreKey(s.entries, h, r);
    OneMoreKey(map[], h, r);
  }

  lemma OneMoreKey(entries: map<Host, Result>, h: Host, r: Result)
    ensures |entries[h := r]| <= |entries| + 1
  {
    assert entries[h := r].Keys == entries.Keys + {h};
  }

  /** While the entries held and the publications to come are at most 1024 together, nothing is dropped. */
  lemma {:induction false} FewPublications(s: State, steps: seq<Step>)
    requires Executes(s, steps) && |s.entries| + Publications(steps) <= 1024
    ensures NeverFull(s, steps)
    decreases steps
  {
    if steps != [] {
      StepAddsOne(s, steps[0]);
      FewPublications(Apply(s, steps[0]), steps[1..]);
    }
  }

  /** A caller who waits for a call gets that call's result and no other, unless it gives up. */
  lemma {:induction false} WaitersGetTheirCall(s: State, steps: seq<Step>, p: CallerId)
    requires Inv(s) && Executes(s, steps) && p in s.callers && s.callers[p].Waiting?
    ensures var t, w := After(s, steps), s.callers[p];
            && p in t.callers
            && (|| t.callers[p] == w
                || t.callers[p] == GaveUp(w.host)
                || (&& t.callers[p].Got? && t.callers[p].host == w.host && t.callers[p].from == w.call
                    && !t.callers[p].hit
                    && From(t, w.host, t.callers[p].answer, w.call)))
    decreases steps
  {
    if steps != [] {
      var t := Apply(s, steps[0]);
      OneStepInv(s, steps[0]);
      WaiterStep(s, steps[0], p);
      if t.callers[p].Waiting? {
        WaitersGetTheirCall(t, steps[1..], p);
      } else {
        SettledStays(t, steps[1..], p);
      }
    }
  }

  /** Only its own steps move a caller. */
  lemma CallerAlone(s: State, step: Step, p: CallerId)
    requires Enabled(s, step) && p in s.callers
    ensures p in Apply(s, step).callers
    ensures step != Receive(p) && step != GiveUp(p) ==> Apply(s, step).callers[p] == s.callers[p]
  {
    match step
    case Enter(caller, host) => assert caller != p;
    case Publish(c) => assert PublishStep(s, c).callers == s.callers;
    case _ =>
  }

  lemma WaiterStep(s: State, step: Step, p: CallerId)
    requires Enabled(s, step) && p in s.callers && s.callers[p].Waiting?
    ensures var t, w := Apply(s, step), s.callers[p];
            && p in t.callers
            && (|| t.callers[p] == w
                || t.callers[p] == GaveUp(w.host)
                || (t.callers[p].Got? && t.callers[p].host == w.host && t.callers[p].from == w.call
                    && !t.callers[p].hit))
  {
    CallerAlone(s, step, p);
  }

  lemma {:induction false} SettledStays(s: State, steps: seq<Step>, p: CallerId)
    requires Inv(s) && Executes(s, steps) && p in s.callers && !s.callers[p].Waiting?
    ensures var t := After(s, steps);
            p in t.callers && t.callers[p] == s.callers[p] && CallerSound(t, t.callers[p])
    decreases steps
  {
    if steps == [] {
      assert CallerSound(s, s.callers[p]);
    } else {
      OneStepInv(s, steps[0]);
      SettledStep(s, steps[0], p);
      SettledStays(Apply(s, steps[0]), steps[1..], p);
    }
  }

  lemma SettledStep(s: State, step: Step, p: CallerId)
    requires Enabled(s, step) && p in s.callers && !s.callers[p].Waiting?
    ensures p in Apply(s, step).callers && Apply(s, step).callers[p] == s.callers[p]
  {
    CallerAlone(s, step, p);
  }

  // No waiter is stranded.

  /** How many steps of its run are left before a call's channel is closed. */
  function Pending(call: Call): nat {
    match call.phase
    case Looking => 3
    case Resolved => 2
    case Published => 1
    case Closed => 0
  }

  predicate OfRun(step: Step, c: nat) {
    (step.Resolve? || step.Publish? || step.Close?) && step.call == c
  }

  function RunSteps(steps: seq<Step>, c: nat): nat {
    if steps == [] then 0 else (if OfRun(steps[0], c) then 1 else 0) + RunSteps(steps[1..], c)
  }

  lemma StepPending(s: State, step: Step, c: nat)
    requires Enabled(s, step) && c < |s.calls|
    ensures c < |Apply(s, step).calls|
    ensures Pending(Apply(s, step).calls[c]) == Pending(s.calls[c]) - if OfRun(step, c) then 1 else 0
  {
    var t := Apply(s, step);
    if OfRun(step, c) {
      assert t.calls[c].phase != s.calls[c].phase;
    } else {
      assert t.calls[c] == s.calls[c];
    }
  }

  /** Each step of a call's run brings its channel one step closer to closing; nothing else moves it, either way. */
  lemma {:induction false} RunCloses(s: State, steps: seq<Step>, c: nat)
    requires Executes(s, steps) && c < |s.calls|
    ensures c < |After(s, steps).calls|
    ensures Pending(After(s, steps).calls[c]) == Pending(s.calls[c]) - RunSteps(steps, c)
    decreases steps
  {
    if steps != [] {
      StepPending(s, steps[0], c);
      RunCloses(Apply(s, steps[0]), steps[1..], c);
    }
  }

  /**
   * In every reachable state a waiting caller's call is closed, and then it can receive, or its run
   * is alive: the run's next step is enabled, and after three of them at most the channel is closed.
   */
  lemma NoWaiterStranded(steps: seq<Step>, p: CallerId, answer: Answer)
    requires Executes(INITIAL, steps)
    requires p in After(INITIAL, steps).callers && After(INITIAL, steps).callers[p].Waiting?
    ensures var s := After(INITIAL, steps);
            var c := s.callers[p].call;
            && c < |s.calls| && s.calls[c].host == s.callers[p].host
            && (if Pending(s.calls[c]) == 0 then Enabled(s, Receive(p))
                else Enabled(s, Resolve(c, answer)) || Enabled(s, Publish(c)) || Enabled(s, Close(c)))
            && forall more :: Executes(s, more) ==>
                 && c < |After(s, more).calls| && RunSteps(more, c) <= 3
                 && (RunSteps(more, c) == Pending(s.calls[c]) <==> After(s, more).calls[c].phase == Closed)
  {
    Reachable(INITIAL, steps);
    var s := After(INITIAL, steps);
    assert CallerSound(s, s.callers[p]);
    var c := s.callers[p].call;
    assert CallSound(s.calls[c], s.now);
    forall more | Executes(s, more)
      ensures c < |After(s, more).calls| && Pending(After(s, more).calls[c]) == Pending(s.calls[c]) - RunSteps(more, c)
    {
      RunCloses(s, more, c);
    }
  }

  // The cache as it is written.

  class LookupCall {
    ghost const id: nat
    const host: Host
    var done: bool
    var res: Option<Result>

    ghost predicate Mirrors(c: nat, call: Call)
      reads this
    {
      id == c && host == call.host && res == call.res && (done <==> call.phase == Closed)
    }

    constructor (ghost id: nat, host: Host)
      ensures this.id == id && this.host == host && !done && res == None
    {
      this.id := id;
      this.host := host;
      done := false;
      res := None;
    }
  }

  class Cache {
    var entries: map<Host, Result>
    var inflight: map<Host, LookupCall>
    /** The machine's state, and the call objects in the order they were made. */
    ghost var s: State
    ghost var made: seq<LookupCall>

    ghost predicate Valid()
      reads this, made
    {
      && entries == s.entries
      && |made| == |s.calls|
      && (forall c :: 0 <= c < |made| ==> made[c].Mirrors(c, s.calls[c]))
      && inflight.Keys == s.inflight.Keys
      && (forall h :: h in inflight ==> s.inflight[h] < |made| && inflight[h] == made[s.inflight[h]])
    }

    constructor ()
      ensures Valid() && s == INITIAL && made == []
    {
      entries, inflight := map[], map[];
      s, made := INITIAL, [];
    }

    /** lookup up to the end of its critical section: the cached answer, or the call to wait for. */
    method Lookup(ghost caller: CallerId, host: Host, now: nat) returns (cached: Option<Answer>, call: LookupCall?)
      requires Valid() && Enabled(s, Enter(caller, host)) && now == s.now
      modifies this
      ensures Valid() && s == Apply(old(s), Enter(caller, host))
      ensures cached.Some? ==> s.callers[caller].Got? && s.callers[caller].answer == cached.value
      ensures cached.None? ==>
                call != null && call.id < |made| && made[call.id] == call && s.callers[caller] == Waiting(host, call.id)
    {
      ghost var t := EnterStep(s, caller, host);
      cached, call := None, null;
      if host in entries && now < entries[host].expires {
        cached := Some(entries[host].answer);
      } else if host in inflight {
        call := inflight[host];
      } else {
        call := StartCall(host);
      }
      s := t;
    }

    /** A new call, entered in the in-flight table. */
    method StartCall(host: Host) returns (call: LookupCall)
      requires Valid()
      modifies this
      ensures Valid() && fresh(call) && made == old(made) + [call] && call.id == |old(made)|
      ensures entries == old(entries)
      ensures s == old(s).(inflight := old(s).inflight[host := |old(s).calls|],
              calls := old(s).calls + [Call(host, Looking, None, 0)])
    {
      call := new LookupCall(|made|, host);
      inflight := inflight[host := call];
      s := s.(inflight := s.inflight[host := |s.calls|], calls := s.calls + [Call(host, Looking, None, 0)]);
      made := made + [call];
    }

    /** A waiter whose call is done reads the result. */
    method Receive(ghost caller: CallerId, call: LookupCall) returns (answer: Answer)
      requires Valid() && Enabled(s, Step.Receive(caller)) && s.callers[caller].call == call.id && made[call.id] == call
      modifies this`s
      ensures Valid() && s == Apply(old(s), Step.Receive(caller))
      ensures s.callers[caller].Got? && s.callers[caller].answer == answer
    {
      answer := call.res.value.answer;
      s := Apply(s, Step.Receive(caller));
    }

    /** run, after the lookup returned and before the critical section. */
    method SetResult(call: LookupCall, answer: Answer, now: nat)
      requires Valid() && Enabled(s, Resolve(call.id, answer)) && made[call.id] == call && now == s.now
      modifies this`s, call
      ensures Valid() && s == Apply(old(s), Resolve(call.id, answer))
    {
      var ttl := LOOKUP_CACHE_TTL;
      if answer.Failed? {
        ttl := LOOKUP_ERROR_TTL;
      }
      call.res := Some(Result(answer, now + ttl));
      s := Apply(s, Resolve(call.id, answer));
    }

    /** run's critical section. */
    method PublishResult(call: LookupCall)
      requires Valid() && Enabled(s, Publish(call.id)) && made[call.id] == call
      modifies this
      ensures Valid() && made == old(made) && s == Apply(old(s), Publish(call.id))
    {
      ghost var t := Apply(s, Publish(call.id));
      PublishKeepsCalls(s, call.id);
      if |entries| >= LOOKUP_CACHE_MAX {
        entries := map[];
      }
      entries := entries[call.host := call.res.value];
      inflight := inflight - {call.host};
      s := t;
    }

    /** run's deferred close. */
    method CloseDone(call: LookupCall)
      requires Valid() && Enabled(s, Close(call.id)) && made[call.id] == call
      modifies this`s, call
      ensures Valid() && call.done && s == Apply(old(s), Close(call.id))
    {
      call.done := true;
      s := Apply(s, Close(call.id));
    }
  }
}
