/** Runs of the registry with any number of requests in flight. */
module RegistryRuns {
  import opened Common
  import opened Registry

  /** A request that is not served from the cache starts a fetch; the fetch of event `start` finishes later. */
  datatype Event =
    | Start(request: Request)
    | Finish(start: nat, answer: Answer)
    | Write(index: nat, succeeds: bool)

  datatype Stamped = Stamped(now: Time, event: Event)

  datatype State = State(lastError: Time, cache: Cache, pending: seq<PendingWrite>)

  datatype Settings = Settings(cooldown: Time, ttl: Time)

  ghost predicate IsFinishOf(e: Stamped, start: nat) {
    e.event.Finish? && e.event.start == start
  }

  ghost predicate Step(cfg: Settings, events: seq<Stamped>, i: nat, s: State, s': State)
    requires i < |events|
  {
    var now := events[i].now;
    match events[i].event
    case Start(_) => !IsOpen(s.lastError, cfg.cooldown, now) && s' == s
    case Finish(start, answer) =>
      && start < i && events[start].event.Start?
      && (forall j :: start < j < i ==> !IsFinishOf(events[j], start))
      && s' == if IsTransient(answer) then s.(lastError := now)
               else s.(pending := s.pending + [PendingWrite(CacheKey(events[start].event.request), Cacheable(answer))])
    case Write(index, succeeds) =>
      && index < |s.pending|
      && var w := s.pending[index];
      && s' == s.(pending := s.pending[..index] + s.pending[index + 1..],
                  cache := if succeeds then s.cache[w.key := CacheEntry(w.data, now + cfg.ttl)] else s.cache)
  }

  ghost predicate IsRun(cfg: Settings, states: seq<State>, events: seq<Stamped>) {
    && |states| == |events| + 1
    && states[0] == State(0, map[], [])
    && (forall i :: 0 <= i < |events| ==> Step(cfg, events, i, states[i], states[i + 1]))
    && (forall i, j :: 0 <= i <= j < |events| ==> events[i].now <= events[j].now)
  }

  predicate IsFailure(e: Stamped) {
    e.event.Finish? && IsTransient(e.event.answer)
  }

  // ---------------------------------------------------------------- the program takes these steps

  function StateOf(r: ProjectRegistry): State
    reads r
    requires r.cache.Some?
  {
    State(r.lastError, r.cache.value, r.pending)
  }

  function SettingsOf(r: ProjectRegistry): Settings {
    Settings(r.cooldown, r.ttl)
  }

  /** A request by itself: the start of a fetch, then its finish. */
  ghost predicate IsFetch(cfg: Settings, request: Request, checked: Time, answer: Answer, answered: Time,
                          s: State, s': State)
  {
    var events := [Stamped(checked, Start(request)), Stamped(answered, Finish(0, answer))];
    Step(cfg, events, 0, s, s) && Step(cfg, events, 1, s, s')
  }

  /** Every request that reaches the registry takes the steps of a fetch, and every other one none. */
  method Serve(registry: ProjectRegistry, request: Request, read: CacheRead, asked: Time, checked: Time,
               answer: Answer, answered: Time)
    returns (r: Result<(Source, ProjectDataResult), RpcError>, fetched: bool)
    requires registry.cache.Some?
    modifies registry
    ensures registry.cache.Some?
    ensures fetched ==> read == Undecodable || (read == Decoded && !Hit(old(registry.cache).value, CacheKey(request), asked))
    ensures fetched ==> IsFetch(SettingsOf(registry), request, checked, answer, answered,
                                old(StateOf(registry)), StateOf(registry))
    ensures !fetched ==> StateOf(registry) == old(StateOf(registry))
  {
    r, fetched := registry.ProjectDataInternal(request, read, asked, checked, answer, answered);
  }

  method ServeWrite(registry: ProjectRegistry, index: nat, succeeds: bool, now: Time)
    requires registry.cache.Some? && index < |registry.pending|
    modifies registry
    ensures registry.cache.Some?
    ensures Step(SettingsOf(registry), [Stamped(now, Write(index, succeeds))], 0,
                 old(StateOf(registry)), StateOf(registry))
  {
    registry.FinishWrite(index, succeeds, now);
  }

  // ---------------------------------------------------------------- the breaker over runs

  lemma {:induction false} LastErrorKept(cfg: Settings, states: seq<State>, events: seq<Stamped>, i: nat, k: nat)
    requires IsRun(cfg, states, events) && i < k <= |events| && IsFailure(events[i])
    ensures events[i].now <= states[k].lastError <= events[k - 1].now
    decreases k
  {
    assert Step(cfg, events, k - 1, states[k - 1], states[k]);
    if i + 1 < k {
      LastErrorKept(cfg, states, events, i, k - 1);
    }
  }

  /** `f` is the last failure before event `k`. */
  ghost predicate IsLastFailure(events: seq<Stamped>, f: nat, k: nat) {
    f < k <= |events| && IsFailure(events[f]) && forall j :: f < j < k ==> !IsFailure(events[j])
  }

  ghost predicate NoFailure(events: seq<Stamped>, k: nat)
    requires k <= |events|
  {
    forall j :: 0 <= j < k ==> !IsFailure(events[j])
  }

  /** The breaker remembers the last failure, and 0 before the first one. */
  lemma {:induction false} LastErrorIs(cfg: Settings, states: seq<State>, events: seq<Stamped>, k: nat)
    returns (f: nat)
    requires IsRun(cfg, states, events) && k <= |events|
    ensures NoFailure(events, k) ==> states[k].lastError == 0
    ensures !NoFailure(events, k) ==> IsLastFailure(events, f, k) && states[k].lastError == events[f].now
    decreases k
  {
    f := 0;
    if k > 0 {
      f := LastErrorIs(cfg, states, events, k - 1);
      assert Step(cfg, events, k - 1, states[k - 1], states[k]);
      if IsFailure(events[k - 1]) {
        f := k - 1;
      }
    }
  }

  /**
   * When a fetch may start, in terms of what happened: the circuit is open exactly within a cooldown after the last
   * failure, if that lies past millisecond 0. So it closes again, however many failures there were.
   */
  lemma OpenExactly(cfg: Settings, states: seq<State>, events: seq<Stamped>, k: nat, now: Time)
    requires IsRun(cfg, states, events) && k <= |events| && (k > 0 ==> events[k - 1].now <= now)
    ensures IsOpen(states[k].lastError, cfg.cooldown, now) <==>
            cfg.cooldown > 0 && exists f: nat :: IsLastFailure(events, f, k) && 0 < events[f].now && now < events[f].now + cfg.cooldown
  {
    var last := LastErrorIs(cfg, states, events, k);
    forall f: nat | IsLastFailure(events, f, k) ensures states[k].lastError == events[f].now {
      assert !NoFailure(events, k);
      assert f == last;
    }
    if !NoFailure(events, k) {
      assert IsLastFailure(events, last, k) && events[last].now <= events[k - 1].now;
    }
  }

  /** After a failure recorded past millisecond 0 no fetch starts for a whole cooldown, however many are in flight. */
  lemma NoStartInCooldown(cfg: Settings, states: seq<State>, events: seq<Stamped>, i: nat, j: nat)
    requires IsRun(cfg, states, events) && i < j < |events|
    requires IsFailure(events[i]) && events[i].now > 0 && events[j].event.Start?
    ensures events[j].now >= events[i].now + cfg.cooldown
  {
    LastErrorKept(cfg, states, events, i, j);
    assert Step(cfg, events, j, states[j], states[j + 1]);
  }

  /** One request at a time: between a start and its finish there are only background writes. */
  ghost predicate Sequential(events: seq<Stamped>) {
    forall i, j :: 0 <= i < |events| && events[i].event.Finish? && events[i].event.start < j < i ==> events[j].event.Write?
  }

  ghost predicate AreFailures(events: seq<Stamped>, failures: seq<nat>) {
    && (forall n :: 0 <= n < |failures| ==>
                      failures[n] < |events| && IsFailure(events[failures[n]]) && events[failures[n]].now > 0)
    && (forall m, n :: 0 <= m < n < |failures| ==> failures[m] < failures[n])
  }

  /** Rate bound: in a sequential run `n` recorded failures span at least `n - 1` cooldowns. */
  lemma {:induction false} FailuresSpanCooldowns(cfg: Settings, states: seq<State>, events: seq<Stamped>,
                                                 failures: seq<nat>)
    requires IsRun(cfg, states, events) && Sequential(events)
    requires AreFailures(events, failures) && |failures| > 0
    ensures events[failures[|failures| - 1]].now >= events[failures[0]].now + (|failures| - 1) * cfg.cooldown
  {
    var n := |failures| - 1;
    if n > 0 {
      var earlier := failures[..n];
      assert AreFailures(events, earlier);
      FailuresSpanCooldowns(cfg, states, events, earlier);
      NextFailure(cfg, states, events, failures[n - 1], failures[n]);
      OneMoreCooldown(n, cfg.cooldown);
    }
  }

  lemma OneMoreCooldown(n: nat, cooldown: Time)
    ensures n * cooldown == (n - 1) * cooldown + cooldown
  {
  }

  lemma NextFailure(cfg: Settings, states: seq<State>, events: seq<Stamped>, i: nat, j: nat)
    requires IsRun(cfg, states, events) && Sequential(events) && i < j < |events|
    requires IsFailure(events[i]) && events[i].now > 0 && IsFailure(events[j])
    ensures events[j].now >= events[i].now + cfg.cooldown
  {
    assert Step(cfg, events, j, states[j], states[j + 1]);
    var start := events[j].event.start;
    assert i < start;
    NoStartInCooldown(cfg, states, events, i, start);
  }

  /** The sentinel hides a failure in millisecond 0: a second one may follow at once, whatever the cooldown. */
  lemma FailureAtZeroUnseen(cfg: Settings, request: Request) returns (states: seq<State>, events: seq<Stamped>)
    ensures IsRun(cfg, states, events) && Sequential(events)
    ensures |events| == 4 && IsFailure(events[1]) && IsFailure(events[3]) && events[1].now == events[3].now == 0
  {
    events := [Stamped(0, Start(request)), Stamped(0, Finish(0, OtherError)),
    Stamped(0, Start(request)), Stamped(0, Finish(2, OtherError))];
    var s := State(0, map[], []);
    states := [s, s, s, s, s];
  }

  // ---------------------------------------------------------------- the cache over runs

  /** The registry gave `data` for a request with this key before event `k`. */
  ghost predicate Given(events: seq<Stamped>, k: nat, key: string, data: ProjectDataResult) {
    exists i :: 0 <= i < |events| && i < k && GivenAt(events, i, key, data)
  }

  ghost predicate GivenAt(events: seq<Stamped>, i: nat, key: string, data: ProjectDataResult)
    requires i < |events|
  {
    && events[i].event.Finish? && !IsTransient(events[i].event.answer)
    && events[i].event.start < i && events[events[i].event.start].event.Start?
    && CacheKey(events[events[i].event.start].event.request) == key
    && Cacheable(events[i].event.answer) == data
  }

  ghost predicate CacheInv(s: State, events: seq<Stamped>, k: nat) {
    && (forall key :: key in s.cache ==> Given(events, k, key, s.cache[key].data))
    && (forall n :: 0 <= n < |s.pending| ==> Given(events, k, s.pending[n].key, s.pending[n].data))
  }

  lemma {:induction false} CacheHoldsAnswers(cfg: Settings, states: seq<State>, events: seq<Stamped>, k: nat)
    requires IsRun(cfg, states, events) && k <= |events|
    ensures CacheInv(states[k], events, k)
    decreases k
  {
    if k > 0 {
      var i := k - 1;
      CacheHoldsAnswers(cfg, states, events, i);
      assert Step(cfg, events, i, states[i], states[k]);
      var e := events[i].event;
      forall n | 0 <= n < |states[k].pending|
        ensures Given(events, k, states[k].pending[n].key, states[k].pending[n].data)
      {
        if e.Finish? && !IsTransient(e.answer) && n == |states[i].pending| {
          assert GivenAt(events, i, states[k].pending[n].key, states[k].pending[n].data);
        } else if e.Write? && n >= e.index {
          assert states[k].pending[n] == states[i].pending[n + 1];
        } else {
          assert states[k].pending[n] == states[i].pending[n];
        }
      }
    }
  }

  /** A cached value is one the registry gave for that very request, and never a transient failure. */
  lemma HitIsAnAnswer(cfg: Settings, states: seq<State>, events: seq<Stamped>, k: nat, request: Request, now: Time)
    returns (i: nat)
    requires IsRun(cfg, states, events) && k <= |events|
    requires Hit(states[k].cache, CacheKey(request), now)
    ensures i < k && events[i].event.Finish? && !IsTransient(events[i].event.answer)
    ensures events[i].event.start < i && events[events[i].event.start].event == Start(request)
    ensures states[k].cache[CacheKey(request)].data == Cacheable(events[i].event.answer)
    ensures states[k].cache[CacheKey(request)].data != Err(RegistryTemporarilyUnavailable)
  {
    CacheHoldsAnswers(cfg, states, events, k);
    var key := CacheKey(request);
    i :| 0 <= i < |events| && i < k && GivenAt(events, i, key, states[k].cache[key].data);
    CacheKeyInjective(events[events[i].event.start].event.request, request);
  }
}
