/** Leadership by watching a lease, cmd/device-scheduler/lease.go: an event-driven
    state machine that fires callbacks on transitions only. Time is in nanoseconds
    and every event carries the clock it was evaluated at. */
module LeaseDetector {
  import opened Common

  const SECOND := 1000000000

  datatype Lease = Lease(
    namespace: string, name: string, holder: Option<string>, renewTime: Option<int>, durationSeconds: Option<int>)

  /** What an informer hands over: a lease, a tombstone that may wrap one, or neither. */
  datatype Object = LeaseObject(lease: Lease) | Tombstone(inner: Option<Lease>) | Unrelated

  datatype Config = Config(
    namespace: string, name: string, prefix: string, jitter: int, onLeader: bool, onRelease: bool, onStart: bool)

  datatype Callback = Start | Leader | Release

  datatype Event = Synced | Updated(obj: Object, now: int) | Deleted(obj: Object)

  datatype State = State(current: Option<Lease>, isLeader: bool, started: bool, calls: seq<Callback>)

  const Fresh := State(None, false, false, [])

  // -------------------------------------------------------------- evaluation

  /** convertTargetLease. */
  function Target(cfg: Config, obj: Object): Option<Lease> {
    var lease := match obj
      case LeaseObject(l) => Some(l)
      case Tombstone(inner) => inner
      case Unrelated => None;
    if lease.Some? && lease.value.namespace == cfg.namespace && lease.value.name == cfg.name then lease else None
  }

  /** The lease names us and carries the times an expiry needs. */
  predicate HeldByUs(cfg: Config, lease: Lease) {
    cfg.prefix <= (if lease.holder.Some? then lease.holder.value else "")
    && lease.renewTime.Some? && lease.durationSeconds.Some?
  }

  function Deadline(cfg: Config, lease: Lease): int
    requires HeldByUs(cfg, lease)
  {
    lease.renewTime.value + lease.durationSeconds.value * SECOND + cfg.jitter
  }

  /** evaluate, at clock `now`. */
  predicate Evaluate(cfg: Config, lease: Option<Lease>, now: int) {
    lease.Some? && HeldByUs(cfg, lease.value) && now <= Deadline(cfg, lease.value)
  }

  /** IsLeader(). */
  predicate IsLeaderNow(cfg: Config, s: State, now: int) {
    Evaluate(cfg, s.current, now)
  }

  // ------------------------------------------------------------------- steps

  function Called(s: State, registered: bool, c: Callback): State {
    if registered then s.(calls := s.calls + [c]) else s
  }

  /** StartCallbackOnce. */
  function StartedOnce(cfg: Config, s: State): State {
    if cfg.onStart && !s.started then Called(s, true, Start).(started := true) else s
  }

  function Transition(cfg: Config, s: State, current: Option<Lease>, leads: bool): State {
    var t := s.(current := current, isLeader := leads);
    if s.isLeader && !leads then Called(t, cfg.onRelease, Release)
    else if !s.isLeader && leads then Called(t, cfg.onLeader, Leader)
    else t
  }

  function Step(cfg: Config, s: State, e: Event): State {
    match e
    case Synced => StartedOnce(cfg, s)
    case Updated(obj, now) =>
      var t := StartedOnce(cfg, s);
      var lease := Target(cfg, obj);
      if lease.None? then t else Transition(cfg, t, lease, Evaluate(cfg, lease, now))
    case Deleted(obj) =>
      if Target(cfg, obj).None? then s else Transition(cfg, s, None, false)
  }

  function Run(cfg: Config, s: State, events: seq<Event>): State
    decreases |events|
  {
    if events == [] then s else Run(cfg, Step(cfg, s, events[0]), events[1..])
  }

  // -------------------------------------------------------------- invariants

  function Roles(calls: seq<Callback>): seq<Callback> {
    if calls == [] then []
    else Roles(calls[..|calls| - 1]) + if calls[|calls| - 1] == Start then [] else [calls[|calls| - 1]]
  }

  /** Leader, Release, Leader, Release, ... */
  predicate Alternates(roles: seq<Callback>) {
    forall i :: 0 <= i < |roles| ==> roles[i] == if i % 2 == 0 then Leader else Release
  }

  predicate RolesInv(cfg: Config, s: State) {
    cfg.onLeader && cfg.onRelease ==> Alternates(Roles(s.calls)) && (|Roles(s.calls)| % 2 == 1 <==> s.isLeader)
  }

  predicate StartInv(cfg: Config, s: State) {
    && (cfg.onStart && s.calls != [] ==> s.started && s.calls[0] == Start)
    && (cfg.onStart && s.isLeader ==> s.started)
    && (!cfg.onStart ==> Start !in s.calls)
    && (s.started ==> s.calls != [] && Start !in s.calls[1..])
  }

  predicate CallsInv(cfg: Config, s: State) {
    RolesInv(cfg, s) && StartInv(cfg, s)
  }

  /** isLeader is the verdict on the lease held, as it stood at clock `at`. */
  predicate LeaseInv(cfg: Config, s: State, at: int) {
    s.isLeader == Evaluate(cfg, s.current, at)
  }

  /** The clock of the last update of our own lease, `at` before any. */
  function EvaluatedAt(cfg: Config, at: int, e: Event): int {
    if e.Updated? && Target(cfg, e.obj).Some? then e.now else at
  }

  function Evaluated(cfg: Config, at: int, events: seq<Event>): int
    decreases |events|
  {
    if events == [] then at else Evaluated(cfg, EvaluatedAt(cfg, at, events[0]), events[1..])
  }

  lemma RolesSnoc(calls: seq<Callback>, c: Callback)
    ensures Roles(calls + [c]) == Roles(calls) + if c == Start then [] else [c]
  {
    assert (calls + [c])[..|calls|] == calls;
  }

  lemma CallsStart(cfg: Config, s: State)
    requires CallsInv(cfg, s)
    ensures CallsInv(cfg, StartedOnce(cfg, s)) && (cfg.onStart ==> StartedOnce(cfg, s).started)
    ensures StartedOnce(cfg, s).isLeader == s.isLeader && StartedOnce(cfg, s).current == s.current
    ensures Roles(StartedOnce(cfg, s).calls) == Roles(s.calls)
  {
    RolesSnoc(s.calls, Start);
  }

  lemma CallsTransition(cfg: Config, s: State, current: Option<Lease>, leads: bool)
    requires CallsInv(cfg, s) && (cfg.onStart && leads ==> s.started)
    ensures CallsInv(cfg, Transition(cfg, s, current, leads))
  {
    hide StartInv, Roles, Alternates;
    StartTransition(cfg, s, current, leads);
    if cfg.onLeader && cfg.onRelease && s.isLeader != leads {
      var c := if leads then Leader else Release;
      RolesSnoc(s.calls, c);
      AlternatesSnoc(Roles(s.calls), c);
    }
  }

  lemma AlternatesSnoc(roles: seq<Callback>, c: Callback)
    requires Alternates(roles) && c == if |roles| % 2 == 0 then Leader else Release
    ensures Alternates(roles + [c])
  {
  }

  lemma StartTransition(cfg: Config, s: State, current: Option<Lease>, leads: bool)
    requires StartInv(cfg, s) && (cfg.onStart && leads ==> s.started)
    ensures StartInv(cfg, Transition(cfg, s, current, leads))
  {
    if s.calls != [] {
      assert (s.calls + [Leader])[1..] == s.calls[1..] + [Leader];
      assert (s.calls + [Release])[1..] == s.calls[1..] + [Release];
    }
  }

  /** Every event keeps both invariants, whatever the clock does. */
  lemma StepKeeps(cfg: Config, s: State, e: Event, at: int)
    requires CallsInv(cfg, s) && LeaseInv(cfg, s, at)
    ensures CallsInv(cfg, Step(cfg, s, e)) && LeaseInv(cfg, Step(cfg, s, e), EvaluatedAt(cfg, at, e))
  {
    hide CallsInv, Roles;
    CallsStart(cfg, s);
    match e
    case Synced =>
    case Updated(obj, now) =>
      var t, lease := StartedOnce(cfg, s), Target(cfg, obj);
      CallsTransition(cfg, t, lease, Evaluate(cfg, lease, now));
    case Deleted(obj) =>
      CallsTransition(cfg, s, None, false);
  }

  lemma {:induction false} RunKeeps(cfg: Config, s: State, events: seq<Event>, at: int)
    requires CallsInv(cfg, s) && LeaseInv(cfg, s, at)
    ensures CallsInv(cfg, Run(cfg, s, events)) && LeaseInv(cfg, Run(cfg, s, events), Evaluated(cfg, at, events))
    decreases |events|
  {
    hide CallsInv, LeaseInv, Step, EvaluatedAt;
    if events != [] {
      StepKeeps(cfg, s, events[0], at);
      RunKeeps(cfg, Step(cfg, s, events[0]), events[1..], EvaluatedAt(cfg, at, events[0]));
    }
  }

  // ------------------------------------------------------------ trace results

  /** Leadership callbacks alternate starting with Leader, and the last one is Leader
      exactly while `leads`. */
  predicate RolesFollow(calls: seq<Callback>, leads: bool) {
    var roles := Roles(calls);
    Alternates(roles) && (roles != [] && roles[|roles| - 1] == Leader <==> leads)
  }

  /** The start callback ran at most once, and before any other. */
  predicate StartFirst(calls: seq<Callback>) {
    calls != [] ==> calls[0] == Start && Start !in calls[1..]
  }

  lemma CallsFollow(cfg: Config, s: State)
    requires CallsInv(cfg, s)
    ensures cfg.onLeader && cfg.onRelease ==> RolesFollow(s.calls, s.isLeader)
    ensures cfg.onStart ==> StartFirst(s.calls)
    ensures !cfg.onStart ==> Start !in s.calls
  {
    hide Roles, Alternates;
    if cfg.onLeader && cfg.onRelease {
      LastOfAlternating(Roles(s.calls));
    }
  }

  lemma LastOfAlternating(roles: seq<Callback>)
    requires Alternates(roles)
    ensures roles != [] && roles[|roles| - 1] == Leader <==> |roles| % 2 == 1
  {
  }

  lemma CallbacksAlternate(cfg: Config, events: seq<Event>)
    requires cfg.onLeader && cfg.onRelease
    ensures var s := Run(cfg, Fresh, events); RolesFollow(s.calls, s.isLeader)
  {
    RunKeeps(cfg, Fresh, events, 0);
    CallsFollow(cfg, Run(cfg, Fresh, events));
  }

  lemma StartsOnceAndFirst(cfg: Config, events: seq<Event>)
    requires cfg.onStart
    ensures StartFirst(Run(cfg, Fresh, events).calls)
  {
    RunKeeps(cfg, Fresh, events, 0);
  }

  /** Over every run, whatever its clocks: IsLeader() and isLeader part exactly when
      the deadline of the lease we hold lies between the clock of its last update and
      now. On one side IsLeader() has outlived isLeader, the clock having gone back
      across the deadline; on the other the lease has expired since. */
  lemma IsLeaderExact(cfg: Config, events: seq<Event>, start: int, now: int)
    ensures var s := Run(cfg, Fresh, events);
      var at := Evaluated(cfg, start, events);
      var held := s.current.Some? && HeldByUs(cfg, s.current.value);
      && (IsLeaderNow(cfg, s, now) && !s.isLeader <==> held && now <= Deadline(cfg, s.current.value) < at)
      && (s.isLeader && !IsLeaderNow(cfg, s, now) <==> held && at <= Deadline(cfg, s.current.value) < now)
  {
    RunKeeps(cfg, Fresh, events, start);
  }

  /** So with a clock not behind the last update, IsLeader() is isLeader and an
      unexpired lease. */
  lemma IsLeaderLater(cfg: Config, events: seq<Event>, start: int, now: int)
    requires now >= Evaluated(cfg, start, events)
    ensures var s := Run(cfg, Fresh, events);
      && (s.isLeader ==> s.current.Some? && HeldByUs(cfg, s.current.value))
      && (IsLeaderNow(cfg, s, now) <==> s.isLeader && now <= Deadline(cfg, s.current.value))
  {
    RunKeeps(cfg, Fresh, events, start);
  }

  const Ours := Lease("ns", "l", Some("pod_1"), Some(0), Some(10))
  const Watch := Config("ns", "l", "pod", 0, true, true, true)

  /** Between an expiry and the next event isLeader outlives IsLeader(). */
  lemma ExpiryIsSilent()
    ensures var s := Run(Watch, Fresh, [Updated(LeaseObject(Ours), 1)]);
      s.isLeader && !IsLeaderNow(Watch, s, 10 * SECOND + 1)
  {
  }

  /** A clock set back across the deadline: IsLeader() without isLeader. */
  lemma ClockSetBack()
    ensures var s := Run(Watch, Fresh, [Updated(LeaseObject(Ours), 10 * SECOND + 1)]);
      IsLeaderNow(Watch, s, 1) && !s.isLeader
  {
  }

  // ------------------------------------------------------ in the lease's fields

  /** The object is the lease `l`, or the tombstone of it. */
  predicate Carries(obj: Object, l: Lease) {
    obj == LeaseObject(l) || obj == Tombstone(Some(l))
  }

  predicate Named(cfg: Config, l: Lease) {
    l.namespace == cfg.namespace && l.name == cfg.name
  }

  /** The holder, if any, starts with our prefix; both times are there; and `now` is no
      later than the renewal plus the duration in nanoseconds plus the jitter. */
  predicate LeadsAt(cfg: Config, l: Lease, now: int) {
    && (if l.holder.Some? then |cfg.prefix| <= |l.holder.value| && l.holder.value[..|cfg.prefix|] == cfg.prefix
        else cfg.prefix == "")
    && l.renewTime.Some? && l.durationSeconds.Some?
    && now <= l.renewTime.value + 1000000000 * l.durationSeconds.value + cfg.jitter
  }

  lemma EvaluateLaw(cfg: Config, lease: Option<Lease>, now: int)
    ensures Evaluate(cfg, lease, now) <==> lease.Some? && LeadsAt(cfg, lease.value, now)
  {
  }

  lemma TargetLaw(cfg: Config, obj: Object)
    ensures forall l :: Carries(obj, l) ==> Target(cfg, obj) == if Named(cfg, l) then Some(l) else None
    ensures (forall l :: Carries(obj, l) ==> !Named(cfg, l)) ==> Target(cfg, obj) == None
  {
    match obj
    case LeaseObject(l) => assert Carries(obj, l);
    case Tombstone(inner) => if inner.Some? { assert Carries(obj, inner.value); }
    case Unrelated =>
  }

  /** The event does not concern our lease. */
  ghost predicate NotOurs(cfg: Config, e: Event) {
    e.Synced? || forall l :: Carries(e.obj, l) ==> !Named(cfg, l)
  }

  lemma NotOursKeeps(cfg: Config, s: State, e: Event)
    requires NotOurs(cfg, e)
    ensures Step(cfg, s, e).current == s.current && Step(cfg, s, e).isLeader == s.isLeader
  {
    if !e.Synced? { TargetLaw(cfg, e.obj); }
  }

  lemma {:induction false} NotOursRun(cfg: Config, s: State, events: seq<Event>)
    requires forall k :: 0 <= k < |events| ==> NotOurs(cfg, events[k])
    ensures Run(cfg, s, events).current == s.current && Run(cfg, s, events).isLeader == s.isLeader
    decreases |events|
  {
    hide Step, NotOurs;
    if events != [] {
      NotOursKeeps(cfg, s, events[0]);
      NotOursRun(cfg, Step(cfg, s, events[0]), events[1..]);
    }
  }

  lemma OursDecides(cfg: Config, s: State, e: Event, l: Lease)
    requires !e.Synced? && Carries(e.obj, l) && Named(cfg, l)
    ensures var t := Step(cfg, s, e);
      && t.current == (if e.Updated? then Some(l) else None)
      && t.isLeader == (e.Updated? && LeadsAt(cfg, l, e.now))
  {
    TargetLaw(cfg, e.obj);
    if e.Updated? { EvaluateLaw(cfg, Some(l), e.now); }
  }

  lemma {:induction false} RunSplits(cfg: Config, s: State, a: seq<Event>, b: seq<Event>)
    ensures Run(cfg, s, a + b) == Run(cfg, Run(cfg, s, a), b)
    decreases |a|
  {
    hide Step;
    if a == [] {
      assert a + b == b;
    } else {
      assert (a + b)[1..] == a[1..] + b;
      RunSplits(cfg, Step(cfg, s, a[0]), a[1..], b);
    }
  }

  /** Over every run the last event about our lease decides: an update makes it current
      and us leader exactly if its fields say so at that clock; a deletion makes neither. */
  lemma LastOfOursDecides(cfg: Config, events: seq<Event>, i: nat, l: Lease)
    requires i < |events| && !events[i].Synced? && Carries(events[i].obj, l) && Named(cfg, l)
    requires forall k :: i < k < |events| ==> NotOurs(cfg, events[k])
    ensures var s, e := Run(cfg, Fresh, events), events[i];
      && s.current == (if e.Updated? then Some(l) else None)
      && s.isLeader == (e.Updated? && LeadsAt(cfg, l, e.now))
  {
    hide Step, NotOurs, Run;
    var e, rest := events[i], events[i + 1..];
    assert events == events[..i] + ([e] + rest);
    RunSplits(cfg, Fresh, events[..i], [e] + rest);
    RunFirst(cfg, Run(cfg, Fresh, events[..i]), e, rest);
    OursDecides(cfg, Run(cfg, Fresh, events[..i]), e, l);
    forall k | 0 <= k < |rest| ensures NotOurs(cfg, rest[k]) { assert rest[k] == events[i + 1 + k]; }
    NotOursRun(cfg, Step(cfg, Run(cfg, Fresh, events[..i]), e), rest);
  }

  lemma RunFirst(cfg: Config, s: State, e: Event, rest: seq<Event>)
    ensures Run(cfg, s, [e] + rest) == Run(cfg, Step(cfg, s, e), rest)
  {
    assert ([e] + rest)[1..] == rest;
  }

  /** Until there is one, no lease is current and we do not lead. */
  lemma NoneOfOurs(cfg: Config, events: seq<Event>)
    requires forall k :: 0 <= k < |events| ==> NotOurs(cfg, events[k])
    ensures Run(cfg, Fresh, events).current == None && !Run(cfg, Fresh, events).isLeader
  {
    NotOursRun(cfg, Fresh, events);
  }

  lemma NamedStep(cfg: Config, s: State, e: Event)
    requires s.current.Some? ==> Named(cfg, s.current.value)
    ensures Step(cfg, s, e).current.Some? ==> Named(cfg, Step(cfg, s, e).current.value)
  {
    hide Evaluate;
  }

  /** Over every run and at every clock, IsLeader() says what the fields of the current
      lease say, and that lease is the configured one. */
  lemma {:induction false} IsLeaderInFields(cfg: Config, s: State, events: seq<Event>, now: int)
    requires s.current.Some? ==> Named(cfg, s.current.value)
    ensures var t := Run(cfg, s, events);
      && (IsLeaderNow(cfg, t, now) <==> t.current.Some? && LeadsAt(cfg, t.current.value, now))
      && (t.current.Some? ==> Named(cfg, t.current.value))
    decreases |events|
  {
    EvaluateLaw(cfg, Run(cfg, s, events).current, now);
    hide Step, LeadsAt, Evaluate, Named;
    if events != [] {
      NamedStep(cfg, s, events[0]);
      IsLeaderInFields(cfg, Step(cfg, s, events[0]), events[1..], now);
    }
  }

  // ---------------------------------------------------------- foreign events

  predicate Foreign(cfg: Config, e: Event) {
    !e.Synced? && Target(cfg, e.obj).None?
  }

  function OwnEvents(cfg: Config, events: seq<Event>): seq<Event> {
    if events == [] then []
    else (if Foreign(cfg, events[0]) then [] else [events[0]]) + OwnEvents(cfg, events[1..])
  }

  /** Alike but for the start callback. */
  predicate SameRole(s: State, t: State) {
    s.current == t.current && s.isLeader == t.isLeader && Roles(s.calls) == Roles(t.calls)
  }

  lemma SameRoleStarted(cfg: Config, s: State, t: State)
    requires SameRole(s, t)
    ensures SameRole(StartedOnce(cfg, s), t) && SameRole(s, StartedOnce(cfg, t))
    ensures SameRole(StartedOnce(cfg, s), StartedOnce(cfg, t))
  {
    hide Roles;
    RolesSnoc(s.calls, Start);
    RolesSnoc(t.calls, Start);
  }

  lemma SameRoleTransition(cfg: Config, s: State, t: State, current: Option<Lease>, leads: bool)
    requires SameRole(s, t)
    ensures SameRole(Transition(cfg, s, current, leads), Transition(cfg, t, current, leads))
  {
    hide Roles;
    var c := if leads then Leader else Release;
    RolesSnoc(s.calls, c);
    RolesSnoc(t.calls, c);
  }

  lemma SameRoleStep(cfg: Config, s: State, t: State, e: Event)
    requires SameRole(s, t)
    ensures SameRole(Step(cfg, s, e), if Foreign(cfg, e) then t else Step(cfg, t, e))
  {
    hide SameRole, StartedOnce, Transition, Target, Evaluate;
    SameRoleStarted(cfg, s, t);
    match e
    case Synced =>
    case Updated(obj, now) =>
      var lease := Target(cfg, obj);
      SameRoleTransition(cfg, StartedOnce(cfg, s), StartedOnce(cfg, t), lease, Evaluate(cfg, lease, now));
    case Deleted(obj) =>
      SameRoleTransition(cfg, s, t, None, false);
  }

  /** Leases of another name or namespace decide nothing: with all of them struck out,
      any run leaves the same lease, the same isLeader and the same sequence of
      leadership callbacks. */
  lemma {:induction false} ForeignIgnored(cfg: Config, s: State, t: State, events: seq<Event>)
    requires SameRole(s, t)
    ensures SameRole(Run(cfg, s, events), Run(cfg, t, OwnEvents(cfg, events)))
    decreases |events|
  {
    hide SameRole, Step, Foreign;
    if events != [] {
      var e, own := events[0], OwnEvents(cfg, events[1..]);
      SameRoleStep(cfg, s, t, e);
      if Foreign(cfg, e) {
        assert OwnEvents(cfg, events) == own;
        ForeignIgnored(cfg, Step(cfg, s, e), t, events[1..]);
      } else {
        assert ([e] + own)[1..] == own;
        ForeignIgnored(cfg, Step(cfg, s, e), Step(cfg, t, e), events[1..]);
      }
    }
  }

  // ------------------------------------------------------------- the detector

  /** The callback a change of leadership is due. */
  function Due(cfg: Config, was: bool, leads: bool): seq<Callback> {
    if was && !leads && cfg.onRelease then [Release]
    else if !was && leads && cfg.onLeader then [Leader]
    else []
  }

  /** The detector as it ships: fields under a lock, callbacks outside it. */
  class Detector {
    const cfg: Config
    var current: Option<Lease>
    var isLeader: bool
    var started: bool
    var calls: seq<Callback>
    ghost var at: int

    ghost function View(): State
      reads this
    {
      State(current, isLeader, started, calls)
    }

    ghost predicate Valid()
      reads this
    {
      CallsInv(cfg, View()) && LeaseInv(cfg, View(), at)
    }

    constructor (cfg: Config)
      ensures this.cfg == cfg && Valid() && View() == Fresh
    {
      this.cfg, current, isLeader, started, calls, at := cfg, None, false, false, [], 0;
    }

    /** Afterwards a registered start callback has run exactly once and first; calling
        again does nothing. */
    method StartCallbackOnce()
      requires Valid()
      modifies this`started, this`calls
      ensures Valid() && View() == StartedOnce(cfg, old(View()))
      ensures cfg.onStart ==> calls != [] && calls[0] == Start && Start !in calls[1..]
      ensures old(Start in calls) || !cfg.onStart ==> calls == old(calls)
    {
      CallsStart(cfg, View());
      if cfg.onStart && !started {
        started, calls := true, calls + [Start];
      }
    }

    /** A leadership callback runs exactly when the verdict on our lease changes. */
    method OnUpdate(obj: Object, now: int)
      requires Valid()
      modifies this
      ensures Valid() && View() == Step(cfg, old(View()), Updated(obj, now))
      ensures at == EvaluatedAt(cfg, old(at), Updated(obj, now))
      ensures Roles(calls) == Roles(old(calls)) + Due(cfg, old(isLeader), isLeader)
      ensures forall l :: Carries(obj, l) && Named(cfg, l) ==> current == Some(l) && isLeader == LeadsAt(cfg, l, now)
    {
      hide Roles, CallsInv;
      ghost var before := View();
      forall l | Carries(obj, l) && Named(cfg, l)
        ensures var t := Step(cfg, before, Updated(obj, now));
          t.current == Some(l) && t.isLeader == LeadsAt(cfg, l, now)
      {
        OursDecides(cfg, before, Updated(obj, now), l);
      }
      StepKeeps(cfg, before, Updated(obj, now), at);
      CallsStart(cfg, before);
      StartCallbackOnce();
      var lease := Target(cfg, obj);
      if lease.None? {
        return;
      }
      var leads := Evaluate(cfg, lease, now);
      var wasLeader := isLeader;
      current, isLeader, at := lease, leads, now;
      RolesSnoc(calls, if leads then Leader else Release);
      if wasLeader && !leads {
        if cfg.onRelease { calls := calls + [Release]; }
      } else if !wasLeader && leads {
        if cfg.onLeader { calls := calls + [Leader]; }
      }
    }

    /** Losing the lease releases, once. */
    method OnDelete(obj: Object)
      requires Valid()
      modifies this`current, this`isLeader, this`calls
      ensures Valid() && View() == Step(cfg, old(View()), Deleted(obj))
      ensures Roles(calls) == Roles(old(calls)) + Due(cfg, old(isLeader), isLeader)
    {
      hide Roles, CallsInv;
      StepKeeps(cfg, View(), Deleted(obj), at);
      if Target(cfg, obj).None? {
        return;
      }
      var wasLeader := isLeader;
      RolesSnoc(calls, Release);
      current, isLeader := None, false;
      if wasLeader && cfg.onRelease { calls := calls + [Release]; }
    }

    /** Whatever the informer delivers and whatever the clocks read, the callbacks
        seen so far alternate, start first, and end as isLeader says. */
    method Drive(events: seq<Event>)
      requires Valid()
      modifies this
      ensures Valid() && View() == Run(cfg, old(View()), events)
      ensures at == Evaluated(cfg, old(at), events)
      ensures cfg.onLeader && cfg.onRelease ==> RolesFollow(calls, isLeader)
      ensures cfg.onStart ==> StartFirst(calls)
    {
      hide Step, CallsInv, LeaseInv, EvaluatedAt, RolesFollow, StartFirst, Roles;
      var i := 0;
      while i < |events|
        invariant 0 <= i <= |events| && Valid()
        invariant Run(cfg, View(), events[i..]) == Run(cfg, old(View()), events)
        invariant Evaluated(cfg, at, events[i..]) == Evaluated(cfg, old(at), events)
      {
        assert events[i..][0] == events[i] && events[i..][1..] == events[i + 1..];
        Handle(events[i]);
        i := i + 1;
      }
      CallsFollow(cfg, View());
    }

    /** IsLeader(), and exactly when it says yes although the last event said no. */
    method IsLeader(now: int) returns (leads: bool)
      requires Valid()
      ensures leads <==> current.Some? && LeadsAt(cfg, current.value, now)
      ensures leads && !isLeader <==>
        current.Some? && HeldByUs(cfg, current.value) && now <= Deadline(cfg, current.value) < at
    {
      hide CallsInv;
      EvaluateLaw(cfg, current, now);
      var snapshot := current;
      leads := Evaluate(cfg, snapshot, now);
    }

    method Handle(e: Event)
      requires Valid()
      modifies this
      ensures Valid() && View() == Step(cfg, old(View()), e) && at == EvaluatedAt(cfg, old(at), e)
    {
      hide CallsInv, LeaseInv, Roles;
      match e
      case Synced => StartCallbackOnce();
      case Updated(obj, now) => OnUpdate(obj, now);
      case Deleted(obj) => OnDelete(obj);
    }
  }
}
