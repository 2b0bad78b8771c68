/** Firewall rules under concurrency: the UDP thread's check, open and schedule steps interleaved with
    timers that fire and with CloseRule goroutines that first run their close command and later, under
    the mutex, forget the rule. One integer clock; commands act on a multiset of open rules. */
module Rules {
  import opened Bytes
  import opened Message
  import opened Access

  /** How the check command answers: not configured, truthfully, or in any way at all. */
  datatype Check = NoCheck | Truthful | Unreliable

  /** `opens`: an open command is configured; without one OpenRule only schedules.
      `closesAll`: one close command removes every copy of the rule, not just one.
      `reliable`: close commands do not fail on a rule that is open; where none is configured, none succeeds.
      `lag`: how late a fired timer may run its close command; None puts no bound. */
  datatype Policy = Policy(check: Check, opens: bool, closesAll: bool, reliable: bool, lag: Option<nat>)

  datatype Timer = Timer(ctx: Context, deadline: int)

  /** A CloseRule goroutine, before (`pending`) or after its close command. */
  datatype Closer = Closer(ctx: Context, deadline: int, commandRun: bool)

  /** Where the UDP thread is inside OpenRule. */
  datatype Opener = Idle | Opening(ctx: Context) | Scheduling(ctx: Context)

  /** `scheduled` and `latest` are history: the last, and the largest, deadline ever set for a key. */
  datatype State = State(
    now: int,
    firewall: multiset<Text>,
    active: map<Text, nat>,
    pending: map<nat, Timer>,
    closing: map<nat, Closer>,
    opener: Opener,
    nextId: nat,
    scheduled: map<Text, int>,
    latest: map<Text, int>)

  function Initial(now: int): State {
    State(now, multiset{}, map[], map[], map[], Idle, 0, map[], map[])
  }

  datatype Step =
    | Tick(to: int)
    | BeginOpen(ctx: Context, exists_: bool)
    | OpenCommand(ok: bool)
    | Schedule
    | Fire(id: nat)
    | CloseCommand(id: nat, ok: bool)
    | Forget(id: nat)

  predicate Open(s: State, key: Text) { s.firewall[key] > 0 }

  predicate CheckMayAnswer(pol: Policy, s: State, key: Text, answer: bool) {
    match pol.check
    case NoCheck => !answer
    case Truthful => answer == Open(s, key)
    case Unreliable => true
  }

  /** Time passes a deadline by at most the lag while its close command is outstanding. */
  predicate MayAdvance(pol: Policy, s: State, to: int) {
    && s.now <= to
    && (pol.lag.Some? ==>
          && (forall id :: id in s.pending ==> to <= s.pending[id].deadline + pol.lag.value)
          && (forall id :: id in s.closing && !s.closing[id].commandRun ==> to <= s.closing[id].deadline + pol.lag.value))
  }

  predicate Enabled(pol: Policy, s: State, step: Step) {
    match step
    case Tick(to) => MayAdvance(pol, s, to)
    case BeginOpen(ctx, answer) => s.opener.Idle? && CheckMayAnswer(pol, s, RuleKey(ctx), answer)
    case OpenCommand(_) => s.opener.Opening?
    case Schedule => s.opener.Scheduling?
    case Fire(id) => id in s.pending && s.pending[id].deadline <= s.now
    case CloseCommand(id, ok) =>
      && id in s.closing && !s.closing[id].commandRun
      && (pol.reliable && Open(s, RuleKey(s.closing[id].ctx)) ==> ok)
    case Forget(id) => id in s.closing && s.closing[id].commandRun
  }

  /** time.AfterFunc: a timeout that is not positive fires at once. */
  function Deadline(now: int, timeout: int): int {
    now + (if timeout > 0 then timeout * NANOS else 0)
  }

  /** The open command's effect on the firewall. */
  function Opened(pol: Policy, firewall: multiset<Text>, key: Text): multiset<Text> {
    if pol.opens then firewall + multiset{key} else firewall
  }

  /** The close command's effect on the firewall. */
  function Closed(pol: Policy, firewall: multiset<Text>, key: Text): (r: multiset<Text>)
    ensures forall k :: k != key ==> r[k] == firewall[k]
    ensures r[key] == if pol.closesAll || firewall[key] == 0 then 0 else firewall[key] - 1
  {
    if pol.closesAll then firewall[key := 0] else firewall - multiset{key}
  }

  function Later(latest: map<Text, int>, key: Text, deadline: int): map<Text, int> {
    latest[key := if key in latest && latest[key] > deadline then latest[key] else deadline]
  }

  /** scheduleClose, under the mutex: stop the timer tracked for this key, if any, and track a new one. */
  function Scheduled(s: State, ctx: Context): State {
    var key := RuleKey(ctx);
    var deadline := Deadline(s.now, ctx.timeout);
    var kept := if key in s.active then s.pending - {s.active[key]} else s.pending;
    s.(pending := kept[s.nextId := Timer(ctx, deadline)],
       active := s.active[key := s.nextId],
       nextId := s.nextId + 1,
       opener := Idle,
       scheduled := s.scheduled[key := deadline],
       latest := Later(s.latest, key, deadline))
  }

  function Apply(pol: Policy, s: State, step: Step): State
    requires Enabled(pol, s, step)
  {
    match step
    case Tick(to) => s.(now := to)
    case BeginOpen(ctx, answer) => s.(opener := if answer then Scheduling(ctx) else Opening(ctx))
    case OpenCommand(ok) =>
      if ok || !pol.opens
      then s.(firewall := Opened(pol, s.firewall, RuleKey(s.opener.ctx)), opener := Scheduling(s.opener.ctx))
      else s.(opener := Idle)
    case Schedule => Scheduled(s, s.opener.ctx)
    case Fire(id) =>
      var t := s.pending[id];
      s.(pending := s.pending - {id}, closing := s.closing[id := Closer(t.ctx, t.deadline, false)])
    case CloseCommand(id, ok) =>
      var c := s.closing[id];
      s.(firewall := if ok then Closed(pol, s.firewall, RuleKey(c.ctx)) else s.firewall,
         closing := s.closing[id := c.(commandRun := true)])
    case Forget(id) =>
      s.(active := s.active - {RuleKey(s.closing[id].ctx)}, closing := s.closing - {id})
  }

  /** A run is a sequence of enabled steps; the last element happens last. */
  predicate ValidRun(pol: Policy, now: int, steps: seq<Step>)
    decreases |steps|, 0
  {
    steps == [] || (ValidRun(pol, now, steps[..|steps| - 1])
                    && Enabled(pol, After(pol, now, steps[..|steps| - 1]), steps[|steps| - 1]))
  }

  function After(pol: Policy, now: int, steps: seq<Step>): State
    requires ValidRun(pol, now, steps)
    decreases |steps|, 1
  {
    if steps == [] then Initial(now)
    else Apply(pol, After(pol, now, steps[..|steps| - 1]), steps[|steps| - 1])
  }

  /** A run followed by one more enabled step. */
  lemma Extend(pol: Policy, now: int, steps: seq<Step>, step: Step) returns (more: seq<Step>)
    requires ValidRun(pol, now, steps) && Enabled(pol, After(pol, now, steps), step)
    ensures more == steps + [step] && ValidRun(pol, now, more)
    ensures After(pol, now, more) == Apply(pol, After(pol, now, steps), step)
  {
    more := steps + [step];
    assert more[..|more| - 1] == steps;
  }

  // ---------- every open rule has a future closer ----------

  predicate PendingCloser(s: State, key: Text) {
    exists id :: id in s.pending && RuleKey(s.pending[id].ctx) == key
  }

  predicate FiredCloser(s: State, key: Text) {
    exists id :: id in s.closing && !s.closing[id].commandRun && RuleKey(s.closing[id].ctx) == key
  }

  predicate BeingScheduled(s: State, key: Text) {
    s.opener.Scheduling? && RuleKey(s.opener.ctx) == key
  }

  predicate WillClose(s: State, key: Text) {
    PendingCloser(s, key) || FiredCloser(s, key) || BeingScheduled(s, key)
  }

  ghost predicate Safe(s: State) {
    forall key :: Open(s, key) ==> WillClose(s, key)
  }

  /** Copies are under control when checks are truthful: only the UDP thread opens, and it looked first. */
  ghost predicate SingleCopies(s: State) {
    && (forall key :: s.firewall[key] <= 1)
    && (s.opener.Opening? ==> !Open(s, RuleKey(s.opener.ctx)))
  }

  /** Identifiers are used once, and a tracked timer belongs to its key. */
  predicate Tracking(s: State) {
    && (forall id :: id in s.pending ==> id < s.nextId)
    && (forall id :: id in s.closing ==> id < s.nextId && id !in s.pending)
    && (forall key :: key in s.active && s.active[key] in s.pending ==> RuleKey(s.pending[s.active[key]].ctx) == key)
    && (forall key :: key in s.active ==> s.active[key] < s.nextId)
  }

  predicate Governed(pol: Policy) { pol.opens ==> pol.reliable && (pol.check.Truthful? || pol.closesAll) }

  ghost predicate Invariant(pol: Policy, s: State) {
    && Tracking(s)
    && Safe(s)
    && (pol.check.Truthful? ==> SingleCopies(s))
    && (!pol.opens ==> s.firewall == multiset{})
  }

  lemma TrackingKept(pol: Policy, s: State, step: Step)
    requires Tracking(s) && Enabled(pol, s, step)
    ensures Tracking(Apply(pol, s, step))
  {
    if step.Schedule? {
      ScheduledTracking(s, s.opener.ctx);
    }
  }

  lemma ScheduledTracking(s: State, ctx: Context)
    requires Tracking(s)
    ensures Tracking(Scheduled(s, ctx))
  {}

  lemma SingleCopiesKept(pol: Policy, s: State, step: Step)
    requires SingleCopies(s) && pol.check.Truthful? && Enabled(pol, s, step)
    ensures SingleCopies(Apply(pol, s, step))
  {}

  /** A pending timer stays, fires, or is replaced by another one for its key. */
  lemma PendingKept(pol: Policy, s: State, step: Step, key: Text)
    requires Tracking(s) && Enabled(pol, s, step) && PendingCloser(s, key)
    ensures WillClose(Apply(pol, s, step), key)
  {
    var s' := Apply(pol, s, step);
    var id :| id in s.pending && RuleKey(s.pending[id].ctx) == key;
    if step == Fire(id) {
      assert id in s'.closing && !s'.closing[id].commandRun;
    } else if step.Schedule? && RuleKey(s.opener.ctx) == key {
      assert s.nextId in s'.pending && RuleKey(s'.pending[s.nextId].ctx) == key;
    } else {
      assert id in s'.pending && s'.pending[id] == s.pending[id];
    }
  }

  /** A step other than the rule's own close command leaves each future closer in place, or passes it on. */
  lemma CloserKept(pol: Policy, s: State, step: Step, key: Text)
    requires Tracking(s) && Enabled(pol, s, step) && WillClose(s, key)
    requires step.CloseCommand? ==> RuleKey(s.closing[step.id].ctx) != key
    ensures WillClose(Apply(pol, s, step), key)
  {
    var s' := Apply(pol, s, step);
    if PendingCloser(s, key) {
      PendingKept(pol, s, step, key);
    } else if BeingScheduled(s, key) {
      if step.Schedule? {
        assert s.nextId in s'.pending && RuleKey(s'.pending[s.nextId].ctx) == key;
      }
    } else {
      var id :| id in s.closing && !s.closing[id].commandRun && RuleKey(s.closing[id].ctx) == key;
      assert id in s'.closing && s'.closing[id] == s.closing[id];
    }
  }

  lemma NeverOpened(pol: Policy, s: State, step: Step)
    requires !pol.opens && s.firewall == multiset{} && Enabled(pol, s, step)
    ensures Apply(pol, s, step).firewall == multiset{}
  {
    forall key ensures Apply(pol, s, step).firewall[key] == 0 {}
  }

  lemma SafeKept(pol: Policy, s: State, step: Step)
    requires Governed(pol) && Invariant(pol, s) && Enabled(pol, s, step)
    ensures Safe(Apply(pol, s, step))
  {
    var s' := Apply(pol, s, step);
    forall key | Open(s', key) ensures WillClose(s', key) {
      if !pol.opens {
        NeverOpened(pol, s, step);
      } else if step == OpenCommand(true) && RuleKey(s.opener.ctx) == key {
        assert BeingScheduled(s', key);
      } else {
        CloserKept(pol, s, step, key);
      }
    }
  }

  lemma {:induction false} InvariantHolds(pol: Policy, now: int, steps: seq<Step>)
    requires Governed(pol) && ValidRun(pol, now, steps)
    ensures Invariant(pol, After(pol, now, steps))
    decreases |steps|
  {
    if steps != [] {
      var before, step := steps[..|steps| - 1], steps[|steps| - 1];
      InvariantHolds(pol, now, before);
      var s := After(pol, now, before);
      TrackingKept(pol, s, step);
      SafeKept(pol, s, step);
      if !pol.opens {
        NeverOpened(pol, s, step);
      }
      if pol.check.Truthful? {
        SingleCopiesKept(pol, s, step);
      }
    }
  }

  /** With a truthful check no interleaving ever has two copies of a rule. */
  lemma NoDuplicateRules(pol: Policy, now: int, steps: seq<Step>, key: Text)
    requires pol.check.Truthful? && ValidRun(pol, now, steps)
    ensures After(pol, now, steps).firewall[key] <= 1
  {
    SingleCopiesHold(pol, now, steps);
  }

  lemma {:induction false} SingleCopiesHold(pol: Policy, now: int, steps: seq<Step>)
    requires pol.check.Truthful? && ValidRun(pol, now, steps)
    ensures SingleCopies(After(pol, now, steps))
    decreases |steps|
  {
    if steps != [] {
      SingleCopiesHold(pol, now, steps[..|steps| - 1]);
      SingleCopiesKept(pol, After(pol, now, steps[..|steps| - 1]), steps[|steps| - 1]);
    }
  }

  /** Once nothing is pending, fired or in progress, the firewall is back to empty. */
  lemma QuiescentMeansClosed(pol: Policy, now: int, steps: seq<Step>)
    requires Governed(pol) && ValidRun(pol, now, steps)
    requires var s := After(pol, now, steps);
      s.pending == map[] && s.opener.Idle? && forall id :: id in s.closing ==> s.closing[id].commandRun
    ensures After(pol, now, steps).firewall == multiset{}
  {
    InvariantHolds(pol, now, steps);
    var s := After(pol, now, steps);
    forall key ensures s.firewall[key] == 0 {
      assert !WillClose(s, key);
    }
  }

  // ---------- no rule outlives its latest deadline ----------

  predicate OnTime(s: State, ctx: Context, deadline: int, lag: nat) {
    var key := RuleKey(ctx);
    key in s.latest && deadline <= s.latest[key] && s.now <= deadline + lag
  }

  predicate Timely(s: State, lag: nat) {
    && (forall id :: id in s.pending ==> OnTime(s, s.pending[id].ctx, s.pending[id].deadline, lag))
    && (forall id :: id in s.closing && !s.closing[id].commandRun ==>
          OnTime(s, s.closing[id].ctx, s.closing[id].deadline, lag))
  }

  lemma TimelyKept(pol: Policy, s: State, step: Step)
    requires pol.lag.Some? && Timely(s, pol.lag.value) && Enabled(pol, s, step)
    ensures Timely(Apply(pol, s, step), pol.lag.value)
  {}

  lemma {:induction false} TimelyHolds(pol: Policy, now: int, steps: seq<Step>)
    requires pol.lag.Some? && ValidRun(pol, now, steps)
    ensures Timely(After(pol, now, steps), pol.lag.value)
    decreases |steps|
  {
    if steps != [] {
      TimelyHolds(pol, now, steps[..|steps| - 1]);
      TimelyKept(pol, After(pol, now, steps[..|steps| - 1]), steps[|steps| - 1]);
    }
  }

  /** When close commands run at most `lag` late, a rule that is open past the latest deadline ever scheduled
      for it (plus the lag) is one whose next deadline is being set at this moment. */
  lemma NoRuleOutlivesItsDeadline(pol: Policy, now: int, steps: seq<Step>, key: Text)
    requires Governed(pol) && pol.lag.Some? && ValidRun(pol, now, steps)
    requires Open(After(pol, now, steps), key)
    ensures var s := After(pol, now, steps);
      BeingScheduled(s, key) || (key in s.latest && s.now <= s.latest[key] + pol.lag.value)
  {
    InvariantHolds(pol, now, steps);
    TimelyHolds(pol, now, steps);
    assert WillClose(After(pol, now, steps), key);
  }

  // ---------- where rules and deadlines come from ----------

  lemma OpenerStep(pol: Policy, s: State, step: Step)
    requires Enabled(pol, s, step) && !Apply(pol, s, step).opener.Idle? && !step.BeginOpen?
    ensures !s.opener.Idle? && s.opener.ctx == Apply(pol, s, step).opener.ctx
  {}

  lemma OpeningStep(pol: Policy, s: State, step: Step, key: Text)
    requires Enabled(pol, s, step) && Open(Apply(pol, s, step), key) && !Open(s, key)
    ensures s.opener.Opening? && RuleKey(s.opener.ctx) == key
  {}

  /** Whatever the UDP thread is opening or scheduling, it was asked to. */
  lemma {:induction false} OpenerWasAsked(pol: Policy, now: int, steps: seq<Step>) returns (j: nat)
    requires ValidRun(pol, now, steps) && !After(pol, now, steps).opener.Idle?
    ensures j < |steps| && steps[j].BeginOpen? && steps[j].ctx == After(pol, now, steps).opener.ctx
    decreases |steps|
  {
    var last := |steps| - 1;
    if steps[last].BeginOpen? {
      j := last;
    } else {
      OpenerStep(pol, After(pol, now, steps[..last]), steps[last]);
      j := OpenerWasAsked(pol, now, steps[..last]);
    }
  }

  /** No rule is open that was never requested. */
  lemma {:induction false} OpenRuleWasRequested(pol: Policy, now: int, steps: seq<Step>, key: Text) returns (j: nat)
    requires ValidRun(pol, now, steps) && Open(After(pol, now, steps), key)
    ensures j < |steps| && steps[j].BeginOpen? && RuleKey(steps[j].ctx) == key
    decreases |steps|
  {
    var before := steps[..|steps| - 1];
    if Open(After(pol, now, before), key) {
      j := OpenRuleWasRequested(pol, now, before, key);
    } else {
      OpeningStep(pol, After(pol, now, before), steps[|steps| - 1], key);
      j := OpenerWasAsked(pol, now, before);
    }
  }

  /** Step `k` of the run schedules the closing of this request. */
  ghost predicate ScheduledAt(pol: Policy, now: int, steps: seq<Step>, k: nat, ctx: Context) {
    && k < |steps| && steps[k].Schedule? && ValidRun(pol, now, steps[..k])
    && After(pol, now, steps[..k]).opener == Scheduling(ctx)
  }

  lemma LatestStep(pol: Policy, s: State, step: Step, key: Text)
    requires Enabled(pol, s, step) && key in Apply(pol, s, step).latest
    requires !(key in s.latest && Apply(pol, s, step).latest[key] == s.latest[key])
    ensures step.Schedule? && RuleKey(s.opener.ctx) == key
    ensures Apply(pol, s, step).latest[key]
         == s.now + (if s.opener.ctx.timeout > 0 then s.opener.ctx.timeout else 0) * 1_000_000_000
  {}

  /** A key's latest deadline was set by one of its own requests: as many seconds after it was scheduled as it asked
      for, and at once if it asked for none. */
  lemma {:induction false} LatestWasScheduled(pol: Policy, now: int, steps: seq<Step>, key: Text)
    returns (k: nat, ctx: Context)
    requires ValidRun(pol, now, steps) && key in After(pol, now, steps).latest
    ensures ScheduledAt(pol, now, steps, k, ctx) && RuleKey(ctx) == key
    ensures After(pol, now, steps).latest[key]
         == After(pol, now, steps[..k]).now + (if ctx.timeout > 0 then ctx.timeout else 0) * 1_000_000_000
    decreases |steps|
  {
    var last := |steps| - 1;
    var s := After(pol, now, steps[..last]);
    if key in s.latest && After(pol, now, steps).latest[key] == s.latest[key] {
      k, ctx := LatestWasScheduled(pol, now, steps[..last], key);
      assert steps[..last][..k] == steps[..k];
    } else {
      LatestStep(pol, s, steps[last], key);
      k, ctx := last, s.opener.ctx;
    }
  }

  /** The timer or the closer with this identifier. */
  predicate Carrying(s: State, id: nat, ctx: Context, deadline: int) {
    || (id in s.pending && s.pending[id] == Timer(ctx, deadline))
    || (id in s.closing && s.closing[id].ctx == ctx && s.closing[id].deadline == deadline)
  }

  /** A step that does not create this timer passes it on with its context and deadline. */
  lemma CarriedStep(pol: Policy, s: State, step: Step, id: nat, ctx: Context, deadline: int)
    requires Enabled(pol, s, step) && Carrying(Apply(pol, s, step), id, ctx, deadline)
    requires !Carrying(s, id, ctx, deadline)
    ensures step.Schedule? && s.opener == Scheduling(ctx)
    ensures deadline == s.now + (if ctx.timeout > 0 then ctx.timeout else 0) * 1_000_000_000
  {}

  /** Every timer, pending or fired, was set by a Schedule step of its own request, and is due exactly as many seconds
      after that step as the request asked for. */
  lemma {:induction false} TimerWasScheduled(pol: Policy, now: int, steps: seq<Step>,
                                             id: nat, ctx: Context, deadline: int) returns (k: nat)
    requires ValidRun(pol, now, steps) && Carrying(After(pol, now, steps), id, ctx, deadline)
    ensures ScheduledAt(pol, now, steps, k, ctx)
    ensures deadline == After(pol, now, steps[..k]).now + (if ctx.timeout > 0 then ctx.timeout else 0) * 1_000_000_000
    decreases |steps|
  {
    var last := |steps| - 1;
    if Carrying(After(pol, now, steps[..last]), id, ctx, deadline) {
      k := TimerWasScheduled(pol, now, steps[..last], id, ctx, deadline);
      assert steps[..last][..k] == steps[..k];
    } else {
      CarriedStep(pol, After(pol, now, steps[..last]), steps[last], id, ctx, deadline);
      k := last;
    }
  }

  lemma ScheduledEarlier(pol: Policy, now: int, steps: seq<Step>, n: nat, k: nat, ctx: Context)
    requires n <= |steps| && ScheduledAt(pol, now, steps[..n], k, ctx)
    ensures ScheduledAt(pol, now, steps, k, ctx) && k < n
  {
    assert steps[..n][..k] == steps[..k];
  }

  lemma {:induction false} PrefixEnabled(pol: Policy, now: int, steps: seq<Step>, n: nat)
    requires ValidRun(pol, now, steps) && n < |steps|
    ensures ValidRun(pol, now, steps[..n]) && Enabled(pol, After(pol, now, steps[..n]), steps[n])
    decreases |steps|
  {
    var last := |steps| - 1;
    if n < last {
      PrefixEnabled(pol, now, steps[..last], n);
      assert steps[..last][..n] == steps[..n];
    }
  }

  /** No timer fires early, in any interleaving: not before its request's timeout has passed since it was scheduled. */
  lemma NeverFiresEarly(pol: Policy, now: int, steps: seq<Step>, n: nat) returns (k: nat)
    requires ValidRun(pol, now, steps) && n < |steps| && steps[n].Fire?
    ensures k < n && ValidRun(pol, now, steps[..n]) && steps[n].id in After(pol, now, steps[..n]).pending
    ensures ScheduledAt(pol, now, steps, k, After(pol, now, steps[..n]).pending[steps[n].id].ctx)
    ensures var timeout := After(pol, now, steps[..n]).pending[steps[n].id].ctx.timeout;
      After(pol, now, steps[..n]).now - After(pol, now, steps[..k]).now
      >= (if timeout > 0 then timeout else 0) * 1_000_000_000
  {
    PrefixEnabled(pol, now, steps, n);
    var s := After(pol, now, steps[..n]);
    var t := s.pending[steps[n].id];
    k := TimerWasScheduled(pol, now, steps[..n], steps[n].id, t.ctx, t.deadline);
    ScheduledEarlier(pol, now, steps, n, k, t.ctx);
    assert steps[..n][..k] == steps[..k];
  }

  /** A timer that is due can fire, run its close command and be forgotten, in every state of every run. */
  lemma DueTimerCloses(pol: Policy, now: int, steps: seq<Step>, id: nat) returns (more: seq<Step>)
    requires ValidRun(pol, now, steps)
    requires id in After(pol, now, steps).pending && After(pol, now, steps).pending[id].deadline <= After(pol, now, steps).now
    ensures ValidRun(pol, now, more) && steps <= more
    ensures var s, s' := After(pol, now, steps), After(pol, now, more);
      var key := RuleKey(s.pending[id].ctx);
      && s'.now == s.now && id !in s'.pending && id !in s'.closing && key !in s'.active
      && s'.firewall[key] == (if pol.closesAll || !Open(s, key) then 0 else s.firewall[key] - 1)
      && forall other :: other != key ==> s'.firewall[other] == s.firewall[other]
  {
    more := Extend(pol, now, steps, Fire(id));
    more := Extend(pol, now, more, CloseCommand(id, true));
    more := Extend(pol, now, more, Forget(id));
  }

  // ---------- shutdown ----------

  /** The timers left when the tracked ones are stopped. */
  function Unstopped(pending: map<nat, Timer>, active: map<Text, nat>): map<nat, Timer> {
    map id | id in pending && (forall key :: key in active ==> active[key] != id) :: pending[id]
  }

  lemma StopOneMore(pending: map<nat, Timer>, active: map<Text, nat>, key: Text, id: nat)
    requires key !in active
    ensures Unstopped(pending, active[key := id]) == Unstopped(pending, active) - {id}
  {
    var active' := active[key := id];
    forall i | i in Unstopped(pending, active) - {id} ensures i in Unstopped(pending, active') {
      assert forall k :: k in active' ==> active'[k] == if k == key then id else active[k];
    }
    forall i | i in Unstopped(pending, active') ensures i in Unstopped(pending, active) - {id} {
      assert active'[key] == id;
      assert forall k :: k in active ==> active'[k] == active[k];
    }
  }

  /** Shutdown: tracked timers are stopped, each tracked rule gets one close command, which fails for the keys
      in `failing`, and tracking is cleared. */
  ghost predicate ShutsDown(pol: Policy, s: State, failing: set<Text>, s': State) {
    && s' == s.(pending := s'.pending, firewall := s'.firewall, active := map[])
    && s'.pending == Unstopped(s.pending, s.active)
    && forall key :: s'.firewall[key]
         == (if key in s.active && key !in failing then Closed(pol, s.firewall, key) else s.firewall)[key]
  }

  /** No rule survives shutdown exactly when every open rule is tracked and its close command succeeds. */
  lemma ShutdownClosesTheTracked(pol: Policy, s: State, failing: set<Text>, s': State)
    requires ShutsDown(pol, s, failing, s')
    requires pol.closesAll || forall key :: s.firewall[key] <= 1
    ensures s'.firewall == multiset{} <==> forall key :: Open(s, key) ==> key in s.active && key !in failing
  {
    if forall key :: Open(s, key) ==> key in s.active && key !in failing {
      forall key ensures s'.firewall[key] == 0 {
        assert Open(s, key) ==> key in s.active;
      }
    } else {
      var key :| Open(s, key) && !(key in s.active && key !in failing);
      assert s'.firewall[key] > 0;
    }
  }
}
