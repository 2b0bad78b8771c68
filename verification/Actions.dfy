/** The rule manager when its operations do not overlap: OpenRule, CloseRule and Shutdown as whole
    operations, their meaning on the concurrent model's state, and the manager object itself. */
module Actions {
  import opened Bytes
  import opened Message
  import opened Access
  import opened Rules

  // ---------- whole operations ----------

  /** OpenRule: the check's answer, and whether the open command succeeds if it is reached. */
  function OpenRuleEffect(pol: Policy, s: State, ctx: Context, exists_: bool, ok: bool): State {
    if exists_ then Scheduled(s, ctx)
    else if ok || !pol.opens then Scheduled(s.(firewall := Opened(pol, s.firewall, RuleKey(ctx))), ctx)
    else s
  }

  /** CloseRule. */
  function CloseRuleEffect(pol: Policy, s: State, ctx: Context, ok: bool): State {
    s.(firewall := if ok then Closed(pol, s.firewall, RuleKey(ctx)) else s.firewall,
       active := s.active - {RuleKey(ctx)})
  }

  datatype Op = Wait(to: int) | Request(ctx: Context, exists_: bool, ok: bool) | Expire(id: nat, ok: bool)

  predicate OpEnabled(pol: Policy, s: State, op: Op) {
    match op
    case Wait(to) => MayAdvance(pol, s, to)
    case Request(ctx, answer, _) => CheckMayAnswer(pol, s, RuleKey(ctx), answer)
    case Expire(id, ok) =>
      && id in s.pending && s.pending[id].deadline <= s.now
      && (pol.reliable && Open(s, RuleKey(s.pending[id].ctx)) ==> ok)
  }

  function ApplyOp(pol: Policy, s: State, op: Op): State
    requires OpEnabled(pol, s, op)
  {
    match op
    case Wait(to) => s.(now := to)
    case Request(ctx, answer, ok) => OpenRuleEffect(pol, s, ctx, answer, ok)
    case Expire(id, ok) => CloseRuleEffect(pol, s.(pending := s.pending - {id}), s.pending[id].ctx, ok)
  }

  predicate SerialRun(pol: Policy, now: int, ops: seq<Op>)
    decreases |ops|, 0
  {
    ops == [] || (SerialRun(pol, now, ops[..|ops| - 1])
                  && OpEnabled(pol, SerialAfter(pol, now, ops[..|ops| - 1]), ops[|ops| - 1]))
  }

  function SerialAfter(pol: Policy, now: int, ops: seq<Op>): State
    requires SerialRun(pol, now, ops)
    decreases |ops|, 1
  {
    if ops == [] then Initial(now)
    else ApplyOp(pol, SerialAfter(pol, now, ops[..|ops| - 1]), ops[|ops| - 1])
  }

  // ---------- what non-overlapping runs keep ----------

  /** Each tracked key has one pending timer, due when last scheduled, and no other timer is pending. */
  ghost predicate TimersExact(s: State) {
    && (forall key :: key in s.active ==>
          && s.active[key] in s.pending
          && RuleKey(s.pending[s.active[key]].ctx) == key
          && key in s.scheduled && s.pending[s.active[key]].deadline == s.scheduled[key])
    && (forall id :: id in s.pending ==>
          && id < s.nextId
          && RuleKey(s.pending[id].ctx) in s.active && s.active[RuleKey(s.pending[id].ctx)] == id)
  }

  /** Tracked keys are the open rules, timers are exact, and nothing is in progress. */
  ghost predicate Exact(s: State) {
    && s.opener.Idle? && s.closing == map[]
    && (forall key :: key in s.active <==> Open(s, key))
    && TimersExact(s)
  }

  predicate Orderly(pol: Policy) {
    pol.opens && pol.reliable && (pol.check.Truthful? || (pol.check.NoCheck? && pol.closesAll))
  }

  ghost predicate ExactUnder(pol: Policy, s: State) {
    Exact(s) && (pol.check.Truthful? ==> forall key :: s.firewall[key] <= 1)
  }

  lemma ScheduledTimersExact(s: State, ctx: Context)
    requires TimersExact(s)
    ensures TimersExact(Scheduled(s, ctx))
  {}

  lemma RequestKeepsExact(pol: Policy, s: State, ctx: Context, answer: bool, ok: bool)
    requires Orderly(pol) && ExactUnder(pol, s) && CheckMayAnswer(pol, s, RuleKey(ctx), answer)
    ensures ExactUnder(pol, OpenRuleEffect(pol, s, ctx, answer, ok))
  {
    if answer || ok {
      var base := if answer then s else s.(firewall := Opened(pol, s.firewall, RuleKey(ctx)));
      ScheduledTimersExact(base, ctx);
    }
  }

  lemma ExpireKeepsExact(pol: Policy, s: State, id: nat, ok: bool)
    requires Orderly(pol) && ExactUnder(pol, s) && OpEnabled(pol, s, Expire(id, ok))
    ensures ExactUnder(pol, ApplyOp(pol, s, Expire(id, ok)))
  {
    ExpiredTimersExact(s, id);
    assert Open(s, RuleKey(s.pending[id].ctx));
  }

  lemma ExpiredTimersExact(s: State, id: nat)
    requires TimersExact(s) && id in s.pending
    ensures TimersExact(s.(pending := s.pending - {id}, active := s.active - {RuleKey(s.pending[id].ctx)}))
  {}

  lemma {:induction false} SerialRunsExact(pol: Policy, now: int, ops: seq<Op>)
    requires Orderly(pol) && SerialRun(pol, now, ops)
    ensures ExactUnder(pol, SerialAfter(pol, now, ops))
    decreases |ops|
  {
    if ops != [] {
      var before, op := ops[..|ops| - 1], ops[|ops| - 1];
      SerialRunsExact(pol, now, before);
      var s := SerialAfter(pol, now, before);
      match op
      case Wait(_) =>
      case Request(ctx, answer, ok) => RequestKeepsExact(pol, s, ctx, answer, ok);
      case Expire(id, ok) => ExpireKeepsExact(pol, s, id, ok);
    }
  }

  /** The key's last successful request, and when it was made. */
  function LastRequest(pol: Policy, now: int, ops: seq<Op>, key: Text): Option<(int, Context)>
    requires SerialRun(pol, now, ops)
    decreases |ops|
  {
    if ops == [] then None
    else
      var before, op := ops[..|ops| - 1], ops[|ops| - 1];
      if op.Request? && (op.exists_ || op.ok || !pol.opens) && RuleKey(op.ctx) == key
      then Some((SerialAfter(pol, now, before).now, op.ctx))
      else LastRequest(pol, now, before, key)
  }

  lemma OpSchedules(pol: Policy, s: State, op: Op, key: Text)
    requires OpEnabled(pol, s, op)
    ensures var s' := ApplyOp(pol, s, op);
      if op.Request? && (op.exists_ || op.ok || !pol.opens) && RuleKey(op.ctx) == key
      then key in s'.scheduled
        && s'.scheduled[key] == s.now + (if op.ctx.timeout > 0 then op.ctx.timeout else 0) * 1_000_000_000
      else (key in s'.scheduled <==> key in s.scheduled) && (key in s.scheduled ==> s'.scheduled[key] == s.scheduled[key])
  {}

  lemma {:induction false} ScheduledIsLastRequest(pol: Policy, now: int, ops: seq<Op>, key: Text)
    requires SerialRun(pol, now, ops)
    ensures var s := SerialAfter(pol, now, ops);
      match LastRequest(pol, now, ops, key)
      case None => key !in s.scheduled
      case Some((time, ctx)) =>
        && key in s.scheduled
        && s.scheduled[key] == time + (if ctx.timeout > 0 then ctx.timeout else 0) * 1_000_000_000
    decreases |ops|
  {
    if ops != [] {
      ScheduledIsLastRequest(pol, now, ops[..|ops| - 1], key);
      OpSchedules(pol, SerialAfter(pol, now, ops[..|ops| - 1]), ops[|ops| - 1], key);
    }
  }

  /** In every orderly run an open rule has exactly one pending timer, and it is due as many seconds after the rule's
      last successful request as that request asked for. */
  lemma OneTimerPerOpenRule(pol: Policy, now: int, ops: seq<Op>, key: Text) returns (id: nat)
    requires Orderly(pol) && SerialRun(pol, now, ops) && Open(SerialAfter(pol, now, ops), key)
    ensures var s := SerialAfter(pol, now, ops);
      && id in s.pending && LastRequest(pol, now, ops, key).Some?
      && (var (time, ctx) := LastRequest(pol, now, ops, key).value;
          s.pending[id].deadline == time + (if ctx.timeout > 0 then ctx.timeout else 0) * 1_000_000_000)
      && forall i :: i in s.pending && RuleKey(s.pending[i].ctx) == key ==> i == id
  {
    SerialRunsExact(pol, now, ops);
    ScheduledIsLastRequest(pol, now, ops, key);
    id := SerialAfter(pol, now, ops).active[key];
  }

  ghost predicate TracksExactly(pol: Policy) {
    forall now, ops, key :: SerialRun(pol, now, ops) ==>
      (key in SerialAfter(pol, now, ops).active <==> Open(SerialAfter(pol, now, ops), key))
  }

  lemma ExtendSerial(pol: Policy, now: int, ops: seq<Op>, op: Op) returns (more: seq<Op>)
    requires SerialRun(pol, now, ops) && OpEnabled(pol, SerialAfter(pol, now, ops), op)
    ensures SerialRun(pol, now, more) && SerialAfter(pol, now, more) == ApplyOp(pol, SerialAfter(pol, now, ops), op)
  {
    more := ops + [op];
    assert more[..|more| - 1] == ops;
  }

  /** Outside those settings tracking fails even without concurrency. */
  lemma DisorderlyRun(pol: Policy, ctx: Context) returns (ops: seq<Op>)
    requires !Orderly(pol) && ctx.timeout == 0
    ensures SerialRun(pol, 0, ops)
    ensures var s := SerialAfter(pol, 0, ops); !(RuleKey(ctx) in s.active <==> Open(s, RuleKey(ctx)))
  {
    if pol.check.Unreliable? {
      ops := ExtendSerial(pol, 0, [], Request(ctx, true, true));
    } else {
      ops := ExtendSerial(pol, 0, [], Request(ctx, false, true));
      if !pol.opens {
        assert RuleKey(ctx) in SerialAfter(pol, 0, ops).active;
      } else if !pol.reliable {
        ops := ExtendSerial(pol, 0, ops, Expire(0, false));
      } else {
        ops := ExtendSerial(pol, 0, ops, Request(ctx, false, true));
        ops := ExtendSerial(pol, 0, ops, Expire(1, true));
      }
    }
  }

  /** Tracked keys equal open rules in every non-overlapping run exactly under these settings. */
  lemma TracksExactlyWhen(pol: Policy)
    ensures TracksExactly(pol) <==> Orderly(pol)
  {
    if Orderly(pol) {
      forall now, ops | SerialRun(pol, now, ops) ensures Exact(SerialAfter(pol, now, ops)) {
        SerialRunsExact(pol, now, ops);
      }
    } else {
      var ctx := Context([], [], [], [], 0, 0, [], []);
      var ops := DisorderlyRun(pol, ctx);
      assert !(RuleKey(ctx) in SerialAfter(pol, 0, ops).active <==> Open(SerialAfter(pol, 0, ops), RuleKey(ctx)));
    }
  }

  /** From an exact state Shutdown leaves no rule open and no timer pending. */
  lemma ShutdownLeavesNothing(pol: Policy, s: State, s': State)
    requires ExactUnder(pol, s) && (pol.check.Truthful? || pol.closesAll) && ShutsDown(pol, s, {}, s')
    ensures s'.firewall == multiset{} && s'.pending == map[]
  {
    ShutdownClosesTheTracked(pol, s, {}, s');
    forall id ensures id !in s'.pending {
      if id in s.pending {
        assert s.active[RuleKey(s.pending[id].ctx)] == id;
      }
    }
  }

  // ---------- whole operations are sequences of steps ----------

  /** OpenRule run without interruption is its check, open and schedule steps. */
  lemma OpenRuleIsItsSteps(pol: Policy, s: State, ctx: Context, answer: bool, ok: bool)
    requires s.opener.Idle? && CheckMayAnswer(pol, s, RuleKey(ctx), answer)
    ensures var s1 := Apply(pol, s, BeginOpen(ctx, answer));
      if answer then Apply(pol, s1, Schedule) == OpenRuleEffect(pol, s, ctx, answer, ok)
      else if pol.opens && !ok then Apply(pol, s1, OpenCommand(false)) == OpenRuleEffect(pol, s, ctx, answer, ok)
      else Apply(pol, Apply(pol, s1, OpenCommand(ok)), Schedule) == OpenRuleEffect(pol, s, ctx, answer, ok)
  {}

  /** CloseRule run without interruption is firing, the close command and the delete. */
  lemma CloseRuleIsItsSteps(pol: Policy, s: State, id: nat, ok: bool)
    requires s.closing == map[] && OpEnabled(pol, s, Expire(id, ok))
    ensures Apply(pol, Apply(pol, Apply(pol, s, Fire(id)), CloseCommand(id, ok)), Forget(id))
         == ApplyOp(pol, s, Expire(id, ok))
  {}

  lemma {:induction false} SerialIdle(pol: Policy, now: int, ops: seq<Op>)
    requires SerialRun(pol, now, ops)
    ensures var s := SerialAfter(pol, now, ops); s.opener.Idle? && s.closing == map[]
    decreases |ops|
  {
    if ops != [] {
      SerialIdle(pol, now, ops[..|ops| - 1]);
    }
  }

  /** Every run of whole operations is one of the interleavings, and ends in the same state. */
  lemma {:induction false} SerialIsInterleaved(pol: Policy, now: int, ops: seq<Op>) returns (steps: seq<Step>)
    requires SerialRun(pol, now, ops)
    ensures ValidRun(pol, now, steps) && After(pol, now, steps) == SerialAfter(pol, now, ops)
    decreases |ops|
  {
    if ops == [] {
      steps := [];
      return;
    }
    var before, op := ops[..|ops| - 1], ops[|ops| - 1];
    SerialIdle(pol, now, before);
    steps := SerialIsInterleaved(pol, now, before);
    steps := RunOp(pol, now, steps, op);
  }

  lemma RunRequest(pol: Policy, now: int, steps: seq<Step>, ctx: Context, answer: bool, ok: bool)
    returns (more: seq<Step>)
    requires ValidRun(pol, now, steps)
    requires var s := After(pol, now, steps); s.opener.Idle? && CheckMayAnswer(pol, s, RuleKey(ctx), answer)
    ensures ValidRun(pol, now, more)
    ensures After(pol, now, more) == OpenRuleEffect(pol, After(pol, now, steps), ctx, answer, ok)
  {
    OpenRuleIsItsSteps(pol, After(pol, now, steps), ctx, answer, ok);
    more := Extend(pol, now, steps, BeginOpen(ctx, answer));
    if !answer {
      more := Extend(pol, now, more, OpenCommand(ok));
    }
    if answer || ok || !pol.opens {
      more := Extend(pol, now, more, Schedule);
    }
  }

  lemma RunExpire(pol: Policy, now: int, steps: seq<Step>, id: nat, ok: bool) returns (more: seq<Step>)
    requires ValidRun(pol, now, steps)
    requires var s := After(pol, now, steps); s.closing == map[] && OpEnabled(pol, s, Expire(id, ok))
    ensures ValidRun(pol, now, more) && After(pol, now, more) == ApplyOp(pol, After(pol, now, steps), Expire(id, ok))
  {
    CloseRuleIsItsSteps(pol, After(pol, now, steps), id, ok);
    more := Extend(pol, now, steps, Fire(id));
    more := Extend(pol, now, more, CloseCommand(id, ok));
    more := Extend(pol, now, more, Forget(id));
  }

  lemma RunOp(pol: Policy, now: int, steps: seq<Step>, op: Op) returns (more: seq<Step>)
    requires ValidRun(pol, now, steps)
    requires var s := After(pol, now, steps); s.opener.Idle? && s.closing == map[] && OpEnabled(pol, s, op)
    ensures ValidRun(pol, now, more) && After(pol, now, more) == ApplyOp(pol, After(pol, now, steps), op)
  {
    match op
    case Wait(to) => more := Extend(pol, now, steps, Tick(to));
    case Request(ctx, answer, ok) => more := RunRequest(pol, now, steps, ctx, answer, ok);
    case Expire(id, ok) => more := RunExpire(pol, now, steps, id, ok);
  }

  // ---------- the manager ----------

  datatype ActiveRule = ActiveRule(ctx: Context, timer: nat)

  function Timers(rules: map<Text, ActiveRule>): map<Text, nat> { map k | k in rules :: rules[k].timer }

  lemma TimersUpdate(rules: map<Text, ActiveRule>, key: Text, r: ActiveRule)
    ensures Timers(rules[key := r]) == Timers(rules)[key := r.timer]
    ensures Timers(rules - {key}) == Timers(rules) - {key}
  {}

  /** The manager's map, and the host it acts on: clock, timers and firewall. */
  class ActionsManager {
    var activeRules: map<Text, ActiveRule>
    const pol: Policy
    var now: int
    var pending: map<nat, Timer>
    var nextId: nat
    var firewall: multiset<Text>
    ghost var scheduled: map<Text, int>
    ghost var latest: map<Text, int>

    ghost function Abs(): State
      reads this
    {
      State(now, firewall, Timers(activeRules), pending, map[], Idle, nextId, scheduled, latest)
    }

    /** Every rule is tracked under its own key. */
    ghost predicate Valid()
      reads this
    {
      forall k :: k in activeRules ==> RuleKey(activeRules[k].ctx) == k
    }

    constructor (pol: Policy, now: int)
      ensures Valid() && this.pol == pol && Abs() == Initial(now)
    {
      activeRules := map[];
      this.pol := pol;
      this.now := now;
      pending := map[];
      nextId := 0;
      firewall := multiset{};
      scheduled := map[];
      latest := map[];
    }

    /** Time passes between operations. */
    method Wait(to: int)
      requires Valid() && MayAdvance(pol, Abs(), to)
      modifies this`now
      ensures Valid() && Abs() == old(Abs()).(now := to)
    {
      now := to;
    }

    /** What scheduleClose leaves behind, field by field. */
    lemma ScheduledFields(s: State, s': State, ctx: Context, kept: map<nat, Timer>)
      requires kept == if RuleKey(ctx) in s.active then s.pending - {s.active[RuleKey(ctx)]} else s.pending
      requires s'.now == s.now && s'.firewall == s.firewall && s'.closing == s.closing && s'.opener == Idle
      requires s'.pending == kept[s.nextId := Timer(ctx, Deadline(s.now, ctx.timeout))]
      requires s'.active == s.active[RuleKey(ctx) := s.nextId] && s'.nextId == s.nextId + 1
      requires s'.scheduled == s.scheduled[RuleKey(ctx) := Deadline(s.now, ctx.timeout)]
      requires s'.latest == Later(s.latest, RuleKey(ctx), Deadline(s.now, ctx.timeout))
      ensures s' == Scheduled(s, ctx)
    {}

    method ScheduleClose(ruleKey: Text, ctx: Context)
      requires Valid() && ruleKey == RuleKey(ctx)
      modifies this`activeRules, this`pending, this`nextId, this`scheduled, this`latest
      ensures Valid() && Abs() == Scheduled(old(Abs()), ctx)
    {
      ghost var before := Abs();
      var kept := pending;
      if ruleKey in activeRules {
        var existing := activeRules[ruleKey];
        kept := kept - {existing.timer};
      }
      var timer := nextId;
      TimersUpdate(activeRules, ruleKey, ActiveRule(ctx, timer));
      var timeout := ctx.timeout * NANOS;
      var deadline := now + (if timeout > 0 then timeout else 0);
      assert deadline == Deadline(before.now, ctx.timeout);
      pending := kept[timer := Timer(ctx, deadline)];
      nextId := nextId + 1;
      activeRules := activeRules[ruleKey := ActiveRule(ctx, timer)];
      scheduled := scheduled[ruleKey := deadline];
      latest := Later(latest, ruleKey, deadline);
      ScheduledFields(before, Abs(), ctx, kept);
    }

    /** OpenRule; `exists_` is the check's answer (false when none is configured), `ok` the open command's. */
    method OpenRule(ctx: Context, exists_: bool, ok: bool) returns (failed: bool)
      requires Valid()
      modifies this
      ensures Valid() && Abs() == OpenRuleEffect(pol, old(Abs()), ctx, exists_, ok)
      ensures failed == (!exists_ && pol.opens && !ok)
      ensures Orderly(pol) && old(ExactUnder(pol, Abs())) && old(CheckMayAnswer(pol, Abs(), RuleKey(ctx), exists_))
        ==> ExactUnder(pol, Abs())
    {
      ghost var before := Abs();
      if Orderly(pol) && ExactUnder(pol, before) && CheckMayAnswer(pol, before, RuleKey(ctx), exists_) {
        RequestKeepsExact(pol, before, ctx, exists_, ok);
      }
      var ruleKey := RuleKey(ctx);
      if exists_ {
        ScheduleClose(ruleKey, ctx);
        return false;
      }
      if pol.opens {
        if !ok {
          return true;
        }
        firewall := firewall + multiset{ruleKey};
      }
      assert Abs() == before.(firewall := Opened(pol, before.firewall, ruleKey));
      ScheduleClose(ruleKey, ctx);
      return false;
    }

    method CloseRule(ctx: Context, ok: bool)
      requires Valid()
      modifies this`firewall, this`activeRules
      ensures Valid() && Abs() == CloseRuleEffect(pol, old(Abs()), ctx, ok)
    {
      ghost var before := Abs();
      var ruleKey := RuleKey(ctx);
      if ok {
        firewall := Closed(pol, firewall, ruleKey);
      }
      activeRules := activeRules - {ruleKey};
      TimersUpdate(old(activeRules), ruleKey, ActiveRule(ctx, 0));
    }

    /** A timer fires and its callback runs to completion. */
    method Expire(id: nat, ok: bool)
      requires Valid() && OpEnabled(pol, Abs(), Op.Expire(id, ok))
      modifies this
      ensures Valid() && Abs() == ApplyOp(pol, old(Abs()), Op.Expire(id, ok))
      ensures Orderly(pol) && old(ExactUnder(pol, Abs())) ==> ExactUnder(pol, Abs())
    {
      ghost var before := Abs();
      if Orderly(pol) && ExactUnder(pol, before) {
        ExpireKeepsExact(pol, before, id, ok);
      }
      var ctx := pending[id].ctx;
      pending := pending - {id};
      assert Abs() == before.(pending := before.pending - {id});
      CloseRule(ctx, ok);
    }

    /** Shutdown: copy the map and stop the timers, clear the map, close rule by rule, then run the shutdown command;
        `command` is what that does to the firewall, the identity where none is configured. */
    method Shutdown(failing: set<Text>, command: multiset<Text> -> multiset<Text>) returns (ghost closed: State)
      requires Valid()
      modifies this
      ensures Valid() && ShutsDown(pol, old(Abs()), failing, closed)
      ensures Abs() == closed.(firewall := command(closed.firewall))
    {
      ghost var before := Abs();
      var rules := StopTimers();
      activeRules := map[];
      CloseEach(rules, failing);
      assert Abs() == before.(pending := pending, firewall := firewall, active := map[]);
      closed := Abs();
      firewall := command(firewall);
    }

    method StopTimers() returns (rules: map<Text, ActiveRule>)
      modifies this`pending
      ensures rules == activeRules
      ensures pending == Unstopped(old(pending), Timers(activeRules))
    {
      rules := map[];
      ghost var before := pending;
      var todo := activeRules.Keys;
      while todo != {}
        invariant todo <= activeRules.Keys
        invariant rules == map k | k in activeRules && k !in todo :: activeRules[k]
        invariant pending == Unstopped(before, Timers(rules))
        decreases todo
      {
        var k :| k in todo;
        todo := todo - {k};
        StopOneMore(before, Timers(rules), k, activeRules[k].timer);
        TimersUpdate(rules, k, activeRules[k]);
        rules := rules[k := activeRules[k]];
        pending := pending - {activeRules[k].timer};
      }
      assert rules == activeRules;
    }

    /** Each of these keys had one close command run, which failed for those in `failing`. */
    ghost predicate CloseEffect(before: multiset<Text>, keys: set<Text>, failing: set<Text>, after: multiset<Text>) {
      forall k :: after[k] == (if k in keys && k !in failing then Closed(pol, before, k) else before)[k]
    }

    lemma CloseOneMore(before: multiset<Text>, keys: set<Text>, failing: set<Text>, after: multiset<Text>, key: Text)
      requires CloseEffect(before, keys, failing, after) && key !in keys
      ensures CloseEffect(before, keys + {key}, failing, if key in failing then after else Closed(pol, after, key))
    {}

    method CloseEach(rules: map<Text, ActiveRule>, failing: set<Text>)
      requires forall k :: k in rules ==> RuleKey(rules[k].ctx) == k
      modifies this`firewall
      ensures CloseEffect(old(firewall), rules.Keys, failing, firewall)
    {
      ghost var before := firewall;
      ghost var closed: set<Text> := {};
      var todo := rules.Keys;
      while todo != {}
        invariant todo !! closed && todo + closed == rules.Keys
        invariant CloseEffect(before, closed, failing, firewall)
        decreases todo
      {
        var ruleKey :| ruleKey in todo;
        CloseOneMore(before, closed, failing, firewall, ruleKey);
        todo, closed := todo - {ruleKey}, closed + {ruleKey};
        if ruleKey !in failing {
          firewall := Closed(pol, firewall, RuleKey(rules[ruleKey].ctx));
        }
      }
    }
  }
}
