/** The daemon as a whole: packets arriving one after the other on the UDP thread, and between and during
    their handling any interleaving of timers and CloseRule goroutines. */
module ServerRuns {
  import opened Bytes
  import opened Crypto
  import opened Access
  import opened Replay
  import opened Rules
  import opened Server
  import opened Actions
  import Malleable
  import ReplayRuns
  import WireLength

  // ---------- the machine ----------

  /** What a packet does to the replay history, and the rule it asks for, if it gets that far. */
  datatype Daemon = Daemon(
    record: (Log, Packet) -> Log, request: (Log, Packet) -> Option<Context>, pol: Policy, start: int)

  /** `lastRead` is the last clock reading made for the previous packet. */
  datatype ServerState = ServerState(log: Log, lastRead: int, rules: State)

  /** Arrive: a packet is judged, and if it opens a rule the check command answers. Internal: every other
      step of the rule manager. */
  datatype ServerStep = Arrive(pkt: Packet, exists_: bool) | Internal(step: Step)

  predicate StepEnabled(d: Daemon, s: ServerState, st: ServerStep) {
    match st
    case Arrive(pkt, answer) =>
      && s.rules.opener.Idle?
      && s.lastRead <= pkt.ageNow && Ordered(pkt) && pkt.addNow <= s.rules.now
      && (var r := d.request(s.log, pkt); r.Some? ==> CheckMayAnswer(d.pol, s.rules, RuleKey(r.value), answer))
    case Internal(step) => !step.BeginOpen? && Enabled(d.pol, s.rules, step)
  }

  /** The rule manager's share of a step. */
  function RuleStep(d: Daemon, s: ServerState, st: ServerStep): Option<Step> {
    match st
    case Arrive(pkt, answer) =>
      var r := d.request(s.log, pkt);
      if r.Some? then Some(BeginOpen(r.value, answer)) else None
    case Internal(step) => Some(step)
  }

  function Next(d: Daemon, s: ServerState, st: ServerStep): ServerState
    requires StepEnabled(d, s, st)
  {
    RuleStepEnabled(d, s, st);
    var r := RuleStep(d, s, st);
    var rules := if r.Some? then Apply(d.pol, s.rules, r.value) else s.rules;
    match st
    case Arrive(pkt, _) => ServerState(d.record(s.log, pkt), pkt.addNow, rules)
    case Internal(_) => s.(rules := rules)
  }

  lemma RuleStepEnabled(d: Daemon, s: ServerState, st: ServerStep)
    requires StepEnabled(d, s, st)
    ensures RuleStep(d, s, st).Some? ==> Enabled(d.pol, s.rules, RuleStep(d, s, st).value)
  {}

  predicate Run(d: Daemon, steps: seq<ServerStep>)
    decreases |steps|, 0
  {
    steps == [] || (Run(d, steps[..|steps| - 1])
                    && StepEnabled(d, At(d, steps[..|steps| - 1]), steps[|steps| - 1]))
  }

  function At(d: Daemon, steps: seq<ServerStep>): ServerState
    requires Run(d, steps)
    decreases |steps|, 1
  {
    if steps == [] then ServerState([], d.start, Initial(d.start))
    else Next(d, At(d, steps[..|steps| - 1]), steps[|steps| - 1])
  }

  lemma {:induction false} PrefixRuns(d: Daemon, steps: seq<ServerStep>, k: nat)
    requires Run(d, steps) && k <= |steps|
    ensures Run(d, steps[..k])
    ensures k < |steps| ==> StepEnabled(d, At(d, steps[..k]), steps[k])
    decreases |steps|
  {
    if k == |steps| {
      assert steps[..k] == steps;
    } else {
      var last := |steps| - 1;
      if k < last {
        PrefixRuns(d, steps[..last], k);
        assert steps[..last][..k] == steps[..k];
      }
    }
  }

  // ---------- its rule manager is the rule machine ----------

  function RuleSteps(d: Daemon, steps: seq<ServerStep>): seq<Step>
    requires Run(d, steps)
    decreases |steps|
  {
    if steps == [] then []
    else
      var before := steps[..|steps| - 1];
      var r := RuleStep(d, At(d, before), steps[|steps| - 1]);
      RuleSteps(d, before) + if r.Some? then [r.value] else []
  }

  /** Every run of the daemon is, for the rule manager, one of its interleavings. */
  lemma {:induction false} RulesOfARun(d: Daemon, steps: seq<ServerStep>)
    requires Run(d, steps)
    ensures ValidRun(d.pol, d.start, RuleSteps(d, steps))
    ensures After(d.pol, d.start, RuleSteps(d, steps)) == At(d, steps).rules
    decreases |steps|
  {
    if steps != [] {
      var before := steps[..|steps| - 1];
      RulesOfARun(d, before);
      var r := RuleStep(d, At(d, before), steps[|steps| - 1]);
      if r.Some? {
        var more := Extend(d.pol, d.start, RuleSteps(d, before), r.value);
      } else {
        assert RuleSteps(d, before) + [] == RuleSteps(d, before);
      }
    }
  }

  /** Packet `k` of the run asks for this rule. */
  ghost predicate AsksFor(d: Daemon, steps: seq<ServerStep>, k: nat, ctx: Context) {
    && k < |steps| && steps[k].Arrive? && Run(d, steps[..k])
    && d.request(At(d, steps[..k]).log, steps[k].pkt) == Some(ctx)
  }

  lemma {:induction false} BeginningsAreAsked(d: Daemon, steps: seq<ServerStep>, j: nat) returns (k: nat)
    requires Run(d, steps) && j < |RuleSteps(d, steps)| && RuleSteps(d, steps)[j].BeginOpen?
    ensures AsksFor(d, steps, k, RuleSteps(d, steps)[j].ctx)
    decreases |steps|
  {
    var last := |steps| - 1;
    if j < |RuleSteps(d, steps[..last])| {
      k := BeginningsAreAsked(d, steps[..last], j);
      assert steps[..last][..k] == steps[..k];
    } else {
      k := last;
    }
  }

  lemma OpenRuleWasAskedFor(d: Daemon, steps: seq<ServerStep>, key: Text) returns (k: nat, ctx: Context)
    requires Run(d, steps) && Open(At(d, steps).rules, key)
    ensures AsksFor(d, steps, k, ctx) && RuleKey(ctx) == key
  {
    RulesOfARun(d, steps);
    var j := OpenRuleWasRequested(d.pol, d.start, RuleSteps(d, steps), key);
    ctx := RuleSteps(d, steps)[j].ctx;
    k := BeginningsAreAsked(d, steps, j);
  }

  /** When close commands run at most `lag` late, a rule that is open and not just being scheduled goes back to a
      packet that asked for it, and the time since its closing was scheduled is within what it asked for. */
  lemma OpenRuleIsRecent(d: Daemon, steps: seq<ServerStep>, key: Text) returns (k: nat, j: nat, ctx: Context)
    requires Run(d, steps) && Governed(d.pol) && d.pol.lag.Some?
    requires Open(At(d, steps).rules, key) && !BeingScheduled(At(d, steps).rules, key)
    ensures AsksFor(d, steps, k, ctx) && RuleKey(ctx) == key
    ensures ScheduledAt(d.pol, d.start, RuleSteps(d, steps), j, ctx)
    ensures At(d, steps).rules.now - After(d.pol, d.start, RuleSteps(d, steps)[..j]).now
         <= (if ctx.timeout > 0 then ctx.timeout else 0) * 1_000_000_000 + d.pol.lag.value
  {
    var ruleSteps := RuleSteps(d, steps);
    RulesOfARun(d, steps);
    NoRuleOutlivesItsDeadline(d.pol, d.start, ruleSteps, key);
    j, ctx := LatestWasScheduled(d.pol, d.start, ruleSteps, key);
    var b := OpenerWasAsked(d.pol, d.start, ruleSteps[..j]);
    k := BeginningsAreAsked(d, steps, b);
  }

  // ---------- the packets of a run ----------

  function Packets(steps: seq<ServerStep>): seq<Packet>
    decreases |steps|
  {
    if steps == [] then []
    else
      var last := steps[|steps| - 1];
      Packets(steps[..|steps| - 1]) + if last.Arrive? then [last.pkt] else []
  }

  lemma {:induction false} PacketsClocked(d: Daemon, steps: seq<ServerStep>)
    requires Run(d, steps)
    ensures ReplayRuns.Clocked(Packets(steps))
    ensures forall i :: 0 <= i < |Packets(steps)| ==> Packets(steps)[i].addNow <= At(d, steps).lastRead
    decreases |steps|
  {
    if steps != [] {
      PacketsClocked(d, steps[..|steps| - 1]);
    }
  }

  lemma {:induction false} HistoryPrefix(f: (Log, Packet) -> Log, pkts: seq<Packet>, more: seq<Packet>, n: nat)
    requires n <= |pkts|
    ensures ReplayRuns.History(f, pkts + more, n) == ReplayRuns.History(f, pkts, n)
  {
    if n > 0 {
      HistoryPrefix(f, pkts, more, n - 1);
    }
  }

  /** The replay history depends on the packets alone. */
  lemma {:induction false} LogOfARun(d: Daemon, steps: seq<ServerStep>)
    requires Run(d, steps)
    ensures At(d, steps).log == ReplayRuns.History(d.record, Packets(steps), |Packets(steps)|)
    decreases |steps|
  {
    if steps != [] {
      var before, last := steps[..|steps| - 1], steps[|steps| - 1];
      LogOfARun(d, before);
      if last.Arrive? {
        HistoryPrefix(d.record, Packets(before), [last.pkt], |Packets(before)|);
      } else {
        assert Packets(steps) == Packets(before);
      }
    }
  }

  // ---------- the daemon that runs processSPAPacket ----------

  function RequestedRule(o: Outcome): Option<Context> {
    if o.OpensRule? then Some(o.ctx) else None
  }

  ghost function DaemonOf(setup: Setup, pol: Policy, start: int): Daemon
    requires setup.c.Valid()
  {
    Daemon(ReplayRuns.Recording(setup), (log, pkt) => RequestedRule(Process(setup, log, pkt)), pol, start)
  }

  /** At step `k` a packet arrived whose first accepting stanza let it through every gate and asked for this rule. */
  ghost predicate Authorised(setup: Setup, d: Daemon, steps: seq<ServerStep>, k: nat, i: nat, ctx: Context)
    requires setup.c.Valid()
  {
    && k < |steps| && steps[k].Arrive? && Run(d, steps[..k])
    && (var pkt := steps[k].pkt;
        && FirstAccepting(setup.c, setup.stanzas, pkt.wire, pkt.src, i)
        && Cleared(setup, setup.stanzas[i], StanzaDecrypt(setup.c, setup.stanzas[i], pkt.wire).value,
                   At(d, steps[..k]).log, pkt, ctx))
  }

  /** That is exactly what it takes for processSPAPacket to open it, against the history at that moment. */
  lemma AuthorisedExactlyWhen(setup: Setup, d: Daemon, steps: seq<ServerStep>, k: nat, i: nat, ctx: Context)
    requires setup.c.Valid() && setup.p.Valid()
    requires k < |steps| && steps[k].Arrive? && Run(d, steps[..k])
    ensures Authorised(setup, d, steps, k, i, ctx)
       <==> Process(setup, At(d, steps[..k]).log, steps[k].pkt) == OpensRule(i, ctx)
  {
    OpensExactlyWhen(setup, At(d, steps[..k]).log, steps[k].pkt, i, ctx);
  }

  lemma AskedMeansAuthorised(setup: Setup, d: Daemon, steps: seq<ServerStep>, k: nat, ctx: Context) returns (i: nat)
    requires setup.c.Valid() && setup.p.Valid() && d == DaemonOf(setup, d.pol, d.start)
    requires AsksFor(d, steps, k, ctx)
    ensures Process(setup, At(d, steps[..k]).log, steps[k].pkt) == OpensRule(i, ctx)
    ensures Authorised(setup, d, steps, k, i, ctx)
  {
    i := Process(setup, At(d, steps[..k]).log, steps[k].pkt).stanza;
    AuthorisedExactlyWhen(setup, d, steps, k, i, ctx);
  }

  /** In every run, every open rule came from an authorised packet. */
  lemma OpenRuleWasAuthorised(setup: Setup, d: Daemon, steps: seq<ServerStep>, key: Text)
    returns (k: nat, i: nat, ctx: Context)
    requires setup.c.Valid() && setup.p.Valid() && d == DaemonOf(setup, d.pol, d.start)
    requires Run(d, steps) && Open(At(d, steps).rules, key)
    ensures Authorised(setup, d, steps, k, i, ctx) && RuleKey(ctx) == key
  {
    k, ctx := OpenRuleWasAskedFor(d, steps, key);
    i := AskedMeansAuthorised(setup, d, steps, k, ctx);
  }

  lemma ExtendRun(d: Daemon, steps: seq<ServerStep>, st: ServerStep) returns (more: seq<ServerStep>)
    requires Run(d, steps) && StepEnabled(d, At(d, steps), st)
    ensures Run(d, more) && more == steps + [st] && At(d, more) == Next(d, At(d, steps), st)
  {
    more := steps + [st];
    assert more[..|more| - 1] == steps;
  }

  /** A packet that asks for a rule gets it while the manager is idle: the check, a successful open command unless the
      rule is there, and its timer. */
  lemma RequestServed(d: Daemon, steps: seq<ServerStep>, pkt: Packet, ctx: Context, answer: bool)
    returns (more: seq<ServerStep>)
    requires Run(d, steps) && StepEnabled(d, At(d, steps), Arrive(pkt, answer))
    requires d.request(At(d, steps).log, pkt) == Some(ctx)
    ensures Run(d, more) && steps <= more
    ensures At(d, more).log == d.record(At(d, steps).log, pkt)
    ensures ServedRule(d.pol, At(d, steps).rules, At(d, more).rules, ctx, answer)
  {
    var s := At(d, steps).rules;
    more := ExtendRun(d, steps, Arrive(pkt, answer));
    if !answer {
      more := ExtendRun(d, more, Internal(OpenCommand(true)));
    }
    more := ExtendRun(d, more, Internal(Schedule));
  }

  /** The rule is there once more unless it was, and its timer is due as many seconds from now as it asked for. */
  predicate ServedRule(pol: Policy, s: State, s': State, ctx: Context, answer: bool) {
    var key := RuleKey(ctx);
    && s'.now == s.now && s'.opener.Idle?
    && s'.firewall == (if !answer && pol.opens then s.firewall + multiset{key} else s.firewall)
    && key in s'.active && s'.active[key] in s'.pending
    && s'.pending[s'.active[key]] == Timer(ctx, s.now + (if ctx.timeout > 0 then ctx.timeout else 0) * 1_000_000_000)
  }

  /** So every packet that processSPAPacket lets through opens its rule in some run, whatever happened before: with a
      truthful check the rule is open afterwards. */
  lemma AuthorisedPacketServed(setup: Setup, d: Daemon, steps: seq<ServerStep>, pkt: Packet, i: nat, ctx: Context,
                               answer: bool) returns (more: seq<ServerStep>)
    requires setup.c.Valid() && d == DaemonOf(setup, d.pol, d.start)
    requires Run(d, steps) && At(d, steps).rules.opener.Idle?
    requires Ordered(pkt) && At(d, steps).lastRead <= pkt.ageNow && pkt.addNow <= At(d, steps).rules.now
    requires Process(setup, At(d, steps).log, pkt) == OpensRule(i, ctx)
    requires CheckMayAnswer(d.pol, At(d, steps).rules, RuleKey(ctx), answer)
    ensures Run(d, more) && steps <= more
    ensures At(d, more).log == At(d, steps).log + [(WireDigest(setup.c, pkt.wire), pkt.addNow)]
    ensures ServedRule(d.pol, At(d, steps).rules, At(d, more).rules, ctx, answer)
    ensures d.pol.check.Truthful? && d.pol.opens ==> Open(At(d, more).rules, RuleKey(ctx))
  {
    more := RequestServed(d, steps, pkt, ctx, answer);
  }

  /** In test mode the firewall stays empty. */
  lemma TestModeOpensNothing(setup: Setup, d: Daemon, steps: seq<ServerStep>)
    requires setup.c.Valid() && setup.p.Valid() && d == DaemonOf(setup, d.pol, d.start)
    requires setup.test && Run(d, steps)
    ensures At(d, steps).rules.firewall == multiset{}
  {
    forall key ensures At(d, steps).rules.firewall[key] == 0 {
      if Open(At(d, steps).rules, key) {
        var k, i, ctx := OpenRuleWasAuthorised(setup, d, steps, key);
      }
    }
  }

  predicate PositiveTimeouts(s: Stanza) { s.accessTimeout > 0 && s.maxAccessTimeout > 0 }

  lemma AuthorisedTimeout(setup: Setup, d: Daemon, steps: seq<ServerStep>, k: nat, i: nat, ctx: Context)
    requires setup.c.Valid() && Authorised(setup, d, steps, k, i, ctx)
    requires PositiveTimeouts(setup.stanzas[i])
    ensures 1 <= ctx.timeout <= LongestTimeout(setup.stanzas[i])
  {
    TimeoutBounds(StanzaDecrypt(setup.c, setup.stanzas[i], steps[k].pkt.wire).value, setup.stanzas[i]);
  }

  /** The whole guarantee: an open rule that is not just being scheduled belongs to an authorised packet, its stanza
      with positive settings bounds the timeout, and since its closing was scheduled no more than that timeout (and
      the lag) has passed. */
  lemma NoRuleOutlivesItsRequest(setup: Setup, d: Daemon, steps: seq<ServerStep>, key: Text)
    returns (k: nat, i: nat, j: nat, ctx: Context)
    requires setup.c.Valid() && setup.p.Valid() && d == DaemonOf(setup, d.pol, d.start)
    requires Governed(d.pol) && d.pol.lag.Some?
    requires Run(d, steps) && Open(At(d, steps).rules, key) && !BeingScheduled(At(d, steps).rules, key)
    ensures Authorised(setup, d, steps, k, i, ctx) && RuleKey(ctx) == key
    ensures PositiveTimeouts(setup.stanzas[i]) ==> 1 <= ctx.timeout <= LongestTimeout(setup.stanzas[i])
    ensures ScheduledAt(d.pol, d.start, RuleSteps(d, steps), j, ctx)
    ensures At(d, steps).rules.now - After(d.pol, d.start, RuleSteps(d, steps)[..j]).now
         <= (if ctx.timeout > 0 then ctx.timeout else 0) * 1_000_000_000 + d.pol.lag.value
  {
    k, j, ctx := OpenRuleIsRecent(d, steps, key);
    i := AskedMeansAuthorised(setup, d, steps, k, ctx);
    if PositiveTimeouts(setup.stanzas[i]) {
      AuthorisedTimeout(setup, d, steps, k, i, ctx);
    }
  }

  // ---------- replays in a run ----------

  /** Packets arriving by step `k` come first, and step `k` brings the next one. */
  lemma {:induction false} PacketAt(steps: seq<ServerStep>, k: nat)
    requires k <= |steps|
    ensures Packets(steps[..k]) <= Packets(steps)
    ensures k < |steps| && steps[k].Arrive? ==>
      |Packets(steps[..k])| < |Packets(steps)| && Packets(steps)[|Packets(steps[..k])|] == steps[k].pkt
    decreases |steps|
  {
    var last := |steps| - 1;
    if k == |steps| {
      assert steps[..k] == steps;
    } else if k < last {
      PacketAt(steps[..last], k);
      assert steps[..last][..k] == steps[..k];
    }
  }

  lemma LogBeforeStep(d: Daemon, steps: seq<ServerStep>, k: nat)
    requires k <= |steps| && Run(d, steps[..k])
    ensures |Packets(steps[..k])| <= |Packets(steps)|
    ensures At(d, steps[..k]).log == ReplayRuns.History(d.record, Packets(steps), |Packets(steps[..k])|)
  {
    var before, all := Packets(steps[..k]), Packets(steps);
    PacketAt(steps, k);
    LogOfARun(d, steps[..k]);
    HistoryPrefix(d.record, before, all[|before|..], |before|);
    assert before + all[|before|..] == all;
  }

  /** Step `k` of a run brings a packet that gets past the replay gate. */
  ghost predicate PassesAt(setup: Setup, d: Daemon, steps: seq<ServerStep>, k: nat)
    requires setup.c.Valid()
  {
    && k < |steps| && steps[k].Arrive? && Run(d, steps[..k])
    && PassesReplay(Process(setup, At(d, steps[..k]).log, steps[k].pkt))
  }

  lemma PassesAsPacket(setup: Setup, d: Daemon, steps: seq<ServerStep>, k: nat) returns (n: nat)
    requires setup.c.Valid() && d == DaemonOf(setup, d.pol, d.start)
    requires PassesAt(setup, d, steps, k)
    ensures n == |Packets(steps[..k])| < |Packets(steps)| && Packets(steps)[n] == steps[k].pkt
    ensures PassesReplay(Process(setup, ReplayRuns.ServerLog(setup, Packets(steps), n), Packets(steps)[n]))
  {
    n := |Packets(steps[..k])|;
    PacketAt(steps, k);
    LogBeforeStep(d, steps, k);
  }

  lemma {:induction false} PacketCountGrows(steps: seq<ServerStep>, i: nat, j: nat)
    requires i < j <= |steps| && steps[i].Arrive?
    ensures |Packets(steps[..i])| < |Packets(steps[..j])|
  {
    assert steps[..j][..i] == steps[..i];
    PacketAt(steps[..j], i);
  }

  lemma {:induction false} PassesInOrder(d: Daemon, steps: seq<ServerStep>, i: nat, j: nat)
    requires Run(d, steps) && i < j < |steps| && steps[i].Arrive? && steps[j].Arrive?
    ensures steps[i].pkt.addNow <= steps[j].pkt.ageNow <= steps[j].pkt.dupNow
  {
    PacketsClocked(d, steps);
    PacketAt(steps, i);
    PacketAt(steps, j);
    PacketCountGrows(steps, i, j);
  }

  /** A string whose date lies far enough before its first pass passes once, in every run of the daemon: by the lag
      between the later packet's age check and its lookup, or by more than the age limit. */
  lemma NoSecondPass(setup: Setup, d: Daemon, steps: seq<ServerStep>, i: nat, j: nat, ts: int)
    requires setup.c.Valid() && d == DaemonOf(setup, d.pol, d.start) && setup.maxAgeSeconds > 0 && Run(d, steps)
    requires i < j < |steps| && steps[i].Arrive? && steps[j].Arrive? && steps[i].pkt.wire == steps[j].pkt.wire
    requires ReplayRuns.DatedAtMost(ReplayRuns.GateOf(setup), steps[j].pkt.wire, ts)
    requires || ts + (steps[j].pkt.dupNow - steps[j].pkt.ageNow) <= steps[i].pkt.addNow
             || ts + setup.MaxAge() < steps[i].pkt.addNow
    requires PassesAt(setup, d, steps, i)
    ensures !PassesAt(setup, d, steps, j)
  {
    PassesInOrder(d, steps, i, j);
    if PassesAt(setup, d, steps, j) {
      var a := PassesAsPacket(setup, d, steps, i);
      var b := PassesAsPacket(setup, d, steps, j);
      PacketCountGrows(steps, i, j);
      ReplayRuns.ServerTwoPasses(setup, Packets(steps), a, b, ts);
    }
  }

  /** Two packets that pass and are taken by stanzas with HMAC keys: each carries a text and its HMAC under its own
      stanza's key, and where key and type agree the texts differ. */
  lemma SecondPassNeedsAnotherHMAC(setup: Setup, d: Daemon, steps: seq<ServerStep>, i: nat, j: nat, ts: int,
                                   a: nat, b: nat)
    returns (first: Text, second: Text)
    requires setup.c.Valid() && d == DaemonOf(setup, d.pol, d.start) && setup.maxAgeSeconds > 0 && Run(d, steps)
    requires i < j < |steps| && PassesAt(setup, d, steps, i) && PassesAt(setup, d, steps, j)
    requires ReplayRuns.DatedAtMost(ReplayRuns.GateOf(setup), steps[i].pkt.wire, ts)
    requires || ts + (steps[j].pkt.dupNow - steps[j].pkt.ageNow) <= steps[i].pkt.addNow
             || ts + setup.MaxAge() < steps[i].pkt.addNow
    requires FirstAccepting(setup.c, setup.stanzas, steps[i].pkt.wire, steps[i].pkt.src, a)
    requires FirstAccepting(setup.c, setup.stanzas, steps[j].pkt.wire, steps[j].pkt.src, b)
    requires setup.stanzas[a].hmacKey != [] && setup.stanzas[b].hmacKey != []
    ensures Malleable.AuthenticatedText(setup.c, setup.stanzas[a], steps[i].pkt.wire) == Ok(first)
    ensures Malleable.AuthenticatedText(setup.c, setup.stanzas[b], steps[j].pkt.wire) == Ok(second)
    ensures Malleable.Carries(setup.c, setup.stanzas[a], steps[i].pkt.wire, first)
    ensures Malleable.Carries(setup.c, setup.stanzas[b], steps[j].pkt.wire, second)
    ensures setup.stanzas[a].hmacKey == setup.stanzas[b].hmacKey && setup.stanzas[a].hmacType == setup.stanzas[b].hmacType
      ==> first != second
  {
    var s, s', v, w := setup.stanzas[a], setup.stanzas[b], steps[i].pkt.wire, steps[j].pkt.wire;
    first := Malleable.AcceptedCarries(setup.c, s, v);
    second := Malleable.AcceptedCarries(setup.c, s', w);
    if v == w {
      NoSecondPass(setup, d, steps, i, j, ts);
    }
    if s.hmacKey == s'.hmacKey && s.hmacType == s'.hmacType && first == second {
      Malleable.TextDeterminesWire(setup.c, s, s', v, w, first);
    }
  }

  lemma PassedMeansAccepted(setup: Setup, log: Log, pkt: Packet) returns (i: nat)
    requires setup.c.Valid() && PassesReplay(Process(setup, log, pkt))
    ensures FirstAccepting(setup.c, setup.stanzas, pkt.wire, pkt.src, i)
  {
    i := FirstTrue(Verdicts(setup, pkt.wire, pkt.src));
    FirstUnique(setup, pkt.wire, pkt.src, i);
  }

  /** Once per message: where every stanza has an HMAC key, any two packets that pass carry an HMAC each, and of
      different texts if all stanzas share one key and type. */
  lemma OncePerMessage(setup: Setup, d: Daemon, steps: seq<ServerStep>, i: nat, j: nat, ts: int)
    returns (a: nat, b: nat, first: Text, second: Text)
    requires setup.c.Valid() && d == DaemonOf(setup, d.pol, d.start) && setup.maxAgeSeconds > 0 && Run(d, steps)
    requires forall s :: s in setup.stanzas ==> s.hmacKey != []
    requires i < j < |steps| && PassesAt(setup, d, steps, i) && PassesAt(setup, d, steps, j)
    requires ReplayRuns.DatedAtMost(ReplayRuns.GateOf(setup), steps[i].pkt.wire, ts)
    requires || ts + (steps[j].pkt.dupNow - steps[j].pkt.ageNow) <= steps[i].pkt.addNow
             || ts + setup.MaxAge() < steps[i].pkt.addNow
    ensures a < |setup.stanzas| && Malleable.Carries(setup.c, setup.stanzas[a], steps[i].pkt.wire, first)
    ensures b < |setup.stanzas| && Malleable.Carries(setup.c, setup.stanzas[b], steps[j].pkt.wire, second)
    ensures setup.stanzas[a].hmacKey == setup.stanzas[b].hmacKey && setup.stanzas[a].hmacType == setup.stanzas[b].hmacType
      ==> first != second
  {
    a := PassedMeansAccepted(setup, At(d, steps[..i]).log, steps[i].pkt);
    b := PassedMeansAccepted(setup, At(d, steps[..j]).log, steps[j].pkt);
    first, second := SecondPassNeedsAnotherHMAC(setup, d, steps, i, j, ts, a, b);
  }

  // ---------- the loop of udpServer ----------

  /** What ReadFromUDP returns: a datagram with its sender, or an error, from a closed socket or any other. */
  datatype Read = Datagram(pkt: Packet) | ReadError(closed: bool)

  /** isClosedErr: its second test compares a package variable with nil, so every error counts as closing. */
  predicate IsClosedErr(r: Read) { r.ReadError? }

  /** The packets the server handles: everything before the first read error, cut to the buffer. */
  function Handled(incoming: seq<Read>): (pkts: seq<Packet>)
    ensures |pkts| <= |incoming|
  {
    if incoming == [] || incoming[0].ReadError? then []
    else [incoming[0].pkt.(wire := WireLength.Received(incoming[0].pkt.wire))] + Handled(incoming[1..])
  }

  predicate NoErrorBefore(incoming: seq<Read>, n: nat) {
    n <= |incoming| && forall k :: 0 <= k < n ==> incoming[k].Datagram?
  }

  lemma {:induction false} HandledAt(incoming: seq<Read>, n: nat)
    requires NoErrorBefore(incoming, n)
    ensures n <= |Handled(incoming)|
    ensures n == |incoming| || incoming[n].ReadError? ==> |Handled(incoming)| == n
    ensures n < |incoming| && incoming[n].Datagram? ==>
      && NoErrorBefore(incoming, n + 1) && |Handled(incoming)| > n
      && Handled(incoming)[n] == incoming[n].pkt.(wire := WireLength.Received(incoming[n].pkt.wire))
  {
    if n > 0 {
      HandledAt(incoming[1..], n - 1);
    }
  }

  /** The rule manager after the decisions on the first `n` packets. */
  function Managed(pol: Policy, s: State, outcomes: seq<Outcome>, answers: seq<(bool, bool)>, n: nat): State
    requires n <= |outcomes| <= |answers|
  {
    if n == 0 then s
    else
      var before := Managed(pol, s, outcomes, answers, n - 1);
      if outcomes[n - 1].OpensRule?
      then OpenRuleEffect(pol, before, outcomes[n - 1].ctx, answers[n - 1].0, answers[n - 1].1) else before
  }

  lemma {:induction false} ManagedPrefix(pol: Policy, s: State, outcomes: seq<Outcome>, o: Outcome,
                                         answers: seq<(bool, bool)>, n: nat)
    requires n <= |outcomes| < |answers|
    ensures Managed(pol, s, outcomes + [o], answers, n) == Managed(pol, s, outcomes, answers, n)
  {
    if n > 0 {
      ManagedPrefix(pol, s, outcomes, o, answers, n - 1);
    }
  }

  ghost function Judging(setup: Setup): (Log, Packet) -> Outcome
    requires setup.c.Valid()
  {
    (log, pkt) => Process(setup, log, pkt)
  }

  /** Each packet was judged against the history of those before it. */
  ghost predicate JudgedInTurn(judge: (Log, Packet) -> Outcome, step: (Log, Packet) -> Log,
                               pkts: seq<Packet>, outcomes: seq<Outcome>)
  {
    && |outcomes| <= |pkts|
    && forall k :: 0 <= k < |outcomes| ==> JudgedAt(judge, step, pkts, outcomes[k], k)
  }

  ghost predicate JudgedAt(judge: (Log, Packet) -> Outcome, step: (Log, Packet) -> Log,
                           pkts: seq<Packet>, o: Outcome, k: nat)
  {
    k < |pkts| && o == judge(ReplayRuns.History(step, pkts, k), pkts[k])
  }

  lemma OneMoreJudged(judge: (Log, Packet) -> Outcome, step: (Log, Packet) -> Log,
                      pkts: seq<Packet>, outcomes: seq<Outcome>, o: Outcome)
    requires JudgedInTurn(judge, step, pkts, outcomes) && |outcomes| < |pkts|
    requires JudgedAt(judge, step, pkts, o, |outcomes|)
    ensures JudgedInTurn(judge, step, pkts, outcomes + [o])
  {}

  /** Where the loop stands once as many packets as there are outcomes have been handled. */
  ghost predicate Served(setup: Setup, pkts: seq<Packet>, outcomes: seq<Outcome>, log: Log, clock: int)
    requires setup.c.Valid()
  {
    && |outcomes| <= |pkts|
    && JudgedInTurn(Judging(setup), ReplayRuns.Recording(setup), pkts, outcomes)
    && log == ReplayRuns.ServerLog(setup, pkts, |outcomes|)
    && ClockBehind(pkts, |outcomes|, clock)
  }

  ghost predicate ClockBehind(pkts: seq<Packet>, n: nat, clock: int) {
    forall k :: n <= k < |pkts| ==> clock <= pkts[k].ageNow
  }

  lemma ClockMoves(pkts: seq<Packet>, n: nat, clock: int)
    requires ReplayRuns.Clocked(pkts) && n < |pkts| && clock <= pkts[n].addNow
    ensures ClockBehind(pkts, n + 1, clock)
  {}

  lemma JudgedNow(setup: Setup, pkts: seq<Packet>, o: Outcome, log: Log, n: nat)
    requires setup.c.Valid() && n < |pkts| && log == ReplayRuns.ServerLog(setup, pkts, n)
    requires o == Process(setup, log, pkts[n])
    ensures JudgedAt(Judging(setup), ReplayRuns.Recording(setup), pkts, o, n)
  {}

  lemma OneMoreServed(setup: Setup, pkts: seq<Packet>, outcomes: seq<Outcome>, o: Outcome,
                      log: Log, clock: int, clock': int)
    requires setup.c.Valid() && Served(setup, pkts, outcomes, log, clock)
    requires ReplayRuns.Clocked(pkts) && |outcomes| < |pkts| && clock' <= pkts[|outcomes|].addNow
    requires o == Process(setup, log, pkts[|outcomes|])
    ensures Served(setup, pkts, outcomes + [o], Recorded(setup, log, pkts[|outcomes|]), clock')
  {
    ReplayRuns.ServerLogNext(setup, pkts, |outcomes|);
    JudgedNow(setup, pkts, o, log, |outcomes|);
    ClockMoves(pkts, |outcomes|, clock');
    OneMoreJudged(Judging(setup), ReplayRuns.Recording(setup), pkts, outcomes, o);
  }

  lemma OneMoreManaged(pol: Policy, s: State, outcomes: seq<Outcome>, o: Outcome, answers: seq<(bool, bool)>)
    requires |outcomes| < |answers|
    ensures var n := |outcomes|; var before := Managed(pol, s, outcomes, answers, n);
      Managed(pol, s, outcomes + [o], answers, n + 1)
        == if o.OpensRule? then OpenRuleEffect(pol, before, o.ctx, answers[n].0, answers[n].1) else before
  {
    ManagedPrefix(pol, s, outcomes, o, answers, |outcomes|);
  }

  /** One turn of the loop: processSPAPacket on the next packet. */
  method ServeOne(setup: Setup, replay: ReplayCache, am: ActionsManager, pkt: Packet, answer: (bool, bool),
                  ghost pkts: seq<Packet>, ghost outcomes: seq<Outcome>,
                  ghost start: State, ghost answers: seq<(bool, bool)>)
    returns (o: Outcome)
    requires setup.c.Valid() && ReplayRuns.Clocked(pkts)
    requires replay.Valid() && replay.ttl == setup.MaxAge() && am.Valid()
    requires Served(setup, pkts, outcomes, replay.log, replay.clock)
    requires |outcomes| < |pkts| && pkts[|outcomes|] == pkt && |outcomes| < |answers| && answers[|outcomes|] == answer
    requires am.Abs() == Managed(am.pol, start, outcomes, answers, |outcomes|)
    modifies replay, am
    ensures replay.Valid() && am.Valid()
    ensures Served(setup, pkts, outcomes + [o], replay.log, replay.clock)
    ensures am.Abs() == Managed(am.pol, start, outcomes + [o], answers, |outcomes| + 1)
  {
    ghost var log, clock := replay.log, replay.clock;
    o := ProcessSPAPacket(setup, replay, am, pkt, answer.0, answer.1);
    OneMoreServed(setup, pkts, outcomes, o, log, clock, replay.clock);
    OneMoreManaged(am.pol, start, outcomes, o, answers);
  }

  /** The loop of udpServer: each datagram is cut to the buffer and handled before the next is read, until the first
      read error. */
  method Serve(setup: Setup, replay: ReplayCache, am: ActionsManager, incoming: seq<Read>, answers: seq<(bool, bool)>)
    returns (outcomes: seq<Outcome>)
    requires setup.c.Valid() && |answers| == |incoming|
    requires replay.Valid() && replay.ttl == setup.MaxAge() && replay.log == []
    requires ReplayRuns.Clocked(Handled(incoming))
    requires forall k :: 0 <= k < |Handled(incoming)| ==> replay.clock <= Handled(incoming)[k].ageNow
    requires am.Valid()
    modifies replay, am
    ensures |outcomes| == |Handled(incoming)| && Served(setup, Handled(incoming), outcomes, replay.log, replay.clock)
    ensures am.Valid() && am.Abs() == Managed(am.pol, old(am.Abs()), outcomes, answers, |outcomes|)
  {
    outcomes := [];
    ghost var pkts, start := Handled(incoming), am.Abs();
    for n := 0 to |incoming|
      invariant replay.Valid() && am.Valid()
      invariant NoErrorBefore(incoming, n)
      invariant |outcomes| == n
      invariant Served(setup, pkts, outcomes, replay.log, replay.clock)
      invariant am.Abs() == Managed(am.pol, start, outcomes, answers, n)
    {
      HandledAt(incoming, n);
      if IsClosedErr(incoming[n]) {
        return;
      }
      var pkt := incoming[n].pkt.(wire := WireLength.Received(incoming[n].pkt.wire));
      var o := ServeOne(setup, replay, am, pkt, answers[n], pkts, outcomes, start, answers);
      outcomes := outcomes + [o];
    }
    HandledAt(incoming, |incoming|);
  }
}
