/** Where the rule manager's guarantees end: concrete runs, and the exact conditions they delimit. */
module RulesLimits {
  import opened Bytes
  import opened Access
  import opened Rules
  import opened Actions

  /** The clock reaches a timer's deadline, it fires, and its close command runs. */
  lemma FireAndClose(pol: Policy, now: int, steps: seq<Step>, id: nat, ok: bool) returns (more: seq<Step>)
    requires ValidRun(pol, now, steps)
    requires var s := After(pol, now, steps);
      && id in s.pending && s.pending.Keys == {id} && s.now <= s.pending[id].deadline
      && (forall i :: i in s.closing ==> s.closing[i].commandRun)
      && (pol.reliable ==> ok)
    ensures ValidRun(pol, now, more)
    ensures var s := After(pol, now, steps); var t := s.pending[id];
      After(pol, now, more) == s.(
        now := t.deadline,
        pending := s.pending - {id},
        closing := s.closing[id := Closer(t.ctx, t.deadline, true)],
        firewall := if ok then Closed(pol, s.firewall, RuleKey(t.ctx)) else s.firewall)
  {
    var s := After(pol, now, steps);
    more := Extend(pol, now, steps, Tick(s.pending[id].deadline));
    more := Extend(pol, now, more, Fire(id));
    more := Extend(pol, now, more, CloseCommand(id, ok));
  }

  // ---------- unreliable close commands, uncontrolled copies ----------

  /** A close command that fails leaves its rule open for good. */
  lemma FailedCloseLeaks(pol: Policy, ctx: Context) returns (steps: seq<Step>)
    requires pol.opens && !pol.reliable
    ensures ValidRun(pol, 0, steps) && !Safe(After(pol, 0, steps))
  {
    var key := RuleKey(ctx);
    steps := RunRequest(pol, 0, [], ctx, false, true);
    steps := FireAndClose(pol, 0, steps, 0, false);
    var s := After(pol, 0, steps);
    assert Open(s, key) && !WillClose(s, key);
  }

  /** Without a truthful check a repeated request opens a second copy, and the first timer is stopped: when one
      close command removes one copy, the other stays for good. */
  lemma SecondCopyLeaks(pol: Policy, ctx: Context) returns (steps: seq<Step>)
    requires pol.opens && pol.reliable && !pol.closesAll && !pol.check.Truthful?
    ensures ValidRun(pol, 0, steps) && !Safe(After(pol, 0, steps))
  {
    var key := RuleKey(ctx);
    steps := RunRequest(pol, 0, [], ctx, false, true);
    steps := RunRequest(pol, 0, steps, ctx, false, true);
    steps := FireAndClose(pol, 0, steps, 1, true);
    var s := After(pol, 0, steps);
    assert Open(s, key) && !WillClose(s, key);
  }

  ghost predicate AlwaysSafe(pol: Policy) {
    forall now, steps :: ValidRun(pol, now, steps) ==> Safe(After(pol, now, steps))
  }

  /** In every interleaving every open rule has a future closer, exactly under these settings. */
  lemma AlwaysSafeExactlyWhen(pol: Policy)
    ensures AlwaysSafe(pol) <==> Governed(pol)
  {
    if Governed(pol) {
      forall now, steps | ValidRun(pol, now, steps) ensures Safe(After(pol, now, steps)) {
        InvariantHolds(pol, now, steps);
      }
    } else {
      var ctx := Context([], [], [], [], 0, 0, [], []);
      var steps: seq<Step>;
      if !pol.reliable {
        steps := FailedCloseLeaks(pol, ctx);
      } else {
        steps := SecondCopyLeaks(pol, ctx);
      }
      assert ValidRun(pol, 0, steps) && !Safe(After(pol, 0, steps));
    }
  }

  ghost predicate AlwaysSingle(pol: Policy) {
    forall now, steps, key :: ValidRun(pol, now, steps) ==> After(pol, now, steps).firewall[key] <= 1
  }

  /** No interleaving ever holds two copies of a rule exactly when the check is truthful, or nothing opens rules. */
  lemma AlwaysSingleExactlyWhen(pol: Policy)
    ensures AlwaysSingle(pol) <==> pol.check.Truthful? || !pol.opens
  {
    if pol.check.Truthful? || !pol.opens {
      forall now, steps, key | ValidRun(pol, now, steps) ensures After(pol, now, steps).firewall[key] <= 1 {
        if pol.check.Truthful? {
          NoDuplicateRules(pol, now, steps, key);
        } else {
          InvariantHolds(pol, now, steps);
        }
      }
    } else {
      var ctx := Context([], [], [], [], 0, 0, [], []);
      var steps := RunRequest(pol, 0, [], ctx, false, true);
      steps := RunRequest(pol, 0, steps, ctx, false, true);
      assert After(pol, 0, steps).firewall[RuleKey(ctx)] == 2;
    }
  }

  // ---------- tracking and opening come apart ----------

  /** A fired timer's late delete forgets a newer request: even with truthful checks and reliable commands a rule
      can be open and untracked, so that Shutdown would leave it open. */
  lemma OpenButUntracked(ctx: Context) returns (steps: seq<Step>)
    ensures var pol := Policy(Truthful, true, true, true, Some(0));
      && ValidRun(pol, 0, steps)
      && var s := After(pol, 0, steps);
      && Open(s, RuleKey(ctx)) && RuleKey(ctx) !in s.active
      && forall failing, s' :: ShutsDown(pol, s, failing, s') ==> Open(s', RuleKey(ctx))
  {
    var pol := Policy(Truthful, true, true, true, Some(0));
    steps := RunRequest(pol, 0, [], ctx, false, true);
    steps := FireAndClose(pol, 0, steps, 0, true);
    steps := RunRequest(pol, 0, steps, ctx, false, true);
    steps := Extend(pol, 0, steps, Forget(0));
  }

  /** The other way round: a refresh can race with the old timer, and the rule is then tracked but closed. */
  lemma TrackedButClosed(ctx: Context) returns (steps: seq<Step>)
    ensures var pol := Policy(Truthful, true, true, true, Some(0));
      && ValidRun(pol, 0, steps)
      && var s := After(pol, 0, steps);
      && !Open(s, RuleKey(ctx)) && RuleKey(ctx) in s.active && s.opener.Idle? && s.closing == map[]
  {
    var pol := Policy(Truthful, true, true, true, Some(0));
    steps := RunRequest(pol, 0, [], ctx, false, true);
    steps := Extend(pol, 0, steps, BeginOpen(ctx, true));
    steps := FireAndClose(pol, 0, steps, 0, true);
    steps := Extend(pol, 0, steps, Forget(0));
    steps := Extend(pol, 0, steps, Schedule);
  }
}
