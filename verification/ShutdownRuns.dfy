/** Tracking and Shutdown in interleaved runs: when the manager loses track of an open rule, and what is left open
    when Shutdown itself is interleaved with the UDP thread and the timers. */
module ShutdownRuns {
  import opened Bytes
  import opened Access
  import opened Rules

  // ---------- late deletes ----------

  /** Every open rule is tracked, unless the UDP thread is about to schedule its closing. */
  ghost predicate OpenTracked(s: State) {
    forall key :: Open(s, key) && !BeingScheduled(s, key) ==> key in s.active
  }

  /** A CloseRule goroutine deletes the entry of a rule that has been opened again since its close command. */
  predicate LateDelete(s: State, step: Step) {
    && step.Forget? && step.id in s.closing
    && var key := RuleKey(s.closing[step.id].ctx);
    && Open(s, key) && !BeingScheduled(s, key)
  }

  /** No other step loses track of an open rule, and a late delete always does. */
  lemma TrackedStepExactlyWhen(pol: Policy, s: State, step: Step)
    requires OpenTracked(s) && Enabled(pol, s, step)
    ensures OpenTracked(Apply(pol, s, step)) <==> !LateDelete(s, step)
  {
    var s' := Apply(pol, s, step);
    if LateDelete(s, step) {
      var key := RuleKey(s.closing[step.id].ctx);
      assert Open(s', key) && !BeingScheduled(s', key) && key !in s'.active;
    } else {
      forall key | Open(s', key) && !BeingScheduled(s', key) ensures key in s'.active {
        TrackedKeyKept(pol, s, step, key);
      }
    }
  }

  lemma TrackedKeyKept(pol: Policy, s: State, step: Step, key: Text)
    requires OpenTracked(s) && Enabled(pol, s, step) && !LateDelete(s, step)
    requires Open(Apply(pol, s, step), key) && !BeingScheduled(Apply(pol, s, step), key)
    ensures key in Apply(pol, s, step).active
  {
    if !Open(s, key) {
      OpeningStep(pol, s, step, key);
    }
  }

  predicate NoLateDelete(pol: Policy, now: int, steps: seq<Step>)
    requires ValidRun(pol, now, steps)
    decreases |steps|
  {
    steps == [] ||
    (var before := steps[..|steps| - 1];
     NoLateDelete(pol, now, before) && !LateDelete(After(pol, now, before), steps[|steps| - 1]))
  }

  /** Open rules are tracked after every step of the run. */
  ghost predicate TrackedThroughout(pol: Policy, now: int, steps: seq<Step>)
    requires ValidRun(pol, now, steps)
    decreases |steps|
  {
    OpenTracked(After(pol, now, steps)) && (steps != [] ==> TrackedThroughout(pol, now, steps[..|steps| - 1]))
  }

  /** In every interleaving, whatever the commands do: open rules are tracked throughout exactly when no delete
      comes late. */
  lemma {:induction false} TrackedExactlyWhen(pol: Policy, now: int, steps: seq<Step>)
    requires ValidRun(pol, now, steps)
    ensures TrackedThroughout(pol, now, steps) <==> NoLateDelete(pol, now, steps)
    decreases |steps|
  {
    if steps != [] {
      var before := steps[..|steps| - 1];
      TrackedExactlyWhen(pol, now, before);
      if OpenTracked(After(pol, now, before)) {
        TrackedStepExactlyWhen(pol, After(pol, now, before), steps[|steps| - 1]);
      } else {
        assert !TrackedThroughout(pol, now, before);
      }
    }
  }

  /** Shutdown, undisturbed, after an interleaved run without late deletes: what stays open is what the UDP thread
      is about to schedule, and what its own close commands fail on. */
  lemma ShutdownAfterRun(pol: Policy, now: int, steps: seq<Step>, failing: set<Text>, s': State)
    requires ValidRun(pol, now, steps) && NoLateDelete(pol, now, steps)
    requires pol.closesAll || pol.check.Truthful?
    requires !After(pol, now, steps).opener.Scheduling?
    requires ShutsDown(pol, After(pol, now, steps), failing, s')
    ensures s'.firewall == multiset{} <==> forall key :: Open(After(pol, now, steps), key) ==> key !in failing
  {
    var s := After(pol, now, steps);
    TrackedExactlyWhen(pol, now, steps);
    if pol.check.Truthful? {
      SingleCopiesHold(pol, now, steps);
    }
    ShutdownClosesTheTracked(pol, s, failing, s');
    assert forall key :: Open(s, key) ==> key in s.active;
  }

  // ---------- Shutdown interleaved ----------

  /** Shutdown once it has stopped the tracked timers: the keys it has still to close, and history: what was opened
      since, by the UDP thread. */
  datatype Stopping = Stopping(rules: State, left: set<Text>, sinceOpened: set<Text>)

  /** Under the mutex: copy the map, stop the timers, clear the map. */
  function StopAll(s: State): Stopping {
    Stopping(s.(pending := Unstopped(s.pending, s.active), active := map[]), s.active.Keys, {})
  }

  /** Any step of the rule manager, the next close command of the loop over the copy, or, after the loop, the shutdown
      command, which may remove rules and adds none. */
  datatype StopStep = Other(step: Step) | CloseKept(key: Text, ok: bool) | ShutdownCommand(firewall: multiset<Text>)

  predicate StopEnabled(pol: Policy, z: Stopping, st: StopStep) {
    match st
    case Other(step) => Enabled(pol, z.rules, step)
    case CloseKept(key, ok) => key in z.left && (pol.reliable && Open(z.rules, key) ==> ok)
    case ShutdownCommand(firewall) => z.left == {} && firewall <= z.rules.firewall
  }

  function StopNext(pol: Policy, z: Stopping, st: StopStep): Stopping
    requires StopEnabled(pol, z, st)
  {
    match st
    case Other(step) =>
      z.(rules := Apply(pol, z.rules, step),
         sinceOpened := if step == OpenCommand(true)
                        then z.sinceOpened + {RuleKey(z.rules.opener.ctx)} else z.sinceOpened)
    case CloseKept(key, ok) =>
      z.(rules := z.rules.(firewall := if ok then Closed(pol, z.rules.firewall, key) else z.rules.firewall),
         left := z.left - {key})
    case ShutdownCommand(firewall) => z.(rules := z.rules.(firewall := firewall))
  }

  predicate StopRun(pol: Policy, s: State, steps: seq<StopStep>)
    decreases |steps|, 0
  {
    steps == [] || (StopRun(pol, s, steps[..|steps| - 1])
                    && StopEnabled(pol, StopAfter(pol, s, steps[..|steps| - 1]), steps[|steps| - 1]))
  }

  function StopAfter(pol: Policy, s: State, steps: seq<StopStep>): Stopping
    requires StopRun(pol, s, steps)
    decreases |steps|, 1
  {
    if steps == [] then StopAll(s)
    else StopNext(pol, StopAfter(pol, s, steps[..|steps| - 1]), steps[|steps| - 1])
  }

  /** A timer that was tracked when Shutdown began is stopped for good: it never fires during the rest of any run. */
  lemma {:induction false} TrackedTimerStopped(pol: Policy, s: State, steps: seq<StopStep>, key: Text)
    requires StopRun(pol, s, steps) && key in s.active && s.active[key] < s.nextId
    ensures var rules := StopAfter(pol, s, steps).rules;
      s.active[key] < rules.nextId && s.active[key] !in rules.pending && !Enabled(pol, rules, Fire(s.active[key]))
    decreases |steps|
  {
    if steps != [] {
      TrackedTimerStopped(pol, s, steps[..|steps| - 1], key);
      StaysStopped(pol, StopAfter(pol, s, steps[..|steps| - 1]), steps[|steps| - 1], s.active[key]);
    }
  }

  lemma StaysStopped(pol: Policy, z: Stopping, st: StopStep, id: nat)
    requires StopEnabled(pol, z, st) && id < z.rules.nextId && id !in z.rules.pending
    ensures id < StopNext(pol, z, st).rules.nextId && id !in StopNext(pol, z, st).rules.pending
  {
    if st.Other? {
      NoTimerReturns(pol, z.rules, st.step, id);
    }
  }

  lemma NoTimerReturns(pol: Policy, s: State, step: Step, id: nat)
    requires Enabled(pol, s, step) && id < s.nextId && id !in s.pending
    ensures id < Apply(pol, s, step).nextId && id !in Apply(pol, s, step).pending
  {}

  /** What is open while Shutdown runs is still to be closed by it, was opened since, or was open but untracked. */
  ghost predicate Accounted(s: State, z: Stopping) {
    forall key :: Open(z.rules, key) ==> key in z.left || key in z.sinceOpened || (Open(s, key) && key !in s.active)
  }

  lemma AccountedKept(pol: Policy, s: State, z: Stopping, st: StopStep)
    requires pol.reliable && Accounted(s, z) && StopEnabled(pol, z, st)
    requires pol.closesAll || forall key :: z.rules.firewall[key] <= 1
    ensures Accounted(s, StopNext(pol, z, st))
  {
    var z' := StopNext(pol, z, st);
    forall key | Open(z'.rules, key)
      ensures key in z'.left || key in z'.sinceOpened || (Open(s, key) && key !in s.active)
    {
      if st.Other? && !Open(z.rules, key) {
        OpeningStep(pol, z.rules, st.step, key);
      } else if st.ShutdownCommand? {
        assert z'.rules.firewall[key] <= z.rules.firewall[key];
      }
    }
  }

  lemma StoppingSingleCopies(pol: Policy, z: Stopping, st: StopStep)
    requires pol.check.Truthful? && SingleCopies(z.rules) && StopEnabled(pol, z, st)
    ensures SingleCopies(StopNext(pol, z, st).rules)
  {
    if st.Other? {
      SingleCopiesKept(pol, z.rules, st.step);
    } else if st.ShutdownCommand? {
      assert forall key :: st.firewall[key] <= z.rules.firewall[key];
    }
  }

  lemma {:induction false} StoppingInvariant(pol: Policy, s: State, steps: seq<StopStep>)
    requires pol.reliable && StopRun(pol, s, steps)
    requires pol.closesAll || (pol.check.Truthful? && SingleCopies(s))
    ensures Accounted(s, StopAfter(pol, s, steps))
    ensures pol.check.Truthful? && SingleCopies(s) ==> SingleCopies(StopAfter(pol, s, steps).rules)
    decreases |steps|
  {
    if steps != [] {
      var before, st := steps[..|steps| - 1], steps[|steps| - 1];
      StoppingInvariant(pol, s, before);
      AccountedKept(pol, s, StopAfter(pol, s, before), st);
      if pol.check.Truthful? && SingleCopies(s) {
        StoppingSingleCopies(pol, StopAfter(pol, s, before), st);
      }
    }
  }

  lemma {:induction false} NeverOpenedWhileStopping(pol: Policy, s: State, steps: seq<StopStep>)
    requires !pol.opens && s.firewall == multiset{} && StopRun(pol, s, steps)
    ensures StopAfter(pol, s, steps).rules.firewall == multiset{}
    decreases |steps|
  {
    if steps != [] {
      var before, st := steps[..|steps| - 1], steps[|steps| - 1];
      NeverOpenedWhileStopping(pol, s, before);
      if st.Other? {
        NeverOpened(pol, StopAfter(pol, s, before).rules, st.step);
      } else {
        forall key ensures StopAfter(pol, s, steps).rules.firewall[key] == 0 {
          assert st.ShutdownCommand? ==> st.firewall[key] <= StopAfter(pol, s, before).rules.firewall[key];
        }
      }
    }
  }

  /** Nothing is open beside what the invariant accounts for, in every governed state and every interleaving. */
  lemma StoppingAccounted(pol: Policy, s: State, steps: seq<StopStep>)
    requires Governed(pol) && Invariant(pol, s) && StopRun(pol, s, steps)
    ensures Accounted(s, StopAfter(pol, s, steps))
  {
    if pol.opens {
      StoppingInvariant(pol, s, steps);
    } else {
      NeverOpenedWhileStopping(pol, s, steps);
    }
  }

  // ---------- exactly what survives ----------

  /** Shutdown's loop is done, and the UDP thread has opened nothing since the timers were stopped. */
  predicate CompletedQuietly(pol: Policy, s: State, steps: seq<StopStep>) {
    StopRun(pol, s, steps) && StopAfter(pol, s, steps).left == {} && StopAfter(pol, s, steps).sinceOpened == {}
  }

  ghost predicate MaySurvive(pol: Policy, s: State, key: Text) {
    exists steps :: CompletedQuietly(pol, s, steps) && Open(StopAfter(pol, s, steps).rules, key)
  }

  /** The loop closes the remaining keys one by one, and leaves this one alone. */
  lemma CloseTheRest(pol: Policy, s: State, steps: seq<StopStep>, key: Text) returns (more: seq<StopStep>)
    requires StopRun(pol, s, steps)
    requires var z := StopAfter(pol, s, steps); key !in z.left && z.sinceOpened == {} && Open(z.rules, key)
    ensures CompletedQuietly(pol, s, more) && Open(StopAfter(pol, s, more).rules, key)
    decreases StopAfter(pol, s, steps).left
  {
    var z := StopAfter(pol, s, steps);
    if z.left == {} {
      more := steps;
    } else {
      var k :| k in z.left;
      more := ExtendStop(pol, s, steps, CloseKept(k, true));
      more := CloseTheRest(pol, s, more, key);
    }
  }

  /** A rule can survive an interleaved shutdown, without being opened during it, exactly when it was open and
      untracked as the timers were stopped. */
  lemma SurvivesExactlyWhen(pol: Policy, s: State, key: Text)
    requires Governed(pol) && Invariant(pol, s)
    ensures MaySurvive(pol, s, key) <==> Open(s, key) && key !in s.active
  {
    if MaySurvive(pol, s, key) {
      var steps :| CompletedQuietly(pol, s, steps) && Open(StopAfter(pol, s, steps).rules, key);
      StoppingAccounted(pol, s, steps);
    }
    if Open(s, key) && key !in s.active {
      var steps := CloseTheRest(pol, s, [], key);
    }
  }

  /** Every completed interleaved shutdown during which nothing is opened empties the firewall. */
  ghost predicate ShutdownEmpties(pol: Policy, s: State) {
    forall steps :: CompletedQuietly(pol, s, steps) ==> StopAfter(pol, s, steps).rules.firewall == multiset{}
  }

  lemma ShutdownEmptiesExactlyWhen(pol: Policy, s: State)
    requires Governed(pol) && Invariant(pol, s)
    ensures ShutdownEmpties(pol, s) <==> forall key :: Open(s, key) ==> key in s.active
  {
    if forall key :: Open(s, key) ==> key in s.active {
      forall steps | CompletedQuietly(pol, s, steps) ensures StopAfter(pol, s, steps).rules.firewall == multiset{} {
        forall key ensures StopAfter(pol, s, steps).rules.firewall[key] == 0 {
          if Open(StopAfter(pol, s, steps).rules, key) {
            SurvivesExactlyWhen(pol, s, key);
          }
        }
      }
    } else {
      var key :| Open(s, key) && key !in s.active;
      SurvivesExactlyWhen(pol, s, key);
      var steps :| CompletedQuietly(pol, s, steps) && Open(StopAfter(pol, s, steps).rules, key);
      assert StopAfter(pol, s, steps).rules.firewall[key] != 0;
    }
  }

  /** The rule the UDP thread has opened and not yet scheduled. */
  predicate JustOpened(s: State, key: Text) {
    BeingScheduled(s, key) && Open(s, key) && key !in s.active
  }

  /** After any interleaved run without late deletes that is the one rule an interleaved shutdown can miss. */
  lemma CleanShutdownExactlyWhen(pol: Policy, now: int, run: seq<Step>)
    requires Governed(pol) && ValidRun(pol, now, run) && NoLateDelete(pol, now, run)
    ensures ShutdownEmpties(pol, After(pol, now, run)) <==> forall key :: !JustOpened(After(pol, now, run), key)
  {
    var s := After(pol, now, run);
    InvariantHolds(pol, now, run);
    TrackedExactlyWhen(pol, now, run);
    ShutdownEmptiesExactlyWhen(pol, s);
    UntrackedIsJustOpened(s);
  }

  lemma UntrackedIsJustOpened(s: State)
    requires OpenTracked(s)
    ensures (forall key :: Open(s, key) ==> key in s.active) <==> forall key :: !JustOpened(s, key)
  {
    if key :| Open(s, key) && key !in s.active {
      assert JustOpened(s, key);
    }
  }

  /** With openings during shutdown as well: what is open at the end was opened since the timers were stopped, or was
      just opened at that moment. */
  lemma ShutdownInterleaved(pol: Policy, now: int, run: seq<Step>, steps: seq<StopStep>, key: Text)
    requires Governed(pol) && ValidRun(pol, now, run) && NoLateDelete(pol, now, run)
    requires StopRun(pol, After(pol, now, run), steps)
    requires var z := StopAfter(pol, After(pol, now, run), steps); z.left == {} && Open(z.rules, key)
    ensures key in StopAfter(pol, After(pol, now, run), steps).sinceOpened || JustOpened(After(pol, now, run), key)
  {
    var s := After(pol, now, run);
    InvariantHolds(pol, now, run);
    TrackedExactlyWhen(pol, now, run);
    StoppingAccounted(pol, s, steps);
  }

  // ---------- the exceptions are real ----------

  /** A rule opened while Shutdown is closing the others stays open: nothing waits for the UDP thread. */
  lemma OpenedDuringShutdown(ctx: Context) returns (steps: seq<StopStep>)
    ensures var pol := Policy(Truthful, true, true, true, Some(0));
      && StopRun(pol, Initial(0), steps)
      && var z := StopAfter(pol, Initial(0), steps);
      && z.left == {} && Open(z.rules, RuleKey(ctx))
  {
    var pol := Policy(Truthful, true, true, true, Some(0));
    steps := ExtendStop(pol, Initial(0), [], Other(BeginOpen(ctx, false)));
    steps := ExtendStop(pol, Initial(0), steps, Other(OpenCommand(true)));
  }

  lemma ExtendStop(pol: Policy, s: State, steps: seq<StopStep>, st: StopStep) returns (more: seq<StopStep>)
    requires StopRun(pol, s, steps) && StopEnabled(pol, StopAfter(pol, s, steps), st)
    ensures StopRun(pol, s, more)
    ensures StopAfter(pol, s, more) == StopNext(pol, StopAfter(pol, s, steps), st)
  {
    more := steps + [st];
    assert more[..|more| - 1] == steps;
  }

  /** Once the loop is done the shutdown command may leave any part of what is still open. */
  lemma ShutdownCommandFollows(pol: Policy, s: State, steps: seq<StopStep>, kept: multiset<Text>)
    returns (more: seq<StopStep>)
    requires StopRun(pol, s, steps) && StopAfter(pol, s, steps).left == {}
    requires kept <= StopAfter(pol, s, steps).rules.firewall
    ensures StopRun(pol, s, more) && StopAfter(pol, s, more).rules.firewall == kept
    ensures StopAfter(pol, s, more).left == {}
  {
    more := ExtendStop(pol, s, steps, ShutdownCommand(kept));
  }

  lemma ExtendTimely(pol: Policy, now: int, steps: seq<Step>, step: Step)
    requires ValidRun(pol, now, steps) && ValidRun(pol, now, steps + [step])
    requires NoLateDelete(pol, now, steps) && !LateDelete(After(pol, now, steps), step)
    ensures NoLateDelete(pol, now, steps + [step])
  {
    assert (steps + [step])[..|steps|] == steps;
  }

  /** And so does one that is open and not yet scheduled when the timers are stopped. */
  lemma JustOpenedSurvives(ctx: Context) returns (run: seq<Step>)
    ensures var pol := Policy(Truthful, true, true, true, Some(0));
      && ValidRun(pol, 0, run) && NoLateDelete(pol, 0, run)
      && JustOpened(After(pol, 0, run), RuleKey(ctx)) && MaySurvive(pol, After(pol, 0, run), RuleKey(ctx))
  {
    var pol := Policy(Truthful, true, true, true, Some(0));
    var one := Extend(pol, 0, [], BeginOpen(ctx, false));
    ExtendTimely(pol, 0, [], BeginOpen(ctx, false));
    run := Extend(pol, 0, one, OpenCommand(true));
    ExtendTimely(pol, 0, one, OpenCommand(true));
    InvariantHolds(pol, 0, run);
    SurvivesExactlyWhen(pol, After(pol, 0, run), RuleKey(ctx));
  }
}
