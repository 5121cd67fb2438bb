/** The fixed-step scheduler: integer ticks in, whole simulation steps out, and a rational phase
    that never drifts. */
module FixedStep {
  import opened Wrappers
  import opened Powers
  import opened MachineIntegers
  import opened WideDivision

  datatype Config = Config(ticksPerSecond: U64, stepsPerSecond: U64, maxElapsedTicks: U64, maxStepsPerUpdate: U64) {
    predicate Usable() {
      ticksPerSecond != 0 && stepsPerSecond != 0 && maxElapsedTicks != 0 && maxStepsPerUpdate != 0
      && stepsPerSecond <= ticksPerSecond
    }
  }

  datatype State = State(config: Config, previousTick: U64, phase: U64, initialised: bool) {
    predicate Valid() { config.Usable() && phase < config.ticksPerSecond }
  }

  datatype StepResult = StepResult(stepsToRun: U64, droppedSteps: U64, clampedTicks: U64, phase: U64, clockReset: bool)

  /** Ticks an advance accounts for. */
  function UsedTicks(s: State, now: U64): nat {
    if s.initialised && s.previousTick <= now then
      if now - s.previousTick > s.config.maxElapsedTicks then s.config.maxElapsedTicks else now - s.previousTick
    else 0
  }

  /** The time to account for, in units of 1 / (ticks/second * steps/second) seconds. */
  ghost function Owed(s: State, now: U64): nat {
    MulMonotone2(0, UsedTicks(s, now), 0, s.config.stepsPerSecond);
    UsedTicks(s, now) * s.config.stepsPerSecond + s.phase
  }

  /** The exact rational step count, and the phase left over. */
  ghost function StepsDue(s: State, now: U64): nat
    requires s.Valid()
  {
    hide Owed;
    SmallQuotient(Owed(s, now), s.config.ticksPerSecond);
    Owed(s, now) / s.config.ticksPerSecond
  }

  ghost function PhaseLeft(s: State, now: U64): nat
    requires s.Valid()
  {
    hide Owed;
    SmallQuotient(Owed(s, now), s.config.ticksPerSecond);
    Owed(s, now) % s.config.ticksPerSecond
  }

  /** What one advance from a valid state must do, over unbounded integers. */
  ghost predicate Advances(s: State, now: U64, t: State, r: StepResult)
    requires s.Valid()
  {
    && t.config == s.config && t.previousTick == now && t.initialised
    && if !s.initialised || now < s.previousTick then
         t.phase == 0 && r == StepResult(0, 0, 0, 0, s.initialised)
       else
         && t.phase == PhaseLeft(s, now) && r.phase == t.phase && !r.clockReset
         && r.clampedTicks == (now - s.previousTick) - UsedTicks(s, now)
         && r.stepsToRun + r.droppedSteps == StepsDue(s, now)
         && r.stepsToRun == if StepsDue(s, now) > s.config.maxStepsPerUpdate then s.config.maxStepsPerUpdate
                            else StepsDue(s, now)
  }

  /** Adding the phase to a quotient/remainder pair: at most one carry, and never an overflow. */
  lemma PhaseCarry(used: nat, steps: nat, ticks: nat, phase: nat)
    requires 0 < steps <= ticks && phase < ticks && used <= U64_MAX
    ensures var whole, rest := used * steps / ticks, used * steps % ticks;
      && whole <= used
      && (used * steps + phase) / ticks == whole + (if rest + phase >= ticks then 1 else 0) <= U64_MAX
      && (used * steps + phase) % ticks == rest + phase - (if rest + phase >= ticks then ticks else 0)
  {
    var product := used * steps;
    var whole, rest := product / ticks, product % ticks;
    assert product == whole * ticks + rest;
    MulMonotone(steps, ticks, used);
    MulCancel(whole, used, ticks);
    if rest + phase >= ticks {
      Distribute(whole, 1, ticks);
      DivModUnique(product + phase, ticks, whole + 1, rest + phase - ticks);
      // A remainder leaves room for the carry: whole * ticks < product <= used * ticks.
      MulCancel(whole, used, ticks);
    } else {
      DivModUnique(product + phase, ticks, whole, rest + phase);
    }
  }

  /** What the wide division and the carried phase add up to. */
  lemma DueFromParts(s: State, now: U64)
    requires s.Valid()
    ensures var product, d := UsedTicks(s, now) * s.config.stepsPerSecond, s.config.ticksPerSecond;
      var carry := if product % d + s.phase >= d then 1 else 0;
      && product / d <= U64_MAX
      && StepsDue(s, now) == product / d + carry <= U64_MAX
      && PhaseLeft(s, now) == product % d + s.phase - (if carry == 1 then d else 0)
  {
    PhaseCarry(UsedTicks(s, now), s.config.stepsPerSecond, s.config.ticksPerSecond, s.phase);
  }

  /** Ticks beyond the longest interval that is simulated. */
  function Excess(previous: nat, now: nat, limit: nat): nat {
    if now > previous && now - previous > limit then now - previous - limit else 0
  }

  /** What one advance must do, read off its inputs: a first sample and a step back of the clock run
      nothing and restart the phase; otherwise the elapsed ticks but for the excess are turned into steps,
      the phase keeps the fraction of a step, and steps beyond the limit are dropped. */
  ghost predicate Accounts(s: State, now: U64, t: State, r: StepResult) {
    && t.config == s.config && t.previousTick == now && t.initialised && t.phase < s.config.ticksPerSecond
    && (!s.initialised || now < s.previousTick ==>
          t.phase == 0 && r.stepsToRun == r.droppedSteps == r.clampedTicks == r.phase == 0
          && (r.clockReset <==> s.initialised))
    && (s.initialised && s.previousTick <= now ==>
          && r.clampedTicks == Excess(s.previousTick, now, s.config.maxElapsedTicks)
          && (r.stepsToRun + r.droppedSteps) * s.config.ticksPerSecond + t.phase
             == (now - s.previousTick - r.clampedTicks) * s.config.stepsPerSecond + s.phase
          && r.stepsToRun <= s.config.maxStepsPerUpdate
          && (r.droppedSteps > 0 ==> r.stepsToRun == s.config.maxStepsPerUpdate)
          && r.phase == t.phase && !r.clockReset)
  }

  /** The advance does exactly that. */
  lemma AdvancesAccounts(s: State, now: U64, t: State, r: StepResult)
    requires s.Valid()
    ensures Advances(s, now, t, r) <==> Accounts(s, now, t, r)
  {
    DueAndLeft(s, now);
    PhaseBelow(s, now);
    if s.initialised && s.previousTick <= now && Accounts(s, now, t, r) {
      DueUnique(s, now, r.stepsToRun + r.droppedSteps, t.phase);
    }
    hide StepsDue;
    hide PhaseLeft;
    hide Owed;
  }

  lemma DueUnique(s: State, now: U64, steps: nat, phase: nat)
    requires s.Valid() && phase < s.config.ticksPerSecond
    requires steps * s.config.ticksPerSecond + phase == UsedTicks(s, now) * s.config.stepsPerSecond + s.phase
    ensures StepsDue(s, now) == steps && PhaseLeft(s, now) == phase
  {
    DivModUnique(Owed(s, now), s.config.ticksPerSecond, steps, phase);
  }

  class Scheduler {
    var ticksPerSecond: U64
    var stepsPerSecond: U64
    var maxElapsedTicks: U64
    var maxStepsPerUpdate: U64
    var previousTick: U64
    var phaseNumerator: U64
    var initialised: bool

    function Configuration(): Config
      reads this
    {
      Config(ticksPerSecond, stepsPerSecond, maxElapsedTicks, maxStepsPerUpdate)
    }

    function Snapshot(): State
      reads this
    {
      State(Configuration(), previousTick, phaseNumerator, initialised)
    }

    method Configure(ticks: U64, steps: U64, maxElapsed: U64, maxSteps: U64) returns (ok: bool)
      modifies this
      ensures ok <==> 0 < steps <= ticks && 0 < maxElapsed && 0 < maxSteps
      ensures Snapshot() == if ok then State(Config(ticks, steps, maxElapsed, maxSteps), 0, 0, false) else old(Snapshot())
      ensures ok ==> Snapshot().Valid()
    {
      if ticks == 0 || steps == 0 || maxElapsed == 0 || maxSteps == 0 || steps > ticks {
        return false;
      }
      ticksPerSecond, stepsPerSecond, maxElapsedTicks, maxStepsPerUpdate := ticks, steps, maxElapsed, maxSteps;
      previousTick, phaseNumerator, initialised := 0, 0, false;
      return true;
    }

    method Reset(now: U64) returns (ok: bool)
      modifies this
      ensures ok <==> old(0 < stepsPerSecond <= ticksPerSecond && 0 < maxElapsedTicks && 0 < maxStepsPerUpdate)
      ensures Snapshot() == if ok then State(old(Configuration()), now, 0, true) else old(Snapshot())
      ensures ok ==> Snapshot().Valid()
    {
      if ticksPerSecond == 0 || stepsPerSecond == 0 || maxElapsedTicks == 0 || maxStepsPerUpdate == 0
         || stepsPerSecond > ticksPerSecond {
        return false;
      }
      previousTick, phaseNumerator, initialised := now, 0, true;
      return true;
    }

    /** Fails exactly on an invalid state, and then changes nothing: from a valid state neither
        arithmetic failure can happen. */
    method Advance(now: U64, resultIn: StepResult) returns (ok: bool, result: StepResult)
      modifies this
      ensures ok <==> old(Snapshot().Valid())
      ensures ok <==> old(0 < stepsPerSecond <= ticksPerSecond && 0 < maxElapsedTicks && 0 < maxStepsPerUpdate
                          && phaseNumerator < ticksPerSecond)
      ensures !ok ==> Snapshot() == old(Snapshot()) && result == resultIn
      ensures ok ==> Snapshot().Valid() && Advances(old(Snapshot()), now, Snapshot(), result)
      ensures ok ==> Accounts(old(Snapshot()), now, Snapshot(), result)
    {
      result := resultIn;
      if ticksPerSecond == 0 || stepsPerSecond == 0 || maxElapsedTicks == 0 || maxStepsPerUpdate == 0
         || stepsPerSecond > ticksPerSecond || phaseNumerator >= ticksPerSecond {
        return false, result;
      }
      if !initialised {
        previousTick, phaseNumerator, initialised := now, 0, true;
        AdvancesAccounts(old(Snapshot()), now, Snapshot(), StepResult(0, 0, 0, 0, false));
        return true, StepResult(0, 0, 0, 0, false);
      }
      if now < previousTick {
        previousTick, phaseNumerator := now, 0;
        AdvancesAccounts(old(Snapshot()), now, Snapshot(), StepResult(0, 0, 0, 0, true));
        return true, StepResult(0, 0, 0, 0, true);
      }
      var usedElapsed: U64, clamped: U64 := now - previousTick, 0;
      previousTick := now;
      if usedElapsed > maxElapsedTicks {
        clamped := usedElapsed - maxElapsedTicks;
        usedElapsed := maxElapsedTicks;
      }
      DueFromParts(old(Snapshot()), now);
      hide StepsDue;
      hide PhaseLeft;
      var divided, wholeSteps, elapsedPhase := ProductDivMod(usedElapsed, stepsPerSecond, ticksPerSecond, true, true);
      assert divided;
      var carry := 0;
      var newPhase: U64;
      if elapsedPhase != 0 && phaseNumerator >= ticksPerSecond - elapsedPhase {
        newPhase := phaseNumerator - (ticksPerSecond - elapsedPhase);
        carry := 1;
      } else {
        newPhase := phaseNumerator + elapsedPhase;
      }
      assert wholeSteps + carry <= U64_MAX;
      var dueSteps: U64 := wholeSteps + carry;
      phaseNumerator := newPhase;
      ok := true;
      if dueSteps > maxStepsPerUpdate {
        result := StepResult(maxStepsPerUpdate, dueSteps - maxStepsPerUpdate, clamped, newPhase, false);
      } else {
        result := StepResult(dueSteps, 0, clamped, newPhase, false);
      }
      AdvancesAccounts(old(Snapshot()), now, Snapshot(), result);
      hide Accounts;
    }
  }

  /** One run of the scheduler from a valid state: the states between the samples, and the result
      of each sample. */
  ghost predicate Run(states: seq<State>, samples: seq<U64>, results: seq<StepResult>) {
    && |states| == |samples| + 1 == |results| + 1
    && states[0].Valid()
    && forall i :: 0 <= i < |samples| && states[i].Valid() ==> Advances(states[i], samples[i], states[i + 1], results[i])
  }

  /** Validity and the configuration survive every run, clock resets included, and no update runs
      more steps than allowed. */
  lemma {:induction false} RunsStayValid(states: seq<State>, samples: seq<U64>, results: seq<StepResult>, i: nat)
    requires Run(states, samples, results) && i <= |samples|
    ensures states[i].Valid() && states[i].config == states[0].config
    ensures i > 0 ==> states[i - 1].Valid() && Advances(states[i - 1], samples[i - 1], states[i], results[i - 1])
    ensures i > 0 ==> results[i - 1].stepsToRun <= states[0].config.maxStepsPerUpdate
  {
    if i > 0 {
      RunsStayValid(states, samples, results, i - 1);
      assert Advances(states[i - 1], samples[i - 1], states[i], results[i - 1]);
      AdvanceKeepsValid(states[i - 1], samples[i - 1], states[i], results[i - 1]);
      hide Advances;
    }
  }

  lemma AdvanceKeepsValid(s: State, now: U64, t: State, r: StepResult)
    requires s.Valid() && Advances(s, now, t, r)
    ensures t.Valid() && t.config == s.config && r.stepsToRun <= s.config.maxStepsPerUpdate
  {
    hide StepsDue;
    PhaseBelow(s, now);
  }

  lemma PhaseBelow(s: State, now: U64)
    requires s.Valid()
    ensures PhaseLeft(s, now) < s.config.ticksPerSecond
  {
    hide Owed;
    SmallQuotient(Owed(s, now), s.config.ticksPerSecond);
  }

  /** Totals over a run. */
  ghost function StepsIn(results: seq<StepResult>): nat {
    if |results| == 0 then 0
    else StepsIn(results[..|results| - 1]) + results[|results| - 1].stepsToRun + results[|results| - 1].droppedSteps
  }

  ghost function ClampedIn(results: seq<StepResult>): nat {
    if |results| == 0 then 0 else ClampedIn(results[..|results| - 1]) + results[|results| - 1].clampedTicks
  }

  /** Between resets: started, and the clock never went backwards. */
  ghost predicate Monotone(states: seq<State>, samples: seq<U64>) {
    && |states| > 0 && states[0].initialised
    && forall i :: 0 <= i < |samples| && i < |states| ==> states[i].previousTick <= samples[i]
  }

  lemma AdvanceConserves(s: State, now: U64, t: State, r: StepResult)
    requires s.Valid() && Advances(s, now, t, r) && s.initialised && s.previousTick <= now
    ensures (r.stepsToRun + r.droppedSteps) * s.config.ticksPerSecond + t.phase
      == (now - s.previousTick - r.clampedTicks) * s.config.stepsPerSecond + s.phase
    ensures t.Valid() && r.clampedTicks <= now - s.previousTick
  {
    assert now - s.previousTick - r.clampedTicks == UsedTicks(s, now);
    assert r.stepsToRun + r.droppedSteps == StepsDue(s, now);
    DueAndLeft(s, now);
  }

  lemma DueAndLeft(s: State, now: U64)
    requires s.Valid()
    ensures StepsDue(s, now) * s.config.ticksPerSecond + PhaseLeft(s, now)
      == UsedTicks(s, now) * s.config.stepsPerSecond + s.phase
  {
    hide UsedTicks;
    var total, d := Owed(s, now), s.config.ticksPerSecond;
    assert total == (total / d) * d + total % d;
  }

  /** The account between two states: steps, clamped ticks and phases balance the elapsed time. */
  ghost predicate Balanced(s: State, t: State, steps: nat, clamped: nat) {
    && s.Valid() && t.Valid() && t.config == s.config && s.initialised && t.initialised
    && s.previousTick + clamped <= t.previousTick
    && steps * s.config.ticksPerSecond + t.phase
       == (t.previousTick - s.previousTick - clamped) * s.config.stepsPerSecond + s.phase
  }

  lemma BalanceExtends(s: State, m: State, steps: nat, clamped: nat, now: U64, t: State, r: StepResult)
    requires Balanced(s, m, steps, clamped) && Advances(m, now, t, r) && m.previousTick <= now
    ensures Balanced(s, t, steps + r.stepsToRun + r.droppedSteps, clamped + r.clampedTicks)
  {
    AdvanceConserves(m, now, t, r);
    hide Advances;
    Distribute(steps, r.stepsToRun + r.droppedSteps, s.config.ticksPerSecond);
    Distribute(m.previousTick - s.previousTick - clamped, now - m.previousTick - r.clampedTicks, s.config.stepsPerSecond);
  }

  lemma RunPrefix(states: seq<State>, samples: seq<U64>, results: seq<StepResult>)
    requires Run(states, samples, results) && Monotone(states, samples) && |samples| > 0
    ensures var n := |samples| - 1;
      Run(states[..n + 1], samples[..n], results[..n]) && Monotone(states[..n + 1], samples[..n])
  {
    hide Advances;
  }

  /** No drift: over any run between resets, steps run and dropped, in ticks, plus the phase account
      exactly for the unclamped time that passed. */
  lemma {:induction false} PhaseNeverDrifts(states: seq<State>, samples: seq<U64>, results: seq<StepResult>)
    requires Run(states, samples, results) && Monotone(states, samples)
    ensures Balanced(states[0], states[|samples|], StepsIn(results), ClampedIn(results))
    ensures |samples| > 0 ==> states[|samples|].previousTick == samples[|samples| - 1]
  {
    var n := |samples|;
    if n > 0 {
      RunPrefix(states, samples, results);
      PhaseNeverDrifts(states[..n], samples[..n - 1], results[..n - 1]);
      RunsStayValid(states, samples, results, n);
      BalanceExtends(states[0], states[n - 1], StepsIn(results[..n - 1]), ClampedIn(results[..n - 1]),
                     samples[n - 1], states[n], results[n - 1]);
    } else {
      assert results == [];
    }
  }

  /** Batching does not matter: two runs from the same state to the same final tick, with the same
      clamping, run and drop the same number of steps and end in the same state. */
  lemma BatchingIrrelevant(states: seq<State>, samples: seq<U64>, results: seq<StepResult>,
                           states': seq<State>, samples': seq<U64>, results': seq<StepResult>)
    requires Run(states, samples, results) && Monotone(states, samples)
    requires Run(states', samples', results') && Monotone(states', samples')
    requires states[0] == states'[0]
    requires states[|samples|].previousTick == states'[|samples'|].previousTick
    requires ClampedIn(results) == ClampedIn(results')
    ensures StepsIn(results) == StepsIn(results')
    ensures states[|samples|] == states'[|samples'|]
  {
    PhaseNeverDrifts(states, samples, results);
    PhaseNeverDrifts(states', samples', results');
    var d := states[0].config.ticksPerSecond;
    var total := StepsIn(results) * d + states[|samples|].phase;
    DivModUnique(total, d, StepsIn(results), states[|samples|].phase);
    DivModUnique(total, d, StepsIn(results'), states'[|samples'|].phase);
  }

  /** The excesses of a series of samples. */
  ghost function ExcessIn(start: U64, samples: seq<U64>, limit: nat): nat {
    if |samples| == 0 then 0
    else
      var n := |samples| - 1;
      ExcessIn(start, samples[..n], limit) + Excess(if n == 0 then start else samples[n - 1], samples[n], limit)
  }

  /** A run clamps exactly what its samples exceed the limit by. */
  lemma {:induction false} ClampedIsExcess(states: seq<State>, samples: seq<U64>, results: seq<StepResult>)
    requires Run(states, samples, results) && Monotone(states, samples)
    ensures ClampedIn(results) == ExcessIn(states[0].previousTick, samples, states[0].config.maxElapsedTicks)
  {
    var n := |samples|;
    if n > 0 {
      RunPrefix(states, samples, results);
      ClampedIsExcess(states[..n], samples[..n - 1], results[..n - 1]);
      RunsStayValid(states, samples, results, n);
      RunsStayValid(states, samples, results, n - 1);
      PhaseNeverDrifts(states[..n], samples[..n - 1], results[..n - 1]);
      AdvancesAccounts(states[n - 1], samples[n - 1], states[n], results[n - 1]);
      hide Advances;
      hide Run;
    } else {
      assert results == [];
    }
  }

  /** So the totals of a run between resets are fixed by its first state and its samples alone. */
  lemma RunAccounts(states: seq<State>, samples: seq<U64>, results: seq<StepResult>)
    requires Run(states, samples, results) && Monotone(states, samples) && |samples| > 0
    ensures var s, n := states[0], |samples|;
      var excess := ExcessIn(s.previousTick, samples, s.config.maxElapsedTicks);
      && StepsIn(results) * s.config.ticksPerSecond + states[n].phase
         == (samples[n - 1] - s.previousTick - excess) * s.config.stepsPerSecond + s.phase
      && states[n].phase < s.config.ticksPerSecond
  {
    PhaseNeverDrifts(states, samples, results);
    ClampedIsExcess(states, samples, results);
    hide Run;
    hide ExcessIn;
    hide StepsIn;
    hide ClampedIn;
  }
}
