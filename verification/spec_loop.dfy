/** The control skeleton of `executeSpec` in x.js: navigate to the spec's URL,
    then repeatedly observe, ask the oracle for one action and execute it,
    until an executed action reports `complete`. The oracle is replaced by the
    finite sequence of actions it returns; running past its end stands for the
    oracle call failing, which ends the run. Observations (snapshot, current
    URL) read the page and are not part of the trace. */
module SpecLoop {
  import opened Actions

  /** The `stepCount > 10` ceiling checked at the top of every iteration. */
  const MaxSteps := 10

  /** How a run ends: which exit `executeSpec` takes and what it logs on the
      way. It is not a value handed back to the caller, since every normal
      exit returns `undefined`. */
  datatype Outcome =
    /** A terminal action completed; the run returns after logging it. */
    | Verdict(action: Action)
    /** The step guard fired ("max steps exceeded"). */
    | MaxStepsExceeded
    /** The oracle produced no further action. */
    | OracleExhausted
    /** The initial `page.goto(url)`, which is outside any `try`, threw. */
    | StartFailed

  /** A finished run: the page operations issued, how many oracle actions
      were executed, the final `stepCount`, and the outcome. */
  datatype Run = Run(trace: seq<BrowserOp>, executed: nat, stepCount: nat, outcome: Outcome)

  /** No action in `decisions[from..to]` is terminal. */
  ghost predicate NoVerdictBetween(decisions: seq<Action>, from: int, to: int)
  {
    forall k :: from <= k < to && 0 <= k < |decisions| ==> !decisions[k].IsTerminal()
  }

  /** The page operations of executing each of `actions` in turn. */
  function Traces(actions: seq<Action>, throwing: set<BrowserOp>): seq<BrowserOp>
  {
    if actions == [] then []
    else Execute(actions[0], throwing).trace + Traces(actions[1..], throwing)
  }

  /** The `while (true)` loop from the `i`-th oracle action on, as written:
      `stepCount` is tested but never changed, and a non-complete result,
      whether a clean step or a caught error, goes round again. */
  function Loop(decisions: seq<Action>, throwing: set<BrowserOp>, i: nat, stepCount: nat,
                trace: seq<BrowserOp>): (r: Run)
    requires i <= |decisions|
    ensures r.stepCount == stepCount
    ensures i <= r.executed <= |decisions|
    ensures stepCount > MaxSteps <==> r.outcome.MaxStepsExceeded?
    // only a terminal action ends the run with a verdict, and it is the first one
    ensures r.outcome.Verdict? ==>
      && r.executed > i
      && r.outcome.action == decisions[r.executed - 1]
      && r.outcome.action.IsTerminal()
      && NoVerdictBetween(decisions, i, r.executed - 1)
    // otherwise, with the guard quiet, the oracle ran dry without a verdict
    ensures r.outcome.OracleExhausted? <==>
      stepCount <= MaxSteps && NoVerdictBetween(decisions, i, |decisions|)
    ensures r.outcome.OracleExhausted? ==> r.executed == |decisions|
    ensures !r.outcome.StartFailed?
    decreases |decisions| - i
  {
    if stepCount > MaxSteps then Run(trace, i, stepCount, MaxStepsExceeded)
    else if i == |decisions| then Run(trace, i, stepCount, OracleExhausted)
    else
      var e := Execute(decisions[i], throwing);
      if e.result.Complete() then
        Run(trace + e.trace, i + 1, stepCount, Verdict(e.result.result))
      else
        Loop(decisions, throwing, i + 1, stepCount, trace + e.trace)
  }

  /** The page sees, in order, exactly the operations of the actions the loop
      executed, each action's own one or two. */
  lemma {:induction false} LoopTrace(decisions: seq<Action>, throwing: set<BrowserOp>, i: nat,
                                     stepCount: nat, trace: seq<BrowserOp>)
    requires i <= |decisions|
    ensures var r := Loop(decisions, throwing, i, stepCount, trace);
      r.trace == trace + Traces(decisions[i..r.executed], throwing)
    decreases |decisions| - i
  {
    var r := Loop(decisions, throwing, i, stepCount, trace);
    if stepCount <= MaxSteps && i < |decisions| {
      var e := Execute(decisions[i], throwing);
      if e.result.Complete() {
        assert decisions[i..i + 1] == [decisions[i]];
        assert Traces([decisions[i]], throwing) == e.trace + Traces([], throwing);
      } else {
        LoopTrace(decisions, throwing, i + 1, stepCount, trace + e.trace);
        assert decisions[i..r.executed][1..] == decisions[i + 1..r.executed];
      }
    }
  }

  /** `executeSpec(browser, { url, spec })` driven by the oracle's actions. */
  function ExecuteSpec(url: string, decisions: seq<Action>, throwing: set<BrowserOp>): (r: Run)
    ensures r.outcome.StartFailed? <==> Goto(url) in throwing
    ensures r.stepCount == 0 && !r.outcome.MaxStepsExceeded?
    ensures r.trace != [] && r.trace[0] == Goto(url)
  {
    if Goto(url) in throwing then Run([Goto(url)], 0, 0, StartFailed)
    else
      LoopTrace(decisions, throwing, 0, 0, [Goto(url)]);
      Loop(decisions, throwing, 0, 0, [Goto(url)])
  }

  /** A run ends with a verdict exactly at the first terminal action, having
      executed every action before it, or executes every action the oracle
      gives when none is terminal; the step guard never fires and `stepCount`
      stays 0, so a run without a terminal action is bounded only by the oracle. */
  lemma ExecuteSpecEnds(url: string, decisions: seq<Action>, throwing: set<BrowserOp>, k: nat)
    requires Goto(url) !in throwing
    requires k <= |decisions| && NoVerdictBetween(decisions, 0, k)
    requires k < |decisions| ==> decisions[k].IsTerminal()
    ensures var r := ExecuteSpec(url, decisions, throwing);
      && r.stepCount == 0
      && !r.outcome.MaxStepsExceeded?
      && r.trace == [Goto(url)] + Traces(decisions[..r.executed], throwing)
      && (k < |decisions| ==> r.outcome == Verdict(decisions[k]) && r.executed == k + 1)
      && (k == |decisions| ==> r.outcome == OracleExhausted && r.executed == |decisions|)
  {
    var r := ExecuteSpec(url, decisions, throwing);
    LoopTrace(decisions, throwing, 0, 0, [Goto(url)]);
    assert decisions[0..r.executed] == decisions[..r.executed];
    if k < |decisions| {
      assert r.outcome.Verdict?;
    }
  }

  /** An error result does not end the run: with more oracle actions the loop
      executes the next one. */
  lemma ErrorContinues(decisions: seq<Action>, throwing: set<BrowserOp>, i: nat, stepCount: nat,
                       trace: seq<BrowserOp>)
    requires i < |decisions| && stepCount <= MaxSteps
    requires Execute(decisions[i], throwing).result.Errored?
    ensures Loop(decisions, throwing, i, stepCount, trace)
         == Loop(decisions, throwing, i + 1, stepCount, trace + Execute(decisions[i], throwing).trace)
  {
  }

  /** For the same sequence of oracle actions, which page operations throw
      never changes how a run ends or how many actions it executes, because
      an error result and a clean step are both non-complete. A live oracle
      reads the page after each step, so a failure can change the actions it
      picks next; that is outside this statement. */
  lemma LoopOutcomeIgnoresFaults(decisions: seq<Action>, throwing: set<BrowserOp>,
                                  throwing': set<BrowserOp>, i: nat, stepCount: nat,
                                  trace: seq<BrowserOp>, trace': seq<BrowserOp>)
    requires i <= |decisions|
    ensures var r := Loop(decisions, throwing, i, stepCount, trace);
      var r' := Loop(decisions, throwing', i, stepCount, trace');
      r.outcome == r'.outcome && r.executed == r'.executed
  {
  }

  // ---------------------------------------------------------------------------
  // The step budget as evidently intended

  /** The loop with `stepCount` incremented after every non-complete step, so
      that the `stepCount > 10` guard bounds the run. */
  function LoopBudgeted(decisions: seq<Action>, throwing: set<BrowserOp>, i: nat, stepCount: nat,
                        trace: seq<BrowserOp>): (r: Run)
    requires i <= |decisions|
    ensures i <= r.executed <= |decisions|
    ensures stepCount <= MaxSteps + 1 ==> r.executed - i <= MaxSteps + 1 - stepCount
    ensures !r.outcome.StartFailed?
    ensures r.outcome.MaxStepsExceeded? ==> r.stepCount == MaxSteps + 1 || stepCount > MaxSteps
    ensures r.outcome.Verdict? ==>
      && r.executed > i
      && r.outcome.action == decisions[r.executed - 1]
      && r.outcome.action.IsTerminal()
    ensures stepCount <= MaxSteps && |decisions| - i > MaxSteps - stepCount
            && NoVerdictBetween(decisions, i, i + MaxSteps + 1 - stepCount)
            ==> r.outcome.MaxStepsExceeded? && r.executed == i + MaxSteps + 1 - stepCount
    decreases |decisions| - i
  {
    if stepCount > MaxSteps then Run(trace, i, stepCount, MaxStepsExceeded)
    else if i == |decisions| then Run(trace, i, stepCount, OracleExhausted)
    else
      var e := Execute(decisions[i], throwing);
      if e.result.Complete() then
        Run(trace + e.trace, i + 1, stepCount, Verdict(e.result.result))
      else
        LoopBudgeted(decisions, throwing, i + 1, stepCount + 1, trace + e.trace)
  }

  function ExecuteSpecBudgeted(url: string, decisions: seq<Action>, throwing: set<BrowserOp>): (r: Run)
    ensures r.outcome.StartFailed? <==> Goto(url) in throwing
    ensures r.executed <= MaxSteps + 1
  {
    if Goto(url) in throwing then Run([Goto(url)], 0, 0, StartFailed)
    else LoopBudgeted(decisions, throwing, 0, 0, [Goto(url)])
  }

  /** With the increment, a run executes at most eleven oracle actions, and an
      oracle that keeps producing non-terminal actions is cut off after exactly
      eleven with no verdict. */
  lemma BudgetBoundsRun(url: string, decisions: seq<Action>, throwing: set<BrowserOp>)
    ensures Goto(url) !in throwing && |decisions| > MaxSteps && NoVerdictBetween(decisions, 0, MaxSteps + 1)
            ==> ExecuteSpecBudgeted(url, decisions, throwing).outcome == MaxStepsExceeded
  {
  }

  /** As written, the guard never fires: an oracle that emits twelve hovers is
      followed through all twelve, and the run ends only when the oracle does. */
  lemma GuardNeverFires(url: string, throwing: set<BrowserOp>)
    requires Goto(url) !in throwing
    ensures var hovers := seq(MaxSteps + 2, _ => HoverOver(AriaSelector("button", map[])));
      var r := ExecuteSpec(url, hovers, throwing);
      r.executed == MaxSteps + 2 && r.outcome == OracleExhausted
  {
  }
}
