/** The action vocabulary and `executeAction` of x.js. The browser page is
    replaced by the trace of operations the executor issues to it, and by the
    set of operations that throw when issued. */
module Actions {

  /** `{ role, options }`: an accessibility role plus options such as the
      accessible name, handed unchanged to the page's role query. */
  datatype AriaSelector = AriaSelector(role: string, options: map<string, string>)

  /** One decision of the oracle, already parsed. `Unknown` stands for a
      payload whose `actionType` is none of the ten the executor handles. */
  datatype Action =
    | HoverOver(selector: AriaSelector)
    | ClickOn(selector: AriaSelector)
    | DoubleClickOn(selector: AriaSelector)
    | KeyboardInputString(selector: AriaSelector, text: string)
    | KeyboardInputSingleKey(selector: AriaSelector, key: string)
    | Scroll(deltaX: int, deltaY: int)
    | HardWait(milliseconds: int)
    | Navigate(url: string)
    | MarkSpecAsPassed(details: string)
    | MarkAsFailed(details: string)
    | Unknown(actionType: string)
  {
    /** The two verdicts that end a spec run. */
    predicate IsTerminal()
    {
      MarkSpecAsPassed? || MarkAsFailed?
    }
  }

  /** One call the executor makes on the browser page. */
  datatype BrowserOp =
    | Hover(selector: AriaSelector)
    | Click(selector: AriaSelector)
    | DoubleClick(selector: AriaSelector)
    | Fill(selector: AriaSelector, text: string)
    | Press(selector: AriaSelector, key: string)
    | MouseWheel(deltaX: int, deltaY: int)
    | WaitForTimeout(milliseconds: int)
    | Goto(url: string)

  /** The pause after every browser action, `page.waitForTimeout(50)`. */
  const SettleMillis := 50
  const Settle := WaitForTimeout(SettleMillis)

  /** Why an execution failed: the `default` branch's `Error`, or an
      exception from the page. */
  datatype Failure = UnknownAction(actionType: string) | OpThrew(op: BrowserOp)

  /** The three shapes `executeAction` returns: `{ complete: true, result: action }`,
      `{ complete: false, result: null }` and `{ error, success: false }`. */
  datatype ActionResult = Completed(result: Action) | Continued | Errored(error: Failure)
  {
    /** The truth value of `actionResult.complete`; an error result has no
        `complete` field, which is falsy. */
    predicate Complete()
    {
      Completed?
    }
  }

  /** What one call did: the operations issued to the page, in order (an
      operation that threw is still issued), and the value returned. */
  datatype Execution = Execution(trace: seq<BrowserOp>, result: ActionResult)

  /** The single page operation of a browser action; terminal and unknown
      actions have none. */
  function OpFor(action: Action): BrowserOp
    requires !action.IsTerminal() && !action.Unknown?
  {
    match action
    case HoverOver(sel) => Hover(sel)
    case ClickOn(sel) => Click(sel)
    case DoubleClickOn(sel) => DoubleClick(sel)
    case KeyboardInputString(sel, text) => Fill(sel, text)
    case KeyboardInputSingleKey(sel, key) => Press(sel, key)
    case Scroll(dx, dy) => MouseWheel(dx, dy)
    case HardWait(ms) => WaitForTimeout(ms)
    case Navigate(url) => Goto(url)
  }

  /** The action a page operation carries out: the inverse of `OpFor`. */
  function ActionOf(op: BrowserOp): Action
  {
    match op
    case Hover(sel) => HoverOver(sel)
    case Click(sel) => ClickOn(sel)
    case DoubleClick(sel) => DoubleClickOn(sel)
    case Fill(sel, text) => KeyboardInputString(sel, text)
    case Press(sel, key) => KeyboardInputSingleKey(sel, key)
    case MouseWheel(dx, dy) => Scroll(dx, dy)
    case WaitForTimeout(ms) => HardWait(ms)
    case Goto(url) => Navigate(url)
  }

  /** The page operation carries every parameter of its action: nothing the
      oracle chose is dropped on the way to the browser. */
  lemma OpForRoundTrip(action: Action)
    requires !action.IsTerminal() && !action.Unknown?
    ensures ActionOf(OpFor(action)) == action
  {
  }

  /** `executeAction(page, action)`. Every branch runs inside one `try`, so an
      unknown action type and any throwing page operation both come back as an
      error result rather than escaping. */
  function Execute(action: Action, throwing: set<BrowserOp>): (e: Execution)
    // verdicts: complete, with the action itself as result, and no page call
    ensures action.IsTerminal() <==> e.result.Complete()
    ensures action.IsTerminal() ==> e == Execution([], Completed(action))
    // an unknown type is an error before any page call
    ensures action.Unknown? ==> e == Execution([], Errored(UnknownAction(action.actionType)))
    // every other action, in summary (the three exact clauses below imply it): its one
    // page operation first, then the settle wait unless that threw
    ensures !action.IsTerminal() && !action.Unknown? ==>
      && 1 <= |e.trace| <= 2
      && ActionOf(e.trace[0]) == action
      && e.trace[1..] <= [Settle]
    ensures !action.IsTerminal() && !action.Unknown? && e.result.Continued? ==>
      e.trace == [OpFor(action), Settle]
    ensures !action.IsTerminal() && !action.Unknown? && OpFor(action) in throwing ==>
      e == Execution([OpFor(action)], Errored(OpThrew(OpFor(action))))
    ensures !action.IsTerminal() && !action.Unknown? && OpFor(action) !in throwing ==>
      e.trace == [OpFor(action), Settle]
    // only the `default` branch reports an unknown action; every other error is a throw
    ensures !action.Unknown? && e.result.Errored? ==> e.result.error.OpThrew?
    // it continues exactly when that operation and the settle wait both returned
    ensures e.result.Continued? <==>
      !action.IsTerminal() && !action.Unknown? && (forall op :: op in e.trace ==> op !in throwing)
    // an error names the operation that threw, which is the last one issued
    ensures e.result.Errored? && e.result.error.OpThrew? ==>
      e.trace != [] && e.result.error.op == e.trace[|e.trace| - 1] && e.result.error.op in throwing
  {
    if action.IsTerminal() then Execution([], Completed(action))
    else if action.Unknown? then Execution([], Errored(UnknownAction(action.actionType)))
    else
      var op := OpFor(action);
      if op in throwing then Execution([op], Errored(OpThrew(op)))
      else if Settle in throwing then Execution([op, Settle], Errored(OpThrew(Settle)))
      else Execution([op, Settle], Continued)
  }
}
