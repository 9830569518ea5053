# autospec core in Dafny

A model of the core of autospec, a browser-driving test agent. The model covers
the three parts of `x.js` that hold real logic:

- **Site crawler.** This is `captureAccessibilityTrees` with its inner `visitPage`.
  It is a recursive pre-order depth-first traversal over link targets. A visited
  set only grows. The same-site filter is the substring test `url.includes(startUrl)`.
  Each page catches its own failures.
- **Action executor.** This is `executeAction`. It dispatches on the action type and
  gives one of three result shapes: `{complete: true, result: action}`,
  `{complete: false, result: null}` or `{error, success: false}`.
- **Spec execution loop.** This is the control skeleton of `executeSpec`. It observes,
  asks the oracle for one action, executes it, and stops at the first result that is
  `complete`.

The browser is abstract in every part:

- For the crawler, a site is a finite map from URL to a `Page`. A page has one of
  three forms. `Links(tree, targets)` means it loaded and rendered those anchors.
  `SnapshotOnly(tree)` means it loaded, but reading its anchors threw. `Fails` means
  `goto` or the snapshot threw. A URL the map does not hold also fails.
- The crawl is a pair of mutually recursive pure functions, `Visit` and `VisitLinks`.
  They thread `(visited, records)` through. They terminate on the number of known
  pages not yet visited.
- The executor returns the trace of operations it issued to the page, and its
  result. Which operations throw is a parameter: a set of operations.
- The oracle is a finite sequence of already-parsed actions. Running past its end
  stands for the oracle call failing. That call is outside any `try`, so a failure
  ends the run.

Files:

- `strings.dfy`: the substring test.
- `crawler.dfy`: the crawl.
- `crawl_properties.dfy`: what the crawl guarantees.
- `crawl_worklist.dfy`: an explicit-stack crawl, proved equal to the recursive one.
- `actions.dfy`: the action vocabulary and the executor.
- `spec_loop.dfy`: the execution loop.
- `scenarios.dfy`: concrete runs.

Two points where the code behaves differently from what it evidently intends.
The model follows the code in both:

- The step budget does not work. `stepCount` is set to 0 at x.js:176 and never
  incremented. So the guard `stepCount > 10` at x.js:179 never fires. The run ends
  only at a terminal action, or when the oracle stops. The guard and its "max steps
  exceeded" message (x.js:180) show that a budget was intended. See "Findings".
- An unknown action type is not a crash. The `default` branch throws at
  x.js:137-138, but that throw is inside the `try` and is caught at x.js:142. So the
  executor returns an error result, and the loop continues.

## Model

| member | source | states |
|---|---|---|
| Strings.Includes | x.js:19 | The same-site test holds exactly when the start URL occurs as a contiguous substring of the URL. The empty start URL is included in every URL. |
| Crawler.Visit | x.js:18-44 | Visiting a URL only adds to the visited set, and only appends records after the existing ones. |
| Crawler.VisitLinks | x.js:36-40 | Visiting a page's links in order only adds to the visited set, and only appends records after the existing ones. |
| Crawler.Crawl | x.js:12-49 | The crawl result is empty exactly when the start URL's page fails to load. Otherwise the result opens with the start URL's record. |
| CrawlProperties.VisitConsistent | x.js:19-28 | A visit keeps four facts. Every visited URL contains the start URL. No URL is recorded twice. Each record holds the snapshot of a page that loaded. The visited URLs are exactly the recorded ones plus those whose page failed. |
| CrawlProperties.VisitLinksConsistent | x.js:36-43 | The link loop keeps the same four facts, whatever its links do, including links that fail. |
| CrawlProperties.VisitCovers | x.js:23-39 | After visiting a same-site URL, that URL is visited. Every page recorded during the visit has all its same-site link targets visited. |
| CrawlProperties.VisitLinksCovers | x.js:36-43 | After the link loop, every same-site link in the list is visited. A failure on one link does not stop the later ones. |
| CrawlProperties.VisitDiscoveryOrder | x.js:28-39 | Records stay in discovery order. The start URL's record comes first. Each later record's page is linked from a page recorded before it. Depth-first order is stated by `VisitSubtree` and `VisitLinksAppend`. |
| CrawlProperties.VisitLinksDiscoveryOrder | x.js:36-39 | The link loop keeps discovery order when every listed link comes from an already-recorded page. |
| CrawlProperties.VisitLinksAppend | x.js:36-39 | The link loop over `a + b` is the loop over `a`, then the loop over `b` from the state it left. Links are taken in the order listed, and everything started from one link finishes before the next link is looked at. |
| CrawlProperties.VisitSubtree | x.js:23-39 | The records one visit appends form that URL's subtree. They start with the URL's own record, and each later one is reached through a link of a page recorded earlier in the same visit. |
| CrawlProperties.VisitLinksForest | x.js:36-43 | Each record the link loop appends is one of the listed links, or is reached through a page recorded earlier in the same loop. |
| CrawlProperties.VisitSkips | x.js:19-21 | A URL that is already visited, or does not contain the start URL, leaves the visited set and the records unchanged. |
| CrawlProperties.VisitFresh | x.js:23-33 | A fresh same-site URL is marked visited before navigation. If it fails to load, it leaves no record. If link extraction throws, it keeps its record and no links are followed. If its links are read, its record comes before every record reached through them. |
| CrawlProperties.VisitTwice | x.js:19-23 | A URL is never retried. Visiting it a second time changes nothing, whether or not it loaded the first time. |
| CrawlProperties.FailedLinkSkipped | x.js:36-43 | A link whose page fails is marked visited and adds no record. The loop then goes on with the remaining links. |
| CrawlProperties.RevisitAddsNothing | x.js:36-40 | Re-crawling links that are all visited or off-site adds no records and no visits. |
| CrawlProperties.CrawlCorrect | x.js:12-49 | The crawl result has one faithful record per distinct same-site URL, in discovery order, starting at the start URL. It is empty exactly when the start page fails. It is closed under links: every same-site target of a recorded page that loads is itself recorded. |
| CrawlWorklist.CrawlIteratively | x.js:18-46 | An explicit-stack crawl that does the same work as the recursive `visitPage` produces the same records in the same order. |
| Actions.Execute | x.js:81-150 | The result is complete exactly for `markSpecAsPassed` and `markAsFailed`. In that case the result is the action itself and no page operation is issued. An unknown type gives an error and issues no operation. Every other action issues its one page operation first. If that operation throws, the result is an error naming it, and no settle wait follows. Otherwise the 50 ms settle wait is issued next. The result continues exactly when neither threw. Only an unknown type gives an unknown-action error; every other error names the operation that threw. |
| Actions.OpForRoundTrip | x.js:84-131 | Each browser action's page operation carries all of the action's parameters. The action can be recovered from the operation. |
| SpecLoop.Loop | x.js:176-204 | The loop never changes `stepCount`. The guard fires only if `stepCount` already exceeds 10. A verdict is the first terminal action, and every action before it ran without ending the run. The run ends because the oracle ran dry exactly when no remaining action is terminal, and then every action was executed. |
| SpecLoop.LoopTrace | x.js:178-203 | The page sees exactly the operations of the executed actions, in order, appended to what came before. |
| SpecLoop.ExecuteSpec | x.js:173-204 | The run fails at the start exactly when the first navigation throws. `stepCount` ends at 0, the step guard never fires, and the page's first operation is the navigation to the spec's URL. |
| SpecLoop.ExecuteSpecEnds | x.js:173-204 | Suppose the first navigation works and `k` is the index of the first terminal action, or the oracle's length if there is none. The run ends at the verdict `decisions[k]` after executing `k + 1` actions. An outcome is the exit the run takes and what it logs, not a value returned to the caller: every normal exit returns `undefined`. Or, with no terminal action, it executes every action. It never aborts. |
| SpecLoop.LoopOutcomeIgnoresFaults | x.js:197-203 | For the same sequence of oracle actions, which page operations throw never changes how a run ends or how many actions it executes. Only `complete` ends the loop, and it depends on the action alone. |
| SpecLoop.ErrorContinues | x.js:197-203 | An action whose execution is an error does not end the run. The loop goes on to the next oracle action. |
| SpecLoop.GuardNeverFires | x.js:176-182 | As written, an oracle that emits twelve non-terminal actions has all twelve executed. The run then ends only because the oracle stops. |
| SpecLoop.LoopBudgeted | x.js:176-182 | With `stepCount` incremented after each non-complete step, at most eleven actions run. Eleven non-terminal actions in a row end the run at the guard. |
| SpecLoop.ExecuteSpecBudgeted | x.js:176-182 | With the increment, a spec run executes at most eleven oracle actions. |
| SpecLoop.BudgetBoundsRun | x.js:179-182 | With the increment, an oracle whose first eleven actions are all non-terminal is cut off with "max steps exceeded". |
| Scenarios.ThreePageCrawl | x.js:12-49 | A start page with two same-site links and one external link yields exactly three records, in depth-first order. The external page is never recorded. |
| Scenarios.NestedCrawlIsDepthFirst | x.js:28-39 | The start page links to A then B, and A links to C. The crawl records start, A, C, B: C, reached through A, comes before A's later sibling B. |
| Scenarios.CreateTodoPasses | x.js:152-205 | Typing an item, pressing Enter, then judging the spec passed gives a passed verdict after three actions. The page sees each action followed by its settle wait. |
| Scenarios.MissingElementContinues | x.js:81-150 | A click on a missing element is caught as an error. The run continues to the next action's verdict, and `stepCount` stays 0. |

## Left out

- `generateTestSpecs` (x.js:51-79) is left out. It is a single oracle call plus prompt text, with no control logic.
- The oracle is left out: the `generateObject` calls and all prompt strings (x.js:153-167, x.js:187-196). It appears only as the finite sequence of actions it returns.
- The action schema (`actionSchema` in `schemas.js`) is left out. `schemas.js` is not part of this model. Actions are taken as already parsed, and `Unknown` stands for any type the executor does not handle.
- Playwright internals are left out: role-query resolution and its first-match rule, snapshot contents (opaque strings here), the DOM query for anchors (a page's `targets`), and real timing.
- Observations in the loop (snapshot and current URL, x.js:184-185) read the page and are not part of the trace. If they throw, the exception escapes the loop. That case, and an oracle call that throws, both appear as the oracle stopping.
- The text of the unknown-action error is left out. It interpolates `action.action`, a field the action vocabulary does not have. The model records only the action type.
- Process entry and environment are left out: `dotenv`, model construction, and the hard-coded run (x.js:8-10, x.js:207-233). Console logging and async suspension are left out too. The flow is strictly sequential.
- String encoding: JavaScript strings are UTF-16 code-unit sequences. Here they are `seq<char>`, and a `char` is a Unicode scalar value. The substring test agrees on well-formed strings. Strings holding a lone surrogate cannot be represented.
- Actions.Execute: which page operations throw is one set, fixed for the whole run. An operation that throws once throws at every later step. The first `goto(url)` and a later `navigate` to the same URL always behave alike. The real page is stateful. For the same sequence of oracle actions, `SpecLoop.LoopOutcomeIgnoresFaults` shows this affects only the page trace, never the outcome or the number of actions executed. A live oracle sees the page after each step, so a failure can change the actions it returns; the model does not follow that.
- Number parameters: `deltaX`, `deltaY` and `milliseconds` are JavaScript numbers. Here they are `int`, so fractional values are not modelled.
- Opening a page: `browser.newPage()` at x.js:13 and x.js:173 is outside any `try`. If it fails, the crawl or the run ends with an exception. This failure is not modelled.

## Findings

| source | as written | input that shows it | evidently intended | confidence | as-written member | corrected member |
|---|---|---|---|---|---|---|
| x.js:176-182 | `stepCount` starts at 0 and is never incremented, so the `stepCount > 10` guard never holds | an oracle that returns twelve `hoverOver` actions: all twelve run, and the run ends only when the oracle stops | `stepCount` is incremented once per non-terminal step, so the run stops after eleven actions with "max steps exceeded" | high; not executed | SpecLoop.GuardNeverFires | SpecLoop.BudgetBoundsRun |

The rest of the model keeps the loop as written: `SpecLoop.Loop` and `SpecLoop.ExecuteSpec`. The budgeted loop, `SpecLoop.LoopBudgeted`, is given only to pin down the intended behaviour.
