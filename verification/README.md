# Threads enhance buttons — a Dafny model of the content script's core

The browser extension adds two buttons to every post of a Threads feed:
"不感興趣" (not interested) and "封鎖" (block). Clicking one drives the post's
own overflow menu as a user would. The script opens the menu, finds the entry
by its text, clicks it, confirms a block when a dialog follows, and then hides
the post. This project models the core of `content.js`:

- **Resolver** (`resolver.dfy`): `findClosestClickableParent`. It is a bounded
  walk, at most ten steps, up an element's ancestor chain to the first element
  the platform treats as a control.
- **Scanner** and **Injector** (`scanner.dfy`, `injector.dfy`): `processPosts`
  and `addButtonsToPost`. They cover the marker-container idempotence check,
  the three lookups that locate the insertion point, and where the container
  lands. They also cover the handlers of the two buttons and of the container:
  `stopPropagation`, the `clicked` class and the disable guard.
- **Orchestrator** (`orchestrator.dfy`, `run_properties.dfy`):
  `handleNotInterested` and `handleBlock`. The two near-identical handlers are
  written as one run parameterised by a per-action policy (`config.dfy`). A run
  takes the page snapshots its queries see after each fixed delay. It returns
  the state-machine phases it passes through and the ordered effects it has on
  the page: messages, clicks, waits and the hide.
- **Feedback** (`feedback.dfy`): the single-instance part of
  `showActionFeedback`.
- **Dom** (`dom.dfy`): the element properties the script reads, plus
  `String.prototype.trim`, `includes` and class-token selector matching.

Elements are values, not live nodes. An element's ancestry is a chain in which
index 0 is the element and index i + 1 is its `parentElement`. A chain ends
where `parentElement` is `null`. A flag says whether the top element hangs
under the Document, which is the case for any element of the live page. Timers
are `Wait` effects with the script's constant delays. A query made after a
delay reads a `Snapshot` parameter, so the page's asynchronous changes are
inputs of the model.

## Model

| member | source | states |
|---|---|---|
| Resolver.ClosestClickable | content.js:432-450 | The result is the first clickable element among the first ten of the chain (role `button`, a `BUTTON`, or a `DIV` with tabindex `0` or class text containing `x1i10hfl`). It is `None` exactly when none of those ten is clickable. |
| Resolver.FindClosestClickableParent | content.js:432-450 | The counted loop stops at the first clickable element within the depth bound and otherwise returns null. It agrees with `ClosestClickable` on every chain. |
| Resolver.OnlyBoundedPrefixMatters | content.js:435-437 | Two chains that agree on their first ten elements resolve the same way, whatever lies above. |
| Injector.BuildContainer | content.js:68-115 | The container carries the marker class token. It holds exactly the not-interested button and then the block button, both enabled and unpressed. Each button is labelled with its own action's text and carries the shared button class token. |
| Injector.Bubble | content.js:79-120 | A click runs the listeners from its target upward until and including the first that stops propagation, and no further. |
| Injector.ClickButton | content.js:79-111 | A disabled button receives no click and starts nothing. An enabled one cancels the default action, becomes pressed and disabled, and hands exactly its own action to the orchestrator. None of the page's bubble-phase listeners runs. |
| Injector.ClickContainer | content.js:117-120 | A click on the container between its buttons runs only the container's own listener, so it never bubbles to the page. Unlike the buttons' handlers, it leaves the default action alone. |
| Injector.ActionStartsAtMostOnce | content.js:85-86 | However often a button is clicked, its action starts once if the button was enabled and clicked at all, and otherwise never. Afterwards the button is disabled. |
| Injector.Place | content.js:122-127 | The container is inserted after the target in the target's parent element, or as the post's first child when the target has no parent. Inserting into the Document throws. |
| Scanner.ScanPost | content.js:49-63 | A post that already holds a marker container, or whose menu-icon lookup, clickable-ancestor lookup or ancestor `parentNode` fails, is left unchanged. Otherwise the insertion throws exactly when the anchor is the top element of a chain hanging under the Document. When it does not throw, the post gains exactly one container. That container lies inside the post exactly when the anchor is the Document, an element strictly below the post, or a detached top element. A well-anchored fresh post gets its container inside. |
| Scanner.Scan | content.js:45-65 | Without an exception every post becomes its single-post result. The pass aborts exactly when some post's insertion throws, and no post ever changes other than by its own visit. |
| Scanner.ScanVisitsBeforeFirstThrow | content.js:49-63 | A pass visits the posts in document order: every post before the first throwing one has had its visit, and the pass aborts exactly when such a post exists. |
| Scanner.ScanStopsAtFirstThrow | content.js:49-63 | The post whose insertion throws first, and every later post, are left exactly as they were. |
| Scanner.ScanWellAnchored | content.js:45-65 | On a well-anchored page a pass never throws. It gives each eligible post that has no container exactly one inside, and leaves every other post as it was, whatever earlier passes did. |
| Scanner.ScanInstrumentsEligible | content.js:45-65 | On a well-anchored pristine page one pass completes and gives exactly the eligible posts one inside container each, changing nothing else. |
| Scanner.ScanTwiceIsScanOnce | content.js:49-53 | The idempotence of scanning on any well-anchored page, including one that earlier passes already instrumented in part: a second pass over the result of the first changes nothing. Every eligible post then holds a container inside it, and no container is added outside a post. |
| Scanner.ScanKeepsSettled | content.js:45-65 | The invariant the periodic passes keep: on a well-anchored page where every post holds at most one container and none lies outside, a pass preserves that, and every eligible post ends with exactly one container. |
| Scanner.AnchorOutsidePostDuplicates | content.js:59-61 | When the insertion point lies outside the post, the marker check never sees the container, so each further pass inserts one more. The anchor hypothesis of idempotence is therefore needed. |
| Orchestrator.Filter | content.js:160-162 | Every element kept satisfies the predicate and comes from the input. The result is empty exactly when nothing matches, and its first element is the first match. |
| Orchestrator.FilterKeepsEveryMatch | content.js:160-162 | No match is dropped: every element satisfying the predicate is in the result. |
| Orchestrator.FilterAppend | content.js:160-162 | Filtering keeps document order: the matches of an earlier part of the input come before those of a later part. |
| Orchestrator.ChooseOption | content.js:159-217 | Strategy 2 is used only when strategy 1 finds nothing. Strategy 3 (role-button divs by their first span) is used only when both find nothing. Only the first strategy 1/2 match is resolved; when it has no clickable ancestor the search fails without strategy 3. The search finds nothing exactly when no strategy matches. |
| Orchestrator.ConfirmTarget | content.js:274-287 | The confirmation click targets the clickable ancestor of the first role-button span whose text contains the label. There is none exactly when no span matches or the first match has no clickable ancestor. A later match is never tried. |
| Orchestrator.ConfirmMatchIsLooser | content.js:276-278 | The confirmation search matches by containment, so every span strategy 1 accepts for the label is also a confirmation candidate. |
| Orchestrator.RunPathsAreLegal | content.js:131-341 | The four phase sequences a run can take are legal walks of the state machine from `Idle` to `Completed` or `Abandoned`. |
| Orchestrator.Conclude | content.js:183-216 | Closing a run appends the terminal message, then the background click when the menu was left open, then the hide. It keeps every earlier effect. |
| Orchestrator.Search | content.js:173-217 | A resolved or direct match is clicked and the run succeeds. An unresolvable match fails as "option unclickable" and no match fails as "option missing". Both failures click the background to close the menu. |
| Orchestrator.ConfirmStep | content.js:273-293 | Blocking's confirmation step waits for the dialog, clicks the confirmation when the search found one, and waits again before reporting. It shows and hides nothing. |
| Orchestrator.Finish | content.js:180-186 | After the menu entry is clicked the run always reports success and takes the success walk, with the confirmation phase only for blocking. |
| Orchestrator.GiveUp | content.js:136-148 | A run whose menu trigger is missing or unclickable shows the progress message, then the failure message, then hides the post. It takes the one-step walk to `Abandoned` and clicks nothing. |
| Orchestrator.RunWith | content.js:131-341 | A run fails as "menu button missing" exactly when the menu icon is absent, and as "menu button unclickable" exactly when the icon has no clickable ancestor. Otherwise it clicks that ancestor and waits for the menu. From then on the menu search's result decides the outcome: success exactly when it yields an element, which is then clicked. |
| Orchestrator.Run | content.js:131-341 | A run shows the progress message first and hides the post last. Its walk is legal and ends in the phase matching its outcome. The two trigger failures happen exactly when the icon or its clickable ancestor is missing, and a failure at the menu entry clicks the background before the hide. Only a successful block passes through the confirmation phase. |
| Orchestrator.RunFollowsSearch | content.js:155-217 | Once the menu is open, the outcome follows the three-strategy search on the menu snapshot. The run succeeds exactly when the search yields an element, and that element is the run's second click. |
| RunProperties.TraceCounts | content.js:131-341 | A well-formed trace shows exactly two messages, the progress message and then the terminal one, and hides the post exactly once. |
| RunProperties.TerminalGuarantee | content.js:131-341 | Whichever lookup fails, every run shows its progress message and then exactly one terminal message naming its path. It hides the post exactly once, as its last effect. |
| RunProperties.RunWait | content.js:150-340 | A successful run waits 1000 in total (not interested) or 1500 (block), whether or not a confirmation was clicked. A run failing at the menu trigger waits not at all, and one failing at the menu entry waits 500. |
| RunProperties.RunClicks | content.js:150-340 | A run clicks the trigger's clickable ancestor, then the entry the menu search chose, then, for block, the resolved confirmation, and nothing else. |
| RunProperties.FinishMeasures | content.js:274-292 | Between the entry click and the report, blocking waits 1000 and clicks at most the confirmation, while marking not interested waits 500 and clicks nothing. |
| RunProperties.DialogOnlyAddsConfirmClick | content.js:273-293 | The confirmation dialog decides only whether one more element is clicked. Outcome, phases, messages, hide and total delay do not depend on it, and a not-interested run ignores it entirely. |
| Config.PolicyTable | content.js:133-216 | For each action the six feedback texts are pairwise distinct, so the terminal message identifies the path taken. The menu label is the button text, and only blocking confirms. |
| Dom.Trim | content.js:161-161 | `trim` removes exactly the leading and trailing ECMAScript white space and line terminators and keeps the contiguous rest. |
| Dom.TrimPadded | content.js:161-161 | A word padded on either side with trim-space trims back to itself, so a menu label rendered with surrounding whitespace still matches. |
| Feedback.Show | content.js:344-375 | A call removes the first attached overlay, if any, and appends its own. With at most one overlay before, exactly the new one is attached afterwards. With more, the count stays the same. |
| Feedback.Expire | content.js:385-390 | The delayed removal removes its own overlay when still attached and does nothing otherwise, keeping every other overlay. |
| Feedback.AtMostOneOverlay | content.js:344-393 | Starting from at most one overlay, every sequence of calls and delayed removals leaves at most one. Right after a call, exactly its own overlay is attached. |
| Feedback.LatestMessageStays | content.js:348-389 | The latest call's message stays attached until its own removal fires. The delayed removal of an overlay it superseded does nothing. |

## Left out

- `popup.js` is not part of this model: it is the extension's popup page and is separate from the content script.
- Lifecycle (`init`, the `MutationObserver`, the 1000 ms `setInterval` and the `DOMContentLoaded` hook, content.js:22-42 and 452-457) is left out. It only decides when `processPosts` runs, and the model states what one pass does.
- `hidePostWithAnimation` (content.js:395-429) is reduced to a single `HidePost` effect. Its styles, reflow and nested timers are presentation with no further observable content.
- The inline styles, fade timings and opacity states of the feedback overlay (content.js:353-384) are left out. An overlay is either attached or gone.
- `console.log` calls are left out.
- Concurrency between runs is left out: two runs started on different posts interleave their timers on the live page. Each run is modelled alone, with the page it sees given as snapshots.
- CSS selectors are modelled only as far as the script uses them. `div[role="button"] span` and `div.x1i10hfl span` are ancestor tests on a span's chain, and `.class` is a whitespace-token test. The document-order interleaving of spans and role-button divs in one snapshot is not constrained.
- Posts nested in other posts are treated independently. One post's container is not counted inside an enclosing post.
- Feedback.Show: the page is reduced to the overlays among the body's children. An element with the feedback class elsewhere in the document (`removeChild` would then throw) is not modelled.
- Injector.ClickButton: only bubble-phase listeners of the button's ancestors are modelled. A capture-phase listener the page registers on an ancestor runs before the button's handler and is not covered by the "never runs" statement. What the browser does for a default action that is not cancelled is also not modelled; the model records only whether it was cancelled.
- Orchestrator.Run: the click on the menu trigger and on a chosen entry is an effect. What the page does in response is seen only through the `menu` and `dialog` snapshots given as parameters.
