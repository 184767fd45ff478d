/** The menu-action orchestrator (`handleNotInterested` / `handleBlock`): one
    run of an action on one post, from the click on an injected button to the
    post being hidden. The page is seen through the snapshots the run queries
    after each fixed delay; the run yields the phases it passes through and the
    effects it has on the page, in order. */
module Orchestrator {
  import opened Dom
  import opened Config
  import opened Resolver
  import opened Scanner

  /** A `span` of the page with its text and its element-ancestor chain
      (index 0 is the span itself). */
  datatype Span = Span(text: string, chain: seq<Elem>)

  /** A `div[role="button"]` and the text of its first descendant `span`, if
      it has one. */
  datatype RoleButton = RoleButton(elem: Elem, firstSpanText: Option<string>)

  /** What a query of the live page sees at one instant: its spans and its
      role-button divs, each in document order. */
  datatype Snapshot = Snapshot(spans: seq<Span>, roleButtons: seq<RoleButton>)

  predicate IsRoleButtonDiv(e: Elem) {
    e.tag == "DIV" && e.role == Some("button")
  }

  predicate IsPlatformDiv(e: Elem) {
    e.tag == "DIV" && HasClassToken(e.className, PlatformClass)
  }

  /** The span matches the selector `div[role="button"] span`. */
  predicate InRoleButton(s: Span) {
    exists i :: 1 <= i < |s.chain| && IsRoleButtonDiv(s.chain[i])
  }

  /** The span matches the selector `div.x1i10hfl span`. */
  predicate InPlatformDiv(s: Span) {
    exists i :: 1 <= i < |s.chain| && IsPlatformDiv(s.chain[i])
  }

  /** `text && text.trim() === word` */
  predicate TextIs(text: string, word: string) {
    text != [] && Trim(text) == word
  }

  /** `text && text.includes(word)` */
  predicate TextContains(text: string, word: string) {
    text != [] && Includes(text, word)
  }

  /** Strategy 1: a role-button span whose trimmed text is the word. */
  function RoleMatch(word: string): Span -> bool {
    (s: Span) => InRoleButton(s) && TextIs(s.text, word)
  }

  /** Strategy 2: a platform-styled span whose trimmed text is the word. */
  function PlatformMatch(word: string): Span -> bool {
    (s: Span) => InPlatformDiv(s) && TextIs(s.text, word)
  }

  /** Strategy 3: a role-button div whose first span's trimmed text is the word. */
  function DirectMatch(word: string): RoleButton -> bool {
    (b: RoleButton) => b.firstSpanText.Some? && TextIs(b.firstSpanText.value, word)
  }

  /** The confirmation search: a role-button span whose text contains the word. */
  function ConfirmMatch(word: string): Span -> bool {
    (s: Span) => InRoleButton(s) && TextContains(s.text, word)
  }

  /** Index `i` holds the first element of `xs` that satisfies `f`. */
  ghost predicate IsFirst<T>(xs: seq<T>, f: T -> bool, i: int) {
    0 <= i < |xs| && f(xs[i]) && forall j :: 0 <= j < i ==> !f(xs[j])
  }

  /** `Array.prototype.filter`: the elements satisfying `f`, in order. */
  function Filter<T>(xs: seq<T>, f: T -> bool): (r: seq<T>)
    ensures |r| <= |xs|
    ensures forall i :: 0 <= i < |r| ==> f(r[i]) && r[i] in xs
    ensures |r| == 0 <==> forall i :: 0 <= i < |xs| ==> !f(xs[i])
    ensures |r| > 0 ==> exists i :: IsFirst(xs, f, i) && r[0] == xs[i]
  {
    if |xs| == 0 then []
    else
      var rest := Filter(xs[1..], f);
      if f(xs[0]) then
        assert IsFirst(xs, f, 0);
        [xs[0]] + rest
      else
        FirstOfTail(xs, f, rest);
        rest
  }

  /** `Filter` drops no match: every element of `xs` satisfying `f` is kept. */
  lemma {:induction false} FilterKeepsEveryMatch<T>(xs: seq<T>, f: T -> bool)
    ensures forall i :: 0 <= i < |xs| && f(xs[i]) ==> xs[i] in Filter(xs, f)
    decreases |xs|
  {
    if |xs| > 0 {
      var tail := xs[1..];
      FilterKeepsEveryMatch(tail, f);
      forall i | 1 <= i < |xs| && f(xs[i])
        ensures xs[i] in Filter(xs, f)
      {
        assert xs[i] == tail[i - 1];
      }
    }
  }

  /** One step of `Filter`: the head, when it matches, then the tail's matches. */
  lemma FilterCons<T>(xs: seq<T>, f: T -> bool)
    requires |xs| > 0
    ensures Filter(xs, f) == (if f(xs[0]) then [xs[0]] else []) + Filter(xs[1..], f)
  {
  }

  /** `Filter` keeps document order: filtering a concatenation filters each
      part and keeps the first part's matches ahead of the second's. */
  lemma {:induction false} FilterAppend<T>(xs: seq<T>, ys: seq<T>, f: T -> bool)
    ensures Filter(xs + ys, f) == Filter(xs, f) + Filter(ys, f)
    decreases |xs|
  {
    if |xs| == 0 {
      assert xs + ys == ys;
    } else {
      var zs := xs + ys;
      assert zs[0] == xs[0] && zs[1..] == xs[1..] + ys;
      FilterCons(zs, f);
      FilterCons(xs, f);
      FilterAppend(xs[1..], ys, f);
      Regroup(Filter(zs, f), Filter(xs, f), if f(xs[0]) then [xs[0]] else [], Filter(xs[1..], f), Filter(ys, f));
    }
  }

  /** Regrouping a three-part concatenation. */
  lemma Regroup<T>(whole: seq<T>, front: seq<T>, h: seq<T>, a: seq<T>, b: seq<T>)
    requires whole == h + (a + b) && front == h + a
    ensures whole == front + b
  {
  }

  /** A first match in the tail of `xs` is a first match in `xs` when the
      head does not match. */
  lemma FirstOfTail<T>(xs: seq<T>, f: T -> bool, rest: seq<T>)
    requires |xs| > 0 && !f(xs[0])
    requires |rest| > 0 ==> exists i :: IsFirst(xs[1..], f, i) && rest[0] == xs[1..][i]
    ensures |rest| > 0 ==> exists i :: IsFirst(xs, f, i) && rest[0] == xs[i]
  {
    if |rest| > 0 {
      var i :| IsFirst(xs[1..], f, i) && rest[0] == xs[1..][i];
      assert IsFirst(xs, f, i + 1);
    }
  }

  /** The outcome of the menu-entry search. */
  datatype Choice =
    | Resolved(elem: Elem)   // a strategy 1/2 match with a clickable ancestor
    | Unresolvable           // a strategy 1/2 match without one
    | Direct(elem: Elem)     // a strategy 3 match, clicked as it is
    | NotFound

  /** What becomes of a strategy 1/2 match. */
  function ResolveSpan(s: Span): Choice {
    match ClosestClickable(s.chain)
    case None => Unresolvable
    case Some(k) => Resolved(s.chain[k])
  }

  /** The three-strategy search for the menu entry `word`, and its fallback
      order. Strategy 2 is consulted only when strategy 1 finds nothing,
      strategy 3 only when both find nothing; of the strategy 1/2 matches only
      the first in document order is used, and when it has no clickable
      ancestor the search fails without trying strategy 3. */
  function ChooseOption(snap: Snapshot, word: string): (c: Choice)
    ensures (c.Resolved? || c.Unresolvable?) ==>
              exists i :: && 0 <= i < |snap.spans| && c == ResolveSpan(snap.spans[i])
                          && (|| IsFirst(snap.spans, RoleMatch(word), i)
                              || ((forall j :: 0 <= j < |snap.spans| ==> !RoleMatch(word)(snap.spans[j]))
                                  && IsFirst(snap.spans, PlatformMatch(word), i)))
    ensures (c.Resolved? || c.Unresolvable?) <==>
              exists i :: 0 <= i < |snap.spans| && (RoleMatch(word)(snap.spans[i]) || PlatformMatch(word)(snap.spans[i]))
    ensures c.Direct? ==> exists i :: IsFirst(snap.roleButtons, DirectMatch(word), i) && c.elem == snap.roleButtons[i].elem
    ensures c.NotFound? <==>
              && (forall j :: 0 <= j < |snap.spans| ==> !RoleMatch(word)(snap.spans[j]) && !PlatformMatch(word)(snap.spans[j]))
              && (forall j :: 0 <= j < |snap.roleButtons| ==> !DirectMatch(word)(snap.roleButtons[j]))
  {
    var first := Filter(snap.spans, RoleMatch(word));
    var items := if |first| > 0 then first else Filter(snap.spans, PlatformMatch(word));
    if |items| > 0 then ResolveSpan(items[0])
    else
      var direct := Filter(snap.roleButtons, DirectMatch(word));
      if |direct| > 0 then Direct(direct[0].elem) else NotFound
  }

  /** The confirmation search after blocking: the first role-button span whose
      text contains the word, clicked through its clickable ancestor when it
      has one. A later match is never tried. */
  function ConfirmTarget(snap: Snapshot, word: string): (r: Option<Elem>)
    ensures r.Some? <==> exists i :: IsFirst(snap.spans, ConfirmMatch(word), i)
                                     && ClosestClickable(snap.spans[i].chain).Some?
    ensures r.Some? ==> exists i, k :: IsFirst(snap.spans, ConfirmMatch(word), i)
                                      && ClosestClickable(snap.spans[i].chain) == Some(k)
                                      && r.value == snap.spans[i].chain[k]
  {
    var hits := Filter(snap.spans, ConfirmMatch(word));
    if |hits| == 0 then None
    else
      match ClosestClickable(hits[0].chain)
      case None => None
      case Some(k) => Some(hits[0].chain[k])
  }

  /** The confirmation search is looser than strategy 1: every span strategy
      1 accepts for a word is also a confirmation candidate, since a trimmed
      text equal to the word contains it. */
  lemma ConfirmMatchIsLooser(word: string, s: Span)
    ensures RoleMatch(word)(s) ==> ConfirmMatch(word)(s)
  {
    if RoleMatch(word)(s) {
      var i :| OccursAt(s.text, Trim(s.text), i)
               && (forall j :: 0 <= j < i ==> IsTrimSpace(s.text[j]))
               && (forall j :: i + |Trim(s.text)| <= j < |s.text| ==> IsTrimSpace(s.text[j]));
      assert OccursAt(s.text, word, i);
    }
  }

  /** The phases of a run (the orchestrator's state machine). */
  datatype Phase = Idle | MenuOpening | MenuSearching | OptionClicked | ConfirmSearching | Completed | Abandoned

  /** The transitions the state machine allows. */
  predicate Step(a: Phase, b: Phase) {
    || (a == Idle && (b == MenuOpening || b == Abandoned))
    || (a == MenuOpening && b == MenuSearching)
    || (a == MenuSearching && (b == OptionClicked || b == Abandoned))
    || (a == OptionClicked && (b == ConfirmSearching || b == Completed))
    || (a == ConfirmSearching && b == Completed)
  }

  datatype Failure = MenuTriggerMissing | MenuTriggerUnclickable | OptionUnclickable | OptionMissing
  datatype Outcome = Succeeded | Failed(why: Failure)

  /** The run's observable effects on the page. */
  datatype Effect =
    | ShowFeedback(text: string)
    | Click(target: Elem)
    | ClickBackground          // `document.body.click()`, closing an open menu
    | Wait(ms: nat)
    | HidePost

  datatype Session = Session(phases: seq<Phase>, effects: seq<Effect>, outcome: Outcome)

  /** The last message a run shows, per outcome. */
  function TerminalText(kind: ActionKind, o: Outcome): string {
    var p := PolicyOf(kind);
    match o
    case Succeeded => p.successText
    case Failed(MenuTriggerMissing) => MenuTriggerMissingText
    case Failed(MenuTriggerUnclickable) => MenuTriggerUnclickableText
    case Failed(OptionUnclickable) => p.optionUnclickableText
    case Failed(OptionMissing) => p.optionMissingText
  }

  /** A walk of the state machine from `Idle` to the terminal phase that
      matches the outcome. */
  ghost predicate LegalPath(ps: seq<Phase>, o: Outcome) {
    && |ps| >= 2 && ps[0] == Idle
    && (forall i :: 0 <= i < |ps| - 1 ==> Step(ps[i], ps[i + 1]))
    && ps[|ps| - 1] == (if o.Succeeded? then Completed else Abandoned)
  }

  /** The four walks a run can take. */
  const TriggerFailedPath := [Idle, Abandoned]
  const MenuFailedPath := [Idle, MenuOpening, MenuSearching, Abandoned]
  const PlainPath := [Idle, MenuOpening, MenuSearching, OptionClicked, Completed]
  const ConfirmedPath := [Idle, MenuOpening, MenuSearching, OptionClicked, ConfirmSearching, Completed]

  /** All four are legal walks of the state machine, and only the walk of a
      confirmed success passes through the confirmation phase. */
  lemma RunPathsAreLegal()
    ensures forall o: Outcome :: o.Failed? ==> LegalPath(TriggerFailedPath, o) && LegalPath(MenuFailedPath, o)
    ensures LegalPath(PlainPath, Succeeded) && LegalPath(ConfirmedPath, Succeeded)
    ensures ConfirmSearching in ConfirmedPath
    ensures ConfirmSearching !in TriggerFailedPath && ConfirmSearching !in MenuFailedPath
    ensures ConfirmSearching !in PlainPath
  {
  }

  /** An effect that is neither a message nor the hide. */
  predicate Quiet(e: Effect) {
    !e.ShowFeedback? && !e.HidePost?
  }

  /** The shape every run's effects take: the progress message first, the hide
      last, exactly one other message (the terminal one) in between, and
      nothing else that shows or hides. */
  ghost predicate WellFormedTrace(kind: ActionKind, s: Session) {
    var e := s.effects;
    && |e| >= 3
    && e[0] == ShowFeedback(PolicyOf(kind).progressText)
    && e[|e| - 1] == HidePost
    && exists f :: 0 < f < |e| - 1 && e[f] == ShowFeedback(TerminalText(kind, s.outcome))
                   && forall i :: 0 < i < |e| - 1 && i != f ==> Quiet(e[i])
  }

  /** Effects that begin with the progress message and show or hide nothing
      else: a run before its conclusion. */
  ghost predicate Unconcluded(kind: ActionKind, effects: seq<Effect>) {
    && |effects| >= 1
    && effects[0] == ShowFeedback(PolicyOf(kind).progressText)
    && forall i :: 0 < i < |effects| ==> Quiet(effects[i])
  }

  /** A failed menu-entry search leaves the menu open, so the run clicks the
      page background before hiding the post. */
  predicate ClosesMenu(o: Outcome) {
    o == Failed(OptionUnclickable) || o == Failed(OptionMissing)
  }

  /** Closing a run that took the walk `phases` to outcome `o`: its terminal
      message, the background click when the menu is left open, and the hide. */
  function Conclude(kind: ActionKind, phases: seq<Phase>, effects: seq<Effect>, o: Outcome): (s: Session)
    requires Unconcluded(kind, effects)
    ensures WellFormedTrace(kind, s)
    ensures s.outcome == o
    ensures s.phases == phases
    ensures |s.effects| == |effects| + (if ClosesMenu(o) then 3 else 2)
    ensures forall i :: 0 <= i < |effects| ==> s.effects[i] == effects[i]
    ensures s.effects[|effects|] == ShowFeedback(TerminalText(kind, o))
    ensures ClosesMenu(o) ==> s.effects[|s.effects| - 2] == ClickBackground
  {
    var close := if ClosesMenu(o) then [ClickBackground] else [];
    var e := effects + [ShowFeedback(TerminalText(kind, o))] + close + [HidePost];
    assert e[|effects|] == ShowFeedback(TerminalText(kind, o));
    Session(phases, e, o)
  }

  /** Appending effects that show and hide nothing keeps a run unconcluded. */
  lemma ExtendUnconcluded(kind: ActionKind, effects: seq<Effect>, more: seq<Effect>)
    requires Unconcluded(kind, effects)
    requires forall i :: 0 <= i < |more| ==> Quiet(more[i])
    ensures Unconcluded(kind, effects + more)
  {
    var all := effects + more;
    forall i | 0 < i < |all|
      ensures Quiet(all[i])
    {
      if i < |effects| {
        assert all[i] == effects[i];
      } else {
        assert all[i] == more[i - |effects|];
      }
    }
  }

  /** The walk of a successful run. */
  function SuccessPath(kind: ActionKind): seq<Phase> {
    if PolicyOf(kind).confirms then ConfirmedPath else PlainPath
  }

  /** Blocking's confirmation step, given the confirmation search's result:
      wait for the dialog, click the confirmation when there is one, and wait
      again before reporting. */
  function ConfirmStep(target: Option<Elem>): (tail: seq<Effect>)
    ensures forall i :: 0 <= i < |tail| ==> Quiet(tail[i])
    ensures |tail| == (if target.Some? then 3 else 2)
    ensures tail[0] == Wait(ConfirmDelay) && tail[|tail| - 1] == Wait(SettleDelay)
    ensures target.Some? ==> tail[1] == Click(target.value)
  {
    match target
    case None => [Wait(ConfirmDelay), Wait(SettleDelay)]
    case Some(e) => [Wait(ConfirmDelay), Click(e), Wait(SettleDelay)]
  }

  /** What a run does between clicking the menu entry and reporting success:
      blocking goes through the confirmation step; marking not interested
      just waits. */
  function FinishTail(kind: ActionKind, dialog: Snapshot): (tail: seq<Effect>)
    ensures forall i :: 0 <= i < |tail| ==> Quiet(tail[i])
  {
    var pol := PolicyOf(kind);
    if pol.confirms then ConfirmStep(ConfirmTarget(dialog, pol.menuLabel)) else [Wait(SettleDelay)]
  }

  /** The rest of a run once the menu entry has been clicked: always success. */
  function Finish(kind: ActionKind, effects: seq<Effect>, dialog: Snapshot): (s: Session)
    requires Unconcluded(kind, effects)
    ensures WellFormedTrace(kind, s)
    ensures s.outcome == Succeeded
    ensures s.phases == SuccessPath(kind)
    ensures |s.effects| > |effects| && forall i :: 0 <= i < |effects| ==> s.effects[i] == effects[i]
  {
    var tail := FinishTail(kind, dialog);
    ExtendUnconcluded(kind, effects, tail);
    var s := Conclude(kind, SuccessPath(kind), effects + tail, Succeeded);
    assert forall i :: 0 <= i < |effects| ==> s.effects[i] == (effects + tail)[i];
    s
  }

  /** The run from the menu-entry search on, given the search's outcome. */
  function Search(kind: ActionKind, effects: seq<Effect>, c: Choice, dialog: Snapshot): (s: Session)
    requires Unconcluded(kind, effects)
    ensures WellFormedTrace(kind, s)
    ensures |s.effects| > |effects| + 1 && forall i :: 0 <= i < |effects| ==> s.effects[i] == effects[i]
    ensures s.outcome == Succeeded <==> c.Resolved? || c.Direct?
    ensures s.outcome == Failed(OptionUnclickable) <==> c.Unresolvable?
    ensures s.outcome == Failed(OptionMissing) <==> c.NotFound?
    ensures (c.Resolved? || c.Direct?) ==> s.effects[|effects|] == Click(c.elem)
    ensures s.outcome.Failed? ==> s.effects[|s.effects| - 2] == ClickBackground
    ensures s.phases == if s.outcome.Failed? then MenuFailedPath else SuccessPath(kind)
  {
    if c.Resolved? || c.Direct? then
      ExtendUnconcluded(kind, effects, [Click(c.elem)]);
      var s := Finish(kind, effects + [Click(c.elem)], dialog);
      assert s.effects[|effects|] == (effects + [Click(c.elem)])[|effects|];
      assert forall i :: 0 <= i < |effects| ==> s.effects[i] == (effects + [Click(c.elem)])[i];
      s
    else
      Conclude(kind, MenuFailedPath, effects, if c.Unresolvable? then Failed(OptionUnclickable) else Failed(OptionMissing))
  }

  /** The effects of a run up to the menu-entry search: the progress message,
      the click on the menu trigger's clickable ancestor, the wait for the
      menu. */
  function Opening(kind: ActionKind, trigger: Elem): (effects: seq<Effect>)
    ensures Unconcluded(kind, effects)
  {
    [ShowFeedback(PolicyOf(kind).progressText), Click(trigger), Wait(MenuRenderDelay)]
  }

  /** The run once the menu trigger's clickable ancestor `trigger` is known:
      click it, wait for the menu, and act on the search's outcome `c`. */
  function OpenAndSearch(kind: ActionKind, trigger: Elem, c: Choice, dialog: Snapshot): (s: Session)
    ensures WellFormedTrace(kind, s)
    ensures s.effects[1] == Click(trigger) && s.effects[2] == Wait(MenuRenderDelay)
    ensures s.outcome == Succeeded <==> c.Resolved? || c.Direct?
    ensures s.outcome == Failed(OptionUnclickable) <==> c.Unresolvable?
    ensures s.outcome == Failed(OptionMissing) <==> c.NotFound?
    ensures (c.Resolved? || c.Direct?) ==> s.effects[3] == Click(c.elem)
    ensures ClosesMenu(s.outcome) ==> s.effects[|s.effects| - 2] == ClickBackground
    ensures s.phases == if s.outcome.Failed? then MenuFailedPath else SuccessPath(kind)
  {
    Search(kind, Opening(kind, trigger), c, dialog)
  }

  /** A run whose menu trigger cannot be used: the progress message, the
      failure message, the hide, and nothing else. */
  function GiveUp(kind: ActionKind, why: Failure): (s: Session)
    ensures WellFormedTrace(kind, s)
    ensures s.outcome == Failed(why) && s.phases == TriggerFailedPath
    ensures !ClosesMenu(s.outcome) ==> |s.effects| == 3
  {
    Conclude(kind, TriggerFailedPath, [ShowFeedback(PolicyOf(kind).progressText)], Failed(why))
  }

  /** The run given the outcome `c` of its menu-entry search. */
  function RunWith(kind: ActionKind, post: Post, c: Choice, dialog: Snapshot): (s: Session)
    ensures WellFormedTrace(kind, s)
    ensures LegalPath(s.phases, s.outcome)
    ensures s.outcome == Failed(MenuTriggerMissing) <==> post.trigger.None?
    ensures s.outcome == Failed(MenuTriggerUnclickable) <==>
              post.trigger.Some? && MenuTrigger(post).None?
    ensures MenuTrigger(post).Some? ==>
              && s.effects[1] == Click(MenuTrigger(post).value)
              && s.effects[2] == Wait(MenuRenderDelay)
              && (s.outcome == Succeeded <==> c.Resolved? || c.Direct?)
              && (s.outcome == Failed(OptionUnclickable) <==> c.Unresolvable?)
              && (s.outcome == Failed(OptionMissing) <==> c.NotFound?)
              && ((c.Resolved? || c.Direct?) ==> s.effects[3] == Click(c.elem))
    ensures ClosesMenu(s.outcome) ==> s.effects[|s.effects| - 2] == ClickBackground
    ensures ConfirmSearching in s.phases <==> PolicyOf(kind).confirms && s.outcome == Succeeded
  {
    RunPathsAreLegal();
    match MenuTrigger(post)
    case None => GiveUp(kind, if post.trigger.None? then MenuTriggerMissing else MenuTriggerUnclickable)
    case Some(e) => OpenAndSearch(kind, e, c, dialog)
  }

  /** One run of `kind` on `post`; `menu` is the page 500 after the menu
      trigger was clicked, `dialog` the page 500 after the entry was clicked. */
  function Run(kind: ActionKind, post: Post, menu: Snapshot, dialog: Snapshot): (s: Session)
    ensures WellFormedTrace(kind, s)
    ensures LegalPath(s.phases, s.outcome)
    ensures s.outcome == Failed(MenuTriggerMissing) <==> post.trigger.None?
    ensures s.outcome == Failed(MenuTriggerUnclickable) <==>
              post.trigger.Some? && MenuTrigger(post).None?
    ensures MenuTrigger(post).Some? ==>
              && s.effects[1] == Click(MenuTrigger(post).value)
              && s.effects[2] == Wait(MenuRenderDelay)
    ensures ClosesMenu(s.outcome) ==> s.effects[|s.effects| - 2] == ClickBackground
    ensures ConfirmSearching in s.phases <==> PolicyOf(kind).confirms && s.outcome == Succeeded
  {
    RunWith(kind, post, ChooseOption(menu, PolicyOf(kind).menuLabel), dialog)
  }

  /** Once the menu is open, the run's outcome is decided by the menu-entry
      search alone: success exactly when it yields an element to click, which
      is then the run's next click. */
  lemma RunFollowsSearch(kind: ActionKind, post: Post, menu: Snapshot, dialog: Snapshot)
    requires MenuTrigger(post).Some?
    ensures var s, c := Run(kind, post, menu, dialog), ChooseOption(menu, PolicyOf(kind).menuLabel);
            && (s.outcome == Succeeded <==> c.Resolved? || c.Direct?)
            && (s.outcome == Failed(OptionUnclickable) <==> c.Unresolvable?)
            && (s.outcome == Failed(OptionMissing) <==> c.NotFound?)
            && ((c.Resolved? || c.Direct?) ==> s.effects[3] == Click(c.elem))
  {
    var c := ChooseOption(menu, PolicyOf(kind).menuLabel);
    assert Run(kind, post, menu, dialog) == RunWith(kind, post, c, dialog);
  }
}
