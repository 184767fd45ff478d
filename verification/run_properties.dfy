/** Properties of whole orchestrator runs, stated through four measures of a
    run's effects: the messages it shows, how often it hides the post, how
    long it waits in total, and which elements it clicks. */
module RunProperties {
  import opened Dom
  import opened Config
  import opened Resolver
  import opened Scanner
  import opened Orchestrator

  /** The feedback texts shown, in order. */
  function Shown(e: seq<Effect>): seq<string> {
    if |e| == 0 then []
    else (if e[0].ShowFeedback? then [e[0].text] else []) + Shown(e[1..])
  }

  /** How many times the post is hidden. */
  function Hides(e: seq<Effect>): nat {
    if |e| == 0 then 0
    else (if e[0].HidePost? then 1 else 0) + Hides(e[1..])
  }

  /** The total of the fixed delays waited. */
  function TotalWait(e: seq<Effect>): nat {
    if |e| == 0 then 0
    else (if e[0].Wait? then e[0].ms else 0) + TotalWait(e[1..])
  }

  /** The elements clicked, in order (background clicks aside). */
  function Clicks(e: seq<Effect>): seq<Elem> {
    if |e| == 0 then []
    else (if e[0].Click? then [e[0].target] else []) + Clicks(e[1..])
  }

  /** All four measures distribute over concatenation. */
  lemma {:induction false} MeasuresAppend(a: seq<Effect>, b: seq<Effect>)
    ensures Shown(a + b) == Shown(a) + Shown(b)
    ensures Hides(a + b) == Hides(a) + Hides(b)
    ensures TotalWait(a + b) == TotalWait(a) + TotalWait(b)
    ensures Clicks(a + b) == Clicks(a) + Clicks(b)
    decreases |a|
  {
    if |a| > 0 {
      assert (a + b)[1..] == a[1..] + b;
      MeasuresAppend(a[1..], b);
    } else {
      assert a + b == b;
    }
  }

  /** Quiet effects neither show nor hide anything. */
  lemma {:induction false} QuietIsSilent(e: seq<Effect>)
    requires forall i :: 0 <= i < |e| ==> Quiet(e[i])
    ensures Shown(e) == [] && Hides(e) == 0
    decreases |e|
  {
    if |e| > 0 {
      QuietIsSilent(e[1..]);
    }
  }

  /** The messages and hides of a suffix, one effect at a time. */
  lemma MessagesFrom(e: seq<Effect>, k: nat)
    requires k < |e|
    ensures Shown(e[k..]) == (if e[k].ShowFeedback? then [e[k].text] else []) + Shown(e[k + 1..])
    ensures Hides(e[k..]) == (if e[k].HidePost? then 1 else 0) + Hides(e[k + 1..])
  {
    assert e[k..][1..] == e[k + 1..];
  }

  /** A run of quiet effects changes neither measure of a suffix. */
  lemma {:induction false} SkipQuiet(e: seq<Effect>, lo: nat, hi: nat)
    requires lo <= hi <= |e|
    requires forall i :: lo <= i < hi ==> Quiet(e[i])
    ensures Shown(e[lo..]) == Shown(e[hi..]) && Hides(e[lo..]) == Hides(e[hi..])
    decreases hi - lo
  {
    if lo < hi {
      MessagesFrom(e, lo);
      SkipQuiet(e, lo + 1, hi);
    }
  }

  /** A trace that opens with message `first`, shows `second` at `f`, ends
      with the hide and is quiet elsewhere shows exactly those two messages and
      hides once. */
  lemma TwoMessagesOneHide(e: seq<Effect>, f: nat, first: string, second: string)
    requires 0 < f < |e| - 1
    requires e[0] == ShowFeedback(first) && e[f] == ShowFeedback(second) && e[|e| - 1] == HidePost
    requires forall i :: 0 < i < |e| - 1 && i != f ==> Quiet(e[i])
    ensures Shown(e) == [first, second] && Hides(e) == 1
  {
    var n := |e|;
    MessagesFrom(e, n - 1);
    assert e[n..] == [];
    SkipQuiet(e, f + 1, n - 1);
    MessagesFrom(e, f);
    SkipQuiet(e, 1, f);
    MessagesFrom(e, 0);
    assert e[0..] == e;
  }

  /** A well-formed trace shows exactly two messages, the progress message and
      then the terminal one, and hides the post exactly once. */
  lemma TraceCounts(kind: ActionKind, s: Session)
    requires WellFormedTrace(kind, s)
    ensures Shown(s.effects) == [PolicyOf(kind).progressText, TerminalText(kind, s.outcome)]
    ensures Hides(s.effects) == 1
  {
    var e := s.effects;
    var f :| 0 < f < |e| - 1 && e[f] == ShowFeedback(TerminalText(kind, s.outcome))
             && forall i :: 0 < i < |e| - 1 && i != f ==> Quiet(e[i]);
    TwoMessagesOneHide(e, f, PolicyOf(kind).progressText, TerminalText(kind, s.outcome));
  }

  /** The terminal guarantee: whichever lookup fails, every run shows its
      progress message, then exactly one terminal message naming the path it
      took, and hides the post exactly once, as its last effect. */
  lemma TerminalGuarantee(kind: ActionKind, post: Post, menu: Snapshot, dialog: Snapshot)
    ensures var s := Run(kind, post, menu, dialog);
            && Shown(s.effects) == [PolicyOf(kind).progressText, TerminalText(kind, s.outcome)]
            && Hides(s.effects) == 1
            && s.effects[|s.effects| - 1] == HidePost
  {
    TraceCounts(kind, Run(kind, post, menu, dialog));
  }

  /** Closing a run adds no wait and no element click. */
  lemma ConcludeMeasures(kind: ActionKind, phases: seq<Phase>, effects: seq<Effect>, o: Outcome)
    requires Unconcluded(kind, effects)
    ensures TotalWait(Conclude(kind, phases, effects, o).effects) == TotalWait(effects)
    ensures Clicks(Conclude(kind, phases, effects, o).effects) == Clicks(effects)
  {
    var close: seq<Effect> := if ClosesMenu(o) then [ClickBackground] else [];
    var fb := [ShowFeedback(TerminalText(kind, o))];
    MeasuresAppend(effects + fb + close, [HidePost]);
    MeasuresAppend(effects + fb, close);
    MeasuresAppend(effects, fb);
  }

  /** The element a blocking run clicks in the confirmation dialog, if any;
      never one when the action has no confirmation step. */
  function ConfirmClicks(kind: ActionKind, dialog: Snapshot): seq<Elem> {
    var p := PolicyOf(kind);
    if p.confirms then
      match ConfirmTarget(dialog, p.menuLabel)
      case None => []
      case Some(c) => [c]
    else []
  }

  /** The confirmation step waits 1000 in all and clicks at most the
      confirmation. */
  lemma ConfirmStepMeasures(target: Option<Elem>)
    ensures TotalWait(ConfirmStep(target)) == ConfirmDelay + SettleDelay
    ensures Clicks(ConfirmStep(target)) == if target.Some? then [target.value] else []
  {
    match target
    case None =>
      MeasuresAppend([Wait(ConfirmDelay)], [Wait(SettleDelay)]);
      assert ConfirmStep(target) == [Wait(ConfirmDelay)] + [Wait(SettleDelay)];
    case Some(e) =>
      MeasuresAppend([Wait(ConfirmDelay)], [Click(e)]);
      MeasuresAppend([Wait(ConfirmDelay)] + [Click(e)], [Wait(SettleDelay)]);
      assert ConfirmStep(target) == [Wait(ConfirmDelay)] + [Click(e)] + [Wait(SettleDelay)];
  }

  /** After the menu entry is clicked, blocking waits twice (with the
      confirmation click, if any, in between) and marking not interested once. */
  lemma FinishMeasures(kind: ActionKind, effects: seq<Effect>, dialog: Snapshot)
    requires Unconcluded(kind, effects)
    ensures TotalWait(Finish(kind, effects, dialog).effects) ==
              TotalWait(effects) + (if PolicyOf(kind).confirms then ConfirmDelay + SettleDelay else SettleDelay)
    ensures Clicks(Finish(kind, effects, dialog).effects) == Clicks(effects) + ConfirmClicks(kind, dialog)
  {
    var tail := FinishTail(kind, dialog);
    FinishTailMeasures(kind, dialog);
    ExtendUnconcluded(kind, effects, tail);
    ConcludeMeasures(kind, SuccessPath(kind), effects + tail, Succeeded);
    MeasuresAppend(effects, tail);
  }

  /** Between the entry click and the report: 1000 and the confirmation click
      when blocking, 500 and nothing else otherwise. */
  lemma FinishTailMeasures(kind: ActionKind, dialog: Snapshot)
    ensures TotalWait(FinishTail(kind, dialog)) ==
              if PolicyOf(kind).confirms then ConfirmDelay + SettleDelay else SettleDelay
    ensures Clicks(FinishTail(kind, dialog)) == ConfirmClicks(kind, dialog)
  {
    var pol := PolicyOf(kind);
    if pol.confirms {
      ConfirmStepMeasures(ConfirmTarget(dialog, pol.menuLabel));
    }
  }

  /** Clicking the chosen entry `e` and finishing waits the fixed delays. */
  lemma ClickedFinishWait(kind: ActionKind, effects: seq<Effect>, e: Elem, dialog: Snapshot)
    requires Unconcluded(kind, effects + [Click(e)])
    ensures TotalWait(Finish(kind, effects + [Click(e)], dialog).effects) ==
              TotalWait(effects) + (if PolicyOf(kind).confirms then ConfirmDelay + SettleDelay else SettleDelay)
  {
    FinishMeasures(kind, effects + [Click(e)], dialog);
    MeasuresAppend(effects, [Click(e)]);
  }

  /** Clicking the chosen entry `e` and finishing clicks `e`, then the
      confirmation if any. */
  lemma ClickedFinishClicks(kind: ActionKind, effects: seq<Effect>, e: Elem, dialog: Snapshot)
    requires Unconcluded(kind, effects + [Click(e)])
    ensures Clicks(Finish(kind, effects + [Click(e)], dialog).effects) ==
              Clicks(effects) + ([e] + ConfirmClicks(kind, dialog))
  {
    FinishMeasures(kind, effects + [Click(e)], dialog);
    MeasuresAppend(effects, [Click(e)]);
    var before, confirm := Clicks(effects), ConfirmClicks(kind, dialog);
    assert (before + [e]) + confirm == before + ([e] + confirm);
  }

  /** Delay from the menu-entry search on, given its outcome `c`. */
  lemma SearchWait(kind: ActionKind, effects: seq<Effect>, c: Choice, dialog: Snapshot)
    requires Unconcluded(kind, effects)
    ensures TotalWait(Search(kind, effects, c, dialog).effects) ==
              TotalWait(effects) + (if c.Unresolvable? || c.NotFound? then 0
                                    else if PolicyOf(kind).confirms then ConfirmDelay + SettleDelay
                                    else SettleDelay)
  {
    if c.Resolved? || c.Direct? {
      ExtendUnconcluded(kind, effects, [Click(c.elem)]);
      ClickedFinishWait(kind, effects, c.elem, dialog);
    } else {
      var o := if c.Unresolvable? then Failed(OptionUnclickable) else Failed(OptionMissing);
      ConcludeMeasures(kind, MenuFailedPath, effects, o);
    }
  }

  /** Clicks from the menu-entry search on, given its outcome `c`. */
  lemma SearchClicks(kind: ActionKind, effects: seq<Effect>, c: Choice, dialog: Snapshot)
    requires Unconcluded(kind, effects)
    ensures Clicks(Search(kind, effects, c, dialog).effects) ==
              Clicks(effects) + (if c.Unresolvable? || c.NotFound? then [] else [c.elem] + ConfirmClicks(kind, dialog))
  {
    if c.Resolved? || c.Direct? {
      ExtendUnconcluded(kind, effects, [Click(c.elem)]);
      ClickedFinishClicks(kind, effects, c.elem, dialog);
    } else {
      var o := if c.Unresolvable? then Failed(OptionUnclickable) else Failed(OptionMissing);
      ConcludeMeasures(kind, MenuFailedPath, effects, o);
    }
  }

  /** Opening the menu waits 500 and clicks the trigger's clickable ancestor. */
  lemma OpeningMeasures(kind: ActionKind, trigger: Elem)
    ensures TotalWait(Opening(kind, trigger)) == MenuRenderDelay
    ensures Clicks(Opening(kind, trigger)) == [trigger]
  {
    var show := ShowFeedback(PolicyOf(kind).progressText);
    MeasuresAppend([show], [Click(trigger)]);
    MeasuresAppend([show] + [Click(trigger)], [Wait(MenuRenderDelay)]);
    assert Opening(kind, trigger) == [show] + [Click(trigger)] + [Wait(MenuRenderDelay)];
  }

  /** A run that gives up at the menu trigger neither waits nor clicks. */
  lemma GiveUpMeasures(kind: ActionKind, why: Failure)
    ensures TotalWait(GiveUp(kind, why).effects) == 0
    ensures Clicks(GiveUp(kind, why).effects) == []
  {
    ConcludeMeasures(kind, TriggerFailedPath, [ShowFeedback(PolicyOf(kind).progressText)], Failed(why));
  }

  /** Total delay of a run whose menu-entry search yields `c`. */
  lemma RunWithWait(kind: ActionKind, post: Post, c: Choice, dialog: Snapshot)
    ensures TotalWait(RunWith(kind, post, c, dialog).effects) ==
              if MenuTrigger(post).None? then 0
              else MenuRenderDelay + (if c.Unresolvable? || c.NotFound? then 0
                                      else if PolicyOf(kind).confirms then ConfirmDelay + SettleDelay
                                      else SettleDelay)
  {
    match MenuTrigger(post)
    case None =>
      GiveUpMeasures(kind, if post.trigger.None? then MenuTriggerMissing else MenuTriggerUnclickable);
    case Some(e) =>
      OpeningMeasures(kind, e);
      SearchWait(kind, Opening(kind, e), c, dialog);
  }

  /** Clicks of a run whose menu-entry search yields `c`. */
  lemma RunWithClicks(kind: ActionKind, post: Post, c: Choice, dialog: Snapshot)
    ensures Clicks(RunWith(kind, post, c, dialog).effects) ==
              if MenuTrigger(post).None? then []
              else [MenuTrigger(post).value]
                   + (if c.Unresolvable? || c.NotFound? then [] else [c.elem] + ConfirmClicks(kind, dialog))
  {
    match MenuTrigger(post)
    case None =>
      GiveUpMeasures(kind, if post.trigger.None? then MenuTriggerMissing else MenuTriggerUnclickable);
    case Some(e) =>
      OpeningMeasures(kind, e);
      SearchClicks(kind, Opening(kind, e), c, dialog);
  }

  /** Total delay of a run. A successful run reports success only after 1000
      (not interested) or 1500 (block), whether or not a confirmation was
      clicked; a run abandoned at the menu trigger waits not at all, one
      abandoned at the menu entry waits for the menu only. */
  lemma RunWait(kind: ActionKind, post: Post, menu: Snapshot, dialog: Snapshot)
    ensures var s := Run(kind, post, menu, dialog);
            TotalWait(s.effects) == match s.outcome
                                    case Succeeded => if kind == Block then 1500 else 1000
                                    case Failed(MenuTriggerMissing) => 0
                                    case Failed(MenuTriggerUnclickable) => 0
                                    case Failed(_) => MenuRenderDelay
  {
    var c := ChooseOption(menu, PolicyOf(kind).menuLabel);
    RunWithWait(kind, post, c, dialog);
    assert Run(kind, post, menu, dialog) == RunWith(kind, post, c, dialog);
  }

  /** The clicks of a run: the trigger's clickable ancestor, then the chosen
      entry, then for blocking the confirmation when its first match
      resolves, and nothing else. */
  lemma RunClicks(kind: ActionKind, post: Post, menu: Snapshot, dialog: Snapshot)
    ensures var c := ChooseOption(menu, PolicyOf(kind).menuLabel);
            Clicks(Run(kind, post, menu, dialog).effects) ==
              if MenuTrigger(post).None? then []
              else [MenuTrigger(post).value]
                   + (if c.Unresolvable? || c.NotFound? then [] else [c.elem] + ConfirmClicks(kind, dialog))
  {
    var c := ChooseOption(menu, PolicyOf(kind).menuLabel);
    RunWithClicks(kind, post, c, dialog);
    assert Run(kind, post, menu, dialog) == RunWith(kind, post, c, dialog);
  }

  /** The confirmation dialog decides only whether one more element is
      clicked: the outcome, the walk, the messages, the hide and the total
      delay are the same whatever it shows, and a not-interested run ignores
      it entirely. */
  lemma DialogOnlyAddsConfirmClick(kind: ActionKind, post: Post, menu: Snapshot, d1: Snapshot, d2: Snapshot)
    ensures var s1, s2 := Run(kind, post, menu, d1), Run(kind, post, menu, d2);
            && s1.outcome == s2.outcome && s1.phases == s2.phases
            && Shown(s1.effects) == Shown(s2.effects) && Hides(s1.effects) == Hides(s2.effects)
            && TotalWait(s1.effects) == TotalWait(s2.effects)
    ensures kind == NotInterested ==> Run(kind, post, menu, d1) == Run(kind, post, menu, d2)
  {
    TerminalGuarantee(kind, post, menu, d1);
    TerminalGuarantee(kind, post, menu, d2);
    RunWait(kind, post, menu, d1);
    RunWait(kind, post, menu, d2);
  }
}
