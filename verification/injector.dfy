/** The action injector (`addButtonsToPost`): the container it builds, the
    click handlers of its two buttons, and where the container is inserted. */
module Injector {
  import opened Dom
  import opened Config

  /** An injected button: its action, text and classes, and the two pieces of
      state its handler changes (the `clicked` class and `disabled`). */
  datatype Button = Button(kind: ActionKind, text: string, className: string, pressed: bool, disabled: bool)

  /** The marker container: its class and its child buttons in order. */
  datatype Container = Container(className: string, buttons: seq<Button>)

  function NewButton(kind: ActionKind): Button {
    var p := PolicyOf(kind);
    Button(kind, p.buttonText, ButtonClass + " " + p.kindClass, false, false)
  }

  /** The container `addButtonsToPost` builds: marked so the scanner's
      idempotence check finds it, holding exactly the not-interested button
      then the block button, both enabled and unpressed, each labelled with
      its own action's text. */
  function BuildContainer(): (c: Container)
    ensures HasClassToken(c.className, ContainerClass)
    ensures |c.buttons| == 2
    ensures c.buttons[0].kind == NotInterested && c.buttons[1].kind == Block
    ensures forall i :: 0 <= i < |c.buttons| ==>
              && !c.buttons[i].disabled && !c.buttons[i].pressed
              && c.buttons[i].text == PolicyOf(c.buttons[i].kind).buttonText
              && HasClassToken(c.buttons[i].className, ButtonClass)
  {
    var c := Container(ContainerClass, [NewButton(NotInterested), NewButton(Block)]);
    assert OccursAt(c.className, ContainerClass, 0);
    assert OccursAt(c.buttons[0].className, ButtonClass, 0);
    assert OccursAt(c.buttons[1].className, ButtonClass, 0);
    c
  }

  /** Event listeners met by a click as it bubbles from its target upward. */
  datatype Listener = ButtonListener | ContainerListener | PageListener

  /** Both listeners this script registers call `stopPropagation`. */
  predicate StopsPropagation(l: Listener) {
    l == ButtonListener || l == ContainerListener
  }

  /** The listeners that run for a click bubbling along `path`: each in turn,
      up to and including the first that stops propagation. */
  function Bubble(path: seq<Listener>): (ran: seq<Listener>)
    ensures |ran| <= |path| && ran == path[..|ran|]
    ensures forall i :: 0 <= i < |ran| - 1 ==> !StopsPropagation(ran[i])
    ensures |path| > 0 ==> |ran| > 0
    ensures |ran| < |path| ==> StopsPropagation(ran[|ran| - 1])
  {
    if |path| == 0 then []
    else if StopsPropagation(path[0]) then [path[0]]
    else [path[0]] + Bubble(path[1..])
  }

  /** The listeners a click ran, and whether one of them cancelled the
      click's default action (`preventDefault`). Only the buttons' handlers
      cancel it; the container's handler only stops propagation. */
  datatype Dispatch = Dispatch(ran: seq<Listener>, defaultPrevented: bool)

  function Dispatched(path: seq<Listener>): Dispatch {
    var ran := Bubble(path);
    Dispatch(ran, ButtonListener in ran)
  }

  /** Outcome of one click on an injected button. */
  datatype ClickResult = ClickResult(button: Button, request: Option<ActionKind>, dispatch: Dispatch)

  /** A user click on `b`, with `above` the bubble-phase listeners of its
      ancestors (the container's, then the page's). A disabled button receives
      no click event; an enabled one runs its handler, which cancels the
      default action, marks itself pressed and disabled and hands its action
      to the orchestrator. */
  function ClickButton(b: Button, above: seq<Listener>): (r: ClickResult)
    ensures r.button.disabled && r.button.kind == b.kind && r.button.text == b.text
    ensures r.request.Some? <==> !b.disabled
    ensures r.request.Some? ==> r.request.value == b.kind && r.button.pressed
    ensures r.dispatch.defaultPrevented <==> !b.disabled
    ensures PageListener !in r.dispatch.ran
  {
    if b.disabled then ClickResult(b, None, Dispatch([], false))
    else ClickResult(b.(pressed := true, disabled := true), Some(b.kind), Dispatched([ButtonListener] + above))
  }

  /** A click landing on the container itself, between its buttons: its
      handler stops the click but leaves the default action alone. */
  function ClickContainer(above: seq<Listener>): (r: Dispatch)
    ensures r.ran == [ContainerListener]
    ensures !r.defaultPrevented
  {
    Dispatched([ContainerListener] + above)
  }

  /** `n` successive clicks on `b`: the button afterwards, and how many
      actions were handed to the orchestrator. */
  function ClickRepeatedly(b: Button, above: seq<Listener>, n: nat): (Button, nat)
    decreases n
  {
    if n == 0 then (b, 0)
    else
      var r := ClickButton(b, above);
      var (b', count) := ClickRepeatedly(r.button, above, n - 1);
      (b', count + (if r.request.Some? then 1 else 0))
  }

  /** The disable guard: however often a button is clicked, its action starts
      at most once, and exactly once when it was enabled and clicked at all. */
  lemma {:induction false} ActionStartsAtMostOnce(b: Button, above: seq<Listener>, n: nat)
    ensures ClickRepeatedly(b, above, n).1 == (if !b.disabled && n > 0 then 1 else 0)
    ensures n > 0 ==> ClickRepeatedly(b, above, n).0.disabled
    decreases n
  {
    if n > 0 {
      var r := ClickButton(b, above);
      ActionStartsAtMostOnce(r.button, above, n - 1);
      if n - 1 == 0 {
        assert ClickRepeatedly(r.button, above, 0) == (r.button, 0);
      }
    }
  }

  /** The node `parentNode` yields: an element of a known chain (by index), or
      the Document itself. */
  datatype ParentNode = ElementParent(index: nat) | DocumentParent

  /** Where the container ends up. */
  datatype Placement =
    | AfterTarget(parent: nat)   // child of the given chain element, right after the target
    | PostFirstChild             // first child of the post
    | HierarchyError             // the DOM refuses the insertion and throws

  /** Insertion policy, given the `parentNode` of the target element: right
      after the target inside its parent when there is one, otherwise as the
      post's first child. The Document already has its single element child,
      so inserting a `div` into it throws. */
  function Place(targetParent: Option<ParentNode>): (p: Placement)
    ensures p.PostFirstChild? <==> targetParent.None?
    ensures p.AfterTarget? <==> targetParent.Some? && targetParent.value.ElementParent?
    ensures p.AfterTarget? ==> p.parent == targetParent.value.index
  {
    match targetParent
    case None => PostFirstChild
    case Some(DocumentParent) => HierarchyError
    case Some(ElementParent(i)) => AfterTarget(i)
  }
}
