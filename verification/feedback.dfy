/** The feedback overlay (`showActionFeedback`): at most one status message is
    attached to the page at a time. The page is reduced to the feedback
    overlays among the body's children, in document order; every other node
    is irrelevant here. Fading is presentation only and is not modelled: an
    overlay is either attached or gone. */
module Feedback {

  /** An overlay element: `id` is its identity (each call creates a new
      element), `text` its message. */
  datatype Overlay = Overlay(id: nat, text: string)

  /** Some attached overlay is the element `id`. */
  predicate Attached(body: seq<Overlay>, id: nat) {
    exists i :: 0 <= i < |body| && body[i].id == id
  }

  /** A call with message `text` creating element `created`: the first attached
      overlay, if any, is removed, and the new one is appended to the body. */
  function Show(body: seq<Overlay>, created: nat, text: string): (r: seq<Overlay>)
    ensures |r| == if |body| == 0 then 1 else |body|
    ensures r[|r| - 1] == Overlay(created, text)
    ensures |body| <= 1 ==> r == [Overlay(created, text)]
    ensures forall i :: 0 <= i < |r| - 1 ==> r[i] == body[i + 1]
  {
    (if |body| == 0 then [] else body[1..]) + [Overlay(created, text)]
  }

  /** The delayed removal of element `id`, guarded by its `parentNode`: the
      overlay goes if it is still attached, and nothing happens otherwise. */
  function Expire(body: seq<Overlay>, id: nat): (r: seq<Overlay>)
    ensures !Attached(r, id)
    ensures forall o :: o in r <==> o in body && o.id != id
    ensures !Attached(body, id) ==> r == body
    ensures |r| <= |body|
  {
    if |body| == 0 then []
    else if body[0].id == id then Expire(body[1..], id)
    else [body[0]] + Expire(body[1..], id)
  }

  /** What happens to the overlays over time: a call, or one overlay's removal
      timer firing. */
  datatype Event = ShowEvent(id: nat, text: string) | ExpireEvent(id: nat)

  function StepEvent(body: seq<Overlay>, ev: Event): seq<Overlay> {
    match ev
    case ShowEvent(id, text) => Show(body, id, text)
    case ExpireEvent(id) => Expire(body, id)
  }

  /** The overlays after the events, in order. */
  function Apply(body: seq<Overlay>, events: seq<Event>): seq<Overlay>
    decreases |events|
  {
    if |events| == 0 then body
    else StepEvent(Apply(body, events[..|events| - 1]), events[|events| - 1])
  }

  /** The single-instance invariant: starting from at most one overlay, every
      sequence of calls and removals (so every prefix of one) leaves at most
      one, and right after a call exactly its own. */
  lemma {:induction false} AtMostOneOverlay(body: seq<Overlay>, events: seq<Event>)
    requires |body| <= 1
    ensures |Apply(body, events)| <= 1
    ensures |events| > 0 && events[|events| - 1].ShowEvent? ==>
              var ev := events[|events| - 1];
              Apply(body, events) == [Overlay(ev.id, ev.text)]
    decreases |events|
  {
    if |events| > 0 {
      AtMostOneOverlay(body, events[..|events| - 1]);
    }
  }

  /** The latest call's message stays up until its own removal timer fires:
      the removal of an overlay it already superseded does nothing. */
  lemma {:induction false} LatestMessageStays(body: seq<Overlay>, events: seq<Event>, k: nat)
    requires |body| <= 1
    requires k < |events| && events[k].ShowEvent?
    requires forall j :: k < j < |events| ==> !events[j].ShowEvent? && events[j].id != events[k].id
    ensures Apply(body, events) == [Overlay(events[k].id, events[k].text)]
    decreases |events|
  {
    var n := |events|;
    if k == n - 1 {
      AtMostOneOverlay(body, events);
    } else {
      var front := events[..n - 1];
      assert front[k] == events[k];
      assert forall j :: k < j < |front| ==> front[j] == events[j];
      LatestMessageStays(body, front, k);
      var cur := Apply(body, front);
      var last := events[n - 1];
      assert Apply(body, events) == StepEvent(cur, last);
      assert last.ExpireEvent? && last.id != events[k].id;
      assert !Attached(cur, last.id);
    }
  }
}
