/** The clickable-ancestor resolver (`findClosestClickableParent`): a bounded
    upward walk from an element through its element ancestors. An element's
    ancestry is given as a chain: index 0 is the element itself, index i + 1
    is the `parentElement` of index i, and the chain ends where
    `parentElement` is `null`. */
module Resolver {
  import opened Dom

  /** At most this many chain positions (0 .. 9) are examined. */
  const MaxDepth: nat := 10

  /** The platform-specific class the resolver accepts on a `DIV`. */
  const PlatformClass := "x1i10hfl"

  /** The platform treats the element as an activatable control. */
  predicate IsClickable(e: Elem) {
    || e.role == Some("button")
    || e.tag == "BUTTON"
    || (e.tag == "DIV" && (e.tabindex == Some("0") || Includes(e.className, PlatformClass)))
  }

  /** Index `k` is where the walk stops with a hit: within the bound, on a
      clickable element, with nothing clickable below it. */
  ghost predicate IsClosestClickable(chain: seq<Elem>, k: nat) {
    && k < MaxDepth && k < |chain|
    && IsClickable(chain[k])
    && forall j :: 0 <= j < k ==> !IsClickable(chain[j])
  }

  /** Nothing within the bound is clickable. */
  ghost predicate NoneClickable(chain: seq<Elem>) {
    forall j :: 0 <= j < |chain| && j < MaxDepth ==> !IsClickable(chain[j])
  }

  /** The walk resumed at depth `d`. */
  function ClickableFrom(chain: seq<Elem>, d: nat): (r: Option<nat>)
    requires forall j :: 0 <= j < d && j < |chain| ==> !IsClickable(chain[j])
    ensures r.Some? ==> d <= r.value && IsClosestClickable(chain, r.value)
    ensures r.None? <==> NoneClickable(chain)
    decreases MaxDepth - d
  {
    if d >= MaxDepth || d >= |chain| then None
    else if IsClickable(chain[d]) then Some(d)
    else ClickableFrom(chain, d + 1)
  }

  /** The index of the closest clickable ancestor-or-self, or `None` when the
      chain ends, or the depth bound is reached, before one is found. */
  function ClosestClickable(chain: seq<Elem>): (r: Option<nat>)
    ensures r.Some? ==> IsClosestClickable(chain, r.value)
    ensures r.None? <==> NoneClickable(chain)
  {
    ClickableFrom(chain, 0)
  }

  /** The walk as the script runs it: a counted loop over the chain. */
  method FindClosestClickableParent(chain: seq<Elem>) returns (r: Option<nat>)
    ensures r.Some? ==> IsClosestClickable(chain, r.value)
    ensures r.None? <==> NoneClickable(chain)
    ensures r == ClosestClickable(chain)
  {
    var depth := 0;
    while depth < |chain| && depth < MaxDepth
      invariant depth <= MaxDepth
      invariant forall j :: 0 <= j < depth && j < |chain| ==> !IsClickable(chain[j])
    {
      if IsClickable(chain[depth]) {
        return Some(depth);
      }
      depth := depth + 1;
    }
    return None;
  }

  /** A hit is unique: the first clickable element of the chain is found when
      it sits below the bound, and nothing is found when it sits at or beyond
      it. */
  lemma FirstMarkerIsFound(chain: seq<Elem>, k: nat)
    requires k < |chain| && IsClickable(chain[k])
    requires forall j :: 0 <= j < k ==> !IsClickable(chain[j])
    ensures ClosestClickable(chain) == (if k < MaxDepth then Some(k) else None)
  {
  }

  /** Only the first `MaxDepth` positions matter: whatever lies above them
      never changes the answer. */
  lemma OnlyBoundedPrefixMatters(chain: seq<Elem>, other: seq<Elem>)
    requires |chain| >= MaxDepth && |other| >= MaxDepth
    requires chain[..MaxDepth] == other[..MaxDepth]
    ensures ClosestClickable(chain) == ClosestClickable(other)
  {
    forall j | 0 <= j < MaxDepth
      ensures chain[j] == other[j]
    {
      assert chain[j] == chain[..MaxDepth][j];
    }
  }
}
