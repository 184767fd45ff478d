/** The post scanner (`processPosts`): one pass over the page's post
    containers that instruments every post not yet carrying the marker
    container, and its idempotence. */
module Scanner {
  import opened Dom
  import opened Config
  import opened Resolver
  import opened Injector

  /** Where a post's overflow-menu icon sits: the icon's element-ancestor
      chain (index 0 is the icon), the index of the post itself in that chain
      (the icon is found by a query inside the post, so the post is one of
      its ancestors), and whether the chain's top element hangs under the
      Document (true for any element of the live page). */
  datatype Trigger = Trigger(chain: seq<Elem>, postDepth: nat, rooted: bool)

  /** The post is a proper ancestor of its trigger. */
  predicate ValidTrigger(t: Trigger) {
    0 < t.postDepth < |t.chain|
  }

  /** A post as the scanner sees it: the result of its menu-icon query, how
      many marker containers lie inside it, and how many containers were
      inserted on its behalf that landed outside it. */
  datatype Post = Post(trigger: Option<Trigger>, inside: nat, stray: nat)

  /** `parentNode` of chain element `i`. */
  function ParentOf(t: Trigger, i: nat): (r: Option<ParentNode>)
    requires i < |t.chain|
    ensures r.Some? && r.value.ElementParent? ==> r.value.index == i + 1 < |t.chain|
    ensures r.None? <==> i + 1 == |t.chain| && !t.rooted
  {
    if i + 1 < |t.chain| then Some(ElementParent(i + 1))
    else if t.rooted then Some(DocumentParent)
    else None
  }

  /** `parentNode` of a node that is itself a `parentNode`: the Document has
      none. */
  function ParentOfNode(t: Trigger, n: ParentNode): Option<ParentNode> {
    match n
    case DocumentParent => None
    case ElementParent(i) => if i < |t.chain| then ParentOf(t, i) else None
  }

  /** The first two lookups: the menu icon and, by its position in the icon's
      chain, the icon's clickable ancestor. */
  function TriggerIndex(p: Post): (r: Option<nat>)
    ensures r.Some? ==> p.trigger.Some? && r.value < |p.trigger.value.chain|
  {
    match p.trigger
    case None => None
    case Some(t) => ClosestClickable(t.chain)
  }

  /** The menu icon's clickable ancestor, when both exist. */
  function MenuTrigger(p: Post): (r: Option<Elem>)
    ensures r.Some? <==> TriggerIndex(p).Some?
  {
    match TriggerIndex(p)
    case None => None
    case Some(k) => Some(p.trigger.value.chain[k])
  }

  /** The three lookups of the scan in order: the menu icon, its clickable
      ancestor, and that ancestor's parent (the insertion target). */
  function Anchor(p: Post): Option<(Trigger, ParentNode)> {
    match TriggerIndex(p)
    case None => None
    case Some(k) =>
      match ParentOf(p.trigger.value, k)
      case None => None
      case Some(a) => Some((p.trigger.value, a))
  }

  /** All three lookups succeed. */
  predicate Eligible(p: Post) {
    Anchor(p).Some?
  }

  /** The anchor is an element strictly inside the post, so the container,
      inserted next to it, lands inside the post too. */
  predicate AnchorInsidePost(p: Post) {
    match Anchor(p)
    case None => true
    case Some((t, a)) => a.ElementParent? && a.index < t.postDepth
  }

  datatype Visit = Visit(post: Post, threw: bool)

  /** One post of the scan: skipped when it already holds a marker container,
      left alone when a lookup fails, and otherwise given one container, which
      counts as inside the post exactly when it is inserted into the post or
      one of its descendants. A refused insertion throws. */
  function ScanPost(p: Post): (v: Visit)
    ensures v.post.trigger == p.trigger
    ensures p.inside > 0 || !Eligible(p) ==> v == Visit(p, false)
    ensures v.threw ==> v.post == p
    ensures !v.threw ==> v.post.inside >= p.inside && v.post.stray >= p.stray
    ensures !v.threw && v.post != p ==>
              p.inside == 0 && Eligible(p) && v.post.inside + v.post.stray == p.inside + p.stray + 1
    ensures p.inside == 0 && Eligible(p) ==>
              var (t, a) := Anchor(p).value;
              && (v.threw <==> a == ElementParent(|t.chain| - 1) && t.rooted)
              && (!v.threw ==> v.post != p)
              && (!v.threw ==> (v.post.inside == 1 <==>
                                  || a.DocumentParent?
                                  || a.index < t.postDepth
                                  || (a.index == |t.chain| - 1 && !t.rooted)))
    ensures p.inside == 0 && Eligible(p) && AnchorInsidePost(p) && ValidTrigger(p.trigger.value) ==>
              v == Visit(p.(inside := 1), false)
  {
    if p.inside > 0 then Visit(p, false)
    else match Anchor(p)
      case None => Visit(p, false)
      case Some((t, anchor)) =>
        match Place(ParentOfNode(t, anchor))
        case HierarchyError => Visit(p, true)
        case PostFirstChild => Visit(p.(inside := p.inside + 1), false)
        case AfterTarget(i) =>
          if i <= t.postDepth then Visit(p.(inside := p.inside + 1), false)
          else Visit(p.(stray := p.stray + 1), false)
  }

  datatype ScanResult = ScanResult(posts: seq<Post>, aborted: bool)

  /** One `processPosts` pass over the posts in document order. An exception
      from one post ends the pass: that post and all later ones stay as they
      were. */
  function Scan(ps: seq<Post>): (r: ScanResult)
    ensures |r.posts| == |ps|
    ensures forall i :: 0 <= i < |ps| ==> r.posts[i].trigger == ps[i].trigger
    ensures !r.aborted ==> forall i :: 0 <= i < |ps| ==> r.posts[i] == ScanPost(ps[i]).post
    ensures !r.aborted <==> forall i :: 0 <= i < |ps| ==> !ScanPost(ps[i]).threw
    ensures forall i :: 0 <= i < |ps| ==> r.posts[i] == ps[i] || r.posts[i] == ScanPost(ps[i]).post
  {
    if |ps| == 0 then ScanResult([], false)
    else
      var v := ScanPost(ps[0]);
      if v.threw then ScanResult(ps, true)
      else
        var rest := Scan(ps[1..]);
        ScanResult([v.post] + rest.posts, rest.aborted)
  }

  /** The page is well formed and every eligible post's anchor lies inside it. */
  predicate WellAnchored(ps: seq<Post>) {
    forall i :: 0 <= i < |ps| ==>
      (ps[i].trigger.Some? ==> ValidTrigger(ps[i].trigger.value)) && AnchorInsidePost(ps[i])
  }

  /** A page nothing has been inserted into yet. */
  predicate Pristine(ps: seq<Post>) {
    forall i :: 0 <= i < |ps| ==> ps[i].inside == 0 && ps[i].stray == 0
  }

  /** On a well-anchored page one scan gives every eligible post exactly one
      container inside it and touches nothing else. */
  lemma {:induction false} ScanInstrumentsEligible(ps: seq<Post>)
    requires WellAnchored(ps) && Pristine(ps)
    ensures !Scan(ps).aborted
    ensures forall i :: 0 <= i < |ps| ==>
              Scan(ps).posts[i] == (if Eligible(ps[i]) then ps[i].(inside := 1) else ps[i])
  {
    forall i | 0 <= i < |ps|
      ensures ScanPost(ps[i]) == Visit(if Eligible(ps[i]) then ps[i].(inside := 1) else ps[i], false)
    {
    }
  }

  /** A pass over a well-anchored page never throws, and it gives each
      eligible post without a container exactly one, inside it. */
  lemma {:induction false} ScanWellAnchored(ps: seq<Post>)
    requires WellAnchored(ps)
    ensures !Scan(ps).aborted
    ensures forall i :: 0 <= i < |ps| ==>
              Scan(ps).posts[i] == (if Eligible(ps[i]) && ps[i].inside == 0 then ps[i].(inside := 1) else ps[i])
  {
    forall i | 0 <= i < |ps|
      ensures ScanPost(ps[i]) ==
                Visit(if Eligible(ps[i]) && ps[i].inside == 0 then ps[i].(inside := 1) else ps[i], false)
    {
    }
  }

  /** Scanning is idempotent on a well-anchored page, whatever earlier passes
      already instrumented: a second pass over the result of the first changes
      nothing, and every eligible post then holds a container inside it while
      the containers outside posts stay as they were. */
  lemma {:induction false} ScanTwiceIsScanOnce(ps: seq<Post>)
    requires WellAnchored(ps)
    ensures var once := Scan(ps);
            && !once.aborted && Scan(once.posts) == once
            && forall i :: 0 <= i < |ps| ==>
                 && (Eligible(ps[i]) ==> once.posts[i].inside >= 1)
                 && once.posts[i].stray == ps[i].stray
  {
    var once := Scan(ps);
    ScanWellAnchored(ps);
    forall i | 0 <= i < |ps|
      ensures Anchor(once.posts[i]) == Anchor(ps[i])
    {
      assert once.posts[i].trigger == ps[i].trigger;
    }
    assert WellAnchored(once.posts);
    ScanWellAnchored(once.posts);
    assert Scan(once.posts).posts == once.posts;
  }

  /** Every post holds at most one container, and none lies outside a post. */
  predicate Settled(ps: seq<Post>) {
    forall i :: 0 <= i < |ps| ==> ps[i].inside <= 1 && ps[i].stray == 0
  }

  /** The invariant the periodic passes keep: on a well-anchored settled page a
      pass leaves the page settled, with every eligible post holding exactly
      one container, whichever posts were instrumented before. */
  lemma {:induction false} ScanKeepsSettled(ps: seq<Post>)
    requires WellAnchored(ps) && Settled(ps)
    ensures var once := Scan(ps);
            && Settled(once.posts)
            && forall i :: 0 <= i < |ps| && Eligible(ps[i]) ==> once.posts[i].inside == 1
  {
    ScanWellAnchored(ps);
  }

  /** One pass over a non-empty page whose first post does not throw. */
  lemma ScanUnfold(ps: seq<Post>)
    requires |ps| > 0 && !ScanPost(ps[0]).threw
    ensures Scan(ps) == ScanResult([ScanPost(ps[0]).post] + Scan(ps[1..]).posts, Scan(ps[1..]).aborted)
  {
  }

  /** The first post whose insertion throws, or `|ps|` when none does. */
  function FirstThrow(ps: seq<Post>): (j: nat)
    ensures j <= |ps|
    ensures j < |ps| ==> ScanPost(ps[j]).threw
    ensures forall i :: 0 <= i < j ==> !ScanPost(ps[i]).threw
  {
    if |ps| == 0 then 0
    else if ScanPost(ps[0]).threw then 0
    else 1 + FirstThrow(ps[1..])
  }

  /** A pass runs through the posts in document order: it aborts exactly when
      some post throws, and every post before the first such one has had its
      visit. */
  lemma {:induction false} ScanVisitsBeforeFirstThrow(ps: seq<Post>)
    ensures Scan(ps).aborted <==> FirstThrow(ps) < |ps|
    ensures forall i :: 0 <= i < FirstThrow(ps) ==> Scan(ps).posts[i] == ScanPost(ps[i]).post
    decreases |ps|
  {
    if |ps| > 0 && !ScanPost(ps[0]).threw {
      var tail := ps[1..];
      ScanVisitsBeforeFirstThrow(tail);
      ScanUnfold(ps);
      var rest := Scan(tail).posts;
      forall i | 0 < i < FirstThrow(ps)
        ensures Scan(ps).posts[i] == ScanPost(ps[i]).post
      {
        assert ps[i] == tail[i - 1];
        assert Scan(ps).posts[i] == rest[i - 1];
      }
    }
  }

  /** Suffixes survive putting one element in front: when `r` is `xs` with
      its head replaced and the tails agree from `k` on, `r` and `xs` agree
      from `k + 1` on. */
  lemma ConsSuffix<T>(xs: seq<T>, r: seq<T>, h: T, k: nat)
    requires |xs| > 0 && k < |xs| && |r| == |xs|
    requires r == [h] + r[1..]
    requires r[1..][k..] == xs[1..][k..]
    ensures r[k + 1..] == xs[k + 1..]
  {
    assert r[k + 1..] == r[1..][k..];
    assert xs[k + 1..] == xs[1..][k..];
  }

  /** A pass stops at the first post whose insertion throws: that post and
      every later one are left exactly as they were. */
  lemma {:induction false} ScanStopsAtFirstThrow(ps: seq<Post>)
    ensures Scan(ps).posts[FirstThrow(ps)..] == ps[FirstThrow(ps)..]
    decreases |ps|
  {
    if |ps| > 0 && !ScanPost(ps[0]).threw {
      var tail := ps[1..];
      ScanStopsAtFirstThrow(tail);
      ScanUnfold(ps);
      var k := FirstThrow(tail);
      var r := Scan(ps).posts;
      assert r[1..] == Scan(tail).posts;
      ConsSuffix(ps, r, ScanPost(ps[0]).post, k);
    }
  }

  /** `n` scans of a single post. */
  function ScanPostRepeatedly(p: Post, n: nat): Post
    decreases n
  {
    if n == 0 then p else ScanPostRepeatedly(ScanPost(p).post, n - 1)
  }

  /** Without the anchor hypothesis idempotence fails: when the anchor is the
      post itself or one of its ancestors (and not the top of the page), the
      container lands outside the post, the marker check never sees it, and
      every scan inserts one more. */
  lemma {:induction false} AnchorOutsidePostDuplicates(p: Post, n: nat)
    requires p.inside == 0 && Eligible(p) && ValidTrigger(p.trigger.value)
    requires Anchor(p).value.1.ElementParent?
    requires var (t, a) := Anchor(p).value; t.postDepth <= a.index < |t.chain| - 1
    ensures ScanPostRepeatedly(p, n) == p.(stray := p.stray + n)
    decreases n
  {
    if n > 0 {
      var q := ScanPost(p).post;
      assert q == p.(stray := p.stray + 1);
      assert Anchor(q) == Anchor(p);
      AnchorOutsidePostDuplicates(q, n - 1);
    }
  }
}
