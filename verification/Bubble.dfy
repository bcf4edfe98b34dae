/** Finding a bubble of history: a region below which nothing hangs out and which can be
    left, going up, only through its top version. */
module Bubble {
  import opened VersionGraph
  import opened Text

  function Members(order: seq<Version>): set<Version> {
    set x | x in order
  }

  /** Position i of a list: a known, unrestricted, new version, hanging from an earlier
      one (or from the bottom), with all of its children listed before it. */
  ghost predicate Admitted(t: Graph, bottom: set<Version>, restricted: set<Version>, order: seq<Version>, i: nat)
    requires i < |order|
  {
    && order[i] in t && order[i] !in restricted && order[i] !in order[..i]
    && Kids(t, order[i]) <= Members(order[..i])
    && (order[i] in bottom || Kids(t, order[i]) != {})
  }

  ghost function Last(order: seq<Version>): Version
    requires order != []
  {
    order[|order| - 1]
  }

  /** `order` lists a region under `bottom` with a top: every child before its parents, nothing
      unknown or restricted; the top holds the last version, all of it with the same parents,
      and these are the only parents outside. */
  ghost predicate IsRegion(t: Graph, bottom: set<Version>, restricted: set<Version>, order: seq<Version>,
                           top: set<Version>) {
    && order != [] && bottom <= Members(order)
    && (forall i :: 0 <= i < |order| ==> Admitted(t, bottom, restricted, order, i))
    && Last(order) in t && Last(order) in top && top <= Members(order)
    && (forall c :: c in top ==> c in t && t[c] == t[Last(order)])
    && forall x :: x in Members(order) ==> x in t && t[x] <= Members(order) + t[Last(order)]
  }

  /** Only the top has parents outside. */
  ghost predicate OnlyTopLeaves(t: Graph, order: seq<Version>, top: set<Version>) {
    forall x :: x in Members(order) && x !in top && x in t ==> t[x] <= Members(order)
  }

  /** A region that can be left, going up, only through its top. */
  ghost predicate IsCut(t: Graph, bottom: set<Version>, restricted: set<Version>, order: seq<Version>,
                        top: set<Version>) {
    IsRegion(t, bottom, restricted, order, top) && OnlyTopLeaves(t, order, top)
  }

  /** A cut with a single top whose other members all have a parent: every walk up ends in the top. */
  ghost predicate IsFunnel(t: Graph, bottom: set<Version>, restricted: set<Version>, order: seq<Version>) {
    order != [] && IsCut(t, bottom, restricted, order, {Last(order)})
    && forall x :: x in Members(order) && x != Last(order) && x in t ==> t[x] != {}
  }

  lemma RegionMembers(t: Graph, bottom: set<Version>, restricted: set<Version>, order: seq<Version>, top: set<Version>)
    requires IsRegion(t, bottom, restricted, order, top)
    ensures Members(order) <= t.Keys - restricted
    ensures forall x :: x in Members(order) ==> Kids(t, x) <= Members(order)
    ensures Last(order) in Members(order) && Last(order) in t && t[Last(order)] !! Members(order)
  {
    assert Admitted(t, bottom, restricted, order, |order| - 1);
    forall x | x in Members(order)
      ensures x in t && x !in restricted && Kids(t, x) <= Members(order) && x !in t[Last(order)]
    {
      var i :| 0 <= i < |order| && order[i] == x;
      assert Admitted(t, bottom, restricted, order, i);
      assert Last(order) !in order[..i];
      assert Last(order) !in Kids(t, x);
    }
  }

  lemma CutMembers(t: Graph, bottom: set<Version>, restricted: set<Version>, order: seq<Version>, top: set<Version>)
    requires IsCut(t, bottom, restricted, order, top)
    ensures Members(order) <= t.Keys - restricted
    ensures bottom <= Members(order) && top <= Members(order)
    ensures forall x :: x in Members(order) ==> Kids(t, x) <= Members(order)
    ensures forall x :: x in Members(order) && x !in top ==> t[x] <= Members(order)
    ensures forall c :: c in top ==> t[c] == t[Last(order)] && t[c] !! Members(order)
    ensures Last(order) in Members(order) && Last(order) in t
  {
    RegionMembers(t, bottom, restricted, order, top);
  }

  ghost function ParentsOf(t: Graph, s: set<Version>): set<Version> {
    set x, p | x in s && x in t && p in t[x] :: p
  }

  /** Parents outside the region of members that are not its top. */
  ghost function Strays(t: Graph, order: seq<Version>, top: set<Version>): set<Version> {
    ParentsOf(t, Members(order) - top) - Members(order)
  }

  /** Every name met walking up from these, whether or not it exists. */
  ghost function Above(t: Graph, s: set<Version>): set<Version> {
    s + Ancestors(t, s) + ParentsOf(t, Ancestors(t, s))
  }

  /** The strays of a region are the parents of its top that have other children in it; there
      are none exactly when only the top leaves it. */
  lemma StraysOfRegion(t: Graph, bottom: set<Version>, restricted: set<Version>, order: seq<Version>, top: set<Version>)
    requires IsRegion(t, bottom, restricted, order, top)
    ensures Strays(t, order, top) == set p | p in t[Last(order)] && !(Kids(t, p) * Members(order) <= top)
    ensures Strays(t, order, top) == {} <==> OnlyTopLeaves(t, order, top)
  {
    RegionMembers(t, bottom, restricted, order, top);
    forall p | p in Strays(t, order, top) ensures p in t[Last(order)] && !(Kids(t, p) * Members(order) <= top) {
      var x :| x in Members(order) - top && x in t && p in t[x];
      assert x in Kids(t, p) * Members(order);
    }
    forall p | p in t[Last(order)] && !(Kids(t, p) * Members(order) <= top) ensures p in Strays(t, order, top) {
      var x :| x in Kids(t, p) * Members(order) && x !in top;
      assert x in Members(order) - top;
    }
    if !OnlyTopLeaves(t, order, top) {
      var x :| x in Members(order) && x !in top && x in t && !(t[x] <= Members(order));
      var p :| p in t[x] && p !in Members(order);
      assert x in Members(order) - top && p in Strays(t, order, top);
    }
  }

  // ---------- why the search finds every funnel ----------

  ghost predicate ChildClosed(t: Graph, s: set<Version>) {
    forall x :: x in s ==> Kids(t, x) <= s
  }

  /** Unseen members are connected upwards to the top, so a top all of whose children
      were seen comes after everything else in its funnel. */
  lemma {:induction false} UnseenReachesTop(t: Graph, bottom: set<Version>, restricted: set<Version>,
                                            f: seq<Version>, seen: set<Version>, i: nat)
    requires IsFunnel(t, bottom, restricted, f) && ChildClosed(t, seen)
    requires i < |f| - 1 && f[i] !in seen
    ensures !(Kids(t, Last(f)) <= seen)
    decreases |f| - i
  {
    assert Admitted(t, bottom, restricted, f, i);
    assert f[i] != Last(f) by { assert Admitted(t, bottom, restricted, f, |f| - 1) && f[i] in f[..|f| - 1]; }
    var p :| p in t[f[i]];
    assert f[i] in Kids(t, p);
    assert p in Members(f);
    var j :| 0 <= j < |f| && f[j] == p;
    assert Admitted(t, bottom, restricted, f, j);
    assert p !in seen;
    if j < |f| - 1 {
      var k :| 0 <= k < j && f[k] == f[i];
      assert i <= k;
      UnseenReachesTop(t, bottom, restricted, f, seen, j);
    }
  }

  lemma FirstUnseen(f: seq<Version>, seen: set<Version>) returns (i: nat)
    ensures i <= |f| && Members(f[..i]) <= seen
    ensures i < |f| ==> f[i] !in seen
  {
    i := 0;
    while i < |f| && f[i] in seen
      invariant i <= |f| && Members(f[..i]) <= seen
    {
      assert f[..i + 1] == f[..i] + [f[i]];
      i := i + 1;
    }
  }

  /** Whatever is waiting while a funnel's top is unseen belongs to that funnel. */
  lemma WaitingIsInside(t: Graph, bottom: set<Version>, restricted: set<Version>, f: seq<Version>,
                        seen: set<Version>, x: Version)
    requires IsFunnel(t, bottom, restricted, f) && seen <= Members(f) && Last(f) !in seen
    requires x in bottom || Kids(t, x) * seen != {}
    ensures x in Members(f) && x in t && x !in restricted
  {
    CutMembers(t, bottom, restricted, f, {Last(f)});
    if x !in bottom {
      var c :| c in Kids(t, x) * seen;
      assert c in Members(f) && c != Last(f);
    }
  }

  /** Seeing the top of a funnel last completes it. */
  lemma TopCompletes(t: Graph, bottom: set<Version>, restricted: set<Version>, f: seq<Version>, seen: set<Version>)
    requires IsFunnel(t, bottom, restricted, f) && ChildClosed(t, seen)
    requires Kids(t, Last(f)) <= seen
    ensures Members(f) <= seen + {Last(f)}
  {
    forall i | 0 <= i < |f| - 1 ensures f[i] in seen {
      if f[i] !in seen { UnseenReachesTop(t, bottom, restricted, f, seen, i); }
    }
  }

  /** With nothing left waiting, every funnel's top was seen. */
  lemma NothingWaiting(t: Graph, bottom: set<Version>, restricted: set<Version>, f: seq<Version>, seen: set<Version>)
    requires IsFunnel(t, bottom, restricted, f)
    requires forall x :: Kids(t, x) <= seen && (x in bottom || Kids(t, x) != {}) ==> x in seen
    ensures Last(f) in seen
  {
    var i := FirstUnseen(f, seen);
    assert i == |f| || Admitted(t, bottom, restricted, f, i);
    assert f[..|f|] == f && Last(f) in Members(f);
  }

  // ---------- the worklist ----------

  ghost predicate BottomHasNoKids(t: Graph, bottom: set<Version>) {
    forall v :: v in bottom ==> Kids(t, v) == {}
  }

  /** The worklist's own invariant: `seen` is the processed list and grew admissibly,
      `expecting` is exactly what that list still needs, and whoever is ready is waiting. */
  ghost predicate Searching(t: Graph, bottom: set<Version>, restricted: set<Version>, order: seq<Version>,
                            seen: set<Version>, expecting: set<Version>, queue: seq<Version>) {
    && seen == Members(order)
    && (forall i :: 0 <= i < |order| ==> Admitted(t, bottom, restricted, order, i))
    && expecting == bottom + ParentsOf(t, seen) - seen
    && (forall x :: x in queue ==> x in bottom || Kids(t, x) * seen != {})
    && (forall x :: x !in seen && Kids(t, x) <= seen && (x in bottom || Kids(t, x) != {}) ==> x in queue)
  }

  /** Every funnel is either still wholly ahead or already inside the best bubble. */
  ghost predicate FunnelsAccounted(t: Graph, bottom: set<Version>, restricted: set<Version>, seen: set<Version>,
                                   found: bool, best: seq<Version>) {
    forall f :: IsFunnel(t, bottom, restricted, f) ==>
      if Last(f) in seen then found && Members(f) <= Members(best) else seen <= Members(f)
  }

  lemma SearchingIsChildClosed(t: Graph, bottom: set<Version>, restricted: set<Version>, order: seq<Version>)
    requires forall i :: 0 <= i < |order| ==> Admitted(t, bottom, restricted, order, i)
    ensures ChildClosed(t, Members(order))
    ensures forall x :: x in Members(order) ==> x in t && x !in restricted
  {
    forall x | x in Members(order) ensures Kids(t, x) <= Members(order) && x in t && x !in restricted {
      var i :| 0 <= i < |order| && order[i] == x;
      assert Admitted(t, bottom, restricted, order, i);
    }
  }

  /** Processing one ready version keeps the invariant, and when nothing is expected any
      more before its parents are added, the processed list is a cut with it on top. */
  lemma ProcessOne(t: Graph, bottom: set<Version>, restricted: set<Version>, order: seq<Version>,
                   seen: set<Version>, expecting: set<Version>, queue: seq<Version>, cur: Version, pushed: seq<Version>)
    requires Searching(t, bottom, restricted, order, seen, expecting, queue + [cur])
    requires cur in t && cur !in restricted && cur !in seen && Kids(t, cur) <= seen
    requires Members(pushed) == t[cur]
    ensures Searching(t, bottom, restricted, order + [cur], seen + {cur}, expecting - {cur} + t[cur], queue + pushed)
    ensures expecting - {cur} == {} ==> IsCut(t, bottom, restricted, order + [cur], {cur})
  {
    var next, seen' := order + [cur], seen + {cur};
    SearchingIsChildClosed(t, bottom, restricted, order);
    assert Members(next) == seen' by { assert forall x :: x in next <==> x in order || x == cur; }
    assert cur in queue + [cur];
    forall i | 0 <= i < |next| ensures Admitted(t, bottom, restricted, next, i) {
      if i < |order| {
        assert next[..i] == order[..i];
        assert Admitted(t, bottom, restricted, order, i);
      } else {
        assert next[..i] == order;
      }
    }
    assert t[cur] !! seen' by {
      forall p | p in t[cur] ensures p !in seen' { assert cur in Kids(t, p); }
    }
    assert ParentsOf(t, seen') == ParentsOf(t, seen) + t[cur];
    forall x | x in queue + pushed ensures x in bottom || Kids(t, x) * seen' != {} {
      if x in queue {
        assert x in queue + [cur];
      } else {
        assert x in Members(pushed);
        assert cur in Kids(t, x) * seen';
      }
    }
    forall x | x !in seen' && Kids(t, x) <= seen' && (x in bottom || Kids(t, x) != {}) ensures x in queue + pushed {
      if cur in Kids(t, x) {
        assert x in Members(pushed);
      } else {
        assert x in queue + [cur];
      }
    }
    if expecting - {cur} == {} {
      assert Last(next) == cur && cur in Members(next);
      forall x | x in seen ensures x in t && t[x] <= Members(next) { assert t[x] <= ParentsOf(t, seen); }
    }
  }

  /** When nothing but the parents of the version just processed is expected, the processed
      list is a region, with any of its members that share those parents on top. */
  lemma GroupCloses(t: Graph, bottom: set<Version>, restricted: set<Version>, order: seq<Version>, seen: set<Version>,
                    expecting: set<Version>, queue: seq<Version>, top: set<Version>)
    requires BottomHasNoKids(t, bottom) && Searching(t, bottom, restricted, order, seen, expecting, queue) &&
             order != []
    requires Last(order) in t && expecting == t[Last(order)]
    requires Last(order) in top && top <= seen && forall c :: c in top ==> c in t && t[c] == t[Last(order)]
    ensures IsRegion(t, bottom, restricted, order, top)
  {
    SearchingIsChildClosed(t, bottom, restricted, order);
    forall p | p in t[Last(order)] ensures p !in bottom { assert Last(order) in Kids(t, p); }
    forall x | x in Members(order) ensures t[x] <= Members(order) + t[Last(order)] {
      assert t[x] <= ParentsOf(t, seen);
    }
  }

  lemma FunnelsStep(t: Graph, bottom: set<Version>, restricted: set<Version>, order: seq<Version>, seen: set<Version>,
                    expecting: set<Version>, queue: seq<Version>, cur: Version, found: bool, best: seq<Version>,
                    topFound: bool)
    requires Searching(t, bottom, restricted, order, seen, expecting, queue + [cur])
    requires FunnelsAccounted(t, bottom, restricted, seen, found, best)
    requires cur in t && cur !in restricted && cur !in seen && Kids(t, cur) <= seen
    requires best <= order && (expecting - {cur} == {} ==> topFound)
    ensures FunnelsAccounted(t, bottom, restricted, seen + {cur}, found || topFound,
                             if topFound then order + [cur] else best)
  {
    SearchingIsChildClosed(t, bottom, restricted, order);
    assert cur in queue + [cur];
    var found', best' := found || topFound, if topFound then order + [cur] else best;
    assert Members(best) <= Members(best') by {
      forall x | x in best ensures x in best' { assert x in order; }
    }
    forall f | IsFunnel(t, bottom, restricted, f)
      ensures if Last(f) in seen + {cur} then found' && Members(f) <= Members(best') else seen + {cur} <= Members(f)
    {
      if Last(f) !in seen {
        WaitingIsInside(t, bottom, restricted, f, seen, cur);
        if Last(f) == cur {
          TopCompletes(t, bottom, restricted, f, seen);
          CutMembers(t, bottom, restricted, f, {Last(f)});
          assert ParentsOf(t, seen) <= Members(f);
          assert expecting - {cur} == {};
          forall x | x in Members(f) ensures x in Members(best') { assert x in order || x == cur; }
        }
      }
    }
  }

  /** Everything the loop keeps, for a bottom without children. */
  ghost predicate OnTrack(t: Graph, bottom: set<Version>, restricted: set<Version>, order: seq<Version>,
                          seen: set<Version>, expecting: set<Version>, queue: seq<Version>,
                          found: bool, best: seq<Version>) {
    BottomHasNoKids(t, bottom) ==>
      && Searching(t, bottom, restricted, order, seen, expecting, queue)
      && FunnelsAccounted(t, bottom, restricted, seen, found, best)
      && best <= order
  }

  /** What holds when the loop is left: the last region found is around every funnel. */
  ghost predicate Finished(t: Graph, bottom: set<Version>, restricted: set<Version>, found: bool, best: seq<Version>) {
    BottomHasNoKids(t, bottom) ==>
      forall f :: IsFunnel(t, bottom, restricted, f) ==> found && Members(f) <= Members(best)
  }

  lemma StartOnTrack(t: Graph, bottom: set<Version>, restricted: set<Version>, seen: set<Version>, queue: seq<Version>)
    requires Members(queue) == bottom
    requires BottomHasNoKids(t, bottom) ==> seen == {}
    ensures OnTrack(t, bottom, restricted, [], seen, bottom, queue, false, [])
  {
    assert ParentsOf(t, {}) == {};
    assert forall x :: x in queue <==> x in Members(queue);
    forall f | IsFunnel(t, bottom, restricted, f) ensures Last(f) !in {} && {} <= Members(f) {}
  }

  lemma SkipOne(t: Graph, bottom: set<Version>, restricted: set<Version>, order: seq<Version>, seen: set<Version>,
                expecting: set<Version>, queue: seq<Version>, cur: Version, found: bool, best: seq<Version>)
    requires OnTrack(t, bottom, restricted, order, seen, expecting, queue + [cur], found, best)
    requires cur in seen || !(Kids(t, cur) <= seen)
    ensures OnTrack(t, bottom, restricted, order, seen, expecting, queue, found, best)
  {
    forall x | x in queue ensures x in queue + [cur] {}
    assert forall x :: x in queue + [cur] ==> x in queue || x == cur;
  }

  /** Stopping early at an unknown or restricted version loses nothing. */
  lemma StopEarly(t: Graph, bottom: set<Version>, restricted: set<Version>, order: seq<Version>, seen: set<Version>,
                  expecting: set<Version>, queue: seq<Version>, cur: Version, found: bool, best: seq<Version>)
    requires OnTrack(t, bottom, restricted, order, seen, expecting, queue + [cur], found, best)
    requires cur !in t || cur in restricted
    ensures Finished(t, bottom, restricted, found, best)
  {
    if BottomHasNoKids(t, bottom) {
      assert cur in queue + [cur];
      forall f | IsFunnel(t, bottom, restricted, f) ensures Last(f) in seen {
        if Last(f) !in seen { WaitingIsInside(t, bottom, restricted, f, seen, cur); }
      }
    }
  }

  lemma StopAtEnd(t: Graph, bottom: set<Version>, restricted: set<Version>, order: seq<Version>, seen: set<Version>,
                  expecting: set<Version>, found: bool, best: seq<Version>)
    requires OnTrack(t, bottom, restricted, order, seen, expecting, [], found, best)
    ensures Finished(t, bottom, restricted, found, best)
  {
    if BottomHasNoKids(t, bottom) {
      forall f | IsFunnel(t, bottom, restricted, f) ensures Last(f) in seen {
        NothingWaiting(t, bottom, restricted, f, seen);
      }
    }
  }

  lemma TakeOne(t: Graph, bottom: set<Version>, restricted: set<Version>, order: seq<Version>, seen: set<Version>,
                expecting: set<Version>, queue: seq<Version>, cur: Version, pushed: seq<Version>,
                found: bool, best: seq<Version>, topFound: bool)
    requires OnTrack(t, bottom, restricted, order, seen, expecting, queue + [cur], found, best)
    requires cur in t && cur !in restricted && cur !in seen && Kids(t, cur) <= seen
    requires Members(pushed) == t[cur] && (expecting - {cur} == {} ==> topFound)
    ensures OnTrack(t, bottom, restricted, order + [cur], seen + {cur}, expecting - {cur} + t[cur],
                    queue + pushed, found || topFound, if topFound then order + [cur] else best)
    ensures BottomHasNoKids(t, bottom) && expecting - {cur} == {} ==> IsCut(t, bottom, restricted, order + [cur], {cur})
  {
    if BottomHasNoKids(t, bottom) {
      ProcessOne(t, bottom, restricted, order, seen, expecting, queue, cur, pushed);
      FunnelsStep(t, bottom, restricted, order, seen, expecting, queue, cur, found, best, topFound);
    }
  }

  /** The iteration order of a set, which the hash tables leave open. */
  method AnyOrder(s: set<Version>) returns (order: seq<Version>)
    ensures Members(order) == s
  {
    order := [];
    var todo := s;
    while todo != {}
      invariant todo <= s && Members(order) == s - todo
    {
      var v :| v in todo;
      assert Members(order + [v]) == Members(order) + {v};
      order, todo := order + [v], todo - {v};
    }
  }

  method Pop(queue: seq<Version>) returns (rest: seq<Version>, last: Version)
    requires queue != []
    ensures queue == rest + [last] && |rest| < |queue|
  {
    rest, last := queue[..|queue| - 1], queue[|queue| - 1];
  }

  /** Every version's parents in the order in which their table yields them. */
  type ParentOrders = map<Version, seq<Version>>

  ghost predicate AreParentOrders(t: Graph, orders: ParentOrders) {
    orders.Keys == t.Keys && forall x :: x in t ==> Members(orders[x]) == t[x]
  }

  method AnyParentOrders(t: Graph) returns (orders: ParentOrders)
    ensures AreParentOrders(t, orders)
  {
    orders := map[];
    var todo := t.Keys;
    while todo != {}
      invariant todo <= t.Keys && orders.Keys == t.Keys - todo
      invariant forall x :: x in orders ==> Members(orders[x]) == t[x]
    {
      var v :| v in todo;
      var order := AnyOrder(t[v]);
      orders, todo := orders[v := order], todo - {v};
    }
  }

  /** The children of a version when they all have the same parents, in their table's order. */
  type ChildSet = seq<Version>

  /** What a search reads: the graph and the order of every parent set, the child map, the
      child sets, and the versions it may not touch. */
  datatype Tables = Tables(t: Graph, orders: ParentOrders, children: Graph, childSets: map<Version, ChildSet>,
                           restricted: Option<set<Version>>)
  {
    ghost predicate Valid() {
      && AreParentOrders(t, orders) && IsChildMap(t, children)
      && forall c :: c in childSets ==> childSets[c] != [c] && AreTwins(t, c, Members(childSets[c]))
    }

    ghost function R(): set<Version> {
      if restricted.Some? then restricted.value else {}
    }

    predicate IsClosed(cur: Version) {
      cur !in t || (restricted.Some? && cur in restricted.value)
    }

    predicate IsReady(seen: set<Version>, cur: Version) {
      cur !in seen && (cur in children ==> children[cur] <= seen)
    }

    /** A version closes its sibling group when the whole group is seen and nothing but its
        own parents is expected. */
    predicate ClosesGroup(seen: set<Version>, expecting: set<Version>, cur: Version)
      requires cur in t
    {
      cur in childSets && Members(childSets[cur]) <= seen && expecting == t[cur]
    }

    function ChildrenOf(vs: set<Version>): set<Version> {
      set v, k | v in vs && v in children && k in children[v] :: k
    }
  }

  ghost predicate AreTwins(t: Graph, c: Version, group: set<Version>) {
    c in t && c in group && forall d :: d in group ==> d in t && t[d] == t[c]
  }

  /** The variables of the search; a top is given in the order of its table. */
  datatype Progress = Progress(seen: set<Version>, expecting: set<Version>, queue: seq<Version>,
                               lastTop: Option<seq<Version>>)

  datatype Turn = Stop(top: Option<seq<Version>>) | GoOn(p: Progress)

  /** Processing one ready version. */
  function Take(w: Tables, p: Progress, cur: Version): Turn
    requires cur in w.t && w.orders.Keys == w.t.Keys
  {
    var seen, expecting := p.seen + {cur}, p.expecting - {cur};
    var top := if expecting == {} then Some([cur]) else p.lastTop;
    if expecting == {} && w.restricted.None? then Stop(top)
    else if !w.ClosesGroup(seen, expecting + w.t[cur], cur) then
      GoOn(Progress(seen, expecting + w.t[cur], p.queue + w.orders[cur], top))
    else if w.restricted.None? then Stop(Some(w.childSets[cur]))
    else GoOn(Progress(seen, expecting + w.t[cur], p.queue + w.orders[cur], Some(w.childSets[cur])))
  }

  /** The answer of the search from a state of its variables: the orders fix it. */
  ghost function Answer(w: Tables, p: Progress): Option<seq<Version>>
    requires w.orders.Keys == w.t.Keys
    decreases w.t.Keys - p.seen, |p.queue|
  {
    if p.queue == [] then p.lastTop
    else
      var cur, q := p.queue[|p.queue| - 1], p.(queue := p.queue[..|p.queue| - 1]);
      if w.IsClosed(cur) then if cur !in w.t && w.restricted.None? then None else p.lastTop
      else if !w.IsReady(p.seen, cur) then Answer(w, q)
      else
        match Take(w, q, cur)
        case Stop(top) => top
        case GoOn(next) => Answer(w, next)
  }

  ghost function Start(w: Tables, bottom: seq<Version>): Progress {
    Progress(w.ChildrenOf(Members(bottom)), Members(bottom), bottom, None)
  }

  /** The search starts with the children of the bottom as if they had been processed. */
  lemma StartHasSeenKids(w: Tables, bottom: seq<Version>, x: Version)
    requires w.Valid()
    ensures x in Start(w, bottom).seen <==> exists v :: v in bottom && x in Kids(w.t, v)
    ensures Start(w, bottom).expecting == Members(bottom) && Start(w, bottom).queue == bottom
  {
    if v :| v in bottom && x in Kids(w.t, v) { assert v in w.children && v in Members(bottom); }
  }

  /** Inside every bubble there is. */
  ghost predicate IsInnermost(t: Graph, bottom: set<Version>, restricted: set<Version>, order: seq<Version>) {
    forall f :: IsFunnel(t, bottom, restricted, f) ==> Members(order) <= Members(f)
  }

  /** A top is a single version above a cut, or a sibling group above a region. */
  ghost predicate GoodTop(w: Tables, bottom: set<Version>, top: Option<seq<Version>>, best: seq<Version>) {
    top.Some? ==>
      && best != []
      && (top.value == [Last(best)] || (Last(best) in w.childSets && top.value == w.childSets[Last(best)]))
      && (BottomHasNoKids(w.t, bottom) ==>
            && IsRegion(w.t, bottom, w.R(), best, Members(top.value))
            && (top.value == [Last(best)] ==> OnlyTopLeaves(w.t, best, {Last(best)})))
  }

  /** What the loop keeps. */
  ghost predicate Kept(w: Tables, bottom: set<Version>, order: seq<Version>, p: Progress, best: seq<Version>) {
    && OnTrack(w.t, bottom, w.R(), order, p.seen, p.expecting, p.queue, p.lastTop.Some?, best)
    && GoodTop(w, bottom, p.lastTop, best)
    && (w.restricted.None? ==> p.lastTop.None?)
  }

  /** Whether processing a version yields a top. */
  ghost predicate FindsTop(w: Tables, p: Progress, cur: Version)
    requires cur in w.t
  {
    p.expecting - {cur} == {} || w.ClosesGroup(p.seen + {cur}, p.expecting - {cur} + w.t[cur], cur)
  }

  lemma TopIsGood(w: Tables, cur: Version, p: Progress, bottom: set<Version>, order: seq<Version>)
    requires w.Valid() && cur in w.t && FindsTop(w, p, cur)
    requires BottomHasNoKids(w.t, bottom) ==>
               && (p.expecting - {cur} == {} ==> IsCut(w.t, bottom, w.R(), order + [cur], {cur}))
               && Searching(w.t, bottom, w.R(), order + [cur], p.seen + {cur}, p.expecting - {cur} + w.t[cur],
                  p.queue + w.orders[cur])
    ensures var closes := w.ClosesGroup(p.seen + {cur}, p.expecting - {cur} + w.t[cur], cur);
            && (closes ==> GoodTop(w, bottom, Some(w.childSets[cur]), order + [cur]))
            && (p.expecting - {cur} == {} ==> GoodTop(w, bottom, Some([cur]), order + [cur]))
  {
    assert Last(order + [cur]) == cur && Members([cur]) == {cur};
    if w.ClosesGroup(p.seen + {cur}, p.expecting - {cur} + w.t[cur], cur) && BottomHasNoKids(w.t, bottom) {
      GroupCloses(w.t, bottom, w.R(), order + [cur], p.seen + {cur}, p.expecting - {cur} + w.t[cur],
                  p.queue + w.orders[cur],
                  Members(w.childSets[cur]));
    }
  }

  /** As long as no bubble was found, what has been processed is inside every bubble there is. */
  lemma FirstIsInnermost(t: Graph, bottom: set<Version>, restricted: set<Version>, order: seq<Version>,
                         seen: set<Version>, expecting: set<Version>, queue: seq<Version>, cur: Version,
                         best: seq<Version>)
    requires BottomHasNoKids(t, bottom) &&
             OnTrack(t, bottom, restricted, order, seen, expecting, queue + [cur], false, best)
    ensures IsInnermost(t, bottom, restricted, order + [cur])
  {
    assert cur in queue + [cur];
    forall f | IsFunnel(t, bottom, restricted, f) ensures Members(order + [cur]) <= Members(f) {
      WaitingIsInside(t, bottom, restricted, f, seen, cur);
      assert forall x :: x in order + [cur] ==> x in order || x == cur;
    }
  }

  /** Processing one ready version: everything a turn of the loop does with it. */
  method TakeVersion(w: Tables, cur: Version, p: Progress, ghost bottom: set<Version>, ghost order: seq<Version>,
                     ghost best: seq<Version>)
    returns (turn: Turn, ghost best': seq<Version>)
    requires w.Valid() && cur in w.t && cur !in w.R() && w.IsReady(p.seen, cur)
    requires Kept(w, bottom, order, p.(queue := p.queue + [cur]), best)
    ensures turn == Take(w, p, cur)
    ensures turn.Stop? ==> turn.top.Some? && w.restricted.None? && GoodTop(w, bottom, turn.top, best')
    ensures turn.Stop? && BottomHasNoKids(w.t, bottom) ==> IsInnermost(w.t, bottom, {}, best')
    ensures turn.GoOn? ==> Kept(w, bottom, order + [cur], turn.p, best') && w.t.Keys - turn.p.seen < w.t.Keys - p.seen
  {
    var Progress(seen, expecting, queue, lastTop) := p;
    best' := if FindsTop(w, p, cur) then order + [cur] else best;
    TakeOne(w.t, bottom, w.R(), order, seen, expecting, queue, cur, w.orders[cur], lastTop.Some?, best,
            FindsTop(w, p, cur));
    if FindsTop(w, p, cur) { TopIsGood(w, cur, p, bottom, order); }
    if w.restricted.None? && BottomHasNoKids(w.t, bottom) {
      FirstIsInnermost(w.t, bottom, {}, order, seen, expecting, queue, cur, best);
    }
    seen, expecting := seen + {cur}, expecting - {cur};
    if expecting == {} {
      lastTop := Some([cur]);
      if w.restricted.None? { return Stop(lastTop), best'; }
    }
    expecting, queue := expecting + w.t[cur], queue + w.orders[cur];
    if w.ClosesGroup(seen, expecting, cur) {
      lastTop := Some(w.childSets[cur]);
      if w.restricted.None? { return Stop(lastTop), best'; }
    }
    turn := GoOn(Progress(seen, expecting, queue, lastTop));
  }

  /** `find_one_bubble`.  Besides the top it returns, as ghost, the processed list `best`
      at the time of the last top. */
  method FindOneBubble(w: Tables, bottom: seq<Version>) returns (top: Option<seq<Version>>, ghost best: seq<Version>)
    requires w.Valid()
    ensures top == Answer(w, Start(w, bottom))
    ensures GoodTop(w, Members(bottom), top, best)
    ensures w.restricted.Some? || top.None? ==> Finished(w.t, Members(bottom), w.R(), top.Some?, best)
    ensures w.restricted.None? && top.Some? && BottomHasNoKids(w.t, Members(bottom)) ==>
              IsInnermost(w.t, Members(bottom), {}, best)
  {
    ghost var B, order := Members(bottom), [];
    best := [];
    var p := Progress(w.ChildrenOf(Members(bottom)), Members(bottom), bottom, None);
    StartOnTrack(w.t, B, w.R(), p.seen, p.queue);
    while p.queue != []
      invariant Kept(w, B, order, p, best)
      invariant Answer(w, p) == Answer(w, Start(w, bottom))
      decreases w.t.Keys - p.seen, |p.queue|
    {
      var queue, cur := Pop(p.queue);
      assert p.queue[..|p.queue| - 1] == queue;
      if w.IsClosed(cur) {
        StopEarly(w.t, B, w.R(), order, p.seen, p.expecting, queue, cur, p.lastTop.Some?, best);
        if cur !in w.t && w.restricted.None? { return None, best; }
        return p.lastTop, best;
      }
      if !w.IsReady(p.seen, cur) {
        SkipOne(w.t, B, w.R(), order, p.seen, p.expecting, queue, cur, p.lastTop.Some?, best);
        p := Progress(p.seen, p.expecting, queue, p.lastTop);
        continue;
      }
      var turn;
      turn, best := TakeVersion(w, cur, p.(queue := queue), B, order, best);
      match turn
      case Stop(t) => return t, best;
      case GoOn(next) => p, order := next, order + [cur];
    }
    StopAtEnd(w.t, B, w.R(), order, p.seen, p.expecting, p.lastTop.Some?, best);
    top := p.lastTop;
  }

  // ---------- marking ----------

  /** bottom and top of the bubble a version belongs to */
  type Bubbles = map<Version, (Version, Version)>

  /** No marking that starts inside `region` leaves it, given what is marked already. */
  ghost predicate Confines(t: Graph, marked: set<Version>, region: set<Version>) {
    forall x :: x in region && x !in marked && x in t ==> t[x] <= region
  }

  ghost predicate MarkedFurther(t: Graph, before: Bubbles, after: Bubbles, bubble: (Version, Version),
                                region: set<Version>) {
    && before.Keys <= after.Keys <= before.Keys + region
    && (forall x :: x in before ==> after[x] == before[x])
    && (forall x :: x in after && x !in before ==> after[x] == bubble && (x in t ==> t[x] <= after.Keys))
  }

  /** `mark_bubble`: marks `v` and, through unmarked versions, everything above it. */
  method MarkBubble(t: Graph, v: Version, bubble: (Version, Version), toBubble: Bubbles, ghost region: set<Version>)
    returns (r: Bubbles)
    requires v in region && Confines(t, toBubble.Keys, region)
    ensures MarkedFurther(t, toBubble, r, bubble, region) && v in r
    decreases region - toBubble.Keys
  {
    if v in toBubble { return toBubble; }
    r := toBubble[v := bubble];
    if v in t {
      var todo := t[v];
      while todo != {}
        invariant todo <= t[v]
        invariant toBubble.Keys + {v} <= r.Keys <= toBubble.Keys + region
        invariant forall x :: x in toBubble ==> r[x] == toBubble[x]
        invariant forall x :: x in r && x !in toBubble ==> r[x] == bubble
        invariant forall x :: x in r && x !in toBubble && x != v && x in t ==> t[x] <= r.Keys
        invariant t[v] - todo <= r.Keys
      {
        var p :| p in todo;
        todo := todo - {p};
        r := MarkBubble(t, p, bubble, r, region);
      }
    }
  }

  /** Marking from every bottom version, in any order, with the top already marked. */
  method MarkFromAll(t: Graph, bottom: set<Version>, bubble: (Version, Version), toBubble: Bubbles,
                     ghost region: set<Version>)
    returns (r: Bubbles)
    requires bottom <= region && Confines(t, toBubble.Keys, region)
    ensures MarkedFurther(t, toBubble, r, bubble, region) && bottom <= r.Keys
  {
    r := toBubble;
    var todo := bottom;
    while todo != {}
      invariant todo <= bottom && bottom - todo <= r.Keys
      invariant MarkedFurther(t, toBubble, r, bubble, region)
    {
      var v :| v in todo;
      todo := todo - {v};
      r := MarkBubble(t, v, bubble, r, region);
    }
  }

  /** A marking that holds the top and the bottoms and keeps up with parents everywhere
      except at the top covers the whole region. */
  lemma MarkingCoversRegion(t: Graph, bottom: set<Version>, restricted: set<Version>, order: seq<Version>,
                            top: set<Version>,
                            marked: set<Version>)
    requires IsRegion(t, bottom, restricted, order, top)
    requires bottom + top <= marked
    requires forall x :: x in marked && x in t && x !in top ==> t[x] <= marked
    ensures Members(order) <= marked
  {
    RegionMembers(t, bottom, restricted, order, top);
    assert forall c :: c in top ==> t[c] !! Members(order);
    var i := 0;
    while i < |order|
      invariant i <= |order| && forall j :: 0 <= j < i ==> order[j] in marked
    {
      assert Admitted(t, bottom, restricted, order, i);
      if order[i] !in bottom {
        var c :| c in Kids(t, order[i]);
        assert c in Members(order[..i]) && order[i] in t[c] && order[i] in Members(order);
        assert c !in top;
      }
      i := i + 1;
    }
  }

  /** What is marked with a region: the region, and everything above its strays. */
  ghost function Marked(t: Graph, order: seq<Version>, top: set<Version>): set<Version> {
    Members(order) + Above(t, Strays(t, order, top))
  }

  /** Walking up from outside never comes back in, and ends in names without entries. */
  lemma AboveStaysOut(t: Graph, bottom: set<Version>, restricted: set<Version>, order: seq<Version>, top: set<Version>)
    requires IsRegion(t, bottom, restricted, order, top)
    ensures Above(t, Strays(t, order, top)) !! Members(order)
    ensures Confines(t, top, Marked(t, order, top))
    ensures OnlyTopLeaves(t, order, top) ==> Marked(t, order, top) == Members(order)
  {
    RegionMembers(t, bottom, restricted, order, top);
    StraysOfRegion(t, bottom, restricted, order, top);
    var strays := Strays(t, order, top);
    var above := Ancestors(t, strays);
    AncestorsAreClosed(t, strays);
    AncestorsAreLeast(t, strays, t.Keys - Members(order));
    forall x, p | x in t && x !in Members(order) && p in t[x] ensures p !in Members(order) { assert x in Kids(t, p); }
    forall x | x in Above(t, strays) && x in t ensures t[x] <= Above(t, strays) {
      assert x in above;
    }
  }

  /** A marking that keeps up with parents everywhere except at the top covers what is above the strays. */
  lemma MarkingFollowsStrays(t: Graph, bottom: set<Version>, restricted: set<Version>, order: seq<Version>,
                             top: set<Version>, marked: set<Version>)
    requires IsRegion(t, bottom, restricted, order, top) && Members(order) <= marked
    requires forall x :: x in marked && x in t && x !in top ==> t[x] <= marked
    ensures Above(t, Strays(t, order, top)) <= marked
  {
    RegionMembers(t, bottom, restricted, order, top);
    var strays, outside := Strays(t, order, top), marked - Members(order);
    forall x, p | x in outside && x in t && p in t[x] ensures p in outside { assert x in Kids(t, p); }
    assert strays <= outside;
    AncestorsAreLeast(t, strays, outside);
  }

  /** With only the top marked beforehand, the marking is exactly the region and everything
      above its strays. */
  lemma MarkedExactly(t: Graph, bottom: set<Version>, restricted: set<Version>, order: seq<Version>, top: set<Version>,
                      bubble: (Version, Version), r: Bubbles)
    requires IsRegion(t, bottom, restricted, order, top)
    requires MarkedFurther(t, map x | x in top :: bubble, r, bubble, Marked(t, order, top)) && bottom <= r.Keys
    ensures r == map x | x in Marked(t, order, top) :: bubble
  {
    assert top <= Members(order);
    MarkingCoversRegion(t, bottom, restricted, order, top, r.Keys);
    MarkingFollowsStrays(t, bottom, restricted, order, top, r.Keys);
    assert r.Keys == Marked(t, order, top);
  }
}
