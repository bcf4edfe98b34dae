/** A history whose pruning goes astray: a sibling group on top that is not alone under its
    parents. */
module StrayGroup {
  import opened VersionGraph
  import opened Text
  import opened Bubble
  import opened Quotient
  import opened Pruning

  const BOTTOM := Version("b")
  const LEFT := Version("c1")
  const RIGHT := Version("c2")
  const SIDE := Version("x")
  const P := Version("p")
  const Q := Version("q")
  const ROOT := Version("r")

  /** Two siblings above both `p` and `q`, a third version above `q` only, all merged in `b`. */
  const T: Graph := map[ROOT := {}, P := {ROOT}, Q := {ROOT}, LEFT := {P, Q}, RIGHT := {P, Q}, SIDE := {Q},
                        BOTTOM := {LEFT, RIGHT, SIDE}]

  /** The orders in which the third version is processed before the siblings. */
  const ORDERS: ParentOrders := map[ROOT := [], P := [ROOT], Q := [ROOT], LEFT := [P, Q], RIGHT := [P, Q], SIDE := [Q],
                                    BOTTOM := [LEFT, RIGHT, SIDE]]

  const CHILDREN: Graph := map[ROOT := {P, Q}, P := {LEFT, RIGHT}, Q := {LEFT, RIGHT, SIDE}, LEFT := {BOTTOM},
                               RIGHT := {BOTTOM}, SIDE := {BOTTOM}]

  const GROUPS: map<Version, ChildSet> := map[LEFT := [LEFT, RIGHT], RIGHT := [LEFT, RIGHT], P := [P, Q], Q := [P, Q]]

  /** Everything is acknowledged, but a fissure holds the root. */
  const TABLES := Tables(T, ORDERS, CHILDREN, GROUPS, Some({ROOT}))

  const REGION := [BOTTOM, SIDE, RIGHT, LEFT]

  lemma KidsOfAll()
    ensures Kids(T, ROOT) == {P, Q} && Kids(T, P) == {LEFT, RIGHT} && Kids(T, Q) == {LEFT, RIGHT, SIDE}
    ensures Kids(T, LEFT) == {BOTTOM} && Kids(T, RIGHT) == {BOTTOM} && Kids(T, SIDE) == {BOTTOM} &&
            Kids(T, BOTTOM) == {}
  {
  }

  lemma ChildMapIsRight()
    ensures IsChildMap(T, CHILDREN)
  {
    KidsOfAll();
    forall x | x !in CHILDREN ensures Kids(T, x) == {} {}
  }

  lemma OrdersAreRight()
    ensures AreParentOrders(T, ORDERS)
  {
  }

  lemma TwinsAreRight()
    ensures AreTwins(T, LEFT, {LEFT, RIGHT}) && AreTwins(T, RIGHT, {LEFT, RIGHT})
    ensures AreTwins(T, P, {P, Q}) && AreTwins(T, Q, {P, Q})
  {
  }

  lemma BothAreGroups()
    ensures IsSiblingGroup(T, P, {LEFT, RIGHT}) && IsSiblingGroup(T, ROOT, {P, Q})
  {
    KidsOfAll();
    assert |{LEFT, RIGHT}| == 2 && |{P, Q}| == 2;
  }

  lemma NoOtherGroups(v: Version)
    requires v in T && v != P && v != ROOT
    ensures !IsSiblingGroup(T, v, Kids(T, v))
  {
    KidsOfAll();
    assert |{BOTTOM}| == 1 && T[SIDE] != T[LEFT];
    assert SIDE in Kids(T, Q) && LEFT in Kids(T, Q);
  }

  lemma EntryIsGroup(c: Version)
    requires c in GROUPS
    ensures IsGroupFrom(T, {}, c, Members(GROUPS[c]))
  {
    BothAreGroups();
    assert Members([LEFT, RIGHT]) == {LEFT, RIGHT} && Members([P, Q]) == {P, Q};
  }

  lemma GroupIsEntered(v: Version)
    requires v in T
    ensures GroupEntered(T, v, GROUPS.Keys)
  {
    if v == P || v == ROOT { KidsOfAll(); } else { NoOtherGroups(v); }
  }

  /** The child sets are those of the code: the siblings below `p` and the ones below the root. */
  lemma GroupsAreRight()
    ensures AreChildSets(T, {}, {}, GROUPS)
  {
    forall c | c in GROUPS ensures IsGroupFrom(T, {}, c, Members(GROUPS[c])) { EntryIsGroup(c); }
    forall v | v in T ensures GroupEntered(T, v, GROUPS.Keys) { GroupIsEntered(v); }
  }

  lemma TablesAreRight()
    ensures TABLES.Valid()
  {
    OrdersAreRight();
    ChildMapIsRight();
    TwinsAreRight();
    assert Members([LEFT, RIGHT]) == {LEFT, RIGHT} && Members([P, Q]) == {P, Q};
    assert |[LEFT, RIGHT]| == |[P, Q]| == 2;
  }

  lemma EverythingIsAbove()
    ensures Ancestors(T, {BOTTOM}) == T.Keys
  {
    AncestorsAreClosed(T, {BOTTOM});
    var above := Ancestors(T, {BOTTOM});
    assert BOTTOM in above && {LEFT, RIGHT, SIDE} <= above by { assert T[BOTTOM] * T.Keys <= above; }
    assert {P, Q} <= above by { assert T[LEFT] * T.Keys <= above; }
    assert ROOT in above by { assert T[P] * T.Keys <= above; }
  }

  /** With everything acknowledged and one fissure, only what that fissure holds is restricted. */
  lemma OnlyRootIsRestricted(k: string, f: Fissure)
    requires f.versions == {ROOT}
    ensures Restricted(T, map[k := f], {BOTTOM}, false) == {ROOT}
  {
    EverythingIsAbove();
    assert FissureVersions(map[k := f]) == {ROOT} by { assert k in map[k := f] && map[k := f][k] == f; }
  }

  lemma Skips(p: Progress, rest: seq<Version>, cur: Version)
    requires p.queue == rest + [cur] && !TABLES.IsClosed(cur) && !TABLES.IsReady(p.seen, cur)
    ensures Answer(TABLES, p) == Answer(TABLES, p.(queue := rest))
  {
  }

  lemma Takes(p: Progress, rest: seq<Version>, cur: Version, next: Progress)
    requires p.queue == rest + [cur] && !TABLES.IsClosed(cur) && TABLES.IsReady(p.seen, cur)
    requires Take(TABLES, p.(queue := rest), cur) == GoOn(next)
    ensures Answer(TABLES, p) == Answer(TABLES, next)
  {
  }

  lemma TakesBottom()
    ensures Answer(TABLES, Start(TABLES, [BOTTOM])) ==
            Answer(TABLES, Progress({BOTTOM}, {LEFT, RIGHT, SIDE}, [LEFT, RIGHT, SIDE], Some([BOTTOM])))
  {
    assert Members([BOTTOM]) == {BOTTOM} && TABLES.ChildrenOf({BOTTOM}) == {};
    assert [] + [BOTTOM] == [BOTTOM] && [] + ORDERS[BOTTOM] == [LEFT, RIGHT, SIDE];
    var p := Progress({}, {BOTTOM}, [BOTTOM], None);
    assert {} + {BOTTOM} == {BOTTOM} && {BOTTOM} - {BOTTOM} == {} && {} + T[BOTTOM] == {LEFT, RIGHT, SIDE};
    Takes(p, [], BOTTOM, Progress({BOTTOM}, {LEFT, RIGHT, SIDE}, [LEFT, RIGHT, SIDE], Some([BOTTOM])));
  }

  lemma TakesSide()
    ensures Answer(TABLES, Progress({BOTTOM}, {LEFT, RIGHT, SIDE}, [LEFT, RIGHT, SIDE], Some([BOTTOM]))) ==
            Answer(TABLES, Progress({BOTTOM, SIDE}, {LEFT, RIGHT, Q}, [LEFT, RIGHT], Some([BOTTOM])))
  {
    var p := Progress({BOTTOM}, {LEFT, RIGHT, SIDE}, [LEFT, RIGHT, SIDE], Some([BOTTOM]));
    var next := Progress({BOTTOM, SIDE}, {LEFT, RIGHT, Q}, [LEFT, RIGHT, Q], Some([BOTTOM]));
    assert {BOTTOM} + {SIDE} == {BOTTOM, SIDE} && {LEFT, RIGHT, SIDE} - {SIDE} + T[SIDE] == {LEFT, RIGHT, Q};
    assert [LEFT, RIGHT] + ORDERS[SIDE] == [LEFT, RIGHT, Q];
    Takes(p, [LEFT, RIGHT], SIDE, next);
    assert LEFT in CHILDREN[Q];
    Skips(next, [LEFT, RIGHT], Q);
  }

  lemma TakesRight()
    ensures Answer(TABLES, Progress({BOTTOM, SIDE}, {LEFT, RIGHT, Q}, [LEFT, RIGHT], Some([BOTTOM]))) ==
            Answer(TABLES, Progress({BOTTOM, SIDE, RIGHT}, {LEFT, P, Q}, [LEFT], Some([BOTTOM])))
  {
    var p := Progress({BOTTOM, SIDE}, {LEFT, RIGHT, Q}, [LEFT, RIGHT], Some([BOTTOM]));
    var next := Progress({BOTTOM, SIDE, RIGHT}, {LEFT, P, Q}, [LEFT, P, Q], Some([BOTTOM]));
    assert {BOTTOM, SIDE} + {RIGHT} == {BOTTOM, SIDE, RIGHT} && {LEFT, RIGHT, Q} - {RIGHT} + T[RIGHT] == {LEFT, P, Q};
    assert [LEFT] + ORDERS[RIGHT] == [LEFT, P, Q] && [LEFT] + [RIGHT] == [LEFT, RIGHT];
    assert LEFT in {LEFT, P, Q} && LEFT !in T[RIGHT];
    Takes(p, [LEFT], RIGHT, next);
    assert LEFT in CHILDREN[Q] && LEFT in CHILDREN[P];
    Skips(next, [LEFT, P], Q);
    var skipped := Progress({BOTTOM, SIDE, RIGHT}, {LEFT, P, Q}, [LEFT, P], Some([BOTTOM]));
    Skips(skipped, [LEFT], P);
  }

  lemma TakesLeft()
    ensures Answer(TABLES, Progress({BOTTOM, SIDE, RIGHT}, {LEFT, P, Q}, [LEFT], Some([BOTTOM]))) ==
            Answer(TABLES, Progress({BOTTOM, SIDE, RIGHT, LEFT}, {P, Q}, [P, Q], Some([LEFT, RIGHT])))
  {
    var p := Progress({BOTTOM, SIDE, RIGHT}, {LEFT, P, Q}, [LEFT], Some([BOTTOM]));
    var next := Progress({BOTTOM, SIDE, RIGHT, LEFT}, {P, Q}, [P, Q], Some([LEFT, RIGHT]));
    assert {BOTTOM, SIDE, RIGHT} + {LEFT} == {BOTTOM, SIDE, RIGHT, LEFT};
    assert P in {LEFT, P, Q} - {LEFT} && {LEFT, P, Q} - {LEFT} + T[LEFT] == {P, Q};
    assert [] + ORDERS[LEFT] == [P, Q] && [] + [LEFT] == [LEFT];
    assert Members([LEFT, RIGHT]) == {LEFT, RIGHT};
    Takes(p, [], LEFT, next);
  }

  lemma StopsAtRoot()
    ensures Answer(TABLES, Progress({BOTTOM, SIDE, RIGHT, LEFT}, {P, Q}, [P, Q], Some([LEFT, RIGHT]))) ==
            Some([LEFT, RIGHT])
  {
    var p := Progress({BOTTOM, SIDE, RIGHT, LEFT}, {P, Q}, [P, Q], Some([LEFT, RIGHT]));
    var next := Progress({BOTTOM, SIDE, RIGHT, LEFT, Q}, {P, ROOT}, [P, ROOT], Some([LEFT, RIGHT]));
    assert {BOTTOM, SIDE, RIGHT, LEFT} + {Q} == {BOTTOM, SIDE, RIGHT, LEFT, Q} && {P, Q} - {Q} + T[Q] == {P, ROOT};
    assert [P] + ORDERS[Q] == [P, ROOT] && [P] + [Q] == [P, Q] && P in {P, Q} - {Q};
    Takes(p, [P], Q, next);
    assert TABLES.IsClosed(ROOT);
  }

  /** The search answers with the siblings: the root above them may not be touched. */
  lemma SearchFindsGroup()
    ensures Answer(TABLES, Start(TABLES, [BOTTOM])) == Some([LEFT, RIGHT])
  {
    TakesBottom();
    TakesSide();
    TakesRight();
    TakesLeft();
    StopsAtRoot();
  }

  lemma RegionIsFound()
    ensures IsRegion(T, {BOTTOM}, {ROOT}, REGION, {LEFT, RIGHT}) && !OnlyTopLeaves(T, REGION, {LEFT, RIGHT})
    ensures Members(REGION) == {BOTTOM, SIDE, RIGHT, LEFT}
  {
    KidsOfAll();
    assert REGION[..0] == [] && REGION[..1] == [BOTTOM] && REGION[..2] == [BOTTOM, SIDE] &&
           REGION[..3] == [BOTTOM, SIDE, RIGHT];
    assert BOTTOM in Members([BOTTOM]) && BOTTOM in Members([BOTTOM, SIDE]) && BOTTOM in Members([BOTTOM, SIDE, RIGHT]);
    assert Admitted(T, {BOTTOM}, {ROOT}, REGION, 0) && Admitted(T, {BOTTOM}, {ROOT}, REGION, 1);
    assert Admitted(T, {BOTTOM}, {ROOT}, REGION, 2) && Admitted(T, {BOTTOM}, {ROOT}, REGION, 3);
    assert Members(REGION) == {BOTTOM, SIDE, RIGHT, LEFT};
    assert SIDE in Members(REGION) && Q !in Members(REGION);
  }

  lemma OnlyStray()
    ensures Strays(T, REGION, {LEFT, RIGHT}) == {Q}
  {
    RegionIsFound();
    assert SIDE in Members(REGION) - {LEFT, RIGHT};
  }

  lemma RootIsAbove()
    ensures Above(T, {Q}) == {Q, ROOT}
  {
    AncestorsAreClosed(T, {Q});
    AncestorsAreLeast(T, {Q}, {Q, ROOT});
    assert T[Q] * T.Keys <= Ancestors(T, {Q});
  }

  /** The third version has a parent of the siblings', and above that is the root. */
  lemma StraysLeadToRoot(bubble: (Version, Version), r: Bubbles)
    requires EntersRegion(T, {BOTTOM}, {ROOT}, REGION, {LEFT, RIGHT}, bubble, r)
    ensures r.Keys == {BOTTOM, SIDE, RIGHT, LEFT} + {Q, ROOT}
  {
    RegionIsFound();
    OnlyStray();
    RootIsAbove();
  }

  /** A pruning that is not safe: the search answers with the siblings, the third version has
      a parent of theirs, and what is entered takes in the root, although a fissure holds it. */
  lemma PruningTakesRestricted(k: string, f: Fissure, bubble: (Version, Version), r: Bubbles)
    requires f.versions == {ROOT}
    requires EntersRegion(T, {BOTTOM}, {ROOT}, REGION, {LEFT, RIGHT}, bubble, r)
    ensures TABLES.Valid() && AreChildSets(T, {}, {}, GROUPS)
    ensures Restricted(T, map[k := f], {BOTTOM}, false) == {ROOT}
    ensures Answer(TABLES, Start(TABLES, [BOTTOM])) == Some([LEFT, RIGHT])
    ensures IsRegion(T, {BOTTOM}, {ROOT}, REGION, {LEFT, RIGHT}) && !OnlyTopLeaves(T, REGION, {LEFT, RIGHT})
    ensures r.Keys == {BOTTOM, SIDE, RIGHT, LEFT} + {Q, ROOT}
  {
    RegionIsFound();
    StraysLeadToRoot(bubble, r);
    TablesAreRight();
    GroupsAreRight();
    OnlyRootIsRestricted(k, f);
    SearchFindsGroup();
  }
}
