/** A history whose pruning leaves a version that is its own parent: hash order gives the
    bubble the name of its own top. */
module SelfParent {
  import opened VersionGraph
  import opened Text
  import opened Bubble
  import opened Quotient
  import opened Pruning

  const X := Version("x")
  const Y := Version("y")
  const F := Version("f")

  /** Two roots, and a version above one of them; all is acknowledged, no fissure is left. */
  const T: Graph := map[X := {}, Y := {}, F := {Y}]

  const ORDERS: ParentOrders := map[X := [], Y := [], F := [Y]]

  const CHILDREN: Graph := map[Y := {F}]

  const TABLES := Tables(T, ORDERS, CHILDREN, map[], Some({}))

  /** The frontier in the order that yields the shorter branch first. */
  const FRONTIER := [X, F]

  const CUT := Cut({X, F}, {}, [F, Y, X], {X}, X, X)

  lemma KidsOfAll()
    ensures Kids(T, X) == {} && Kids(T, Y) == {F} && Kids(T, F) == {}
  {
  }

  lemma TablesAreRight()
    ensures TABLES.Valid()
  {
    KidsOfAll();
    forall v | v !in CHILDREN ensures Kids(T, v) == {} {}
    assert AreParentOrders(T, ORDERS);
  }

  lemma NoSiblingGroups()
    ensures AreChildSets(T, {X, F}, {}, TABLES.childSets)
  {
    KidsOfAll();
    assert |{F}| == 1;
  }

  lemma FrontierIsExact()
    ensures IsFrontier(T, {X, F}) && Ancestors(T, {X, F}) == T.Keys
  {
    KidsOfAll();
    AncestorOfItself(T, X);
    AncestorOfItself(T, F);
    AncestorStep(T, Y, F, F);
    assert Y in T[F] && X in {X, F} && F in {X, F};
  }

  lemma NothingIsRestricted()
    ensures TABLES.R() == Restricted(T, map[], {X, F}, false)
  {
    FrontierIsExact();
  }

  lemma CutIsThere()
    ensures CUT.In(T) && !CUT.NotItsOwnTop() && OnlyTopLeaves(T, CUT.order, CUT.top)
  {
    KidsOfAll();
    var order := CUT.order;
    assert order[..0] == [] && order[..1] == [F] && order[..2] == [F, Y];
    assert F in Members([F]);
    assert Admitted(T, {X, F}, {}, order, 0) && Admitted(T, {X, F}, {}, order, 1) && Admitted(T, {X, F}, {}, order, 2);
    assert F in Members(order) && Y in Members(order) && X in Members(order);
    assert Y in CUT.All() && Y !in CUT.bottom;
  }

  lemma Takes(p: Progress, rest: seq<Version>, cur: Version, next: Progress)
    requires p.queue == rest + [cur] && !TABLES.IsClosed(cur) && TABLES.IsReady(p.seen, cur)
    requires Take(TABLES, p.(queue := rest), cur) == GoOn(next)
    ensures Answer(TABLES, p) == Answer(TABLES, next)
  {
  }

  lemma TakesLonger()
    ensures Answer(TABLES, Progress({}, {X, F}, [X, F], None)) == Answer(TABLES, Progress({F}, {X, Y}, [X, Y], None))
  {
    assert [X] + [F] == [X, F] && [X] + ORDERS[F] == [X, Y] && {} + {F} == {F};
    assert X in {X, F} - {F} && {X, F} - {F} + T[F] == {X, Y};
    Takes(Progress({}, {X, F}, [X, F], None), [X], F, Progress({F}, {X, Y}, [X, Y], None));
  }

  lemma TakesItsRoot()
    ensures Answer(TABLES, Progress({F}, {X, Y}, [X, Y], None)) == Answer(TABLES, Progress({F, Y}, {X}, [X], None))
  {
    assert [X] + [Y] == [X, Y] && [X] + ORDERS[Y] == [X] && {F} + {Y} == {F, Y};
    assert X in {X, Y} - {Y} && {X, Y} - {Y} + T[Y] == {X};
    Takes(Progress({F}, {X, Y}, [X, Y], None), [X], Y, Progress({F, Y}, {X}, [X], None));
  }

  lemma TakesShorter()
    ensures Answer(TABLES, Progress({F, Y}, {X}, [X], None)) == Some([X])
  {
    assert [] + [X] == [X] && [] + ORDERS[X] == [] && {X} - {X} == {} && {F, Y} + {X} == {F, Y, X};
    Takes(Progress({F, Y}, {X}, [X], None), [], X, Progress({F, Y, X}, {}, [], Some([X])));
  }

  /** The longer branch is processed first, so the search ends with the other one on top. */
  lemma SearchFindsBranch()
    ensures Answer(TABLES, Start(TABLES, FRONTIER)) == Some([X])
  {
    assert Members(FRONTIER) == {X, F} && TABLES.ChildrenOf({X, F}) == {};
    TakesLonger();
    TakesItsRoot();
    TakesShorter();
  }

  lemma BranchIsAccepted()
    ensures Members(FRONTIER) == {X, F} && TopAccepted(FRONTIER, Some([X]))
  {
    assert Members(FRONTIER) == {X, F} && |{X, F}| == 2;
  }

  lemma CutIsEntered(r: Bubbles)
    requires EntersRegion(T, {X, F}, {}, CUT.order, CUT.top, (X, X), r)
    ensures r == CUT.Renaming()
  {
    CutIsThere();
    AboveStaysOut(T, {X, F}, {}, CUT.order, CUT.top);
  }

  lemma CutFallsOnItself(t': Graph)
    requires IsCollapse(T, CUT.Renaming(), t')
    ensures X in t' && X in t'[X] && !IsFrontier(t', {X})
  {
    CutIsThere();
    FrontierIsExact();
    CollapseKeepsFrontier(T, CUT, t');
    LeavesHaveNoKids(T, {X, F});
    CollapsedParents(T, CUT, t');
  }

  /** The search answers with one end of the frontier, its name is the bubble's as well, and
      what is entered collapses to a version that is its own parent, so no leaf is left. */
  lemma FrontierBecomesItsOwnParent(r: Bubbles, t': Graph)
    requires EntersRegion(T, {X, F}, {}, CUT.order, {X}, (X, X), r) && IsCollapse(T, r, t')
    ensures TABLES.Valid() && AreChildSets(T, {X, F}, {}, TABLES.childSets)
    ensures IsFrontier(T, {X, F}) && TABLES.R() == Restricted(T, map[], {X, F}, false) == {}
    ensures Members(FRONTIER) == {X, F} && TopAccepted(FRONTIER, Some([X]))
    ensures Answer(TABLES, Start(TABLES, FRONTIER)) == Some([X]) && IsRegion(T, {X, F}, {}, CUT.order, {X})
    ensures X in t' && X in t'[X] && !IsFrontier(t', {X})
  {
    CutIsEntered(r);
    CutFallsOnItself(t');
    CutIsThere();
    TablesAreRight();
    NoSiblingGroups();
    FrontierIsExact();
    NothingIsRestricted();
    SearchFindsBranch();
    BranchIsAccepted();
  }
}
