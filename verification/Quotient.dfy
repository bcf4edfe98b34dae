/** Collapsing a bubble: what renaming its versions does to the graph. */
module Quotient {
  import opened VersionGraph
  import opened Bubble

  function Renamed(b: Bubbles, v: Version): Version {
    if v in b then b[v].0 else v
  }

  function RenamedParent(b: Bubbles, p: Version): Version {
    if p in b then b[p].1 else p
  }

  /** Bubble names stand for themselves, as they do in all bubbles that pruning builds. */
  ghost predicate NamesSettled(b: Bubbles) {
    forall v :: v in b ==> Renamed(b, b[v].0) == b[v].0
  }

  /** Every version under its new name, with the new names of all its parents. */
  ghost predicate IsCollapse(t: Graph, b: Bubbles, t': Graph) {
    && t'.Keys == (set v | v in t :: Renamed(b, v))
    && forall n :: n in t' ==>
      t'[n] == set v, p | v in t && Renamed(b, v) == n && p in t[v] :: RenamedParent(b, p)
  }

  /** A cut as pruning collapses it: everything in `order` becomes `name`, one of the bottom
      versions, and whoever pointed into it points to `key`, one of its top. */
  datatype Cut = Cut(bottom: set<Version>, restricted: set<Version>, order: seq<Version>, top: set<Version>,
                     name: Version, key: Version)
  {
    ghost predicate In(t: Graph) {
      IsCut(t, bottom, restricted, order, top) && name in bottom && key in top
    }

    ghost function All(): set<Version> {
      Members(order)
    }

    ghost function Renaming(): Bubbles {
      map x | x in All() :: (name, key)
    }

    /** The collapsed version does not become its own parent: it is not its own top, or the
        cut is no more than the bottom. */
    ghost predicate NotItsOwnTop() {
      key == name ==> All() == bottom
    }
  }

  /** The graph `t'` is `t` with the cut collapsed. */
  ghost predicate CollapsesCut(t: Graph, c: Cut, t': Graph) {
    c.In(t) && IsCollapse(t, c.Renaming(), t')
  }

  lemma MembersOf(t: Graph, c: Cut)
    requires c.In(t)
    ensures c.All() <= t.Keys - c.restricted && c.bottom + c.top <= c.All()
    ensures forall x :: x in c.All() ==> Kids(t, x) <= c.All()
    ensures forall x :: x in c.All() && t[x] != t[c.key] ==> t[x] <= c.All()
    ensures c.key in t && t[c.key] !! c.All()
  {
    CutMembers(t, c.bottom, c.restricted, c.order, c.top);
  }

  lemma CollapsedVersions(t: Graph, c: Cut, t': Graph)
    requires CollapsesCut(t, c, t')
    ensures t'.Keys == t.Keys - c.All() + {c.name}
  {
    MembersOf(t, c);
    var b := c.Renaming();
    assert c.name in c.All() && Renamed(b, c.name) == c.name;
    forall x | x in t.Keys - c.All() ensures x in t' { assert Renamed(b, x) == x; }
  }

  lemma OutsideUnchanged(t: Graph, c: Cut, t': Graph, x: Version)
    requires CollapsesCut(t, c, t')
    requires x in t && x !in c.All()
    ensures x in t' && t'[x] == t[x] && t[x] !! c.All()
  {
    CollapsedVersions(t, c, t');
    MembersOf(t, c);
    var b := c.Renaming();
    forall p | p in t[x] ensures p !in c.All() && RenamedParent(b, p) == p { assert x in Kids(t, p); }
    assert Renamed(b, x) == x;
  }

  /** The collapsed version hangs exactly where its top hung; when the cut is more than the
      bottom, the top's own name is left among the parents. */
  lemma CollapsedParents(t: Graph, c: Cut, t': Graph)
    requires CollapsesCut(t, c, t') && BottomHasNoKids(t, c.bottom)
    ensures c.name in t' && c.key in t && t[c.key] !! c.All()
    ensures t'[c.name] == t[c.key] + if c.All() == c.bottom then {} else {c.key}
  {
    MembersOf(t, c);
    CollapsedVersions(t, c, t');
    var b := c.Renaming();
    forall p | p in t'[c.name] ensures p in t[c.key] || (p == c.key && c.All() != c.bottom) {
      var y, q :| y in t && Renamed(b, y) == c.name && q in t[y] && p == RenamedParent(b, q);
      assert y in c.All() && y in Kids(t, q);
    }
    forall p | p in t[c.key] ensures p in t'[c.name] { assert Renamed(b, c.key) == c.name && RenamedParent(b, p) == p; }
    if c.All() != c.bottom {
      var x :| x in c.All() && x !in c.bottom;
      var i :| 0 <= i < |c.order| && c.order[i] == x;
      assert Admitted(t, c.bottom, c.restricted, c.order, i);
      var y :| y in Kids(t, x);
      assert Renamed(b, y) == c.name && RenamedParent(b, x) == c.key;
    }
  }

  /** Whatever holds the bottom and, with a version, its existing parents, holds the cut. */
  lemma CutFollowsKids(t: Graph, c: Cut, s: set<Version>)
    requires c.In(t) && c.bottom <= s && ParentClosed(t, s)
    ensures c.All() <= s
  {
    var i := 0;
    while i < |c.order|
      invariant i <= |c.order| && forall j :: 0 <= j < i ==> c.order[j] in s
    {
      assert Admitted(t, c.bottom, c.restricted, c.order, i);
      if c.order[i] !in c.bottom {
        var y :| y in Kids(t, c.order[i]);
        assert y in Members(c.order[..i]);
        assert c.order[i] in t[y] * t.Keys;
      }
      i := i + 1;
    }
  }

  /** Everything in a cut is an ancestor of its bottom. */
  lemma CutIsAboveBottom(t: Graph, c: Cut)
    requires c.In(t)
    ensures c.All() <= Ancestors(t, c.bottom)
  {
    MembersOf(t, c);
    AncestorsAreClosed(t, c.bottom);
    CutFollowsKids(t, c, Ancestors(t, c.bottom));
  }

  /** Every walk up out of a cut goes through its top. */
  lemma ExitThroughTop(t: Graph, c: Cut, a: Version, x: Version)
    requires c.In(t) && x in c.All() && a !in c.All() && IsAncestor(t, a, x)
    ensures IsAncestor(t, a, c.key)
  {
    MembersOf(t, c);
    var s := c.All() + Ancestors(t, {c.key});
    AncestorsAreClosed(t, {c.key});
    assert ParentClosed(t, s) by {
      assert t[c.key] * t.Keys <= Ancestors(t, {c.key}) by { assert c.key in Ancestors(t, {c.key}); }
    }
    AncestorsAreLeast(t, {x}, s);
    BothExist(t, a, x);
    assert a in Ancestors(t, {x});
  }

  // ---------- ancestry before and after ----------

  /** Above a version outside the cut nothing changes. */
  lemma OutsideAncestry(t: Graph, c: Cut, t': Graph, a: Version, d: Version)
    requires CollapsesCut(t, c, t')
    requires d in t && d !in c.All()
    ensures IsAncestor(t', a, d) <==> IsAncestor(t, a, d)
    ensures IsAncestor(t, a, d) ==> a !in c.All()
  {
    CollapsedVersions(t, c, t');
    AncestorOfItself(t, d);
    OutsideUnchanged(t, c, t', d);
    AncestorOfItself(t', d);
    var s := set x | x in t && x !in c.All() && IsAncestor(t', x, d);
    var s' := set x | x in t && x !in c.All() && IsAncestor(t, x, d);
    forall x, p | x in s && p in t[x] * t.Keys ensures p in s {
      OutsideUnchanged(t, c, t', x);
      AncestorStep(t', p, x, d);
    }
    forall x, p | x in s' && p in t'[x] * t'.Keys ensures p in s' {
      OutsideUnchanged(t, c, t', x);
      AncestorStep(t, p, x, d);
    }
    AncestorsAreLeast(t, {d}, s);
    AncestorsAreLeast(t', {d}, s');
    assert IsAncestor(t, a, d) ==> a in Ancestors(t, {d}) by { if IsAncestor(t, a, d) { BothExist(t, a, d); } }
    assert IsAncestor(t', a, d) ==> a in Ancestors(t', {d}) by { if IsAncestor(t', a, d) { BothExist(t', a, d); } }
  }

  lemma NameKeepsAncestors(t: Graph, c: Cut, t': Graph, a: Version)
    requires CollapsesCut(t, c, t') && BottomHasNoKids(t, c.bottom)
    requires a !in c.All() && IsAncestor(t, a, c.key)
    ensures IsAncestor(t', a, c.name)
  {
    CollapsedVersions(t, c, t');
    CollapsedParents(t, c, t');
    AncestorOfItself(t', c.name);
    var s := {c.key} + set x | x in t && x !in c.All() && IsAncestor(t', x, c.name);
    forall x, p | x in s && x in t && p in t[x] * t.Keys ensures p in s {
      if x == c.key {
        AncestorStep(t', p, c.name, c.name);
      } else {
        OutsideUnchanged(t, c, t', x);
        AncestorStep(t', p, x, c.name);
      }
    }
    AncestorsAreLeast(t, {c.key}, s);
    BothExist(t, a, c.key);
    assert a in Ancestors(t, {c.key});
    MembersOf(t, c);
  }

  lemma NameGainsNoAncestors(t: Graph, c: Cut, t': Graph, a: Version)
    requires CollapsesCut(t, c, t') && BottomHasNoKids(t, c.bottom)
    requires a !in c.All() && IsAncestor(t', a, c.name)
    ensures IsAncestor(t, a, c.key)
  {
    CollapsedVersions(t, c, t');
    CollapsedParents(t, c, t');
    AncestorOfItself(t, c.key);
    var s := {c.name} + set x | x in t && x !in c.All() && IsAncestor(t, x, c.key);
    forall x, p | x in s && x in t' && p in t'[x] * t'.Keys ensures p in s {
      if x == c.name {
        if p in t[c.key] { AncestorStep(t, p, c.key, c.key); }
      } else {
        OutsideUnchanged(t, c, t', x);
        AncestorStep(t, p, x, c.key);
      }
    }
    AncestorsAreLeast(t', {c.name}, s);
    BothExist(t', a, c.name);
    assert a in Ancestors(t', {c.name});
    MembersOf(t, c);
  }

  /** Above the collapsed version is what was above the top. */
  lemma NameAncestry(t: Graph, c: Cut, t': Graph, a: Version)
    requires CollapsesCut(t, c, t') && BottomHasNoKids(t, c.bottom)
    requires a !in c.All()
    ensures IsAncestor(t', a, c.name) <==> IsAncestor(t, a, c.key)
  {
    if IsAncestor(t, a, c.key) { NameKeepsAncestors(t, c, t', a); }
    if IsAncestor(t', a, c.name) { NameGainsNoAncestors(t, c, t', a); }
  }

  lemma KeyIsAncestor(t: Graph, c: Cut)
    requires c.In(t) && c.bottom == {c.name}
    ensures IsAncestor(t, c.key, c.name)
  {
    CutIsAboveBottom(t, c);
    assert c.key in Ancestors(t, c.bottom);
  }

  /** Under one bottom version, what is above the top is what is above the bottom. */
  lemma AboveTopIsAboveBottom(t: Graph, c: Cut, a: Version)
    requires c.In(t) && c.bottom == {c.name} && a !in c.All()
    ensures IsAncestor(t, a, c.key) <==> IsAncestor(t, a, c.name)
  {
    MembersOf(t, c);
    if IsAncestor(t, a, c.name) { ExitThroughTop(t, c, a, c.name); }
    if IsAncestor(t, a, c.key) {
      KeyIsAncestor(t, c);
      AncestorTransitive(t, a, c.key, c.name);
    }
  }

  /** Ancestry between the names `a` and `d` stands for ancestry between versions they name. */
  ghost predicate AncestryIsImage(t: Graph, b: Bubbles, t': Graph, a: Version, d: Version) {
    IsAncestor(t', a, d) <==> exists x, y :: Renamed(b, x) == a && Renamed(b, y) == d && IsAncestor(t, x, y)
  }

  /** The ancestry of the collapsed graph is the image of the old one under the renaming. */
  lemma AncestryCollapses(t: Graph, c: Cut, t': Graph, a: Version, d: Version)
    requires CollapsesCut(t, c, t') && BottomHasNoKids(t, c.bottom)
    requires a in t' && d in t'
    ensures AncestryIsImage(t, c.Renaming(), t', a, d)
  {
    var b := c.Renaming();
    MembersOf(t, c);
    CollapsedVersions(t, c, t');
    if IsAncestor(t', a, d) { AncestryWasThere(t, c, t', a, d); }
    forall x, y | Renamed(b, x) == a && Renamed(b, y) == d && IsAncestor(t, x, y) ensures IsAncestor(t', a, d) {
      BothExist(t, x, y);
      AncestorOfItself(t', d);
      if y !in b {
        OutsideAncestry(t, c, t', x, y);
      } else if x !in b {
        ExitThroughTop(t, c, x, y);
        NameAncestry(t, c, t', x);
      }
    }
  }

  lemma AncestryWasThere(t: Graph, c: Cut, t': Graph, a: Version, d: Version)
    requires CollapsesCut(t, c, t') && BottomHasNoKids(t, c.bottom)
    requires a in t' && d in t' && IsAncestor(t', a, d)
    ensures exists x, y :: Renamed(c.Renaming(), x) == a && Renamed(c.Renaming(), y) == d && IsAncestor(t, x, y)
  {
    var b := c.Renaming();
    MembersOf(t, c);
    CollapsedVersions(t, c, t');
    assert forall x :: x in t' && x != c.name ==> Renamed(b, x) == x;
    if d != c.name {
      OutsideAncestry(t, c, t', a, d);
    } else if a != c.name {
      NameAncestry(t, c, t', a);
      assert Renamed(b, c.key) == c.name;
    } else {
      AncestorOfItself(t, c.name);
      assert Renamed(b, c.name) == c.name;
    }
  }

  /** Under a one-version bottom, being an ancestor means the same before and after. */
  lemma AncestryPreserved(t: Graph, c: Cut, t': Graph, a: Version, d: Version)
    requires CollapsesCut(t, c, t') && c.bottom == {c.name} && BottomHasNoKids(t, c.bottom)
    requires a in t' && d in t'
    ensures IsAncestor(t', a, d) <==> IsAncestor(t, a, d)
  {
    MembersOf(t, c);
    CollapsedVersions(t, c, t');
    if d != c.name {
      OutsideAncestry(t, c, t', a, d);
    } else if a != c.name {
      NameAncestry(t, c, t', a);
      AboveTopIsAboveBottom(t, c, a);
    } else {
      AncestorOfItself(t, c.name);
      AncestorOfItself(t', c.name);
    }
  }

  // ---------- the frontier ----------

  /** The frontier is exactly the leaves, and everything is an ancestor of one of them. */
  ghost predicate IsFrontier(t: Graph, frontier: set<Version>) {
    && (forall x :: x in frontier <==> IsLeaf(t, x))
    && AllCovered(t, frontier)
  }

  ghost predicate AllCovered(t: Graph, frontier: set<Version>) {
    forall x {:trigger CoveredBy(t, frontier, x)} :: x in t ==> CoveredBy(t, frontier, x)
  }

  ghost predicate CoveredBy(t: Graph, frontier: set<Version>, x: Version) {
    exists f :: f in frontier && IsAncestor(t, x, f)
  }

  /** What every replica keeps of the history: the graph and its frontier. */
  datatype Replica = Replica(t: Graph, frontier: set<Version>)

  /** Adding a version: the entry, and the frontier without its parents. */
  function AddEntry(t: Graph, version: Version, parents: set<Version>): Graph {
    t[version := parents]
  }

  function AddToFrontier(frontier: set<Version>, version: Version, parents: set<Version>): set<Version> {
    frontier - parents + {version}
  }

  /** The name is used nowhere yet, not even as somebody's parent. */
  ghost predicate Unmentioned(t: Graph, version: Version, parents: set<Version>) {
    version !in t && version !in parents && forall c :: c in t ==> version !in t[c]
  }

  lemma AncestryGrows(t: Graph, version: Version, parents: set<Version>, a: Version, d: Version)
    requires version !in t && IsAncestor(t, a, d)
    ensures IsAncestor(AddEntry(t, version, parents), a, d)
  {
    var t' := AddEntry(t, version, parents);
    var p :| Walk(t, p) && p[0] == d && p[|p| - 1] == a;
    var s := set x | x in t && IsAncestor(t', x, d);
    AncestorOfItself(t', d);
    forall x, y | x in s && y in t[x] * t.Keys ensures y in s { AncestorStep(t', y, x, d); }
    WalkStaysIn(t, s, p);
  }

  lemma LeavesAfterAdd(t: Graph, version: Version, parents: set<Version>, x: Version)
    requires version !in t
    ensures IsLeaf(AddEntry(t, version, parents), x) <==>
            x !in parents && (IsLeaf(t, x) || (x == version && Unmentioned(t, version, parents)))
  {
    var t' := AddEntry(t, version, parents);
    assert t'[version] == parents;
    if IsLeaf(t', x) {
      forall c | c in t ensures x !in t[c] { assert t'[c] == t[c]; }
    }
  }

  lemma CoveredAfterAdd(t: Graph, frontier: set<Version>, version: Version, parents: set<Version>, x: Version)
    requires version !in t && x in t && CoveredBy(t, frontier, x)
    ensures CoveredBy(AddEntry(t, version, parents), AddToFrontier(frontier, version, parents), x)
  {
    var t', frontier' := AddEntry(t, version, parents), AddToFrontier(frontier, version, parents);
    var f :| f in frontier && IsAncestor(t, x, f);
    AncestryGrows(t, version, parents, x, f);
    if f in parents {
      AncestorOfItself(t', version);
      BothExist(t, x, f);
      AncestorStep(t', f, version, version);
      AncestorTransitive(t', x, f, version);
      assert version in frontier';
    } else {
      assert f in frontier';
    }
  }

  lemma FreshKeepsFrontier(t: Graph, frontier: set<Version>, version: Version, parents: set<Version>)
    requires IsFrontier(t, frontier) && Unmentioned(t, version, parents)
    ensures IsFrontier(AddEntry(t, version, parents), AddToFrontier(frontier, version, parents))
  {
    var t', frontier' := AddEntry(t, version, parents), AddToFrontier(frontier, version, parents);
    forall x ensures IsLeaf(t', x) <==> x in frontier' { LeavesAfterAdd(t, version, parents, x); }
    forall x | x in t' ensures CoveredBy(t', frontier', x) {
      if x == version {
        AncestorOfItself(t', version);
      } else {
        assert CoveredBy(t, frontier, x);
        CoveredAfterAdd(t, frontier, version, parents, x);
      }
    }
  }

  /** Adding a new version keeps the frontier right exactly when the name was mentioned
      nowhere: neither as a parent of an older version nor as its own parent. */
  lemma AddKeepsFrontier(t: Graph, frontier: set<Version>, version: Version, parents: set<Version>)
    requires IsFrontier(t, frontier) && version !in t
    ensures IsFrontier(AddEntry(t, version, parents), AddToFrontier(frontier, version, parents))
            <==> Unmentioned(t, version, parents)
  {
    if Unmentioned(t, version, parents) {
      FreshKeepsFrontier(t, frontier, version, parents);
    } else {
      LeavesAfterAdd(t, version, parents, version);
      assert version in AddToFrontier(frontier, version, parents);
    }
  }

  /** No frontier member is an ancestor of another. */
  lemma FrontierIsAntichain(t: Graph, frontier: set<Version>, a: Version, d: Version)
    requires IsFrontier(t, frontier) && a in frontier && d in frontier && IsAncestor(t, a, d)
    ensures a == d
  {
    LeafIsNoAncestor(t, a, d);
  }

  lemma LeavesHaveNoKids(t: Graph, frontier: set<Version>)
    requires forall y :: y in frontier ==> IsLeaf(t, y)
    ensures BottomHasNoKids(t, frontier)
  {
    forall v | v in frontier ensures Kids(t, v) == {} { LeafHasNoKids(t, v); }
  }

  // ---------- collapsing the whole frontier ----------

  /** One bubble that holds the whole frontier and is named after one of its versions. */
  ghost predicate IsOneBubble(frontier: set<Version>, b: Bubbles, name: Version, key: Version) {
    frontier <= b.Keys && name in frontier && forall x :: x in b ==> b[x] == (name, key)
  }

  /** No bubble in use as a parent has its name for its top: no collapsed version becomes its own parent. */
  ghost predicate NoneIsItsOwnParent(t: Graph, b: Bubbles) {
    forall x :: x in b && b[x].0 == b[x].1 ==> Kids(t, x) == {}
  }

  lemma OneBubbleVersions(t: Graph, frontier: set<Version>, b: Bubbles, name: Version, key: Version, t': Graph)
    requires IsOneBubble(frontier, b, name, key) && IsCollapse(t, b, t') && frontier <= t.Keys
    ensures t'.Keys == t.Keys - b.Keys + {name}
  {
    assert Renamed(b, name) == name;
    forall x | x in t.Keys - b.Keys ensures x in t' { assert Renamed(b, x) == x; }
  }

  lemma OneBubbleLeaves(t: Graph, frontier: set<Version>, b: Bubbles, name: Version, key: Version, t': Graph,
                        x: Version)
    requires forall y :: IsLeaf(t, y) <==> y in frontier
    requires IsOneBubble(frontier, b, name, key) && IsCollapse(t, b, t')
    ensures IsLeaf(t', x) <==> x == name && NoneIsItsOwnParent(t, b)
  {
    OneBubbleVersions(t, frontier, b, name, key, t');
    if x == name {
      if !NoneIsItsOwnParent(t, b) {
        var p :| p in b && name == key && Kids(t, p) != {};
        var y :| y in Kids(t, p);
        assert RenamedParent(b, p) == name;
        assert name in t'[Renamed(b, y)];
      } else {
        forall y, p | y in t && p in t[y] ensures RenamedParent(b, p) != name { assert y in Kids(t, p); }
      }
    } else if x in t' {
      var y :| y in t && x in t[y];
      assert RenamedParent(b, x) == x && x in t'[Renamed(b, y)];
    }
  }

  lemma OneBubbleCovered(t: Graph, frontier: set<Version>, b: Bubbles, name: Version, key: Version, t': Graph,
                         x: Version)
    requires IsOneBubble(frontier, b, name, key) && IsCollapse(t, b, t') && frontier <= t.Keys
    requires x in t' && (x == name || CoveredBy(t, frontier, x))
    ensures CoveredBy(t', {name}, x)
  {
    OneBubbleVersions(t, frontier, b, name, key, t');
    AncestorOfItself(t', name);
    var s := b.Keys + set y | y in t && y !in b && IsAncestor(t', y, name);
    forall y, p | y in s && y in t && p in t[y] * t.Keys ensures p in s {
      if p !in b {
        assert RenamedParent(b, p) == p && p in t'[Renamed(b, y)];
        AncestorStep(t', p, Renamed(b, y), name);
      }
    }
    if x != name {
      var f :| f in frontier && IsAncestor(t, x, f);
      AncestorsAreLeast(t, {f}, s);
      BothExist(t, x, f);
      assert x in Ancestors(t, {f});
    }
    assert name in {name};
  }

  lemma OneBubbleCovers(t: Graph, frontier: set<Version>, b: Bubbles, name: Version, key: Version, t': Graph)
    requires IsOneBubble(frontier, b, name, key) && IsCollapse(t, b, t') && frontier <= t.Keys &&
             AllCovered(t, frontier)
    ensures AllCovered(t', {name})
  {
    OneBubbleVersions(t, frontier, b, name, key, t');
    forall x | x in t' ensures CoveredBy(t', {name}, x) {
      assert x != name ==> CoveredBy(t, frontier, x);
      OneBubbleCovered(t, frontier, b, name, key, t', x);
    }
  }

  /** Collapsing one bubble around the whole frontier leaves its name as the exact frontier,
      unless that name becomes its own parent. */
  lemma OneBubbleKeepsFrontier(t: Graph, frontier: set<Version>, b: Bubbles, name: Version, key: Version, t': Graph)
    requires IsFrontier(t, frontier) && IsOneBubble(frontier, b, name, key) && IsCollapse(t, b, t')
    ensures IsFrontier(t', {name}) <==> NoneIsItsOwnParent(t, b)
  {
    assert frontier <= t.Keys by { assert forall y :: y in frontier ==> IsLeaf(t, y); }
    OneBubbleCovers(t, frontier, b, name, key, t');
    forall x ensures IsLeaf(t', x) <==> x == name && NoneIsItsOwnParent(t, b) {
      OneBubbleLeaves(t, frontier, b, name, key, t', x);
    }
    assert name in {name};
  }

  lemma OneBubbleKeepsOutside(t: Graph, frontier: set<Version>, b: Bubbles, name: Version, key: Version, t': Graph,
                              a: Version, d: Version)
    requires IsOneBubble(frontier, b, name, key) && IsCollapse(t, b, t') && frontier <= t.Keys
    requires IsAncestor(t - b.Keys, a, d)
    ensures IsAncestor(t', a, d)
  {
    var outside := t - b.Keys;
    OneBubbleVersions(t, frontier, b, name, key, t');
    BothExist(outside, a, d);
    AncestorOfItself(t', d);
    var s := set x | x in outside && IsAncestor(t', x, d);
    forall x, p | x in s && p in outside[x] * outside.Keys ensures p in s {
      assert Renamed(b, x) == x && RenamedParent(b, p) == p && p in t'[x];
      AncestorStep(t', p, x, d);
    }
    AncestorsAreLeast(outside, {d}, s);
    assert a in Ancestors(outside, {d});
  }

  lemma OneBubbleAddsNothingOutside(t: Graph, frontier: set<Version>, b: Bubbles, name: Version, key: Version,
                                    t': Graph, a: Version, d: Version)
    requires IsOneBubble(frontier, b, name, key) && IsCollapse(t, b, t') && frontier <= t.Keys
    requires key in b && key != name && d != name && IsAncestor(t', a, d)
    ensures IsAncestor(t - b.Keys, a, d)
  {
    var outside := t - b.Keys;
    OneBubbleVersions(t, frontier, b, name, key, t');
    BothExist(t', a, d);
    AncestorOfItself(outside, d);
    var s := set x | x in outside && IsAncestor(outside, x, d);
    forall x, p | x in s && p in t'[x] * t'.Keys ensures p in s {
      var y, q :| y in t && Renamed(b, y) == x && q in t[y] && RenamedParent(b, q) == p;
      assert y == x && q == p && p in outside;
      AncestorStep(outside, p, x, d);
    }
    AncestorsAreLeast(t', {d}, s);
    assert a in Ancestors(t', {d});
  }

  /** Ancestry after collapsing one bubble under another name than its top: everything is above
      the collapsed version, and between others an ancestor is one that a walk past the bubble reaches. */
  lemma OneBubbleAncestry(t: Graph, frontier: set<Version>, b: Bubbles, name: Version, key: Version, t': Graph,
                          a: Version, d: Version)
    requires IsFrontier(t, frontier) && IsOneBubble(frontier, b, name, key) && IsCollapse(t, b, t')
    requires key in b && key != name && a in t' && d in t'
    ensures IsAncestor(t', a, d) <==> d == name || IsAncestor(t - b.Keys, a, d)
  {
    assert frontier <= t.Keys by { assert forall y :: y in frontier ==> IsLeaf(t, y); }
    if d == name {
      OneBubbleCovers(t, frontier, b, name, key, t');
      assert CoveredBy(t', {name}, a);
    } else {
      if IsAncestor(t', a, d) { OneBubbleAddsNothingOutside(t, frontier, b, name, key, t', a, d); }
      if IsAncestor(t - b.Keys, a, d) { OneBubbleKeepsOutside(t, frontier, b, name, key, t', a, d); }
    }
  }

  /** A cut is no more than its bottom exactly when nothing hangs from any of its members. */
  lemma CutHasNoKids(t: Graph, c: Cut)
    requires c.In(t) && BottomHasNoKids(t, c.bottom)
    ensures c.All() == c.bottom <==> forall x :: x in c.All() ==> Kids(t, x) == {}
  {
    if c.All() != c.bottom {
      var x :| x in c.All() && x !in c.bottom;
      var i :| 0 <= i < |c.order| && c.order[i] == x;
      assert Admitted(t, c.bottom, c.restricted, c.order, i);
    }
  }

  /** Collapsing a cut under the whole frontier leaves the one new name as the exact frontier,
      unless that name becomes its own parent. */
  lemma CollapseKeepsFrontier(t: Graph, c: Cut, t': Graph)
    requires IsFrontier(t, c.bottom) && CollapsesCut(t, c, t')
    ensures IsFrontier(t', {c.name}) <==> c.NotItsOwnTop()
  {
    MembersOf(t, c);
    LeavesHaveNoKids(t, c.bottom);
    CutHasNoKids(t, c);
    OneBubbleKeepsFrontier(t, c.bottom, c.Renaming(), c.name, c.key, t');
  }

  /** The collapsed graph. */
  ghost function Collapsed(t: Graph, b: Bubbles): (t': Graph)
    ensures IsCollapse(t, b, t')
  {
    var names := set v | v in t :: Renamed(b, v);
    map n | n in names :: set v, p | v in t && Renamed(b, v) == n && p in t[v] :: RenamedParent(b, p)
  }

  /** The frontier stays exact whichever name and top the hash tables yield first, exactly when
      bottom and top share no version or the cut is no more than its bottom. */
  lemma EveryNameKeepsFrontier(t: Graph, c: Cut)
    requires IsFrontier(t, c.bottom) && c.In(t)
    ensures (forall name, key :: name in c.bottom && key in c.top ==>
               IsFrontier(Collapsed(t, c.(name := name, key := key).Renaming()), {name}))
            <==> c.bottom !! c.top || c.All() == c.bottom
  {
    forall name, key | name in c.bottom && key in c.top
      ensures IsFrontier(Collapsed(t, c.(name := name, key := key).Renaming()), {name})
              <==> (key == name ==> c.All() == c.bottom)
    {
      var c' := c.(name := name, key := key);
      CollapseKeepsFrontier(t, c', Collapsed(t, c'.Renaming()));
    }
    if !(c.bottom !! c.top) {
      var x :| x in c.bottom && x in c.top;
      assert IsFrontier(Collapsed(t, c.(name := x, key := x).Renaming()), {x}) <==> c.All() == c.bottom;
    }
  }
}
