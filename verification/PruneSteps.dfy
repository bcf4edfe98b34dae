/** What delivering a version and pruning do to the part of a replica they share: the graph
    and its frontier. */
module PruneSteps {
  import opened VersionGraph
  import opened Bubble
  import opened Quotient
  import opened Pruning

  /** Delivering a version: nothing happens when it is known already. */
  ghost predicate Adds(s: Replica, s': Replica, version: Version, parents: set<Version>) {
    if version in s.t then s' == s
    else s' == Replica(AddEntry(s.t, version, parents), AddToFrontier(s.frontier, version, parents))
  }

  /** Pruning nothing, or one whole cut under the frontier. */
  ghost predicate Prunes(s: Replica, s': Replica, b: Bubbles, c: Cut) {
    && (b != map[] ==> c.In(s.t) && c.bottom == s.frontier && b == c.Renaming())
    && IsCollapse(s.t, b, s'.t)
    && s'.frontier == set f | f in s.frontier :: Renamed(b, f)
  }

  lemma EmptyBubblesCollapse(t: Graph, t': Graph, vs: set<Version>)
    ensures IsCollapse(t, map[], t') <==> t' == t
    ensures (set v | v in vs :: Renamed(map[], v)) == vs
  {
    forall v ensures Renamed(map[], v) == v && RenamedParent(map[], v) == v {}
    forall n | n in t
      ensures t[n] == set v, p | v in t && Renamed(map[], v) == n && p in t[v] :: RenamedParent(map[], p)
    {
      forall q | q in t[n]
        ensures q in set v, p | v in t && Renamed(map[], v) == n && p in t[v] :: RenamedParent(map[], p)
      {
        assert Renamed(map[], n) == n && RenamedParent(map[], q) == q;
      }
    }
    assert t.Keys == set v | v in t :: Renamed(map[], v);
  }

  lemma PruneRenamesFrontier(s: Replica, s': Replica, b: Bubbles, c: Cut)
    requires Prunes(s, s', b, c)
    ensures s'.frontier == if b == map[] then s.frontier else {c.name}
  {
    if b == map[] {
      EmptyBubblesCollapse(s.t, s'.t, s.frontier);
    } else {
      MembersOf(s.t, c);
      assert Renamed(b, c.name) == c.name;
    }
  }

  /** Pruning leaves the frontier exact, whatever its size, except when the bubble's name is
      its own top. */
  lemma PruneKeepsFrontier(s: Replica, s': Replica, b: Bubbles, c: Cut)
    requires Prunes(s, s', b, c) && IsFrontier(s.t, s.frontier)
    ensures IsFrontier(s'.t, s'.frontier) <==> (b != map[] ==> c.NotItsOwnTop())
  {
    PruneRenamesFrontier(s, s', b, c);
    if b == map[] {
      EmptyBubblesCollapse(s.t, s'.t, s.frontier);
    } else {
      CollapseKeepsFrontier(s.t, c, s'.t);
    }
  }

  /** Between all names of the new graph ancestry is the image of the old one. */
  ghost predicate AllAncestryIsImage(t: Graph, b: Bubbles, t': Graph) {
    forall a, d {:trigger AncestryIsImage(t, b, t', a, d)} :: a in t' && d in t' ==> AncestryIsImage(t, b, t', a, d)
  }

  /** Between all names of the new graph ancestry is what it was. */
  ghost predicate AllAncestryIsKept(t: Graph, t': Graph) {
    forall a, d {:trigger SameAncestry(t, t', a, d)} :: a in t' && d in t' ==> SameAncestry(t, t', a, d)
  }

  ghost predicate SameAncestry(t: Graph, t': Graph, a: Version, d: Version) {
    IsAncestor(t', a, d) <==> IsAncestor(t, a, d)
  }

  /** The versions in the bubble became one version; everything else keeps its parents, the
      new one hangs where the top hung, and ancestry is the image of the old one. */
  ghost predicate IsQuotient(t: Graph, t': Graph, b: Bubbles, c: Cut) {
    && c.name in b && c.key in b && b.Keys <= t.Keys
    && t'.Keys == t.Keys - b.Keys + {c.name}
    && (forall x :: x in t && x !in b ==> x in t' && t'[x] == t[x])
    && c.name in t' && c.key in t && t'[c.name] == t[c.key] + (if b.Keys == c.bottom then {} else {c.key})
    && AllAncestryIsImage(t, b, t')
  }

  lemma PruneAncestry(t: Graph, c: Cut, t': Graph)
    requires CollapsesCut(t, c, t') && BottomHasNoKids(t, c.bottom)
    ensures AllAncestryIsImage(t, c.Renaming(), t')
    ensures c.bottom == {c.name} ==> AllAncestryIsKept(t, t')
  {
    forall a, d | a in t' && d in t'
      ensures AncestryIsImage(t, c.Renaming(), t', a, d)
    {
      AncestryCollapses(t, c, t', a, d);
    }
    if c.bottom == {c.name} {
      forall a, d | a in t' && d in t' ensures SameAncestry(t, t', a, d) { AncestryPreserved(t, c, t', a, d); }
    }
  }

  lemma PrunedEntries(t: Graph, c: Cut, t': Graph)
    requires CollapsesCut(t, c, t')
    ensures forall x :: x in t && x !in c.All() ==> x in t' && t'[x] == t[x]
  {
    forall x | x in t && x !in c.All() ensures x in t' && t'[x] == t[x] { OutsideUnchanged(t, c, t', x); }
  }

  /** Pruning is a quotient of the graph; under a one-version frontier ancestry between the
      survivors is even the same. */
  lemma PruneIsQuotient(s: Replica, s': Replica, b: Bubbles, c: Cut)
    requires Prunes(s, s', b, c) && IsFrontier(s.t, s.frontier) && b != map[]
    ensures IsQuotient(s.t, s'.t, b, c)
    ensures s.frontier == {c.name} ==> AllAncestryIsKept(s.t, s'.t)
  {
    MembersOf(s.t, c);
    assert BottomHasNoKids(s.t, c.bottom) by { LeavesHaveNoKids(s.t, c.bottom); }
    CollapsedVersions(s.t, c, s'.t);
    CollapsedParents(s.t, c, s'.t);
    PrunedEntries(s.t, c, s'.t);
    PruneAncestry(s.t, c, s'.t);
  }

  // ---------- prunings that need not keep to their region ----------

  /** Pruning nothing, or one bubble around the whole frontier. */
  ghost predicate PrunesBubble(s: Replica, s': Replica, b: Bubbles, name: Version, key: Version) {
    && (b != map[] ==> IsOneBubble(s.frontier, b, name, key) && key in s.t)
    && IsCollapse(s.t, b, s'.t)
    && s'.frontier == set f | f in s.frontier :: Renamed(b, f)
  }

  lemma BubbleRenamesFrontier(s: Replica, s': Replica, b: Bubbles, name: Version, key: Version)
    requires PrunesBubble(s, s', b, name, key)
    ensures s'.frontier == if b == map[] then s.frontier else {name}
  {
    if b == map[] {
      EmptyBubblesCollapse(s.t, s'.t, s.frontier);
    } else {
      assert Renamed(b, name) == name;
    }
  }

  /** Such a pruning leaves the frontier exact, whatever its size, unless a version becomes its own parent. */
  lemma BubbleKeepsFrontier(s: Replica, s': Replica, b: Bubbles, name: Version, key: Version)
    requires PrunesBubble(s, s', b, name, key) && IsFrontier(s.t, s.frontier)
    ensures IsFrontier(s'.t, s'.frontier) <==> NoneIsItsOwnParent(s.t, b)
  {
    BubbleRenamesFrontier(s, s', b, name, key);
    if b == map[] {
      EmptyBubblesCollapse(s.t, s'.t, s.frontier);
    } else {
      OneBubbleKeepsFrontier(s.t, s.frontier, b, name, key, s'.t);
    }
  }

  lemma BubbleKeepsNames(s: Replica, s': Replica, b: Bubbles, name: Version, key: Version)
    requires PrunesBubble(s, s', b, name, key) && IsFrontier(s.t, s.frontier)
    ensures s'.t.Keys <= s.t.Keys && Names(s'.t) <= Names(s.t)
  {
    assert s.frontier <= s.t.Keys by { assert forall x :: x in s.frontier ==> IsLeaf(s.t, x); }
    if b == map[] {
      EmptyBubblesCollapse(s.t, s'.t, s.frontier);
    } else {
      OneBubbleVersions(s.t, s.frontier, b, name, key, s'.t);
    }
  }

  /** Whoever acknowledges the frontier acknowledges everything. */
  lemma FrontierIsWholeHistory(t: Graph, frontier: set<Version>, boundary: set<Version>)
    requires AllCovered(t, frontier) && frontier <= Ancestors(t, boundary)
    ensures Ancestors(t, boundary) == t.Keys
  {
    AncestorsAreClosed(t, boundary);
    forall x | x in t ensures x in Ancestors(t, boundary) {
      assert CoveredBy(t, frontier, x);
      var f :| f in frontier && IsAncestor(t, x, f);
      var d :| d in boundary && IsAncestor(t, f, d);
      AncestorTransitive(t, x, f, d);
    }
  }

  lemma AckedLeafIsInBoundary(t: Graph, boundary: set<Version>, x: Version)
    requires IsLeaf(t, x) && x in Ancestors(t, boundary)
    ensures x in boundary
  {
    var d :| d in boundary && IsAncestor(t, x, d);
    LeafIsNoAncestor(t, x, d);
  }

  /** Once the frontier is acknowledged everything is, and collapsing it leaves it so. */
  lemma WholeHistoryStaysAcked(s: Replica, s': Replica, b: Bubbles, name: Version, key: Version,
                               boundary: set<Version>, boundary': set<Version>)
    requires PrunesBubble(s, s', b, name, key) && IsFrontier(s.t, s.frontier) && b != map[]
    requires s.frontier <= Ancestors(s.t, boundary)
    requires boundary' == set x | x in boundary :: Renamed(b, x)
    ensures Ancestors(s.t, boundary) == s.t.Keys && Ancestors(s'.t, boundary') == s'.t.Keys
  {
    FrontierIsWholeHistory(s.t, s.frontier, boundary);
    AckedLeafIsInBoundary(s.t, boundary, name);
    assert Renamed(b, name) == name && name in boundary';
    OneBubbleCovers(s.t, s.frontier, b, name, key, s'.t);
    OneBubbleVersions(s.t, s.frontier, b, name, key, s'.t);
    AncestorsAreClosed(s'.t, boundary');
    FrontierIsWholeHistory(s'.t, {name}, boundary');
  }

  lemma SmallerIsMeet(s: set<Version>, smaller: set<Version>)
    requires smaller <= s
    ensures s * smaller == smaller
  {
  }

  lemma UntouchedHistory(t: Graph, t': Graph, boundary: set<Version>, boundary': set<Version>)
    requires IsCollapse(t, map[], t') && boundary' == set x | x in boundary :: Renamed(map[], x)
    ensures Ancestors(t', boundary') == Ancestors(t, boundary) * t'.Keys
  {
    EmptyBubblesCollapse(t, t', boundary);
    assert Ancestors(t, boundary) <= t.Keys;
  }

  /** When the frontier is acknowledged before something is collapsed, the surviving versions
      count as acknowledged after it exactly if they did before. */
  lemma AckedHistorySurvives(s: Replica, s': Replica, b: Bubbles, name: Version, key: Version,
                             boundary: set<Version>, boundary': set<Version>)
    requires PrunesBubble(s, s', b, name, key) && IsFrontier(s.t, s.frontier)
    requires b != map[] ==> s.frontier <= Ancestors(s.t, boundary)
    requires boundary' == set x | x in boundary :: Renamed(b, x)
    ensures Ancestors(s'.t, boundary') == Ancestors(s.t, boundary) * s'.t.Keys
  {
    if b == map[] {
      UntouchedHistory(s.t, s'.t, boundary, boundary');
    } else {
      WholeHistoryStaysAcked(s, s', b, name, key, boundary, boundary');
      BubbleKeepsNames(s, s', b, name, key);
      SmallerIsMeet(s.t.Keys, s'.t.Keys);
    }
  }
}
