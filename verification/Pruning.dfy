/** Choosing what to prune: which versions may not be touched, and the bubbles to collapse. */
module Pruning {
  import opened VersionGraph
  import opened Text
  import opened Bubble
  import opened Quotient

  datatype Fissure = Fissure(a: string, b: string, conn: string, versions: set<Version>)

  type Fissures = map<string, Fissure>

  // ---------- fissures ----------

  /** The key under which the other side of a broken connection files its fissure. */
  function OtherKey(f: Fissure): string {
    f.b + ":" + f.a + ":" + f.conn
  }

  ghost predicate HasOther(fissures: Fissures, k: string) {
    k in fissures && OtherKey(fissures[k]) in fissures
  }

  /** Both entries of every matched pair. */
  ghost function MatchedKeys(fissures: Fissures): set<string> {
    (set k | k in fissures && HasOther(fissures, k))
    + (set k | k in fissures && HasOther(fissures, k) :: OtherKey(fissures[k]))
  }

  method FindMatched(fissures: Fissures) returns (keysToDelete: set<string>)
    ensures keysToDelete == MatchedKeys(fissures)
  {
    keysToDelete := {};
    var todo := fissures.Keys;
    while todo != {}
      invariant todo <= fissures.Keys
      invariant keysToDelete == (set k | k in fissures && k !in todo && HasOther(fissures, k))
                  + (set k | k in fissures && k !in todo && HasOther(fissures, k) :: OtherKey(fissures[k]))
    {
      var key :| key in todo;
      todo := todo - {key};
      var otherKey := OtherKey(fissures[key]);
      if otherKey in fissures { keysToDelete := keysToDelete + {key, otherKey}; }
    }
  }

  /** Every fissure stands under its two ends and its connection, and no colon in an end blurs them. */
  ghost predicate AreFiled(fissures: Fissures) {
    forall k :: k in fissures ==>
        && k == fissures[k].a + ":" + fissures[k].b + ":" + fissures[k].conn
        && ':' !in fissures[k].a && ':' !in fissures[k].b
  }

  /** The fissures to which the other side of the same broken connection has filed its own. */
  ghost function Answered(fissures: Fissures): set<string> {
    set k, j | k in fissures && j in fissures && fissures[j].a == fissures[k].b && fissures[j].b == fissures[k].a
               && fissures[j].conn == fissures[k].conn :: k
  }

  lemma ColonEnds(a: string, x: string, b: string, y: string)
    requires ':' !in a && ':' !in b && a + ":" + x == b + ":" + y
    ensures a == b && x == y
  {
    var s := a + ":" + x;
    assert s[|a|] == ':' && s[|b|] == ':';
    assert s[..|a|] == a && s[..|b|] == b && s[|a| + 1..] == x && s[|b| + 1..] == y;
    assert forall i :: 0 <= i < |a| ==> s[i] in a;
    assert forall i :: 0 <= i < |b| ==> s[i] in b;
  }

  /** Ends without colons and a connection are read off their key. */
  lemma KeyTellsFissure(a: string, b: string, conn: string, a': string, b': string, conn': string)
    requires ':' !in a && ':' !in b && ':' !in a' && ':' !in b'
    requires a + ":" + b + ":" + conn == a' + ":" + b' + ":" + conn'
    ensures a == a' && b == b' && conn == conn'
  {
    assert a + ":" + b + ":" + conn == a + ":" + (b + ":" + conn);
    assert a' + ":" + b' + ":" + conn' == a' + ":" + (b' + ":" + conn');
    ColonEnds(a, b + ":" + conn, a', b' + ":" + conn');
    ColonEnds(b, conn, b', conn');
  }

  lemma OtherIsAnswer(fissures: Fissures, k: string)
    requires AreFiled(fissures) && HasOther(fissures, k)
    ensures var j := OtherKey(fissures[k]); k in Answered(fissures) && j in Answered(fissures)
  {
    var f, j := fissures[k], OtherKey(fissures[k]);
    var g := fissures[j];
    KeyTellsFissure(g.a, g.b, g.conn, f.b, f.a, f.conn);
  }

  /** A fissure counts as matched exactly when the other side has filed its own. */
  lemma MatchedAreAnswered(fissures: Fissures)
    requires AreFiled(fissures)
    ensures MatchedKeys(fissures) == Answered(fissures)
  {
    forall k | k in MatchedKeys(fissures) ensures k in Answered(fissures) {
      if HasOther(fissures, k) {
        OtherIsAnswer(fissures, k);
      } else {
        var i :| i in fissures && HasOther(fissures, i) && OtherKey(fissures[i]) == k;
        OtherIsAnswer(fissures, i);
      }
    }
    forall k | k in Answered(fissures) ensures HasOther(fissures, k) {
      var j :| j in fissures && fissures[j].a == fissures[k].b && fissures[j].b == fissures[k].a
               && fissures[j].conn == fissures[k].conn;
      assert j == OtherKey(fissures[k]);
    }
  }

  ghost function FissureVersions(fissures: Fissures): set<Version> {
    set k, v | k in fissures && v in fissures[k].versions :: v
  }

  /** Step 2 of pruning: versions held by a fissure, and, unless only checking, every
      version that is not an ancestor of the acknowledged boundary. */
  ghost function Restricted(t: Graph, fissures: Fissures, ackedBoundary: set<Version>,
                            justChecking: bool): set<Version> {
    FissureVersions(fissures) + if justChecking then {} else t.Keys - Ancestors(t, ackedBoundary)
  }

  /** Restricted is what a fissure holds and, unless only checking, every version that nobody
      on the acknowledged boundary descends from. */
  lemma RestrictedMeans(t: Graph, fissures: Fissures, ackedBoundary: set<Version>, justChecking: bool, v: Version)
    ensures v in Restricted(t, fissures, ackedBoundary, justChecking) <==>
            || (exists k :: k in fissures && v in fissures[k].versions)
            || (!justChecking && v in t && forall d :: d in ackedBoundary ==> !IsAncestor(t, v, d))
  {
    if v in FissureVersions(fissures) {
      var k :| k in fissures && v in fissures[k].versions;
    }
  }

  method FindRestricted(t: Graph, fissures: Fissures, ackedBoundary: set<Version>, justChecking: bool)
    returns (restricted: set<Version>)
    ensures restricted == Restricted(t, fissures, ackedBoundary, justChecking)
  {
    restricted := {};
    var todo := fissures.Keys;
    while todo != {}
      invariant todo <= fissures.Keys
      invariant restricted == set k, v | k in fissures && k !in todo && v in fissures[k].versions :: v
    {
      var k :| k in todo;
      todo := todo - {k};
      restricted := restricted + fissures[k].versions;
    }
    if !justChecking {
      var acked := AncestorsOf(t, ackedBoundary, true);
      if acked.Ok? { restricted := restricted + (t.Keys - acked.value); }
    }
  }

  // ---------- parent sets and child sets ----------

  /** The frontier as a parent set, in the order in which its table yields it. */
  datatype ParentSet = ParentSet(order: seq<Version>, done: bool)

  ghost predicate AreParentSets(currentVersion: set<Version>, parentSets: map<Version, ParentSet>) {
    && parentSets.Keys == (if |currentVersion| >= 2 then currentVersion else {})
    && (forall v :: v in parentSets ==> Members(parentSets[v].order) == currentVersion && !parentSets[v].done)
    && forall u, v :: u in parentSets && v in parentSets ==> parentSets[u] == parentSets[v]
  }

  /** All children of one version, at least two, every one with the same parents. */
  ghost predicate IsSiblingGroup(t: Graph, v: Version, group: set<Version>) {
    && group == Kids(t, v) && |group| >= 2
    && forall c, d :: c in group && d in group ==> t[c] == t[d]
  }

  ghost predicate IsGroupFrom(t: Graph, skipped: set<Version>, c: Version, group: set<Version>) {
    c in group && exists v :: v in t && v !in skipped && IsSiblingGroup(t, v, group)
  }

  ghost predicate GroupEntered(t: Graph, v: Version, keys: set<Version>) {
    IsSiblingGroup(t, v, Kids(t, v)) ==> Kids(t, v) <= keys
  }

  /** Every entry is a full sibling group, and every member of such a group has an entry. */
  ghost predicate AreChildSets(t: Graph, skipped: set<Version>, pending: set<Version>,
                               childSets: map<Version, ChildSet>) {
    && (forall c :: c in childSets ==> IsGroupFrom(t, skipped, c, Members(childSets[c])))
    && (forall v {:trigger GroupEntered(t, v, childSets.Keys)} ::
          v in t && v !in skipped && v !in pending ==> GroupEntered(t, v, childSets.Keys))
  }

  lemma SameSizeSubset(a: set<Version>, b: set<Version>)
    requires a <= b && |a| == |b|
    ensures a == b
  {
    assert b == a + (b - a);
    assert |b| == |a| + |b - a|;
  }

  /** Whether every child has as many parents as the first one, all of them its parents. */
  method AllSameParents(t: Graph, group: set<Version>, first: Version) returns (same: bool)
    requires first in group && group <= t.Keys
    ensures same <==> forall c, d :: c in group && d in group ==> t[c] == t[d]
  {
    var todo := group;
    while todo != {}
      invariant todo <= group && forall c :: c in group - todo ==> t[c] == t[first]
    {
      var c :| c in todo;
      todo := todo - {c};
      if !(|t[c]| == |t[first]| && t[c] <= t[first]) { return false; }
      SameSizeSubset(t[c], t[first]);
    }
    same := true;
  }

  lemma GroupAdded(t: Graph, v: Version, order: ChildSet, childSets: map<Version, ChildSet>, skipped: set<Version>,
                   before: set<Version>, pending: set<Version>)
    requires v in t && v !in skipped && before <= pending + {v} && AreChildSets(t, skipped, before, childSets)
    requires Members(order) == Kids(t, v) && IsSiblingGroup(t, v, Kids(t, v))
    ensures AreChildSets(t, skipped, pending, childSets + map c | c in Members(order) :: order)
  {
    var group := Members(order);
    var r := childSets + map c | c in group :: order;
    forall c | c in r ensures IsGroupFrom(t, skipped, c, Members(r[c])) {
      if c !in group { assert IsGroupFrom(t, skipped, c, Members(childSets[c])); }
    }
    forall u | u in t && u !in skipped && u !in pending ensures GroupEntered(t, u, r.Keys) {
      if u != v { assert GroupEntered(t, u, childSets.Keys); }
    }
  }

  /** No group is needed for a version that is skipped or has none. */
  lemma NoGroupNeeded(t: Graph, v: Version, childSets: map<Version, ChildSet>, skipped: set<Version>,
                      before: set<Version>, pending: set<Version>)
    requires before <= pending + {v} && AreChildSets(t, skipped, before, childSets)
    requires v in skipped || !IsSiblingGroup(t, v, Kids(t, v))
    ensures AreChildSets(t, skipped, pending, childSets)
  {
    forall u | u in t && u !in skipped && u !in pending ensures GroupEntered(t, u, childSets.Keys) {
      if u != v { assert GroupEntered(t, u, childSets.Keys); }
    }
  }

  /** Looks at the children of one version. */
  method AddChildSet(t: Graph, children: Graph, v: Version, childSets: map<Version, ChildSet>,
                     ghost skipped: set<Version>, ghost before: set<Version>, ghost pending: set<Version>)
    returns (r: map<Version, ChildSet>)
    requires IsChildMap(t, children) && v in t && v !in skipped
    requires before <= pending + {v} && AreChildSets(t, skipped, before, childSets)
    ensures AreChildSets(t, skipped, pending, r)
  {
    if v in children && |children[v]| >= 2 {
      var group := children[v];
      var first :| first in group;
      var same := AllSameParents(t, group, first);
      if same {
        var order := AnyOrder(group);
        GroupAdded(t, v, order, childSets, skipped, before, pending);
        return childSets + map c | c in group :: order;
      }
    }
    NoGroupNeeded(t, v, childSets, skipped, before, pending);
    r := childSets;
  }

  method GetParentAndChildSets(t: Graph, currentVersion: set<Version>, children: Graph)
    returns (parentSets: map<Version, ParentSet>, childSets: map<Version, ChildSet>)
    requires IsChildMap(t, children)
    ensures AreParentSets(currentVersion, parentSets)
    ensures AreChildSets(t, if |currentVersion| >= 2 then currentVersion else {}, {}, childSets)
  {
    parentSets, childSets := map[], map[];
    ghost var skipped := if |currentVersion| >= 2 then currentVersion else {};
    var done := {};
    if |currentVersion| >= 2 {
      var order := AnyOrder(currentVersion);
      parentSets := map v | v in currentVersion :: ParentSet(order, false);
      done := currentVersion;
    }
    var todo := t.Keys;
    while todo != {}
      invariant todo <= t.Keys
      invariant forall v :: v in todo ==> (v in done <==> v in skipped)
      invariant AreChildSets(t, skipped, todo, childSets)
    {
      var v :| v in todo;
      ghost var before := todo;
      todo := todo - {v};
      if v in done {
        NoGroupNeeded(t, v, childSets, skipped, before, todo);
      } else {
        done := done + {v};
        childSets := AddChildSet(t, children, v, childSets, skipped, before, todo);
      }
    }
  }

  // ---------- the bubbles ----------

  ghost function Names(t: Graph): set<Version> {
    t.Keys + set x, p | x in t && p in t[x] :: p
  }

  /** Whether a top is worth collapsing: under a single bottom version that version itself is not. */
  ghost predicate IsAccepted(bottom: set<Version>, top: set<Version>) {
    |bottom| == 1 ==> top !! bottom
  }

  /** A cut under this bottom that keeps off the restricted versions. */
  ghost predicate IsChoice(t: Graph, bottom: set<Version>, restricted: set<Version>, c: Cut) {
    c.In(t) && c.bottom == bottom && c.restricted == restricted && IsAccepted(bottom, c.top)
  }

  /** Nothing that could be collapsed is left out. */
  ghost predicate NothingMissed(t: Graph, bottom: set<Version>, restricted: set<Version>, chosen: set<Version>) {
    forall f :: IsFunnel(t, bottom, restricted, f) && IsAccepted(bottom, {Last(f)}) ==> Members(f) <= chosen
  }

  /** Everything promised about the bubbles under a bottom: none, or one whole cut. */
  ghost predicate GoodChoice(t: Graph, bottom: set<Version>, restricted: set<Version>, justChecking: bool, found: bool,
                             toBubble: Bubbles, c: Cut) {
    && (toBubble != map[] ==> IsChoice(t, bottom, restricted, c) && toBubble == c.Renaming())
    && (justChecking && found ==> IsChoice(t, bottom, restricted, c))
    && (!justChecking || !found ==> NothingMissed(t, bottom, restricted, toBubble.Keys))
  }

  /** What happens when a sibling group is not alone: everything above its strays is taken in as well. */
  ghost predicate GoesAstray(t: Graph, bottom: set<Version>, restricted: set<Version>, justChecking: bool, found: bool,
                             toBubble: Bubbles, c: Cut) {
    && c.bottom == bottom && c.restricted == restricted && IsAccepted(bottom, c.top)
    && IsRegion(t, bottom, restricted, c.order, c.top) && c.name in bottom && c.key in c.top
    && !OnlyTopLeaves(t, c.order, c.top) && IsGroupFrom(t, {}, Last(c.order), c.top)
    && found == justChecking
    && toBubble == if justChecking then map[] else map x | x in Marked(t, c.order, c.top) :: (c.name, c.key)
  }

  /** Children of one version that all have the same parents are those parents' only children. */
  ghost predicate GroupsStandAlone(t: Graph) {
    forall v, c, p :: v in t && IsSiblingGroup(t, v, Kids(t, v)) && c in Kids(t, v) && p in t[c] ==>
        Kids(t, p) == Kids(t, v)
  }

  /** What comes of the bubbles under a bottom: the marking keeps to the region that was found,
      or a sibling group that does not stand alone lets it out. */
  ghost predicate IsOutcome(t: Graph, bottom: set<Version>, restricted: set<Version>, justChecking: bool, found: bool,
                            toBubble: Bubbles, contained: bool, c: Cut) {
    if contained then GoodChoice(t, bottom, restricted, justChecking, found, toBubble, c)
    else GoesAstray(t, bottom, restricted, justChecking, found, toBubble, c) && !GroupsStandAlone(t)
  }

  lemma OnlyMember(s: set<Version>, v: Version)
    requires |s| == 1 && v in s
    ensures s == {v}
  {
    assert |s - {v}| == 0;
  }

  /** Kept to its region or not, what is entered is one bubble around the whole bottom, and none
      of that bottom is restricted. */
  lemma OutcomeIsOneBubble(t: Graph, bottom: set<Version>, restricted: set<Version>, b: Bubbles, contained: bool,
                           c: Cut)
    requires IsOutcome(t, bottom, restricted, false, false, b, contained, c) && b != map[]
    ensures IsOneBubble(bottom, b, c.name, c.key) && c.key in t && bottom <= t.Keys - restricted
    ensures IsAccepted(bottom, c.top) && c.key in c.top && c.key in b
  {
    RegionMembers(t, bottom, restricted, c.order, c.top);
  }

  lemma NothingUnderNothing(t: Graph, restricted: set<Version>)
    ensures NothingMissed(t, {}, restricted, {})
  {
    forall f: seq<Version> | f != [] ensures !IsFunnel(t, {}, restricted, f) {
      assert f[..0] == [];
      assert !Admitted(t, {}, restricted, f, 0);
    }
  }

  lemma SecondHangsFromFirst(t: Graph, v: Version, restricted: set<Version>, order: seq<Version>)
    requires |order| > 1 && order[0] == v && Admitted(t, {v}, restricted, order, 1)
    ensures v in t && order[1] in t[v] && order[1] in Members(order)
  {
    assert order[..1] == [v];
  }

  /** A region whose only bottom version is part of its top is that version alone. */
  lemma BottomOnTop(t: Graph, v: Version, restricted: set<Version>, order: seq<Version>, top: set<Version>)
    requires IsRegion(t, {v}, restricted, order, top) && v in top
    ensures Members(order) == {v}
  {
    assert Admitted(t, {v}, restricted, order, 0);
    if |order| > 1 {
      SecondHangsFromFirst(t, v, restricted, order);
      RegionMembers(t, {v}, restricted, order, top);
      assert false;
    }
  }

  lemma FinishedMissesNothing(t: Graph, bottom: set<Version>, restricted: set<Version>, found: bool, best: seq<Version>,
                              top: set<Version>, chosen: set<Version>)
    requires BottomHasNoKids(t, bottom) && Finished(t, bottom, restricted, found, best)
    requires found ==>
               && IsRegion(t, bottom, restricted, best, top)
               && (IsAccepted(bottom, top) ==> Members(best) <= chosen)
    ensures NothingMissed(t, bottom, restricted, chosen)
  {
    forall f | IsFunnel(t, bottom, restricted, f) && IsAccepted(bottom, {Last(f)}) ensures Members(f) <= chosen {
      if !IsAccepted(bottom, top) {
        var v :| v in bottom && v in top;
        OnlyMember(bottom, v);
        BottomOnTop(t, v, restricted, best, top);
      }
    }
  }

  /** The bubble has been entered: its top under it, its bottom under it or an earlier one. */
  ghost predicate IsEntered(toBubble: Bubbles, bottom: set<Version>, top: set<Version>, bubble: (Version, Version)) {
    bottom + top <= toBubble.Keys && forall x :: x in top ==> toBubble[x] == bubble
  }

  /** What entering a bubble does: everything new is under it, and a second time there is nothing new. */
  ghost predicate Enters(bottom: set<Version>, top: set<Version>, bubble: (Version, Version), toBubble: Bubbles,
                         r: Bubbles) {
    && IsEntered(r, bottom, top, bubble)
    && (forall x :: x in r ==> r[x] == bubble || (x in toBubble && r[x] == toBubble[x]))
    && (IsEntered(toBubble, bottom, top, bubble) ==> r == toBubble)
  }

  /** What entering comes to when nothing was entered before and the processed list is a region:
      exactly that region, and what is above its strays. */
  ghost predicate EntersRegion(t: Graph, bottom: set<Version>, restricted: set<Version>, order: seq<Version>,
                               top: set<Version>,
                               bubble: (Version, Version), r: Bubbles) {
    IsRegion(t, bottom, restricted, order, top) ==> r == map x | x in Marked(t, order, top) :: bubble
  }

  /** Marking into nothing enters exactly the region and what is above its strays. */
  lemma RegionIsEntered(t: Graph, bottom: set<Version>, top: set<Version>, bubble: (Version, Version),
                        restricted: set<Version>, order: seq<Version>, entered: Bubbles, r: Bubbles)
    requires IsRegion(t, bottom, restricted, order, top) && entered == map[] + map x | x in top :: bubble
    requires MarkedFurther(t, entered, r, bubble, Marked(t, order, top)) && bottom <= r.Keys
    ensures EntersRegion(t, bottom, restricted, order, top, bubble, r)
  {
    assert entered == map x | x in top :: bubble;
    MarkedExactly(t, bottom, restricted, order, top, bubble, r);
  }

  /** Enters one bubble: the top first, then everything from the bottom up to it. */
  method EnterBubble(t: Graph, bottom: set<Version>, top: set<Version>, bubble: (Version, Version), toBubble: Bubbles,
                     ghost restricted: set<Version>, ghost order: seq<Version>)
    returns (r: Bubbles)
    ensures Enters(bottom, top, bubble, toBubble, r)
    ensures toBubble == map[] ==> EntersRegion(t, bottom, restricted, order, top, bubble, r)
  {
    ghost var region := Names(t) + bottom;
    r := toBubble + map x | x in top :: bubble;
    if IsEntered(toBubble, bottom, top, bubble) {
      assert r == toBubble;
      region := bottom;
    } else if IsRegion(t, bottom, restricted, order, top) {
      region := Marked(t, order, top);
      AboveStaysOut(t, bottom, restricted, order, top);
    }
    ghost var entered := r;
    r := MarkFromAll(t, bottom, bubble, r, region);
    if toBubble == map[] && IsRegion(t, bottom, restricted, order, top) {
      RegionIsEntered(t, bottom, top, bubble, restricted, order, entered, r);
    }
  }

  /** Whether the answer of a search leads to a bubble. */
  ghost predicate TopAccepted(bottom: seq<Version>, top: Option<seq<Version>>) {
    top.Some? && IsAccepted(Members(bottom), Members(top.value))
  }

  /** After a turn of the loop: the bubble of the search's answer is entered, if it has one. */
  ghost predicate IsRecorded(bottom: seq<Version>, justChecking: bool, top: Option<seq<Version>>, toBubble: Bubbles)
    requires bottom != []
  {
    if TopAccepted(bottom, top) && !justChecking
    then top.value != [] && IsEntered(toBubble, Members(bottom), Members(top.value), (bottom[0], top.value[0]))
    else toBubble == map[]
  }

  /** All bubbles carry one frontier version's name, which stands for itself. */
  ghost predicate OneName(frontier: set<Version>, toBubble: Bubbles, name: Version) {
    toBubble != map[] ==> name in frontier && name in toBubble && forall x :: x in toBubble ==> toBubble[x].0 == name
  }

  /** What the loop over the frontier keeps, once it has started. */
  ghost predicate Chosen(w: Tables, bottom: seq<Version>, justChecking: bool, found: bool, toBubble: Bubbles,
                         contained: bool, c: Cut)
    requires bottom != [] && w.orders.Keys == w.t.Keys
  {
    && IsRecorded(bottom, justChecking, Answer(w, Start(w, bottom)), toBubble)
    && (BottomHasNoKids(w.t, Members(bottom)) ==>
          IsOutcome(w.t, Members(bottom), w.R(), justChecking, found, toBubble, contained, c))
  }

  lemma AcceptedTop(bottom: seq<Version>, v: Version, whole: bool, top: Option<seq<Version>>)
    requires if whole then |Members(bottom)| != 1 else bottom == [v]
    ensures TopAccepted(bottom, top) <==> top.Some? && (whole || v !in top.value)
  {
    if !whole { assert Members(bottom) == {v}; }
  }

  lemma EntersOneName(bottom: seq<Version>, top: set<Version>, topKey: Version, toBubble: Bubbles, r: Bubbles)
    requires bottom != [] && OneName(Members(bottom), toBubble, bottom[0])
    requires Enters(Members(bottom), top, (bottom[0], topKey), toBubble, r)
    ensures OneName(Members(bottom), r, bottom[0])
  {
  }

  /** Enters the bubble of a top under the bottom's name. */
  method EnterTop(w: Tables, v: Version, bottom: seq<Version>, whole: bool, top: seq<Version>, toBubble: Bubbles,
                  ghost best: seq<Version>)
    returns (r: Bubbles)
    requires bottom != [] && (!whole ==> bottom[0] == v) && top != []
    requires OneName(Members(bottom), toBubble, bottom[0])
    ensures OneName(Members(bottom), r, bottom[0])
    ensures Enters(Members(bottom), Members(top), (bottom[0], top[0]), toBubble, r)
    ensures toBubble == map[] ==> EntersRegion(w.t, Members(bottom), w.R(), best, Members(top), (bottom[0], top[0]), r)
  {
    var topKey := top[0];
    var bottomKey := v;
    if whole { bottomKey := bottom[0]; }
    r := EnterBubble(w.t, Members(bottom), Members(top), (bottomKey, topKey), toBubble, w.R(), best);
    EntersOneName(bottom, Members(top), topKey, toBubble, r);
  }

  /** One turn of the loop over the frontier: search from the bottom and enter what is found.
      The same search again enters nothing new. */
  method SearchFrom(w: Tables, v: Version, bottom: seq<Version>, whole: bool, justChecking: bool, toBubble: Bubbles,
                    ghost before: bool, ghost c: Cut)
    returns (found: bool, r: Bubbles, ghost contained: bool, ghost c': Cut)
    requires w.Valid() && w.restricted.Some? && bottom != [] && GroupTables(w)
    requires if whole then |Members(bottom)| != 1 else bottom == [v]
    requires OneName(Members(bottom), toBubble, bottom[0])
    requires toBubble == map[] || Chosen(w, bottom, justChecking, false, toBubble, before, c)
    ensures justChecking || !found ==> r == toBubble
    ensures OneName(Members(bottom), r, bottom[0])
    ensures Chosen(w, bottom, justChecking, found && justChecking, r, contained, c')
  {
    var top, best := FindOneBubble(w, bottom);
    found, r := false, toBubble;
    AcceptedTop(bottom, v, whole, top);
    if top.Some? && (whole || v !in top.value) {
      found := true;
      if !justChecking { r := EnterTop(w, v, bottom, whole, top.value, toBubble, best); }
    }
    contained, c' := before, c;
    if toBubble == map[] {
      contained, c' := true, Cut({}, {}, [], {}, v, v);
      if BottomHasNoKids(w.t, Members(bottom)) { contained, c' := FirstTurn(w, bottom, justChecking, top, best, r); }
    }
  }

  /** Every child set in the tables is a sibling group of the graph. */
  ghost predicate GroupTables(w: Tables) {
    forall c :: c in w.childSets ==> IsGroupFrom(w.t, {}, c, Members(w.childSets[c]))
  }

  lemma AloneIsContained(w: Tables, bottom: set<Version>, top: Option<seq<Version>>, best: seq<Version>)
    requires BottomHasNoKids(w.t, bottom) && GoodTop(w, bottom, top, best) && top.Some?
    requires GroupTables(w) && GroupsStandAlone(w.t)
    ensures OnlyTopLeaves(w.t, best, Members(top.value))
  {
    if top.value == [Last(best)] {
      assert Members(top.value) == {Last(best)};
    } else {
      StraysOfRegion(w.t, bottom, w.R(), best, Members(top.value));
      assert IsGroupFrom(w.t, {}, Last(best), Members(top.value));
    }
  }

  lemma ContainedTurn(w: Tables, bottom: seq<Version>, justChecking: bool, top: Option<seq<Version>>,
                      best: seq<Version>, r: Bubbles)
    returns (c: Cut)
    requires bottom != [] && BottomHasNoKids(w.t, Members(bottom))
    requires GoodTop(w, Members(bottom), top, best) && Finished(w.t, Members(bottom), w.R(), top.Some?, best)
    requires TopAccepted(bottom, top) ==> OnlyTopLeaves(w.t, best, Members(top.value))
    requires if TopAccepted(bottom, top) && !justChecking
             then top.value != []
                  && EntersRegion(w.t, Members(bottom), w.R(), best, Members(top.value), (bottom[0], top.value[0]), r)
             else r == map[]
    ensures GoodChoice(w.t, Members(bottom), w.R(), justChecking, TopAccepted(bottom, top) && justChecking, r, c)
  {
    var B, value := Members(bottom), if top.Some? && top.value != [] then top.value else bottom;
    c := Cut(B, w.R(), best, Members(value), bottom[0], value[0]);
    if TopAccepted(bottom, top) { AboveStaysOut(w.t, B, w.R(), best, c.top); }
    if !justChecking || !TopAccepted(bottom, top) {
      FinishedMissesNothing(w.t, B, w.R(), top.Some?, best, if top.Some? then Members(top.value) else {}, r.Keys);
    }
  }

  /** A top that others leave past is a sibling group. */
  lemma GroupOnTop(w: Tables, bottom: set<Version>, top: seq<Version>, best: seq<Version>)
    requires BottomHasNoKids(w.t, bottom) && GoodTop(w, bottom, Some(top), best) && GroupTables(w)
    ensures OnlyTopLeaves(w.t, best, Members(top)) || IsGroupFrom(w.t, {}, Last(best), Members(top))
  {
    assert Members([Last(best)]) == {Last(best)};
  }

  lemma AstrayTurn(w: Tables, bottom: seq<Version>, justChecking: bool, top: seq<Version>, best: seq<Version>,
                   r: Bubbles)
    returns (c: Cut)
    requires bottom != [] && BottomHasNoKids(w.t, Members(bottom)) && GroupTables(w)
    requires GoodTop(w, Members(bottom), Some(top), best) && TopAccepted(bottom, Some(top))
    requires top != [] && !OnlyTopLeaves(w.t, best, Members(top))
    requires if justChecking then r == map[]
             else EntersRegion(w.t, Members(bottom), w.R(), best, Members(top), (bottom[0], top[0]), r)
    ensures IsOutcome(w.t, Members(bottom), w.R(), justChecking, justChecking, r, false, c)
  {
    c := Cut(Members(bottom), w.R(), best, Members(top), bottom[0], top[0]);
    GroupOnTop(w, Members(bottom), top, best);
    if GroupsStandAlone(w.t) { AloneIsContained(w, Members(bottom), Some(top), best); }
  }

  /** Whether the marking kept to the region, and what was collapsed, for a bottom without children. */
  lemma FirstTurn(w: Tables, bottom: seq<Version>, justChecking: bool, top: Option<seq<Version>>, best: seq<Version>,
                  r: Bubbles)
    returns (contained: bool, c: Cut)
    requires bottom != [] && BottomHasNoKids(w.t, Members(bottom)) && GroupTables(w)
    requires GoodTop(w, Members(bottom), top, best) && Finished(w.t, Members(bottom), w.R(), top.Some?, best)
    requires if TopAccepted(bottom, top) && !justChecking
             then top.value != []
                  && EntersRegion(w.t, Members(bottom), w.R(), best, Members(top.value), (bottom[0], top.value[0]), r)
             else r == map[]
    ensures IsOutcome(w.t, Members(bottom), w.R(), justChecking, TopAccepted(bottom, top) && justChecking, r,
                      contained, c)
  {
    assert top.Some? ==> Last(best) in Members(top.value);
    if TopAccepted(bottom, top) && !OnlyTopLeaves(w.t, best, Members(top.value)) {
      contained := false;
      c := AstrayTurn(w, bottom, justChecking, top.value, best, r);
    } else {
      contained := true;
      c := ContainedTurn(w, bottom, justChecking, top, best, r);
    }
  }

  lemma SiblingTables(t: Graph, skipped: set<Version>, childSets: map<Version, ChildSet>)
    requires AreChildSets(t, skipped, {}, childSets)
    ensures forall c :: c in childSets ==> childSets[c] != [c] && AreTwins(t, c, Members(childSets[c]))
    ensures forall c :: c in childSets ==> IsGroupFrom(t, {}, c, Members(childSets[c]))
  {
    forall c | c in childSets
      ensures childSets[c] != [c] && AreTwins(t, c, Members(childSets[c])) &&
              IsGroupFrom(t, {}, c, Members(childSets[c]))
    {
      assert IsGroupFrom(t, skipped, c, Members(childSets[c]));
      assert Members([c]) == {c};
    }
  }

  /** The bottom every turn of the loop starts from: the whole frontier, in its table's order. */
  ghost predicate StartsFrom(bottom: seq<Version>, currentVersion: set<Version>, parentSets: map<Version, ParentSet>) {
    && bottom != [] && Members(bottom) == currentVersion
    && forall v :: v in currentVersion ==>
         if v in parentSets then |currentVersion| != 1 && parentSets[v].order == bottom else bottom == [v]
  }

  lemma BottomOrder(currentVersion: set<Version>, parentSets: map<Version, ParentSet>) returns (bottom: seq<Version>)
    requires AreParentSets(currentVersion, parentSets) && currentVersion != {}
    ensures StartsFrom(bottom, currentVersion, parentSets)
  {
    var v :| v in currentVersion;
    if v in parentSets {
      bottom := parentSets[v].order;
      assert bottom != [];
    } else {
      OnlyMember(currentVersion, v);
      bottom := [v];
    }
  }

  /** A turn for one frontier version: from its parent set if it is in one, else from it alone. */
  method TakeTurn(w: Tables, v: Version, currentVersion: set<Version>, parentSets: map<Version, ParentSet>,
                  justChecking: bool,
                  toBubble: Bubbles, ghost bottom: seq<Version>, ghost before: bool, ghost c: Cut)
    returns (found: bool, r: Bubbles, ghost contained: bool, ghost c': Cut)
    requires w.Valid() && w.restricted.Some? && GroupTables(w) && AreParentSets(currentVersion, parentSets)
    requires StartsFrom(bottom, currentVersion, parentSets) && v in currentVersion
    requires OneName(currentVersion, toBubble, bottom[0])
    requires toBubble == map[] || Chosen(w, bottom, justChecking, false, toBubble, before, c)
    ensures justChecking ==> r == toBubble
    ensures OneName(currentVersion, r, bottom[0])
    ensures Chosen(w, bottom, justChecking, found && justChecking, r, contained, c')
  {
    var whole := v in parentSets;
    var from := if whole then parentSets[v].order else [v];
    // `done` is never set, so no parent set is passed over.
    assert whole ==> !parentSets[v].done;
    found, r, contained, c' := SearchFrom(w, v, from, whole, justChecking, toBubble, before, c);
  }

  /** The loop over a frontier with members, in any order. */
  method ChooseBubbles(w: Tables, currentVersion: set<Version>, parentSets: map<Version, ParentSet>, justChecking: bool,
                       ghost bottom: seq<Version>)
    returns (found: bool, toBubble: Bubbles, ghost contained: bool, ghost c: Cut)
    requires w.Valid() && w.restricted.Some? && GroupTables(w) && AreParentSets(currentVersion, parentSets)
    requires StartsFrom(bottom, currentVersion, parentSets)
    ensures justChecking ==> toBubble == map[]
    ensures OneName(currentVersion, toBubble, bottom[0])
    ensures Chosen(w, bottom, justChecking, found, toBubble, contained, c)
  {
    found, toBubble, contained, c := false, map[], true, Cut({}, {}, [], {}, Version(""), Version(""));
    var visited := {};
    ghost var started := false;
    var todo := currentVersion;
    while todo != {}
      invariant todo <= currentVersion && (visited == {} || started)
      invariant !found && (started || (todo == currentVersion && toBubble == map[]))
      invariant justChecking ==> toBubble == map[]
      invariant OneName(currentVersion, toBubble, bottom[0])
      invariant started ==> Chosen(w, bottom, justChecking, false, toBubble, contained, c)
    {
      var v :| v in todo;
      todo := todo - {v};
      if v in visited { continue; }
      found, toBubble, contained, c := TakeTurn(w, v, currentVersion, parentSets, justChecking, toBubble, bottom,
          contained, c);
      if justChecking && found { return; }
      found, started := false, true;
      visited := visited + {v};
    }
    assert bottom[0] in currentVersion;
  }

  /** Step 3 of pruning.  `contained` says that the marking kept to the region that was found,
      and `c` is that region. */
  method FindBubbles(t: Graph, currentVersion: set<Version>, restricted: set<Version>, justChecking: bool)
    returns (found: bool, toBubble: Bubbles, ghost contained: bool, ghost c: Cut)
    ensures justChecking ==> toBubble == map[]
    ensures NamesSettled(toBubble)
    ensures BottomHasNoKids(t, currentVersion) ==>
              IsOutcome(t, currentVersion, restricted, justChecking, found, toBubble, contained, c)
  {
    var children := GetChildMap(t);
    var parentSets, childSets := GetParentAndChildSets(t, currentVersion, children);
    SiblingTables(t, if |currentVersion| >= 2 then currentVersion else {}, childSets);
    if currentVersion == {} {
      NothingUnderNothing(t, restricted);
      return false, map[], true, Cut({}, {}, [], {}, Version(""), Version(""));
    }
    var orders := AnyParentOrders(t);
    var w := Tables(t, orders, children, childSets, Some(restricted));
    ghost var bottom := BottomOrder(currentVersion, parentSets);
    found, toBubble, contained, c := ChooseBubbles(w, currentVersion, parentSets, justChecking, bottom);
  }
}
