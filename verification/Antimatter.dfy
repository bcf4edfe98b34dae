/** One replica: the version graph with its frontier and acknowledged boundary, the
    fissures, the acknowledgement rounds, and every message it sends. */
module Antimatter {
  import opened Text
  import opened VersionGraph
  import opened Bubble
  import opened Quotient
  import opened Pruning
  import opened Rounds
  import opened PruneSteps

  /** Calls into the wrapped CRDT, which this model does not look into. */
  datatype CrdtCall = ApplyPatch(patch: string) | PruneVersion(version: Version)

  // ---------- collapsing ----------

  ghost predicate CollapsedSoFar(old_: Graph, done: set<Version>, b: Bubbles, t: Graph) {
    && (forall n :: n in t <==> exists v :: v in done && Renamed(b, v) == n)
    && (forall n, q :: n in t ==>
          (q in t[n] <==> exists v, p :: v in done && v in old_ && Renamed(b, v) == n
                                         && p in old_[v] && RenamedParent(b, p) == q))
  }

  /** Rebuilds the graph entry by entry, in any order. */
  method Collapse(old_: Graph, b: Bubbles) returns (t: Graph)
    ensures IsCollapse(old_, b, t)
  {
    t := map[];
    var todo := old_.Keys;
    while todo != {}
      invariant todo <= old_.Keys
      invariant CollapsedSoFar(old_, old_.Keys - todo, b, t)
    {
      var v :| v in todo;
      todo := todo - {v};
      var newV := Renamed(b, v);
      var newParents := set p | p in old_[v] :: RenamedParent(b, p);
      t := t[newV := (if newV in t then t[newV] else {}) + newParents];
    }
  }

  /** Renames every member of a set, one at a time. */
  method RenameAll(s: set<Version>, b: Bubbles) returns (r: set<Version>)
    ensures r == set v | v in s :: Renamed(b, v)
  {
    r := {};
    var todo := s;
    while todo != {}
      invariant todo <= s && r == set v | v in s - todo :: Renamed(b, v)
    {
      var v :| v in todo;
      todo := todo - {v};
      r := r + {Renamed(b, v)};
    }
  }

  /** One call for every version that loses its name. */
  ghost predicate ListsPrunes(calls: seq<CrdtCall>, b: Bubbles) {
    && (forall i :: 0 <= i < |calls| ==>
          calls[i].PruneVersion? && calls[i].version in b && b[calls[i].version].0 != calls[i].version)
    && (forall i, j :: 0 <= i < j < |calls| ==> calls[i] != calls[j])
    && (forall v :: v in b && b[v].0 != v ==> PruneVersion(v) in calls)
  }

  /** The graph side of a replica, with every call made into the wrapped CRDT. */
  datatype History = History(t: Graph, frontier: set<Version>, fissures: Fissures, boundary: set<Version>,
                             calls: seq<CrdtCall>)

  /** Everything one pruning does to it. */
  ghost predicate Pruned(h: History, h': History, b: Bubbles) {
    && h'.fissures == h.fissures - MatchedKeys(h.fissures)
    && IsCollapse(h.t, b, h'.t)
    && h'.frontier == (set v | v in h.frontier :: Renamed(b, v))
    && h'.boundary == (set v | v in h.boundary :: Renamed(b, v))
    && h.calls <= h'.calls && ListsPrunes(h'.calls[|h.calls|..], b)
  }

  /** A pruning that is carried out: everything in `Pruned`, and, under a frontier without
      children, one whole cut of acknowledged versions that no remaining fissure holds.  The
      exception is a sibling group that is not alone: then what lies above the strays goes too. */
  ghost predicate PruneStep(h: History, h': History, b: Bubbles, contained: bool, c: Cut) {
    && Pruned(h, h', b) && NamesSettled(b)
    && (BottomHasNoKids(h.t, h.frontier) ==>
          IsOutcome(h.t, h.frontier, RestrictedIn(h, h'), false, false, b, contained, c))
  }

  /** What a pruning from one history to the other may not touch. */
  ghost function RestrictedIn(h: History, h': History): set<Version> {
    Restricted(h.t, h'.fissures, h.boundary, false)
  }

  /** Of the fissures a pruning takes away exactly those that the other side has answered. */
  lemma PruningSettlesAnswered(h: History, h': History, b: Bubbles)
    requires Pruned(h, h', b) && AreFiled(h.fissures)
    ensures h'.fissures == h.fissures - Answered(h.fissures) && AreFiled(h'.fissures)
  {
    MatchedAreAnswered(h.fissures);
  }

  ghost predicate JustPruned(h: History, h': History) {
    exists b, contained, c :: PruneStep(h, h', b, contained, c)
  }

  /** What completing a round does to it: the boundary advances, then comes a pruning. */
  ghost predicate Completed(h: History, h': History, versions: set<Version>) {
    exists boundary :: HistoryGrows(h.t, h.boundary, versions, boundary) && JustPruned(h.(boundary := boundary), h')
  }

  ghost function Acked(h: History): set<Version> {
    Ancestors(h.t, h.boundary)
  }

  /** Only acknowledged versions are renamed, and nothing that a remaining fissure holds. */
  ghost predicate IsSafe(h: History, h': History, b: Bubbles) {
    b.Keys * h.t.Keys <= Acked(h) && forall k :: k in h'.fissures ==> h'.fissures[k].versions !! b.Keys
  }

  lemma SafeIsUnrestricted(h: History, h': History, b: Bubbles)
    ensures IsSafe(h, h', b) <==> b.Keys !! RestrictedIn(h, h')
  {
    var held := FissureVersions(h'.fissures);
    assert b.Keys !! held <==> forall k :: k in h'.fissures ==> h'.fissures[k].versions !! b.Keys by {
      forall k, x | k in h'.fissures && x in h'.fissures[k].versions ensures x in held {}
    }
  }

  /** A contained pruning is safe and is one step of the graph. */
  lemma ContainedPruneIsSafe(h: History, h': History, b: Bubbles, c: Cut)
    requires PruneStep(h, h', b, true, c) && BottomHasNoKids(h.t, h.frontier)
    ensures IsSafe(h, h', b) && b.Keys <= h.t.Keys
    ensures Prunes(Replica(h.t, h.frontier), Replica(h'.t, h'.frontier), b, c)
  {
    if b != map[] { MembersOf(h.t, c); }
    SafeIsUnrestricted(h, h', b);
  }

  /** A pruning is safe exactly when it keeps to its region or nothing above the strays of that
      region is restricted. */
  lemma PruneIsSafeIff(h: History, h': History, b: Bubbles, contained: bool, c: Cut)
    requires PruneStep(h, h', b, contained, c) && BottomHasNoKids(h.t, h.frontier)
    ensures IsSafe(h, h', b) <==> contained || Above(h.t, Strays(h.t, c.order, c.top)) !! RestrictedIn(h, h')
  {
    if contained {
      ContainedPruneIsSafe(h, h', b, c);
    } else {
      RegionMembers(h.t, h.frontier, RestrictedIn(h, h'), c.order, c.top);
      SafeIsUnrestricted(h, h', b);
    }
  }

  /** Sibling groups that stand alone, or a top that is no sibling group, keep a pruning to its region. */
  lemma AloneOrSingleIsContained(h: History, h': History, b: Bubbles, contained: bool, c: Cut)
    requires PruneStep(h, h', b, contained, c) && BottomHasNoKids(h.t, h.frontier)
    requires GroupsStandAlone(h.t) || |c.top| == 1
    ensures contained
  {
  }

  /** Kept to its region or not, a pruning collapses one bubble around the whole frontier, and
      only when all of that may be touched. */
  lemma PruneIsOneBubble(h: History, h': History, b: Bubbles, contained: bool, c: Cut)
    requires PruneStep(h, h', b, contained, c) && BottomHasNoKids(h.t, h.frontier)
    ensures PrunesBubble(Replica(h.t, h.frontier), Replica(h'.t, h'.frontier), b, c.name, c.key)
    ensures b != map[] ==> IsAccepted(h.frontier, c.top) && c.name in h.frontier && c.key in c.top
    ensures b != map[] ==> h.frontier <= h.t.Keys - RestrictedIn(h, h')
  {
    if b != map[] { OutcomeIsOneBubble(h.t, h.frontier, RestrictedIn(h, h'), b, contained, c); }
  }

  /** Nothing is collapsed before the whole history is acknowledged. */
  lemma PruneNeedsWholeHistory(h: History, h': History, b: Bubbles, contained: bool, c: Cut)
    requires PruneStep(h, h', b, contained, c) && IsFrontier(h.t, h.frontier) && b != map[]
    ensures Acked(h) == h.t.Keys
  {
    LeavesHaveNoKids(h.t, h.frontier);
    PruneIsOneBubble(h, h', b, contained, c);
    FrontierIsWholeHistory(h.t, h.frontier, h.boundary);
  }

  /** Ancestry after a pruning, kept to its region or not, that does not name its bubble after its top. */
  lemma PrunedAncestry(h: History, h': History, b: Bubbles, contained: bool, c: Cut, a: Version, d: Version)
    requires PruneStep(h, h', b, contained, c) && IsFrontier(h.t, h.frontier) && b != map[]
    requires c.key != c.name && a in h'.t && d in h'.t
    ensures IsAncestor(h'.t, a, d) <==> d == c.name || IsAncestor(h.t - b.Keys, a, d)
  {
    LeavesHaveNoKids(h.t, h.frontier);
    OutcomeIsOneBubble(h.t, h.frontier, RestrictedIn(h, h'), b, contained, c);
    OneBubbleAncestry(h.t, h.frontier, b, c.name, c.key, h'.t, a, d);
  }

  lemma ToldIsLost(t: Graph, frontier: set<Version>, b: Bubbles, name: Version, key: Version, t': Graph,
                   calls: seq<CrdtCall>, v: Version)
    requires IsOneBubble(frontier, b, name, key) && IsCollapse(t, b, t') && frontier <= t.Keys
    requires ListsPrunes(calls, b) && v in t
    ensures PruneVersion(v) in calls <==> v !in t'
  {
    OneBubbleVersions(t, frontier, b, name, key, t');
  }

  /** The wrapped CRDT is told about exactly those versions that are no longer there. */
  lemma LostVersionsAreTold(h: History, h': History, b: Bubbles, contained: bool, c: Cut, v: Version)
    requires PruneStep(h, h', b, contained, c) && IsFrontier(h.t, h.frontier) && v in h.t
    ensures PruneVersion(v) in h'.calls[|h.calls|..] <==> v !in h'.t
  {
    if b == map[] {
      EmptyBubblesCollapse(h.t, h'.t, h.frontier);
    } else {
      LeavesHaveNoKids(h.t, h.frontier);
      OutcomeIsOneBubble(h.t, h.frontier, RestrictedIn(h, h'), b, contained, c);
      ToldIsLost(h.t, h.frontier, b, c.name, c.key, h'.t, h'.calls[|h.calls|..], v);
    }
  }

  /** Under at most one frontier version no collapsed version becomes its own parent. */
  lemma OneVersionKeepsItsName(h: History, h': History, b: Bubbles, contained: bool, c: Cut)
    requires PruneStep(h, h', b, contained, c) && BottomHasNoKids(h.t, h.frontier) && |h.frontier| <= 1
    ensures NoneIsItsOwnParent(h.t, b)
  {
    if b != map[] {
      PruneIsOneBubble(h, h', b, contained, c);
      OnlyMember(h.frontier, c.name);
    }
  }

  /** Under a single frontier version a pruning is safe, one step of the graph, and leaves no
      version its own parent, when sibling groups stand alone or its top is none. */
  lemma OneVersionPrunesCleanly(h: History, h': History, b: Bubbles, contained: bool, c: Cut)
    requires PruneStep(h, h', b, contained, c) && BottomHasNoKids(h.t, h.frontier) && |h.frontier| <= 1
    requires GroupsStandAlone(h.t) || |c.top| == 1
    ensures IsSafe(h, h', b) && NoneIsItsOwnParent(h.t, b)
    ensures Prunes(Replica(h.t, h.frontier), Replica(h'.t, h'.frontier), b, c)
  {
    AloneOrSingleIsContained(h, h', b, contained, c);
    ContainedPruneIsSafe(h, h', b, c);
    OneVersionKeepsItsName(h, h', b, contained, c);
  }

  // ---------- the acknowledged boundary ----------

  /** The boundary after acknowledging `versions`: its history is the old history plus the
      acknowledged versions' own, and nothing superfluous was kept. */
  ghost predicate HistoryGrows(t: Graph, boundary: set<Version>, versions: set<Version>, boundary': set<Version>) {
    && Ancestors(t, boundary') == Ancestors(t, boundary) + Ancestors(t, versions)
    && boundary' <= boundary + versions
    && (forall x :: x in boundary' && x !in versions ==> x !in Ancestors(t, versions))
  }

  /** The walk up from one acknowledged version visits exactly its ancestors, and perhaps
      names that no longer exist. */
  ghost predicate Visiting(t: Graph, v: Version, visited: set<Version>, stack: seq<Version>) {
    && (v in visited || v in stack)
    && visited * t.Keys <= Ancestors(t, {v})
    && (forall x :: x in stack && x in t ==> x in Ancestors(t, {v}))
    && (forall x, p :: x in visited && x in t && p in t[x] ==> p in visited || p in stack)
  }

  lemma VisitStarts(t: Graph, v: Version)
    requires v in t
    ensures Visiting(t, v, {}, [v])
  {
    AncestorOfItself(t, v);
  }

  lemma VisitSkips(t: Graph, v: Version, visited: set<Version>, stack: seq<Version>, cur: Version)
    requires Visiting(t, v, visited, stack + [cur]) && cur in visited
    ensures Visiting(t, v, visited, stack)
  {
    assert forall x :: x in stack + [cur] <==> x in stack || x == cur;
  }

  lemma VisitTakes(t: Graph, v: Version, visited: set<Version>, stack: seq<Version>, cur: Version, pushed: seq<Version>)
    requires Visiting(t, v, visited, stack + [cur])
    requires Members(pushed) == if cur in t then t[cur] else {}
    ensures Visiting(t, v, visited + {cur}, stack + pushed)
  {
    assert forall x :: x in stack + [cur] <==> x in stack || x == cur;
    assert forall x :: x in stack + pushed <==> x in stack || x in Members(pushed);
    AncestorsAreClosed(t, {v});
    if cur in t { assert cur in Ancestors(t, {v}); }
  }

  lemma VisitEnds(t: Graph, v: Version, visited: set<Version>)
    requires v in t && Visiting(t, v, visited, [])
    ensures visited * t.Keys == Ancestors(t, {v})
  {
    forall x | x in visited * t.Keys ensures t[x] * t.Keys <= visited * t.Keys {}
    AncestorsAreLeast(t, {v}, visited * t.Keys);
  }

  /** Dropping what lies above `v` from the boundary and adding `v` loses no history. */
  lemma BoundaryAdvances(t: Graph, boundary: set<Version>, v: Version, visited: set<Version>)
    requires v in t && visited * t.Keys == Ancestors(t, {v})
    ensures Ancestors(t, boundary - visited + {v}) == Ancestors(t, boundary) + Ancestors(t, {v})
  {
    AncestorsAreClosed(t, {v});
    forall a | a in Ancestors(t, boundary) ensures a in Ancestors(t, boundary - visited + {v}) {
      var d :| d in boundary && IsAncestor(t, a, d);
      BothExist(t, a, d);
      if d in visited {
        assert d in Ancestors(t, {v});
        AncestorTransitive(t, a, d, v);
      }
    }
  }

  lemma HistoryStep(t: Graph, boundary: set<Version>, done: set<Version>, before: set<Version>, v: Version,
                    visited: set<Version>)
    requires HistoryGrows(t, boundary, done, before)
    requires v in t && visited * t.Keys == Ancestors(t, {v})
    ensures HistoryGrows(t, boundary, done + {v}, before - visited + {v})
  {
    AncestorsOfUnion(t, done, {v});
    BoundaryAdvances(t, before, v, visited);
  }

  lemma HistoryOfMissing(t: Graph, boundary: set<Version>, done: set<Version>, before: set<Version>, v: Version)
    requires HistoryGrows(t, boundary, done, before) && v !in t
    ensures HistoryGrows(t, boundary, done + {v}, before)
  {
    AncestorsOfUnion(t, done, {v});
    AncestorsOfMissing(t, v);
  }

  lemma CompletedBy(h: History, boundary: set<Version>, h': History, versions: set<Version>)
    requires HistoryGrows(h.t, h.boundary, versions, boundary) && JustPruned(h.(boundary := boundary), h')
    ensures Completed(h, h', versions)
  {
  }

  // ---------- the replica ----------

  lemma AncestorsOfMissing(t: Graph, v: Version)
    requires v !in t
    ensures Ancestors(t, {v}) == {}
  {
    AncestorsAreLeast(t, {v}, {});
  }

  /** The names a replica gives out. */
  function OwnName(id: string, n: nat): string {
    id + "-" + Decimal(n)
  }

  lemma NamesDiffer(id: string, n: nat)
    ensures forall k {:trigger OwnName(id, k)} :: k != n ==> OwnName(id, k) != OwnName(id, n)
  {
    forall k {:trigger OwnName(id, k)} | k != n ensures OwnName(id, k) != OwnName(id, n) {
      if OwnName(id, k) == OwnName(id, n) {
        assert OwnName(id, k)[|id| + 1..] == Decimal(k) && OwnName(id, n)[|id| + 1..] == Decimal(n);
        DecimalInjective(k, n);
      }
    }
  }

  /** A name tells the replica that gave it out, and its number. */
  lemma NamesTellReplicas(a: string, m: nat, b: string, n: nat)
    requires OwnName(a, m) == OwnName(b, n)
    ensures a == b && m == n
  {
    var x, y, s := Decimal(m), Decimal(n), OwnName(a, m);
    DecimalHasNoHyphen(m);
    DecimalHasNoHyphen(n);
    assert s[|a|] == '-' && s[|b|] == '-' && s[|a| + 1..] == x && s[|b| + 1..] == y;
    assert forall i :: |a| < i < |s| ==> s[i] in x;
    assert forall i :: |b| < i < |s| ==> s[i] in y;
    assert s[..|a|] == a && s[..|b|] == b;
    DecimalInjective(m, n);
  }

  /** No name a replica with this counter is still to give out is in use. */
  ghost predicate NamesAhead(id: string, count: nat, ackmes: map<string, AckmeState>, t: Graph) {
    forall k {:trigger OwnName(id, k)} :: k > count ==>
        OwnName(id, k) !in ackmes && Version(OwnName(id, k)) !in Names(t)
  }

  lemma AskKeepsNames(id: string, n: nat, count: nat, ackmes: map<string, AckmeState>, t: Graph, m: AckmeState)
    requires NamesAhead(id, count, ackmes, t) && n <= count
    ensures NamesAhead(id, count, ackmes[OwnName(id, n) := m], t)
  {
    NamesDiffer(id, n);
  }

  lemma EntryKeepsNames(id: string, n: nat, count: nat, ackmes: map<string, AckmeState>, t: Graph,
                        parents: set<Version>)
    requires NamesAhead(id, count, ackmes, t) && n <= count && parents <= t.Keys
    ensures NamesAhead(id, count, ackmes, AddEntry(t, Version(OwnName(id, n)), parents))
  {
    NamesDiffer(id, n);
    var t' := AddEntry(t, Version(OwnName(id, n)), parents);
    assert Names(t') <= Names(t) + {Version(OwnName(id, n))};
  }

  lemma NextNameIsFresh(id: string, count: nat, ackmes: map<string, AckmeState>, t: Graph, parents: set<Version>)
    requires NamesAhead(id, count, ackmes, t) && parents <= t.Keys
    ensures OwnName(id, count + 1) !in ackmes && Unmentioned(t, Version(OwnName(id, count + 1)), parents)
  {
    assert Version(OwnName(id, count + 1)) !in Names(t);
  }

  /** Exactly one update to each of these connections was added, in some order. */
  ghost predicate Tells(before: seq<Message>, after: seq<Message>, cs: set<string>, version: Version,
                        parents: set<Version>,
                        ackme: string) {
    && before <= after && |after| - |before| == |cs|
    && (forall i :: |before| <= i < |after| ==>
          after[i].Update? && after[i].conn in cs && after[i] == Update(version, parents, ackme, after[i].conn))
    && forall c :: c in cs ==> Update(version, parents, ackme, c) in after[|before|..]
  }

  lemma TellsMore(before: seq<Message>, after: seq<Message>, cs: set<string>, version: Version, parents: set<Version>,
                  ackme: string, c: string)
    requires Tells(before, after, cs, version, parents, ackme) && c !in cs
    ensures Tells(before, after + [Update(version, parents, ackme, c)], cs + {c}, version, parents, ackme)
  {
    var m := Update(version, parents, ackme, c);
    assert (after + [m])[|before|..] == after[|before|..] + [m];
  }

  /** What an edit tells its peers: a round over the new frontier, then the new version. */
  ghost predicate EditTold(n: Net, n': Net, conns: Conns, ackme: string, version: Version, frontier: set<Version>,
                           seqNo: nat, now: int) {
    && n'.ackmes == n.ackmes[ackme := AckmeState(None, |conns|, frontier, seqNo, now, |conns|, false)]
    && exists between ::
         && Tells(n.sent, between, conns.Keys, Version(""), frontier, ackme)
         && Tells(between, n'.sent, conns.Keys, version, frontier, ackme)
  }

  /** A live round of this replica's own that has counted down to zero. */
  ghost predicate FiresOwn(ackmes: map<string, AckmeState>, ackme: string) {
    && ackme in ackmes && ackmes[ackme].count == 0
    && !ackmes[ackme].cancelled && ackmes[ackme].origin == None
  }

  /** Whether one more ack completes a round here: the last of a live round of this replica's
      own, or a new round from nowhere with nobody else to ask. */
  ghost predicate CompletesOwn(ackmes: map<string, AckmeState>, conns: Conns, ackme: string, conn: Option<string>) {
    if ackme in ackmes
    then ackmes[ackme].count == 1 && !ackmes[ackme].cancelled && ackmes[ackme].origin == None
    else |conns| <= 1 && conn == None
  }

  /** One more ack brings a pruning with it exactly when it completes a round. */
  lemma CompletionIsCancellation(n: Net, n': Net, conns: Conns, ackme: string, versions: set<Version>,
                                 conn: Option<string>, seqNo: nat, now: int)
    requires Processed(n, n', conns, ackme, versions, conn, seqNo, now)
    ensures CompletesOwn(n.ackmes, conns, ackme, conn) <==>
            && ackme in n'.ackmes && n'.ackmes[ackme].cancelled
            && (ackme in n.ackmes ==> !n.ackmes[ackme].cancelled)
  {
    if ackme in n.ackmes {
      AckIsHeard(n, n', conns, ackme, versions, conn, seqNo, now);
    } else {
      RoundIsOpened(n, n', conns, ackme, versions, conn, seqNo, now);
    }
  }

  /** Looking at a round brings a pruning with it exactly when it completes that round. */
  lemma FiringIsCancellation(n: Net, n': Net, conns: Conns, ackme: string)
    requires Checked(n, n', conns, ackme)
    ensures FiresOwn(n.ackmes, ackme) <==>
            ackme in n.ackmes && !n.ackmes[ackme].cancelled && ackme in n'.ackmes && n'.ackmes[ackme].cancelled
  {
  }

  class AntimatterCrdt {
    const id: string
    const ackmeWaitTime: int := 2000
    var crdtCalls: seq<CrdtCall>
    var conns: Conns
    var connCount: nat
    var t: Graph
    var currentVersion: set<Version>
    var fissures: Fissures
    var ackedBoundary: set<Version>
    var ackmes: map<string, AckmeState>
    var sent: seq<Message>

    ghost function Rounds(): Net
      reads this
    {
      Net(ackmes, sent)
    }

    ghost function Past(): History
      reads this
    {
      History(t, currentVersion, fissures, ackedBoundary, crdtCalls)
    }

    constructor (id: string)
      ensures this.id == id && conns == map[] && connCount == 0 && crdtCalls == []
      ensures t == map[] && currentVersion == {} && fissures == map[] && ackedBoundary == {}
      ensures Rounds() == Net(map[], [])
    {
      this.id := id;
      crdtCalls, conns, connCount := [], map[], 0;
      t, currentVersion, fissures, ackedBoundary := map[], {}, map[], {};
      ackmes, sent := map[], [];
    }

    // ----- versions -----

    method AddVersion(version: Version, parents: set<Version>, patches: seq<string>) returns (applied: seq<string>)
      modifies `t, `currentVersion, `crdtCalls
      ensures Adds(Replica(old(t), old(currentVersion)), Replica(t, currentVersion), version, parents)
      ensures version in old(t) ==> applied == [] && unchanged(this)
      ensures version !in old(t) ==>
                && applied == patches
                && crdtCalls == old(crdtCalls) + seq(|patches|, i requires 0 <= i < |patches| => ApplyPatch(patches[i]))
      ensures IsFrontier(old(t), old(currentVersion)) && version !in old(t) ==>
                (IsFrontier(t, currentVersion) <==> Unmentioned(old(t), version, parents))
    {
      if version in t { return []; }
      if IsFrontier(t, currentVersion) { AddKeepsFrontier(t, currentVersion, version, parents); }
      t := t[version := parents];
      var todo := parents;
      while todo != {}
        modifies `currentVersion
        invariant todo <= parents
        invariant currentVersion == old(currentVersion) - (parents - todo)
      {
        var p :| p in todo;
        todo := todo - {p};
        currentVersion := currentVersion - {p};
      }
      currentVersion := currentVersion + {version};
      for k := 0 to |patches|
        modifies `crdtCalls
        invariant crdtCalls == old(crdtCalls) + seq(k, i requires 0 <= i < k => ApplyPatch(patches[i]))
      {
        crdtCalls := crdtCalls + [ApplyPatch(patches[k])];
      }
      applied := patches;
    }

    method GenerateSeq() returns (n: nat)
      modifies `connCount
      ensures n == connCount == old(connCount) + 1
    {
      connCount := connCount + 1;
      n := connCount;
    }

    method GenerateRandomId() returns (name: string)
      modifies `connCount
      ensures connCount == old(connCount) + 1 && name == OwnName(id, connCount) == id + "-" + Decimal(connCount)
    {
      var n := GenerateSeq();
      name := id + "-" + Decimal(n);
    }

    /** Sends one update message on every connection, in any order. */
    method SendUpdates(version: Version, ackme: string)
      modifies `sent
      ensures Tells(old(sent), sent, conns.Keys, version, currentVersion, ackme)
    {
      ghost var done: set<string> := {};
      var todo := conns.Keys;
      while todo != {}
        modifies `sent
        invariant done !! todo && done + todo == conns.Keys
        invariant Tells(old(sent), sent, done, version, currentVersion, ackme)
      {
        var c :| c in todo;
        TellsMore(old(sent), sent, done, version, currentVersion, ackme, c);
        todo, done := todo - {c}, done + {c};
        sent := sent + [Update(version, currentVersion, ackme, c)];
      }
      assert done == conns.Keys;
    }

    /** Asks every peer to acknowledge the current frontier. */
    method Ackme(now: int) returns (name: string)
      modifies `connCount, `ackmes, `sent
      ensures name == OwnName(id, old(connCount) + 1) && connCount == old(connCount) + 2
      ensures ackmes == old(ackmes)[name := AckmeState(None, |conns|, currentVersion, connCount, now, |conns|, false)]
      ensures Tells(old(sent), sent, conns.Keys, Version(""), currentVersion, name)
    {
      name := GenerateRandomId();
      var n := GenerateSeq();
      var m := AckmeState(None, |conns|, currentVersion, n, now, |conns|, false);
      ackmes := ackmes[name := m];
      SendUpdates(Version(""), name);
    }

    /** A local edit: a version above the whole old frontier, and, with connections, a round
        over it and an update to every peer. */
    method Edit(patches: seq<string>, now: int) returns (version: Version)
      modifies `t, `currentVersion, `crdtCalls, `connCount, `ackmes, `sent
      ensures version == Version(OwnName(id, old(connCount) + 1))
      ensures version !in old(t) ==>
                t == AddEntry(old(t), version, old(currentVersion)) && currentVersion == {version}
      ensures version in old(t) ==> t == old(t) && currentVersion == old(currentVersion)
      ensures conns == map[] ==> connCount == old(connCount) + 1 && Rounds() == old(Rounds())
      ensures conns != map[] ==>
                && connCount == old(connCount) + 3
                && EditTold(old(Rounds()), Rounds(), conns, OwnName(id, old(connCount) + 2), version, currentVersion,
                   connCount, now)
    {
      var newName := GenerateRandomId();
      version := Version(newName);
      var _ := AddVersion(version, currentVersion, patches);
      if |conns| > 0 {
        var name := Ackme(now);
        SendUpdates(version, name);
      }
    }

    // ----- pruning -----

    /** Tells the wrapped CRDT about every version that loses its name, in any order. */
    method PruneCrdt(b: Bubbles)
      modifies `crdtCalls
      ensures old(crdtCalls) <= crdtCalls && ListsPrunes(crdtCalls[|old(crdtCalls)|..], b)
    {
      ghost var calls: seq<CrdtCall> := [];
      var todo := b.Keys;
      while todo != {}
        modifies `crdtCalls
        invariant todo <= b.Keys
        invariant crdtCalls == old(crdtCalls) + calls
        invariant forall i :: 0 <= i < |calls| ==>
                    calls[i].PruneVersion? && calls[i].version in b && calls[i].version !in todo &&
                        b[calls[i].version].0 != calls[i].version
        invariant forall i, j :: 0 <= i < j < |calls| ==> calls[i] != calls[j]
        invariant forall v :: v in b && v !in todo && b[v].0 != v ==> PruneVersion(v) in calls
      {
        var v :| v in todo;
        todo := todo - {v};
        if v != b[v].0 {
          crdtCalls := crdtCalls + [PruneVersion(v)];
          calls := calls + [PruneVersion(v)];
        }
      }
      assert crdtCalls[|old(crdtCalls)|..] == calls;
    }

    method ApplyBubbles(b: Bubbles)
      modifies `t, `currentVersion, `ackedBoundary, `crdtCalls
      ensures IsCollapse(old(t), b, t)
      ensures currentVersion == set v | v in old(currentVersion) :: Renamed(b, v)
      ensures ackedBoundary == set v | v in old(ackedBoundary) :: Renamed(b, v)
      ensures old(crdtCalls) <= crdtCalls && ListsPrunes(crdtCalls[|old(crdtCalls)|..], b)
    {
      if b == map[] {
        EmptyBubblesCollapse(t, t, currentVersion);
        EmptyBubblesCollapse(t, t, ackedBoundary);
        return;
      }
      t := Collapse(t, b);
      currentVersion := RenameAll(currentVersion, b);
      ackedBoundary := RenameAll(ackedBoundary, b);
      PruneCrdt(b);
    }

    method RemoveFissures(keys: set<string>)
      modifies `fissures
      ensures fissures == old(fissures) - keys
    {
      var todo := keys;
      while todo != {}
        modifies `fissures
        invariant todo <= keys && fissures == old(fissures) - (keys - todo)
      {
        var k :| k in todo;
        todo := todo - {k};
        fissures := fissures - {k};
      }
    }

    /** `prune_with_time`.  `b` is the renaming it applied, `contained` says that the marking
        kept to the region that was found, and `c` is that region. */
    method PruneWithTime(justChecking: bool) returns (r: bool, ghost b: Bubbles, ghost contained: bool, ghost c: Cut)
      modifies `fissures, `t, `currentVersion, `ackedBoundary, `crdtCalls
      ensures justChecking ==> unchanged(this) && (!r ==> MatchedKeys(fissures) == {})
      ensures justChecking && MatchedKeys(fissures) == {} ==>
                (BottomHasNoKids(t, currentVersion) ==>
                   var restricted := Restricted(t, fissures, ackedBoundary, true);
                   IsOutcome(t, currentVersion, restricted, true, r, b, contained, c))
      ensures justChecking && MatchedKeys(fissures) != {} ==> r
      ensures !justChecking ==> !r && PruneStep(old(Past()), Past(), b, contained, c)
    {
      b, contained, c := map[], true, Cut({}, {}, [], {}, Version(""), Version(""));
      var keysToDelete := FindMatched(fissures);
      if justChecking && keysToDelete != {} { return true, b, contained, c; }
      if !justChecking { RemoveFissures(keysToDelete); }
      var restricted := FindRestricted(t, fissures, ackedBoundary, justChecking);
      var found, toBubble;
      found, toBubble, contained, c := FindBubbles(t, currentVersion, restricted, justChecking);
      b := toBubble;
      if justChecking { return found, b, contained, c; }
      assert restricted == RestrictedIn(old(Past()), Past());
      ApplyBubbles(toBubble);
      assert restricted == RestrictedIn(old(Past()), Past());
      assert Pruned(old(Past()), Past(), b);
      r := false;
    }

    /** `prune`: of the fissures exactly those go that the other side has answered. */
    method Prune(justChecking: bool) returns (r: bool, ghost b: Bubbles, ghost contained: bool, ghost c: Cut)
      modifies `fissures, `t, `currentVersion, `ackedBoundary, `crdtCalls
      ensures justChecking ==> unchanged(this)
      ensures justChecking && AreFiled(fissures) && Answered(fissures) != {} ==> r
      ensures justChecking && MatchedKeys(fissures) == {} ==>
                (BottomHasNoKids(t, currentVersion) ==>
                   var restricted := Restricted(t, fissures, ackedBoundary, true);
                   IsOutcome(t, currentVersion, restricted, true, r, b, contained, c))
      ensures !justChecking ==> !r && PruneStep(old(Past()), Past(), b, contained, c)
      ensures !justChecking && AreFiled(old(fissures)) ==> fissures == old(fissures) - Answered(old(fissures))
    {
      if AreFiled(fissures) { MatchedAreAnswered(fissures); }
      r, b, contained, c := PruneWithTime(justChecking);
      assert !justChecking ==> Pruned(old(Past()), Past(), b);
    }

    /** `prune(false)`. */
    method PruneNow()
      modifies `fissures, `t, `currentVersion, `ackedBoundary, `crdtCalls
      ensures JustPruned(old(Past()), Past())
    {
      ghost var b, contained, c;
      var r;
      r, b, contained, c := Prune(false);
    }

    // ----- acknowledgements -----

    /** Walks up from an acknowledged version and takes everything met off the boundary. */
    method DropAbove(v: Version) returns (ghost visited: set<Version>)
      requires v in t
      modifies `ackedBoundary
      ensures visited * t.Keys == Ancestors(t, {v})
      ensures ackedBoundary == old(ackedBoundary) - visited
    {
      ghost var all := Names(t) + {v};
      var seen: set<Version> := {};
      var stack := [v];
      VisitStarts(t, v);
      while stack != []
        modifies `ackedBoundary
        invariant Visiting(t, v, seen, stack)
        invariant seen <= all && forall x :: x in stack ==> x in all
        invariant ackedBoundary == old(ackedBoundary) - seen
        decreases all - seen, |stack|
      {
        var curr;
        stack, curr := Pop(stack);
        assert curr in stack + [curr];
        if curr in seen {
          VisitSkips(t, v, seen, stack, curr);
          continue;
        }
        var pushed := [];
        if curr in t { pushed := AnyOrder(t[curr]); }
        VisitTakes(t, v, seen, stack, curr, pushed);
        seen := seen + {curr};
        ackedBoundary := ackedBoundary - {curr};
        assert forall x :: x in pushed ==> x in Members(pushed);
        stack := stack + pushed;
      }
      VisitEnds(t, v, seen);
      visited := seen;
    }

    /** The part of `add_full_ack_leaves` that moves the boundary: for every acknowledged
        version, drop everything met walking up from it, then add the version itself. */
    method AdvanceBoundary(versions: set<Version>)
      modifies `ackedBoundary
      ensures HistoryGrows(t, old(ackedBoundary), versions, ackedBoundary)
    {
      var todo := versions;
      while todo != {}
        modifies `ackedBoundary
        invariant todo <= versions
        invariant HistoryGrows(t, old(ackedBoundary), versions - todo, ackedBoundary)
      {
        var v :| v in todo;
        ghost var done := versions - todo;
        todo := todo - {v};
        assert versions - todo == done + {v};
        if v !in t {
          HistoryOfMissing(t, old(ackedBoundary), done, ackedBoundary, v);
          continue;
        }
        ghost var before := ackedBoundary;
        ghost var visited := DropAbove(v);
        HistoryStep(t, old(ackedBoundary), done, before, v, visited);
        ackedBoundary := ackedBoundary + {v};
      }
      assert versions - todo == versions;
    }

    /** Tells every connection that was there when the round began, in any order. */
    method SendGlobalAcks(ackme: string, m: AckmeState, ignoring: Option<string>)
      modifies `sent
      ensures old(sent) <= sent && IsBroadcast(conns, ackme, m, ignoring, sent[|old(sent)|..])
    {
      ghost var msgs: seq<Message> := [];
      var todo := conns.Keys;
      while todo != {}
        modifies `sent
        invariant todo <= conns.Keys && sent == old(sent) + msgs
        invariant forall i :: 0 <= i < |msgs| ==>
                    msgs[i].Ack? && msgs[i] == Ack(Global, ackme, m.versions, msgs[i].conn)
                    && Eligible(conns, msgs[i].conn, m.seqNo, ignoring) && msgs[i].conn !in todo
        invariant forall i, j :: 0 <= i < j < |msgs| ==> msgs[i] != msgs[j]
        invariant forall c :: Eligible(conns, c, m.seqNo, ignoring) && c !in todo ==>
                  Ack(Global, ackme, m.versions, c) in msgs
      {
        var c :| c in todo;
        todo := todo - {c};
        if Some(c) != ignoring && conns[c].seqNo <= m.seqNo {
          var a := Ack(Global, ackme, m.versions, c);
          sent, msgs := sent + [a], msgs + [a];
        }
      }
      assert sent[|old(sent)|..] == msgs;
    }

    /** The first half of `add_full_ack_leaves`: a live round is cancelled and announced. */
    method CancelRound(ackme: string, ignoring: Option<string>) returns (fired: bool)
      modifies `ackmes, `sent
      ensures FullAcked(old(Rounds()), Rounds(), conns, ackme, ignoring)
      ensures fired <==> ackme in old(ackmes) && !old(ackmes)[ackme].cancelled
      ensures fired ==> ackme in ackmes && ackmes[ackme].versions == old(ackmes)[ackme].versions
    {
      if ackme !in ackmes || ackmes[ackme].cancelled { return false; }
      ackmes := ackmes[ackme := ackmes[ackme].(cancelled := true)];
      SendGlobalAcks(ackme, ackmes[ackme], ignoring);
      fired := true;
    }

    /** Completes a round: cancels it, tells everybody, moves the boundary, prunes. */
    method AddFullAckLeaves(ackme: string, ignoring: Option<string>)
      modifies `ackmes, `sent, `fissures, `t, `currentVersion, `ackedBoundary, `crdtCalls
      ensures FullAcked(old(Rounds()), Rounds(), conns, ackme, ignoring)
      ensures ackme !in old(ackmes) || old(ackmes)[ackme].cancelled ==> unchanged(this)
      ensures ackme in old(ackmes) && !old(ackmes)[ackme].cancelled ==>
                Completed(old(Past()), Past(), old(ackmes)[ackme].versions)
    {
      var fired := CancelRound(ackme, ignoring);
      if fired {
        assert Past() == old(Past());
        AdvanceAndPrune(ackmes[ackme].versions);
      }
    }

    /** The second half: the boundary advances by these versions, then comes a pruning. */
    method AdvanceAndPrune(versions: set<Version>)
      modifies `fissures, `t, `currentVersion, `ackedBoundary, `crdtCalls
      ensures Completed(old(Past()), Past(), versions)
    {
      AdvanceBoundary(versions);
      ghost var boundary := ackedBoundary;
      assert Past() == old(Past()).(boundary := boundary);
      PruneNow();
      CompletedBy(old(Past()), boundary, Past(), versions);
    }

    /** Fires a round whose count is zero: the local ack to whoever asked, or, for a round
        of our own, its completion. */
    method CheckAckmeCount(ackme: string)
      modifies `ackmes, `sent, `fissures, `t, `currentVersion, `ackedBoundary, `crdtCalls
      ensures Checked(old(Rounds()), Rounds(), conns, ackme)
      ensures if FiresOwn(old(ackmes), ackme) then Completed(old(Past()), Past(), old(ackmes)[ackme].versions)
              else Past() == old(Past())
    {
      if ackme !in ackmes { return; }
      var m := ackmes[ackme];
      if m.count == 0 && !m.cancelled {
        if m.origin.Some? {
          if m.origin.value in conns {
            sent := sent + [Ack(Local, ackme, m.versions, m.origin.value)];
          }
        } else {
          AddFullAckLeaves(ackme, None);
        }
      }
    }

    method ProcessAckme(ackme: string, versions: set<Version>, conn: Option<string>, now: int)
      modifies `ackmes, `sent, `fissures, `t, `currentVersion, `ackedBoundary, `crdtCalls, `connCount
      ensures Processed(old(Rounds()), Rounds(), conns, ackme, versions, conn, old(connCount) + 1, now)
      ensures connCount == old(connCount) + if ackme in old(ackmes) then 0 else 1
      ensures if CompletesOwn(old(ackmes), conns, ackme, conn)
              then Completed(old(Past()), Past(),
                             if ackme in old(ackmes) then old(ackmes)[ackme].versions else versions)
              else Past() == old(Past())
    {
      if ackme in ackmes {
        var m := ackmes[ackme];
        if m.count > 0 {
          ackmes := ackmes[ackme := m.(count := m.count - 1)];
          assert Past() == old(Past());
          CheckAckmeCount(ackme);
        }
      } else {
        var n := GenerateSeq();
        var m := AckmeState(conn, if |conns| == 0 then 0 else |conns| - 1, versions, n, now, |conns|, false);
        ackmes := ackmes[ackme := m];
        assert Past() == old(Past());
        CheckAckmeCount(ackme);
      }
    }

    method AckmeTimeout(ackme: string, now: int)
      modifies `ackmes, `fissures, `t, `currentVersion, `ackedBoundary, `crdtCalls
      ensures TimedOut(old(Rounds()), Rounds(), ackme, now, ackmeWaitTime)
      ensures if Rounds() == old(Rounds()) then unchanged(this) else JustPruned(old(Past()), Past())
      ensures ackmes.Keys == old(ackmes).Keys && sent == old(sent)
      ensures forall a :: a in ackmes ==>
                ackmes[a].cancelled == (old(ackmes)[a].cancelled
                                        || (a == ackme && ackmes[a].count > 0 && ackmes[a].time + 2000 < now))
    {
      if ackme in ackmes {
        var m := ackmes[ackme];
        if m.cancelled { return; }
        if m.count > 0 && now - m.time > ackmeWaitTime {
          ackmes := ackmes[ackme := m.(cancelled := true)];
          assert ackmes[ackme] != old(ackmes)[ackme];
          assert Past() == old(Past());
          PruneNow();
        }
      }
    }
  }
}
