/** Whole runs of a replica: versions arriving and being edited, acknowledgements counted,
    rounds completed or given up, connections and fissures coming and going. */
module ReplicaRuns {
  import opened VersionGraph
  import opened Text
  import opened Bubble
  import opened Quotient
  import opened Pruning
  import opened PruneSteps
  import opened Antimatter
  import R = Rounds

  /** A replica: its history, its rounds with everything it sent, and its counter. */
  datatype State = State(h: History, net: R.Net, count: nat)

  /** What one pruning did: the boundary it went by, its bubbles, whether the marking kept to
      the region that was found, and that region. */
  datatype Outcome = Outcome(boundary: set<Version>, b: Bubbles, contained: bool, c: Cut)

  datatype Event =
    | Deliver(version: Version, parents: set<Version>)
    | EditHere(conns: R.Conns, now: int)
    | Ack(conns: R.Conns, ackme: string, versions: set<Version>, conn: Option<string>, now: int, p: Outcome)
    | FullAck(conns: R.Conns, ackme: string, ignoring: Option<string>, p: Outcome)
    | Timeout(ackme: string, now: int, waitTime: int, p: Outcome)
    | SetFissures(fissures: Fissures)
    | Connect

  /** A completed round: the boundary advances, then comes this pruning. */
  ghost predicate Completes(h: History, h': History, versions: set<Version>, p: Outcome) {
    HistoryGrows(h.t, h.boundary, versions, p.boundary)
    && PruneStep(h.(boundary := p.boundary), h', p.b, p.contained, p.c)
  }

  /** Whether an event brings a pruning with it. */
  ghost predicate HasPruning(s: State, e: Event) {
    match e
    case Ack(conns, ackme, _, conn, _, _) => CompletesOwn(s.net.ackmes, conns, ackme, conn)
    case FullAck(_, ackme, _, _) => ackme in s.net.ackmes && !s.net.ackmes[ackme].cancelled
    case Timeout(ackme, now, waitTime, _) =>
      && ackme in s.net.ackmes && !s.net.ackmes[ackme].cancelled && s.net.ackmes[ackme].count > 0
      && now - s.net.ackmes[ackme].time > waitTime
    case _ => false
  }

  /** One event at a replica called `id`: what the methods of the replica ensure, and nothing more. */
  ghost predicate Moves(id: string, s: State, s': State, e: Event) {
    match e
    case Deliver(version, parents) =>
      && Adds(Replica(s.h.t, s.h.frontier), Replica(s'.h.t, s'.h.frontier), version, parents)
      && s'.h == s.h.(t := s'.h.t, frontier := s'.h.frontier, calls := s'.h.calls)
      && s'.net == s.net && s'.count == s.count
    case EditHere(conns, now) =>
      var version := Version(OwnName(id, s.count + 1));
      && Adds(Replica(s.h.t, s.h.frontier), Replica(s'.h.t, s'.h.frontier), version, s.h.frontier)
      && s'.h == s.h.(t := s'.h.t, frontier := s'.h.frontier, calls := s'.h.calls)
      && if conns == map[] then s'.net == s.net && s'.count == s.count + 1
         else
           && s'.count == s.count + 3
           && EditTold(s.net, s'.net, conns, OwnName(id, s.count + 2), version, s'.h.frontier, s'.count, now)
    case Ack(conns, ackme, versions, conn, now, p) =>
      && R.Processed(s.net, s'.net, conns, ackme, versions, conn, s.count + 1, now)
      && s'.count == s.count + (if ackme in s.net.ackmes then 0 else 1)
      && if HasPruning(s, e)
         then Completes(s.h, s'.h, if ackme in s.net.ackmes then s.net.ackmes[ackme].versions else versions, p)
         else s'.h == s.h
    case FullAck(conns, ackme, ignoring, p) =>
      && R.FullAcked(s.net, s'.net, conns, ackme, ignoring) && s'.count == s.count
      && if HasPruning(s, e) then Completes(s.h, s'.h, s.net.ackmes[ackme].versions, p) else s'.h == s.h
    case Timeout(ackme, now, waitTime, p) =>
      && R.TimedOut(s.net, s'.net, ackme, now, waitTime) && s'.count == s.count
      && if HasPruning(s, e) then p.boundary == s.h.boundary && PruneStep(s.h, s'.h, p.b, p.contained, p.c)
         else s'.h == s.h
    case SetFissures(fissures) => s' == s.(h := s.h.(fissures := fissures))
    case Connect => s' == s.(count := s.count + 1)
  }

  // ---------- what is asked of the events ----------

  /** A name from elsewhere is not one this replica is still to give out. */
  ghost predicate NotOurs(id: string, count: nat, name: string) {
    forall k {:trigger OwnName(id, k)} :: k > count ==> name != OwnName(id, k)
  }

  /** Rounds of others have names of their own. */
  ghost predicate ForeignRounds(id: string, s: State, e: Event) {
    e.Ack? ==> NotOurs(id, s.count, e.ackme)
  }

  /** A version that is new here has a name of its own, and it and its parents are not ours. */
  ghost predicate FreshNames(id: string, s: State, e: Event) {
    e.Deliver? && e.version !in s.h.t ==>
      && Unmentioned(s.h.t, e.version, e.parents) && NotOurs(id, s.count, e.version.name)
      && forall p :: p in e.parents ==> NotOurs(id, s.count, p.name)
  }

  /** No pruning leaves a version its own parent. */
  ghost predicate NoSelfParents(s: State, e: Event) {
    HasPruning(s, e) ==> NoneIsItsOwnParent(s.h.t, e.p.b)
  }

  /** Prunings come at times when there is at most one frontier version. */
  ghost predicate PrunesOneVersion(s: State, e: Event) {
    HasPruning(s, e) ==> |s.h.frontier| <= 1
  }

  // ---------- what is kept ----------

  /** No round name this replica is still to give out is in use. */
  ghost predicate RoundsAhead(id: string, s: State) {
    forall k {:trigger OwnName(id, k)} :: k > s.count ==> OwnName(id, k) !in s.net.ackmes
  }

  /** What every event keeps, fresh names and no self-parents provided. */
  ghost predicate Good(id: string, s: State) {
    IsFrontier(s.h.t, s.h.frontier) && NamesAhead(id, s.count, s.net.ackmes, s.h.t)
  }

  /** A pruning keeps the frontier exact, uses no new name, and takes nothing but what it
      collapses out of the acknowledged history. */
  lemma PruneKeepsGood(h: History, h': History, b: Bubbles, contained: bool, c: Cut)
    requires PruneStep(h, h', b, contained, c) && IsFrontier(h.t, h.frontier)
    ensures IsFrontier(h'.t, h'.frontier) <==> NoneIsItsOwnParent(h.t, b)
    ensures Names(h'.t) <= Names(h.t)
    ensures Acked(h') == Acked(h) * h'.t.Keys
  {
    LeavesHaveNoKids(h.t, h.frontier);
    PruneIsOneBubble(h, h', b, contained, c);
    var s, s' := Replica(h.t, h.frontier), Replica(h'.t, h'.frontier);
    BubbleKeepsFrontier(s, s', b, c.name, c.key);
    BubbleKeepsNames(s, s', b, c.name, c.key);
    AckedHistorySurvives(s, s', b, c.name, c.key, h.boundary, h'.boundary);
  }

  lemma CompletionKeepsGood(h: History, h': History, versions: set<Version>, p: Outcome)
    requires Completes(h, h', versions, p) && IsFrontier(h.t, h.frontier)
    ensures IsFrontier(h'.t, h'.frontier) <==> NoneIsItsOwnParent(h.t, p.b)
    ensures Names(h'.t) <= Names(h.t)
    ensures Acked(h') == (Acked(h) + Ancestors(h.t, versions)) * h'.t.Keys
  {
    PruneKeepsGood(h.(boundary := p.boundary), h', p.b, p.contained, p.c);
  }

  // ---------- one event ----------

  lemma EditIsFresh(id: string, s: State)
    requires Good(id, s)
    ensures Unmentioned(s.h.t, Version(OwnName(id, s.count + 1)), s.h.frontier)
    ensures OwnName(id, s.count + 2) !in s.net.ackmes
  {
    assert s.h.frontier <= s.h.t.Keys by { assert forall x :: x in s.h.frontier ==> IsLeaf(s.h.t, x); }
    NextNameIsFresh(id, s.count, s.net.ackmes, s.h.t, s.h.frontier);
  }

  lemma DeliverKeepsGood(id: string, s: State, s': State, version: Version, parents: set<Version>)
    requires Moves(id, s, s', Deliver(version, parents)) && FreshNames(id, s, Deliver(version, parents)) && Good(id, s)
    ensures Good(id, s')
  {
    if version !in s.h.t {
      AddKeepsFrontier(s.h.t, s.h.frontier, version, parents);
      assert Names(s'.h.t) <= Names(s.h.t) + {version} + parents;
    }
  }

  lemma EditKeepsGood(id: string, s: State, s': State, conns: R.Conns, now: int)
    requires Moves(id, s, s', EditHere(conns, now)) && Good(id, s)
    ensures Good(id, s')
  {
    var n := s.count + 1;
    EditIsFresh(id, s);
    AddKeepsFrontier(s.h.t, s.h.frontier, Version(OwnName(id, n)), s.h.frontier);
    assert s.h.frontier <= s.h.t.Keys by { assert forall x :: x in s.h.frontier ==> IsLeaf(s.h.t, x); }
    assert NamesAhead(id, s'.count, s.net.ackmes, s.h.t);
    EntryKeepsNames(id, n, s'.count, s.net.ackmes, s.h.t, s.h.frontier);
    if conns != map[] {
      var m := R.AckmeState(None, |conns|, s'.h.frontier, s'.count, now, |conns|, false);
      AskKeepsNames(id, s.count + 2, s'.count, s.net.ackmes, s'.h.t, m);
    }
  }

  lemma RoundKeepsNames(id: string, s: State, s': State)
    requires NamesAhead(id, s.count, s.net.ackmes, s.h.t) && s'.count >= s.count && Names(s'.h.t) <= Names(s.h.t)
    requires forall a :: a in s'.net.ackmes && a !in s.net.ackmes ==> NotOurs(id, s.count, a)
    ensures NamesAhead(id, s'.count, s'.net.ackmes, s'.h.t)
  {
  }

  lemma AckKeepsGood(id: string, s: State, s': State, e: Event)
    requires Moves(id, s, s', e) && e.Ack? && ForeignRounds(id, s, e) && Good(id, s)
    ensures Good(id, s') <==> NoSelfParents(s, e)
  {
    var ackme := e.ackme;
    R.AckAddsOneRound(s.net, s'.net, e.conns, ackme, e.versions, e.conn, s.count + 1, e.now);
    if HasPruning(s, e) {
      var versions := if ackme in s.net.ackmes then s.net.ackmes[ackme].versions else e.versions;
      assert Completes(s.h, s'.h, versions, e.p);
      CompletionKeepsGood(s.h, s'.h, versions, e.p);
    } else {
      assert s'.h == s.h;
    }
    assert NamesAhead(id, s'.count, s'.net.ackmes, s'.h.t) by { RoundKeepsNames(id, s, s'); }
  }

  lemma FullAckKeepsGood(id: string, s: State, s': State, e: Event)
    requires Moves(id, s, s', e) && e.FullAck? && Good(id, s)
    ensures Good(id, s') <==> NoSelfParents(s, e)
  {
    if HasPruning(s, e) { CompletionKeepsGood(s.h, s'.h, s.net.ackmes[e.ackme].versions, e.p); }
    RoundKeepsNames(id, s, s');
  }

  /** Every event with fresh names keeps the frontier exact and the replica's next names unused,
      unless its pruning leaves a version its own parent. */
  lemma MoveKeepsGood(id: string, s: State, s': State, e: Event)
    requires Moves(id, s, s', e) && ForeignRounds(id, s, e) && FreshNames(id, s, e) && Good(id, s)
    ensures Good(id, s') <==> NoSelfParents(s, e)
  {
    match e {
      case Deliver(version, parents) => DeliverKeepsGood(id, s, s', version, parents);
      case EditHere(conns, now) => EditKeepsGood(id, s, s', conns, now);
      case Ack(_, _, _, _, _, _) => AckKeepsGood(id, s, s', e);
      case FullAck(_, _, _, _) => FullAckKeepsGood(id, s, s', e);
      case Timeout(_, _, _, p) =>
        if HasPruning(s, e) { PruneKeepsGood(s.h, s'.h, p.b, p.contained, p.c); }
        RoundKeepsNames(id, s, s');
      case SetFissures(_) =>
      case Connect =>
    }
  }

  lemma AddKeepsAcked(h: History, version: Version, parents: set<Version>, w: Version)
    requires version !in h.t && w in Acked(h)
    ensures w in Ancestors(AddEntry(h.t, version, parents), h.boundary)
  {
    var d :| d in h.boundary && IsAncestor(h.t, w, d);
    AncestryGrows(h.t, version, parents, w, d);
    BothExist(h.t, w, d);
  }

  /** Some round is cancelled that was not. */
  ghost predicate CancelsRound(n: R.Net, n': R.Net) {
    exists a :: a in n'.ackmes && n'.ackmes[a].cancelled && !(a in n.ackmes && n.ackmes[a].cancelled)
  }

  lemma AckCancels(id: string, s: State, s': State, e: Event)
    requires Moves(id, s, s', e) && e.Ack?
    ensures HasPruning(s, e) <==> CancelsRound(s.net, s'.net)
  {
    CompletionIsCancellation(s.net, s'.net, e.conns, e.ackme, e.versions, e.conn, s.count + 1, e.now);
    R.AckTouchesOneRound(s.net, s'.net, e.conns, e.ackme, e.versions, e.conn, s.count + 1, e.now);
  }

  /** An event brings a pruning with it exactly when it cancels a round, be it completed or given up. */
  lemma PruningIsCancellation(id: string, s: State, s': State, e: Event)
    requires Moves(id, s, s', e)
    ensures HasPruning(s, e) <==> CancelsRound(s.net, s'.net)
  {
    match e {
      case Ack(_, _, _, _, _, _) => AckCancels(id, s, s', e);
      case FullAck(_, ackme, _, _) =>
        if HasPruning(s, e) { assert s'.net.ackmes[ackme].cancelled; }
      case Timeout(ackme, now, waitTime, _) => R.TimeoutGivesUp(s.net, s'.net, ackme, now, waitTime);
      case _ =>
    }
  }

  /** No event takes an acknowledged version out of the acknowledged history, other than by
      collapsing it. */
  lemma MoveKeepsAcked(id: string, s: State, s': State, e: Event, w: Version)
    requires Moves(id, s, s', e) && Good(id, s)
    requires w in Acked(s.h) && w in s'.h.t
    ensures w in Acked(s'.h)
  {
    match e {
      case Deliver(version, parents) =>
        if version !in s.h.t { AddKeepsAcked(s.h, version, parents, w); }
      case EditHere(conns, now) =>
        EditIsFresh(id, s);
        AddKeepsAcked(s.h, Version(OwnName(id, s.count + 1)), s.h.frontier, w);
      case Ack(_, ackme, versions, _, _, p) =>
        if HasPruning(s, e) {
          CompletionKeepsGood(s.h, s'.h, if ackme in s.net.ackmes then s.net.ackmes[ackme].versions else versions, p);
        }
      case FullAck(_, ackme, _, p) =>
        if HasPruning(s, e) { CompletionKeepsGood(s.h, s'.h, s.net.ackmes[ackme].versions, p); }
      case Timeout(_, _, _, p) =>
        if HasPruning(s, e) { PruneKeepsGood(s.h, s'.h, p.b, p.contained, p.c); }
      case SetFissures(_) =>
      case Connect =>
    }
  }

  lemma ToldAreUpdates(before: seq<R.Message>, between: seq<R.Message>, after: seq<R.Message>, cs: set<string>,
                       v: Version,
                       w: Version, parents: set<Version>, ackme: string)
    requires Tells(before, between, cs, v, parents, ackme) && Tells(between, after, cs, w, parents, ackme)
    ensures before <= after && forall i :: |before| <= i < |after| ==> after[i].Update?
  {
    forall i | |before| <= i < |after| ensures after[i].Update? {
      if i < |between| { assert after[i] == between[i]; }
    }
  }

  lemma EditAsks(n: R.Net, n': R.Net, conns: R.Conns, ackme: string, version: Version, frontier: set<Version>,
                 seqNo: nat, now: int)
    requires EditTold(n, n', conns, ackme, version, frontier, seqNo, now) && ackme !in n.ackmes
    ensures R.Steps(n, n')
  {
    var between :| Tells(n.sent, between, conns.Keys, Version(""), frontier, ackme)
                   && Tells(between, n'.sent, conns.Keys, version, frontier, ackme);
    ToldAreUpdates(n.sent, between, n'.sent, conns.Keys, Version(""), version, frontier, ackme);
    assert R.Step(n, n', conns, R.Ask(ackme, frontier, seqNo), now);
  }

  /** Every event whose rounds have names of their own keeps the next round names unused. */
  lemma MoveKeepsRoundsAhead(id: string, s: State, s': State, e: Event)
    requires Moves(id, s, s', e) && ForeignRounds(id, s, e) && RoundsAhead(id, s)
    ensures RoundsAhead(id, s')
  {
    if e.EditHere? && e.conns != map[] {
      NamesDiffer(id, s.count + 2);
    } else {
      assert forall a :: a in s'.net.ackmes && a !in s.net.ackmes ==> NotOurs(id, s.count, a);
    }
  }

  lemma NothingIsSaid(n: R.Net)
    ensures R.Steps(n, n)
  {
    assert n.sent + [] == n.sent;
    assert R.Step(n, n, map[], R.Say([]), 0);
  }

  /** Seen from the rounds, every event of a replica is an event of theirs, whatever is pruned. */
  lemma MoveIsRound(id: string, s: State, s': State, e: Event)
    requires Moves(id, s, s', e) && RoundsAhead(id, s)
    ensures R.Steps(s.net, s'.net)
  {
    match e {
      case EditHere(conns, now) =>
        if conns != map[] {
          EditAsks(s.net, s'.net, conns, OwnName(id, s.count + 2), Version(OwnName(id, s.count + 1)), s'.h.frontier,
              s'.count, now);
        } else {
          NothingIsSaid(s.net);
        }
      case Ack(conns, ackme, versions, conn, now, _) =>
        assert R.Step(s.net, s'.net, conns, R.Process(ackme, versions, conn, s.count + 1), now);
      case FullAck(conns, ackme, ignoring, _) =>
        assert R.Step(s.net, s'.net, conns, R.FullAck(ackme, ignoring), 0);
      case Timeout(ackme, now, waitTime, _) =>
        assert R.Step(s.net, s'.net, map[], R.Timeout(ackme, waitTime), now);
      case Deliver(_, _) => NothingIsSaid(s.net);
      case SetFissures(_) => NothingIsSaid(s.net);
      case Connect => NothingIsSaid(s.net);
    }
  }

  // ---------- whole runs ----------

  /** A run: any events in any order. */
  ghost predicate IsRun(id: string, run: seq<State>, events: seq<Event>) {
    && |run| == |events| + 1 && run[0] == State(History(map[], {}, map[], {}, []), R.Net(map[], []), 0)
    && forall i :: 0 <= i < |events| ==>
       Moves(id, run[i], run[i + 1], events[i]) && ForeignRounds(id, run[i], events[i])
  }

  /** A run in which new versions have fresh names and no version becomes its own parent. */
  ghost predicate IsOrderly(id: string, run: seq<State>, events: seq<Event>)
    requires |run| == |events| + 1
  {
    forall i :: 0 <= i < |events| ==> FreshNames(id, run[i], events[i]) && NoSelfParents(run[i], events[i])
  }

  lemma {:induction false} RunStaysGood(id: string, run: seq<State>, events: seq<Event>, i: nat)
    requires IsRun(id, run, events) && IsOrderly(id, run, events) && i < |run|
    ensures Good(id, run[i])
  {
    if i > 0 {
      RunStaysGood(id, run, events, i - 1);
      MoveKeepsGood(id, run[i - 1], run[i], events[i - 1]);
    }
  }

  /** Along every orderly run the frontier is exactly the leaves, none above another, and between
      them they are below every version. */
  lemma RunsKeepFrontier(id: string, run: seq<State>, events: seq<Event>, i: nat)
    requires IsRun(id, run, events) && IsOrderly(id, run, events) && i < |run|
    ensures IsFrontier(run[i].h.t, run[i].h.frontier)
    ensures forall a, d :: a in run[i].h.frontier && d in run[i].h.frontier && IsAncestor(run[i].h.t, a, d) ==> a == d
  {
    RunStaysGood(id, run, events, i);
    var h := run[i].h;
    forall a, d | a in h.frontier && d in h.frontier && IsAncestor(h.t, a, d) ensures a == d {
      FrontierIsAntichain(h.t, h.frontier, a, d);
    }
  }

  lemma PruningHasOneName(id: string, s: State, s': State, e: Event)
    requires Moves(id, s, s', e) && Good(id, s) && PrunesOneVersion(s, e)
    ensures NoSelfParents(s, e)
  {
    if HasPruning(s, e) {
      LeavesHaveNoKids(s.h.t, s.h.frontier);
      OneVersionKeepsItsName(s.h.(boundary := e.p.boundary), s'.h, e.p.b, e.p.contained, e.p.c);
    }
  }

  lemma {:induction false} OneVersionStepsAreOrderly(id: string, run: seq<State>, events: seq<Event>, n: nat)
    requires IsRun(id, run, events) && n <= |events|
    requires forall i :: 0 <= i < n ==> FreshNames(id, run[i], events[i]) && PrunesOneVersion(run[i], events[i])
    ensures Good(id, run[n]) && forall i :: 0 <= i < n ==> NoSelfParents(run[i], events[i])
  {
    if n > 0 {
      OneVersionStepsAreOrderly(id, run, events, n - 1);
      PruningHasOneName(id, run[n - 1], run[n], events[n - 1]);
      MoveKeepsGood(id, run[n - 1], run[n], events[n - 1]);
    }
  }

  /** A safe pruning that is one step of the graph. */
  ghost predicate IsCleanStep(h: History, h': History, p: Outcome) {
    IsSafe(h.(boundary := p.boundary), h', p.b)
    && Prunes(Replica(h.t, h.frontier), Replica(h'.t, h'.frontier), p.b, p.c)
  }

  lemma CleanStep(h: History, h': History, p: Outcome)
    requires PruneStep(h.(boundary := p.boundary), h', p.b, p.contained, p.c)
    requires IsFrontier(h.t, h.frontier) && |h.frontier| <= 1 && (GroupsStandAlone(h.t) || |p.c.top| == 1)
    ensures IsCleanStep(h, h', p)
  {
    LeavesHaveNoKids(h.t, h.frontier);
    OneVersionPrunesCleanly(h.(boundary := p.boundary), h', p.b, p.contained, p.c);
  }

  /** Prunings that may not leave their region: sibling groups stand alone, or the top is none. */
  ghost predicate PrunesContained(s: State, e: Event) {
    HasPruning(s, e) && (GroupsStandAlone(s.h.t) || |e.p.c.top| == 1)
  }

  /** With fresh names, and prunings that wait for a single frontier version, a run is orderly, and
      every pruning is safe and one step of the graph if sibling groups stand alone before it or
      its top is no sibling group. */
  lemma OneVersionRunsAreOrderly(id: string, run: seq<State>, events: seq<Event>)
    requires IsRun(id, run, events)
    requires forall i :: 0 <= i < |events| ==> FreshNames(id, run[i], events[i]) && PrunesOneVersion(run[i], events[i])
    ensures IsOrderly(id, run, events)
    ensures forall i :: 0 <= i < |events| && PrunesContained(run[i], events[i]) ==>
                IsCleanStep(run[i].h, run[i + 1].h, events[i].p)
  {
    OneVersionStepsAreOrderly(id, run, events, |events|);
    forall i | 0 <= i < |events| && PrunesContained(run[i], events[i])
      ensures IsCleanStep(run[i].h, run[i + 1].h, events[i].p)
    {
      OneVersionStepsAreOrderly(id, run, events, i);
      CleanStep(run[i].h, run[i + 1].h, events[i].p);
    }
  }

  /** A pruning collapses nothing before everything is acknowledged, and is safe exactly when it
      keeps to its region or nothing above the strays is restricted. */
  ghost predicate PrunesAsPromised(h: History, h': History, p: Outcome) {
    && (p.b != map[] ==> Acked(h) == h.t.Keys)
    && (IsSafe(h, h', p.b) <==> p.contained || Above(h.t, Strays(h.t, p.c.order, p.c.top)) !! RestrictedIn(h, h'))
  }

  lemma PruneDelivers(h: History, h': History, p: Outcome)
    requires PruneStep(h, h', p.b, p.contained, p.c) && IsFrontier(h.t, h.frontier)
    ensures PrunesAsPromised(h, h', p)
  {
    LeavesHaveNoKids(h.t, h.frontier);
    PruneIsSafeIff(h, h', p.b, p.contained, p.c);
    if p.b != map[] { PruneNeedsWholeHistory(h, h', p.b, p.contained, p.c); }
  }

  /** Every pruning of an orderly run is such a one. */
  lemma RunsPruneAsPromised(id: string, run: seq<State>, events: seq<Event>, i: nat)
    requires IsRun(id, run, events) && IsOrderly(id, run, events) && i < |events| && HasPruning(run[i], events[i])
    ensures PrunesAsPromised(run[i].h.(boundary := events[i].p.boundary), run[i + 1].h, events[i].p)
  {
    RunStaysGood(id, run, events, i);
    PruneDelivers(run[i].h.(boundary := events[i].p.boundary), run[i + 1].h, events[i].p);
  }

  /** What stays in from each set to the next, as long as it is there at all, stays in throughout. */
  lemma {:induction false} StaysIn(sets: seq<set<Version>>, present: seq<set<Version>>, i: nat, j: nat, w: Version)
    requires |sets| == |present| && i <= j < |sets|
    requires forall k :: 0 < k < |sets| ==> sets[k - 1] * present[k] <= sets[k]
    requires w in sets[i] && forall k :: i <= k <= j ==> w in present[k]
    ensures w in sets[j]
    decreases j - i
  {
    if i < j { StaysIn(sets, present, i, j - 1, w); }
  }

  /** Along every orderly run a version once acknowledged counts as acknowledged for as long as it exists. */
  lemma RunsKeepAcked(id: string, run: seq<State>, events: seq<Event>, i: nat, j: nat, w: Version)
    requires IsRun(id, run, events) && IsOrderly(id, run, events) && i <= j < |run|
    requires w in Acked(run[i].h) && forall k :: i <= k <= j ==> w in run[k].h.t
    ensures w in Acked(run[j].h)
  {
    var sets := seq(|run|, k requires 0 <= k < |run| => Acked(run[k].h));
    var present := seq(|run|, k requires 0 <= k < |run| => run[k].h.t.Keys);
    forall k | 0 < k < |run| ensures sets[k - 1] * present[k] <= sets[k] {
      RunStaysGood(id, run, events, k - 1);
      forall v | v in sets[k - 1] * present[k] ensures v in sets[k] {
        MoveKeepsAcked(id, run[k - 1], run[k], events[k - 1], v);
      }
    }
    StaysIn(sets, present, i, j, w);
  }

  lemma {:induction false} RunKeepsRoundsAhead(id: string, run: seq<State>, events: seq<Event>, i: nat)
    requires IsRun(id, run, events) && i < |run|
    ensures RoundsAhead(id, run[i])
  {
    if i > 0 {
      RunKeepsRoundsAhead(id, run, events, i - 1);
      MoveKeepsRoundsAhead(id, run[i - 1], run[i], events[i - 1]);
    }
  }

  /** Along every run, orderly or not, each round sends at most one local ack, at most one global
      ack to each connection, and nothing more once it is cancelled. */
  lemma RunsFireOnce(id: string, run: seq<State>, events: seq<Event>, i: nat, j: nat, ackme: string, conn: string)
    requires IsRun(id, run, events) && i <= j < |run|
    ensures R.LocalAcks(run[j].net.sent, ackme) <= 1 && R.GlobalAcks(run[j].net.sent, ackme, conn) <= 1
    ensures ackme in run[i].net.ackmes && run[i].net.ackmes[ackme].cancelled ==>
              && R.LocalAcks(run[j].net.sent, ackme) == R.LocalAcks(run[i].net.sent, ackme)
              && R.GlobalAcks(run[j].net.sent, ackme, conn) == R.GlobalAcks(run[i].net.sent, ackme, conn)
  {
    var nets := seq(|run|, k requires 0 <= k < |run| => run[k].net);
    forall k | 0 < k < |nets| ensures R.Steps(nets[k - 1], nets[k]) {
      RunKeepsRoundsAhead(id, run, events, k - 1);
      MoveIsRound(id, run[k - 1], run[k], events[k - 1]);
    }
    R.RoundsFireOnce(nets, i, j, ackme, conn);
  }
}
