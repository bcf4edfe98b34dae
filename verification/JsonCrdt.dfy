/** The causally checked copy of the version graph, and bringing a peer up to date. */
module JsonGraph {
  import opened VersionGraph
  import opened Bubble
  import opened Quotient

  const ROOT := Version("root")

  datatype VersionUpdate = VersionUpdate(version: Version, parents: set<Version>)

  predicate ParentsKnown(t: Graph, parents: set<Version>) {
    forall p | p in parents :: p in t || p == ROOT
  }

  /** `add_version` on the graph: skipped when a parent is missing. */
  function Receive(s: Replica, u: VersionUpdate): Replica {
    if ParentsKnown(s.t, u.parents)
    then Replica(AddEntry(s.t, u.version, u.parents), AddToFrontier(s.frontier, u.version, u.parents))
    else s
  }

  /** A version is entered, over any older entry, exactly when every parent is known or is called
      "root"; it then stands on the frontier in place of its parents. */
  lemma ReceivedIffParentsKnown(s: Replica, u: VersionUpdate)
    ensures (forall p :: p in u.parents ==> p in s.t || p.name == "root") ==>
              var s' := Receive(s, u);
              && s'.t.Keys == s.t.Keys + {u.version} && s'.t[u.version] == u.parents
              && (forall v :: v in s.t && v != u.version ==> s'.t[v] == s.t[v])
              && forall v :: v in s'.frontier <==> v == u.version || (v in s.frontier && v !in u.parents)
    ensures (exists p :: p in u.parents && p !in s.t && p.name != "root") ==> Receive(s, u) == s
  {
  }

  function ReceiveAll(s: Replica, us: seq<VersionUpdate>): Replica {
    if us == [] then s else Receive(ReceiveAll(s, us[..|us| - 1]), us[|us| - 1])
  }

  // ---------- acyclic and causally closed ----------

  /** `order` lists all versions, parents before children. */
  ghost predicate Linearized(t: Graph, order: seq<Version>) {
    && Members(order) == t.Keys
    && forall i :: 0 <= i < |order| ==>
       order[i] !in order[..i] && order[i] in t && t[order[i]] <= Members(order[..i]) + {ROOT}
  }

  ghost predicate CausallyClosed(t: Graph) {
    ROOT !in t && forall v :: v in t ==> t[v] <= t.Keys + {ROOT}
  }

  ghost predicate Acyclic(t: Graph) {
    && (forall v :: v in t ==> v !in t[v])
    && forall a, d :: IsAncestor(t, a, d) && IsAncestor(t, d, a) ==> a == d
  }

  lemma PrefixHoldsAncestors(t: Graph, order: seq<Version>, k: nat, a: Version)
    requires ROOT !in t && Linearized(t, order) && k < |order| && IsAncestor(t, a, order[k])
    ensures a in order[..k + 1]
  {
    var s := Members(order[..k + 1]);
    forall x | x in s ensures t[x] * t.Keys <= s {
      var i :| 0 <= i <= k && order[i] == x;
      assert Members(order[..i]) <= s;
    }
    AncestorsAreLeast(t, {order[k]}, s);
    AncestorsOfOne(t, a, order[k]);
  }

  lemma AncestorsOfOne(t: Graph, a: Version, d: Version)
    requires IsAncestor(t, a, d)
    ensures a in Ancestors(t, {d})
  {
    BothExist(t, a, d);
  }

  lemma LinearizedIsAcyclic(t: Graph, order: seq<Version>)
    requires ROOT !in t && Linearized(t, order)
    ensures Acyclic(t) && CausallyClosed(t)
  {
    forall v | v in t ensures v !in t[v] && t[v] <= t.Keys + {ROOT} {
      assert v in Members(order);
      var i :| 0 <= i < |order| && order[i] == v;
    }
    forall a, d | IsAncestor(t, a, d) && IsAncestor(t, d, a) ensures a == d {
      AncestorsOfOne(t, a, d);
      AncestorsOfOne(t, d, a);
      assert a in Members(order) && d in Members(order);
      var i :| 0 <= i < |order| && order[i] == a;
      var j :| 0 <= j < |order| && order[j] == d;
      PrefixHoldsAncestors(t, order, j, a);
      PrefixHoldsAncestors(t, order, i, d);
      assert order[i] !in order[..i] && order[j] !in order[..j];
      assert i == j;
    }
  }

  // ---------- runs ----------

  /** Fresh names only: unknown, and not the name that stands for the empty history. */
  ghost predicate IsGraphRun(run: seq<Replica>, us: seq<VersionUpdate>) {
    && |run| == |us| + 1
    && (run[0] == Replica(map[], {}) || exists v :: v != ROOT && run[0] == Replica(map[v := {}], {v}))
    && forall i :: 0 <= i < |us| ==>
         us[i].version !in run[i].t && us[i].version != ROOT && run[i + 1] == Receive(run[i], us[i])
  }

  lemma ReceiveKeepsOrder(s: Replica, u: VersionUpdate, order: seq<Version>) returns (order': seq<Version>)
    requires ROOT !in s.t && Linearized(s.t, order) && IsFrontier(s.t, s.frontier)
    requires u.version !in s.t && u.version != ROOT
    ensures ROOT !in Receive(s, u).t && Linearized(Receive(s, u).t, order')
    ensures IsFrontier(Receive(s, u).t, Receive(s, u).frontier)
  {
    order' := order;
    if ParentsKnown(s.t, u.parents) {
      LinearizedIsAcyclic(s.t, order);
      AddKeepsFrontier(s.t, s.frontier, u.version, u.parents);
      order' := order + [u.version];
      var t' := Receive(s, u).t;
      assert Members(order') == Members(order) + {u.version};
      forall i | 0 <= i < |order'|
        ensures order'[i] !in order'[..i] && order'[i] in t' && t'[order'[i]] <= Members(order'[..i]) + {ROOT}
      {
        if i < |order| {
          assert order'[..i] == order[..i];
          assert order[i] in s.t;
        } else {
          assert order'[..i] == order;
          assert u.version !in Members(order);
        }
      }
    }
  }

  lemma {:induction false} RunOrder(run: seq<Replica>, us: seq<VersionUpdate>, i: nat) returns (order: seq<Version>)
    requires IsGraphRun(run, us) && i < |run|
    ensures ROOT !in run[i].t && Linearized(run[i].t, order) && IsFrontier(run[i].t, run[i].frontier)
  {
    if i == 0 {
      order := [];
      if run[0] != Replica(map[], {}) {
        var v :| v != ROOT && run[0] == Replica(map[v := {}], {v});
        order := [v];
        AncestorOfItself(run[0].t, v);
      }
    } else {
      order := RunOrder(run, us, i - 1);
      order := ReceiveKeepsOrder(run[i - 1], us[i - 1], order);
    }
  }

  /** Along every run with fresh names the graph is acyclic and causally closed, and the
      frontier is exactly its leaves. */
  lemma RunsStayCausal(run: seq<Replica>, us: seq<VersionUpdate>, i: nat)
    requires IsGraphRun(run, us) && i < |run|
    ensures Acyclic(run[i].t) && CausallyClosed(run[i].t) && IsFrontier(run[i].t, run[i].frontier)
  {
    var order := RunOrder(run, us, i);
    LinearizedIsAcyclic(run[i].t, order);
  }

  // ---------- what a peer is missing ----------

  /** The list holds exactly the versions outside `history`, once each. */
  ghost predicate IsBraid(t: Graph, history: set<Version>, us: seq<VersionUpdate>) {
    && (forall i :: 0 <= i < |us| ==>
          us[i].version in t && us[i].version !in history && us[i].parents == t[us[i].version])
    && (forall i, j :: 0 <= i < j < |us| ==> us[i].version != us[j].version)
    && t.Keys - history <= Versions(us)
  }

  /** The peer holds exactly `history`, which is closed under parents. */
  ghost predicate HoldsHistory(p: Replica, t: Graph, history: set<Version>) {
    && history <= t.Keys && ParentClosed(t, history)
    && p.t == (map x | x in history :: t[x]) && IsFrontier(p.t, p.frontier)
  }

  /** Every update's parents are known to the peer or sent before it. */
  ghost predicate Causal(t: Graph, us: seq<VersionUpdate>) {
    forall i :: 0 <= i < |us| ==> us[i].parents <= t.Keys + Versions(us[..i]) + {ROOT}
  }

  ghost function Versions(us: seq<VersionUpdate>): set<Version> {
    set u | u in us :: u.version
  }

  lemma FrontierIsUnique(t: Graph, f: set<Version>, g: set<Version>)
    requires IsFrontier(t, f) && IsFrontier(t, g)
    ensures f == g
  {
    forall x ensures x in f <==> x in g {}
  }

  /** After a causal prefix the peer holds its history and that prefix, and nothing else. */
  ghost predicate CaughtUp(t: Graph, p: Replica, us: seq<VersionUpdate>, s: Replica) {
    && s.t.Keys == p.t.Keys + Versions(us)
    && (forall v :: v in s.t ==> v in t && s.t[v] == t[v])
    && CausallyClosed(s.t) && IsFrontier(s.t, s.frontier)
  }

  lemma HistoryIsClosed(t: Graph, p: Replica, history: set<Version>)
    requires CausallyClosed(t) && HoldsHistory(p, t, history)
    ensures CaughtUp(t, p, [], p)
  {
  }

  lemma CatchUpOne(t: Graph, p: Replica, us: seq<VersionUpdate>, s: Replica, u: VersionUpdate)
    requires CausallyClosed(t) && CaughtUp(t, p, us, s)
    requires u.version in t && u.version !in s.t && u.parents == t[u.version] && ParentsKnown(s.t, u.parents)
    ensures CaughtUp(t, p, us + [u], Receive(s, u))
  {
    AddKeepsFrontier(s.t, s.frontier, u.version, u.parents);
    assert Versions(us + [u]) == Versions(us) + {u.version};
  }

  /** The first `i` updates each find their parents known. */
  ghost predicate CausalUpTo(t: Graph, us: seq<VersionUpdate>, i: nat)
    requires i <= |us|
  {
    forall j :: 0 <= j < i ==> us[j].parents <= t.Keys + Versions(us[..j]) + {ROOT}
  }

  lemma NextIsNew(t: Graph, p: Replica, history: set<Version>, us: seq<VersionUpdate>, i: nat, s: Replica)
    requires HoldsHistory(p, t, history) && IsBraid(t, history, us) && i < |us| && CaughtUp(t, p, us[..i], s)
    ensures us[i].version in t && us[i].version !in s.t && us[i].parents == t[us[i].version]
    ensures ParentsKnown(s.t, us[i].parents) <==> us[i].parents <= p.t.Keys + Versions(us[..i]) + {ROOT}
  {
    forall u | u in us[..i] ensures u.version != us[i].version {
      var j :| 0 <= j < i && us[j] == u;
    }
  }

  lemma CausalPrefixStep(t: Graph, p: Replica, us: seq<VersionUpdate>, i: nat, s: Replica)
    requires CausallyClosed(t) && i < |us| && CaughtUp(t, p, us[..i], s) && s == ReceiveAll(p, us[..i])
    requires us[i].version in t && us[i].version !in s.t && us[i].parents == t[us[i].version] &&
             ParentsKnown(s.t, us[i].parents)
    ensures CaughtUp(t, p, us[..i + 1], ReceiveAll(p, us[..i + 1]))
  {
    CatchUpOne(t, p, us[..i], s, us[i]);
    assert us[..i + 1] == us[..i] + [us[i]] && us[..i + 1][..i] == us[..i];
  }

  lemma {:induction false} CausalPrefix(t: Graph, p: Replica, history: set<Version>, us: seq<VersionUpdate>, i: nat)
    requires CausallyClosed(t) && HoldsHistory(p, t, history) && IsBraid(t, history, us) && i <= |us| &&
             CausalUpTo(p.t, us, i)
    ensures CaughtUp(t, p, us[..i], ReceiveAll(p, us[..i]))
    decreases i
  {
    if i == 0 {
      HistoryIsClosed(t, p, history);
      assert us[..0] == [];
    } else {
      CausalPrefix(t, p, history, us, i - 1);
      var s := ReceiveAll(p, us[..i - 1]);
      NextIsNew(t, p, history, us, i - 1, s);
      CausalPrefixStep(t, p, us, i - 1, s);
    }
  }

  lemma {:induction false} ReceiveInTwo(s: Replica, us: seq<VersionUpdate>, k: nat)
    requires k <= |us|
    ensures ReceiveAll(s, us) == ReceiveAll(ReceiveAll(s, us[..k]), us[k..])
    decreases |us|
  {
    if k == |us| {
      assert us[..k] == us && us[k..] == [];
    } else {
      var w, rest := us[..|us| - 1], us[k..];
      assert rest[..|rest| - 1] == w[k..] && w[..k] == us[..k] && rest[|rest| - 1] == us[|us| - 1];
      ReceiveInTwo(s, w, k);
    }
  }

  lemma {:induction false} NothingFromNowhere(s: Replica, us: seq<VersionUpdate>)
    ensures ReceiveAll(s, us).t.Keys <= s.t.Keys + Versions(us)
  {
    if us != [] {
      var w := us[..|us| - 1];
      NothingFromNowhere(s, w);
      assert us == w + [us[|us| - 1]];
      assert Versions(us) == Versions(w) + {us[|us| - 1].version};
    }
  }

  lemma LaterVersionsDiffer(t: Graph, history: set<Version>, us: seq<VersionUpdate>, i: nat)
    requires IsBraid(t, history, us) && i < |us|
    ensures us[i].version !in Versions(us[i + 1..])
  {
    forall u | u in us[i + 1..] ensures u.version != us[i].version {
      var j :| 0 <= j < |us[i + 1..]| && us[i + 1..][j] == u;
      assert us[i + 1 + j] == u;
    }
  }

  /** A skipped update is lost for good: nobody sends its version again. */
  lemma SkippedIsLost(t: Graph, p: Replica, history: set<Version>, us: seq<VersionUpdate>, i: nat)
    requires CausallyClosed(t) && HoldsHistory(p, t, history) && IsBraid(t, history, us) && i < |us| &&
             CausalUpTo(p.t, us, i)
    requires !(us[i].parents <= p.t.Keys + Versions(us[..i]) + {ROOT})
    ensures us[i].version !in ReceiveAll(p, us).t
  {
    CausalPrefix(t, p, history, us, i);
    NextIsNew(t, p, history, us, i, ReceiveAll(p, us[..i]));
    ReceiveInTwo(p, us, i + 1);
    assert us[..i + 1][..i] == us[..i] && us[..i + 1][i] == us[i];
    assert ReceiveAll(p, us[..i + 1]) == ReceiveAll(p, us[..i]);
    NothingFromNowhere(ReceiveAll(p, us[..i + 1]), us[i + 1..]);
    LaterVersionsDiffer(t, history, us, i);
  }

  lemma BraidCoversTheRest(t: Graph, p: Replica, history: set<Version>, us: seq<VersionUpdate>)
    requires HoldsHistory(p, t, history) && IsBraid(t, history, us)
    ensures p.t.Keys + Versions(us) == t.Keys
  {
  }

  lemma CaughtUpWithAll(t: Graph, frontier: set<Version>, p: Replica, us: seq<VersionUpdate>, s: Replica)
    requires IsFrontier(t, frontier) && CaughtUp(t, p, us, s) && p.t.Keys + Versions(us) == t.Keys
    ensures s == Replica(t, frontier)
  {
    assert s.t == t;
    FrontierIsUnique(t, frontier, s.frontier);
  }

  lemma CausalBraidCompletes(t: Graph, frontier: set<Version>, p: Replica, history: set<Version>,
                             us: seq<VersionUpdate>)
    requires CausallyClosed(t) && IsFrontier(t, frontier) && HoldsHistory(p, t, history) && IsBraid(t, history, us)
    requires CausalUpTo(p.t, us, |us|)
    ensures ReceiveAll(p, us) == Replica(t, frontier)
  {
    CausalPrefix(t, p, history, us, |us|);
    assert us[..|us|] == us;
    BraidCoversTheRest(t, p, history, us);
    CaughtUpWithAll(t, frontier, p, us, ReceiveAll(p, us));
  }

  /** A peer holding exactly the history of what it named ends with the sender's graph and
      frontier exactly when the updates come in causal order. */
  lemma BraidSyncs(t: Graph, frontier: set<Version>, p: Replica, history: set<Version>, us: seq<VersionUpdate>)
    requires CausallyClosed(t) && IsFrontier(t, frontier) && HoldsHistory(p, t, history) && IsBraid(t, history, us)
    ensures ReceiveAll(p, us) == Replica(t, frontier) <==> Causal(p.t, us)
  {
    var i := 0;
    while i < |us| && us[i].parents <= p.t.Keys + Versions(us[..i]) + {ROOT}
      invariant i <= |us| && CausalUpTo(p.t, us, i)
      decreases |us| - i
    {
      i := i + 1;
    }
    if i < |us| {
      SkippedIsLost(t, p, history, us, i);
    } else {
      CausalBraidCompletes(t, frontier, p, history, us);
    }
  }

  lemma {:induction false} ListVersions(t: Graph, s: set<Version>) returns (us: seq<VersionUpdate>)
    requires s <= t.Keys
    ensures forall i :: 0 <= i < |us| ==> us[i].version in s && us[i].parents == t[us[i].version]
    ensures forall i, j :: 0 <= i < j < |us| ==> us[i].version != us[j].version
    ensures Versions(us) == s
    decreases s
  {
    us := [];
    if s != {} {
      var v :| v in s;
      us := ListVersions(t, s - {v});
      us := us + [VersionUpdate(v, t[v])];
      assert Versions(us) == s - {v} + {v};
    }
  }

  /** A braid may begin with any of the missing versions. */
  lemma BraidStartingWith(t: Graph, history: set<Version>, v: Version) returns (us: seq<VersionUpdate>)
    requires v in t && v !in history
    ensures IsBraid(t, history, us) && us != [] && us[0] == VersionUpdate(v, t[v])
  {
    var rest := ListVersions(t, t.Keys - history - {v});
    us := [VersionUpdate(v, t[v])] + rest;
    forall x | x in t.Keys - history ensures x in Versions(us) {
      if x == v {
        assert us[0].version == v;
      } else {
        assert x in Versions(rest);
        var u :| u in rest && u.version == x;
        assert u in us;
      }
    }
    forall i, k | 0 <= i < k < |us| ensures us[i].version != us[k].version {
      assert us[k] == rest[k - 1];
      if i > 0 { assert us[i] == rest[i - 1]; }
    }
  }

  /** No missing version hangs from another missing version. */
  ghost predicate HangsFromHistory(t: Graph, history: set<Version>) {
    forall v :: v in t && v !in history ==> t[v] <= history + {ROOT}
  }

  /** Every order in which the table may yield the missing versions brings the peer up to date
      exactly when none of them hangs from another one. */
  lemma EveryBraidSyncs(t: Graph, frontier: set<Version>, p: Replica, history: set<Version>)
    requires CausallyClosed(t) && IsFrontier(t, frontier) && HoldsHistory(p, t, history)
    ensures (forall us :: IsBraid(t, history, us) ==> ReceiveAll(p, us) == Replica(t, frontier)) <==>
            HangsFromHistory(t, history)
  {
    if HangsFromHistory(t, history) {
      forall us | IsBraid(t, history, us) ensures ReceiveAll(p, us) == Replica(t, frontier) {
        BraidSyncs(t, frontier, p, history, us);
      }
    } else {
      var v :| v in t && v !in history && !(t[v] <= history + {ROOT});
      var us := BraidStartingWith(t, history, v);
      assert us[..0] == [];
      BraidSyncs(t, frontier, p, history, us);
    }
  }

  /** The smallest failure: two versions, one on the other, sent to an empty peer in the wrong
      order.  The peer ends without the later one. */
  lemma TwoVersionsInWrongOrder(a: Version, b: Version)
    requires a != b && a != ROOT && b != ROOT
    ensures var ua, ub := VersionUpdate(a, {}), VersionUpdate(b, {a});
            var t: Graph := map[a := {}, b := {a}];
            && ReceiveAll(Replica(map[], {}), [ua, ub]) == Replica(t, {b})
            && IsBraid(t, Ancestors(t, {}), [ub, ua])
            && ReceiveAll(Replica(map[], {}), [ub, ua]) == Replica(map[a := {}], {a})
  {
    var ua, ub := VersionUpdate(a, {}), VersionUpdate(b, {a});
    var t: Graph := map[a := {}, b := {a}];
    var empty := Replica(map[], {});
    assert [ua, ub][..1] == [ua] && [ub, ua][..1] == [ub] && [ua][..0] == [] && [ub][..0] == [];
    assert ReceiveAll(empty, [ua]) == Replica(map[a := {}], {a});
    assert a in {a} && !ParentsKnown(empty.t, {a});
    assert ReceiveAll(empty, [ub]) == empty;
    assert {a} - {a} + {b} == {b};
    assert ub in [ub, ua] && ua in [ub, ua];
    assert Versions([ub, ua]) == {a, b};
  }

  // ---------- redelivery ----------

  /** Delivering a known version once more, with its parents, changes no entry, but it puts the
      version on the frontier: the frontier stays exact if and only if it was a leaf. */
  lemma RedeliveryMovesFrontier(s: Replica, v: Version)
    requires CausallyClosed(s.t) && IsFrontier(s.t, s.frontier) && v in s.t
    ensures var s' := Receive(s, VersionUpdate(v, s.t[v]));
            s'.t == s.t && (IsFrontier(s'.t, s'.frontier) <==> IsLeaf(s.t, v))
  {
    var s' := Receive(s, VersionUpdate(v, s.t[v]));
    assert s'.t == s.t && s'.frontier == s.frontier - s.t[v] + {v};
    if IsLeaf(s.t, v) {
      assert v in s.frontier;
      forall p | p in s.t[v] ensures p !in s.frontier { assert !IsLeaf(s.t, p); }
      assert s'.frontier == s.frontier;
    } else {
      assert v in s'.frontier;
    }
  }

  /** The ones among `done` that the peer is missing, each after its parents. */
  ghost predicate Filtered(t: Graph, p: Replica, done: set<Version>, us: seq<VersionUpdate>) {
    && (forall i :: 0 <= i < |us| ==> Missing(t, p, us[i]) && us[i].version in done)
    && (forall i, j :: 0 <= i < j < |us| ==> us[i].version != us[j].version)
    && done <= p.t.Keys + Versions(us)
    && Causal(p.t, us)
  }

  ghost predicate Missing(t: Graph, p: Replica, u: VersionUpdate) {
    u.version in t && u.version !in p.t && u.parents == t[u.version]
  }

  lemma CausalAppend(t: Graph, us: seq<VersionUpdate>, u: VersionUpdate)
    requires Causal(t, us) && u.parents <= t.Keys + Versions(us) + {ROOT}
    ensures Causal(t, us + [u])
  {
    forall i | 0 <= i < |us + [u]| ensures (us + [u])[i].parents <= t.Keys + Versions((us + [u])[..i]) + {ROOT} {
      assert (us + [u])[..i] == us[..i];
      if i < |us| { assert (us + [u])[i] == us[i]; }
    }
  }

  lemma FilterOne(t: Graph, p: Replica, done: set<Version>, v: Version, us: seq<VersionUpdate>)
    requires Filtered(t, p, done, us) && v in t && v !in done && t[v] <= done + {ROOT}
    ensures Filtered(t, p, done + {v}, if v in p.t then us else us + [VersionUpdate(v, t[v])])
  {
    if v !in p.t {
      var u := VersionUpdate(v, t[v]);
      assert Versions(us + [u]) == Versions(us) + {v};
      CausalAppend(p.t, us, u);
    }
  }

  lemma PrefixGrows(order: seq<Version>, k: nat)
    requires 0 < k <= |order|
    ensures Members(order[..k]) == Members(order[..k - 1]) + {order[k - 1]}
  {
    assert order[..k] == order[..k - 1] + [order[k - 1]];
  }

  lemma {:induction false} FilterAll(t: Graph, p: Replica, order: seq<Version>, k: nat) returns (us: seq<VersionUpdate>)
    requires Linearized(t, order) && k <= |order|
    ensures Filtered(t, p, Members(order[..k]), us)
  {
    us := [];
    if k > 0 {
      us := FilterAll(t, p, order, k - 1);
      var v := order[k - 1];
      FilterOne(t, p, Members(order[..k - 1]), v, us);
      if v !in p.t { us := us + [VersionUpdate(v, t[v])]; }
      PrefixGrows(order, k);
    }
  }

  /** Such an order always exists: the missing versions in the order they were added. */
  lemma CausalBraidExists(t: Graph, p: Replica, history: set<Version>, order: seq<Version>)
    returns (us: seq<VersionUpdate>)
    requires ROOT !in t && Linearized(t, order) && HoldsHistory(p, t, history)
    ensures IsBraid(t, history, us) && Causal(p.t, us)
  {
    us := FilterAll(t, p, order, |order|);
    assert order[..|order|] == order;
  }

  /** Graph sync: along every run, whatever history a peer holds, some order of the missing
      versions takes it to the sender's graph and frontier. */
  lemma GraphSync(run: seq<Replica>, adds: seq<VersionUpdate>, i: nat, p: Replica, known: set<Version>)
    returns (us: seq<VersionUpdate>)
    requires IsGraphRun(run, adds) && i < |run|
    requires p.t == (map x | x in Ancestors(run[i].t, known) :: run[i].t[x]) && IsFrontier(p.t, p.frontier)
    ensures IsBraid(run[i].t, Ancestors(run[i].t, known), us) && ReceiveAll(p, us) == run[i]
  {
    var order := RunOrder(run, adds, i);
    LinearizedIsAcyclic(run[i].t, order);
    AncestorsAreClosed(run[i].t, known);
    us := CausalBraidExists(run[i].t, p, Ancestors(run[i].t, known), order);
    BraidSyncs(run[i].t, run[i].frontier, p, Ancestors(run[i].t, known), us);
  }

  // ---------- the walk over known history ----------

  /** Everything found or waiting is history, and what is still to be found hangs from
      what is waiting. */
  ghost predicate Collecting(t: Graph, known: set<Version>, history: set<Version>, found: set<Version>,
                             waiting: set<Version>) {
    && found <= history && waiting * t.Keys <= history
    && known * t.Keys <= found + waiting
    && ParentsOf(t, found) * t.Keys <= found + waiting
  }

  lemma CollectTakes(t: Graph, known: set<Version>, history: set<Version>, found: set<Version>, waiting: set<Version>,
                     v: Version)
    requires Collecting(t, known, history, found, waiting + {v}) && v in t && ParentClosed(t, history)
    ensures Collecting(t, known, history, found + {v}, waiting + t[v])
  {
    forall x | x in ParentsOf(t, found + {v}) * t.Keys ensures x in found + {v} + (waiting + t[v]) {
      if x !in t[v] { assert x in ParentsOf(t, found) * t.Keys; }
    }
  }

  lemma CollectEnds(t: Graph, known: set<Version>, found: set<Version>)
    requires Collecting(t, known, Ancestors(t, known), found, {})
    ensures found == Ancestors(t, known)
  {
    forall x | x in found ensures t[x] <= ParentsOf(t, found) {}
    AncestorsAreLeast(t, known, found);
  }

  // ---------- the object ----------

  class JsonCrdt {
    const id: string
    var t: Graph
    var currentVersion: set<Version>
    var nextSeq: nat

    ghost function State(): Replica
      reads this
    {
      Replica(t, currentVersion)
    }

    constructor (id: string)
      ensures State() == Replica(map[], {}) && nextSeq == 0 && this.id == id
    {
      this.id, t, currentVersion, nextSeq := id, map[], {}, 0;
    }

    constructor WithContent(id: string)
      ensures var v := Version("0@" + id); State() == Replica(map[v := {}], {v})
      ensures nextSeq == 1 && this.id == id
    {
      var version := Version("0@" + id);
      this.id, t, currentVersion, nextSeq := id, map[version := {}], {version}, 1;
    }

    method AddVersion(version: Version, parents: set<Version>)
      modifies `t, `currentVersion
      ensures State() == Receive(old(State()), VersionUpdate(version, parents))
    {
      if exists p :: p in parents && p !in t && p != ROOT { return; }
      t := t[version := parents];
      var todo := parents;
      while todo != {}
        modifies `currentVersion
        invariant todo <= parents && currentVersion == old(currentVersion) - (parents - todo)
      {
        var p :| p in todo;
        todo := todo - {p};
        currentVersion := currentVersion - {p};
      }
      currentVersion := currentVersion + {version};
    }

    /** The history of the known versions, by a stack walk. */
    method KnownHistory(known: set<Version>) returns (ancestors: set<Version>)
      ensures ancestors == Ancestors(t, known)
    {
      ghost var history := Ancestors(t, known);
      AncestorsAreClosed(t, known);
      ancestors := {};
      var stack := AnyOrder(known);
      while stack != []
        invariant Collecting(t, known, history, ancestors, Members(stack))
        decreases t.Keys - ancestors, |stack|
      {
        var v;
        ghost var before := stack;
        stack, v := Pop(stack);
        assert Members(before) == Members(stack) + {v};
        if v in ancestors { continue; }
        if v in t {
          CollectTakes(t, known, history, ancestors, Members(stack), v);
          ancestors := ancestors + {v};
          var pushed := AnyOrder(t[v]);
          assert Members(stack + pushed) == Members(stack) + Members(pushed);
          stack := stack + pushed;
        }
      }
      CollectEnds(t, known, ancestors);
    }

    /** Every version the peer does not know, in whatever order the table yields them. */
    method GenerateBraid(known: set<Version>) returns (updates: seq<VersionUpdate>)
      ensures IsBraid(t, Ancestors(t, known), updates)
    {
      var ancestors := KnownHistory(known);
      updates := [];
      var todo := t.Keys;
      while todo != {}
        invariant todo <= t.Keys
        invariant forall i :: 0 <= i < |updates| ==>
                    updates[i].version in t && updates[i].version !in todo && updates[i].version !in ancestors
                    && updates[i].parents == t[updates[i].version]
        invariant forall i, j :: 0 <= i < j < |updates| ==> updates[i].version != updates[j].version
        invariant t.Keys - todo - ancestors <= Versions(updates)
      {
        var version :| version in todo;
        todo := todo - {version};
        if version !in ancestors {
          var u := VersionUpdate(version, t[version]);
          assert Versions(updates + [u]) == Versions(updates) + {version};
          updates := updates + [u];
        }
      }
    }
  }
}
