/** Acknowledgement rounds: what one replica does with the acks it counts. */
module Rounds {
  import opened VersionGraph
  import opened Text

  datatype ConnectionState = ConnectionState(peer: Option<string>, seqNo: nat)

  datatype AckmeState = AckmeState(origin: Option<string>, count: nat, versions: set<Version>, seqNo: nat,
                                   time: int, origCount: nat, cancelled: bool)

  datatype Seen = Local | Global

  datatype Message =
    | Ack(seen: Seen, ackme: string, versions: set<Version>, conn: string)
    | Update(version: Version, parents: set<Version>, ackme: string, conn: string)

  /** The part of a replica that acknowledgements touch, with everything sent so far. */
  datatype Net = Net(ackmes: map<string, AckmeState>, sent: seq<Message>)

  type Conns = map<string, ConnectionState>

  // ---------- what each operation does ----------

  ghost predicate Eligible(conns: Conns, c: string, limit: nat, ignoring: Option<string>) {
    c in conns && Some(c) != ignoring && conns[c].seqNo <= limit
  }

  /** One global ack to every eligible connection, in any order. */
  ghost predicate IsBroadcast(conns: Conns, ackme: string, m: AckmeState, ignoring: Option<string>,
                              msgs: seq<Message>) {
    && (forall i :: 0 <= i < |msgs| ==>
          msgs[i].Ack? && msgs[i] == Ack(Global, ackme, m.versions, msgs[i].conn)
          && Eligible(conns, msgs[i].conn, m.seqNo, ignoring))
    && (forall i, j :: 0 <= i < j < |msgs| ==> msgs[i] != msgs[j])
    && (forall c :: Eligible(conns, c, m.seqNo, ignoring) ==> Ack(Global, ackme, m.versions, c) in msgs)
  }

  /** `add_full_ack_leaves`, without its effect on the graph. */
  ghost predicate FullAcked(n: Net, n': Net, conns: Conns, ackme: string, ignoring: Option<string>) {
    if ackme !in n.ackmes || n.ackmes[ackme].cancelled then n' == n
    else
      && n'.ackmes == n.ackmes[ackme := n.ackmes[ackme].(cancelled := true)]
      && n.sent <= n'.sent
      && IsBroadcast(conns, ackme, n.ackmes[ackme], ignoring, n'.sent[|n.sent|..])
  }

  /** `check_ackme_count`. */
  ghost predicate Checked(n: Net, n': Net, conns: Conns, ackme: string) {
    if ackme !in n.ackmes || n.ackmes[ackme].count > 0 || n.ackmes[ackme].cancelled then n' == n
    else
      var m := n.ackmes[ackme];
      if m.origin.None? then FullAcked(n, n', conns, ackme, None)
      else n' == if m.origin.value in conns
                 then n.(sent := n.sent + [Ack(Local, ackme, m.versions, m.origin.value)]) else n
  }

  /** `process_ackme`: one more ack for a known round, or a round asked for by a peer. */
  ghost predicate Processed(n: Net, n': Net, conns: Conns, ackme: string, versions: set<Version>,
                            conn: Option<string>, seqNo: nat, now: int) {
    if ackme in n.ackmes then
      var m := n.ackmes[ackme];
      if m.count == 0 then n' == n
      else Checked(n.(ackmes := n.ackmes[ackme := m.(count := m.count - 1)]), n', conns, ackme)
    else
      var m := AckmeState(conn, if |conns| == 0 then 0 else |conns| - 1, versions, seqNo, now, |conns|, false);
      Checked(n.(ackmes := n.ackmes[ackme := m]), n', conns, ackme)
  }

  /** `ackme`: a round this replica asks for, under a name it has not used. */
  ghost predicate Asked(n: Net, n': Net, conns: Conns, ackme: string, versions: set<Version>, seqNo: nat, now: int) {
    && ackme !in n.ackmes
    && n'.ackmes == n.ackmes[ackme := AckmeState(None, |conns|, versions, seqNo, now, |conns|, false)]
    && n.sent <= n'.sent
    && forall i :: |n.sent| <= i < |n'.sent| ==> n'.sent[i].Update?
  }

  /** `ackme_timeout`: gives up a round that is still counting and has waited too long. */
  ghost predicate TimedOut(n: Net, n': Net, ackme: string, now: int, waitTime: int) {
    if ackme in n.ackmes && !n.ackmes[ackme].cancelled && n.ackmes[ackme].count > 0
       && now - n.ackmes[ackme].time > waitTime
    then n' == n.(ackmes := n.ackmes[ackme := n.ackmes[ackme].(cancelled := true)])
    else n' == n
  }

  datatype Event =
    | Process(ackme: string, versions: set<Version>, conn: Option<string>, seqNo: nat)
    | FullAck(ackme: string, ignoring: Option<string>)
    | Timeout(ackme: string, waitTime: int)
    | Ask(ackme: string, versions: set<Version>, seqNo: nat)
    | Say(updates: seq<Message>)

  ghost predicate Step(n: Net, n': Net, conns: Conns, e: Event, now: int) {
    match e
    case Process(a, vs, c, s) => Processed(n, n', conns, a, vs, c, s, now)
    case FullAck(a, i) => FullAcked(n, n', conns, a, i)
    case Timeout(a, w) => TimedOut(n, n', a, now, w)
    case Ask(a, vs, s) => Asked(n, n', conns, a, vs, s, now)
    case Say(us) => n' == n.(sent := n.sent + us) && forall i :: 0 <= i < |us| ==> us[i].Update?
  }

  /** A run: any events in any order, the connections changing freely in between. */
  ghost predicate Run(ns: seq<Net>) {
    && ns != [] && ns[0] == Net(map[], [])
    && forall i :: 0 < i < |ns| ==> Steps(ns[i - 1], ns[i])
  }

  ghost predicate Steps(n: Net, n': Net) {
    exists conns, e, now :: Step(n, n', conns, e, now)
  }

  lemma CheckKeepsRounds(n: Net, n': Net, conns: Conns, ackme: string)
    requires Checked(n, n', conns, ackme)
    ensures n'.ackmes.Keys == n.ackmes.Keys
  {
  }

  /** An ack adds no round but the one it is about. */
  lemma AckAddsOneRound(n: Net, n': Net, conns: Conns, ackme: string, versions: set<Version>, conn: Option<string>,
                        seqNo: nat, now: int)
    requires Processed(n, n', conns, ackme, versions, conn, seqNo, now)
    ensures n'.ackmes.Keys == n.ackmes.Keys + {ackme}
  {
    if ackme !in n.ackmes {
      var m := AckmeState(conn, if |conns| == 0 then 0 else |conns| - 1, versions, seqNo, now, |conns|, false);
      CheckKeepsRounds(n.(ackmes := n.ackmes[ackme := m]), n', conns, ackme);
    } else if n.ackmes[ackme].count > 0 {
      var m := n.ackmes[ackme];
      CheckKeepsRounds(n.(ackmes := n.ackmes[ackme := m.(count := m.count - 1)]), n', conns, ackme);
    }
  }

  // ---------- counting messages ----------

  ghost function LocalAcks(sent: seq<Message>, ackme: string): nat {
    if sent == [] then 0
    else LocalAcks(sent[..|sent| - 1], ackme)
         + if sent[|sent| - 1].Ack? && sent[|sent| - 1].seen.Local? && sent[|sent| - 1].ackme == ackme then 1 else 0
  }

  ghost function GlobalAcks(sent: seq<Message>, ackme: string, conn: string): nat {
    if sent == [] then 0
    else GlobalAcks(sent[..|sent| - 1], ackme, conn)
         + if sent[|sent| - 1].Ack? && sent[|sent| - 1].seen.Global? && sent[|sent| - 1].ackme == ackme
              && sent[|sent| - 1].conn == conn then 1 else 0
  }

  lemma {:induction false} CountsConcat(s: seq<Message>, u: seq<Message>, ackme: string, conn: string)
    ensures LocalAcks(s + u, ackme) == LocalAcks(s, ackme) + LocalAcks(u, ackme)
    ensures GlobalAcks(s + u, ackme, conn) == GlobalAcks(s, ackme, conn) + GlobalAcks(u, ackme, conn)
  {
    if u == [] {
      assert s + u == s;
    } else {
      CountsConcat(s, u[..|u| - 1], ackme, conn);
      assert (s + u)[..|s + u| - 1] == s + u[..|u| - 1];
    }
  }

  lemma {:induction false} UpdatesCountNothing(u: seq<Message>, ackme: string, conn: string)
    requires forall i :: 0 <= i < |u| ==> u[i].Update?
    ensures LocalAcks(u, ackme) == 0 && GlobalAcks(u, ackme, conn) == 0
  {
    if u != [] { UpdatesCountNothing(u[..|u| - 1], ackme, conn); }
  }

  /** A broadcast holds no local ack, nothing about other rounds, and at most one message
      for each connection. */
  lemma {:induction false} BroadcastCounts(u: seq<Message>, about: string, versions: set<Version>, ackme: string,
                                           conn: string)
    requires forall i :: 0 <= i < |u| ==> u[i].Ack? && u[i] == Ack(Global, about, versions, u[i].conn)
    requires forall i, j :: 0 <= i < j < |u| ==> u[i] != u[j]
    ensures LocalAcks(u, ackme) == 0
    ensures GlobalAcks(u, ackme, conn) == if Ack(Global, ackme, versions, conn) in u then 1 else 0
    ensures ackme != about ==> GlobalAcks(u, ackme, conn) == 0
  {
    if u != [] {
      var w, last := u[..|u| - 1], u[|u| - 1];
      BroadcastCounts(w, about, versions, ackme, conn);
      assert u == w + [last];
      assert last !in w;
    }
  }

  // ---------- what each operation says ----------

  /** Completing a live round sends one global ack to every connection but the ignored one that
      was there when the round began, nothing to any other, and no local ack. */
  lemma CompletionTells(n: Net, n': Net, conns: Conns, about: string, ignoring: Option<string>, ackme: string,
                        conn: string)
    requires FullAcked(n, n', conns, about, ignoring)
    ensures LocalAcks(n'.sent, ackme) == LocalAcks(n.sent, ackme)
    ensures GlobalAcks(n'.sent, ackme, conn) == GlobalAcks(n.sent, ackme, conn) +
              if ackme == about && about in n.ackmes && !n.ackmes[about].cancelled
                 && conn in conns && Some(conn) != ignoring && conns[conn].seqNo <= n.ackmes[about].seqNo
              then 1 else 0
    ensures forall i :: |n.sent| <= i < |n'.sent| ==>
              about in n.ackmes && n'.sent[i].versions == n.ackmes[about].versions
  {
    if about in n.ackmes && !n.ackmes[about].cancelled {
      var m, u := n.ackmes[about], n'.sent[|n.sent|..];
      assert n'.sent == n.sent + u;
      CountsConcat(n.sent, u, ackme, conn);
      BroadcastCounts(u, about, m.versions, ackme, conn);
      assert conn in conns && Some(conn) != ignoring && conns[conn].seqNo <= m.seqNo <==>
             Ack(Global, about, m.versions, conn) in u;
    }
  }

  /** What one more ack means for a round that has still to hear from this many: at the last one
      a round asked for by a peer is acked to that peer, and one of this replica's own completes. */
  ghost predicate Hears(n: Net, n': Net, conns: Conns, ackme: string, left: nat) {
    && ackme in n.ackmes && ackme in n'.ackmes && n'.ackmes.Keys == n.ackmes.Keys
    && var m := n.ackmes[ackme];
       var own := left == 0 && !m.cancelled && m.origin == None;
       && n'.ackmes == n.ackmes[ackme := m.(count := left, cancelled := m.cancelled || own)]
       && (left == 0 && !m.cancelled && m.origin.Some? && m.origin.value in conns ==>
             n'.sent == n.sent + [Ack(Local, ackme, m.versions, m.origin.value)])
       && (left > 0 || m.cancelled || (m.origin.Some? && m.origin.value !in conns) ==> n'.sent == n.sent)
       && (own ==>
             && (forall other :: LocalAcks(n'.sent, other) == LocalAcks(n.sent, other))
             && forall other, conn ::
               GlobalAcks(n'.sent, other, conn) == GlobalAcks(n.sent, other, conn) +
                 if other == ackme && conn in conns && conns[conn].seqNo <= m.seqNo then 1 else 0)
  }

  lemma CheckHears(n: Net, n': Net, conns: Conns, ackme: string, before: Net)
    requires Checked(n, n', conns, ackme) && ackme in n.ackmes && ackme in before.ackmes && before.sent == n.sent
    requires n.ackmes == before.ackmes[ackme := before.ackmes[ackme].(count := n.ackmes[ackme].count)]
    ensures Hears(before, n', conns, ackme, n.ackmes[ackme].count)
  {
    var m := n.ackmes[ackme];
    if m.count == 0 && !m.cancelled && m.origin == None {
      forall other ensures LocalAcks(n'.sent, other) == LocalAcks(n.sent, other) {
        CompletionTells(n, n', conns, ackme, None, other, "");
      }
      forall other, conn
        ensures GlobalAcks(n'.sent, other, conn) == GlobalAcks(n.sent, other, conn) +
                  if other == ackme && conn in conns && conns[conn].seqNo <= m.seqNo then 1 else 0
      {
        CompletionTells(n, n', conns, ackme, None, other, conn);
      }
    }
  }

  /** An ack for a round that still counts brings it one closer to its end. */
  lemma AckIsHeard(n: Net, n': Net, conns: Conns, ackme: string, versions: set<Version>, conn: Option<string>,
                   seqNo: nat, now: int)
    requires Processed(n, n', conns, ackme, versions, conn, seqNo, now) && ackme in n.ackmes
    ensures if n.ackmes[ackme].count == 0 then n' == n else Hears(n, n', conns, ackme, n.ackmes[ackme].count - 1)
  {
    var m := n.ackmes[ackme];
    if m.count > 0 { CheckHears(n.(ackmes := n.ackmes[ackme := m.(count := m.count - 1)]), n', conns, ackme, n); }
  }

  /** A round asked for by a peer waits for all connections but that one. */
  lemma RoundIsOpened(n: Net, n': Net, conns: Conns, ackme: string, versions: set<Version>, conn: Option<string>,
                      seqNo: nat, now: int)
    requires Processed(n, n', conns, ackme, versions, conn, seqNo, now) && ackme !in n.ackmes
    ensures var left := if |conns| > 1 then |conns| - 1 else 0;
            var m := AckmeState(conn, left, versions, seqNo, now, |conns|, false);
            Hears(n.(ackmes := n.ackmes[ackme := m]), n', conns, ackme, left)
  {
    var m := AckmeState(conn, if |conns| == 0 then 0 else |conns| - 1, versions, seqNo, now, |conns|, false);
    var start := n.(ackmes := n.ackmes[ackme := m]);
    CheckHears(start, n', conns, ackme, start);
  }

  /** An ack changes no round but the one it is about. */
  lemma AckTouchesOneRound(n: Net, n': Net, conns: Conns, ackme: string, versions: set<Version>,
                           conn: Option<string>, seqNo: nat, now: int)
    requires Processed(n, n', conns, ackme, versions, conn, seqNo, now)
    ensures forall a :: a in n'.ackmes && a != ackme ==> a in n.ackmes && n'.ackmes[a] == n.ackmes[a]
  {
    if ackme in n.ackmes {
      AckIsHeard(n, n', conns, ackme, versions, conn, seqNo, now);
    } else {
      RoundIsOpened(n, n', conns, ackme, versions, conn, seqNo, now);
    }
  }

  /** A timeout gives a round up exactly when somebody is still to be heard from and more than
      the waiting time has passed since it began; nothing is said. */
  lemma TimeoutGivesUp(n: Net, n': Net, ackme: string, now: int, waitTime: int)
    requires TimedOut(n, n', ackme, now, waitTime)
    ensures n'.sent == n.sent && n'.ackmes.Keys == n.ackmes.Keys
    ensures forall a :: a in n.ackmes ==>
              n'.ackmes[a] == n.ackmes[a].(cancelled := n.ackmes[a].cancelled
                                  || (a == ackme && n.ackmes[a].count > 0 && n.ackmes[a].time + waitTime < now))
  {
  }

  // ---------- the invariant ----------

  /** A round that nobody knows was never acked; a live one has sent nothing globally and
      a local ack only once its count reached zero; a known one at most one of each. */
  ghost predicate RoundOk(n: Net, ackme: string, conn: string) {
    var locals, globals := LocalAcks(n.sent, ackme), GlobalAcks(n.sent, ackme, conn);
    if ackme !in n.ackmes then locals == 0 && globals == 0
    else
      && locals <= (if n.ackmes[ackme].count == 0 && n.ackmes[ackme].origin.Some? then 1 else 0)
      && globals <= (if n.ackmes[ackme].cancelled then 1 else 0)
  }

  /** What no step may undo: a count never grows, a cancelled round stays cancelled and silent. */
  ghost predicate Progress(n: Net, n': Net, ackme: string, conn: string) {
    && n.sent <= n'.sent
    && (ackme in n.ackmes ==>
          && ackme in n'.ackmes && n'.ackmes[ackme].count <= n.ackmes[ackme].count
          && n'.ackmes[ackme].origin == n.ackmes[ackme].origin
          && (n.ackmes[ackme].cancelled ==>
                && n'.ackmes[ackme].cancelled
                && LocalAcks(n'.sent, ackme) == LocalAcks(n.sent, ackme)
                && GlobalAcks(n'.sent, ackme, conn) == GlobalAcks(n.sent, ackme, conn)))
  }

  lemma FullAckedKeeps(n: Net, n': Net, conns: Conns, about: string, ignoring: Option<string>, ackme: string,
                       conn: string)
    requires FullAcked(n, n', conns, about, ignoring)
    requires RoundOk(n, ackme, conn)
    ensures RoundOk(n', ackme, conn) && Progress(n, n', ackme, conn)
  {
    if n' != n {
      var m, u := n.ackmes[about], n'.sent[|n.sent|..];
      assert n'.sent == n.sent + u;
      CountsConcat(n.sent, u, ackme, conn);
      BroadcastCounts(u, about, m.versions, ackme, conn);
    }
  }

  lemma CheckedKeeps(n: Net, n': Net, conns: Conns, about: string, ackme: string, conn: string)
    requires Checked(n, n', conns, about)
    requires RoundOk(n, ackme, conn)
    requires about == ackme ==> LocalAcks(n.sent, ackme) == 0
    ensures RoundOk(n', ackme, conn) && Progress(n, n', ackme, conn)
  {
    if n' != n {
      var m := n.ackmes[about];
      if m.origin.None? {
        FullAckedKeeps(n, n', conns, about, None, ackme, conn);
      } else {
        var u := [Ack(Local, about, m.versions, m.origin.value)];
        CountsConcat(n.sent, u, ackme, conn);
        assert u[..0] == [];
      }
    }
  }

  lemma ProcessedKeeps(n: Net, n': Net, conns: Conns, about: string, versions: set<Version>, origin: Option<string>,
                       seqNo: nat, now: int, ackme: string, conn: string)
    requires Processed(n, n', conns, about, versions, origin, seqNo, now) && RoundOk(n, ackme, conn)
    ensures RoundOk(n', ackme, conn) && Progress(n, n', ackme, conn)
  {
    if about in n.ackmes {
      var m := n.ackmes[about];
      if m.count > 0 {
        CheckedKeeps(n.(ackmes := n.ackmes[about := m.(count := m.count - 1)]), n', conns, about, ackme, conn);
      }
    } else {
      var m := AckmeState(origin, if |conns| == 0 then 0 else |conns| - 1, versions, seqNo, now, |conns|, false);
      CheckedKeeps(n.(ackmes := n.ackmes[about := m]), n', conns, about, ackme, conn);
    }
  }

  lemma UpdatesKeep(n: Net, n': Net, ackme: string, conn: string)
    requires n.sent <= n'.sent && forall i :: |n.sent| <= i < |n'.sent| ==> n'.sent[i].Update?
    ensures LocalAcks(n'.sent, ackme) == LocalAcks(n.sent, ackme)
    ensures GlobalAcks(n'.sent, ackme, conn) == GlobalAcks(n.sent, ackme, conn)
  {
    var u := n'.sent[|n.sent|..];
    assert n'.sent == n.sent + u;
    CountsConcat(n.sent, u, ackme, conn);
    UpdatesCountNothing(u, ackme, conn);
  }

  lemma StepKeeps(n: Net, n': Net, conns: Conns, e: Event, now: int, ackme: string, conn: string)
    requires Step(n, n', conns, e, now) && RoundOk(n, ackme, conn)
    ensures RoundOk(n', ackme, conn) && Progress(n, n', ackme, conn)
  {
    match e {
      case Process(a, vs, c, s) => ProcessedKeeps(n, n', conns, a, vs, c, s, now, ackme, conn);
      case FullAck(a, i) => FullAckedKeeps(n, n', conns, a, i, ackme, conn);
      case Timeout(a, w) =>
      case Ask(a, vs, s) => UpdatesKeep(n, n', ackme, conn);
      case Say(u) => UpdatesKeep(n, n', ackme, conn);
    }
  }

  lemma {:induction false} RunKeeps(ns: seq<Net>, i: nat, ackme: string, conn: string)
    requires Run(ns) && i < |ns|
    ensures RoundOk(ns[i], ackme, conn)
  {
    if i > 0 {
      RunKeeps(ns, i - 1, ackme, conn);
      assert Steps(ns[i - 1], ns[i]);
      var conns, e, now :| Step(ns[i - 1], ns[i], conns, e, now);
      StepKeeps(ns[i - 1], ns[i], conns, e, now, ackme, conn);
    }
  }

  lemma ProgressTransitive(n1: Net, n2: Net, n3: Net, ackme: string, conn: string)
    requires Progress(n1, n2, ackme, conn) && Progress(n2, n3, ackme, conn)
    ensures Progress(n1, n3, ackme, conn)
  {
  }

  lemma {:induction false} RunProgresses(ns: seq<Net>, i: nat, j: nat, ackme: string, conn: string)
    requires Run(ns) && i <= j < |ns|
    ensures Progress(ns[i], ns[j], ackme, conn)
    decreases j - i
  {
    if i < j {
      RunProgresses(ns, i, j - 1, ackme, conn);
      RunKeeps(ns, j - 1, ackme, conn);
      assert Steps(ns[j - 1], ns[j]);
      var conns, e, now :| Step(ns[j - 1], ns[j], conns, e, now);
      StepKeeps(ns[j - 1], ns[j], conns, e, now, ackme, conn);
      ProgressTransitive(ns[i], ns[j - 1], ns[j], ackme, conn);
    }
  }

  /** Rounds fire once: in every run a round sends at most one local ack, at most one
      global ack to each connection, its count never grows, and a cancelled round is
      silent from then on. */
  lemma RoundsFireOnce(ns: seq<Net>, i: nat, j: nat, ackme: string, conn: string)
    requires Run(ns) && i <= j < |ns|
    ensures LocalAcks(ns[j].sent, ackme) <= 1 && GlobalAcks(ns[j].sent, ackme, conn) <= 1
    ensures ackme in ns[i].ackmes ==>
              ackme in ns[j].ackmes && ns[j].ackmes[ackme].count <= ns[i].ackmes[ackme].count
    ensures ackme in ns[i].ackmes && ns[i].ackmes[ackme].cancelled ==>
              && LocalAcks(ns[j].sent, ackme) == LocalAcks(ns[i].sent, ackme)
              && GlobalAcks(ns[j].sent, ackme, conn) == GlobalAcks(ns[i].sent, ackme, conn)
  {
    RunKeeps(ns, j, ackme, conn);
    RunProgresses(ns, i, j, ackme, conn);
  }
}
