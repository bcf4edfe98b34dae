/** Many responses over one connection: the server writes frames, the client hands each
    payload to the request it belongs to, and a request puts its response together. */
module Demux {
  import opened Text
  import opened Multiplex
  import opened Tunnel

  // ---------- the server's side ----------

  /** The frames of one response: its header block, its body chunks, and the close. */
  function ResponseEvents(id: string, block: string, chunks: seq<string>): seq<MultiplexEvent> {
    [Data(id, block)] + ChunkEvents(id, chunks) + [CloseResponse(id)]
  }

  function ChunkEvents(id: string, chunks: seq<string>): seq<MultiplexEvent> {
    seq(|chunks|, i requires 0 <= i < |chunks| => Data(id, chunks[i]))
  }

  /** A payload as it goes over the wire, spelled out. */
  function DataOnWire(id: string, payload: string): string {
    Decimal(|payload|) + " bytes for response " + id + "\r\n" + payload
  }

  function ChunksOnWire(id: string, chunks: seq<string>): string {
    if chunks == [] then "" else DataOnWire(id, chunks[0]) + ChunksOnWire(id, chunks[1..])
  }

  function CloseOnWire(id: string): string {
    "close response " + id + "\r\n"
  }

  lemma FramesOnWire(id: string, payload: string)
    ensures Frame(Data(id, payload)) == DataOnWire(id, payload) && Frame(CloseResponse(id)) == CloseOnWire(id)
  {
    FramesAreSpelled(id, payload);
  }

  lemma WireOfMore(e: MultiplexEvent, es: seq<MultiplexEvent>)
    ensures Wire([e] + es) == Frame(e) + Wire(es)
  {
    assert ([e] + es)[1..] == es;
  }

  lemma {:induction false} ChunksAreSpelled(id: string, chunks: seq<string>)
    ensures Wire(ChunkEvents(id, chunks) + [CloseResponse(id)]) == ChunksOnWire(id, chunks) + CloseOnWire(id)
  {
    var es, close := ChunkEvents(id, chunks) + [CloseResponse(id)], CloseOnWire(id);
    if chunks == [] {
      FramesOnWire(id, "");
      assert es == [CloseResponse(id)] + [];
      WireOfMore(CloseResponse(id), []);
      Associate(close, "", "");
    } else {
      var first, rest := chunks[0], ChunkEvents(id, chunks[1..]) + [CloseResponse(id)];
      assert Wire(rest) == ChunksOnWire(id, chunks[1..]) + close by { ChunksAreSpelled(id, chunks[1..]); }
      assert es == [Data(id, first)] + rest;
      WireOfMore(Data(id, first), rest);
      assert Frame(Data(id, first)) == DataOnWire(id, first) by { FramesOnWire(id, first); }
      Associate(DataOnWire(id, first), ChunksOnWire(id, chunks[1..]), close);
    }
  }

  /** A whole response on the wire: its header block, every chunk as it is, and the close. */
  lemma ResponseIsSpelled(id: string, block: string, chunks: seq<string>)
    ensures Wire(ResponseEvents(id, block, chunks)) ==
            DataOnWire(id, block) + ChunksOnWire(id, chunks) + CloseOnWire(id)
  {
    var rest := ChunkEvents(id, chunks) + [CloseResponse(id)];
    assert ResponseEvents(id, block, chunks) == [Data(id, block)] + rest;
    WireOfMore(Data(id, block), rest);
    ChunksAreSpelled(id, chunks);
    assert Frame(Data(id, block)) == DataOnWire(id, block) by { FramesOnWire(id, block); }
    Associate(DataOnWire(id, block), ChunksOnWire(id, chunks), CloseOnWire(id));
  }

  /** What an event puts into the channel: its header line, and a data event's payload as
      a message of its own. */
  function Messages(es: seq<MultiplexEvent>): seq<string> {
    if es == [] then []
    else Messages(es[..|es| - 1]) + MessagesOf(es[|es| - 1])
  }

  function MessagesOf(e: MultiplexEvent): seq<string> {
    [HeaderLine(e)] + if e.Data? then [e.payload] else []
  }

  lemma {:induction false} JoinedConcat(a: seq<string>, b: seq<string>)
    ensures Joined(a + b) == Joined(a) + Joined(b)
  {
    if a == [] {
      assert a + b == b;
    } else {
      JoinedConcat(a[1..], b);
      assert (a + b)[1..] == a[1..] + b && (a + b)[0] == a[0];
      Associate(a[0], Joined(a[1..]), Joined(b));
    }
  }

  lemma JoinedMessagesOf(e: MultiplexEvent)
    ensures Joined(MessagesOf(e)) == Frame(e)
  {
    var line := HeaderLine(e);
    assert MessagesOf(e)[0] == line;
    if e.Data? {
      assert MessagesOf(e)[1..] == [e.payload] && [e.payload][1..] == [];
      assert Joined([e.payload]) == e.payload;
    } else {
      assert MessagesOf(e)[1..] == [];
      assert line + "" == line;
    }
  }

  lemma {:induction false} WireAppend(es: seq<MultiplexEvent>, e: MultiplexEvent)
    ensures Wire(es + [e]) == Wire(es) + Frame(e)
  {
    var frame := Frame(e);
    if es == [] {
      assert es + [e] == [e] && [e][1..] == [];
      assert frame + "" == frame;
    } else {
      WireAppend(es[1..], e);
      assert (es + [e])[1..] == es[1..] + [e] && (es + [e])[0] == es[0];
      Associate(Frame(es[0]), Wire(es[1..]), frame);
    }
  }

  /** The messages of a list of events, put together, are its bytes on the wire. */
  lemma {:induction false} MessagesMakeWire(es: seq<MultiplexEvent>)
    ensures Joined(Messages(es)) == Wire(es)
  {
    if es != [] {
      var w, e := es[..|es| - 1], es[|es| - 1];
      assert w + [e] == es;
      assert Wire(es) == Wire(w) + Frame(e) by { WireAppend(w, e); }
      assert Joined(Messages(es)) == Joined(Messages(w)) + Joined(MessagesOf(e)) by {
        JoinedConcat(Messages(w), MessagesOf(e));
      }
      JoinedMessagesOf(e);
      MessagesMakeWire(w);
    }
  }

  lemma MessagesAppend(es: seq<MultiplexEvent>, e: MultiplexEvent)
    ensures Messages(es + [e]) == Messages(es) + MessagesOf(e)
  {
    assert (es + [e])[..|es + [e]| - 1] == es;
  }

  /** The connection's channel, with everything put into it. */
  class Connection {
    var queue: seq<string>

    constructor ()
      ensures queue == []
    {
      queue := [];
    }

    /** One event: the header line and then, for data, the payload, as two messages. */
    method Send(e: MultiplexEvent)
      modifies this
      ensures queue == old(queue) + MessagesOf(e)
    {
      queue := queue + [HeaderLine(e)];
      if e.Data? { queue := queue + [e.payload]; }
    }

    /** The writer task of one response; `chunks` is what its body stream yields. */
    method WriteResponse(id: string, status: nat, headers: seq<Header>, chunks: seq<string>)
      modifies this
      ensures queue == old(queue) + Messages(ResponseEvents(id, HeaderBlock(status, headers), chunks))
    {
      var block := WriteHeaderBlock(status, headers);
      Send(Data(id, block));
      ghost var es := [Data(id, block)];
      MessagesAppend([], Data(id, block));
      assert [] + [Data(id, block)] == es;
      for i := 0 to |chunks|
        invariant es == [Data(id, block)] + ChunkEvents(id, chunks[..i])
        invariant queue == old(queue) + Messages(es)
      {
        var e := Data(id, chunks[i]);
        Send(e);
        MessagesAppend(es, e);
        assert ChunkEvents(id, chunks[..i + 1]) == ChunkEvents(id, chunks[..i]) + [e];
        es := es + [e];
      }
      assert chunks[..|chunks|] == chunks;
      Send(CloseResponse(id));
      MessagesAppend(es, CloseResponse(id));
    }
  }

  // ---------- the client's side ----------

  /** Requests by id, each with the number of its channel, and what every channel received. */
  datatype Client = Client(requests: map<string, nat>, inbox: map<nat, seq<string>>)

  function InboxOf(c: Client, channel: nat): seq<string> {
    if channel in c.inbox then c.inbox[channel] else []
  }

  function Handle(c: Client, e: MultiplexEvent): Client {
    match e
    case StartResponse(id) => c
    case Data(id, payload) =>
      if id in c.requests
      then c.(inbox := c.inbox[c.requests[id] := InboxOf(c, c.requests[id]) + [payload]])
      else c
    case CloseResponse(id) => c.(requests := c.requests - {id})
  }

  /** Events for requests that are not registered, and starts, change nothing. */
  lemma StrangersAreDropped(c: Client, e: MultiplexEvent)
    requires e.StartResponse? || e.id !in c.requests
    ensures Handle(c, e) == c
  {
    assert e.CloseResponse? ==> c.requests - {e.id} == c.requests;
  }

  function HandleAll(c: Client, es: seq<MultiplexEvent>): Client
    decreases |es|
  {
    if es == [] then c else HandleAll(Handle(c, es[0]), es[1..])
  }

  class Multiplexer {
    var requests: map<string, nat>
    var inbox: map<nat, seq<string>>

    ghost function Now(): Client
      reads this
    {
      Client(requests, inbox)
    }

    constructor ()
      ensures Now() == Client(map[], map[])
    {
      requests, inbox := map[], map[];
    }

    method AddRequest(id: string, channel: nat)
      modifies `requests
      ensures Now() == old(Now()).(requests := old(requests)[id := channel])
    {
      requests := requests[id := channel];
    }

    method HandleEvent(e: MultiplexEvent)
      modifies this
      ensures Now() == Handle(old(Now()), e)
    {
      match e
      case StartResponse(_) =>
      case Data(id, payload) =>
        if id in requests {
          var channel := requests[id];
          inbox := inbox[channel := (if channel in inbox then inbox[channel] else []) + [payload]];
        }
      case CloseResponse(id) =>
        requests := requests - {id};
    }

    method HandleEvents(events: seq<MultiplexEvent>)
      modifies this
      ensures Now() == HandleAll(old(Now()), events)
    {
      for i := 0 to |events|
        invariant Now() == HandleAll(old(Now()), events[..i])
      {
        HandleMore(old(Now()), events[..i], events[i]);
        HandleEvent(events[i]);
        assert events[..i] + [events[i]] == events[..i + 1];
      }
      assert events[..|events|] == events;
    }

    /** Reading the multiplexed stream: parse every chunk, handle its events in order, and
        give up at the first chunk that does not parse. */
    method RunStream(chunks: seq<string>) returns (ok: bool)
      modifies this
      ensures ok ==> var r := FeedAll(Parser("", InHeader), chunks).0;
                     r.Fed? && Now() == HandleAll(old(Now()), r.events)
      ensures !ok ==> exists k :: 0 <= k < |chunks| && FailsAt(chunks, k)
                                  && Now() == HandleAll(old(Now()), FeedAll(Parser("", InHeader), chunks[..k]).0.events)
    {
      var parser := new MultiplexParser();
      ghost var p := parser.Now();
      ghost var handled: seq<MultiplexEvent> := [];
      for k := 0 to |chunks|
        invariant fresh(parser) && parser.Now() == p
        invariant Now() == HandleAll(old(Now()), handled)
        invariant FeedAll(Parser("", InHeader), chunks[..k]) == (Fed(handled), p)
      {
        FeedAllMore(Parser("", InHeader), chunks[..k], chunks[k]);
        assert chunks[..k] + [chunks[k]] == chunks[..k + 1];
        var r := parser.FeedChunk(chunks[k]);
        p := parser.Now();
        if r.Refused? {
          assert FailsAt(chunks, k);
          return false;
        }
        HandleConcat(old(Now()), handled, r.events);
        HandleEvents(r.events);
        handled := handled + r.events;
      }
      assert chunks[..|chunks|] == chunks;
      ok := true;
    }
  }

  /** The chunks before `k` parse and that one does not. */
  ghost predicate FailsAt(chunks: seq<string>, k: nat)
    requires k < |chunks|
  {
    FeedAll(Parser("", InHeader), chunks[..k]).0.Fed? && FeedAll(Parser("", InHeader), chunks[..k + 1]).0.Refused?
  }

  lemma {:induction false} FeedAllMore(p: Parser, chunks: seq<string>, c: string)
    ensures var (r, p1) := FeedAll(p, chunks);
            FeedAll(p, chunks + [c]) ==
              if r.Refused? then (r, p1)
              else var (r2, p2) := Feed(p1, c); (if r2.Refused? then r2 else Fed(r.events + r2.events), p2)
    decreases |chunks|
  {
    if chunks == [] {
      assert chunks + [c] == [c] && [c][1..] == [];
      var (r2, p2) := Feed(p, c);
      if r2.Fed? { assert [] + r2.events == r2.events && r2.events + [] == r2.events; }
    } else {
      var (r, p1) := Feed(p, chunks[0]);
      assert (chunks + [c])[1..] == chunks[1..] + [c];
      FeedAllMore(p1, chunks[1..], c);
      var (r1, q) := FeedAll(p1, chunks[1..]);
      var (r2, q2) := Feed(q, c);
      if r.Fed? && r1.Fed? && r2.Fed? { assert r.events + (r1.events + r2.events) == r.events + r1.events + r2.events; }
    }
  }

  lemma {:induction false} HandleConcat(c: Client, es: seq<MultiplexEvent>, fs: seq<MultiplexEvent>)
    ensures HandleAll(c, es + fs) == HandleAll(HandleAll(c, es), fs)
    decreases |es|
  {
    if es == [] {
      assert es + fs == fs;
    } else {
      HandleConcat(Handle(c, es[0]), es[1..], fs);
      assert (es + fs)[1..] == es[1..] + fs;
    }
  }

  lemma {:induction false} HandleMore(c: Client, es: seq<MultiplexEvent>, e: MultiplexEvent)
    ensures HandleAll(c, es + [e]) == Handle(HandleAll(c, es), e)
    decreases |es|
  {
    if es == [] {
      assert es + [e] == [e] && [e][1..] == [];
    } else {
      HandleMore(Handle(c, es[0]), es[1..], e);
      assert (es + [e])[1..] == es[1..] + [e];
    }
  }

  // ---------- demultiplexing ----------

  /** The events of one response, in order. */
  function Projection(es: seq<MultiplexEvent>, id: string): seq<MultiplexEvent> {
    if es == [] then []
    else (if es[0].id == id then [es[0]] else []) + Projection(es[1..], id)
  }

  /** The payloads delivered for an open request: all data up to the close. */
  function Delivered(es: seq<MultiplexEvent>): seq<string> {
    if es == [] || es[0].CloseResponse? then []
    else (if es[0].Data? then [es[0].payload] else []) + Delivered(es[1..])
  }

  /** The channel belongs to this request and to no other. */
  ghost predicate OwnChannel(c: Client, id: string, channel: nat) {
    && id in c.requests && c.requests[id] == channel
    && forall other :: other in c.requests && other != id ==> c.requests[other] != channel
  }

  ghost predicate NobodysChannel(c: Client, channel: nat) {
    forall other :: other in c.requests ==> c.requests[other] != channel
  }

  lemma {:induction false} ClosedChannelIsQuiet(c: Client, es: seq<MultiplexEvent>, channel: nat)
    requires NobodysChannel(c, channel)
    ensures InboxOf(HandleAll(c, es), channel) == InboxOf(c, channel)
    ensures NobodysChannel(HandleAll(c, es), channel)
    decreases |es|
  {
    if es != [] { ClosedChannelIsQuiet(Handle(c, es[0]), es[1..], channel); }
  }

  /** What one event brings to the request `id`. */
  function Brings(e: MultiplexEvent, id: string): seq<string> {
    if e.id == id && e.Data? then [e.payload] else []
  }

  /** One event changes an open request only if it is its own: data arrives, a close ends it. */
  lemma OneEvent(c: Client, e: MultiplexEvent, id: string, channel: nat)
    requires OwnChannel(c, id, channel)
    ensures InboxOf(Handle(c, e), channel) == InboxOf(c, channel) + Brings(e, id)
    ensures if e == CloseResponse(id) then NobodysChannel(Handle(c, e), channel) && id !in Handle(c, e).requests
            else OwnChannel(Handle(c, e), id, channel)
  {
  }

  lemma DeliveredByMore(es: seq<MultiplexEvent>, id: string)
    requires es != []
    ensures Delivered(Projection(es, id)) ==
            if es[0] == CloseResponse(id) then [] else Brings(es[0], id) + Delivered(Projection(es[1..], id))
  {
    var rest := Projection(es[1..], id);
    assert [] + rest == rest && ([es[0]] + rest)[1..] == rest;
  }

  lemma AssociateAll(a: seq<string>, b: seq<string>, c: seq<string>)
    ensures a + b + c == a + (b + c) && a + [] == a
  {
  }

  /** Events of other responses do not reach the channel: it receives the data of its own
      response up to the close. */
  lemma {:induction false} OnlyOwnEventsArrive(c: Client, es: seq<MultiplexEvent>, id: string, channel: nat)
    requires OwnChannel(c, id, channel)
    ensures InboxOf(HandleAll(c, es), channel) == InboxOf(c, channel) + Delivered(Projection(es, id))
    decreases |es|
  {
    var inbox := InboxOf(c, channel);
    if es == [] {
      AssociateAll(inbox, [], []);
    } else {
      OneEvent(c, es[0], id, channel);
      DeliveredByMore(es, id);
      AssociateAll(inbox, Brings(es[0], id), Delivered(Projection(es[1..], id)));
      if es[0] == CloseResponse(id) {
        ClosedChannelIsQuiet(Handle(c, es[0]), es[1..], channel);
      } else {
        OnlyOwnEventsArrive(Handle(c, es[0]), es[1..], id, channel);
      }
    }
  }

  lemma {:induction false} CloseCloses(c: Client, es: seq<MultiplexEvent>, id: string)
    requires CloseResponse(id) in es
    ensures id !in HandleAll(c, es).requests
    decreases |es|
  {
    if es[0] == CloseResponse(id) {
      ClosedStaysClosed(Handle(c, es[0]), es[1..], id);
    } else {
      CloseCloses(Handle(c, es[0]), es[1..], id);
    }
  }

  lemma {:induction false} ProjectionKeeps(es: seq<MultiplexEvent>, id: string, e: MultiplexEvent)
    requires e in Projection(es, id)
    ensures e in es
  {
    if es[0] != e { ProjectionKeeps(es[1..], id, e); }
  }

  lemma {:induction false} ClosedStaysClosed(c: Client, es: seq<MultiplexEvent>, id: string)
    requires id !in c.requests
    ensures id !in HandleAll(c, es).requests
    decreases |es|
  {
    if es != [] { ClosedStaysClosed(Handle(c, es[0]), es[1..], id); }
  }

  lemma {:induction false} DeliveredChunks(id: string, chunks: seq<string>)
    ensures Delivered(ChunkEvents(id, chunks) + [CloseResponse(id)]) == chunks
  {
    var es := ChunkEvents(id, chunks) + [CloseResponse(id)];
    if chunks != [] {
      DeliveredChunks(id, chunks[1..]);
      assert es[1..] == ChunkEvents(id, chunks[1..]) + [CloseResponse(id)];
      assert [chunks[0]] + chunks[1..] == chunks;
    }
  }

  lemma DeliveredResponse(id: string, block: string, chunks: seq<string>)
    ensures Delivered(ResponseEvents(id, block, chunks)) == [block] + chunks
  {
    DeliveredChunks(id, chunks);
    assert ResponseEvents(id, block, chunks)[1..] == ChunkEvents(id, chunks) + [CloseResponse(id)];
  }

  /** However whole frames of many responses are interleaved, and wherever the bytes are
      cut, each registered request receives its header block and then its body chunks,
      and is closed. */
  lemma Demultiplexing(c: Client, es: seq<MultiplexEvent>, wire: seq<string>, id: string, channel: nat,
                       block: string, chunks: seq<string>)
    requires forall i :: 0 <= i < |es| ==> Printable(es[i])
    requires Joined(wire) == Wire(es)
    requires Projection(es, id) == ResponseEvents(id, block, chunks)
    requires OwnChannel(c, id, channel) && InboxOf(c, channel) == []
    ensures FeedAll(Parser("", InHeader), wire).0 == Fed(es)
    ensures InboxOf(HandleAll(c, es), channel) == [block] + chunks
    ensures id !in HandleAll(c, es).requests
  {
    RoundTrip(es, wire);
    OnlyOwnEventsArrive(c, es, id, channel);
    DeliveredResponse(id, block, chunks);
    assert CloseResponse(id) in ResponseEvents(id, block, chunks);
    ProjectionKeeps(es, id, CloseResponse(id));
    CloseCloses(c, es, id);
  }

  // ---------- putting a response together ----------

  datatype Response = Response(status: nat, headers: map<string, string>, body: string)

  lemma JoinedMore(messages: seq<string>, i: nat)
    requires i < |messages|
    ensures Joined(messages[..i + 1]) == Joined(messages[..i]) + messages[i]
  {
    var m := messages[i];
    assert messages[..i + 1] == messages[..i] + [m];
    JoinedConcat(messages[..i], [m]);
    assert [m][1..] == [] && m + "" == m;
  }

  /** The body starts inside what has been received. */
  lemma StartInside(received: seq<string>, k: nat)
    requires k <= |received|
    ensures var p := ParseTunneled(Joined(received[..k])); p.Complete? ==> p.bodyStart <= |Joined(received)|
  {
    JoinedConcat(received[..k], received[k..]);
    assert received[..k] + received[k..] == received;
  }

  ghost predicate FirstComplete(received: seq<string>, k: nat)
    requires 0 < k <= |received|
  {
    && ParseTunneled(Joined(received[..k])).Complete?
    && forall j :: 0 < j < k ==> ParseTunneled(Joined(received[..j])).Incomplete?
  }

  /** The response a first complete parse leads to. */
  ghost function Assembled(received: seq<string>, k: nat): Response
    requires 0 < k <= |received| && FirstComplete(received, k)
  {
    var p := ParseTunneled(Joined(received[..k]));
    StartInside(received, k);
    Response(p.status, p.headers, Joined(received)[p.bodyStart..])
  }

  /** What the receiving loop knows after `i` messages. */
  ghost predicate Following(received: seq<string>, i: nat, parsed: Parsed, first: nat)
    requires i <= |received|
  {
    if parsed.Incomplete? then forall k :: 0 < k <= i ==> ParseTunneled(Joined(received[..k])).Incomplete?
    else 0 < first <= i && FirstComplete(received, first) && parsed == ParseTunneled(Joined(received[..first]))
  }

  lemma FollowOne(received: seq<string>, i: nat, parsed: Parsed, first: nat)
    requires i < |received| && Following(received, i, parsed, first)
    ensures if parsed.Complete? then Following(received, i + 1, parsed, first)
            else Following(received, i + 1, ParseTunneled(Joined(received[..i + 1])), i + 1)
  {
  }

  /** The receiving loop: collect everything, remember the first successful parse. */
  method CollectResponse(received: seq<string>) returns (r: Option<Response>)
    ensures r.Some? <==> exists k :: 0 < k <= |received| && ParseTunneled(Joined(received[..k])).Complete?
    ensures r.Some? ==>
              exists k :: 0 < k <= |received| && FirstComplete(received, k) && r.value == Assembled(received, k)
  {
    var buffer := "";
    var parsed := Incomplete;
    ghost var first := 0;
    for i := 0 to |received|
      invariant buffer == Joined(received[..i]) && Following(received, i, parsed, first)
    {
      JoinedMore(received, i);
      FollowOne(received, i, parsed, first);
      buffer := buffer + received[i];
      if parsed.Incomplete? {
        first := i + 1;
        parsed := ParseTunneledResponse(buffer);
      }
    }
    assert received[..|received|] == received;
    if parsed.Incomplete? { return None; }
    StartInside(received, first);
    r := Some(Response(parsed.status, parsed.headers, buffer[parsed.bodyStart..]));
    assert r.value == Assembled(received, first);
  }

  /** What was received for a response assembles to its status, headers and body. */
  lemma AssembledIsSent(status: nat, hs: seq<Header>, chunks: seq<string>, k: nat)
    requires status <= 0xFFFF && forall i :: 0 <= i < |hs| ==> WellFormed(hs[i])
    requires var received := [HeaderBlock(status, hs)] + chunks; 0 < k <= |received| && FirstComplete(received, k)
    ensures Assembled([HeaderBlock(status, hs)] + chunks, k) == Response(status, HeaderMap(hs), Joined(chunks))
  {
    var block := HeaderBlock(status, hs);
    var received := [block] + chunks;
    BlockReadsBack(status, hs, "");
    assert received[..1] == [block] && [block][1..] == [] && block + "" == block;
    assert Joined(received[..1]) == block;
    assert k == 1;
    assert received[1..] == chunks;
    assert Joined(received)[|block|..] == Joined(chunks);
  }

  /** End to end: however the frames of many responses are interleaved and their bytes cut
      up, what a request's channel receives assembles to the response that was sent to it. */
  lemma ResponseArrives(c: Client, es: seq<MultiplexEvent>, wire: seq<string>, id: string, channel: nat,
                        status: nat, hs: seq<Header>, chunks: seq<string>)
    requires status <= 0xFFFF && forall i :: 0 <= i < |hs| ==> WellFormed(hs[i])
    requires forall i :: 0 <= i < |es| ==> Printable(es[i])
    requires Joined(wire) == Wire(es)
    requires Projection(es, id) == ResponseEvents(id, HeaderBlock(status, hs), chunks)
    requires OwnChannel(c, id, channel) && InboxOf(c, channel) == []
    ensures var r := FeedAll(Parser("", InHeader), wire).0;
            && r.Fed?
            && var received := InboxOf(HandleAll(c, r.events), channel);
               && 0 < |received| && FirstComplete(received, 1)
               && Assembled(received, 1) == Response(status, HeaderMap(hs), Joined(chunks))
  {
    var block := HeaderBlock(status, hs);
    Demultiplexing(c, es, wire, id, channel, block, chunks);
    var received := [block] + chunks;
    assert FirstComplete(received, 1) by {
      BlockReadsBack(status, hs, "");
      assert received[..1] == [block] && [block][1..] == [] && block + "" == block;
    }
    AssembledIsSent(status, hs, chunks, 1);
  }
}
