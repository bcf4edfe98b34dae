/** The multiplexing frames: printing events, and parsing them back from chunks that may
    end anywhere. */
module Multiplex {
  import opened Text

  datatype MultiplexEvent =
    | StartResponse(id: string)
    | Data(id: string, payload: string)
    | CloseResponse(id: string)

  const START := "start response "
  const BYTES := " bytes for response "
  const CLOSE := "close response "

  /** The largest size a header may announce (a 64-bit machine word). */
  const MAX_SIZE: nat := 0xFFFF_FFFF_FFFF_FFFF

  /** The header line of an event. */
  function HeaderLine(e: MultiplexEvent): string {
    match e
    case StartResponse(id) => START + id + "\r\n"
    case Data(id, payload) => Decimal(|payload|) + BYTES + id + "\r\n"
    case CloseResponse(id) => CLOSE + id + "\r\n"
  }

  /** What goes over the wire for an event: the header line, then the payload. */
  function Frame(e: MultiplexEvent): string {
    HeaderLine(e) + if e.Data? then e.payload else ""
  }

  function Wire(es: seq<MultiplexEvent>): string {
    if es == [] then "" else Frame(es[0]) + Wire(es[1..])
  }

  /** The wire format, spelled out. */
  lemma FramesAreSpelled(id: string, payload: string)
    ensures Frame(StartResponse(id)) == "start response " + id + "\r\n"
    ensures Frame(Data(id, payload)) == Decimal(|payload|) + " bytes for response " + id + "\r\n" + payload
    ensures Frame(CloseResponse(id)) == "close response " + id + "\r\n"
  {
    Associate("start response " + id + "\r\n", "", "");
    Associate("close response " + id + "\r\n", "", "");
  }

  // ---------- the parser as a function ----------

  datatype ParserState = InHeader | InData(id: string, remaining: nat)

  datatype LineMeaning =
    | Emit(event: MultiplexEvent)
    | Expect(id: string, size: nat)
    | Blank
    | Bad(message: string)

  function DropNewlines(s: string): string {
    if s != [] && (s[0] == '\r' || s[0] == '\n') then DropNewlines(s[1..]) else s
  }

  function ReadLine(line: string): LineMeaning {
    if START <= line then Emit(StartResponse(Trim(line[|START|..])))
    else
      var at := Find(line, BYTES);
      if at.Some? then
        var size := ParseUnsigned(Trim(DropNewlines(line[..at.value])), MAX_SIZE);
        if size.Some? then Expect(Trim(line[at.value + |BYTES|..]), size.value)
        else Bad("Invalid size in multiplex header: " + line)
      else if CLOSE <= line then Emit(CloseResponse(Trim(line[|CLOSE|..])))
      else if Trim(line) == [] then Blank
      else Bad("Unknown multiplex header: " + line)
  }

  datatype StepResult =
    | Waiting
    | Failing(message: string)
    | Going(buffer: string, state: ParserState, events: seq<MultiplexEvent>)

  /** What a header line leads to, with the bytes after it. */
  function AfterLine(line: LineMeaning, rest: string): StepResult {
    match line
    case Emit(e) => Going(rest, InHeader, [e])
    case Expect(id, size) => Going(rest, InData(id, size), [])
    case Blank => Going(rest, InHeader, [])
    case Bad(message) => Failing(message)
  }

  /** One turn of the parsing loop. */
  function Step(buffer: string, state: ParserState): StepResult {
    match state
    case InHeader =>
      var newline := Find(buffer, "\n");
      if newline.None? then Waiting
      else AfterLine(ReadLine(buffer[..newline.value + 1]), buffer[newline.value + 1..])
    case InData(id, remaining) =>
      if |buffer| >= remaining then Going(buffer[remaining..], InHeader, [Data(id, buffer[..remaining])])
      else Waiting
  }

  datatype Outcome = Outcome(events: seq<MultiplexEvent>, buffer: string, state: ParserState, error: Option<string>)

  function Prepend(events: seq<MultiplexEvent>, r: Outcome): Outcome {
    r.(events := events + r.events)
  }

  /** What bounds the number of turns: a data frame may consume nothing, but it ends in the
      header state, and a header consumes its line. */
  function Work(buffer: string, state: ParserState): nat {
    2 * |buffer| + if state.InData? then 1 else 0
  }

  lemma StepWorks(buffer: string, state: ParserState)
    ensures Step(buffer, state).Going? ==>
            Work(Step(buffer, state).buffer, Step(buffer, state).state) < Work(buffer, state)
  {
  }

  function Run(buffer: string, state: ParserState): Outcome
    decreases Work(buffer, state)
  {
    StepWorks(buffer, state);
    match Step(buffer, state)
    case Waiting => Outcome([], buffer, state, None)
    case Failing(message) => Outcome([], buffer, state, Some(message))
    case Going(b, s, es) => Prepend(es, Run(b, s))
  }

  // ---------- what a header line means ----------

  lemma {:induction false} TrimDropsNewlines(s: string)
    ensures Trim(DropNewlines(s)) == Trim(s)
  {
    if s != [] && (s[0] == '\r' || s[0] == '\n') {
      TrimDropsNewlines(s[1..]);
      assert TrimStart(s) == TrimStart(s[1..]);
    }
  }

  /** A size before " bytes for response " that a 64-bit word holds. */
  ghost predicate SaysSize(text: string, n: nat) {
    n < 0x1_0000_0000_0000_0000 && ReadsAs(Trim(text), n)
  }

  lemma SizeIsSaid(text: string, n: nat)
    ensures ParseUnsigned(Trim(DropNewlines(text)), MAX_SIZE) == Some(n) <==> SaysSize(text, n)
  {
    TrimDropsNewlines(text);
    ParseUnsignedIff(Trim(text), MAX_SIZE, n);
  }

  /** Lines that start a response, whatever else they hold. */
  lemma StartLines(line: string)
    ensures "start response " <= line ==> ReadLine(line) == Emit(StartResponse(Trim(line[15..])))
    ensures ReadLine(line).Emit? && ReadLine(line).event.StartResponse? ==> "start response " <= line
  {
  }

  /** Lines that announce data: the first " bytes for response " divides size and id, and a size
      that cannot be read is refused. */
  lemma SizeLines(line: string, k: nat)
    requires !("start response " <= line) && MatchesAt(line, " bytes for response ", k)
    requires forall j: nat :: j < k ==> !MatchesAt(line, " bytes for response ", j)
    ensures forall n: nat {:trigger SaysSize(line[..k], n)} :: SaysSize(line[..k], n) ==>
              ReadLine(line) == Expect(Trim(line[k + 20..]), n)
    ensures (forall n: nat :: !SaysSize(line[..k], n)) ==>
              ReadLine(line) == Bad("Invalid size in multiplex header: " + line)
  {
    FindIsFirst(line, BYTES, k);
    var size := ParseUnsigned(Trim(DropNewlines(line[..k])), MAX_SIZE);
    forall n: nat ensures size == Some(n) <==> SaysSize(line[..k], n) { SizeIsSaid(line[..k], n); }
    if size.Some? { assert SaysSize(line[..k], size.value); }
  }

  /** All other lines: one that closes a response, a blank one, or one that is refused. */
  lemma OtherLines(line: string)
    requires !("start response " <= line) && forall k: nat :: !MatchesAt(line, " bytes for response ", k)
    ensures ReadLine(line) ==
            if "close response " <= line then Emit(CloseResponse(Trim(line[15..])))
            else if forall i :: 0 <= i < |line| ==> IsSpace(line[i]) then Blank
            else Bad("Unknown multiplex header: " + line)
  {
    var i, j := TrimIsMiddle(line);
  }

  // ---------- chunks ----------

  lemma FirstNewlineStays(a: string, b: string)
    requires Find(a, "\n").Some?
    ensures Find(a + b, "\n") == Find(a, "\n")
  {
    var k := Find(a, "\n").value;
    assert (a + b)[k..k + 1] == a[k..k + 1];
    assert MatchesAt(a + b, "\n", k);
    forall j: nat | j < k ensures !MatchesAt(a + b, "\n", j) {
      assert (a + b)[j..j + 1] == a[j..j + 1];
      assert !MatchesAt(a, "\n", j);
    }
  }

  lemma AfterLineAppend(line: LineMeaning, rest: string, more: string)
    ensures AfterLine(line, rest + more) ==
              match AfterLine(line, rest)
              case Going(b, s, es) => Going(b + more, s, es)
              case other => other
  {
  }

  /** A turn that could be taken is taken the same way when more data follows. */
  lemma StepAppend(buffer: string, state: ParserState, more: string)
    ensures match Step(buffer, state)
            case Waiting => true
            case Failing(message) => Step(buffer + more, state) == Failing(message)
            case Going(b, s, es) => Step(buffer + more, state) == Going(b + more, s, es)
  {
    if state.InHeader? {
      if Find(buffer, "\n").Some? {
        FirstNewlineStays(buffer, more);
        var k := Find(buffer, "\n").value;
        var line, rest := buffer[..k + 1], buffer[k + 1..];
        assert (buffer + more)[..k + 1] == line && (buffer + more)[k + 1..] == rest + more;
        AfterLineAppend(ReadLine(line), rest, more);
      }
    } else if |buffer| >= state.remaining {
      assert (buffer + more)[..state.remaining] == buffer[..state.remaining];
      assert (buffer + more)[state.remaining..] == buffer[state.remaining..] + more;
    }
  }

  lemma PrependTwice(es: seq<MultiplexEvent>, fs: seq<MultiplexEvent>, r: Outcome)
    ensures Prepend(es, Prepend(fs, r)) == Prepend(es + fs, r)
  {
    assert es + (fs + r.events) == es + fs + r.events;
  }

  lemma {:induction false} RunAppend(buffer: string, state: ParserState, more: string)
    ensures var r := Run(buffer, state);
            Run(buffer + more, state) ==
              if r.error.None? then Prepend(r.events, Run(r.buffer + more, r.state)) else r.(buffer := r.buffer + more)
    decreases Work(buffer, state)
  {
    StepWorks(buffer, state);
    StepAppend(buffer, state, more);
    if Step(buffer, state).Going? {
      var Going(b, s, es) := Step(buffer, state);
      RunAppend(b, s, more);
      var r := Run(b, s);
      PrependTwice(es, r.events, Run(r.buffer + more, r.state));
    }
  }

  datatype Parser = Parser(buffer: string, state: ParserState)

  datatype FeedResult = Fed(events: seq<MultiplexEvent>) | Refused(message: string)

  /** `feed`: the events of the whole buffer, or an error that drops them. */
  function Feed(p: Parser, data: string): (FeedResult, Parser) {
    var r := Run(p.buffer + data, p.state);
    (if r.error.None? then Fed(r.events) else Refused(r.error.value), Parser(r.buffer, r.state))
  }

  /** Feeding `a` then `b` is feeding both at once: the same events, buffer and state, and
      the first of the two failures, if there is one. */
  lemma ChunkIndependence(p: Parser, a: string, b: string)
    ensures var (r1, p1) := Feed(p, a);
            var (r2, p2) := Feed(p1, b);
            Feed(p, a + b) == (if r1.Refused? then r1 else if r2.Refused? then r2 else Fed(r1.events + r2.events), p2)
  {
    assert p.buffer + (a + b) == p.buffer + a + b;
    RunAppend(p.buffer + a, p.state, b);
    RunEndsStuck(p.buffer + a, p.state);
    var r := Run(p.buffer + a, p.state);
    if r.error.Some? { StepAppend(r.buffer, r.state, b); }
  }

  /** A failed run stays at the line it failed on. */
  lemma {:induction false} RunEndsStuck(buffer: string, state: ParserState)
    ensures var r := Run(buffer, state);
            Step(r.buffer, r.state) == if r.error.None? then Waiting else Failing(r.error.value)
    decreases Work(buffer, state)
  {
    StepWorks(buffer, state);
    if Step(buffer, state).Going? { RunEndsStuck(Step(buffer, state).buffer, Step(buffer, state).state); }
  }

  function Joined(chunks: seq<string>): string {
    if chunks == [] then "" else chunks[0] + Joined(chunks[1..])
  }

  /** Feeding chunk after chunk, keeping all events, up to the first error. */
  function FeedAll(p: Parser, chunks: seq<string>): (FeedResult, Parser)
    decreases |chunks|
  {
    if chunks == [] then (Fed([]), p)
    else
      var (r, p1) := Feed(p, chunks[0]);
      if r.Refused? then (r, p1)
      else
        var (rest, p2) := FeedAll(p1, chunks[1..]);
        (if rest.Refused? then rest else Fed(r.events + rest.events), p2)
  }

  /** Once a line has been refused, feeding more only makes the buffer longer. */
  lemma RefusedStays(p: Parser, data: string)
    requires Step(p.buffer, p.state).Failing?
    ensures Feed(p, data) == (Refused(Step(p.buffer, p.state).message), Parser(p.buffer + data, p.state))
  {
    StepAppend(p.buffer, p.state, data);
  }

  /** Any chunking of the same bytes gives the result of feeding them at once, events or error,
      and the same parser, except that after an error the chunks not fed are not in the buffer. */
  lemma {:induction false} ChunkingIsIrrelevant(p: Parser, chunks: seq<string>) returns (unfed: string)
    requires Step(p.buffer, p.state) == Waiting
    ensures var (r, q) := FeedAll(p, chunks);
            Feed(p, Joined(chunks)) == (r, Parser(q.buffer + unfed, q.state)) && (r.Fed? ==> unfed == "")
    decreases |chunks|
  {
    if chunks == [] {
      assert p.buffer + "" == p.buffer;
      unfed := "";
    } else {
      var rest := Joined(chunks[1..]);
      ChunkIndependence(p, chunks[0], rest);
      var (r, p1) := Feed(p, chunks[0]);
      RunEndsStuck(p.buffer + chunks[0], p.state);
      if r.Fed? {
        unfed := ChunkingIsIrrelevant(p1, chunks[1..]);
      } else {
        RefusedStays(p1, rest);
        unfed := rest;
      }
    }
  }

  // ---------- printing and parsing ----------

  /** An id without white space, and a payload whose size a header can carry. */
  ghost predicate Printable(e: MultiplexEvent) {
    NoSpaces(e.id) && (e.Data? ==> |e.payload| <= MAX_SIZE)
  }

  /** Reading the buffer up to the line that was printed. */
  lemma StepReadsLine(head: string, rest: string)
    requires forall i :: 0 <= i < |head| ==> head[i] != '\n'
    ensures Step(head + "\n" + rest, InHeader) == AfterLine(ReadLine(head + "\n"), rest)
  {
    LineFeedIsFirst(head, rest);
    var s := head + "\n" + rest;
    assert s[..|head| + 1] == head + "\n" && s[|head| + 1..] == rest;
  }

  /** Where " bytes for response " can start, there is a space, and another one six
      characters on. */
  lemma BytesNeedsSpaces(s: string, j: nat)
    requires MatchesAt(s, BYTES, j)
    ensures s[j] == ' ' && s[j + 6] == ' '
  {
    assert s[j] == s[j..j + |BYTES|][0] && s[j + 6] == s[j..j + |BYTES|][6];
  }

  lemma ReadStart(id: string)
    requires NoSpaces(id)
    ensures ReadLine(START + id + "\r\n") == Emit(StartResponse(id))
  {
    var line := START + id + "\r\n";
    assert line[..|START|] == START && line[|START|..] == id + "\r\n";
    TrimLineEnd(id);
  }

  lemma SpacesOfClose(id: string)
    requires NoSpaces(id)
    ensures var line := CLOSE + id + "\r\n"; forall j :: 0 <= j < |line| && line[j] == ' ' ==> j == 5 || j == 14
  {
    var line := CLOSE + id + "\r\n";
    forall j | 0 <= j < |line| ensures line[j] == ' ' ==> j == 5 || j == 14 {
      if |CLOSE| <= j < |CLOSE| + |id| { assert line[j] == id[j - |CLOSE|]; }
    }
  }

  lemma ReadClose(id: string)
    requires NoSpaces(id)
    ensures ReadLine(CLOSE + id + "\r\n") == Emit(CloseResponse(id))
  {
    var line := CLOSE + id + "\r\n";
    assert line[0] == 'c' && START[0] == 's';
    assert line[..|CLOSE|] == CLOSE && line[|CLOSE|..] == id + "\r\n";
    TrimLineEnd(id);
    SpacesOfClose(id);
    forall j: nat ensures !MatchesAt(line, BYTES, j) {
      if MatchesAt(line, BYTES, j) { BytesNeedsSpaces(line, j); }
    }
  }

  lemma BytesFollowNumber(n: nat, rest: string)
    ensures Find(Decimal(n) + BYTES + rest, BYTES) == Some(|Decimal(n)|)
  {
    var d := Decimal(n);
    var line := d + BYTES + rest;
    assert line[|d|..|d| + |BYTES|] == BYTES;
    forall j: nat | j < |d| ensures !MatchesAt(line, BYTES, j) {
      assert IsDigit(d[j]) && line[j] == d[j];
      if MatchesAt(line, BYTES, j) { BytesNeedsSpaces(line, j); }
    }
    FindIsFirst(line, BYTES, |d|);
  }

  lemma ReadData(n: nat, id: string)
    requires NoSpaces(id) && n <= MAX_SIZE
    ensures ReadLine(Decimal(n) + BYTES + id + "\r\n") == Expect(id, n)
  {
    var d := Decimal(n);
    var line := d + BYTES + id + "\r\n";
    assert !(START <= line) by { assert line[0] == d[0] && IsDigit(d[0]) && START[0] == 's'; }
    assert Find(line, BYTES) == Some(|d|) by {
      BytesFollowNumber(n, id + "\r\n");
      assert line == d + BYTES + (id + "\r\n");
    }
    assert line[..|d|] == d && line[|d| + |BYTES|..] == id + "\r\n";
    assert ParseUnsigned(Trim(DropNewlines(d)), MAX_SIZE) == Some(n) by {
      DecimalHasNoSpaces(n);
      assert DropNewlines(d) == d;
      ParsePrinted(n, MAX_SIZE);
    }
    TrimLineEnd(id);
  }

  ghost predicate NoFeed(s: string) {
    forall i :: 0 <= i < |s| ==> s[i] != '\n'
  }

  lemma LineHasOneFeed(start: string, id: string)
    requires NoFeed(start) && NoSpaces(id)
    ensures NoFeed(start + id + "\r") && start + id + "\r\n" == start + id + "\r" + "\n"
  {
  }

  lemma HeaderLineHasOneFeed(e: MultiplexEvent) returns (head: string)
    requires Printable(e)
    ensures HeaderLine(e) == head + "\n" && NoFeed(head)
  {
    var start := match e case StartResponse(_) => START case CloseResponse(_) => CLOSE
                 case Data(_, payload) => Decimal(|payload|) + BYTES;
    if e.Data? { DecimalHasNoSpaces(|e.payload|); }
    LineHasOneFeed(start, e.id);
    head := start + e.id + "\r";
  }

  lemma RunGoes(buffer: string, state: ParserState, b: string, st: ParserState, es: seq<MultiplexEvent>)
    requires Step(buffer, state) == Going(b, st, es)
    ensures Run(buffer, state) == Prepend(es, Run(b, st))
  {
    StepWorks(buffer, state);
  }

  lemma DataFrameParses(id: string, payload: string, rest: string, head: string)
    requires Printable(Data(id, payload))
    requires HeaderLine(Data(id, payload)) == head + "\n" && NoFeed(head)
    ensures Run(Frame(Data(id, payload)) + rest, InHeader) == Prepend([Data(id, payload)], Run(rest, InHeader))
  {
    var body := payload + rest;
    ReadData(|payload|, id);
    StepReadsLine(head, body);
    assert Frame(Data(id, payload)) + rest == head + "\n" + body;
    RunGoes(head + "\n" + body, InHeader, body, InData(id, |payload|), []);
    assert body[..|payload|] == payload && body[|payload|..] == rest;
    RunGoes(body, InData(id, |payload|), rest, InHeader, [Data(id, payload)]);
    var es := [Data(id, payload)] + Run(rest, InHeader).events;
    assert [] + es == es;
  }

  lemma LineFrameIsLine(e: MultiplexEvent)
    requires !e.Data?
    ensures Frame(e) == HeaderLine(e)
  {
    assert HeaderLine(e) + "" == HeaderLine(e);
  }

  lemma LineFrameParses(e: MultiplexEvent, rest: string, head: string)
    requires Printable(e) && !e.Data?
    requires HeaderLine(e) == head + "\n" && NoFeed(head)
    ensures Run(Frame(e) + rest, InHeader) == Prepend([e], Run(rest, InHeader))
  {
    var s := head + "\n" + rest;
    assert Frame(e) + rest == s by { LineFrameIsLine(e); }
    assert Step(s, InHeader) == Going(rest, InHeader, [e]) by {
      if e.StartResponse? { ReadStart(e.id); } else { ReadClose(e.id); }
      StepReadsLine(head, rest);
    }
    assert Run(s, InHeader) == Prepend([e], Run(rest, InHeader)) by { RunGoes(s, InHeader, rest, InHeader, [e]); }
  }

  /** A printed frame at the front of the buffer comes out as its event. */
  lemma FrameParses(e: MultiplexEvent, rest: string)
    requires Printable(e)
    ensures Run(Frame(e) + rest, InHeader) == Prepend([e], Run(rest, InHeader))
  {
    var head := HeaderLineHasOneFeed(e);
    if e.Data? {
      DataFrameParses(e.id, e.payload, rest, head);
    } else {
      LineFrameParses(e, rest, head);
    }
  }

  lemma {:induction false} WireParses(es: seq<MultiplexEvent>)
    requires forall i :: 0 <= i < |es| ==> Printable(es[i])
    ensures Run(Wire(es), InHeader) == Outcome(es, "", InHeader, None)
  {
    if es != [] {
      var e, rest := es[0], Wire(es[1..]);
      assert Run(rest, InHeader) == Outcome(es[1..], "", InHeader, None) by { WireParses(es[1..]); }
      assert Wire(es) == Frame(e) + rest;
      assert Run(Wire(es), InHeader) == Prepend([e], Run(rest, InHeader)) by { FrameParses(e, rest); }
      assert [e] + es[1..] == es;
    }
  }

  /** Round trip: printed events, cut into chunks anywhere, parse back to exactly those
      events and leave a fresh parser behind. */
  lemma RoundTrip(es: seq<MultiplexEvent>, chunks: seq<string>)
    requires forall i :: 0 <= i < |es| ==> Printable(es[i])
    requires Joined(chunks) == Wire(es)
    ensures FeedAll(Parser("", InHeader), chunks) == (Fed(es), Parser("", InHeader))
  {
    WireParses(es);
    var unfed := ChunkingIsIrrelevant(Parser("", InHeader), chunks);
    assert "" + Joined(chunks) == Joined(chunks);
  }

  // ---------- the parser object ----------

  class MultiplexParser {
    var buffer: string
    var state: ParserState

    ghost function Now(): Parser
      reads this
    {
      Parser(buffer, state)
    }

    constructor ()
      ensures Now() == Parser("", InHeader)
    {
      buffer, state := "", InHeader;
    }

    method Consume(n: nat)
      requires n <= |buffer|
      modifies `buffer
      ensures buffer == old(buffer)[n..]
    {
      buffer := buffer[n..];
    }

    /** Scans for the end of the first line. */
    method FindLineEnd() returns (found: bool, lineEnd: nat)
      ensures found <==> Find(buffer, "\n").Some?
      ensures found ==> lineEnd == Find(buffer, "\n").value + 1 <= |buffer|
    {
      for i := 0 to |buffer|
        invariant forall j: nat :: j < i ==> !MatchesAt(buffer, "\n", j)
      {
        assert buffer[i..i + 1][0] == buffer[i];
        if buffer[i] == '\n' {
          assert MatchesAt(buffer, "\n", i);
          return true, i + 1;
        }
      }
      found, lineEnd := false, 0;
    }

    /** One turn of the loop of `feed`. */
    method Turn() returns (s: StepResult)
      modifies this
      ensures s == Step(old(buffer), old(state))
      ensures if s.Going? then buffer == s.buffer && state == s.state else unchanged(this)
    {
      match state
      case InHeader =>
        var found, lineEnd := FindLineEnd();
        if !found { return Waiting; }
        var line := ReadLine(buffer[..lineEnd]);
        assert Step(buffer, state) == AfterLine(line, buffer[lineEnd..]);
        match line {
          case Emit(e) =>
            Consume(lineEnd);
            s := Going(buffer, state, [e]);
          case Expect(id, size) =>
            state := InData(id, size);
            Consume(lineEnd);
            s := Going(buffer, state, []);
          case Blank =>
            Consume(lineEnd);
            s := Going(buffer, state, []);
          case Bad(message) =>
            s := Failing(message);
        }
      case InData(id, remaining) =>
        if |buffer| < remaining { return Waiting; }
        var data := buffer[..remaining];
        Consume(remaining);
        state := InHeader;
        s := Going(buffer, state, [Data(id, data)]);
    }

    /** Takes in a chunk and returns the events that are complete now. */
    method FeedChunk(data: string) returns (r: FeedResult)
      modifies this
      ensures (r, Now()) == Feed(old(Now()), data)
    {
      buffer := buffer + data;
      var events: seq<MultiplexEvent> := [];
      while true
        invariant Prepend(events, Run(buffer, state)) == Run(old(buffer) + data, old(state))
        decreases Work(buffer, state)
      {
        StepWorks(buffer, state);
        var s := Turn();
        if s.Waiting? { break; }
        if s.Failing? { return Refused(s.message); }
        PrependTwice(events, s.events, Run(s.buffer, s.state));
        events := events + s.events;
      }
      assert Run(buffer, state) == Outcome([], buffer, state, None);
      assert events + [] == events;
      r := Fed(events);
    }
  }
}
