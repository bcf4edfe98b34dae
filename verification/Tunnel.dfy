/** A response sent through a multiplexer: the header block the server writes, and how the
    client reads it back. */
module Tunnel {
  import opened Text

  datatype Header = Header(name: string, value: string)

  const CRLF := "\r\n"
  const BLANK := "\r\n\r\n"
  const STATUS := ":status:"

  function StatusLine(status: nat): string {
    STATUS + " " + Decimal(status)
  }

  function HeaderText(h: Header): string {
    h.name + ": " + h.value
  }

  function HeaderLines(hs: seq<Header>): string {
    if hs == [] then "" else HeaderLines(hs[..|hs| - 1]) + HeaderText(hs[|hs| - 1]) + CRLF
  }

  /** Status line, one line for each header, and a blank line. */
  function HeaderBlock(status: nat, hs: seq<Header>): string {
    StatusLine(status) + CRLF + HeaderLines(hs) + CRLF
  }

  method WriteHeaderBlock(status: nat, hs: seq<Header>) returns (block: string)
    ensures block == HeaderBlock(status, hs)
  {
    block := STATUS + " " + Decimal(status) + CRLF;
    for i := 0 to |hs|
      invariant block == StatusLine(status) + CRLF + HeaderLines(hs[..i])
    {
      assert hs[..i + 1][..i] == hs[..i];
      block := block + (hs[i].name + ": " + hs[i].value + CRLF);
    }
    assert hs[..|hs|] == hs;
    block := block + CRLF;
  }

  /** The block, spelled out: a status line, then a line for each header, then a blank line. */
  lemma BlockIsSpelled(status: nat, hs: seq<Header>, name: string, value: string) returns (start: string)
    ensures HeaderBlock(status, []) == ":status: " + Decimal(status) + "\r\n\r\n"
    ensures HeaderBlock(status, hs) == start + "\r\n"
    ensures HeaderBlock(status, hs + [Header(name, value)]) == start + name + ": " + value + "\r\n\r\n"
  {
    var more := hs + [Header(name, value)];
    assert more[..|more| - 1] == hs;
    start := StatusLine(status) + CRLF + HeaderLines(hs);
    assert HeaderLines(more) == HeaderLines(hs) + (name + ": " + value) + CRLF;
  }

  // ---------- reading ----------

  datatype Parsed = Complete(status: nat, headers: map<string, string>, bodyStart: nat) | Incomplete

  /** The pieces between line feeds, without a final carriage return, and without an empty
      last piece. */
  function Lines(s: string): (ls: seq<string>)
    decreases |s|
  {
    if s == "" then []
    else
      var at := Find(s, "\n");
      if at.None? then [s]
      else
        var line := s[..at.value];
        [if line != [] && line[|line| - 1] == '\r' then line[..|line| - 1] else line] + Lines(s[at.value + 1..])
  }

  datatype Heading = Heading(status: nat, headers: map<string, string>)

  /** What one line does to the status and the headers read so far. */
  function ReadHeader(h: Heading, raw: string): Heading {
    var line := Trim(raw);
    if line == "" then h
    else if STATUS <= line then
      var code := ParseUnsigned(Trim(line[|STATUS|..]), 0xFFFF);
      h.(status := if code.Some? then code.value else 200)
    else
      var at := Find(line, ":");
      if at.None? then h
      else h.(headers := h.headers[Lower(Trim(line[..at.value])) := Trim(line[at.value + 1..])])
  }

  function ReadHeaders(ls: seq<string>): Heading {
    if ls == [] then Heading(200, map[]) else ReadHeader(ReadHeaders(ls[..|ls| - 1]), ls[|ls| - 1])
  }

  /** A line up to a line feed, without one carriage return before it. */
  lemma LineIsCut(line: string, rest: string)
    requires forall i :: 0 <= i < |line| ==> line[i] != '\n'
    ensures Lines(line + "\n" + rest) ==
            [if line != "" && line[|line| - 1] == '\r' then line[..|line| - 1] else line] + Lines(rest)
    ensures Lines(line) == if line == "" then [] else [line]
  {
    var s := line + "\n" + rest;
    LineFeedIsFirst(line, rest);
    assert s[..|line|] == line && s[|line| + 1..] == rest;
    forall j: nat ensures !MatchesAt(line, "\n", j) { assert j + 1 <= |line| ==> line[j..j + 1][0] == line[j]; }
  }

  /** The status a line sets, if it sets one: 200 when its number cannot be read. */
  ghost predicate SetsStatus(raw: string, status: nat) {
    var line := Trim(raw);
    && ":status:" <= line
    && var text := Trim(line[8..]);
       if status < 0x1_0000 && ReadsAs(text, status) then true
       else status == 200 && forall n: nat :: n < 0x1_0000 ==> !ReadsAs(text, n)
  }

  /** The header a line gives, if it gives one: the first colon divides name and value. */
  ghost predicate GivesHeader(raw: string, name: string, value: string) {
    var line := Trim(raw);
    && !(":status:" <= line)
    && exists k: nat :: k < |line| && line[k] == ':' && ':' !in line[..k]
                        && name == Lower(Trim(line[..k])) && value == Trim(line[k + 1..])
  }

  lemma FirstColon(line: string, k: nat)
    requires k < |line| && line[k] == ':' && ':' !in line[..k]
    ensures Find(line, ":") == Some(k)
  {
    assert line[k..k + 1] == ":";
    forall j: nat | j < k ensures !MatchesAt(line, ":", j) {
      assert line[j..j + 1][0] == line[j] && line[..k][j] == line[j];
    }
    FindIsFirst(line, ":", k);
  }

  lemma ColonIsFound(line: string)
    ensures Find(line, ":").Some? <==> ':' in line
  {
    if Find(line, ":").Some? {
      var k := Find(line, ":").value;
      assert line[k] == line[k..k + 1][0];
    }
    forall j | 0 <= j < |line| && line[j] == ':' ensures MatchesAt(line, ":", j) { assert line[j..j + 1] == ":"; }
  }

  lemma StatusLineReads(h: Heading, raw: string, status: nat)
    requires SetsStatus(raw, status)
    ensures ReadHeader(h, raw) == h.(status := status)
  {
    var text := Trim(Trim(raw)[8..]);
    var code := ParseUnsigned(text, 0xFFFF);
    ParseUnsignedIff(text, 0xFFFF, status);
    if code.Some? { ParseUnsignedIff(text, 0xFFFF, code.value); }
  }

  lemma HeaderLineReads(h: Heading, raw: string, name: string, value: string)
    requires GivesHeader(raw, name, value)
    ensures ReadHeader(h, raw) == h.(headers := h.headers[name := value])
  {
    var line := Trim(raw);
    var k: nat :| k < |line| && line[k] == ':' && ':' !in line[..k]
                  && name == Lower(Trim(line[..k])) && value == Trim(line[k + 1..]);
    FirstColon(line, k);
  }

  lemma SomeStatus(raw: string) returns (status: nat)
    requires ":status:" <= Trim(raw)
    ensures SetsStatus(raw, status)
  {
    var text := Trim(Trim(raw)[8..]);
    var code := ParseUnsigned(text, 0xFFFF);
    status := if code.Some? then code.value else 200;
    forall n: nat ensures code == Some(n) <==> n < 0x1_0000 && ReadsAs(text, n) { ParseUnsignedIff(text, 0xFFFF, n); }
  }

  lemma SomeHeader(raw: string) returns (name: string, value: string)
    requires !(":status:" <= Trim(raw)) && ':' in Trim(raw)
    ensures GivesHeader(raw, name, value)
  {
    var line := Trim(raw);
    ColonIsFound(line);
    var k := Find(line, ":").value;
    assert line[k] == line[k..k + 1][0];
    forall j | 0 <= j < k ensures line[j] != ':' {
      assert !MatchesAt(line, ":", j);
      assert line[j..j + 1] == [line[j]];
    }
    name, value := Lower(Trim(line[..k])), Trim(line[k + 1..]);
    assert ':' !in line[..k];
  }

  /** A line that neither sets the status nor gives a header says nothing. */
  lemma OtherLineReads(h: Heading, raw: string)
    requires forall status: nat :: !SetsStatus(raw, status)
    requires forall name, value :: !GivesHeader(raw, name, value)
    ensures ReadHeader(h, raw) == h
  {
    var line := Trim(raw);
    if ":status:" <= line {
      var status := SomeStatus(raw);
    } else if ':' in line {
      var name, value := SomeHeader(raw);
    } else {
      ColonIsFound(line);
    }
  }

  /** The last line that sets the status decides it; without one it is 200. */
  lemma {:induction false} LastStatusCounts(ls: seq<string>)
    ensures (forall i :: 0 <= i < |ls| ==> !(":status:" <= Trim(ls[i]))) ==> ReadHeaders(ls).status == 200
    ensures forall i, status: nat {:trigger SetsStatus(ls[i], status)} ::
              0 <= i < |ls| && SetsStatus(ls[i], status) && (forall j :: i < j < |ls| ==>
                  !(":status:" <= Trim(ls[j]))) ==>
                ReadHeaders(ls).status == status
  {
    if ls != [] {
      var w, raw := ls[..|ls| - 1], ls[|ls| - 1];
      LastStatusCounts(w);
      forall i, status: nat | 0 <= i < |ls| && SetsStatus(ls[i], status) &&
                              (forall j :: i < j < |ls| ==> !(":status:" <= Trim(ls[j])))
        ensures ReadHeaders(ls).status == status
      {
        if i == |ls| - 1 { StatusLineReads(ReadHeaders(w), raw, status); } else { assert w[i] == ls[i]; }
      }
    }
  }

  /** The last of the lines that give this header. */
  ghost predicate LastGives(ls: seq<string>, i: nat, name: string, value: string) {
    && i < |ls| && GivesHeader(ls[i], name, value)
    && forall j, other :: i < j < |ls| ==> !GivesHeader(ls[j], name, other)
  }

  lemma OtherHeaderReads(h: Heading, raw: string, name: string)
    requires forall value :: !GivesHeader(raw, name, value)
    ensures name in ReadHeader(h, raw).headers <==> name in h.headers
    ensures name in h.headers ==> ReadHeader(h, raw).headers[name] == h.headers[name]
  {
    var line := Trim(raw);
    if ":status:" <= line {
      var status := SomeStatus(raw);
      StatusLineReads(h, raw, status);
    } else if ':' in line {
      var other, value := SomeHeader(raw);
      HeaderLineReads(h, raw, other, value);
    } else {
      forall other, value ensures !GivesHeader(raw, other, value) {}
      OtherLineReads(h, raw);
    }
  }

  /** The last line that gives a header decides its value; what no line gives is not there. */
  lemma {:induction false} LastHeaderCounts(ls: seq<string>, name: string)
    ensures forall i, value :: LastGives(ls, i, name, value) ==>
              name in ReadHeaders(ls).headers && ReadHeaders(ls).headers[name] == value
    ensures (forall i, value :: 0 <= i < |ls| ==> !GivesHeader(ls[i], name, value)) ==>
              name !in ReadHeaders(ls).headers
  {
    if ls != [] {
      var w, raw := ls[..|ls| - 1], ls[|ls| - 1];
      LastHeaderCounts(w, name);
      forall i, value | LastGives(ls, i, name, value)
        ensures name in ReadHeaders(ls).headers && ReadHeaders(ls).headers[name] == value
      {
        if i == |w| { HeaderLineReads(ReadHeaders(w), raw, name, value); } else
           { EarlierLineGives(ls, i, name, value); }
      }
      if forall i, value :: 0 <= i < |ls| ==> !GivesHeader(ls[i], name, value) {
        assert forall i :: 0 <= i < |w| ==> w[i] == ls[i];
        OtherHeaderReads(ReadHeaders(w), raw, name);
      }
    }
  }

  lemma EarlierLineGives(ls: seq<string>, i: nat, name: string, value: string)
    requires LastGives(ls, i, name, value) && i < |ls| - 1
    ensures var w := ls[..|ls| - 1];
            && LastGives(w, i, name, value)
            && (name in ReadHeaders(ls).headers <==> name in ReadHeaders(w).headers)
            && (name in ReadHeaders(w).headers ==> ReadHeaders(ls).headers[name] == ReadHeaders(w).headers[name])
  {
    var w := ls[..|ls| - 1];
    assert forall j :: 0 <= j < |w| ==> w[j] == ls[j];
    OtherHeaderReads(ReadHeaders(w), ls[|ls| - 1], name);
  }

  function ParseTunneled(s: string): Parsed {
    var end := Find(s, BLANK);
    if end.None? then Incomplete
    else
      var h := ReadHeaders(Lines(s[..end.value]));
      Complete(h.status, h.headers, end.value + 4)
  }

  /** The first blank line ends the block: what is before it is read, the body starts behind it,
      and without one there is no answer. */
  lemma BlankLineEndsBlock(s: string, k: nat)
    ensures (forall j: nat :: !MatchesAt(s, "\r\n\r\n", j)) ==> ParseTunneled(s) == Incomplete
    ensures MatchesAt(s, "\r\n\r\n", k) && (forall j: nat :: j < k ==> !MatchesAt(s, "\r\n\r\n", j)) ==>
              var h := ReadHeaders(Lines(s[..k])); ParseTunneled(s) == Complete(h.status, h.headers, k + 4)
  {
    if MatchesAt(s, BLANK, k) && forall j: nat :: j < k ==> !MatchesAt(s, BLANK, j) { FindIsFirst(s, BLANK, k); }
  }

  /** `parse_tunneled_response`: the loop over the lines. */
  method ParseTunneledResponse(s: string) returns (r: Parsed)
    ensures r == ParseTunneled(s)
  {
    var end := Find(s, BLANK);
    if end.None? { return Incomplete; }
    var lines := Lines(s[..end.value]);
    var status, headers := 200, map[];
    for i := 0 to |lines|
      invariant Heading(status, headers) == ReadHeaders(lines[..i])
    {
      assert lines[..i + 1][..i] == lines[..i];
      var line := Trim(lines[i]);
      if line == "" { continue; }
      if STATUS <= line {
        var code := ParseUnsigned(Trim(line[|STATUS|..]), 0xFFFF);
        status := if code.Some? then code.value else 200;
        continue;
      }
      var at := Find(line, ":");
      if at.Some? {
        headers := headers[Lower(Trim(line[..at.value])) := Trim(line[at.value + 1..])];
      }
    }
    assert lines[..|lines|] == lines;
    r := Complete(status, headers, end.value + 4);
  }

  // ---------- the block reads back ----------

  /** A name as HTTP allows it, and a value that stays on its line. */
  ghost predicate WellFormed(h: Header) {
    && h.name != "" && NoSpaces(h.name) && (forall i :: 0 <= i < |h.name| ==> h.name[i] != ':')
    && OnOneLine(h.value)
  }

  ghost predicate OnOneLine(s: string) {
    forall i :: 0 <= i < |s| ==> s[i] != '\r' && s[i] != '\n'
  }

  /** The headers a client sees: names in lower case, values trimmed, the last of a name wins. */
  function HeaderMap(hs: seq<Header>): map<string, string> {
    if hs == [] then map[]
    else HeaderMap(hs[..|hs| - 1])[Lower(hs[|hs| - 1].name) := Trim(hs[|hs| - 1].value)]
  }

  function JoinLines(ls: seq<string>): string {
    if ls == [] then "" else ls[0] + CRLF + JoinLines(ls[1..])
  }

  ghost predicate Solid(l: string) {
    l != "" && OnOneLine(l)
  }

  lemma {:induction false} JoinAppend(ls: seq<string>, l: string)
    ensures JoinLines(ls + [l]) == JoinLines(ls) + l + CRLF
  {
    if ls == [] {
      assert ls + [l] == [l] && [l][1..] == [];
    } else {
      JoinAppend(ls[1..], l);
      assert (ls + [l])[1..] == ls[1..] + [l];
    }
  }

  function BlockLines(status: nat, hs: seq<Header>): seq<string> {
    if hs == [] then [StatusLine(status)] else BlockLines(status, hs[..|hs| - 1]) + [HeaderText(hs[|hs| - 1])]
  }

  lemma CancelRight(a: string, b: string, c: string)
    requires a + c == b + c
    ensures a == b
  {
    assert |a| == |b| && (a + c)[..|a|] == a && (b + c)[..|a|] == b;
  }

  lemma {:induction false} BlockIsJoined(status: nat, hs: seq<Header>)
    ensures HeaderBlock(status, hs) == JoinLines(BlockLines(status, hs)) + CRLF
  {
    if hs == [] {
      assert [StatusLine(status)][1..] == [];
    } else {
      BlockIsJoined(status, hs[..|hs| - 1]);
      JoinAppend(BlockLines(status, hs[..|hs| - 1]), HeaderText(hs[|hs| - 1]));
      var before := StatusLine(status) + CRLF + HeaderLines(hs[..|hs| - 1]);
      CancelRight(before, JoinLines(BlockLines(status, hs[..|hs| - 1])), CRLF);
    }
  }

  lemma {:induction false} BlockLinesSolid(status: nat, hs: seq<Header>)
    requires forall i :: 0 <= i < |hs| ==> WellFormed(hs[i])
    ensures BlockLines(status, hs) != [] && forall i :: 0 <= i < |BlockLines(status, hs)| ==>
            Solid(BlockLines(status, hs)[i])
  {
    if hs == [] {
      DecimalHasNoSpaces(status);
    } else {
      BlockLinesSolid(status, hs[..|hs| - 1]);
      var h := hs[|hs| - 1];
      assert WellFormed(h);
      assert Solid(HeaderText(h));
    }
  }

  /** No blank line starts inside a line. */
  lemma NoBlankInside(l: string, tail: string, j: nat)
    requires OnOneLine(l) && j < |l|
    ensures !MatchesAt(l + tail, BLANK, j)
  {
    assert (l + tail)[j] == l[j] && BLANK[0] == '\r';
    assert j + 4 <= |l + tail| ==> (l + tail)[j..j + 4][0] == (l + tail)[j];
  }

  lemma NoBlankAtBreak(l: string, tail: string)
    requires tail != "" && tail[0] != '\r'
    ensures !MatchesAt(l + CRLF + tail, BLANK, |l|) && !MatchesAt(l + CRLF + tail, BLANK, |l| + 1)
  {
    var s := l + CRLF + tail;
    assert |l| + 4 <= |s| ==> s[|l|..|l| + 4][2] == tail[0];
    assert |l| + 5 <= |s| ==> s[|l| + 1..|l| + 5][0] == '\n';
  }

  lemma BlankAfterOne(l: string, rest: string)
    requires OnOneLine(l)
    ensures Find(l + BLANK + rest, BLANK) == Some(|l|)
  {
    var s := l + BLANK + rest;
    assert s[|l|..|l| + 4] == BLANK;
    assert s == l + (BLANK + rest);
    forall j: nat | j < |l| ensures !MatchesAt(s, BLANK, j) { NoBlankInside(l, BLANK + rest, j); }
    FindIsFirst(s, BLANK, |l|);
  }

  lemma BlankSkipsLine(l: string, tail: string)
    requires OnOneLine(l) && tail != "" && tail[0] != '\r' && Find(tail, BLANK).Some?
    ensures Find(l + CRLF + tail, BLANK) == Some(|l| + 2 + Find(tail, BLANK).value)
  {
    var s := l + CRLF + tail;
    NoBlankAtBreak(l, tail);
    Associate(l, CRLF, tail);
    forall j: nat | j < |l + CRLF| ensures !MatchesAt(s, BLANK, j) {
      if j < |l| { NoBlankInside(l, CRLF + tail, j); }
    }
    FindSkips(l + CRLF, tail, BLANK);
  }

  lemma JoinFirst(ls: seq<string>, rest: string)
    requires ls != []
    ensures JoinLines(ls) + rest == ls[0] + CRLF + (JoinLines(ls[1..]) + rest)
    ensures |JoinLines(ls)| == |ls[0]| + 2 + |JoinLines(ls[1..])|
  {
  }

  /** The blank line is found where the last line ends, whatever follows. */
  lemma {:induction false} BlankAfterLines(ls: seq<string>, rest: string)
    requires ls != [] && forall i :: 0 <= i < |ls| ==> Solid(ls[i])
    ensures Find(JoinLines(ls) + (CRLF + rest), BLANK) == Some(|JoinLines(ls)| - 2)
  {
    var l, more, end := ls[0], ls[1..], CRLF + rest;
    JoinFirst(ls, end);
    if more == [] {
      assert JoinLines(more) == "";
      BlankAfterOnly(l, rest);
    } else {
      var tail := JoinLines(more) + end;
      assert Find(tail, BLANK) == Some(|JoinLines(more)| - 2) by { BlankAfterLines(more, rest); }
      assert Solid(more[0]);
      JoinStarts(more, end);
      BlankSkipsLine(l, tail);
    }
  }

  lemma BlankAfterOnly(l: string, rest: string)
    requires OnOneLine(l)
    ensures Find(l + CRLF + ("" + (CRLF + rest)), BLANK) == Some(|l|)
  {
    BlankAfterOne(l, rest);
    assert l + CRLF + ("" + (CRLF + rest)) == l + BLANK + rest;
  }

  lemma JoinStarts(ls: seq<string>, rest: string)
    requires ls != [] && Solid(ls[0])
    ensures var s := JoinLines(ls) + rest; s != "" && s[0] != '\r'
  {
    JoinFirst(ls, rest);
    assert (JoinLines(ls) + rest)[0] == ls[0][0];
  }

  lemma NoFeedInside(l: string)
    requires OnOneLine(l)
    ensures Find(l, "\n").None?
  {
    forall j: nat ensures !MatchesAt(l, "\n", j) {
      assert j + 1 <= |l| ==> l[j..j + 1][0] == l[j];
    }
  }

  lemma LinesOfTwo(l: string, rest: string)
    requires OnOneLine(l)
    ensures Lines(l + CRLF + rest) == [l] + Lines(rest)
  {
    var head := l + "\r";
    var s := l + CRLF + rest;
    assert s == head + "\n" + rest;
    LineFeedIsFirst(head, rest);
    assert s[..|head|] == head && s[|head| + 1..] == rest && head[..|head| - 1] == l;
  }

  function WithoutLastBreak(s: string): string {
    if |s| >= 2 then s[..|s| - 2] else ""
  }

  lemma WithoutLastBreakOfMore(ls: seq<string>)
    requires |ls| > 1
    ensures WithoutLastBreak(JoinLines(ls)) == ls[0] + CRLF + WithoutLastBreak(JoinLines(ls[1..]))
  {
    JoinFirst(ls, "");
    JoinFirst(ls[1..], "");
    var tail := JoinLines(ls[1..]);
    assert JoinLines(ls) == ls[0] + CRLF + tail;
    assert (ls[0] + CRLF + tail)[..|ls[0]| + |tail|] == ls[0] + CRLF + tail[..|tail| - 2];
  }

  /** The text before the blank line splits into the lines it was made of. */
  lemma {:induction false} LinesOfJoined(ls: seq<string>)
    requires ls != [] && forall i :: 0 <= i < |ls| ==> Solid(ls[i])
    ensures Lines(WithoutLastBreak(JoinLines(ls))) == ls
  {
    var l := ls[0];
    if |ls| == 1 {
      assert JoinLines(ls[1..]) == "";
      assert WithoutLastBreak(JoinLines(ls)) == l;
      NoFeedInside(l);
      assert ls == [l];
    } else {
      LinesOfJoined(ls[1..]);
      WithoutLastBreakOfMore(ls);
      LinesOfTwo(l, WithoutLastBreak(JoinLines(ls[1..])));
      assert ls == [l] + ls[1..];
    }
  }

  lemma ReadStatus(h: Heading, status: nat)
    requires status <= 0xFFFF
    ensures ReadHeader(h, StatusLine(status)) == h.(status := status)
  {
    var d := Decimal(status);
    var line := StatusLine(status);
    DecimalHasNoSpaces(status);
    assert line[0] == ':' && line[|line| - 1] == d[|d| - 1];
    TrimNothing(line);
    assert line[|STATUS|..] == " " + d;
    assert (" " + d)[1..] == d;
    assert Trim(" " + d) == Trim(d);
    ParsePrinted(status, 0xFFFF);
  }

  lemma TrimmedHeader(h: Header)
    requires WellFormed(h)
    ensures Trim(HeaderText(h)) == h.name + ":" + TrimEnd(" " + h.value)
  {
    var text, key := HeaderText(h), h.name + ":";
    assert text == key + (" " + h.value);
    assert text[0] == h.name[0] && TrimStart(text) == text;
    TrimEndConcat(key, " " + h.value);
    assert key[|key| - 1] == ':';
  }

  lemma ColonEndsName(name: string, value: string)
    requires forall i :: 0 <= i < |name| ==> name[i] != ':'
    ensures Find(name + ":" + value, ":") == Some(|name|)
  {
    var line := name + ":" + value;
    assert line[|name|..|name| + 1] == ":";
    forall j: nat | j < |name| ensures !MatchesAt(line, ":", j) { assert line[j..j + 1][0] == name[j]; }
    FindIsFirst(line, ":", |name|);
  }

  lemma ReadWellFormed(g: Heading, h: Header)
    requires WellFormed(h)
    ensures ReadHeader(g, HeaderText(h)) == g.(headers := g.headers[Lower(h.name) := Trim(h.value)])
  {
    var value := TrimEnd(" " + h.value);
    var line := h.name + ":" + value;
    assert Trim(HeaderText(h)) == line by { TrimmedHeader(h); }
    assert line[0] == h.name[0] && STATUS[0] == ':' && !(STATUS <= line);
    assert Find(line, ":") == Some(|h.name|) by { ColonEndsName(h.name, value); }
    assert line[..|h.name|] == h.name && line[|h.name| + 1..] == value;
    assert Trim(h.name) == h.name by { TrimNothing(h.name); }
    assert Trim(value) == Trim(h.value) by { TrimTwice(h.value); }
  }

  lemma {:induction false} ReadBlockLines(status: nat, hs: seq<Header>)
    requires status <= 0xFFFF && forall i :: 0 <= i < |hs| ==> WellFormed(hs[i])
    ensures ReadHeaders(BlockLines(status, hs)) == Heading(status, HeaderMap(hs))
  {
    var ls := BlockLines(status, hs);
    if hs == [] {
      ReadStatus(Heading(200, map[]), status);
      assert ls[..0] == [];
    } else {
      ReadBlockLines(status, hs[..|hs| - 1]);
      ReadWellFormed(ReadHeaders(BlockLines(status, hs[..|hs| - 1])), hs[|hs| - 1]);
      assert ls[..|ls| - 1] == BlockLines(status, hs[..|hs| - 1]);
    }
  }

  lemma BlockEnds(status: nat, hs: seq<Header>, rest: string) returns (text: string)
    requires forall i :: 0 <= i < |hs| ==> WellFormed(hs[i])
    ensures HeaderBlock(status, hs) == text + BLANK && Lines(text) == BlockLines(status, hs)
    ensures Find(HeaderBlock(status, hs) + rest, BLANK) == Some(|text|)
  {
    var ls := BlockLines(status, hs);
    var joined, block := JoinLines(ls), HeaderBlock(status, hs);
    BlockLinesSolid(status, hs);
    text := WithoutLastBreak(joined);
    assert Lines(text) == ls by { LinesOfJoined(ls); }
    BlockIsJoined(status, hs);
    assert block == text + BLANK by {
      JoinEnds(ls);
      assert joined == joined[..|joined| - 2] + CRLF;
    }
    assert Find(joined + (CRLF + rest), BLANK) == Some(|joined| - 2) by { BlankAfterLines(ls, rest); }
    assert block + rest == joined + (CRLF + rest);
  }

  lemma {:induction false} JoinEnds(ls: seq<string>)
    requires ls != []
    ensures |JoinLines(ls)| >= 2 && JoinLines(ls)[|JoinLines(ls)| - 2..] == CRLF
  {
    if |ls| == 1 { assert JoinLines(ls[1..]) == ""; } else { JoinEnds(ls[1..]); }
  }

  /** However much of the body has arrived after it, a complete header block is read back
      as its status and headers, and the body starts where the block ends. */
  lemma BlockReadsBack(status: nat, hs: seq<Header>, rest: string)
    requires status <= 0xFFFF && forall i :: 0 <= i < |hs| ==> WellFormed(hs[i])
    ensures ParseTunneled(HeaderBlock(status, hs) + rest) ==
            Complete(status, HeaderMap(hs), |HeaderBlock(status, hs)|)
  {
    var text := BlockEnds(status, hs, rest);
    ReadBlockLines(status, hs);
    assert (HeaderBlock(status, hs) + rest)[..|text|] == text;
  }

  /** Until the block is complete there is no answer. */
  lemma PartOfBlockIsIncomplete(status: nat, hs: seq<Header>, k: nat)
    requires status <= 0xFFFF && forall i :: 0 <= i < |hs| ==> WellFormed(hs[i])
    requires k < |HeaderBlock(status, hs)|
    ensures ParseTunneled(HeaderBlock(status, hs)[..k]) == Incomplete
  {
    var block := HeaderBlock(status, hs);
    var text := BlockEnds(status, hs, "");
    assert block + "" == block;
    forall j: nat ensures !MatchesAt(block[..k], BLANK, j) {
      assert j + 4 <= k ==> block[j..j + 4] == block[..k][j..j + 4];
      assert j < |text| ==> !MatchesAt(block, BLANK, j);
    }
  }
}
