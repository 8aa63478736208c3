/** The text of an HTTP/1.1 message as HttpBase sends it, and the proof that the parser
    reads every such message back. Chunks are those of section 3.6.1 of RFC 2616. */
module HttpMessage {
  import opened CText
  import opened HttpParsing

  const CRLF := "\r\n"

  /** kChunkDigits. */
  const CHUNK_DIGITS: nat := 8

  /** The empty chunk and the empty trailers. */
  const LAST_CHUNK := "0\r\n\r\n"

  function HeaderLine(h: Header): string {
    CStr(h.name) + ": " + CStr(h.value) + CRLF
  }

  function HeaderLines(hs: seq<Header>): string {
    if hs == [] then "" else HeaderLines(hs[..|hs| - 1]) + HeaderLine(hs[|hs| - 1])
  }

  function ChunkText(chunk: string): string {
    HexText(|chunk|, CHUNK_DIGITS) + CRLF + (chunk + CRLF)
  }

  function ChunkTexts(chunks: seq<string>): string {
    if chunks == [] then "" else ChunkTexts(chunks[..|chunks| - 1]) + ChunkText(chunks[|chunks| - 1])
  }

  function Joined(chunks: seq<string>): string {
    if chunks == [] then "" else Joined(chunks[..|chunks| - 1]) + chunks[|chunks| - 1]
  }

  /** What a further field adds to the text of the fields. */
  lemma {:induction false} OneMoreField(hs: seq<Header>, f: Header)
    requires '\0' !in f.name && '\0' !in f.value
    ensures HeaderLines(hs + [f]) == HeaderLines(hs) + (f.name + ": " + f.value + "\r\n") && HeaderLines([]) == ""
  {
    assert (hs + [f])[..|hs + [f]| - 1] == hs;
  }

  /** What a further chunk adds to the text of the chunks. */
  lemma {:induction false} OneMoreChunk(chunks: seq<string>, chunk: string)
    ensures ChunkTexts(chunks + [chunk]) == ChunkTexts(chunks) + ChunkText(chunk)
    ensures ChunkText(chunk) == HexText(|chunk|, 8) + "\r\n" + (chunk + "\r\n") && ChunkTexts([]) == ""
    ensures Joined(chunks + [chunk]) == Joined(chunks) + chunk
  {
    var longer := chunks + [chunk];
    assert longer[..|longer| - 1] == chunks;
  }

  /** Everything before the body. */
  function Head(leader: string, hs: seq<Header>): string {
    leader + CRLF + HeaderLines(hs) + CRLF
  }

  function ChunkedBody(chunks: seq<string>): string {
    ChunkTexts(chunks) + LAST_CHUNK
  }

  // What can be read back

  /** A leader without a line end inside and without white space at its end. */
  predicate PlainLeader(s: string) {
    '\n' !in s && TrimEnd(s) == s
  }

  predicate PlainText(s: string) {
    '\n' !in s && '\0' !in s
  }

  predicate PlainField(h: Header) {
    PlainText(h.name) && ':' !in h.name && PlainText(h.value) && Trimmed(h.value)
  }

  predicate PlainFields(hs: seq<Header>) {
    forall h | h in hs :: PlainField(h)
  }

  /** The body framing that a list of header fields announces, starting from the parser's reset values. */
  function Announced(hs: seq<Header>): Option<(bool, Size)> {
    if hs == [] then Some((false, SIZE_UNKNOWN))
    else
      match Announced(hs[..|hs| - 1])
      case None => None
      case Some(framing) => FieldEffect(framing.0, framing.1, hs[|hs| - 1])
  }

  function FieldEvents(hs: seq<Header>): seq<Event> {
    if hs == [] then [] else FieldEvents(hs[..|hs| - 1]) + [HeaderField(hs[|hs| - 1])]
  }

  /** The callbacks that a message makes before its body. */
  function HeadEvents(leader: string, hs: seq<Header>): seq<Event> {
    [LeaderLine(leader)] + FieldEvents(hs)
  }

  /** The receiver likes the leader and takes the announced framing as it is. */
  predicate Accepts(h: Hooks, leader: string, hs: seq<Header>) {
    && h.parseLeader(leader) == NoError
    && Announced(hs).Some?
    && var (chunked, size) := Announced(hs).value;
    h.headersDone(HeadEvents(leader, hs), chunked, size) == Verdict(NoError, size, false)
  }

  // Lines

  lemma {:induction false} TrimEndSpaces(s: string, t: string)
    requires TrimEnd(s) == s && forall i | 0 <= i < |t| :: IsSpace(t[i])
    ensures TrimEnd(s + t) == s
  {
    if t == [] {
      assert s + t == s;
    } else {
      assert (s + t)[..|s + t| - 1] == s + t[..|t| - 1];
      TrimEndSpaces(s, t[..|t| - 1]);
    }
  }

  /** White space before the end of a line does not matter. */
  lemma {:induction false} RunPaddedLine(h: Hooks, m: Machine, line: string, padding: string)
    requires m.outcome.Continue? && WantsLine(m.parse.state) && m.pending == ""
    requires '\n' !in line && TrimEnd(line) == line
    requires forall i | 0 <= i < |padding| :: IsSpace(padding[i]) && padding[i] != '\n'
    ensures var (p, o) := LineStep(h, m.parse, line);
            Run(h, m, line + padding + ['\n']) == Settle(Machine(p, "", o, m.taken + |line| + |padding| + 1))
  {
    TrimEndSpaces(line, padding);
    RunLine(h, m, line + padding);
  }

  lemma {:induction false} RunCrlfLine(h: Hooks, m: Machine, line: string)
    requires m.outcome.Continue? && WantsLine(m.parse.state) && m.pending == ""
    requires '\n' !in line && TrimEnd(line) == line
    ensures var (p, o) := LineStep(h, m.parse, line);
            Run(h, m, line + CRLF) == Settle(Machine(p, "", o, m.taken + |line| + 2))
  {
    assert line + CRLF == line + ['\r'] + ['\n'];
    RunPaddedLine(h, m, line, ['\r']);
  }

  /** A header line as the parser sees it: without the white space at its end. */
  function BareLine(f: Header): string {
    f.name + ":" + (if f.value == "" then "" else " " + f.value)
  }

  lemma {:induction false} BareLineIsPlain(f: Header)
    requires PlainField(f)
    ensures var line := BareLine(f); line != "" && '\n' !in line && TrimEnd(line) == line
  {
    var line := BareLine(f);
    assert line[|line| - 1] == if f.value == "" then ':' else f.value[|f.value| - 1];
  }

  /** A printed header line splits back into its field. */
  lemma {:induction false} FieldSplits(f: Header)
    requires PlainField(f)
    ensures SplitField(BareLine(f)) == Some(f)
  {
    hide StrChrN;
    var rest := if f.value == "" then "" else " " + f.value;
    var line := BareLine(f);
    assert line == f.name + [':'] + rest;
    StrChrNFinds(f.name, ':', rest);
    assert line[|f.name| + 1..] == rest;
    if f.value != "" {
      assert rest[1..] == f.value;
      assert SpaceRun(rest) == 1;
    }
    assert line[..|f.name|] == f.name;
    assert line[|f.name| + 1 + SpaceRun(rest)..] == f.value;
  }

  lemma {:induction false} HeaderLineIsBareLine(f: Header)
    requires PlainField(f)
    ensures HeaderLine(f) == BareLine(f) + (if f.value == "" then [' ', '\r'] else ['\r']) + ['\n']
  {
  }

  /** Reading a printed header line is one step on its bare line. */
  lemma {:induction false} RunPrintedField(h: Hooks, m: Machine, f: Header)
    requires m.outcome.Continue? && WantsLine(m.parse.state) && m.pending == ""
    requires PlainField(f)
    ensures var (p, o) := LineStep(h, m.parse, BareLine(f));
            Run(h, m, HeaderLine(f)) == Settle(Machine(p, "", o, m.taken + |HeaderLine(f)|))
  {
    hide LineStep, SplitField, Run, TrimEnd;
    HeaderLineIsBareLine(f);
    BareLineIsPlain(f);
    RunPaddedLine(h, m, BareLine(f), if f.value == "" then [' ', '\r'] else ['\r']);
  }

  lemma {:induction false} RunHeaderLine(h: Hooks, m: Machine, f: Header)
    requires m.outcome.Continue? && m.parse.state.Headers? && m.pending == ""
    requires PlainField(f) && FieldEffect(m.parse.chunked, m.parse.dataSize, f).Some?
    ensures var effect := FieldEffect(m.parse.chunked, m.parse.dataSize, f).value;
            Run(h, m, HeaderLine(f)) ==
            m.(parse := m.parse.(chunked := effect.0, dataSize := effect.1,
                                 events := m.parse.events + [HeaderField(f)]),
               taken := m.taken + |HeaderLine(f)|)
  {
    hide FieldEffect, SplitField, Run;
    RunPrintedField(h, m, f);
    BareLineIsPlain(f);
    FieldSplits(f);
  }

  lemma {:induction false} RunHeaderLines(h: Hooks, m: Machine, hs: seq<Header>)
    requires m.outcome.Continue? && m.parse.state.Headers? && m.pending == ""
    requires !m.parse.chunked && m.parse.dataSize == SIZE_UNKNOWN
    requires PlainFields(hs) && Announced(hs).Some?
    ensures var framing := Announced(hs).value;
            Run(h, m, HeaderLines(hs)) ==
            m.(parse := m.parse.(chunked := framing.0, dataSize := framing.1,
                                 events := m.parse.events + FieldEvents(hs)),
               taken := m.taken + |HeaderLines(hs)|)
  {
    hide FieldEffect, HeaderLine, Feed;
    if hs == [] {
      assert m.parse.events + [] == m.parse.events;
    } else {
      var front, last := hs[..|hs| - 1], hs[|hs| - 1];
      RunHeaderLines(h, m, front);
      RunConcat(h, m, HeaderLines(front), HeaderLine(last));
      RunHeaderLine(h, Run(h, m, HeaderLines(front)), last);
      assert m.parse.events + FieldEvents(front) + [HeaderField(last)] == m.parse.events + FieldEvents(hs);
    }
  }

  /** After its head, a message has made exactly the callbacks for its leader and its fields,
      and the parser stands at the body. */
  lemma {:induction false} RunHead(h: Hooks, leader: string, hs: seq<Header>)
    requires PlainLeader(leader) && PlainFields(hs) && Accepts(h, leader, hs)
    ensures var (chunked, size) := Announced(hs).value;
            Run(h, START, Head(leader, hs)) ==
            Settle(Machine(Parse(if chunked then ChunkSize else Data, chunked, size, false,
                                 HeadEvents(leader, hs) + [HeadersDone(chunked, size)], ""),
                           "", Continue, |Head(leader, hs)|))
  {
    hide FieldEffect;
    RunCrlfLine(h, START, leader);
    var m := Run(h, START, leader + CRLF);
    RunHeaderLines(h, m, hs);
    var n := Run(h, m, HeaderLines(hs));
    RunConcat(h, START, leader + CRLF, HeaderLines(hs));
    RunCrlfLine(h, n, "");
    RunConcat(h, START, leader + CRLF + HeaderLines(hs), CRLF);
    assert "" + CRLF == CRLF;
    assert START.parse.events + [LeaderLine(leader)] == [LeaderLine(leader)];
    assert n.parse.events == HeadEvents(leader, hs);
  }

  // Chunks

  predicate ProperChunk(chunk: string) {
    0 < |chunk| < SIZE_UNKNOWN
  }

  lemma {:induction false} RunChunk(h: Hooks, m: Machine, chunk: string)
    requires m.outcome.Continue? && m.parse.state.ChunkSize? && m.parse.chunked && !m.parse.discard && m.pending == ""
    requires ProperChunk(chunk)
    ensures Run(h, m, ChunkText(chunk)) ==
            m.(parse := m.parse.(dataSize := 0, body := m.parse.body + chunk), taken := m.taken + |ChunkText(chunk)|)
  {
    hide StrToUL, Run;
    var digits := HexText(|chunk|, CHUNK_DIGITS);
    assert |chunk| < Pow16(CHUNK_DIGITS) by {
      assert Pow16(8) == 256 * Pow16(6);
      assert Pow16(6) == 256 * Pow16(4);
      assert Pow16(4) == 256 * Pow16(2);
    }
    HexRoundTrip(|chunk|, CHUNK_DIGITS);
    assert IsDigit(digits[7], 16);
    assert '\n' !in digits by {
      forall i | 0 <= i < |digits| ensures digits[i] != '\n' { assert IsDigit(digits[i], 16); }
    }
    RunCrlfLine(h, m, digits);
    var n := Run(h, m, digits + CRLF);
    RunConcat(h, m, digits + CRLF, chunk + CRLF);
    RunBody(h, n, chunk);
    var e := Run(h, n, chunk);
    RunConcat(h, n, chunk, CRLF);
    RunCrlfLine(h, e, "");
    assert "" + CRLF == CRLF;
  }

  lemma {:induction false} RunChunks(h: Hooks, m: Machine, chunks: seq<string>)
    requires m.outcome.Continue? && m.parse.state.ChunkSize? && m.parse.chunked && !m.parse.discard && m.pending == ""
    requires forall c | c in chunks :: ProperChunk(c)
    ensures Run(h, m, ChunkTexts(chunks)) ==
            m.(parse := m.parse.(dataSize := if chunks == [] then m.parse.dataSize else 0,
                                 body := m.parse.body + Joined(chunks)),
               taken := m.taken + |ChunkTexts(chunks)|)
  {
    hide ChunkText, LineStep, Feed;
    if chunks == [] {
      assert m.parse.body + "" == m.parse.body;
    } else {
      var front, last := chunks[..|chunks| - 1], chunks[|chunks| - 1];
      RunChunks(h, m, front);
      var n := Run(h, m, ChunkTexts(front));
      RunConcat(h, m, ChunkTexts(front), ChunkText(last));
      assert last in chunks;
      RunChunk(h, n, last);
      assert n.parse.body + last == m.parse.body + Joined(chunks);
    }
  }

  lemma {:induction false} RunLastChunk(h: Hooks, m: Machine)
    requires m.outcome.Continue? && m.parse.state.ChunkSize? && m.pending == ""
    ensures Run(h, m, LAST_CHUNK) ==
            Machine(m.parse.(state := Trailers, dataSize := 0), "", Finished(NoError), m.taken + 5)
  {
    hide StrToUL, Run;
    assert HexText(0, 1) == "0" by { assert HexText(0, 0) == []; }
    HexRoundTrip(0, 1);
    RunCrlfLine(h, m, "0");
    var n := Run(h, m, "0" + CRLF);
    RunCrlfLine(h, n, "");
    RunConcat(h, m, "0" + CRLF, "" + CRLF);
    assert LAST_CHUNK == ("0" + CRLF) + ("" + CRLF);
  }

  // Round trips

  /** Every chunked message is read back: the same leader, fields and body, with no error and nothing left over. */
  lemma {:induction false} ChunkedRoundTrip(h: Hooks, leader: string, hs: seq<Header>, chunks: seq<string>)
    requires PlainLeader(leader) && PlainFields(hs) && Accepts(h, leader, hs)
    requires Announced(hs).value.0 && forall c | c in chunks :: ProperChunk(c)
    ensures var text := Head(leader, hs) + ChunkedBody(chunks);
            var m := Run(h, START, text);
            && m.outcome == Finished(NoError) && m.taken == |text|
            && m.parse.events == HeadEvents(leader, hs) + [HeadersDone(true, Announced(hs).value.1)]
            && m.parse.body == Joined(chunks)
  {
    var head := Head(leader, hs);
    RunHead(h, leader, hs);
    var m := Run(h, START, head);
    RunConcat(h, START, head, ChunkedBody(chunks));
    RunChunks(h, m, chunks);
    var n := Run(h, m, ChunkTexts(chunks));
    assert m.parse.body + Joined(chunks) == Joined(chunks);
    RunConcat(h, m, ChunkTexts(chunks), LAST_CHUNK);
    RunLastChunk(h, n);
  }

  /** Every message whose announced length is that of its body is read back the same way. */
  lemma {:induction false} LengthRoundTrip(h: Hooks, leader: string, hs: seq<Header>, body: string)
    requires PlainLeader(leader) && PlainFields(hs) && Accepts(h, leader, hs)
    requires !Announced(hs).value.0 && Announced(hs).value.1 == |body| < SIZE_UNKNOWN
    ensures var text := Head(leader, hs) + body;
            var m := Run(h, START, text);
            && m.outcome == Finished(NoError) && m.taken == |text|
            && m.parse.events == HeadEvents(leader, hs) + [HeadersDone(false, |body|)]
            && m.parse.body == body
  {
    var head := Head(leader, hs);
    RunHead(h, leader, hs);
    RunConcat(h, START, head, body);
    if body == "" {
      RunStops(h, Run(h, START, head), body);
    } else {
      RunBody(h, Run(h, START, head), body);
    }
    assert "" + body == body;
  }

  /** Without any announcement the body is what arrives until the connection closes. */
  lemma {:induction false} CloseDelimitedRoundTrip(h: Hooks, leader: string, hs: seq<Header>, body: string)
    requires PlainLeader(leader) && PlainFields(hs) && Accepts(h, leader, hs)
    requires Announced(hs).value == (false, SIZE_UNKNOWN)
    ensures var m := Run(h, START, Head(leader, hs) + body);
            && m.outcome == Continue && m.parse.state == Data && m.parse.dataSize == SIZE_UNKNOWN
            && m.parse.events == HeadEvents(leader, hs) + [HeadersDone(false, SIZE_UNKNOWN)]
            && m.parse.body == body
  {
    RunHead(h, leader, hs);
    RunConcat(h, START, Head(leader, hs), body);
    RunBody(h, Run(h, START, Head(leader, hs)), body);
    assert "" + body == body;
  }

  /** A message without a document ends if and only if its fields announce an empty body of known length. */
  lemma {:induction false} HeadAloneEnds(h: Hooks, leader: string, hs: seq<Header>)
    requires PlainLeader(leader) && PlainFields(hs) && Accepts(h, leader, hs)
    ensures Run(h, START, Head(leader, hs)).outcome == Finished(NoError) <==> Announced(hs).value == (false, 0)
  {
    RunHead(h, leader, hs);
  }

  // The two framings of HttpData::setDocumentAndLength

  /** The field says nothing about the body. */
  predicate Neutral(f: Header) {
    !EqualsNoCase(f.name, CONTENT_LENGTH) && !EqualsNoCase(f.name, TRANSFER_ENCODING)
  }

  lemma {:induction false} NeutralAnnounced(hs: seq<Header>)
    requires forall f | f in hs :: Neutral(f)
    ensures Announced(hs) == Some((false, SIZE_UNKNOWN))
  {
    if hs != [] {
      assert hs[|hs| - 1] in hs;
      NeutralAnnounced(hs[..|hs| - 1]);
    }
  }

  /** Where the framing field stands among the others does not matter. */
  lemma {:induction false} FramingAnnounced(before: seq<Header>, framing: Header, after: seq<Header>)
    requires forall f | f in before + after :: Neutral(f)
    ensures Announced(before + [framing] + after) == FieldEffect(false, SIZE_UNKNOWN, framing)
  {
    var hs := before + [framing] + after;
    if after == [] {
      assert hs[..|hs| - 1] == before && hs[|hs| - 1] == framing;
      assert forall f | f in before :: f in before + after;
      NeutralAnnounced(before);
    } else {
      var front := after[..|after| - 1];
      assert hs[..|hs| - 1] == before + [framing] + front;
      assert forall f | f in before + front :: f in before + after;
      FramingAnnounced(before, framing, front);
      assert hs[|hs| - 1] == after[|after| - 1] && after[|after| - 1] in before + after;
    }
  }

  /** setDocumentAndLength for a document of known size. */
  lemma {:induction false} ContentLengthAnnounces(before: seq<Header>, after: seq<Header>, n: nat)
    requires n <= ULONG_MAX && forall f | f in before + after :: Neutral(f)
    ensures Announced(before + [Header(CONTENT_LENGTH, DecimalText(n))] + after) == Some((false, n))
  {
    DecimalRoundTrip(n);
    FramingAnnounced(before, Header(CONTENT_LENGTH, DecimalText(n)), after);
    assert DecimalText(n) != "";
  }

  /** setDocumentAndLength for a document of unknown size. */
  lemma {:induction false} TransferEncodingAnnounces(before: seq<Header>, after: seq<Header>)
    requires forall f | f in before + after :: Neutral(f)
    ensures Announced(before + [Header(TRANSFER_ENCODING, "chunked")] + after) == Some((true, SIZE_UNKNOWN))
  {
    FramingAnnounced(before, Header(TRANSFER_ENCODING, "chunked"), after);
    assert |CONTENT_LENGTH| != |TRANSFER_ENCODING|;
  }
}
