/** What HttpParser means: a machine that reads one character at a time.

    `LineStep` says what a complete line does and `Feed` what one character does, so
    the meaning of a byte stream (`Run`) does not know about buffers, reads, partial
    document writes or where a read ended. The parser of HttpReceiver.dfy, which works
    on whole buffers, is proved to agree with it. */
module HttpParsing {
  import opened CText

  datatype HttpError = NoError | Protocol | Disconnected | Overflow | ConnectFailed | SocketError
                     | Shutdown | OperationCancelled | Auth | CertificateExpired | Stream | Cache | Default

  datatype State = Leader | Headers | ChunkSize | ChunkTerm | Trailers | Data | Complete

  /** `data_size_` when no length is known: the largest size_t. */
  const SIZE_UNKNOWN: Size := ULONG_MAX

  datatype Header = Header(name: string, value: string)

  /** The callbacks of HttpParser, in the order in which they are made. */
  datatype Event = LeaderLine(line: string)
                 | HeaderField(field: Header)
                 | HeadersDone(chunked: bool, dataSize: Size)

  /** What onHttpHeaderComplete decides: an error, the body size to use from now on (the size is
      passed by reference), and whether the body is thrown away (`ignore_data_`, or no document). */
  datatype Verdict = Verdict(error: HttpError, dataSize: Size, discard: bool)

  /** The owner of the parser: parseLeader, and onHttpHeaderComplete given everything parsed so far. */
  datatype Hooks = Hooks(parseLeader: string -> HttpError, headersDone: (seq<Event>, bool, Size) -> Verdict)

  datatype Parse = Parse(state: State, chunked: bool, dataSize: Size, discard: bool, events: seq<Event>, body: string)

  /** PR_CONTINUE, or PR_COMPLETE with its error. */
  datatype Outcome = Continue | Finished(error: HttpError)

  const CONTENT_LENGTH := "Content-Length"
  const TRANSFER_ENCODING := "Transfer-Encoding"

  const INITIAL := Parse(Leader, false, SIZE_UNKNOWN, false, [], "")

  /** The states in which the parser waits for a whole line (`state_ < ST_DATA`). */
  predicate WantsLine(s: State) {
    !s.Data? && !s.Complete?
  }

  // Lines

  /** The body size and chunking that a header field announces; None if the field is malformed. */
  function FieldEffect(chunked: bool, dataSize: Size, field: Header): Option<(bool, Size)> {
    if EqualsNoCase(field.name, CONTENT_LENGTH) then
      var number := StrToUL(field.value, 10);
      if number.end == 0 then None else Some((chunked, number.value))
    else if EqualsNoCase(field.name, TRANSFER_ENCODING) then
      if EqualsNoCase(field.value, "chunked") then Some((true, dataSize))
      else if EqualsNoCase(field.value, "identity") then Some((false, dataSize))
      else None
    else Some((chunked, dataSize))
  }

  /** Splits a header line at its first colon; the value starts after the white space that follows. */
  function SplitField(line: string): Option<Header> {
    match StrChrN(line, ':')
    case None => None
    case Some(i) => Some(Header(line[..i], line[i + 1 + SpaceRun(line[i + 1..])..]))
  }

  function HeaderStep(p: Parse, line: string): (Parse, Outcome) {
    match SplitField(line)
    case None => (p, Finished(Protocol))
    case Some(field) =>
      match FieldEffect(p.chunked, p.dataSize, field)
      case None => (p, Finished(Protocol))
      case Some(effect) =>
        (p.(chunked := effect.0, dataSize := effect.1, events := p.events + [HeaderField(field)]), Continue)
  }

  function HeadersDoneStep(h: Hooks, p: Parse): (Parse, Outcome) {
    var verdict := h.headersDone(p.events, p.chunked, p.dataSize);
    (p.(state := if p.chunked then ChunkSize else Data,
        dataSize := verdict.dataSize,
        discard := verdict.discard,
        events := p.events + [HeadersDone(p.chunked, p.dataSize)]),
     if verdict.error == NoError then Continue else Finished(verdict.error))
  }

  function ChunkSizeStep(p: Parse, line: string): (Parse, Outcome) {
    if line == [] then (p, Finished(Protocol))
    else
      var number := StrToUL(line, 16);
      if number.end != |line| then (p.(dataSize := number.value), Finished(Protocol))
      else (p.(dataSize := number.value, state := if number.value == 0 then Trailers else Data), Continue)
  }

  /** What one line, without its end and the white space before it, does to the parser. */
  function LineStep(h: Hooks, p: Parse, line: string): (Parse, Outcome) {
    match p.state
    case Leader =>
      var error := h.parseLeader(line);
      (p.(state := Headers, events := p.events + [LeaderLine(line)]),
       if error == NoError then Continue else Finished(error))
    case Headers => if line == [] then HeadersDoneStep(h, p) else HeaderStep(p, line)
    case ChunkSize => ChunkSizeStep(p, line)
    case ChunkTerm =>
      if line != [] then (p, Finished(Protocol))
      else (p.(state := if p.chunked then ChunkSize else Data), Continue)
    case Trailers => (p, if line == [] then Finished(NoError) else Continue)
    case Data => (p, Continue)
    case Complete => (p, Continue)
  }

  // The machine

  /** The parser, the part of a line read so far, whether it has stopped, and how many characters it took. */
  datatype Machine = Machine(parse: Parse, pending: string, outcome: Outcome, taken: nat)

  const START := Machine(INITIAL, "", Continue, 0)

  /** A body part with nothing left ends itself: the chunk's terminator follows, or the message is complete. */
  function Settle(m: Machine): Machine {
    if m.outcome.Continue? && m.parse.state.Data? && m.parse.dataSize == 0 then
      if m.parse.chunked then m.(parse := m.parse.(state := ChunkTerm))
      else m.(outcome := Finished(NoError))
    else m
  }

  predicate Settled(m: Machine) {
    Settle(m) == m
  }

  function TakeBody(p: Parse, data: string): Parse
    requires p.dataSize == SIZE_UNKNOWN || |data| <= p.dataSize
  {
    p.(body := if p.discard then p.body else p.body + data,
       dataSize := if p.dataSize == SIZE_UNKNOWN then p.dataSize else p.dataSize - |data|)
  }

  /** One character. A machine that has stopped takes nothing. */
  function Feed(h: Hooks, m: Machine, c: char): Machine {
    if m.outcome.Finished? || m.parse.state.Complete? then m
    else if WantsLine(m.parse.state) then
      if c == '\n' then
        var (p, o) := LineStep(h, m.parse, TrimEnd(m.pending));
        Settle(Machine(p, "", o, m.taken + 1))
      else m.(pending := m.pending + [c], taken := m.taken + 1)
    else if m.parse.dataSize == 0 then m
    else Settle(m.(parse := TakeBody(m.parse, [c]), taken := m.taken + 1))
  }

  /** The meaning of a byte stream. */
  function Run(h: Hooks, m: Machine, s: string): Machine
    decreases s
  {
    if s == [] then m else Run(h, Feed(h, m, s[0]), s[1..])
  }

  // Laws of the machine

  lemma {:induction false} RunConcat(h: Hooks, m: Machine, s: string, t: string)
    ensures Run(h, m, s + t) == Run(h, Run(h, m, s), t)
    decreases s
  {
    if s == [] {
      assert s + t == t;
    } else {
      assert (s + t)[1..] == s[1..] + t;
      RunConcat(h, Feed(h, m, s[0]), s[1..], t);
    }
  }

  /** A machine that has stopped stays as it is, so it takes nothing past the end of the message. */
  lemma {:induction false} RunStops(h: Hooks, m: Machine, s: string)
    requires m.outcome.Finished?
    ensures Run(h, m, s) == m
  {
    if s != [] { RunStops(h, m, s[1..]); }
  }

  lemma {:induction false} RunSettled(h: Hooks, m: Machine, s: string)
    requires Settled(m)
    ensures Settled(Run(h, m, s))
    decreases s
  {
    if s != [] { RunSettled(h, Feed(h, m, s[0]), s[1..]); }
  }

  /** Two streams that agree as far as the shorter goes end in the same machine once that one has stopped. */
  lemma {:induction false} LongerStreamAgrees(h: Hooks, s: string, t: string)
    requires s <= t && Run(h, START, s).outcome.Finished?
    ensures Run(h, START, t) == Run(h, START, s)
  {
    assert t == s + t[|s|..];
    RunConcat(h, START, s, t[|s|..]);
    RunStops(h, Run(h, START, s), t[|s|..]);
  }

  /** The unfinished part of a line is only remembered. */
  lemma {:induction false} RunPartialLine(h: Hooks, m: Machine, s: string)
    requires m.outcome.Continue? && WantsLine(m.parse.state) && '\n' !in s
    ensures Run(h, m, s) == m.(pending := m.pending + s, taken := m.taken + |s|)
    decreases s
  {
    if s == [] {
      assert m.pending + s == m.pending;
    } else {
      RunPartialLine(h, Feed(h, m, s[0]), s[1..]);
      assert m.pending + [s[0]] + s[1..] == m.pending + s;
    }
  }

  /** A whole line is one `LineStep`. */
  lemma {:induction false} RunLine(h: Hooks, m: Machine, s: string)
    requires m.outcome.Continue? && WantsLine(m.parse.state) && m.pending == "" && '\n' !in s
    ensures var (p, o) := LineStep(h, m.parse, TrimEnd(s));
            Run(h, m, s + ['\n']) == Settle(Machine(p, "", o, m.taken + |s| + 1))
  {
    hide LineStep, TrimEnd;
    RunConcat(h, m, s, ['\n']);
    RunPartialLine(h, m, s);
    assert m.pending + s == s;
    var n := m.(pending := s, taken := m.taken + |s|);
    assert Run(h, n, ['\n']) == Run(h, Feed(h, n, '\n'), []);
  }

  /** A stretch of body that the announced size allows is delivered as it is. */
  lemma {:induction false} RunBody(h: Hooks, m: Machine, s: string)
    requires m.outcome.Continue? && m.parse.state.Data? && m.parse.dataSize != 0
    requires m.parse.dataSize == SIZE_UNKNOWN || |s| <= m.parse.dataSize
    ensures Run(h, m, s) == Settle(m.(parse := TakeBody(m.parse, s), taken := m.taken + |s|))
    decreases s
  {
    if s == [] {
      assert m.parse.body + s == m.parse.body;
    } else {
      var n := Feed(h, m, s[0]);
      assert m.parse.body + [s[0]] + s[1..] == m.parse.body + s;
      if m.parse.dataSize == 1 {
        assert s[1..] == [] && [s[0]] == s;
      } else {
        RunBody(h, n, s[1..]);
      }
    }
  }
}
