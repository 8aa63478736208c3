/** The receiving half of HttpBase: the read buffer, the line and body parser that works
    on it in place, and the loop that fills it from the network. */
module HttpReceiver {
  import opened CText
  import opened HttpParsing

  /** kBufferSize. */
  const BUFFER_SIZE: nat := 32 * 1024

  /** kMaxReadCount. */
  const MAX_READ_COUNT: nat := 20

  const SOCKET_EACCES: int := 13
  const SEC_E_CERT_EXPIRED: int := -2146893016

  datatype StreamResult = Success | Block | Eos | StreamFailure

  datatype ProcessResult = PrContinue | PrBlock | PrComplete

  /** Why the receive loop returned: it waits for the network or for the document, it has read often enough for one
      event, or reception is over because of the parser, the document, the network connection or a line longer than
      the buffer. */
  datatype Stop = AwaitsNetwork | AwaitsDocument | ReadLimit | ByParser | ByDocument | ByClose | ByOverflow

  /** What a write to the document means for the parser. */
  function ResultOf(write: StreamResult): ProcessResult {
    match write
    case Success => PrContinue
    case Block => PrBlock
    case Eos => PrComplete
    case StreamFailure => PrComplete
  }

  /** The log has grown, and its newest entry is `r`. */
  ghost predicate EndsWith<T>(before: seq<T>, log: seq<T>, r: T) {
    before < log && log[|log| - 1] == r
  }

  function OutcomeOf(result: ProcessResult, error: HttpError): Outcome {
    if result.PrComplete? then Finished(error) else Continue
  }

  lemma {:induction false} NothingToRun(h: Hooks, m: Machine)
    ensures Run(h, m, "") == m
  {
  }

  /** The document was asked again, and `result` is what its answer means. */
  ghost predicate Answered(before: seq<StreamResult>, log: seq<StreamResult>, result: ProcessResult) {
    before < log && ResultOf(log[|log| - 1]) == result
  }

  class Receiver {
    const hooks: Hooks

    // HttpParser
    var state: State
    var chunked: bool
    var dataSize: Size

    // HttpBase
    const buffer: array<char>
    var len: nat
    var ignoreData: bool

    // HttpData, as filled by the callbacks
    var events: seq<Event>
    var document: string

    /** Everything read from the network, and how much of it has left the buffer. */
    ghost var received: string
    ghost var consumed: nat

    /** What the network and the document answered, read by read and write by write. */
    ghost var networkLog: seq<StreamResult>
    ghost var documentLog: seq<StreamResult>

    /** HttpBase::recv. */
    constructor (hooks: Hooks)
      ensures Valid() && fresh(buffer)
      ensures this.hooks == hooks && received == "" && len == 0 && View() == INITIAL
    {
      this.hooks := hooks;
      state, chunked, dataSize := Leader, false, SIZE_UNKNOWN;
      buffer := new char[BUFFER_SIZE];
      len, ignoreData := 0, false;
      events, document := [], "";
      received, consumed := "", 0;
      networkLog, documentLog := [], [];
    }

    ghost function View(): Parse
      reads this
    {
      Parse(state, chunked, dataSize, ignoreData, events, document)
    }

    /** The parser's progress over everything that has left the buffer. */
    ghost function Progress(o: Outcome): Machine
      reads this
    {
      Machine(View(), "", o, consumed)
    }

    /** Of the text `r` the buffer holds what was not consumed, and the parser is where
        the reference machine is after the consumed characters. */
    ghost predicate ValidFor(r: string)
      reads this, buffer
    {
      && buffer.Length == BUFFER_SIZE
      && len <= BUFFER_SIZE
      && consumed <= |r|
      && r[consumed..] == buffer[..len]
      && !state.Complete?
      && Run(hooks, START, r[..consumed]) == Progress(Continue)
    }

    ghost predicate Valid()
      reads this, buffer
    {
      ValidFor(received)
    }

    /** Everything in the buffer that can be processed has been: what is left is a part of a line. */
    ghost predicate Drained()
      reads this, buffer
      requires len <= buffer.Length
    {
      if WantsLine(state) then '\n' !in buffer[..len] else len == 0
    }

    /** The document holds up body data in the buffer: its newest answer was not a success. */
    ghost predicate HeldUp(result: ProcessResult)
      reads this
    {
      && state.Data? && dataSize != 0 && !ignoreData && len > 0
      && documentLog != [] && ResultOf(documentLog[|documentLog| - 1]) == result != PrContinue
    }

    /** The body length and the chunking that a header field announces. */
    method ApplyField(field: Header) returns (ok: bool)
      modifies this`chunked, this`dataSize
      ensures FieldEffect(old(chunked), old(dataSize), field) == if ok then Some((chunked, dataSize)) else None
      ensures !ok ==> chunked == old(chunked) && dataSize == old(dataSize)
    {
      if EqualsNoCase(field.name, CONTENT_LENGTH) {
        var number := StrToUL(field.value, 10);
        if number.end == 0 {
          return false;
        }
        dataSize := number.value;
      } else if EqualsNoCase(field.name, TRANSFER_ENCODING) {
        if EqualsNoCase(field.value, "chunked") {
          chunked := true;
        } else if EqualsNoCase(field.value, "identity") {
          chunked := false;
        } else {
          return false;
        }
      }
      return true;
    }

    /** A header line: split it, apply the field, call back. */
    method ProcessHeaderLine(line: string) returns (result: ProcessResult, error: HttpError)
      requires state.Headers?
      modifies this`chunked, this`dataSize, this`events
      ensures result != PrBlock
      ensures HeaderStep(old(View()), line) == (View(), OutcomeOf(result, error))
    {
      hide StrChrN, SpaceRun, FieldEffect;
      var colon := StrChrN(line, ':');
      if colon.None? {
        return PrComplete, Protocol;
      }
      var name := line[..colon.value];
      var value := line[colon.value + 1..];
      value := value[SpaceRun(value)..];
      assert value == line[colon.value + 1 + SpaceRun(line[colon.value + 1..])..];
      var field := Header(name, value);
      var ok := ApplyField(field);
      if !ok {
        return PrComplete, Protocol;
      }
      events := events + [HeaderField(field)];
      return PrContinue, NoError;
    }

    /** The line after the last header: the owner has its say, and the body begins. */
    method ProcessHeaderEnd() returns (result: ProcessResult, error: HttpError)
      requires state.Headers?
      modifies this`state, this`dataSize, this`ignoreData, this`events
      ensures result != PrBlock && !state.Complete?
      ensures HeadersDoneStep(hooks, old(View())) == (View(), OutcomeOf(result, error))
    {
      state := if chunked then ChunkSize else Data;
      var verdict := hooks.headersDone(events, chunked, dataSize);
      events := events + [HeadersDone(chunked, dataSize)];
      dataSize, ignoreData, error := verdict.dataSize, verdict.discard, verdict.error;
      result := if error == NoError then PrContinue else PrComplete;
    }

    /** HttpParser::ProcessLine. */
    method ProcessLine(line: string) returns (result: ProcessResult, error: HttpError)
      requires WantsLine(state)
      modifies this`state, this`chunked, this`dataSize, this`ignoreData, this`events
      ensures result != PrBlock && !state.Complete?
      ensures LineStep(hooks, old(View()), line) == (View(), OutcomeOf(result, error))
    {
      match state {
        case Leader =>
          state := Headers;
          events := events + [LeaderLine(line)];
          error := hooks.parseLeader(line);
          result := if error == NoError then PrContinue else PrComplete;
        case Headers =>
          if |line| > 0 {
            result, error := ProcessHeaderLine(line);
          } else {
            result, error := ProcessHeaderEnd();
          }
        case ChunkSize =>
          if |line| > 0 {
            var number := StrToUL(line, 16);
            dataSize := number.value;
            if number.end != |line| {
              return PrComplete, Protocol;
            }
            state := if dataSize == 0 then Trailers else Data;
            return PrContinue, NoError;
          } else {
            return PrComplete, Protocol;
          }
        case ChunkTerm =>
          if |line| > 0 {
            return PrComplete, Protocol;
          } else {
            state := if chunked then ChunkSize else Data;
            return PrContinue, NoError;
          }
        case Trailers =>
          if |line| == 0 {
            return PrComplete, NoError;
          }
          return PrContinue, NoError;
      }
    }

    /** The document stream, which is not part of the model: it takes any part of the data
        but at least one character, blocks, or fails. */
    method WriteDocument(data: string) returns (r: StreamResult, written: nat)
      requires data != ""
      modifies this`document, this`documentLog
      ensures r.Success? ==> 1 <= written <= |data| && document == old(document) + data[..written]
      ensures !r.Success? ==> document == old(document)
      ensures documentLog == old(documentLog) + [r]
    {
      r, written := *, *;
      documentLog := documentLog + [r];
      if r.Success? {
        if !(1 <= written <= |data|) {
          written := |data|;
        }
        document := document + data[..written];
      }
    }

    /** HttpBase::ProcessData. */
    method ProcessData(data: string) returns (result: ProcessResult, read: nat, error: HttpError)
      requires data != ""
      modifies this`document, this`documentLog
      ensures if ignoreData then documentLog == old(documentLog) && result == PrContinue && read == |data|
              else |documentLog| == |old(documentLog)| + 1 && Answered(old(documentLog), documentLog, result)
      ensures result == PrContinue ==> 1 <= read <= |data|
      ensures result == PrContinue ==> document == if ignoreData then old(document) else old(document) + data[..read]
      ensures result != PrContinue ==> document == old(document) && !ignoreData
      ensures error == if result == PrComplete then Stream else NoError
    {
      read, error := |data|, NoError;
      if ignoreData {
        return PrContinue, read, NoError;
      }
      var r;
      r, read := WriteDocument(data);
      match r {
        case Success => result := PrContinue;
        case Block => result := PrBlock;
        case Eos => result, error := PrComplete, Stream;
        case StreamFailure => result, error := PrComplete, Stream;
      }
    }

    /** Looks for the end of a line; `end` leaves out the white space before it. */
    method FindLine(input: string, from: nat) returns (pos: nat, end: nat)
      requires from <= |input|
      ensures from <= end <= pos <= |input| && '\n' !in input[from..pos]
      ensures pos < |input| ==> input[pos] == '\n' && input[from..end] == TrimEnd(input[from..pos])
    {
      pos := from;
      while pos < |input| && input[pos] != '\n'
        invariant from <= pos <= |input| && '\n' !in input[from..pos]
      {
        pos := pos + 1;
      }
      end := FindTextEnd(input, from, pos);
    }

    method FindTextEnd(input: string, from: nat, pos: nat) returns (end: nat)
      requires from <= pos <= |input|
      ensures from <= end <= pos && input[from..end] == TrimEnd(input[from..pos])
    {
      end := pos;
      while end > from && IsSpace(input[end - 1])
        invariant from <= end <= pos
        invariant TrimEnd(input[from..pos]) == TrimEnd(input[from..end])
      {
        assert input[from..end][..end - 1 - from] == input[from..end - 1];
        end := end - 1;
      }
    }

    /** One turn of the loop for a line. */
    method ConsumeLine(input: string, from: nat, pos: nat, end: nat, ghost start: Machine)
      returns (result: ProcessResult, error: HttpError)
      requires WantsLine(state)
      requires from <= end <= pos < |input| && '\n' !in input[from..pos]
      requires input[pos] == '\n' && input[from..end] == TrimEnd(input[from..pos])
      requires Run(hooks, start, input[..from]) == Progress(Continue)
      modifies this`state, this`chunked, this`dataSize, this`ignoreData, this`events, this`consumed
      ensures result != PrBlock && !state.Complete? && consumed == old(consumed) + (pos + 1 - from)
      ensures Run(hooks, start, input[..pos + 1]) == Settle(Progress(OutcomeOf(result, error)))
    {
      hide LineStep, Run;
      ghost var before := Progress(Continue);
      result, error := ProcessLine(input[from..end]);
      consumed := consumed + (pos + 1 - from);
      var text := input[from..pos];
      RunLine(hooks, before, text);
      assert input[..pos + 1] == input[..from] + (text + ['\n']);
      RunConcat(hooks, start, input[..from], text + ['\n']);
    }

    /** One turn of the loop for body data. */
    method ConsumeData(input: string, from: nat, available: nat, ghost start: Machine)
      returns (result: ProcessResult, error: HttpError, read: nat)
      requires state.Data? && dataSize != 0 && 0 < available && from + available <= |input|
      requires dataSize == SIZE_UNKNOWN || available <= dataSize
      requires Run(hooks, start, input[..from]) == Progress(Continue)
      modifies this`dataSize, this`document, this`consumed, this`documentLog
      ensures if result == PrContinue then 1 <= read <= available else read == 0
      ensures old(documentLog) <= documentLog
      ensures result != PrContinue ==>
                dataSize != 0 && !ignoreData && Answered(old(documentLog), documentLog, result)
      ensures consumed == old(consumed) + read
      ensures Run(hooks, start, input[..from + read]) == Settle(Progress(Continue))
      ensures error == if result == PrComplete then Stream else NoError
    {
      hide Run;
      ghost var before := Progress(Continue);
      var data := input[from..from + available];
      result, read, error := ProcessData(data);
      if result != PrContinue {
        read := 0;
        return;
      }
      consumed := consumed + read;
      if dataSize != SIZE_UNKNOWN {
        dataSize := dataSize - read;
      }
      var taken := data[..read];
      assert View() == TakeBody(before.parse, taken);
      RunBody(hooks, before, taken);
      assert input[..from + read] == input[..from] + taken;
      RunConcat(hooks, start, input[..from], taken);
    }

    /** HttpParser::Process. It consumes a prefix of its input and does to the parser exactly what the
        reference machine does on that prefix. It asks for more only when the rest holds no whole line
        and no body; it stops where the machine stops; the document can stop it early, when it does not take
        body data that is there. */
    method Process(input: string) returns (processed: nat, result: ProcessResult, error: HttpError, byDocument: bool)
      requires !state.Complete? && Settled(Progress(Continue))
      modifies this`state, this`chunked, this`dataSize, this`ignoreData, this`events, this`document, this`consumed,
               this`documentLog
      ensures processed <= |input| && consumed == old(consumed) + processed && !state.Complete?
      ensures Run(hooks, old(Progress(Continue)), input[..processed])
           == Progress(if byDocument then Continue else OutcomeOf(result, error))
      ensures result == PrContinue ==>
                if WantsLine(state) then '\n' !in input[processed..] else processed == |input|
      ensures byDocument ==> result == PrComplete && error == Stream
      ensures old(documentLog) <= documentLog
      ensures result == PrBlock || byDocument ==>
                && state.Data? && dataSize != 0 && !ignoreData && processed < |input|
                && Answered(old(documentLog), documentLog, result)
    {
      ghost var start := Progress(Continue);
      assert Run(hooks, start, input[..0]) == start;
      hide Run;
      processed, error, byDocument := 0, NoError, false;
      while true
        invariant processed <= |input| && consumed == old(consumed) + processed && !state.Complete?
        invariant Run(hooks, start, input[..processed]) == Settle(Progress(Continue))
        invariant error == NoError && !byDocument && old(documentLog) <= documentLog
        decreases |input| - processed, if state.Data? && dataSize == 0 then 1 else 0
      {
        if WantsLine(state) {
          var pos, end := FindLine(input, processed);
          if pos >= |input| {
            assert input[processed..pos] == input[processed..];
            return processed, PrContinue, NoError, false;
          }
          result, error := ConsumeLine(input, processed, pos, end, start);
          processed := pos + 1;
          if result != PrContinue {
            return;
          }
          error := NoError;
        } else if dataSize == 0 {
          if chunked {
            state := ChunkTerm;
          } else {
            return processed, PrComplete, NoError, false;
          }
        } else {
          var available := |input| - processed;
          if available <= 0 {
            return processed, PrContinue, NoError, false;
          }
          if dataSize != SIZE_UNKNOWN && available > dataSize {
            available := dataSize;
          }
          var read;
          result, error, read := ConsumeData(input, processed, available, start);
          processed := processed + read;
          if result != PrContinue {
            byDocument := result == PrComplete;
            return;
          }
        }
      }
    }

    /** HttpBase::HandleStreamClose while receiving: a clean close ends a body of unknown length. */
    function CloseError(error: int): (r: HttpError)
      reads this
      ensures r == NoError <==> error == 0 && state.Data? && dataSize == 0xFFFF_FFFF
      ensures (r == Disconnected || r == NoError <==> error == 0)
      ensures (r == Auth <==> error == 13) && (r == CertificateExpired <==> error == -2146893016)
      ensures r in [NoError, Disconnected, Auth, CertificateExpired, SocketError]
    {
      if error == 0 then
        if state.Data? && dataSize == SIZE_UNKNOWN then NoError else Disconnected
      else if error == SOCKET_EACCES then Auth
      else if error == SEC_E_CERT_EXPIRED then CertificateExpired
      else SocketError
    }

    /** The network stream, which is not part of the model: any data that fits and is not empty, or none. */
    method ReadNetwork(space: nat) returns (r: StreamResult, data: string, error: int)
      requires space > 0
      modifies this`received, this`networkLog
      ensures r.Success? ==> 1 <= |data| <= space
      ensures r.StreamFailure? ==> error != 0
      ensures received == if r.Success? then old(received) + data else old(received)
      ensures networkLog == old(networkLog) + [r]
    {
      r, data, error := *, *, *;
      if (r.Success? && !(1 <= |data| <= space)) || (r.StreamFailure? && error == 0) {
        r := Block;
      }
      networkLog := networkLog + [r];
      if r.Success? {
        received := received + data;
      }
    }

    /** The data that was read goes behind the unprocessed data. */
    method Append(data: string, ghost before: string)
      requires ValidFor(before) && received == before + data && len + |data| <= BUFFER_SIZE
      modifies buffer, this`len
      ensures Valid() && len == old(len) + |data|
    {
      forall i | 0 <= i < |data| {
        buffer[len + i] := data[i];
      }
      assert buffer[..len + |data|] == old(buffer[..len]) + data;
      len := len + |data|;
      assert received[..consumed] == before[..consumed];
      assert received[consumed..] == before[consumed..] + data;
    }

    /** The buffer after its first `n` characters were processed. */
    method DropFront(n: nat)
      requires n <= len <= BUFFER_SIZE == buffer.Length
      modifies buffer, this`len
      ensures len == old(len) - n && buffer[..len] == old(buffer[..len])[n..]
    {
      len := len - n;
      forall i | 0 <= i < len {
        buffer[i] := buffer[i + n];
      }
    }

    /** Processes the buffer and moves what is left to its front. */
    method ProcessBuffer() returns (result: ProcessResult, error: HttpError, byDocument: bool)
      requires Valid()
      modifies this`state, this`chunked, this`dataSize, this`ignoreData, this`events, this`document,
               this`consumed, this`len, this`documentLog, buffer
      ensures !(result == PrComplete && !byDocument) ==> Valid()
      ensures result == PrComplete && !byDocument ==> Run(hooks, START, received) == Progress(Finished(error))
      ensures result == PrContinue ==> len <= buffer.Length && Drained()
      ensures byDocument ==> result == PrComplete && error == Stream
      ensures old(documentLog) <= documentLog
      ensures result == PrBlock || byDocument ==> HeldUp(result) && old(documentLog) < documentLog
      ensures len <= BUFFER_SIZE && consumed <= |received| && !state.Complete?
    {
      RunSettled(hooks, START, received[..consumed]);
      var input := buffer[..len];
      ghost var before := consumed;
      var processed;
      processed, result, error, byDocument := Process(input);
      DropFront(processed);
      assert received[before..consumed] == input[..processed];
      assert received[..consumed] == received[..before] + input[..processed];
      RunConcat(hooks, START, received[..before], input[..processed]);
      assert received[consumed..] == input[processed..];
      if result == PrComplete && !byDocument {
        LongerStreamAgrees(hooks, received[..consumed], received);
      }
    }

    /** HttpBase::DoReceiveLoop. However the network splits the stream and however the document takes the
        body: while it waits for the network, or has read often enough, the callbacks made and the body delivered are
        those of one pass over all that was received; while it waits for the document they are those of one pass
        over what it consumed, and body data is at the front of the buffer; when the parser ends the message, they
        are those of one pass over all that was received, and nothing past the end of the message was consumed.

        A clean close of the connection ends a body of unknown length without an error even when the
        document blocked before and body data still waits in the buffer. The delivered body is then the
        received one if and only if the buffer is empty. */
    method DoReceiveLoop() returns (stop: Stop, error: HttpError)
      requires Valid()
      modifies this`state, this`chunked, this`dataSize, this`ignoreData, this`events, this`document,
               this`consumed, this`len, this`received, this`networkLog, this`documentLog, buffer
      ensures old(received) <= received && consumed <= |received|
      ensures stop != ByParser ==> Valid()
      ensures stop == ByParser ==> Run(hooks, START, received) == Progress(Finished(error))
      ensures stop == AwaitsNetwork ==> EndsWith(old(networkLog), networkLog, Block)
      ensures stop == ReadLimit ==>
                |networkLog| >= |old(networkLog)| + 20 && |received| >= |old(received)| + 20
      ensures stop == AwaitsNetwork || stop == ReadLimit ==> Drained() && Run(hooks, START, received) == OnePass()
      ensures stop == AwaitsDocument ==> HeldUp(PrBlock) && old(documentLog) < documentLog
      ensures stop == ByDocument ==> HeldUp(PrComplete) && old(documentLog) < documentLog && error == Stream
      ensures stop == ByOverflow ==>
                error == Overflow && WantsLine(state) && len == 32 * 1024 && '\n' !in received[consumed..]
      ensures stop == ByClose ==>
                (EndsWith(old(networkLog), networkLog, StreamFailure) && exists e: int :: error == CloseError(e))
                || (EndsWith(old(networkLog), networkLog, Eos) && error == CloseError(0))
      ensures stop == ByClose && error == NoError ==> state.Data? && dataSize == SIZE_UNKNOWN
      ensures stop == ByClose && error == NoError && !ignoreData ==>
                (document == Run(hooks, START, received).parse.body <==> len == 0)
      ensures stop == ByClose && error == NoError && len > 0 ==>
                len == old(len) && received == old(received) && document == old(document)
      ensures old(len) == 0 && stop == ByClose && error == NoError && !ignoreData ==>
                document == Run(hooks, START, received).parse.body
    {
      hide Run;
      var processRequiresMoreData := false;
      for loopCount := 0 to MAX_READ_COUNT + 1
        invariant Valid() && old(received) <= received
        invariant old(networkLog) <= networkLog && old(documentLog) <= documentLog
        invariant processRequiresMoreData ==> Drained()
        invariant loopCount > 0 ==>
                    && processRequiresMoreData && |networkLog| >= |old(networkLog)| + loopCount - 1
                    && |received| >= |old(received)| + loopCount - 1
        invariant !processRequiresMoreData ==>
                    len == old(len) && received == old(received) && document == old(document)
      {
        if len < BUFFER_SIZE {
          ghost var before := received;
          var r, data, readError := ReadNetwork(BUFFER_SIZE - len);
          match r {
            case Success => Append(data, before);
            case Block =>
              if processRequiresMoreData {
                DrainedIsOnePass();
                return AwaitsNetwork, NoError;
              }
            case Eos =>
              BufferedBodyIsLost();
              return ByClose, CloseError(0);
            case StreamFailure =>
              return ByClose, CloseError(readError);
          }
        } else if processRequiresMoreData {
          return ByOverflow, Overflow;
        }
        var result, byDocument;
        result, error, byDocument := ProcessBuffer();
        match result {
          case PrContinue => processRequiresMoreData := true;
          case PrBlock => return AwaitsDocument, NoError;
          case PrComplete => return if byDocument then ByDocument else ByParser, error;
        }
      }
      DrainedIsOnePass();
      return ReadLimit, NoError;
    }

    /** Where one pass over everything received ends, if the parser has processed all it could. */
    ghost function OnePass(): Machine
      reads this, buffer
      requires len <= buffer.Length
    {
      Machine(View(), if WantsLine(state) then buffer[..len] else "", Continue, |received|)
    }

    lemma {:induction false} DrainedIsOnePass()
      requires Valid() && Drained()
      ensures Run(hooks, START, received) == OnePass()
    {
      hide Run;
      assert received == received[..consumed] + received[consumed..];
      RunConcat(hooks, START, received[..consumed], received[consumed..]);
      if WantsLine(state) {
        RunPartialLine(hooks, Progress(Continue), buffer[..len]);
        assert "" + buffer[..len] == buffer[..len];
      } else {
        assert received[consumed..] == "" && Run(hooks, Progress(Continue), "") == Progress(Continue) by {
          NothingToRun(hooks, Progress(Continue));
        }
      }
    }

    /** In a body of unknown length everything still in the buffer is body. */
    lemma {:induction false} BufferedBodyIsLost()
      requires Valid()
      ensures state.Data? && dataSize == SIZE_UNKNOWN && !ignoreData ==>
                Run(hooks, START, received).parse.body == document + received[consumed..]
    {
      if state.Data? && dataSize == SIZE_UNKNOWN && !ignoreData {
        assert received == received[..consumed] + received[consumed..];
        RunConcat(hooks, START, received[..consumed], received[consumed..]);
        RunBody(hooks, Progress(Continue), received[consumed..]);
      }
    }
  }
}
