/** The sending half of HttpBase: leader, header fields and document are packed into one
    buffer, in place, that drains to the network in arbitrary pieces. */
module HttpSender {
  import opened CText
  import opened HttpParsing
  import opened HttpMessage
  import opened HttpReceiver

  /** queue_headers takes a line only if it leaves room for the blank line and a NUL. */
  predicate Fits(h: Header) {
    |HeaderLine(h)| < BUFFER_SIZE - 3
  }

  /** The fields that are sent: a field too long for an empty buffer is discarded. */
  function Kept(hs: seq<Header>): (r: seq<Header>)
    ensures (forall h | h in hs :: Fits(h)) ==> r == hs
    ensures forall h | h in r :: h in hs && Fits(h)
  {
    if hs == [] then []
    else
      var front, last := Kept(hs[..|hs| - 1]), hs[|hs| - 1];
      assert hs == hs[..|hs| - 1] + [last];
      if Fits(last) then front + [last] else front
  }

  lemma {:induction false} KeptGrows(hs: seq<Header>, i: nat)
    requires i < |hs|
    ensures HeaderLines(Kept(hs[..i + 1])) ==
            HeaderLines(Kept(hs[..i])) + (if Fits(hs[i]) then HeaderLine(hs[i]) else "")
  {
    hide HeaderLine;
    var front, now := Kept(hs[..i]), Kept(hs[..i + 1]);
    assert hs[..i + 1][..i] == hs[..i];
    if Fits(hs[i]) {
      assert now[..|now| - 1] == front && now[|now| - 1] == hs[i];
    } else {
      assert HeaderLines(front) + "" == HeaderLines(front);
    }
  }

  lemma {:induction false} Associates(a: string, b: string, c: string)
    ensures a + (b + c) == (a + b) + c
  {
  }

  lemma {:induction false} ChunkTextParts(data: string)
    ensures ChunkText(data) == HexText(|data|, CHUNK_DIGITS) + (CRLF + (data + CRLF))
  {
    hide HexText;
    Associates(HexText(|data|, CHUNK_DIGITS), CRLF, data + CRLF);
  }

  lemma {:induction false} Glue(s: string, a: nat, b: nat)
    requires a <= b <= |s|
    ensures s[a..] == s[a..b] + s[b..]
  {
  }

  lemma {:induction false} FiveParts(s: string, a: nat, b: nat, c: nat, d: nat)
    requires a <= b <= c <= d <= |s|
    ensures s == s[..a] + (s[a..b] + (s[b..c] + (s[c..d] + s[d..])))
  {
    Glue(s, a, b);
    Glue(s, b, c);
    Glue(s, c, d);
  }

  /** The parts of a chunk in their places make the chunk's text. */
  lemma {:induction false} ChunkLayout(s: string, before: string, data: string)
    requires |s| == |before| + CHUNK_DIGITS + 4 + |data|
    requires s[..|before|] == before
    requires s[|before|..|before| + CHUNK_DIGITS] == HexText(|data|, CHUNK_DIGITS)
    requires s[|before| + CHUNK_DIGITS..|before| + CHUNK_DIGITS + 2] == CRLF
    requires s[|before| + CHUNK_DIGITS + 2..|s| - 2] == data
    requires s[|s| - 2..] == CRLF
    ensures s == before + ChunkText(data)
  {
    hide *;
    ChunkTextParts(data);
    var a := |before|;
    var b := a + CHUNK_DIGITS;
    FiveParts(s, a, b, b + 2, |s| - 2);
  }

  /** New text behind the queued text is new text behind the message text. */
  lemma {:induction false} AppendedToAll(wire: string, queued: string, head: string, body: string, text: string)
    requires wire + queued == head + body || wire + queued == head + (body + "")
    ensures wire + (queued + text) == head + (body + text) && body + text + "" == body + text
  {
    assert wire + (queued + text) == (wire + queued) + text;
    assert body + "" == body;
  }

  lemma {:induction false} KeptStarts(hs: seq<Header>, i: nat)
    requires i <= |hs|
    ensures HeaderLines(Kept(hs[..i])) <= HeaderLines(Kept(hs))
    decreases |hs| - i
  {
    hide Kept, HeaderLines, HeaderLine;
    if i < |hs| {
      KeptGrows(hs, i);
      KeptStarts(hs, i + 1);
    } else {
      assert hs[..i] == hs;
    }
  }

  lemma {:induction false} FrontMoves(wire: string, queued: string, n: nat)
    requires n <= |queued|
    ensures (wire + queued[..n]) + queued[n..] == wire + queued
  {
    assert queued == queued[..n] + queued[n..];
  }

  lemma {:induction false} ChunksStartBody(chunks: seq<string>, rest: string)
    ensures ChunkTexts(chunks) <= ChunkedBody(chunks) && ChunkTexts(chunks) <= ChunkedBody(chunks + [rest])
    ensures ChunkTexts(chunks) + LAST_CHUNK == ChunkedBody(chunks)
  {
    hide ChunkText;
    OneMoreChunk(chunks, rest);
  }

  /** HttpBase::send chunks the document if the first Transfer-Encoding field says exactly "chunked". */
  predicate AsksForChunks(hs: seq<Header>) {
    hs != [] && if EqualsNoCase(hs[0].name, TRANSFER_ENCODING) then hs[0].value == "chunked" else AsksForChunks(hs[1..])
  }

  predicate NamesTransferEncoding(f: Header) {
    Spelled(f.name, "transfer-encoding", "TRANSFER-ENCODING")
  }

  /** The first Transfer-Encoding field, in whatever case its name is, is the i-th and says exactly "chunked". */
  ghost predicate SaysChunkedAt(hs: seq<Header>, i: nat) {
    i < |hs| && NamesTransferEncoding(hs[i]) && hs[i].value == "chunked"
    && forall j | 0 <= j < i :: !NamesTransferEncoding(hs[j])
  }

  ghost predicate SaysChunked(hs: seq<Header>) {
    exists i: nat :: SaysChunkedAt(hs, i)
  }

  /** When the sender chunks. */
  lemma {:induction false} AsksForChunksIff(hs: seq<Header>)
    ensures AsksForChunks(hs) <==> SaysChunked(hs)
  {
    if AsksForChunks(hs) {
      AskingSays(hs);
    }
    if SaysChunked(hs) {
      var i: nat :| SaysChunkedAt(hs, i);
      SayingAsks(hs, i);
    }
  }

  lemma {:induction false} SayingAsks(hs: seq<Header>, i: nat)
    requires SaysChunkedAt(hs, i)
    ensures AsksForChunks(hs)
  {
    hide EqualsNoCase, NamesTransferEncoding;
    TransferEncodingName(hs[0]);
    if i > 0 {
      SayingAsks(hs[1..], i - 1);
    }
  }

  lemma {:induction false} AskingSays(hs: seq<Header>)
    requires AsksForChunks(hs)
    ensures SaysChunked(hs)
  {
    hide EqualsNoCase, NamesTransferEncoding;
    TransferEncodingName(hs[0]);
    if NamesTransferEncoding(hs[0]) {
      assert SaysChunkedAt(hs, 0);
    } else {
      AskingSays(hs[1..]);
      var i: nat :| SaysChunkedAt(hs[1..], i);
      assert forall j | 0 < j < i + 1 :: hs[j] == hs[1..][j - 1];
      assert SaysChunkedAt(hs, i + 1);
    }
  }

  lemma {:induction false} NeutralName(f: Header)
    requires !Spelled(f.name, "content-length", "CONTENT-LENGTH") && !NamesTransferEncoding(f)
    ensures Neutral(f)
  {
    hide EqualsNoCase, Spelled;
    TransferEncodingName(f);
    EqualsNoCaseIff(f.name, "Content-Length", "content-length", "CONTENT-LENGTH");
  }

  lemma {:induction false} FieldFits(f: Header)
    requires PlainField(f)
    ensures Fits(f) <==> |f.name| + |f.value| + 4 < 32 * 1024 - 3
  {
  }

  lemma {:induction false} SpelledExactly()
    ensures Spelled("Transfer-Encoding", "transfer-encoding", "TRANSFER-ENCODING")
  {
  }

  lemma {:induction false} TransferEncodingName(f: Header)
    ensures EqualsNoCase(f.name, TRANSFER_ENCODING) <==> NamesTransferEncoding(f)
  {
    EqualsNoCaseIff(f.name, "Transfer-Encoding", "transfer-encoding", "TRANSFER-ENCODING");
  }

  /** The leader, its line end and, without any field, the blank line are copied unclipped. */
  predicate LeaderFits(leader: string, hs: seq<Header>) {
    |leader| + (if hs == [] then 4 else 2) < BUFFER_SIZE
  }

  /** What a turn of flush_data found when it asked for document data. */
  datatype Turn = SendRequired | MoreRoom | AllDone | ReadFailed

  /** Why flush_data is not running: the network or the document blocked, the turns are used up, or the send is over. */
  datatype Pause = NetworkBlocked | DocumentBlocked | TurnsUp | Ended

  lemma {:induction false} NothingKept()
    ensures Kept([]) == []
  {
  }

  /** The leader and its line ends as they fit into the buffer. */
  function ClippedLeader(leader: string, noFields: bool): (s: string)
    ensures |s| < BUFFER_SIZE
  {
    var a := leader[..Min(|leader|, BUFFER_SIZE - 1)];
    var b := a + CRLF[..Min(2, BUFFER_SIZE - |a| - 1)];
    if noFields then b + CRLF[..Min(2, BUFFER_SIZE - |b| - 1)] else b
  }

  lemma {:induction false} ClippedLeaderFits(leader: string, hs: seq<Header>)
    ensures ClippedLeader(leader, hs == []) == leader + CRLF + (if hs == [] then CRLF else "")
       <==> LeaderFits(leader, hs)
  {
    var whole := leader + CRLF + (if hs == [] then CRLF else "");
    if LeaderFits(leader, hs) {
      assert leader[..|leader|] == leader && CRLF[..2] == CRLF;
      assert whole == ClippedLeader(leader, hs == []);
    } else {
      assert |whole| >= BUFFER_SIZE;
    }
  }

  class Sender {
    // HttpData
    const leader: string
    const headers: seq<Header>
    const source: Option<string>

    // HttpBase
    const buffer: array<char>
    var len: nat
    var header: nat
    var chunkData: bool
    var sending: bool

    /** The code given to do_complete. */
    var result: HttpError

    /** How much of the document was read. */
    var position: nat

    /** What the network took, the chunks built so far, and whether the last one was. */
    ghost var wire: string
    ghost var chunks: seq<string>
    ghost var ended: bool

    /** What the document and the network answered, read by read and write by write. */
    ghost var documentLog: seq<StreamResult>
    ghost var networkLog: seq<StreamResult>

    ghost predicate Chunked() {
      AsksForChunks(headers)
    }

    ghost function Document(): string {
      source.GetOr("")
    }

    /** The body text built from the first `n` characters of the document. */
    ghost function BodyText(n: nat): string
      requires n <= |Document()|
      reads this`chunks, this`ended
    {
      if source.Some? && Chunked() then ChunkTexts(chunks) + (if ended then LAST_CHUNK else "")
      else Document()[..n]
    }

    /** The leader and the fields built so far, closed by the blank line after the last one. */
    ghost function HeadText(): string
      requires header <= |headers|
      reads this`header
    {
      leader + CRLF + HeaderLines(Kept(headers[..header])) + (if header == |headers| then CRLF else "")
    }

    /** What went to the network, followed by what the buffer holds, is the message text built
        from the leader, the first `header` fields and the first `n` characters of the document. */
    ghost predicate ValidAt(n: nat)
      reads this`len, this`header, this`chunkData, this`wire, this`chunks, this`ended, buffer
    {
      Shape(n) && wire + buffer[..len] == HeadText() + BodyText(n)
    }

    ghost predicate Shape(n: nat)
      reads this`len, this`header, this`chunkData, this`chunks, this`ended
    {
      && buffer.Length == BUFFER_SIZE && len <= BUFFER_SIZE
      && header <= |headers| && n <= |Document()|
      && (header < |headers| ==> n == 0 && chunks == [] && !ended && len < BUFFER_SIZE)
      && (ended ==> n == |Document()|)
      && (source.Some? ==> (chunkData <==> Chunked() && !ended))
      && (source.Some? && Chunked() ==> Joined(chunks) == Document()[..n])
      && (forall c | c in chunks :: 0 < |c| < BUFFER_SIZE)
    }

    ghost predicate Valid()
      reads this`len, this`header, this`chunkData, this`wire, this`chunks, this`ended, this`position, buffer
    {
      ValidAt(position)
    }

    /** The whole message was built and the network took it. */
    ghost predicate AllSent()
      reads this
    {
      && len == 0 && header == |headers| && position == |Document()|
      && (source.Some? && Chunked() ==> ended)
    }

    /** The next field does not fit behind the queued text. */
    ghost predicate NoRoom()
      reads this`len, this`header
    {
      header < |headers| && len > 0 && len + |HeaderLine(headers[header])| >= BUFFER_SIZE - 3
    }

    /** Where document data would end if there were any: behind the framing of a chunk. */
    function Reserve(): nat
      reads this`len, this`chunkData
    {
      if chunkData then len + CHUNK_DIGITS + 4 else len
    }

    /** Nothing can be queued before the network takes something: the next field has no room, or, all fields being
        queued, document data has no room, the document blocked, or it has been queued to its end. */
    ghost predicate NothingToQueue()
      reads this`len, this`header, this`chunkData, this`position, this`documentLog
    {
      if header < |headers| then NoRoom()
      else source.None? || Reserve() >= BUFFER_SIZE || (position == |Document()| && !chunkData)
           || (documentLog != [] && documentLog[|documentLog| - 1] == Block)
    }

    // Writing into the buffer

    /** Copies text behind the queued text without counting it. */
    method Copy(at: nat, text: string)
      requires buffer.Length == BUFFER_SIZE && len <= at && at + |text| <= BUFFER_SIZE
      modifies buffer
      ensures forall i | 0 <= i < |text| :: buffer[at + i] == text[i]
      ensures forall i | 0 <= i < at || at + |text| <= i < BUFFER_SIZE :: buffer[i] == old(buffer[i])
    {
      forall i | 0 <= i < |text| {
        buffer[at + i] := text[i];
      }
    }

    /** Copies text right behind the queued text. */
    method CopyBehind(text: string)
      requires buffer.Length == BUFFER_SIZE && len + |text| <= BUFFER_SIZE
      modifies buffer
      ensures buffer[..len] == old(buffer[..len]) && buffer[..len + |text|] == old(buffer[..len]) + text
    {
      Copy(len, text);
    }

    /** sprintfn and strcpyn: as much of the text as fits in front of a final NUL. */
    method Print(text: string) returns (n: nat)
      requires buffer.Length == BUFFER_SIZE && len < BUFFER_SIZE
      modifies buffer
      ensures n == Min(|text|, BUFFER_SIZE - len - 1)
      ensures buffer[..len] == old(buffer[..len]) && buffer[..len + n] == old(buffer[..len]) + text[..n]
    {
      n := Min(|text|, BUFFER_SIZE - len - 1);
      CopyBehind(text[..n]);
    }

    /** HttpBase::send up to its call of flush_data. The queued text is the start of the message
        if and only if the leader fits; else it was cut. */
    constructor (leader: string, headers: seq<Header>, source: Option<string>)
      ensures fresh(buffer) && sending && wire == ""
      ensures this.leader == leader && this.headers == headers && this.source == source
      ensures Valid() <==> LeaderFits(leader, headers)
    {
      this.leader, this.headers, this.source := leader, headers, source;
      buffer := new char[BUFFER_SIZE];
      len, header, position, sending, result := 0, 0, 0, true, NoError;
      chunkData := AsksForChunks(headers);
      wire, chunks, ended := "", [], false;
      documentLog, networkLog := [], [];
      new;
      StartText();
    }

    /** formatLeader, the line end, and queue_headers for a message without fields. */
    method CopyLeader()
      requires buffer.Length == BUFFER_SIZE && len == 0
      modifies this`len, buffer
      ensures len < BUFFER_SIZE && buffer[..len] == ClippedLeader(leader, headers == [])
    {
      var n := Print(leader);
      len := len + n;
      n := Print(CRLF);
      len := len + n;
      if headers == [] {
        n := Print(CRLF);
        len := len + n;
      }
    }

    method StartText()
      requires buffer.Length == BUFFER_SIZE && len == header == position == 0
      requires wire == "" && chunks == [] && !ended && (chunkData <==> Chunked())
      modifies this`len, buffer
      ensures Valid() <==> LeaderFits(leader, headers)
    {
      hide Kept, AsksForChunks, HeaderLine, ChunkText, LeaderFits, ClippedLeader;
      CopyLeader();
      ClippedLeaderFits(leader, headers);
      NothingKept();
      assert headers[..0] == [];
      assert wire + buffer[..len] == buffer[..len];
      assert BodyText(0) == "" && HeadText() + "" == HeadText();
    }

    /** Only the leader and the fields before `header` are queued, and the body is untouched. */
    ghost predicate HeadQueued()
      reads this, buffer
    {
      && buffer.Length == BUFFER_SIZE && len < BUFFER_SIZE && header <= |headers|
      && position == 0 && chunks == [] && !ended && (source.Some? ==> (chunkData <==> Chunked()))
      && wire + buffer[..len] == leader + CRLF + HeaderLines(Kept(headers[..header]))
    }

    /** One turn of the loop of queue_headers. */
    method QueueHeader() returns (full: bool)
      requires HeadQueued() && header < |headers|
      modifies this`len, this`header, buffer
      ensures HeadQueued()
      ensures full ==> header == old(header) && len == old(len) && NoRoom()
      ensures !full ==> header == old(header) + 1 && len < BUFFER_SIZE - 3
    {
      hide HeaderLine, HeaderLines, Kept;
      KeptGrows(headers, header);
      ghost var text := wire + buffer[..len];
      var line := HeaderLine(headers[header]);
      var n := Print(line);
      assert wire + (buffer[..len] + line) == text + line;
      if len + n < BUFFER_SIZE - 3 {
        assert line[..n] == line;
        len := len + n;
        header := header + 1;
        return false;
      } else if len == 0 {
        header := header + 1;
        return false;
      }
      return true;
    }

    /** Before the blank line the message consists of the leader and fields. */
    lemma {:induction false} HeadIsValid()
      requires header < |headers|
      ensures Valid() <==> HeadQueued()
      ensures HeadQueued() ==> len < BUFFER_SIZE
    {
      hide HeaderLines, Kept, AsksForChunks;
      if Valid() || HeadQueued() {
        assert HeadText() + "" == HeadText();
        assert position == 0 && chunks == [] && !ended ==> BodyText(position) == "" && Document()[..0] == "";
      }
    }

    /** HttpBase::queue_headers: all fields and the blank line, or as many as fit. */
    method QueueHeaders() returns (full: bool)
      requires Valid() && header < |headers|
      modifies this`len, this`header, buffer
      ensures Valid() && len < BUFFER_SIZE
      ensures full ==> NoRoom()
      ensures !full ==> header == |headers|
    {
      hide *;
      HeadIsValid();
      while header < |headers|
        invariant header <= |headers| && HeadQueued()
        invariant header == |headers| ==> len < BUFFER_SIZE - 3
      {
        full := QueueHeader();
        if full {
          HeadIsValid();
          return true;
        }
      }
      QueueBlankLine();
      full := false;
    }

    /** The line after the last field. */
    method QueueBlankLine()
      requires HeadQueued() && header == |headers| && len < BUFFER_SIZE - 3
      modifies this`len, buffer
      ensures Valid() && len < BUFFER_SIZE
    {
      hide HeaderLines, Kept;
      var n := Print(CRLF);
      assert CRLF[..n] == CRLF;
      len := len + n;
      assert BodyText(0) == "";
    }

    // The document

    /** The document stream, which is not part of the model: it blocks or fails at will, hands out
        the document in pieces of any size, and reports its end when there is nothing left. */
    method ReadDocument(space: nat) returns (r: StreamResult, data: string)
      requires source.Some? && position <= |Document()| && space > 0
      modifies this`position, this`documentLog
      ensures documentLog == old(documentLog) + [r]
      ensures r.Success? ==> 1 <= |data| <= space && position == old(position) + |data| <= |Document()|
      ensures r.Success? ==> Document()[..position] == Document()[..old(position)] + data
      ensures !r.Success? ==> position == old(position)
      ensures r.Eos? ==> position == |Document()|
    {
      r := *;
      var n: nat := *;
      if position == |source.value| {
        r := if r.Success? then Eos else r;
      } else if r.Eos? {
        r := Block;
      }
      data := "";
      documentLog := documentLog + [r];
      if r.Success? {
        n := if 1 <= n <= Min(space, |source.value| - position) then n else 1;
        data := source.value[position..position + n];
        position := position + n;
      }
    }

    /** The size of a chunk and its line end. The printed digits end with a NUL, which the line end overwrites. */
    method CopySize(n: nat)
      requires buffer.Length == BUFFER_SIZE && len + CHUNK_DIGITS + 2 <= BUFFER_SIZE
      modifies buffer
      ensures buffer[len..len + CHUNK_DIGITS] == HexText(n, CHUNK_DIGITS)
      ensures buffer[len + CHUNK_DIGITS..len + CHUNK_DIGITS + 2] == CRLF
      ensures forall i | 0 <= i < len || len + CHUNK_DIGITS + 2 <= i < BUFFER_SIZE :: buffer[i] == old(buffer[i])
    {
      hide HexText, Pow16;
      var digits := HexText(n, CHUNK_DIGITS);
      Copy(len, digits + ['\0']);
      assert forall i | 0 <= i < CHUNK_DIGITS :: buffer[len + i] == (digits + ['\0'])[i] == digits[i];
      Copy(len + CHUNK_DIGITS, CRLF);
    }

    /** Builds a chunk around data that is put in place first: its size in front, its end behind. */
    method CopyChunk(data: string)
      requires buffer.Length == BUFFER_SIZE && len + CHUNK_DIGITS + 4 + |data| <= BUFFER_SIZE
      modifies buffer
      ensures buffer[..len] == old(buffer[..len])
      ensures buffer[len..len + CHUNK_DIGITS] == HexText(|data|, CHUNK_DIGITS)
      ensures buffer[len + CHUNK_DIGITS..len + CHUNK_DIGITS + 2] == CRLF
      ensures buffer[len + CHUNK_DIGITS + 2..len + CHUNK_DIGITS + 2 + |data|] == data
      ensures buffer[len + CHUNK_DIGITS + 2 + |data|..len + CHUNK_DIGITS + 4 + |data|] == CRLF
    {
      hide *;
      var offset := len + CHUNK_DIGITS + 2;
      Copy(offset, data);
      CopySize(|data|);
      ghost var size := buffer[len..offset];
      Copy(offset + |data|, CRLF);
      assert buffer[len..offset] == size;
    }

    method PutChunk(data: string)
      requires buffer.Length == BUFFER_SIZE && len + CHUNK_DIGITS + 4 + |data| <= BUFFER_SIZE
      modifies buffer
      ensures buffer[..len + CHUNK_DIGITS + 4 + |data|] == old(buffer[..len]) + ChunkText(data)
    {
      hide HexText, Pow16, ChunkText;
      ghost var before, offset, end := buffer[..len], len + CHUNK_DIGITS + 2, len + CHUNK_DIGITS + 4 + |data|;
      CopyChunk(data);
      ghost var s := buffer[..end];
      assert s[..len] == before && s[len..len + CHUNK_DIGITS] == buffer[len..len + CHUNK_DIGITS];
      assert s[len + CHUNK_DIGITS..offset] == CRLF && s[offset..end - 2] == data && s[end - 2..] == CRLF;
      ChunkLayout(s, before, data);
    }

    /** A piece of the document joins the queued text as a chunk. */
    method QueueChunk(data: string, ghost before: nat)
      requires ValidAt(before) && chunkData && source.Some?
      requires 0 < |data| && len + CHUNK_DIGITS + 4 + |data| <= BUFFER_SIZE
      requires header == |headers| && before <= position <= |Document()|
      requires Document()[..position] == Document()[..before] + data
      modifies this`len, this`chunks, buffer
      ensures Valid() && len == old(len) + CHUNK_DIGITS + 4 + |data|
    {
      hide HeaderLines, Kept, ChunkText, ChunkTexts, Joined, AsksForChunks;
      ghost var sent := buffer[..len];
      AppendedToAll(wire, sent, HeadText(), ChunkTexts(chunks), ChunkText(data));
      OneMoreChunk(chunks, data);
      PutChunk(data);
      len := len + CHUNK_DIGITS + 4 + |data|;
      chunks := chunks + [data];
    }

    /** A piece of the document joins the queued text as it is. */
    method QueuePlain(data: string, ghost before: nat)
      requires ValidAt(before) && !chunkData && !ended && source.Some?
      requires 0 < |data| && len + |data| <= BUFFER_SIZE
      requires header == |headers| && before <= position <= |Document()|
      requires Document()[..position] == Document()[..before] + data
      modifies this`len, buffer
      ensures Valid() && len == old(len) + |data|
    {
      hide HeaderLines, Kept, AsksForChunks;
      ghost var sent := buffer[..len];
      AppendedToAll(wire, sent, HeadText(), BodyText(before), data);
      CopyBehind(data);
      len := len + |data|;
    }

    /** The empty chunk and the empty trailers join the queued text. */
    method QueueLastChunk()
      requires Valid() && chunkData && source.Some? && header == |headers|
      requires len + 5 <= BUFFER_SIZE && position == |Document()|
      modifies this`len, this`chunkData, this`ended, buffer
      ensures Valid() && len > 0 && ended && !chunkData
    {
      hide HeaderLines, Kept, ChunkTexts, Joined, AsksForChunks;
      ghost var sent := buffer[..len];
      AppendedToAll(wire, sent, HeadText(), ChunkTexts(chunks), LAST_CHUNK);
      CopyBehind(LAST_CHUNK);
      len := len + 5;
      chunkData, ended := false, true;
    }

    /** The part of a turn of flush_data that asks for document data. */
    method QueueDocument() returns (turn: Turn)
      requires Valid() && source.Some? && header == |headers|
      modifies this`position, this`len, this`chunks, this`chunkData, this`ended, this`documentLog, buffer
      ensures Valid() && old(documentLog) <= documentLog
      ensures turn == MoreRoom ==>
                len > old(len) && position > old(position) && EndsWith(old(documentLog), documentLog, Success)
      ensures turn == SendRequired ==> NothingToQueue()
      ensures turn == SendRequired && len == 0 ==> EndsWith(old(documentLog), documentLog, Block)
      ensures turn == AllDone ==> AllSent() && EndsWith(old(documentLog), documentLog, Eos)
      ensures turn == ReadFailed ==> EndsWith(old(documentLog), documentLog, StreamFailure)
    {
      hide HeaderLines, Kept, ChunkTexts, Joined, AsksForChunks, HeadText, BodyText;
      var offset := if chunkData then len + CHUNK_DIGITS + 2 else len;
      var reserve := if chunkData then offset + 2 else offset;
      if reserve >= BUFFER_SIZE {
        return SendRequired;
      }
      ghost var before := position;
      var r, data := ReadDocument(BUFFER_SIZE - reserve);
      match r {
        case Success =>
          if chunkData {
            QueueChunk(data, before);
          } else {
            QueuePlain(data, before);
          }
          return MoreRoom;
        case Block =>
          return SendRequired;
        case Eos =>
          if chunkData {
            QueueLastChunk();
          } else if len == 0 {
            return AllDone;
          }
          return SendRequired;
        case StreamFailure =>
          return ReadFailed;
      }
    }

    // The network

    /** The network stream, which is not part of the model: it takes any part of the data but at
        least one character, blocks, or fails. */
    method WriteNetwork() returns (r: StreamResult, written: nat, error: int)
      requires 0 < len <= buffer.Length
      modifies this`wire, this`networkLog
      ensures r.Success? ==> 1 <= written <= len
      ensures !r.Eos? && networkLog == old(networkLog) + [r]
      ensures wire == old(wire) + if r.Success? then buffer[..written] else ""
    {
      r, written, error := *, *, *;
      if r.Eos? || (r.Success? && !(1 <= written <= len)) {
        r := Block;
      }
      networkLog := networkLog + [r];
      wire := wire + if r.Success? then buffer[..written] else "";
    }

    /** The buffer after the network took its first `n` characters. */
    method DropFront(n: nat, ghost before: string)
      requires Shape(position) && before + buffer[..len] == HeadText() + BodyText(position)
      requires n <= len && wire == before + buffer[..n]
      modifies buffer, this`len
      ensures Valid() && len == old(len) - n
    {
      hide HeaderLines, Kept, ChunkTexts, Joined, AsksForChunks;
      ghost var queued := buffer[..len];
      FrontMoves(before, queued, n);
      assert queued[..n] == buffer[..n];
      MoveToFront(n);
    }

    method MoveToFront(n: nat)
      requires buffer.Length == BUFFER_SIZE && n <= len <= BUFFER_SIZE
      modifies buffer, this`len
      ensures len == old(len) - n && buffer[..len] == old(buffer[..len])[n..]
    {
      len := len - n;
      forall i | 0 <= i < len {
        buffer[i] := buffer[i + n];
      }
    }

    /** HttpBase::do_complete. */
    method DoComplete(error: HttpError)
      modifies this`sending, this`result
      ensures !sending && result == error
    {
      sending, result := false, error;
    }

    /** HttpBase::HandleStreamClose while sending. */
    function CloseError(error: int): (r: HttpError)
      ensures r != NoError && (r == Disconnected <==> error == 0)
      ensures (r == Auth <==> error == 13) && (r == CertificateExpired <==> error == -2146893016)
    {
      if error == 0 then Disconnected
      else if error == SOCKET_EACCES then Auth
      else if error == SEC_E_CERT_EXPIRED then CertificateExpired
      else SocketError
    }

    /** The first half of a turn of flush_data: queue what there is to queue. */
    method QueueMore(sendRequired: bool) returns (done: bool, required: bool)
      requires Valid() && sending && (sendRequired ==> len > 0 && NothingToQueue())
      modifies this`header, this`position, this`len, this`chunks, this`chunkData, this`ended,
               this`sending, this`result, this`documentLog, buffer
      ensures Valid() && (done <==> !sending) && old(documentLog) <= documentLog
      ensures !done ==> len > 0 || header == |headers|
      ensures !done && required ==> NothingToQueue()
      ensures !done && len == 0 && source.Some? ==> EndsWith(old(documentLog), documentLog, Block)
      ensures done ==>
                || (result == NoError && AllSent() && EndsWith(old(documentLog), documentLog, Eos))
                || (result == Stream && EndsWith(old(documentLog), documentLog, StreamFailure))
    {
      hide HeadText, BodyText, AsksForChunks, Joined, HeaderLine;
      done, required := false, sendRequired;
      if !required && header != |headers| {
        required := QueueHeaders();
      }
      if !required && source.Some? {
        var turn := QueueDocument();
        match turn {
          case SendRequired =>
            required := true;
          case MoreRoom =>
          case AllDone =>
            DoComplete(NoError);
            done := true;
          case ReadFailed =>
            DoComplete(Stream);
            done := true;
        }
      }
    }

    /** The second half: write to the network. */
    method SendQueued(sendRequired: bool) returns (done: bool, required: bool)
      requires Valid() && sending && (len > 0 || header == |headers|) && (sendRequired ==> NothingToQueue())
      modifies this`len, this`wire, this`sending, this`result, this`networkLog, buffer
      ensures Valid() && old(wire) <= wire && old(networkLog) <= networkLog
      ensures !done ==> sending && |networkLog| == |old(networkLog)| + 1
      ensures !done && required ==> len > 0 && NothingToQueue()
      ensures done && sending && len > 0 ==> EndsWith(old(networkLog), networkLog, Block) && NothingToQueue()
      ensures done && sending && len == 0 ==> old(len) == 0 && source.Some?
      ensures !sending ==>
                || (done && result == NoError && AllSent())
                || (done && (exists e: int :: result == CloseError(e))
                    && EndsWith(old(networkLog), networkLog, StreamFailure))
    {
      hide HeadText, BodyText, AsksForChunks, Joined, HeaderLine;
      required := sendRequired;
      if len == 0 {
        if source.None? {
          DoComplete(NoError);
        }
        return true, required;
      }
      ghost var before := wire;
      var r, written, error := WriteNetwork();
      match r {
        case Success =>
          DropFront(written, before);
          return false, false;
        case Block =>
          assert wire == before;
          return required, required;
        case Eos =>
          assert false;
        case StreamFailure =>
          assert wire == before;
          DoComplete(CloseError(error));
          return true, required;
      }
    }

    /** HttpBase::flush_data, watched for any number of turns: the loop of the source spins while the
        network blocks and nothing is left to queue, so it need not end. After every turn the network
        has, followed by the buffer, the message text built so far; a send that completes without an
        error has handed over the whole message. The loop pauses only when the network blocks and nothing
        can be queued, or when the document blocks and everything queued has been taken. */
    method FlushData(turns: nat) returns (pause: Pause)
      requires Valid() && sending
      modifies this`header, this`position, this`len, this`chunks, this`chunkData, this`ended, this`wire,
               this`sending, this`result, this`documentLog, this`networkLog, buffer
      ensures Valid() && old(wire) <= wire
      ensures pause == Ended <==> !sending
      ensures pause == Ended && result == NoError ==> AllSent()
      ensures pause == Ended && result != NoError ==>
                || (result == Stream && EndsWith(old(documentLog), documentLog, StreamFailure))
                || ((exists e: int :: result == CloseError(e)) && EndsWith(old(networkLog), networkLog, StreamFailure))
      ensures pause == NetworkBlocked ==>
                len > 0 && NothingToQueue() && EndsWith(old(networkLog), networkLog, Block)
      ensures pause == DocumentBlocked ==>
                && len == 0 && header == |headers| && source.Some?
                && EndsWith(old(documentLog), documentLog, Block)
      ensures pause == TurnsUp ==> |networkLog| >= |old(networkLog)| + turns
    {
      hide NothingToQueue, ValidAt, AllSent;
      var sendRequired := len >= BUFFER_SIZE;
      FullMeansNothingToQueue();
      for turn := 0 to turns
        invariant Valid() && sending && old(wire) <= wire
        invariant old(documentLog) <= documentLog && old(networkLog) <= networkLog
        invariant |networkLog| >= |old(networkLog)| + turn
        invariant sendRequired ==> len > 0 && NothingToQueue()
      {
        var done;
        done, sendRequired := QueueMore(sendRequired);
        if done {
          return Ended;
        }
        done, sendRequired := SendQueued(sendRequired);
        if done {
          return if !sending then Ended else if len > 0 then NetworkBlocked else DocumentBlocked;
        }
      }
      return TurnsUp;
    }

    lemma {:induction false} FullMeansNothingToQueue()
      requires Valid()
      ensures len >= BUFFER_SIZE ==> NothingToQueue()
    {
    }

    // What was sent

    /** The chunks of a complete message that continues what was built so far. */
    ghost function AllChunks(): seq<string>
      requires position <= |Document()|
      reads this
    {
      if position == |Document()| then chunks else chunks + [Document()[position..]]
    }

    /** A complete message for this leader, these fields and this document. */
    ghost function Message(): string
      requires position <= |Document()|
      reads this
    {
      Head(leader, Kept(headers)) +
      (if source.Some? && Chunked() then ChunkedBody(AllChunks()) else Document())
    }

    /** At every moment the network's text followed by the queued text is the start of a complete,
        well-formed message, and that message carries exactly the document. */
    lemma {:induction false} QueuedTextStartsMessage()
      requires Valid()
      ensures wire + buffer[..len] <= Message()
      ensures source.Some? && Chunked() ==> Joined(AllChunks()) == Document()
    {
      hide ChunkText, HeaderLine, HeaderLines, Kept, AsksForChunks, ChunkTexts;
      if header == |headers| {
        assert headers[..header] == headers;
        BodyTextStartsBody();
      } else {
        NoBodyYet();
        KeptStarts(headers, header);
        assert HeadText() + "" == HeadText();
      }
    }

    lemma {:induction false} NoBodyYet()
      requires Valid() && header < |headers|
      ensures BodyText(position) == ""
      ensures source.Some? && Chunked() ==> Joined(AllChunks()) == Document()
    {
      hide HeadText, AsksForChunks, ChunkText;
      assert Document()[0..] == Document();
      OneMoreChunk([], Document());
    }

    lemma {:induction false} BodyTextStartsBody()
      requires Valid() && header == |headers|
      ensures BodyText(position) <= if source.Some? && Chunked() then ChunkedBody(AllChunks()) else Document()
      ensures source.Some? && Chunked() ==> Joined(AllChunks()) == Document()
    {
      hide ChunkTexts, ChunkedBody, HeadText, AsksForChunks, Joined;
      if source.Some? && Chunked() {
        ChunksStartBody(chunks, Document()[position..]);
        OneMoreChunk(chunks, Document()[position..]);
        assert Document()[..position] + Document()[position..] == Document();
        assert ChunkTexts(chunks) + "" == ChunkTexts(chunks);
      }
    }

    /** A complete send has put the whole message on the wire. */
    lemma {:induction false} AllSentIsMessage()
      requires Valid() && AllSent()
      ensures wire == Message()
    {
      hide ChunkTexts, HeaderLines, Joined;
      assert headers[..header] == headers;
      assert wire + buffer[..len] == wire;
      assert Document()[..position] == Document();
    }

    /** The fields announce the body that is sent. */
    ghost predicate Announces(h: Hooks) {
      && PlainLeader(leader) && PlainFields(Kept(headers)) && Accepts(h, leader, Kept(headers))
      && |Document()| < SIZE_UNKNOWN
      && (Announced(Kept(headers)).value.0 <==> source.Some? && SaysChunked(headers))
      && (!Announced(Kept(headers)).value.0 ==> Announced(Kept(headers)).value.1 == |Document()|)
    }

    /** What a receiver is to find in the message. */
    ghost function Events(h: Hooks): seq<Event>
      requires Announces(h)
    {
      HeadEvents(leader, Kept(headers)) + [HeadersDone(Announced(Kept(headers)).value.0,
                                                       Announced(Kept(headers)).value.1)]
    }

    lemma {:induction false} AllChunksAreProper()
      requires Valid() && |Document()| < SIZE_UNKNOWN
      ensures forall c | c in AllChunks() :: ProperChunk(c)
    {
      hide AsksForChunks, HeadText, BodyText, Joined;
    }

    /** The wire alone is the start of the message. */
    lemma {:induction false} WireStartsMessage()
      requires Valid()
      ensures position <= |Document()| && wire <= Message()
    {
      hide Message, HeadText, BodyText;
      QueuedTextStartsMessage();
      assert wire <= wire + buffer[..len];
    }

    /** At every moment the parser reads the message that is being sent back as this leader, these fields and this
        document, without an error, to its last character. */
    lemma {:induction false} MessageReadsBack(h: Hooks)
      requires Valid() && Announces(h)
      ensures var m := Run(h, START, Message());
              && m.outcome == Finished(NoError) && m.taken == |Message()|
              && m.parse.body == Document() && m.parse.events == Events(h)
    {
      hide Run, Announced, Kept, Head, HeadEvents, ChunkedBody, PlainLeader, PlainFields, Accepts, AllChunks, ValidAt;
      hide SaysChunked, AsksForChunks;
      AsksForChunksIff(headers);
      WireStartsMessage();
      if source.Some? && Chunked() {
        AllChunksAreProper();
        QueuedTextStartsMessage();
      }
      if source.Some? && Chunked() {
        ChunkedRoundTrip(h, leader, Kept(headers), AllChunks());
      } else {
        LengthRoundTrip(h, leader, Kept(headers), Document());
      }
    }

    /** Whatever schedule of document reads and network writes led to a complete send, the parser reads
        the wire back as this leader, these fields and this document, without an error, to its last character. */
    lemma {:induction false} SentMessageReadsBack(h: Hooks)
      requires Valid() && AllSent() && Announces(h)
      ensures var m := Run(h, START, wire);
              && m.outcome == Finished(NoError) && m.taken == |wire|
              && m.parse.body == Document() && m.parse.events == Events(h)
    {
      hide Run, Announces, Events, Message;
      AllSentIsMessage();
      MessageReadsBack(h);
    }

    /** The fields are short enough to be sent, can be read back, and only one of them is about the body. */
    ghost predicate OneFraming(before: seq<Header>, framing: Header, after: seq<Header>) {
      && headers == before + [framing] + after
      && (forall f | f in headers :: |f.name| + |f.value| + 4 < 32 * 1024 - 3 && PlainField(f))
      && (forall f | f in before + after ::
            !Spelled(f.name, "content-length", "CONTENT-LENGTH") && !NamesTransferEncoding(f))
    }

    /** The receiver's owner takes the leader and the framing as they are. */
    ghost predicate Welcomes(h: Hooks, chunked: bool, size: Size) {
      h.parseLeader(leader) == NoError
      && h.headersDone(HeadEvents(leader, headers), chunked, size) == Verdict(NoError, size, false)
    }

    lemma {:induction false} OneFramingIs(before: seq<Header>, framing: Header, after: seq<Header>)
      requires OneFraming(before, framing, after)
      ensures Kept(headers) == headers && PlainFields(headers)
      ensures forall f | f in before + after :: Neutral(f)
    {
      hide EqualsNoCase, Spelled, NamesTransferEncoding, HeaderLine, Fits, PlainField, Neutral;
      forall f | f in headers ensures Fits(f) {
        FieldFits(f);
      }
      forall f | f in before + after ensures Neutral(f) {
        NeutralName(f);
      }
    }

    /** The framing field decides whether the sender chunks. */
    lemma {:induction false} FramingDecides(before: seq<Header>, framing: Header, after: seq<Header>)
      requires OneFraming(before, framing, after)
      ensures Chunked() <==> NamesTransferEncoding(framing) && framing.value == "chunked"
    {
      hide Spelled, NamesTransferEncoding, AsksForChunks, PlainField, Fits;
      AsksForChunksIff(headers);
      var k := |before|;
      assert headers[k] == framing;
      forall j | 0 <= j < |headers| && j != k ensures !NamesTransferEncoding(headers[j]) {
        assert headers[j] == if j < k then before[j] else after[j - k - 1];
        assert headers[j] in before + after;
      }
      if NamesTransferEncoding(framing) && framing.value == "chunked" {
        assert SaysChunkedAt(headers, k);
      }
    }

    /** The characters of a complete message. */
    lemma {:induction false} SentText()
      requires Valid() && AllSent() && Kept(headers) == headers
      ensures wire == leader + "\r\n" + HeaderLines(headers) + "\r\n"
                      + if source.Some? && Chunked() then ChunkTexts(chunks) + "0\r\n\r\n" else Document()
    {
      hide HeaderLines, ChunkTexts, AsksForChunks, Kept;
      AllSentIsMessage();
    }

    /** A document sent with "Transfer-Encoding: chunked" goes out in chunks, and is read back. */
    lemma {:induction false} ChunkedDocumentArrives(h: Hooks, before: seq<Header>, after: seq<Header>)
      requires Valid() && AllSent() && source.Some? && |Document()| < 0xFFFF_FFFF && PlainLeader(leader)
      requires OneFraming(before, Header("Transfer-Encoding", "chunked"), after) && Welcomes(h, true, 0xFFFF_FFFF)
      ensures wire == leader + "\r\n" + HeaderLines(headers) + "\r\n" + (ChunkTexts(chunks) + "0\r\n\r\n")
      ensures Joined(chunks) == Document()
      ensures var m := Run(h, START, wire);
              && m.outcome == Finished(NoError) && m.taken == |wire| && m.parse.body == Document()
              && m.parse.events == HeadEvents(leader, headers) + [HeadersDone(true, 0xFFFF_FFFF)]
    {
      hide Run, EqualsNoCase, Joined, ChunkTexts, HeaderLines, HeadEvents, Kept, PlainLeader, PlainFields, PlainField;
      hide Announced, Fits, BodyText, HeadText, AsksForChunks, SaysChunked, Spelled, Message;
      FramingDecides(before, Header("Transfer-Encoding", "chunked"), after);
      assert NamesTransferEncoding(Header("Transfer-Encoding", "chunked")) by { SpelledExactly(); }
      OneFramingIs(before, Header("Transfer-Encoding", "chunked"), after);
      TransferEncodingAnnounces(before, after);
      AsksForChunksIff(headers);
      SentText();
      SentMessageReadsBack(h);
      QueuedTextStartsMessage();
    }

    /** A document sent with its length goes out as it is, and is read back. */
    lemma {:induction false} DocumentWithLengthArrives(h: Hooks, before: seq<Header>, after: seq<Header>)
      requires Valid() && AllSent() && |Document()| < 0xFFFF_FFFF && PlainLeader(leader)
      requires OneFraming(before, Header("Content-Length", DecimalText(|Document()|)), after)
      requires Welcomes(h, false, |Document()|)
      ensures wire == leader + "\r\n" + HeaderLines(headers) + "\r\n" + Document()
      ensures var m := Run(h, START, wire);
              && m.outcome == Finished(NoError) && m.taken == |wire| && m.parse.body == Document()
              && m.parse.events == HeadEvents(leader, headers) + [HeadersDone(false, |Document()|)]
    {
      hide Run, EqualsNoCase, Joined, ChunkTexts, HeaderLines, HeadEvents, Kept, PlainLeader, PlainFields, PlainField;
      hide Announced, Fits, BodyText, HeadText, AsksForChunks, SaysChunked, Message, Document, DecimalText;
      var framing := Header("Content-Length", DecimalText(|Document()|));
      FramingDecides(before, framing, after);
      OneFramingIs(before, framing, after);
      ContentLengthAnnounces(before, after, |Document()|);
      AsksForChunksIff(headers);
      SentText();
      SentMessageReadsBack(h);
    }
  }
}
