/** What the parser makes of text, whoever wrote it: fields in any spelling, chunk sizes, trailers, and what it refuses.
    Names and characters are given as texts; the functions that the parser is defined by do not occur. */
module HttpText {
  import opened CText
  import opened HttpParsing

  /** White space other than a line end. */
  predicate Blank(s: string) {
    forall c | c in s :: c in " \t\r\U{B}\U{C}"
  }

  /** Nothing to trim and no line end inside. */
  predicate Bare(s: string) {
    '\n' !in s && (s != "" ==> s[0] !in " \t\r\U{B}\U{C}" && s[|s| - 1] !in " \t\r\U{B}\U{C}")
  }

  predicate FieldName(s: string) {
    '\n' !in s && '\0' !in s && ':' !in s
  }

  /** The parser has not stopped and stands at the start of a line of the given kind. */
  predicate AtLine(m: Machine, state: State) {
    m.outcome == Continue && m.parse.state == state && m.pending == ""
  }

  // Lines

  lemma {:induction false} BlankIsSpace(s: string)
    requires Blank(s)
    ensures forall i | 0 <= i < |s| :: IsSpace(s[i]) && s[i] != '\n'
  {
    forall i | 0 <= i < |s| ensures IsSpace(s[i]) && s[i] != '\n' {
      assert s[i] in s;
    }
  }

  /** White space at the end of a line is cut off. */
  lemma {:induction false} Trimming(s: string, padding: string)
    requires Blank(padding) && (s == "" || s[|s| - 1] !in " \t\r\U{B}\U{C}\n")
    ensures TrimEnd(s + padding) == s
  {
    BlankIsSpace(padding);
    if padding == "" {
      assert s + padding == s;
    } else {
      var front := padding[..|padding| - 1];
      assert (s + padding)[..|s + padding| - 1] == s + front;
      assert Blank(front) by {
        forall c | c in front ensures c in padding {}
      }
      Trimming(s, front);
    }
  }

  /** One line of text is one step of the machine on what is left of it. */
  lemma {:induction false} RunTextLine(h: Hooks, m: Machine, line: string, padding: string)
    requires m.outcome == Continue && WantsLine(m.parse.state) && m.pending == ""
    requires '\n' !in line && Blank(padding) && (line == "" || line[|line| - 1] !in " \t\r\U{B}\U{C}")
    ensures var (p, o) := LineStep(h, m.parse, line);
            Run(h, m, line + padding + "\n") == Settle(Machine(p, "", o, m.taken + |line| + |padding| + 1))
  {
    hide LineStep, Run, TrimEnd;
    BlankIsSpace(padding);
    assert '\n' !in line + padding;
    assert line != "" ==> line[|line| - 1] in line;
    Trimming(line, padding);
    RunLine(h, m, line + padding);
    assert ['\n'] == "\n";
  }

  /** The leader goes to the owner as it is; what the owner says is what happens. */
  lemma {:induction false} LeaderIsPassedOn(h: Hooks, m: Machine, line: string, padding: string)
    requires AtLine(m, Leader) && Bare(line) && Blank(padding)
    ensures var r, error := Run(h, m, line + padding + "\n"), h.parseLeader(line);
            && r.parse == m.parse.(state := Headers, events := m.parse.events + [LeaderLine(line)])
            && r.outcome == (if error == NoError then Continue else Finished(error))
            && r.taken == m.taken + |line| + |padding| + 1 && r.pending == ""
  {
    hide Run;
    RunTextLine(h, m, line, padding);
  }

  // Header fields

  /** name ":" white space value white space line end. */
  function FieldText(name: string, gap: string, value: string, padding: string): string {
    name + ":" + gap + value + padding + "\n"
  }

  /** A field that was taken: the framing it leaves, its callback, and all of its text. */
  predicate Took(m: Machine, r: Machine, field: Header, chunked: bool, size: Size, text: string) {
    r == m.(parse := m.parse.(chunked := chunked, dataSize := size, events := m.parse.events + [HeaderField(field)]),
            taken := m.taken + |text|)
  }

  /** A line that ended the message with a protocol error, before any callback. */
  predicate Refused(m: Machine, r: Machine) {
    r.outcome == Finished(Protocol) && r.parse.events == m.parse.events && r.parse.body == m.parse.body
  }

  lemma {:induction false} SplitAtColon(name: string, rest: string)
    requires FieldName(name)
    ensures SplitField(name + ":" + rest) == Some(Header(name, rest[SpaceRun(rest)..]))
  {
    hide StrChrN, SpaceRun;
    var line := name + ":" + rest;
    assert line == name + [':'] + rest;
    StrChrNFinds(name, ':', rest);
    assert line[..|name|] == name && line[|name| + 1..] == rest;
    assert line[|name| + 1 + SpaceRun(rest)..] == rest[SpaceRun(rest)..];
  }

  /** The line of a field without its padding, split in its two parts. */
  lemma {:induction false} FieldLineSplits(name: string, gap: string, value: string)
    requires FieldName(name) && Blank(gap) && Bare(value)
    ensures var line := if value == "" then name + ":" else name + ":" + gap + value;
            SplitField(line) == Some(Header(name, value))
  {
    hide SplitField, SpaceRun;
    var rest := if value == "" then "" else gap + value;
    SplitAtColon(name, rest);
    if value == "" {
      assert name + ":" + "" == name + ":";
      SpaceRunStops("", "");
      assert "" + "" == "";
    } else {
      assert name + ":" + (gap + value) == name + ":" + gap + value;
      BlankIsSpace(gap);
      assert value[0] in value;
      SpaceRunStops(gap, value);
      assert rest[|gap|..] == value;
    }
  }

  lemma {:induction false} RunField(h: Hooks, m: Machine, name: string, gap: string, value: string, padding: string)
    requires AtLine(m, Headers) && FieldName(name) && Blank(gap) && Bare(value) && Blank(padding)
    ensures var text, field := FieldText(name, gap, value, padding), Header(name, value);
            var effect := FieldEffect(m.parse.chunked, m.parse.dataSize, field);
            var r := Run(h, m, text);
            if effect.None? then Refused(m, r) && r.parse == m.parse
            else Took(m, r, field, effect.value.0, effect.value.1, text)
  {
    hide FieldEffect, SplitField, Run;
    FieldLineSplits(name, gap, value);
    BlankIsSpace(gap);
    if value == "" {
      assert Blank(gap + padding);
      assert FieldText(name, gap, value, padding) == (name + ":") + (gap + padding) + "\n";
      RunTextLine(h, m, name + ":", gap + padding);
    } else {
      RunTextLine(h, m, name + ":" + gap + value, padding);
    }
  }

  /** In whatever case its name is written, a Content-Length field sets the body size to the number that its value
      starts with. */
  lemma {:induction false} ContentLengthIsRead(h: Hooks, m: Machine, name: string, gap: string, sign: string,
                                               digits: string, rest: string, padding: string)
    requires AtLine(m, Headers) && Spelled(name, "content-length", "CONTENT-LENGTH") && Blank(gap) && Blank(padding)
    requires sign == "" || sign == "+" || sign == "-"
    requires digits != "" && (forall i | 0 <= i < |digits| :: '0' <= digits[i] <= '9')
    requires rest == "" || !('0' <= rest[0] <= '9')
    requires Bare(sign + digits + rest)
    ensures var n := Value(digits, 10);
            var size := if n > 0xFFFF_FFFF then 0xFFFF_FFFF
                        else if sign == "-" && n != 0 then 0x1_0000_0000 - n else n;
            var text := FieldText(name, gap, sign + digits + rest, padding);
            Took(m, Run(h, m, text), Header(name, sign + digits + rest), m.parse.chunked, size, text)
  {
    hide Run, Value, StrToUL, Took;
    NamesDiffer(name);
    RunField(h, m, name, gap, sign + digits + rest, padding);
    StrToULText(sign, digits, rest, 10);
  }

  /** A value that does not start with a number is refused. */
  lemma {:induction false} ContentLengthIsRefused(h: Hooks, m: Machine, name: string, gap: string, sign: string,
                                                  rest: string, padding: string)
    requires AtLine(m, Headers) && Spelled(name, "content-length", "CONTENT-LENGTH") && Blank(gap) && Blank(padding)
    requires sign == "" || sign == "+" || sign == "-"
    requires rest == "" || rest[0] !in "0123456789 \t\r\U{B}\U{C}"
    requires sign == "" && rest != "" ==> rest[0] != '+' && rest[0] != '-'
    requires Bare(sign + rest)
    ensures Refused(m, Run(h, m, FieldText(name, gap, sign + rest, padding)))
  {
    hide Run, StrToUL, Refused;
    NamesDiffer(name);
    RunField(h, m, name, gap, sign + rest, padding);
    assert rest != "" ==> rest[0] in sign + rest;
    StrToULNothing(sign, rest);
  }

  /** A Transfer-Encoding field, in whatever case, says "chunked" or "identity", in whatever case, or is refused. */
  lemma {:induction false} TransferEncodingIsRead(h: Hooks, m: Machine, name: string, gap: string, value: string,
                                                  padding: string)
    requires AtLine(m, Headers) && Spelled(name, "transfer-encoding", "TRANSFER-ENCODING")
    requires Blank(gap) && Bare(value) && Blank(padding)
    ensures var text := FieldText(name, gap, value, padding);
            var r := Run(h, m, text);
            if Spelled(value, "chunked", "CHUNKED") then
              Took(m, r, Header(name, value), true, m.parse.dataSize, text)
            else if Spelled(value, "identity", "IDENTITY") then
              Took(m, r, Header(name, value), false, m.parse.dataSize, text)
            else Refused(m, r)
  {
    hide Run, EqualsNoCase, Took, Refused;
    NamesDiffer(name);
    RunField(h, m, name, gap, value, padding);
    EqualsNoCaseIff(value, "chunked", "chunked", "CHUNKED");
    EqualsNoCaseIff(value, "identity", "identity", "IDENTITY");
  }

  /** Any other field leaves the framing alone. */
  lemma {:induction false} OtherFieldIsKept(h: Hooks, m: Machine, name: string, gap: string, value: string,
                                            padding: string)
    requires AtLine(m, Headers) && FieldName(name) && Blank(gap) && Bare(value) && Blank(padding)
    requires !Spelled(name, "content-length", "CONTENT-LENGTH")
    requires !Spelled(name, "transfer-encoding", "TRANSFER-ENCODING")
    ensures var text := FieldText(name, gap, value, padding);
            Took(m, Run(h, m, text), Header(name, value), m.parse.chunked, m.parse.dataSize, text)
  {
    hide Run, EqualsNoCase, Took, Refused;
    NameSpellings(name);
    RunField(h, m, name, gap, value, padding);
  }

  lemma {:induction false} NameSpellings(name: string)
    ensures EqualsNoCase(name, CONTENT_LENGTH) <==> Spelled(name, "content-length", "CONTENT-LENGTH")
    ensures EqualsNoCase(name, TRANSFER_ENCODING) <==> Spelled(name, "transfer-encoding", "TRANSFER-ENCODING")
  {
    EqualsNoCaseIff(name, "Content-Length", "content-length", "CONTENT-LENGTH");
    EqualsNoCaseIff(name, "Transfer-Encoding", "transfer-encoding", "TRANSFER-ENCODING");
  }

  lemma {:induction false} NamesDiffer(name: string)
    requires Spelled(name, "content-length", "CONTENT-LENGTH")
             || Spelled(name, "transfer-encoding", "TRANSFER-ENCODING")
    ensures FieldName(name)
    ensures |name| == 14 ==> EqualsNoCase(name, CONTENT_LENGTH)
    ensures |name| == 17 ==> !EqualsNoCase(name, CONTENT_LENGTH) && EqualsNoCase(name, TRANSFER_ENCODING)
    ensures |name| == if Spelled(name, "content-length", "CONTENT-LENGTH") then 14 else 17
  {
    hide EqualsNoCase;
    NameSpellings(name);
  }

  /** A line without a colon is no field. */
  lemma {:induction false} ColonIsNeeded(h: Hooks, m: Machine, line: string, padding: string)
    requires AtLine(m, Headers) && Bare(line) && line != "" && ':' !in line && Blank(padding)
    ensures Refused(m, Run(h, m, line + padding + "\n"))
  {
    hide Run;
    RunTextLine(h, m, line, padding);
  }

  /** The blank line ends the fields: the owner hears the framing and may change the size, throw the body away, or stop
      the message; a body of size 0 without chunks ends it at once. */
  lemma {:induction false} BlankLineEndsFields(h: Hooks, m: Machine, padding: string)
    requires AtLine(m, Headers) && Blank(padding)
    ensures var r := Run(h, m, padding + "\n");
            var verdict := h.headersDone(m.parse.events, m.parse.chunked, m.parse.dataSize);
            && r.parse == m.parse.(state := if m.parse.chunked then ChunkSize else Data,
                                   dataSize := verdict.dataSize, discard := verdict.discard,
                                   events := m.parse.events + [HeadersDone(m.parse.chunked, m.parse.dataSize)])
            && r.outcome == (if verdict.error != NoError then Finished(verdict.error)
                             else if !m.parse.chunked && verdict.dataSize == 0 then Finished(NoError)
                             else Continue)
            && r.taken == m.taken + |padding| + 1 && r.pending == ""
  {
    hide Run;
    RunTextLine(h, m, "", padding);
    assert "" + padding == padding;
  }

  // Chunks

  predicate HexDigits(s: string) {
    s != "" && forall i | 0 <= i < |s| :: '0' <= s[i] <= '9' || 'a' <= s[i] <= 'f' || 'A' <= s[i] <= 'F'
  }

  /** A line of hexadecimal digits, in either case and with leading zeros, is the size of the next chunk; size 0 is
      followed by the trailers. */
  lemma {:induction false} ChunkSizeIsRead(h: Hooks, m: Machine, digits: string, padding: string)
    requires AtLine(m, ChunkSize) && HexDigits(digits) && Value(digits, 16) <= 0xFFFF_FFFF && Blank(padding)
    ensures var n := Value(digits, 16);
            Run(h, m, digits + padding + "\n") ==
            m.(parse := m.parse.(dataSize := n, state := if n == 0 then Trailers else Data),
               taken := m.taken + |digits| + |padding| + 1)
  {
    hide Run, StrToUL, Value;
    assert forall i | 0 <= i < |digits| :: IsDigit(digits[i], 16);
    assert '\n' !in digits && digits[|digits| - 1] !in " \t\r\U{B}\U{C}";
    RunTextLine(h, m, digits, padding);
    StrToULText("", digits, "", 16);
    assert "" + digits + "" == digits;
  }

  /** An empty line and a line with anything in it that is no part of a number are refused, chunk extensions too. */
  lemma {:induction false} ChunkSizeIsRefused(h: Hooks, m: Machine, line: string, i: nat, padding: string)
    requires AtLine(m, ChunkSize) && Bare(line) && Blank(padding)
    requires line == "" || (i < |line| && line[i] !in "0123456789abcdefABCDEFxX+- \t\r\U{B}\U{C}")
    ensures Refused(m, Run(h, m, line + padding + "\n"))
  {
    hide Run, StrToUL;
    RunTextLine(h, m, line, padding);
    if line != "" {
      assert line[i] in line;
      if StrToUL(line, 16).end == |line| {
        NumberChars(line, i);
        assert false;
      }
    }
  }

  /** A chunk as anybody may write it: its data joins the body, unless the body is thrown away. */
  lemma {:induction false} ChunkIsRead(h: Hooks, m: Machine, digits: string, padding: string, data: string, end: string)
    requires AtLine(m, ChunkSize) && m.parse.chunked && HexDigits(digits) && Blank(padding) && Blank(end)
    requires |data| == Value(digits, 16) && 0 < |data| < 0xFFFF_FFFF
    ensures var text := digits + padding + "\n" + data + end + "\n";
            Run(h, m, text) ==
            m.(parse := m.parse.(dataSize := 0, body := if m.parse.discard then m.parse.body else m.parse.body + data),
               taken := m.taken + |text|)
  {
    hide Run, Value, WantsLine;
    ChunkSizeIsRead(h, m, digits, padding);
    var size := digits + padding + "\n";
    var n := Run(h, m, size);
    RunBody(h, n, data);
    var e := Run(h, n, data);
    RunConcat(h, m, size, data);
    ChunkEndIsBlank(h, e, "", end);
    RunConcat(h, m, size + data, end + "\n");
    assert size + data + (end + "\n") == digits + padding + "\n" + data + end + "\n";
    assert "" + end + "\n" == end + "\n";
  }

  /** Behind the data of a chunk there is a blank line and nothing else. */
  lemma {:induction false} ChunkEndIsBlank(h: Hooks, m: Machine, line: string, padding: string)
    requires AtLine(m, ChunkTerm) && m.parse.chunked && Bare(line) && Blank(padding)
    ensures var r := Run(h, m, line + padding + "\n");
            if line == "" then r == m.(parse := m.parse.(state := ChunkSize), taken := m.taken + |padding| + 1)
            else Refused(m, r)
  {
    hide Run;
    RunTextLine(h, m, line, padding);
  }

  // Trailers

  /** The lines one after the other, each with its end. */
  function Lines(lines: seq<string>): string {
    if lines == [] then "" else lines[0] + "\n" + Lines(lines[1..])
  }

  /** A line with something in it. */
  predicate Something(line: string) {
    '\n' !in line && exists i :: 0 <= i < |line| && line[i] !in " \t\r\U{B}\U{C}"
  }

  /** What is left of a line, and the white space behind it. */
  lemma {:induction false} CutLine(s: string) returns (line: string, padding: string)
    requires '\n' !in s
    ensures s == line + padding && (line == "" ==> s == padding)
    ensures Blank(padding) && (line == "" || line[|line| - 1] !in " \t\r\U{B}\U{C}")
  {
    if s == "" || s[|s| - 1] !in " \t\r\U{B}\U{C}" {
      line, padding := s, "";
    } else {
      var front := s[..|s| - 1];
      assert forall c | c in front :: c in s;
      line, padding := CutLine(front);
      padding := padding + [s[|s| - 1]];
    }
  }

  lemma {:induction false} SomethingIsNotBlank(s: string)
    requires Something(s)
    ensures !Blank(s)
  {
    var i :| 0 <= i < |s| && s[i] !in " \t\r\U{B}\U{C}";
    assert s[i] in s;
  }

  /** Trailer lines are skipped, however many there are. */
  lemma {:induction false} TrailersAreSkipped(h: Hooks, m: Machine, lines: seq<string>)
    requires AtLine(m, Trailers) && forall l | l in lines :: Something(l)
    ensures Run(h, m, Lines(lines)) == m.(taken := m.taken + |Lines(lines)|)
    decreases lines
  {
    if lines != [] {
      hide Run;
      assert lines[0] in lines && Something(lines[0]);
      var line, padding := CutLine(lines[0]);
      SomethingIsNotBlank(lines[0]);
      RunTextLine(h, m, line, padding);
      var n := Run(h, m, lines[0] + "\n");
      RunConcat(h, m, lines[0] + "\n", Lines(lines[1..]));
      TrailersAreSkipped(h, n, lines[1..]);
    } else {
      assert Run(h, m, "") == m;
    }
  }

  /** A chunk of size 0, any number of trailer lines and a blank line end the message, and nothing is taken that comes
      after them. */
  lemma {:induction false} LastChunkEndsMessage(h: Hooks, m: Machine, digits: string, padding: string,
                                                trailers: seq<string>, end: string, next: string)
    requires AtLine(m, ChunkSize) && HexDigits(digits) && Value(digits, 16) == 0 && Blank(padding) && Blank(end)
    requires forall l | l in trailers :: Something(l)
    ensures var text := digits + padding + "\n" + Lines(trailers) + end + "\n";
            var r := Run(h, m, text + next);
            && r.outcome == Finished(NoError) && r.taken == m.taken + |text|
            && r.parse.body == m.parse.body && r.parse.events == m.parse.events
  {
    hide Run, Value, Something;
    var size := digits + padding + "\n";
    ChunkSizeIsRead(h, m, digits, padding);
    var n := Run(h, m, size);
    TrailersAreSkipped(h, n, trailers);
    RunConcat(h, m, size, Lines(trailers));
    var e := Run(h, m, size + Lines(trailers));
    RunTextLine(h, e, "", end);
    assert "" + end + "\n" == end + "\n";
    RunConcat(h, m, size + Lines(trailers), end + "\n");
    var text := size + Lines(trailers) + (end + "\n");
    assert text == digits + padding + "\n" + Lines(trailers) + end + "\n";
    RunConcat(h, m, text, next);
    RunStops(h, Run(h, m, text), next);
  }
}
