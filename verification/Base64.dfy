/** Base64 as in sections 3.5 and 4 of RFC 4648. Shifts and masks of the source are written as division and
    remainder by powers of two; an "or" of disjoint bits is a sum. */
module Base64 {

  type Byte = b: int | 0 <= b < 256

  type Sextet = b: int | 0 <= b < 64

  const PAD: char := '='

  /** Entries of DecodeTable that are not sextets: padding, white space, illegal. */
  const PD: int := 0xFD
  const SP: int := 0xFE
  const IL: int := 0xFF

  /** Base64Table. */
  function EncodeChar(c: Sextet): (ch: char)
    ensures DecodeTable(ch) == c
  {
    if c < 26 then ('A' as int + c) as char
    else if c < 52 then ('a' as int + (c - 26)) as char
    else if c < 62 then ('0' as int + (c - 52)) as char
    else if c == 62 then '+'
    else '/'
  }

  function DecodeTable(ch: char): (v: int)
    ensures 0 <= v < 256
  {
    if 'A' <= ch <= 'Z' then ch as int - 'A' as int
    else if 'a' <= ch <= 'z' then ch as int - 'a' as int + 26
    else if '0' <= ch <= '9' then ch as int - '0' as int + 52
    else if ch == '+' then 62
    else if ch == '/' then 63
    else if ch == PAD then PD
    else if ch == ' ' || '\t' <= ch <= '\r' then SP
    else IL
  }

  predicate IsBase64Char(ch: char) {
    DecodeTable(ch) < 64
  }

  lemma {:induction false} EncodeCharInverts(ch: char)
    requires IsBase64Char(ch)
    ensures EncodeChar(DecodeTable(ch)) == ch
  {
  }

  /** The alphabet of section 4 of RFC 4648 (table 1): capitals, small letters and digits in their order, and two more
      characters. */
  lemma {:induction false} AlphabetIs(c: Sextet)
    ensures EncodeChar(0) == 'A' && EncodeChar(25) == 'Z' && EncodeChar(26) == 'a' && EncodeChar(51) == 'z'
    ensures EncodeChar(52) == '0' && EncodeChar(61) == '9' && EncodeChar(62) == '+' && EncodeChar(63) == '/'
    ensures c < 61 && c != 25 && c != 51 ==> EncodeChar(c + 1) as int == EncodeChar(c) as int + 1
  {
  }

  /** The three other kinds of characters. */
  lemma {:induction false} OtherCharsAre(ch: char)
    ensures DecodeTable(ch) == PD <==> ch == '='
    ensures DecodeTable(ch) == SP <==> ch in " \t\n\r\U{B}\U{C}"
  {
  }

  // Three bytes are four sextets

  function Quad(a: Byte, b: Byte, c: Byte): (q: seq<Sextet>)
    ensures |q| == 4
  {
    [a / 4, (a % 4) * 16 + b / 16, (b % 16) * 4 + c / 64, c % 64]
  }

  function Byte0(q: seq<Sextet>): Byte
    requires |q| == 4
  {
    var p: int, r: int := q[0], q[1];
    p * 4 + r / 16
  }

  function Byte1(q: seq<Sextet>): Byte
    requires |q| == 4
  {
    var p: int, r: int := q[1], q[2];
    (p % 16) * 16 + r / 4
  }

  function Byte2(q: seq<Sextet>): Byte
    requires |q| == 4
  {
    var p: int, r: int := q[2], q[3];
    (p % 4) * 64 + r
  }

  /** The bytes and the sextets are the same 24 bits, the high ones first. */
  lemma {:induction false} QuadIsSameNumber(a: Byte, b: Byte, c: Byte)
    ensures var q := Quad(a, b, c);
            var p: int, r: int, s: int, t: int := q[0], q[1], q[2], q[3];
            ((p * 64 + r) * 64 + s) * 64 + t == (a * 256 + b) * 256 + c
  {
  }

  lemma {:induction false} QuadInverts(a: Byte, b: Byte, c: Byte)
    ensures var q := Quad(a, b, c); Byte0(q) == a && Byte1(q) == b && Byte2(q) == c
  {
  }

  lemma {:induction false} Recombine(p: int, r: int, s: int, t: int)
    requires 0 <= p < 64 && 0 <= r < 64 && 0 <= s < 64 && 0 <= t < 64
    ensures (p * 4 + r / 16) / 4 == p && ((p * 4 + r / 16) % 4) * 16 + ((r % 16) * 16 + s / 4) / 16 == r
    ensures (((r % 16) * 16 + s / 4) % 16) * 4 + ((s % 4) * 64 + t) / 64 == s && ((s % 4) * 64 + t) % 64 == t
  {
  }

  lemma {:induction false} BytesInvert(q: seq<Sextet>)
    requires |q| == 4
    ensures Quad(Byte0(q), Byte1(q), Byte2(q)) == q
  {
    Recombine(q[0], q[1], q[2], q[3]);
  }

  // Encoding

  function EncodeChars(q: seq<Sextet>): (s: string)
    ensures |s| == |q|
    ensures forall i | 0 <= i < |q| :: s[i] == EncodeChar(q[i])
  {
    seq(|q|, i requires 0 <= i < |q| => EncodeChar(q[i]))
  }

  function Pads(n: nat): (s: string)
    ensures |s| == n && forall i | 0 <= i < n :: s[i] == PAD
  {
    seq(n, _ => PAD)
  }

  /** The Base64 text of a byte string. */
  function Encode(data: seq<Byte>): (s: string)
    ensures |s| == (|data| + 2) / 3 * 4
  {
    if |data| >= 3 then EncodeChars(Quad(data[0], data[1], data[2])) + Encode(data[3..])
    else if |data| == 2 then EncodeChars(Quad(data[0], data[1], 0)[..3]) + Pads(1)
    else if |data| == 1 then EncodeChars(Quad(data[0], 0, 0)[..2]) + Pads(2)
    else ""
  }

  // Decoding

  datatype ParseFlag = ParseStrict | ParseWhite | ParseAny
  datatype PadFlag = PadYes | PadAny | PadNo
  datatype TermFlag = TermBuffer | TermChar | TermAny

  datatype DecodeFlags = DecodeFlags(parse: ParseFlag, pad: PadFlag, term: TermFlag)

  const DO_STRICT := DecodeFlags(ParseStrict, PadYes, TermBuffer)
  const DO_LAX := DecodeFlags(ParseAny, PadAny, TermChar)

  /** The loop variables of GetNextQuantum. */
  datatype Scan = Scan(dpos: nat, bytes: seq<Sextet>, padLen: nat, padStart: nat)

  /** What one character does to a scan that still wants sextets; None if the loop stops at it. */
  datatype Step = Stop | Go(scan: Scan)

  function ScanChar(f: DecodeFlags, s: Scan, ch: char): Step {
    var v := DecodeTable(ch);
    var skip := Go(s.(dpos := s.dpos + 1));
    if v == IL || (f.pad == PadNo && v == PD) then
      if f.parse != ParseAny then Stop else skip
    else if v == SP then
      if f.parse == ParseStrict then Stop else skip
    else if v == PD then
      if |s.bytes| < 2 || |s.bytes| + s.padLen >= 4 then
        if f.parse != ParseAny then Stop else skip
      else
        Go(s.(dpos := s.dpos + 1, padLen := s.padLen + 1,
              padStart := if s.padLen == 0 then s.dpos else s.padStart))
    else if s.padLen > 0 && f.parse != ParseAny then Stop
    else Go(s.(dpos := s.dpos + 1, padLen := 0, bytes := s.bytes + [v]))
  }

  predicate ScanFits(s: Scan, data: string) {
    && s.dpos <= |data| && |s.bytes| <= 4
    && (|s.bytes| == 4 ==> s.padLen == 0)
    && (s.padLen > 0 ==> s.padStart < s.dpos)
  }

  function ScanOn(f: DecodeFlags, data: string, s: Scan): (r: Scan)
    requires ScanFits(s, data)
    ensures ScanFits(r, data) && s.dpos <= r.dpos
    ensures |r.bytes| <= |s.bytes| + (r.dpos - s.dpos)
    decreases |data| - s.dpos
  {
    if |s.bytes| == 4 || s.dpos == |data| then s
    else
      match ScanChar(f, s, data[s.dpos])
      case Stop => s
      case Go(t) => ScanOn(f, data, t)
  }

  /** GetNextQuantum: the new position, up to four sextets, and whether they are padded to four. */
  datatype Quantum = Quantum(dpos: nat, bytes: seq<Sextet>, padded: bool)

  function NextQuantum(f: DecodeFlags, data: string, dpos: nat): (q: Quantum)
    requires dpos <= |data|
    ensures |q.bytes| <= 4 && q.dpos <= |data|
    ensures |q.bytes| == 4 ==> q.padded && q.dpos >= dpos + 4
  {
    var s := ScanOn(f, data, Scan(dpos, [], 0, 0));
    var padded := |s.bytes| + s.padLen == 4;
    Quantum(if !padded && s.padLen > 0 then s.padStart else s.dpos, s.bytes, padded)
  }

  function Filled(bytes: seq<Sextet>): (q: seq<Sextet>)
    requires |bytes| <= 4
    ensures |q| == 4
  {
    bytes + seq(4 - |bytes|, _ => 0)
  }

  /** The whole bytes that a quantum carries. */
  function QuantumBytes(bytes: seq<Sextet>): seq<Byte>
    requires |bytes| <= 4
  {
    var q := Filled(bytes);
    [Byte0(q), Byte1(q), Byte2(q)][..if |bytes| < 2 then 0 else |bytes| - 1]
  }

  /** The bits of an unfinished quantum that do not make up a byte. */
  function UnusedBits(bytes: seq<Sextet>): Byte
    requires |bytes| < 4
  {
    var q := Filled(bytes);
    if |bytes| < 2 then Byte0(q) else if |bytes| == 2 then Byte1(q) else Byte2(q)
  }

  datatype Decoded = Decoded(result: seq<Byte>, success: bool, used: nat)

  function LastQuantumIsFine(f: DecodeFlags, q: Quantum): bool
    requires |q.bytes| < 4
  {
    (f.term == TermAny || UnusedBits(q.bytes) == 0) && (f.pad != PadYes || q.padded)
  }

  /** The loop of DecodeFromArrayTemplate. */
  function DecodeFrom(f: DecodeFlags, data: string, dpos: nat): Decoded
    requires dpos <= |data|
    decreases |data| - dpos
  {
    if dpos == |data| then Decoded([], true, dpos)
    else
      var q := NextQuantum(f, data, dpos);
      if |q.bytes| < 4 then Decoded(QuantumBytes(q.bytes), LastQuantumIsFine(f, q), q.dpos)
      else
        var rest := DecodeFrom(f, data, q.dpos);
        Decoded(QuantumBytes(q.bytes) + rest.result, rest.success, rest.used)
  }

  function Decode(f: DecodeFlags, data: string): Decoded {
    var d := DecodeFrom(f, data, 0);
    if f.term == TermBuffer && d.used != |data| then d.(success := false) else d
  }

  // Strict decoding accepts exactly the encodings

  lemma {:induction false} ScanSextet(f: DecodeFlags, s: Scan, v: Sextet)
    requires s.padLen == 0
    ensures ScanChar(f, s, EncodeChar(v)) == Go(s.(dpos := s.dpos + 1, bytes := s.bytes + [v]))
  {
  }

  lemma {:induction false} ScanSextets(f: DecodeFlags, data: string, s: Scan, q: seq<Sextet>)
    requires ScanFits(s, data) && s.padLen == 0 && |s.bytes| + |q| <= 4 && s.dpos + |q| <= |data|
    requires forall i | s.dpos <= i < s.dpos + |q| :: data[i] == EncodeChar(q[i - s.dpos])
    ensures ScanOn(f, data, s) == ScanOn(f, data, s.(dpos := s.dpos + |q|, bytes := s.bytes + q))
    decreases q
  {
    hide ScanChar, EncodeChar;
    if q == [] {
      assert s.bytes + q == s.bytes;
    } else {
      var t := s.(dpos := s.dpos + 1, bytes := s.bytes + [q[0]]);
      ScanSextet(f, s, q[0]);
      assert ScanOn(f, data, s) == ScanOn(f, data, t);
      forall i | t.dpos <= i < t.dpos + |q[1..]| ensures data[i] == EncodeChar(q[1..][i - t.dpos]) {
        assert q[1..][i - t.dpos] == q[i - s.dpos];
      }
      ScanSextets(f, data, t, q[1..]);
      assert t.bytes + q[1..] == s.bytes + q;
    }
  }

  lemma {:induction false} ScanPads(f: DecodeFlags, data: string, s: Scan)
    requires ScanFits(s, data) && f.pad != PadNo && 2 <= |s.bytes| < 4 && |s.bytes| + s.padLen <= 4
    requires |data| - s.dpos == 4 - |s.bytes| - s.padLen && forall i | s.dpos <= i < |data| :: data[i] == PAD
    ensures var r := ScanOn(f, data, s);
            r.dpos == |data| && r.bytes == s.bytes && r.padLen == 4 - |s.bytes|
    decreases |data| - s.dpos
  {
    if s.dpos < |data| {
      var t := s.(dpos := s.dpos + 1, padLen := s.padLen + 1, padStart := if s.padLen == 0 then s.dpos else s.padStart);
      assert ScanChar(f, s, data[s.dpos]) == Go(t);
      ScanPads(f, data, t);
    }
  }

  /** The text of `q` and its pads, seen character by character. */
  ghost predicate QuantumAt(data: string, dpos: nat, q: seq<Sextet>) {
    && 2 <= |q| <= 4 && dpos + 4 <= |data|
    && (forall i | dpos <= i < dpos + |q| :: data[i] == EncodeChar(q[i - dpos]))
    && (forall i | dpos + |q| <= i < dpos + 4 :: data[i] == PAD)
  }

  lemma {:induction false} QuantumIsAt(data: string, dpos: nat, q: seq<Sextet>)
    requires 2 <= |q| <= 4 && dpos + 4 <= |data|
    requires data[dpos..dpos + 4] == EncodeChars(q) + Pads(4 - |q|)
    ensures QuantumAt(data, dpos, q)
  {
    hide EncodeChar;
    var here := data[dpos..dpos + 4];
    assert forall i | dpos <= i < dpos + 4 :: data[i] == here[i - dpos];
  }

  /** The scan of the text of `q` followed by the pads that complete it. */
  lemma {:induction false} ScanQuantum(f: DecodeFlags, data: string, dpos: nat, q: seq<Sextet>)
    requires f.pad != PadNo && QuantumAt(data, dpos, q)
    requires |q| < 4 ==> dpos + 4 == |data|
    ensures NextQuantum(f, data, dpos) == Quantum(dpos + 4, q, true)
  {
    hide ScanChar, EncodeChar;
    ScanSextets(f, data, Scan(dpos, [], 0, 0), q);
    assert [] + q == q;
    if |q| < 4 {
      ScanPads(f, data, Scan(dpos + |q|, q, 0, 0));
    }
  }

  lemma {:induction false} TailOfThree(x: seq<Byte>)
    requires |x| >= 3
    ensures var q := Quad(x[0], x[1], x[2])[..4];
            Encode(x) == EncodeChars(q) + Pads(0) + Encode(x[3..]) && QuantumBytes(q) + x[3..] == x
  {
    var q := Quad(x[0], x[1], x[2]);
    QuadInverts(x[0], x[1], x[2]);
    hide Quad, Byte0, Byte1, Byte2;
    assert q[..4] == q && Filled(q) == q;
    assert Pads(0) == "" && EncodeChars(q) + "" == EncodeChars(q);
    assert QuantumBytes(q) == [x[0], x[1], x[2]];
  }

  lemma {:induction false} TailOfTwo(x: seq<Byte>)
    requires |x| == 2
    ensures var q := Quad(x[0], x[1], 0)[..3];
            Encode(x) == EncodeChars(q) + Pads(1) + Encode([]) && QuantumBytes(q) + [] == x && UnusedBits(q) == 0
  {
    QuadInverts(x[0], x[1], 0);
    hide Quad, Byte0, Byte1, Byte2;
    assert Filled(Quad(x[0], x[1], 0)[..3]) == Quad(x[0], x[1], 0) by { LastsAreZero(x[0], x[1]); }
    assert Encode([]) == "";
  }

  lemma {:induction false} TailOfOne(x: seq<Byte>)
    requires |x| == 1
    ensures var q := Quad(x[0], 0, 0)[..2];
            Encode(x) == EncodeChars(q) + Pads(2) + Encode([]) && QuantumBytes(q) + [] == x && UnusedBits(q) == 0
  {
    QuadInverts(x[0], 0, 0);
    hide Quad, Byte0, Byte1, Byte2;
    assert Filled(Quad(x[0], 0, 0)[..2]) == Quad(x[0], 0, 0) by { LastsAreZero(x[0], 0); }
    assert Encode([]) == "";
  }

  lemma {:induction false} LastsAreZero(a: Byte, b: Byte)
    ensures Quad(a, b, 0)[3] == 0 && Quad(a, 0, 0)[2] == 0
  {
  }

  lemma {:induction false} EncodedTail(x: seq<Byte>)
    requires 0 < |x|
    ensures var n := if |x| >= 3 then 4 else |x| + 1;
            var q := Quad(x[0], if |x| > 1 then x[1] else 0, if |x| > 2 then x[2] else 0)[..n];
            && Encode(x) == EncodeChars(q) + Pads(4 - n) + Encode(if |x| >= 3 then x[3..] else [])
            && QuantumBytes(q) + (if |x| >= 3 then x[3..] else []) == x
            && (n < 4 ==> UnusedBits(q) == 0)
  {
    hide Encode, Quad, EncodeChars, QuantumBytes, UnusedBits;
    if |x| >= 3 {
      TailOfThree(x);
    } else if |x| == 2 {
      TailOfTwo(x);
    } else {
      TailOfOne(x);
    }
  }

  lemma {:induction false} EncodedDecodesFrom(f: DecodeFlags, data: string, dpos: nat, x: seq<Byte>)
    requires f.pad != PadNo && dpos <= |data| && data[dpos..] == Encode(x)
    ensures DecodeFrom(f, data, dpos) == Decoded(x, true, |data|)
    decreases x
  {
    hide Quad, QuantumBytes, UnusedBits, ScanOn, NextQuantum;
    if x != [] {
      EncodedTail(x);
      var n := if |x| >= 3 then 4 else |x| + 1;
      var q := Quad(x[0], if |x| > 1 then x[1] else 0, if |x| > 2 then x[2] else 0)[..n];
      assert data[dpos..dpos + 4] == data[dpos..][..4] == EncodeChars(q) + Pads(4 - n);
      QuantumIsAt(data, dpos, q);
      hide QuantumAt;
      ScanQuantum(f, data, dpos, q);
      if |x| >= 3 {
        assert data[dpos + 4..] == data[dpos..][4..] == Encode(x[3..]);
        EncodedDecodesFrom(f, data, dpos + 4, x[3..]);
      } else {
        assert QuantumBytes(q) + [] == QuantumBytes(q);
      }
    }
  }

  /** Every encoding decodes to what was encoded, to its last character, under every combination of flags
      that does not forbid padding. */
  lemma {:induction false} EncodedDecodes(f: DecodeFlags, x: seq<Byte>)
    requires f.pad != PadNo
    ensures Decode(f, Encode(x)) == Decoded(x, true, |Encode(x)|)
  {
    assert Encode(x)[0..] == Encode(x);
    EncodedDecodesFrom(f, Encode(x), 0, x);
  }

  /** What a strict scan has passed is the text of its sextets and its pads. */
  ghost predicate StrictShape(data: string, from: nat, s: Scan) {
    && ScanFits(s, data) && from <= s.dpos
    && data[from..s.dpos] == EncodeChars(s.bytes) + Pads(s.padLen)
    && (s.padLen > 0 ==> |s.bytes| >= 2 && |s.bytes| + s.padLen <= 4)
  }

  lemma {:induction false} StrictScanShape(data: string, from: nat, s: Scan)
    requires StrictShape(data, from, s)
    ensures StrictShape(data, from, ScanOn(DO_STRICT, data, s))
    decreases |data| - s.dpos
  {
    if |s.bytes| < 4 && s.dpos < |data| {
      var ch := data[s.dpos];
      var step := ScanChar(DO_STRICT, s, ch);
      if step.Go? {
        var t := step.scan;
        assert data[from..t.dpos] == data[from..s.dpos] + [ch];
        if DecodeTable(ch) < 64 {
          EncodeCharInverts(ch);
          assert EncodeChars(t.bytes) == EncodeChars(s.bytes) + [ch];
          assert Pads(0) == "";
        } else {
          assert Pads(t.padLen) == Pads(s.padLen) + [PAD];
        }
        StrictScanShape(data, from, t);
      }
    }
  }

  /** A quantum that ends a strict decoding is the encoding of its bytes. */
  lemma {:induction false} LastQuantumEncodes(q: seq<Sextet>)
    requires |q| == 2 || |q| == 3
    requires UnusedBits(q) == 0
    ensures Encode(QuantumBytes(q)) == EncodeChars(q) + Pads(4 - |q|)
  {
    var w := Filled(q);
    BytesInvert(w);
    var x := QuantumBytes(q);
    if |q| == 2 {
      assert x == [Byte0(w)] && Quad(Byte0(w), 0, 0)[..2] == q;
    } else {
      assert x == [Byte0(w), Byte1(w)] && Quad(Byte0(w), Byte1(w), 0)[..3] == q;
    }
  }

  lemma {:induction false} FullQuantumEncodes(q: seq<Sextet>, rest: seq<Byte>)
    requires |q| == 4
    ensures Encode(QuantumBytes(q) + rest) == EncodeChars(q) + Encode(rest)
  {
    assert Filled(q) == q;
    BytesInvert(q);
    var x := QuantumBytes(q) + rest;
    assert x[3..] == rest;
  }

  /** A scan of a strict decoding from `dpos` has passed the text of its sextets and pads. */
  lemma {:induction false} StrictQuantumShape(data: string, dpos: nat)
    requires dpos <= |data|
    ensures var s := ScanOn(DO_STRICT, data, Scan(dpos, [], 0, 0));
            StrictShape(data, dpos, s) && NextQuantum(DO_STRICT, data, dpos).bytes == s.bytes
  {
    assert EncodeChars([]) + Pads(0) == "" == data[dpos..dpos];
    StrictScanShape(data, dpos, Scan(dpos, [], 0, 0));
  }

  lemma {:induction false} StrictFullQuantum(data: string, dpos: nat, rest: seq<Byte>)
    requires dpos <= |data|
    requires var q := NextQuantum(DO_STRICT, data, dpos); |q.bytes| == 4 && data[q.dpos..] == Encode(rest)
    ensures data[dpos..] == Encode(QuantumBytes(NextQuantum(DO_STRICT, data, dpos).bytes) + rest)
  {
    StrictQuantumShape(data, dpos);
    var q := NextQuantum(DO_STRICT, data, dpos);
    hide ScanOn, QuantumBytes, Encode, EncodeChars;
    FullQuantumEncodes(q.bytes, rest);
    assert data[dpos..] == data[dpos..q.dpos] + data[q.dpos..];
    assert Pads(0) == "" && EncodeChars(q.bytes) + "" == EncodeChars(q.bytes);
  }

  lemma {:induction false} StrictLastQuantum(data: string, dpos: nat)
    requires dpos <= |data|
    requires var q := NextQuantum(DO_STRICT, data, dpos);
             |q.bytes| < 4 && LastQuantumIsFine(DO_STRICT, q) && q.dpos == |data|
    ensures data[dpos..] == Encode(QuantumBytes(NextQuantum(DO_STRICT, data, dpos).bytes))
  {
    StrictQuantumShape(data, dpos);
    var q := NextQuantum(DO_STRICT, data, dpos);
    hide ScanOn, QuantumBytes, Encode, EncodeChars, UnusedBits;
    LastQuantumEncodes(q.bytes);
    assert data[dpos..q.dpos] == data[dpos..];
  }

  lemma {:induction false} StrictDecodesEncodings(data: string, dpos: nat)
    requires dpos <= |data|
    ensures var d := DecodeFrom(DO_STRICT, data, dpos);
            d.success && d.used == |data| ==> data[dpos..] == Encode(d.result)
    decreases |data| - dpos
  {
    var d := DecodeFrom(DO_STRICT, data, dpos);
    if dpos < |data| && d.success && d.used == |data| {
      hide NextQuantum, QuantumBytes, Encode, LastQuantumIsFine;
      var q := NextQuantum(DO_STRICT, data, dpos);
      if |q.bytes| == 4 {
        StrictDecodesEncodings(data, q.dpos);
        StrictFullQuantum(data, dpos, DecodeFrom(DO_STRICT, data, q.dpos).result);
      } else {
        StrictLastQuantum(data, dpos);
      }
    }
  }

  /** Strict decoding is canonical: it succeeds with `x` on exactly one text, the encoding of `x`, and uses all
      of it. */
  lemma {:induction false} StrictIffEncoded(s: string, x: seq<Byte>)
    ensures Decode(DO_STRICT, s) == Decoded(x, true, |s|) <==> s == Encode(x)
    ensures Decode(DO_STRICT, s).success ==> s == Encode(Decode(DO_STRICT, s).result)
  {
    EncodedDecodes(DO_STRICT, x);
    StrictDecodesEncodings(s, 0);
    assert s[0..] == s;
  }

  // Lenient decoding sees only the alphabet

  /** The sextets of the alphabet characters of a text. */
  function Sextets(s: string): seq<Sextet> {
    if s == "" then []
    else if IsBase64Char(s[0]) then [DecodeTable(s[0])] + Sextets(s[1..])
    else Sextets(s[1..])
  }

  lemma {:induction false} SextetsConcat(s: string, t: string)
    ensures Sextets(s + t) == Sextets(s) + Sextets(t)
  {
    hide DecodeTable;
    if s == "" {
      assert s + t == t;
    } else {
      assert (s + t)[1..] == s[1..] + t;
      SextetsConcat(s[1..], t);
    }
  }

  lemma {:induction false} NoSextets(s: string)
    requires forall ch | ch in s :: !IsBase64Char(ch)
    ensures Sextets(s) == []
  {
    if s != "" {
      assert s[0] in s;
      NoSextets(s[1..]);
    }
  }

  function BytesOf(q: seq<Sextet>): seq<Byte> {
    if |q| < 4 then QuantumBytes(q) else QuantumBytes(q[..4]) + BytesOf(q[4..])
  }

  function UnusedOf(q: seq<Sextet>): Byte {
    if |q| < 4 then UnusedBits(q) else UnusedOf(q[4..])
  }

  lemma {:induction false} SextetsFrom(data: string, i: nat, j: nat)
    requires i < j <= |data|
    ensures Sextets(data[i..j]) == Sextets([data[i]]) + Sextets(data[i + 1..j])
  {
    hide DecodeTable, Sextets;
    assert data[i..j] == [data[i]] + data[i + 1..j];
    SextetsConcat([data[i]], data[i + 1..j]);
  }

  lemma {:induction false} Regroup(a: seq<Sextet>, b: seq<Sextet>, c: seq<Sextet>)
    ensures a + (b + c) == (a + b) + c
  {
  }

  lemma {:induction false} AnyChar(f: DecodeFlags, s: Scan, ch: char)
    requires f.parse == ParseAny && |s.bytes| < 4
    ensures var step := ScanChar(f, s, ch);
            step.Go? && step.scan.dpos == s.dpos + 1 && step.scan.bytes == s.bytes + Sextets([ch])
  {
    assert [ch][1..] == "" && Sextets("") == [];
  }

  lemma {:induction false} AnyScan(f: DecodeFlags, data: string, s: Scan)
    requires f.parse == ParseAny && ScanFits(s, data)
    ensures var r := ScanOn(f, data, s);
            && r.bytes == s.bytes + Sextets(data[s.dpos..r.dpos])
            && (|r.bytes| == 4 || r.dpos == |data|)
    decreases |data| - s.dpos
  {
    if |s.bytes| == 4 || s.dpos == |data| {
      assert data[s.dpos..s.dpos] == "" && s.bytes + [] == s.bytes;
    } else {
      var ch := data[s.dpos];
      hide ScanChar, DecodeTable, Sextets;
      AnyChar(f, s, ch);
      var t := ScanChar(f, s, ch).scan;
      AnyScan(f, data, t);
      var r := ScanOn(f, data, t);
      assert ScanOn(f, data, s) == r;
      SextetsFrom(data, s.dpos, r.dpos);
      Regroup(s.bytes, Sextets([ch]), Sextets(data[t.dpos..r.dpos]));
    }
  }

  lemma {:induction false} AnyDecode(f: DecodeFlags, data: string, dpos: nat)
    requires f.parse == ParseAny && dpos <= |data|
    ensures var d, q := DecodeFrom(f, data, dpos), Sextets(data[dpos..]);
            && d.result == BytesOf(q)
            && (f.pad != PadYes ==> (d.success <==> f.term == TermAny || UnusedOf(q) == 0))
    decreases |data| - dpos
  {
    if dpos < |data| {
      AnyQuantum(f, data, dpos);
      hide NextQuantum, QuantumBytes, UnusedBits, Sextets;
      var q := NextQuantum(f, data, dpos);
      if |q.bytes| == 4 {
        AnyDecode(f, data, q.dpos);
      }
    }
  }

  /** A quantum takes the next sextets of the text, four if there are four. */
  lemma {:induction false} AnyQuantum(f: DecodeFlags, data: string, dpos: nat)
    requires f.parse == ParseAny && dpos <= |data|
    ensures var q, all := NextQuantum(f, data, dpos), Sextets(data[dpos..]);
            if |q.bytes| == 4 then |all| >= 4 && q.bytes == all[..4] && Sextets(data[q.dpos..]) == all[4..]
            else q.bytes == all
  {
    AnyScan(f, data, Scan(dpos, [], 0, 0));
    var s := ScanOn(f, data, Scan(dpos, [], 0, 0));
    hide ScanOn, DecodeTable;
    assert data[dpos..] == data[dpos..s.dpos] + data[s.dpos..];
    SextetsConcat(data[dpos..s.dpos], data[s.dpos..]);
    assert [] + Sextets(data[dpos..s.dpos]) == Sextets(data[dpos..s.dpos]);
    if |s.bytes| < 4 {
      assert data[s.dpos..] == "" && Sextets("") == [];
    }
  }

  /** When every character is parsed, the result depends only on the alphabet characters, and without a demand for
      padding or for the end of the buffer so does success. */
  lemma {:induction false} OnlyAlphabetMatters(f: DecodeFlags, s: string, t: string)
    requires f.parse == ParseAny && Sextets(s) == Sextets(t)
    ensures Decode(f, s).result == Decode(f, t).result
    ensures f.pad != PadYes && f.term != TermBuffer ==> Decode(f, s).success == Decode(f, t).success
  {
    AnyDecode(f, s, 0);
    AnyDecode(f, t, 0);
    assert s[0..] == s && t[0..] == t;
  }

  /** Characters outside the alphabet, pads among them, may stand anywhere in an encoding: lax decoding ignores them. */
  lemma {:induction false} LaxIgnoresJunk(s: string, x: seq<Byte>)
    requires Sextets(s) == Sextets(Encode(x))
    ensures Decode(DO_LAX, s).result == x && Decode(DO_LAX, s).success
  {
    EncodedDecodes(DO_LAX, x);
    OnlyAlphabetMatters(DO_LAX, s, Encode(x));
  }

  /** Inserting such characters does not change the alphabet characters. */
  lemma {:induction false} InsertedJunk(before: string, junk: string, after: string)
    requires forall ch | ch in junk :: !IsBase64Char(ch)
    ensures Sextets(before + junk + after) == Sextets(before + after)
  {
    SextetsConcat(before + junk, after);
    SextetsConcat(before, junk);
    SextetsConcat(before, after);
    NoSextets(junk);
  }

  // What strict decoding does to any text

  /** How many characters of the alphabet a text starts with. */
  function AlphabetRun(s: string): (n: nat)
    ensures n <= |s|
    ensures forall i | 0 <= i < n :: IsBase64Char(s[i])
    ensures n < |s| ==> !IsBase64Char(s[n])
  {
    if s == "" || !IsBase64Char(s[0]) then 0 else 1 + AlphabetRun(s[1..])
  }

  /** How many pads a text starts with, counting no more than `most`. */
  function PadRun(s: string, most: nat): (k: nat)
    ensures k <= most && k <= |s|
    ensures forall i | 0 <= i < k :: s[i] == PAD
    ensures k < most && k < |s| ==> s[k] != PAD
  {
    if most == 0 || s == "" || s[0] != PAD then 0 else 1 + PadRun(s[1..], most - 1)
  }

  /** The pads that complete the last sextets of a text, as far as they are there. */
  function EndPads(f: DecodeFlags, s: string): (k: nat) {
    var n := AlphabetRun(s);
    if n % 4 < 2 || f.pad == PadNo then 0 else PadRun(s[n..], 4 - n % 4)
  }

  /** The last sextets are completed to four. */
  predicate PaddedUp(f: DecodeFlags, s: string) {
    var r := AlphabetRun(s) % 4;
    r >= 2 && r + EndPads(f, s) == 4
  }

  lemma {:induction false} RunOfRest(s: string, k: nat)
    requires k <= AlphabetRun(s)
    ensures AlphabetRun(s[k..]) == AlphabetRun(s) - k
  {
    hide DecodeTable;
    if k > 0 {
      RunOfRest(s[1..], k - 1);
      assert s[1..][k - 1..] == s[k..];
    } else {
      assert s[0..] == s;
    }
  }

  lemma {:induction false} SextetsOfRun(s: string)
    requires forall i | 0 <= i < |s| :: IsBase64Char(s[i])
    ensures |Sextets(s)| == |s| && forall i | 0 <= i < |s| :: s[i] == EncodeChar(Sextets(s)[i])
  {
    if s != "" {
      EncodeCharInverts(s[0]);
      hide DecodeTable, EncodeChar;
      SextetsOfRun(s[1..]);
      forall i | 0 <= i < |s| ensures s[i] == EncodeChar(Sextets(s)[i]) {
        if i > 0 {
          assert s[i] == s[1..][i - 1];
        }
      }
    }
  }

  /** The scan over a stretch of the alphabet. */
  lemma {:induction false} ScanRun(f: DecodeFlags, data: string, dpos: nat, m: nat)
    requires dpos + m <= |data| && m <= 4 && forall i | dpos <= i < dpos + m :: IsBase64Char(data[i])
    ensures var q := Sextets(data[dpos..dpos + m]);
            |q| == m && ScanOn(f, data, Scan(dpos, [], 0, 0)) == ScanOn(f, data, Scan(dpos + m, q, 0, 0))
  {
    hide Sextets, ScanOn, EncodeChar, DecodeTable, IsBase64Char;
    var s := data[dpos..dpos + m];
    forall i | 0 <= i < m ensures IsBase64Char(s[i]) {
      assert s[i] == data[dpos + i];
    }
    SextetsOfRun(s);
    var q := Sextets(s);
    forall i | dpos <= i < dpos + m ensures data[i] == EncodeChar(q[i - dpos]) {
      assert data[i] == s[i - dpos];
    }
    ScanSextets(f, data, Scan(dpos, [], 0, 0), q);
    assert [] + q == q;
  }

  /** Behind the alphabet a strict scan takes the pads and stops. */
  lemma {:induction false} ScanEnd(f: DecodeFlags, data: string, s: Scan, k: nat)
    requires f.parse == ParseStrict && ScanFits(s, data) && |s.bytes| < 4
    requires s.dpos < |data| ==> !IsBase64Char(data[s.dpos]) || s.padLen > 0
    requires if |s.bytes| < 2 || f.pad == PadNo then k == 0 && s.padLen == 0
             else |s.bytes| + s.padLen <= 4 && k == PadRun(data[s.dpos..], 4 - |s.bytes| - s.padLen)
    ensures var r := ScanOn(f, data, s);
            r.bytes == s.bytes && r.padLen == s.padLen + k && r.dpos == s.dpos + k
            && (s.padLen + k > 0 ==> r.padStart == if s.padLen > 0 then s.padStart else s.dpos)
    decreases k
  {
    if s.dpos < |data| {
      var ch := data[s.dpos];
      if k > 0 {
        var t := s.(dpos := s.dpos + 1, padLen := s.padLen + 1,
                    padStart := if s.padLen == 0 then s.dpos else s.padStart);
        assert data[s.dpos..][0] == PAD && data[s.dpos..][1..] == data[t.dpos..];
        assert ScanChar(f, s, ch) == Go(t);
        ScanEnd(f, data, t, k - 1);
      } else {
        assert ScanChar(f, s, ch) == Stop by {
          StrictStops(f, s, ch);
        }
      }
    }
  }

  lemma {:induction false} StrictStops(f: DecodeFlags, s: Scan, ch: char)
    requires f.parse == ParseStrict && |s.bytes| < 4 && (!IsBase64Char(ch) || s.padLen > 0)
    requires ch != PAD || |s.bytes| < 2 || f.pad == PadNo || |s.bytes| + s.padLen == 4
    ensures ScanChar(f, s, ch) == Stop
  {
  }

  /** The scan over the leading characters of the alphabet, fewer than four. */
  lemma {:induction false} ScanLeading(f: DecodeFlags, data: string, dpos: nat)
    requires dpos <= |data| && AlphabetRun(data[dpos..]) < 4
    ensures var s := data[dpos..];
            var n := AlphabetRun(s);
            var q := Sextets(s[..n]);
            && |q| == n && ScanOn(f, data, Scan(dpos, [], 0, 0)) == ScanOn(f, data, Scan(dpos + n, q, 0, 0))
            && data[dpos + n..] == s[n..] && (dpos + n < |data| ==> !IsBase64Char(data[dpos + n]))
  {
    hide DecodeTable, IsBase64Char, Sextets, ScanOn;
    var s := data[dpos..];
    var n := AlphabetRun(s);
    forall i | dpos <= i < dpos + n ensures IsBase64Char(data[i]) {
      assert data[i] == s[i - dpos];
    }
    ScanRun(f, data, dpos, n);
    assert data[dpos..dpos + n] == s[..n];
    assert dpos + n < |data| ==> data[dpos + n] == s[n];
  }

  lemma {:induction false} StrictEndScan(f: DecodeFlags, data: string, dpos: nat)
    requires f.parse == ParseStrict && dpos <= |data| && AlphabetRun(data[dpos..]) < 4
    ensures var s := data[dpos..];
            var n, k, r := AlphabetRun(s), EndPads(f, s), ScanOn(f, data, Scan(dpos, [], 0, 0));
            && |Sextets(s[..n])| == n && r.bytes == Sextets(s[..n])
            && r.dpos == dpos + n + k && r.padLen == k && (k > 0 ==> r.padStart == dpos + n)
  {
    hide DecodeTable, IsBase64Char, Sextets, ScanOn, PadRun, AlphabetRun, ScanChar;
    var s := data[dpos..];
    var n := AlphabetRun(s);
    ScanLeading(f, data, dpos);
    ScanEnd(f, data, Scan(dpos + n, Sextets(s[..n]), 0, 0), EndPads(f, s));
  }

  /** The last quantum of a strict decoding. */
  lemma {:induction false} StrictEnd(f: DecodeFlags, data: string, dpos: nat)
    requires f.parse == ParseStrict && dpos <= |data| && AlphabetRun(data[dpos..]) < 4
    ensures var s := data[dpos..];
            var n, k, whole := AlphabetRun(s), EndPads(f, s), PaddedUp(f, s);
            NextQuantum(f, data, dpos) == Quantum(dpos + n + if whole then k else 0, Sextets(s[..n]), whole)
    ensures |Sextets(data[dpos..][..AlphabetRun(data[dpos..])])| == AlphabetRun(data[dpos..])
  {
    hide DecodeTable, ScanChar, Sextets, ScanOn, PadRun, AlphabetRun;
    StrictEndScan(f, data, dpos);
  }

  lemma {:induction false} SextetsStart(s: string, n: nat)
    requires 4 <= n <= |s| && forall i | 0 <= i < n :: IsBase64Char(s[i])
    ensures Sextets(s[..n]) == Sextets(s[..4]) + Sextets(s[4..n]) && |Sextets(s[..4])| == 4
  {
    hide DecodeTable, Sextets;
    assert s[..n] == s[..4] + s[4..n];
    SextetsConcat(s[..4], s[4..n]);
    SextetsOfRun(s[..4]);
  }

  /** Four characters of the alphabet make a quantum. */
  lemma {:induction false} StrictQuantum(f: DecodeFlags, data: string, dpos: nat)
    requires dpos <= |data| && AlphabetRun(data[dpos..]) >= 4
    ensures NextQuantum(f, data, dpos) == Quantum(dpos + 4, Sextets(data[dpos..][..4]), true)
    ensures |Sextets(data[dpos..][..4])| == 4
  {
    var s := data[dpos..];
    forall i | dpos <= i < dpos + 4 ensures IsBase64Char(data[i]) {
      assert data[i] == s[i - dpos];
    }
    ScanRun(f, data, dpos, 4);
    assert data[dpos..dpos + 4] == s[..4];
  }

  /** What is decoded, how far it goes, and when it is a success. */
  ghost predicate StrictResult(f: DecodeFlags, s: string, at: nat, d: Decoded) {
    var n, k := AlphabetRun(s), EndPads(f, s);
    var q := Sextets(s[..n]);
    && d.result == BytesOf(q)
    && d.used == at + n + (if PaddedUp(f, s) then k else 0)
    && (d.success <==>
          (n == |s| && n % 4 == 0)
          || ((f.term == TermAny || UnusedOf(q) == 0) && (f.pad == PadYes ==> PaddedUp(f, s))))
  }

  /** One more quantum in front of what is decoded. */
  lemma {:induction false} StrictMore(f: DecodeFlags, s: string, at: nat, rest: Decoded)
    requires AlphabetRun(s) >= 4 && StrictResult(f, s[4..], at + 4, rest)
    ensures |Sextets(s[..4])| == 4
    ensures StrictResult(f, s, at, Decoded(QuantumBytes(Sextets(s[..4])) + rest.result, rest.success, rest.used))
  {
    hide DecodeTable, Sextets, AlphabetRun, QuantumBytes, UnusedBits, PadRun;
    var n := AlphabetRun(s);
    RunOfRest(s, 4);
    SextetsStart(s, n);
    assert s[4..][..n - 4] == s[4..n] && s[4..][n - 4..] == s[n..];
    var q, a, b := Sextets(s[..n]), Sextets(s[..4]), Sextets(s[4..n]);
    assert q[..4] == a && q[4..] == b;
  }

  lemma {:induction false} StrictLast(f: DecodeFlags, data: string, dpos: nat)
    requires f.parse == ParseStrict && dpos < |data| && AlphabetRun(data[dpos..]) < 4
    ensures StrictResult(f, data[dpos..], dpos, DecodeFrom(f, data, dpos))
  {
    hide DecodeTable, Sextets, AlphabetRun, NextQuantum, QuantumBytes, UnusedBits, PadRun;
    StrictEnd(f, data, dpos);
    NoUnusedBits();
  }

  lemma {:induction false} NoUnusedBits()
    ensures UnusedBits([]) == 0 && QuantumBytes([]) == [] && Sextets("") == []
  {
  }

  lemma {:induction false} StrictFrom(f: DecodeFlags, data: string, dpos: nat)
    requires f.parse == ParseStrict && dpos <= |data|
    ensures StrictResult(f, data[dpos..], dpos, DecodeFrom(f, data, dpos))
    decreases |data| - dpos
  {
    hide DecodeTable, Sextets, NextQuantum, QuantumBytes, UnusedBits, PadRun, StrictResult;
    var s := data[dpos..];
    if AlphabetRun(s) >= 4 {
      StrictQuantum(f, data, dpos);
      StrictFrom(f, data, dpos + 4);
      assert data[dpos + 4..] == s[4..];
      StrictMore(f, s, dpos, DecodeFrom(f, data, dpos + 4));
    } else if s != "" {
      StrictLast(f, data, dpos);
    } else {
      StrictNothing(f, dpos);
    }
  }

  lemma {:induction false} StrictNothing(f: DecodeFlags, at: nat)
    ensures StrictResult(f, "", at, Decoded([], true, at))
  {
  }

  /** Strict decoding of any text under any flags for pads and for the end: the bytes are those of the leading
      characters of the alphabet, and success depends on what follows them. */
  lemma {:induction false} StrictMeans(f: DecodeFlags, s: string)
    requires f.parse == ParseStrict
    ensures var d := Decode(f, s);
            StrictResult(f, s, 0, DecodeFrom(f, s, 0))
            && d.result == DecodeFrom(f, s, 0).result && d.used == DecodeFrom(f, s, 0).used
            && (d.success <==> DecodeFrom(f, s, 0).success && (f.term == TermBuffer ==> d.used == |s|))
  {
    hide StrictResult, DecodeFrom;
    StrictFrom(f, s, 0);
    assert s[0..] == s;
  }

  // White space

  predicate IsWhite(ch: char) {
    ch in " \t\n\r\U{B}\U{C}"
  }

  /** The text without its white space. */
  function Strip(s: string): (t: string)
    ensures |t| <= |s|
  {
    if s == "" then "" else (if IsWhite(s[0]) then "" else [s[0]]) + Strip(s[1..])
  }

  lemma {:induction false} StripConcat(s: string, t: string)
    ensures Strip(s + t) == Strip(s) + Strip(t)
  {
    hide IsWhite;
    if s == "" {
      assert s + t == t;
    } else {
      assert (s + t)[1..] == s[1..] + t;
      StripConcat(s[1..], t);
    }
  }

  /** How much of the stripped text lies in front of a place. */
  function Place(data: string, i: nat): (n: nat)
    requires i <= |data|
  {
    |Strip(data[..i])|
  }

  /** One character further on: a place further, unless it is white space. */
  lemma {:induction false} PlaceAfter(data: string, i: nat)
    requires i < |data|
    ensures if IsWhite(data[i]) then Place(data, i + 1) == Place(data, i)
            else Place(data, i) < |Strip(data)| && Strip(data)[Place(data, i)] == data[i]
                 && Place(data, i + 1) == Place(data, i) + 1
    ensures Place(data, i + 1) <= |Strip(data)|
  {
    hide IsWhite, Strip;
    assert data[..i + 1] == data[..i] + [data[i]];
    StripConcat(data[..i], [data[i]]);
    assert data == data[..i + 1] + data[i + 1..];
    StripConcat(data[..i + 1], data[i + 1..]);
    assert Strip([data[i]]) == if IsWhite(data[i]) then "" else [data[i]] by {
      StripOne(data[i]);
    }
  }

  lemma {:induction false} StripOne(ch: char)
    ensures Strip([ch]) == if IsWhite(ch) then "" else [ch]
  {
    assert [ch][1..] == "";
  }

  lemma {:induction false} PlaceEnds(data: string)
    ensures Place(data, |data|) == |Strip(data)| && Place(data, 0) == 0
  {
    assert data[..|data|] == data && data[..0] == "";
  }

  lemma {:induction false} PlacesGrow(data: string, i: nat, j: nat)
    requires i <= j <= |data|
    ensures Place(data, i) <= Place(data, j) <= |Strip(data)|
  {
    hide Strip;
    assert data[..j] == data[..i] + data[i..j] && data == data[..j] + data[j..];
    StripConcat(data[..i], data[i..j]);
    StripConcat(data[..j], data[j..]);
  }

  /** The two scans stand at the same place with the same sextets and pads. */
  ghost predicate SameScan(data: string, s: Scan, t: Scan) {
    && s.dpos <= |data| && t.dpos == Place(data, s.dpos) && s.bytes == t.bytes && s.padLen == t.padLen
    && (s.padLen > 0 ==> s.padStart < |data| && t.padStart == Place(data, s.padStart))
  }

  /** White space is stepped over; at any other character both scans do the same. */
  lemma {:induction false} WhiteStep(f: DecodeFlags, data: string, s: Scan, t: Scan)
    requires f.parse == ParseWhite && s.dpos < |data| && SameScan(data, s, t)
    ensures if IsWhite(data[s.dpos]) then
              ScanChar(f, s, data[s.dpos]) == Go(s.(dpos := s.dpos + 1)) && SameScan(data, s.(dpos := s.dpos + 1), t)
            else
              var a, b := ScanChar(f, s, data[s.dpos]), ScanChar(f.(parse := ParseStrict), t, data[s.dpos]);
              (a.Stop? <==> b.Stop?) && (a.Go? ==> a.scan.dpos == s.dpos + 1 && SameScan(data, a.scan, b.scan))
  {
    PlaceAfter(data, s.dpos);
    OtherCharsAre(data[s.dpos]);
    hide Strip, Place, DecodeTable;
  }

  lemma {:induction false} ScanCharFits(f: DecodeFlags, data: string, s: Scan, ch: char)
    requires ScanFits(s, data) && |s.bytes| < 4 && s.dpos < |data|
    ensures ScanChar(f, s, ch).Go? ==> ScanFits(ScanChar(f, s, ch).scan, data)
  {
  }

  lemma {:induction false} SameScanOn(f: DecodeFlags, data: string, s: Scan, t: Scan)
    requires f.parse == ParseWhite && SameScan(data, s, t) && ScanFits(s, data) && ScanFits(t, Strip(data))
    ensures SameScan(data, ScanOn(f, data, s), ScanOn(f.(parse := ParseStrict), Strip(data), t))
    decreases |data| - s.dpos
  {
    hide Strip, ScanChar, Place, IsWhite;
    if |s.bytes| < 4 && s.dpos < |data| {
      WhiteStep(f, data, s, t);
      PlaceAfter(data, s.dpos);
      var a := ScanChar(f, s, data[s.dpos]);
      ScanCharFits(f, data, s, data[s.dpos]);
      if IsWhite(data[s.dpos]) {
        SameScanOn(f, data, a.scan, t);
      } else if a.Go? {
        ScanCharFits(f.(parse := ParseStrict), Strip(data), t, data[s.dpos]);
        SameScanOn(f, data, a.scan, ScanChar(f.(parse := ParseStrict), t, data[s.dpos]).scan);
      }
    } else if s.dpos == |data| {
      PlaceEnds(data);
    }
  }

  lemma {:induction false} SameQuantum(f: DecodeFlags, data: string, dpos: nat)
    requires f.parse == ParseWhite && dpos <= |data|
    ensures Place(data, dpos) <= |Strip(data)|
    ensures var a := NextQuantum(f, data, dpos);
            var b := NextQuantum(f.(parse := ParseStrict), Strip(data), Place(data, dpos));
            a.bytes == b.bytes && a.padded == b.padded && b.dpos == Place(data, a.dpos)
  {
    hide Strip, ScanChar, Place, ScanOn;
    PlacesGrow(data, dpos, dpos);
    SameScanOn(f, data, Scan(dpos, [], 0, 0), Scan(Place(data, dpos), [], 0, 0));
  }

  predicate EndsInWhite(s: string) {
    s != "" && IsWhite(s[|s| - 1])
  }

  /** What is left of a text is white space exactly if nothing of the stripped text is left. */
  lemma {:induction false} OnlyWhiteLeft(data: string, i: nat)
    requires i < |data| && Place(data, i) == |Strip(data)|
    ensures EndsInWhite(data) && IsWhite(data[i])
  {
    hide Strip, Place, IsWhite;
    PlaceEnds(data);
    PlaceAfter(data, |data| - 1);
    PlacesGrow(data, i, |data| - 1);
    PlaceAfter(data, i);
  }

  /** Where a scan that skips white space stops, there is none. */
  ghost predicate Halted(data: string, s: Scan) {
    && s.dpos <= |data|
    && (|s.bytes| < 4 && s.dpos < |data| ==> !IsWhite(data[s.dpos]))
    && (|s.bytes| == 4 ==> s.dpos > 0 && !IsWhite(data[s.dpos - 1]))
    && PadsMarked(data, s)
  }

  ghost predicate PadsMarked(data: string, s: Scan) {
    s.padLen > 0 ==> s.padStart < |data| && data[s.padStart] == PAD
  }

  lemma {:induction false} OneChar(f: DecodeFlags, data: string, s: Scan)
    requires f.parse == ParseWhite && s.dpos < |data| && |s.bytes| < 4 && PadsMarked(data, s)
    ensures var step := ScanChar(f, s, data[s.dpos]);
            && (step.Stop? ==> !IsWhite(data[s.dpos]))
            && (step.Go? ==> step.scan.dpos == s.dpos + 1 && PadsMarked(data, step.scan)
                             && (|step.scan.bytes| == 4 ==> !IsWhite(data[s.dpos])))
  {
    OtherCharsAre(data[s.dpos]);
    hide DecodeTable;
  }

  lemma {:induction false} ScanHalts(f: DecodeFlags, data: string, s: Scan)
    requires f.parse == ParseWhite && ScanFits(s, data) && PadsMarked(data, s)
    requires |s.bytes| == 4 ==> s.dpos > 0 && !IsWhite(data[s.dpos - 1])
    ensures Halted(data, ScanOn(f, data, s))
    decreases |data| - s.dpos
  {
    hide ScanChar, IsWhite;
    if |s.bytes| < 4 && s.dpos < |data| {
      OneChar(f, data, s);
      ScanCharFits(f, data, s, data[s.dpos]);
      if ScanChar(f, s, data[s.dpos]).Go? {
        ScanHalts(f, data, ScanChar(f, s, data[s.dpos]).scan);
      }
    }
  }

  /** A quantum ends behind its last sextet, or in front of a character that is not white space. */
  lemma {:induction false} QuantumHalts(f: DecodeFlags, data: string, dpos: nat)
    requires f.parse == ParseWhite && dpos <= |data|
    ensures var q := NextQuantum(f, data, dpos);
            && (|q.bytes| < 4 && q.dpos < |data| ==> !IsWhite(data[q.dpos]))
            && (|q.bytes| == 4 ==> !IsWhite(data[q.dpos - 1]))
  {
    hide ScanChar, ScanOn;
    ScanHalts(f, data, Scan(dpos, [], 0, 0));
  }

  /** The text consists of whole quanta without pads. */
  predicate WholeQuanta(t: string) {
    AlphabetRun(t) == |t| && |t| % 4 == 0
  }

  /** Flags for pads and for the end do not matter to what is taken as four sextets. */
  lemma {:induction false} WholeStep(f: DecodeFlags, t: string, p: nat)
    requires f.parse == ParseStrict && p <= |t|
    ensures var q := NextQuantum(f, t, p);
            if |q.bytes| == 4 then q.dpos == p + 4 <= |t| && (WholeQuanta(t[p..]) <==> WholeQuanta(t[p + 4..]))
            else p < |t| ==> !WholeQuanta(t[p..])
  {
    hide ScanOn, Sextets, DecodeTable, NextQuantum, EndPads, PaddedUp;
    if AlphabetRun(t[p..]) >= 4 {
      StrictQuantum(f, t, p);
      RunOfRest(t[p..], 4);
      assert t[p..][4..] == t[p + 4..];
    } else {
      StrictEnd(f, t, p);
    }
  }

  /** White space behind whole quanta is read as one more quantum, empty and without its pads. */
  predicate HangsOver(f: DecodeFlags, data: string, p: nat)
    requires p <= |Strip(data)|
  {
    f.pad == PadYes && EndsInWhite(data) && WholeQuanta(Strip(data)[p..])
  }

  lemma {:induction false} OnlyWhiteDecodes(f: DecodeFlags, data: string, dpos: nat)
    requires f.parse == ParseWhite && dpos < |data| && Place(data, dpos) == |Strip(data)|
    ensures DecodeFrom(f, data, dpos) == Decoded([], f.pad != PadYes, |data|)
  {
    hide Strip, Place, ScanOn, ScanChar, IsWhite;
    SameQuantum(f, data, dpos);
    QuantumHalts(f, data, dpos);
    NoUnusedBits();
    var q := NextQuantum(f, data, dpos);
    assert NextQuantum(f.(parse := ParseStrict), Strip(data), |Strip(data)|) == Quantum(|Strip(data)|, [], false) by {
      NothingLeft(f.(parse := ParseStrict), Strip(data));
    }
    if q.dpos < |data| {
      OnlyWhiteLeft(data, q.dpos);
      assert false;
    }
  }

  lemma {:induction false} NothingLeft(f: DecodeFlags, t: string)
    ensures NextQuantum(f, t, |t|) == Quantum(|t|, [], false)
  {
  }

  lemma {:induction false} SameDecode(f: DecodeFlags, data: string, dpos: nat)
    requires f.parse == ParseWhite && dpos <= |data| && (dpos == |data| ==> !EndsInWhite(data))
    ensures Place(data, dpos) <= |Strip(data)|
    ensures var a := DecodeFrom(f, data, dpos);
            var b := DecodeFrom(f.(parse := ParseStrict), Strip(data), Place(data, dpos));
            && a.result == b.result && (a.success <==> b.success && !HangsOver(f, data, Place(data, dpos)))
            && (a.used == |data| <==> b.used == |Strip(data)|)
    decreases |data| - dpos
  {
    hide Strip, Place, EndsInWhite, NextQuantum, QuantumBytes, UnusedBits, AlphabetRun, IsWhite;
    PlacesGrow(data, dpos, dpos);
    PlaceEnds(data);
    var p := Place(data, dpos);
    if dpos < |data| && p == |Strip(data)| {
      OnlyWhiteDecodes(f, data, dpos);
      OnlyWhiteLeft(data, dpos);
      assert Strip(data)[p..] == "" && WholeQuanta("") by { NothingIsWhole(); }
    } else if dpos < |data| {
      SameTurn(f, data, dpos);
      var q := NextQuantum(f, data, dpos);
      if |q.bytes| == 4 {
        SameDecode(f, data, q.dpos);
      }
    }
  }

  lemma {:induction false} NothingIsWhole()
    ensures WholeQuanta("")
  {
  }

  /** One quantum of both decodings. */
  lemma {:induction false} SameTurn(f: DecodeFlags, data: string, dpos: nat)
    requires f.parse == ParseWhite && dpos < |data| && Place(data, dpos) < |Strip(data)|
    ensures var g, t, p := f.(parse := ParseStrict), Strip(data), Place(data, dpos);
            var a, b := NextQuantum(f, data, dpos), NextQuantum(g, t, p);
            && a.bytes == b.bytes && a.padded == b.padded && b.dpos == Place(data, a.dpos)
            && (if |a.bytes| == 4 then
                  (a.dpos == |data| ==> !EndsInWhite(data))
                  && (WholeQuanta(t[p..]) <==> WholeQuanta(t[b.dpos..]))
                else (a.dpos == |data| <==> b.dpos == |t|) && !WholeQuanta(t[p..]))
  {
    hide Strip, Place, NextQuantum, IsWhite, WholeQuanta;
    SameQuantum(f, data, dpos);
    QuantumHalts(f, data, dpos);
    WholeStep(f.(parse := ParseStrict), Strip(data), Place(data, dpos));
    PlaceEnds(data);
    var q := NextQuantum(f, data, dpos);
    if q.dpos < |data| && Place(data, q.dpos) == |Strip(data)| {
      OnlyWhiteLeft(data, q.dpos);
    }
  }

  /** Where white space is allowed it is skipped: a text decodes as it does strictly without its white space, under any
      flags for pads and for the end. One thing differs: if pads are demanded, white space behind whole quanta is
      refused, for it is read as a quantum without pads. */
  lemma {:induction false} WhiteSpaceIsSkipped(f: DecodeFlags, s: string)
    requires f.parse == ParseWhite
    ensures var d, e := Decode(f, s), Decode(f.(parse := ParseStrict), Strip(s));
            && d.result == e.result
            && (d.success <==> e.success && !(f.pad == PadYes && EndsInWhite(s) && WholeQuanta(Strip(s))))
  {
    hide Strip, Place, EndsInWhite, DecodeFrom, WholeQuanta;
    NothingEndsInWhite();
    SameDecode(f, s, 0);
    PlaceEnds(s);
    assert Strip(s)[0..] == Strip(s);
  }

  lemma {:induction false} NothingEndsInWhite()
    ensures !EndsInWhite("")
  {
  }

  // The routines

  /** What the four stores of one turn of the encoding loop put at the front of the remaining output. */
  lemma {:induction false} EncodedQuad(x: seq<Byte>)
    requires 0 < |x|
    ensures var b, c := if |x| > 1 then x[1] else 0, if |x| > 2 then x[2] else 0;
            var q := Quad(x[0], b, c);
            && |Encode(x)| >= 4
            && Encode(x)[..4] == [EncodeChar(q[0]), EncodeChar(q[1]),
                                  if |x| > 1 then EncodeChar(q[2]) else PAD,
                                  if |x| > 2 then EncodeChar(q[3]) else PAD]
            && Encode(x)[4..] == Encode(if |x| >= 3 then x[3..] else [])
  {
  }

  /** One turn of the encoding loop: up to three bytes become four characters. */
  method EncodeTurn(data: seq<Byte>, from: nat, result: array<char>, destIx: nat) returns (i: nat)
    requires from < |data| && destIx + 4 <= result.Length
    modifies result
    ensures i == if from + 3 <= |data| then from + 3 else |data|
    ensures result[destIx..destIx + 4] == Encode(data[from..])[..4]
    ensures forall k | 0 <= k < destIx :: result[k] == old(result[k])
  {
    i := from;
    EncodedQuad(data[from..]);
    hide Encode, EncodeChar;
    var first: int := data[i];
    result[destIx] := EncodeChar(first / 4);
    var c := (first % 4) * 16;
    i := i + 1;
    if i < |data| {
      var second: int := data[i];
      c := c + second / 16;
    }
    result[destIx + 1] := EncodeChar(c);
    if i < |data| {
      var second: int := data[i];
      c := (second % 16) * 4;
      i := i + 1;
      if i < |data| {
        var third: int := data[i];
        c := c + third / 64;
      }
      result[destIx + 2] := EncodeChar(c);
    } else {
      result[destIx + 2] := PAD;
    }
    if i < |data| {
      var third: int := data[i];
      result[destIx + 3] := EncodeChar(third % 64);
      i := i + 1;
    } else {
      result[destIx + 3] := PAD;
    }
  }

  /** EncodeFromArray. */
  method EncodeFromArray(data: seq<Byte>) returns (result: array<char>)
    ensures result[..] == Encode(data)
  {
    result := new char[(|data| + 2) / 3 * 4];
    var i, destIx := 0, 0;
    assert data[0..] == data;
    while i < |data|
      invariant i <= |data|
      invariant destIx + |Encode(data[i..])| == result.Length
      invariant result[..destIx] + Encode(data[i..]) == Encode(data)
    {
      ghost var done, rest := result[..destIx], data[i..];
      EncodedQuad(rest);
      hide Encode;
      i := EncodeTurn(data, i, result, destIx);
      destIx := destIx + 4;
      assert data[i..] == if |rest| >= 3 then rest[3..] else [];
      assert result[..destIx] == done + Encode(rest)[..4];
      MoveFour(done, Encode(rest));
    }
    assert data[i..] == [];
    assert result[..] == result[..destIx] + Encode([]);
  }

  lemma {:induction false} MoveFour(done: string, rest: string)
    requires |rest| >= 4
    ensures done + rest == (done + rest[..4]) + rest[4..]
  {
    assert rest == rest[..4] + rest[4..];
  }

  /** The array holds these sextets at its front. */
  ghost predicate Holds(qbuf: array<int>, bytes: seq<Sextet>)
    reads qbuf
  {
    qbuf.Length == 4 && |bytes| <= 4 && forall k | 0 <= k < |bytes| :: qbuf[k] == bytes[k]
  }

  /** The missing sextets count as zero. */
  method FillRest(qbuf: array<int>, byteLen: nat, ghost bytes: seq<Sextet>)
    requires Holds(qbuf, bytes) && |bytes| == byteLen
    modifies qbuf
    ensures Holds(qbuf, Filled(bytes))
  {
    for i := byteLen to 4
      invariant Holds(qbuf, bytes) && forall k | byteLen <= k < i :: qbuf[k] == 0
    {
      qbuf[i] := 0;
    }
  }

  /** GetNextQuantum. */
  method GetNextQuantum(f: DecodeFlags, data: string, from: nat, qbuf: array<int>)
    returns (dpos: nat, byteLen: nat, padded: bool)
    requires from <= |data| && qbuf.Length == 4
    modifies qbuf
    ensures var q := NextQuantum(f, data, from);
            q.dpos == dpos && |q.bytes| == byteLen && q.padded == padded && Holds(qbuf, Filled(q.bytes))
  {
    var padLen, padStart := 0, 0;
    dpos, byteLen := from, 0;
    ghost var s := Scan(from, [], 0, 0);
    while byteLen < 4 && dpos < |data|
      invariant ScanFits(s, data) && Holds(qbuf, s.bytes)
      invariant s.dpos == dpos && |s.bytes| == byteLen && s.padLen == padLen && s.padStart == padStart
      invariant ScanOn(f, data, Scan(from, [], 0, 0)) == ScanOn(f, data, s)
    {
      ghost var step := ScanChar(f, s, data[dpos]);
      assert ScanOn(f, data, s) == if step.Go? then ScanOn(f, data, step.scan) else s;
      hide ScanOn, DecodeTable;
      var v := DecodeTable(data[dpos]);
      qbuf[byteLen] := v;
      if v == IL || (f.pad == PadNo && v == PD) {
        if f.parse != ParseAny {
          break;
        }
      } else if v == SP {
        if f.parse == ParseStrict {
          break;
        }
      } else if v == PD {
        if byteLen < 2 {
          if f.parse != ParseAny {
            break;
          }
        } else if byteLen + padLen >= 4 {
          if f.parse != ParseAny {
            break;
          }
        } else {
          padLen := padLen + 1;
          if padLen == 1 {
            padStart := dpos;
          }
        }
      } else {
        if padLen > 0 {
          if f.parse != ParseAny {
            break;
          }
          padLen := 0;
        }
        byteLen := byteLen + 1;
      }
      dpos := dpos + 1;
      s := step.scan;
    }
    assert ScanOn(f, data, Scan(from, [], 0, 0)) == s;
    FillRest(qbuf, byteLen, s.bytes);
    padded := byteLen + padLen == 4;
    if !padded && padLen > 0 {
      dpos := padStart;
    }
  }

  /** The bytes of a quantum, and the bits left over. */
  method TakeBytes(ghost bytes: seq<Sextet>, qbuf: array<int>, qlen: nat) returns (taken: seq<Byte>, c: int)
    requires |bytes| == qlen <= 4 && Holds(qbuf, Filled(bytes))
    ensures taken == QuantumBytes(bytes)
    ensures c == if qlen < 4 then UnusedBits(bytes) else 0
  {
    taken := [];
    ghost var q := Filled(bytes);
    assert qbuf[0] == q[0] && qbuf[1] == q[1] && qbuf[2] == q[2] && qbuf[3] == q[3];
    hide Filled;
    c := qbuf[0] * 4 + qbuf[1] / 16;
    if qlen >= 2 {
      taken := taken + [c];
      c := (qbuf[1] % 16) * 16 + qbuf[2] / 4;
      if qlen >= 3 {
        taken := taken + [c];
        c := (qbuf[2] % 4) * 64 + qbuf[3];
        if qlen >= 4 {
          taken := taken + [c];
          c := 0;
        }
      }
    }
  }

  /** One turn of the decoding loop: what is decoded from a place is the quantum there and what follows it. */
  lemma {:induction false} DecodeTurn(f: DecodeFlags, data: string, dpos: nat, before: seq<Byte>)
    requires dpos < |data|
    ensures var q, d := NextQuantum(f, data, dpos), DecodeFrom(f, data, dpos);
            if |q.bytes| == 4 then
              var rest := DecodeFrom(f, data, q.dpos);
              before + d.result == before + QuantumBytes(q.bytes) + rest.result
              && d.success == rest.success && d.used == rest.used
            else
              d == Decoded(QuantumBytes(q.bytes), LastQuantumIsFine(f, q), q.dpos)
  {
    hide NextQuantum, QuantumBytes, LastQuantumIsFine;
    var q := NextQuantum(f, data, dpos);
    if |q.bytes| == 4 {
      var rest := DecodeFrom(f, data, q.dpos);
      assert before + (QuantumBytes(q.bytes) + rest.result) == before + QuantumBytes(q.bytes) + rest.result;
    }
  }

  /** DecodeFromArray. */
  method DecodeFromArray(data: string, f: DecodeFlags) returns (result: seq<Byte>, success: bool, dataUsed: nat)
    ensures Decode(f, data) == Decoded(result, success, dataUsed)
  {
    result, success := [], true;
    var dpos := 0;
    var qbuf := new int[4];
    ghost var whole := DecodeFrom(f, data, 0);
    assert [] + whole.result == whole.result;
    while dpos < |data|
      invariant dpos <= |data| && success
      invariant var rest := DecodeFrom(f, data, dpos);
                whole == Decoded(result + rest.result, rest.success, rest.used)
    {
      hide NextQuantum, Filled, QuantumBytes, UnusedBits, DecodeFrom;
      DecodeTurn(f, data, dpos, result);
      ghost var q := NextQuantum(f, data, dpos);
      var qlen, padded, taken, c;
      dpos, qlen, padded := GetNextQuantum(f, data, dpos, qbuf);
      taken, c := TakeBytes(q.bytes, qbuf, qlen);
      result := result + taken;
      if qlen < 4 {
        if f.term != TermAny && c != 0 {
          success := false;
        }
        if f.pad == PadYes && !padded {
          success := false;
        }
        assert success == LastQuantumIsFine(f, q);
        break;
      }
    }
    assert whole == Decoded(result, success, dpos) by {
      if dpos == |data| {
        assert result + [] == result;
      }
    }
    if f.term == TermBuffer && dpos != |data| {
      success := false;
    }
    dataUsed := dpos;
  }
}
