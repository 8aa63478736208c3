/** Packets over a byte stream: each packet is preceded by its length as a 16-bit big-endian
    number, the framing of section 2 of RFC 4571. */
module PacketFraming {

  type Byte = b: int | 0 <= b < 256

  type Packet = seq<Byte>

  /** sizeof(PacketLength). */
  const LENGTH_SIZE: nat := 2

  /** kMaxPacketSize. */
  const MAX_PACKET_SIZE: nat := 64 * 1024

  /** kBufSize. */
  const BUF_SIZE: nat := MAX_PACKET_SIZE + LENGTH_SIZE

  /** The largest length that the 16-bit field can say. */
  const MAX_LENGTH: nat := 0xFFFF

  /** The length field of a payload: the cast to uint16 keeps the low 16 bits. */
  function LengthField(n: nat): (s: seq<Byte>)
    ensures |s| == LENGTH_SIZE
  {
    var low := n % 0x1_0000;
    [low / 256, low % 256]
  }

  /** GetBE16. */
  function PacketLength(s: seq<Byte>): (n: nat)
    requires |s| >= LENGTH_SIZE
    ensures n <= MAX_LENGTH
  {
    var high: int, low: int := s[0], s[1];
    high * 256 + low
  }

  function Frame(p: Packet): seq<Byte> {
    LengthField(|p|) + p
  }

  function Frames(ps: seq<Packet>): seq<Byte> {
    if ps == [] then [] else Frame(ps[0]) + Frames(ps[1..])
  }

  /** A whole frame stands at the front. */
  predicate HasFrame(s: seq<Byte>) {
    |s| >= LENGTH_SIZE && |s| >= LENGTH_SIZE + PacketLength(s)
  }

  function FirstPacket(s: seq<Byte>): (p: Packet)
    requires HasFrame(s)
    ensures |p| <= MAX_LENGTH
  {
    s[LENGTH_SIZE..LENGTH_SIZE + PacketLength(s)]
  }

  lemma {:induction false} FieldReadsBack(n: nat)
    ensures PacketLength(LengthField(n)) == n % 0x1_0000
  {
  }

  lemma {:induction false} FieldBytes(n: nat)
    requires n <= 65535
    ensures LengthField(n) == [n / 256, n % 256]
  {
    var low := n % 0x1_0000;
    SmallRemainder(n);
    assert low / 256 == n / 256 && low % 256 == n % 256;
  }

  lemma {:induction false} SmallRemainder(n: nat)
    requires n <= 65535
    ensures n % 0x1_0000 == n
  {
  }

  /** On the wire the length comes first, its high byte in front of its low byte. */
  lemma {:induction false} FrameBytes(p: Packet)
    requires |p| <= 65535
    ensures Frame(p) == [|p| / 256, |p| % 256] + p
  {
    hide LengthField;
    FieldBytes(|p|);
  }

  /** The length that the first two bytes say, the high byte first, and all of those bytes are there. */
  predicate StartsWithPayload(s: seq<Byte>) {
    |s| >= 2 && var h: int, l: int := s[0], s[1]; |s| >= 2 + (h * 256 + l)
  }

  function StartPayload(s: seq<Byte>): seq<Byte>
    requires StartsWithPayload(s)
  {
    var h: int, l: int := s[0], s[1];
    s[2..2 + (h * 256 + l)]
  }

  lemma {:induction false} FirstBytes(s: seq<Byte>)
    ensures HasFrame(s) <==> StartsWithPayload(s)
    ensures HasFrame(s) ==> FirstPacket(s) == StartPayload(s)
  {
  }

  /** A frame reads back as its packet, whatever follows, exactly if the payload fits the length field.
      The size check of Send admits three more sizes, up to kBufSize. */
  lemma {:induction false} FrameReadsBackIff(p: Packet, rest: seq<Byte>)
    requires |p| <= BUF_SIZE
    ensures |p| <= MAX_LENGTH <==> HasFrame(Frame(p) + rest) && FirstPacket(Frame(p) + rest) == p
  {
    var s := Frame(p) + rest;
    FieldReadsBack(|p|);
    assert s[0] == LengthField(|p|)[0] && s[1] == LengthField(|p|)[1];
    assert PacketLength(s) == |p| % 0x1_0000;
    if |p| <= MAX_LENGTH {
      assert s[LENGTH_SIZE..LENGTH_SIZE + |p|] == p;
    }
  }

  lemma {:induction false} FramesAppend(ps: seq<Packet>, p: Packet)
    ensures Frames(ps + [p]) == Frames(ps) + Frame(p)
  {
    if ps == [] {
      assert ps + [p] == [p] && [p][1..] == [];
    } else {
      assert (ps + [p])[1..] == ps[1..] + [p];
      FramesAppend(ps[1..], p);
    }
  }

  lemma {:induction false} FieldOfLength(s: seq<Byte>)
    requires |s| >= LENGTH_SIZE
    ensures LengthField(PacketLength(s)) == s[..LENGTH_SIZE]
  {
    var field := LengthField(PacketLength(s));
    assert field[0] == s[0] && field[1] == s[1];
  }

  lemma {:induction false} FrameOfFirst(s: seq<Byte>)
    requires HasFrame(s)
    ensures Frame(FirstPacket(s)) == s[..LENGTH_SIZE + PacketLength(s)]
  {
    var n := PacketLength(s);
    FieldOfLength(s);
    assert s[..LENGTH_SIZE + n] == s[..LENGTH_SIZE] + s[LENGTH_SIZE..LENGTH_SIZE + n];
  }

  /** Taking the first packet moves its frame from the undecoded to the decoded part. */
  lemma {:induction false} FirstPacketMoves(decoded: seq<Packet>, s: seq<Byte>)
    requires HasFrame(s)
    ensures Frames(decoded) + s == Frames(decoded + [FirstPacket(s)]) + s[LENGTH_SIZE + PacketLength(s)..]
  {
    hide Frames, Frame, PacketLength;
    var n := LENGTH_SIZE + PacketLength(s);
    FrameOfFirst(s);
    FramesAppend(decoded, FirstPacket(s));
    assert s == s[..n] + s[n..];
    assert Frames(decoded) + (s[..n] + s[n..]) == (Frames(decoded) + s[..n]) + s[n..];
  }

  predicate Sendable(ps: seq<Packet>) {
    forall p | p in ps :: |p| <= MAX_LENGTH
  }

  lemma {:induction false} SameFirstPacket(sent: seq<Packet>, d: Packet, rest: seq<Byte>)
    requires Sendable(sent) && |d| <= MAX_LENGTH
    requires Frame(d) + rest <= Frames(sent)
    ensures sent != [] && sent[0] == d && rest <= Frames(sent[1..])
    ensures Frame(d) + rest == Frames(sent) ==> rest == Frames(sent[1..])
  {
    var stream, all := Frame(d) + rest, Frames(sent);
    assert sent != [];
    FrameReadsBackIff(d, rest);
    FrameReadsBackIff(sent[0], Frames(sent[1..]));
    assert all[0] == stream[0] && all[1] == stream[1];
    assert FirstPacket(all) == FirstPacket(stream);
    var n := |Frame(d)|;
    assert stream[n..] == rest && all[n..] == Frames(sent[1..]);
  }

  lemma {:induction false} NothingDecoded(sent: seq<Packet>)
    requires Sendable(sent) && !HasFrame(Frames(sent))
    ensures sent == []
  {
    if sent != [] {
      FrameReadsBackIff(sent[0], Frames(sent[1..]));
    }
  }

  /** The decoding of a stream is unique: whole frames followed by part of one can only be a prefix of
      the frames that were sent, and if nothing is missing they are those frames. */
  lemma {:induction false} DecodedIsPrefix(sent: seq<Packet>, decoded: seq<Packet>, rest: seq<Byte>)
    requires Sendable(sent) && Sendable(decoded)
    requires Frames(decoded) + rest <= Frames(sent) && !HasFrame(rest)
    ensures decoded <= sent
    ensures Frames(decoded) + rest == Frames(sent) ==> decoded == sent
  {
    hide Frame, FirstPacket, HasFrame;
    var stream := Frames(decoded) + rest;
    if decoded == [] {
      assert stream == rest;
      if stream == Frames(sent) {
        NothingDecoded(sent);
      }
    } else {
      var d := decoded[0];
      assert stream == Frame(d) + (Frames(decoded[1..]) + rest);
      SameFirstPacket(sent, d, Frames(decoded[1..]) + rest);
      DecodedIsPrefix(sent[1..], decoded[1..], rest);
      assert decoded == [d] + decoded[1..] && sent == [d] + sent[1..];
    }
  }
}
