/** AsyncTCPSocket: packets are framed into a send buffer that drains through partial sends,
    and cut out of a receive buffer that fills in arbitrary pieces. */
module AsyncTcpSocket {
  import opened PacketFraming

  /** What Send reports: an error of the socket, or the number of bytes it claims to have sent. */
  const EMSGSIZE_ERROR: int := -1

  function Max(a: int, b: int): int {
    if a < b then b else a
  }

  class AsyncTcpSocket {
    const inbuf: array<Byte>
    var inpos: nat
    const outbuf: array<Byte>
    var outpos: nat

    /** The packets signalled to the reader, in order. */
    var signalled: seq<Packet>

    /** The bytes the network took and gave, and the packets whose frames were accepted for sending. */
    ghost var wire: seq<Byte>
    ghost var received: seq<Byte>
    ghost var accepted: seq<Packet>

    /** What the socket answered, send by send and receive by receive. */
    ghost var sends: seq<int>
    ghost var receives: seq<int>

    constructor ()
      ensures Valid() && fresh(inbuf) && fresh(outbuf)
      ensures wire == received == [] && accepted == signalled == []
    {
      inbuf, outbuf := new Byte[BUF_SIZE], new Byte[BUF_SIZE];
      inpos, outpos := 0, 0;
      signalled, accepted := [], [];
      wire, received := [], [];
      sends, receives := [], [];
    }

    /** What went to the network, followed by what the buffer holds, is the frames of the accepted packets. */
    ghost predicate ValidOut()
      reads this`outpos, this`wire, this`accepted, outbuf
    {
      && outbuf.Length == BUF_SIZE && outpos <= BUF_SIZE && Sendable(accepted)
      && wire + outbuf[..outpos] == Frames(accepted)
    }

    /** What came from the network is the frames of the signalled packets, followed by the buffer. */
    ghost predicate InputSplit()
      reads this`inpos, this`received, this`signalled, inbuf
    {
      && inbuf.Length == BUF_SIZE && inpos <= BUF_SIZE && Sendable(signalled)
      && received == Frames(signalled) + inbuf[..inpos]
    }

    /** Between events the receive buffer holds no whole frame, so it has room. */
    ghost predicate ValidIn()
      reads this`inpos, this`received, this`signalled, inbuf
    {
      InputSplit() && !HasFrame(inbuf[..inpos]) && inpos < BUF_SIZE
    }

    ghost predicate Valid()
      reads this, inbuf, outbuf
    {
      inbuf != outbuf && ValidOut() && ValidIn()
    }

    // Sending

    /** The socket, which is not part of the model: it takes any part of the data, or none, or fails. */
    method SocketSend() returns (res: int)
      requires outpos <= outbuf.Length
      modifies this`wire, this`sends
      ensures res <= outpos && sends == old(sends) + [res]
      ensures wire == old(wire) + outbuf[..Max(res, 0)]
    {
      res := *;
      if res > outpos {
        res := outpos;
      }
      sends := sends + [res];
      wire := wire + outbuf[..Max(res, 0)];
    }

    method FlushOutBuffer() returns (res: int)
      requires outbuf.Length == BUF_SIZE && outpos <= BUF_SIZE
      modifies this`outpos, this`wire, this`sends, outbuf
      ensures res <= old(outpos) && outpos <= BUF_SIZE && sends == old(sends) + [res]
      ensures wire + outbuf[..outpos] == old(wire + outbuf[..outpos]) && old(wire) <= wire
      ensures outpos == old(outpos) - Max(res, 0)
      ensures res <= 0 ==> wire == old(wire)
    {
      ghost var before, queued := wire, outbuf[..outpos];
      res := SocketSend();
      if res <= 0 {
        assert wire == before;
        return;
      }
      assert wire == before + queued[..res];
      assert before + queued == wire + queued[res..];
      DropSent(res);
    }

    /** The bytes that were not sent move to the front. */
    method DropSent(n: nat)
      requires outbuf.Length == BUF_SIZE && n <= outpos <= BUF_SIZE
      modifies this`outpos, outbuf
      ensures outpos == old(outpos) - n && outbuf[..outpos] == old(outbuf[..outpos])[n..]
    {
      outpos := outpos - n;
      if outpos > 0 {
        forall i | 0 <= i < outpos {
          outbuf[i] := outbuf[i + n];
        }
      }
    }

    /** The assertion of the source is the precondition. */
    method AppendToOutBuffer(data: seq<Byte>)
      requires outbuf.Length == BUF_SIZE && outpos + |data| < BUF_SIZE
      modifies this`outpos, outbuf
      ensures outpos == old(outpos) + |data|
      ensures outbuf[..outpos] == old(outbuf[..outpos]) + data
    {
      forall i | 0 <= i < |data| {
        outbuf[outpos + i] := data[i];
      }
      outpos := outpos + |data|;
    }

    /** The length field and the payload go into an empty buffer. */
    method QueueFrame(data: Packet)
      requires outbuf.Length == BUF_SIZE && outpos == 0 && |data| <= MAX_LENGTH
      modifies this`outpos, outbuf
      ensures outpos <= BUF_SIZE && outbuf[..outpos] == Frame(data)
    {
      hide LengthField;
      AppendToOutBuffer(LengthField(|data|));
      AppendToOutBuffer(data);
    }

    /** Send accepts the packet whole, or drops it: with an error, or silently while earlier bytes wait.
        The size check admits packets that the length field cannot describe: on them the assertion of
        AppendToOutBuffer fails, and the model stops there. */
    method Send(data: Packet) returns (res: int, assertFails: bool)
      requires Valid()
      modifies this`outpos, this`wire, this`sends, this`accepted, outbuf
      ensures Valid() && old(wire) <= wire
      ensures assertFails <==> old(outpos) == 0 && 65535 < |data| <= 65538
      ensures assertFails ==> accepted == old(accepted)
      ensures accepted == old(accepted) ==> wire == old(wire) && outbuf[..outpos] == old(outbuf[..outpos])
      ensures accepted != old(accepted) ==>
                old(outpos) == 0 && |data| <= 65535
                && wire + outbuf[..outpos] == old(wire) + ([|data| / 256, |data| % 256] + data)
      ensures old(outpos) == 0 && |data| <= 65538 && !assertFails ==>
                exists taken :: sends == old(sends) + [taken]
                  && if taken > 0 then accepted == old(accepted) + [data] && res == |data|
                     else accepted == old(accepted) && res == taken
      ensures old(outpos) > 0 && |data| <= 65538 ==> accepted == old(accepted) && res == |data|
      ensures old(outpos) > 0 || |data| > 65538 || assertFails ==> sends == old(sends)
      ensures |data| > 65538 ==> accepted == old(accepted) && res == EMSGSIZE_ERROR
    {
      if |data| > BUF_SIZE {
        return EMSGSIZE_ERROR, false;
      }
      if outpos != 0 {
        return |data|, false;
      }
      if LENGTH_SIZE + |data| >= BUF_SIZE {
        return 0, true;
      }
      res := SendFrame(data);
      assertFails := false;
    }

    /** Send behind its checks: what the socket does not begin to take is forgotten. */
    method SendFrame(data: Packet) returns (res: int)
      requires ValidOut() && outpos == 0 && |data| <= MAX_LENGTH
      modifies this`outpos, this`wire, this`sends, this`accepted, outbuf
      ensures ValidOut() && old(wire) <= wire
      ensures exists taken :: sends == old(sends) + [taken]
                && if taken > 0 then accepted == old(accepted) + [data] && res == |data|
                   else accepted == old(accepted) && res == taken && wire == old(wire) && outpos == 0
      ensures accepted != old(accepted) ==>
                wire + outbuf[..outpos] == old(wire) + ([|data| / 256, |data| % 256] + data)
    {
      FrameBytes(data);
      hide Frames, Frame;
      assert wire == Frames(accepted) by {
        assert wire + outbuf[..outpos] == wire;
      }
      QueueFrame(data);
      res := FlushOutBuffer();
      if res <= 0 {
        outpos := 0;
        assert wire + outbuf[..outpos] == wire;
        return;
      }
      FramesAppend(accepted, data);
      accepted := accepted + [data];
      return |data|;
    }

    /** OnWriteEvent: the socket can take more, and is asked once if bytes wait. */
    method OnWriteEvent() returns (ready: bool)
      requires Valid()
      modifies this`outpos, this`wire, this`sends, outbuf
      ensures Valid() && old(wire) <= wire
      ensures old(outpos) > 0 ==>
                exists taken :: sends == old(sends) + [taken] && outpos == old(outpos) - Max(taken, 0)
      ensures old(outpos) == 0 ==> sends == old(sends)
      ensures ready <==> wire == Frames(accepted)
    {
      if outpos > 0 {
        var _ := FlushOutBuffer();
      }
      ready := outpos == 0;
    }

    // Receiving

    /** Signals the packet of the frame at the front and moves the rest there. */
    method TakePacket(length: nat)
      requires InputSplit() && HasFrame(inbuf[..inpos]) && length == PacketLength(inbuf[..inpos])
      modifies this`inpos, this`signalled, inbuf
      ensures InputSplit() && inpos < old(inpos)
      ensures signalled == old(signalled) + [FirstPacket(old(inbuf[..inpos]))]
    {
      hide Frames, Frame, PacketLength;
      ghost var queued := inbuf[..inpos];
      var packet := inbuf[LENGTH_SIZE..LENGTH_SIZE + length];
      assert packet == FirstPacket(queued);
      FirstPacketMoves(signalled, queued);
      signalled := signalled + [packet];
      inpos := inpos - (LENGTH_SIZE + length);
      if inpos > 0 {
        forall i | 0 <= i < inpos {
          inbuf[i] := inbuf[i + LENGTH_SIZE + length];
        }
      }
      assert inbuf[..inpos] == queued[LENGTH_SIZE + length..];
    }

    /** ProcessInput: signals every whole packet and moves the rest to the front. */
    method ProcessInput()
      requires InputSplit()
      modifies this`inpos, this`signalled, inbuf
      ensures ValidIn() && !StartsWithPayload(inbuf[..inpos])
      ensures var input := old(inbuf[..inpos]);
              if StartsWithPayload(input) then old(signalled) + [StartPayload(input)] <= signalled
              else signalled == old(signalled) && inbuf[..inpos] == input
    {
      hide Frames, Frame, FirstPacket, StartPayload, StartsWithPayload;
      ghost var input := inbuf[..inpos];
      FirstBytes(input);
      while true
        invariant InputSplit()
        invariant if signalled == old(signalled) then inbuf[..inpos] == input
                  else HasFrame(input) && old(signalled) + [FirstPacket(input)] <= signalled
        decreases inpos
      {
        FirstBytes(inbuf[..inpos]);
        if inpos < LENGTH_SIZE {
          return;
        }
        var length := PacketLength(inbuf[..LENGTH_SIZE]);
        assert PacketLength(inbuf[..inpos]) == length;
        if inpos < LENGTH_SIZE + length {
          return;
        }
        TakePacket(length);
      }
    }

    /** The socket, which is not part of the model: any data that fits, or an error. */
    method SocketRecv(space: nat) returns (len: int, data: seq<Byte>)
      modifies this`receives
      ensures len <= space && (len >= 0 ==> |data| == len)
      ensures receives == old(receives) + [len]
    {
      len, data := *, *;
      if len > space || (len >= 0 && |data| != len) {
        len := -1;
      }
      receives := receives + [len];
    }

    /** Recv writes behind the unprocessed bytes. */
    method AppendInput(data: seq<Byte>)
      requires InputSplit() && inpos + |data| <= BUF_SIZE
      modifies this`inpos, this`received, inbuf
      ensures InputSplit() && received == old(received) + data
    {
      hide Frames;
      ghost var queued := inbuf[..inpos];
      forall i | 0 <= i < |data| {
        inbuf[inpos + i] := data[i];
      }
      inpos := inpos + |data|;
      assert inbuf[..inpos] == queued + data;
      assert Frames(signalled) + (queued + data) == (Frames(signalled) + queued) + data;
      received := received + data;
    }

    /** OnReadEvent of a connected socket. The overflow branch of the source is never taken: after
        ProcessInput the buffer has room. */
    method OnReadEvent()
      requires Valid()
      modifies this`inpos, this`received, this`receives, this`signalled, inbuf
      ensures Valid()
      ensures old(received) <= received && old(signalled) <= signalled
      ensures exists len :: receives == old(receives) + [len] && |received| == |old(received)| + Max(len, 0)
    {
      var len, data := SocketRecv(BUF_SIZE - inpos);
      if len < 0 {
        return;
      }
      hide Frames, HasFrame, FirstPacket, StartPayload, StartsWithPayload;
      AppendInput(data);
      ProcessInput();
      if inpos >= BUF_SIZE {
        assert false;
      }
    }
  }

  /** Whatever the partial sends at one end and the splitting of reads at the other: the packets delivered are
      a prefix of the packets accepted, and all of them once everything was flushed and read. */
  lemma {:induction false} PacketsArePreserved(sender: AsyncTcpSocket, receiver: AsyncTcpSocket)
    requires sender.Valid() && receiver.Valid()
    requires receiver.received <= sender.wire
    ensures receiver.signalled <= sender.accepted
    ensures sender.outpos == 0 && receiver.received == sender.wire ==> receiver.signalled == sender.accepted
  {
    var rest := receiver.inbuf[..receiver.inpos];
    DecodedIsPrefix(sender.accepted, receiver.signalled, rest);
    if sender.outpos == 0 {
      assert sender.wire + sender.outbuf[..0] == sender.wire;
    }
  }
}
