/** ByteBuffer: a queue of bytes in a growing array, with remembered read positions and typed values. */
module ByteBuffer {
  import opened CText

  type Byte = b: int | 0 <= b < 256

  // Values and bytes

  function Pow256(n: nat): nat {
    if n == 0 then 1 else 256 * Pow256(n - 1)
  }

  /** The `n` low bytes of a value, the most significant one first: network order. */
  function BigEndian(v: nat, n: nat): (s: seq<Byte>)
    ensures |s| == n
  {
    if n == 0 then [] else BigEndian(v / 256, n - 1) + [v % 256]
  }

  function LittleEndian(v: nat, n: nat): (s: seq<Byte>)
    ensures |s| == n
  {
    if n == 0 then [] else [v % 256] + LittleEndian(v / 256, n - 1)
  }

  /** The value without its `i` low bytes. */
  function WithoutLow(v: nat, i: nat): nat {
    if i == 0 then v else WithoutLow(v / 256, i - 1)
  }

  /** Network order is the high byte first, and the other order is the reverse. */
  lemma {:induction false} ByteAt(v: nat, n: nat, i: nat)
    requires i < n
    ensures BigEndian(v, n)[n - 1 - i] == WithoutLow(v, i) % 256 == LittleEndian(v, n)[i]
  {
    if i > 0 {
      ByteAt(v / 256, n - 1, i - 1);
    }
  }

  /** The sizes in use, byte by byte. */
  lemma {:induction false} BytesOfSizes(v: nat)
    ensures BigEndian(v, 1) == LittleEndian(v, 1) == [v % 256]
    ensures BigEndian(v, 2) == [v / 0x100 % 256, v % 256]
    ensures BigEndian(v, 3) == [v / 0x1_0000 % 256, v / 0x100 % 256, v % 256]
    ensures BigEndian(v, 4) == [v / 0x100_0000 % 256, v / 0x1_0000 % 256, v / 0x100 % 256, v % 256]
    ensures Pow256(1) == 0x100 && Pow256(2) == 0x1_0000 && Pow256(3) == 0x100_0000 && Pow256(4) == 0x1_0000_0000
  {
    assert BigEndian(v / 0x100, 1) == [v / 0x100 % 256];
    assert BigEndian(v / 0x1_0000, 1) == [v / 0x1_0000 % 256];
    assert BigEndian(v / 0x100_0000, 1) == [v / 0x100_0000 % 256];
    assert BigEndian(v / 0x100, 2) == [v / 0x1_0000 % 256, v / 0x100 % 256];
    assert BigEndian(v / 0x1_0000, 2) == [v / 0x100_0000 % 256, v / 0x1_0000 % 256];
  }

  /** The value of bytes in network order. */
  function BigValue(s: seq<Byte>): nat {
    if s == [] then 0 else BigValue(s[..|s| - 1]) * 256 + s[|s| - 1]
  }

  function LittleValue(s: seq<Byte>): nat {
    if s == [] then 0 else s[0] + 256 * LittleValue(s[1..])
  }

  /** The memory of an `n`-byte integer of the host, and the integer in a piece of memory. */
  function Store(v: nat, n: nat, hostBig: bool): (s: seq<Byte>)
    ensures |s| == n
  {
    if hostBig then BigEndian(v, n) else LittleEndian(v, n)
  }

  function Load(s: seq<Byte>, hostBig: bool): nat {
    if hostBig then BigValue(s) else LittleValue(s)
  }

  /** SetBE: the integer whose memory is in network order. */
  function HostToNetwork(v: nat, n: nat, hostBig: bool): nat {
    Load(BigEndian(v, n), hostBig)
  }

  /** GetBE. */
  function NetworkToHost(v: nat, n: nat, hostBig: bool): nat {
    BigValue(Store(v, n, hostBig))
  }

  /** Values that fit in the bytes, and no others, read back. */
  lemma {:induction false} BigEndianReadsBack(v: nat, n: nat)
    ensures BigValue(BigEndian(v, n)) == v <==> v < Pow256(n)
  {
    ValueWrites(BigEndian(v, n));
    if v < Pow256(n) && n > 0 {
      var s := BigEndian(v, n);
      assert s[..n - 1] == BigEndian(v / 256, n - 1);
      BigEndianReadsBack(v / 256, n - 1);
    }
  }

  lemma {:induction false} LittleEndianReadsBack(v: nat, n: nat)
    ensures LittleValue(LittleEndian(v, n)) == v <==> v < Pow256(n)
  {
    LittleValueWrites(LittleEndian(v, n));
    if v < Pow256(n) && n > 0 {
      var s := LittleEndian(v, n);
      assert s[1..] == LittleEndian(v / 256, n - 1);
      LittleEndianReadsBack(v / 256, n - 1);
    }
  }

  lemma {:induction false} ValueWrites(s: seq<Byte>)
    ensures BigEndian(BigValue(s), |s|) == s && BigValue(s) < Pow256(|s|)
  {
    if s != [] {
      ValueWrites(s[..|s| - 1]);
      assert s == s[..|s| - 1] + [s[|s| - 1]];
    }
  }

  lemma {:induction false} LittleValueWrites(s: seq<Byte>)
    ensures LittleEndian(LittleValue(s), |s|) == s && LittleValue(s) < Pow256(|s|)
  {
    if s != [] {
      LittleValueWrites(s[1..]);
      assert s == [s[0]] + s[1..];
    }
  }

  /** Whatever the host, memory holds what was loaded from it. */
  lemma {:induction false} StoreLoads(s: seq<Byte>, hostBig: bool)
    ensures Store(Load(s, hostBig), |s|, hostBig) == s && Load(s, hostBig) < Pow256(|s|)
  {
    if hostBig { ValueWrites(s); } else { LittleValueWrites(s); }
  }

  lemma {:induction false} LoadStores(v: nat, n: nat, hostBig: bool)
    ensures Load(Store(v, n, hostBig), hostBig) == v <==> v < Pow256(n)
  {
    hide BigEndian, LittleEndian, BigValue, LittleValue, Pow256;
    BigEndianReadsBack(v, n);
    LittleEndianReadsBack(v, n);
  }

  /** The bytes that go on the wire do not depend on the host, and conversion there and back is the identity. */
  lemma {:induction false} NetworkOrder(v: nat, n: nat, hostBig: bool)
    ensures Store(HostToNetwork(v, n, hostBig), n, hostBig) == BigEndian(v, n)
    ensures v < Pow256(n) ==> NetworkToHost(HostToNetwork(v, n, hostBig), n, hostBig) == v
  {
    hide BigEndian, LittleEndian, BigValue, LittleValue, Pow256, Store, Load;
    StoreLoads(BigEndian(v, n), hostBig);
    BigEndianReadsBack(v, n);
  }

  // What a typed write leaves in the buffer

  datatype ByteOrder = OrderNetwork | OrderHost

  /** The bytes of a value of 1, 2, 4 or 8 bytes. */
  function Text(v: nat, n: nat, order: ByteOrder, hostBig: bool): (s: seq<Byte>)
    ensures |s| == n
  {
    if order == OrderNetwork then BigEndian(v, n) else Store(v, n, hostBig)
  }

  function Meaning(s: seq<Byte>, order: ByteOrder, hostBig: bool): nat {
    if order == OrderNetwork then BigValue(s) else Load(s, hostBig)
  }

  /** What is written is read back, if it fits; nothing else can be. Values of 24 bits are three bytes. */
  lemma {:induction false} TextReadsBack(v: nat, n: nat, order: ByteOrder, hostBig: bool)
    ensures Meaning(Text(v, n, order, hostBig), order, hostBig) == v <==> v < Pow256(n)
  {
    hide BigEndian, BigValue, Store, Load, Pow256;
    BigEndianReadsBack(v, n);
    LoadStores(v, n, hostBig);
  }

  /** A value of three bytes is a four-byte value without its most significant byte. */
  lemma {:induction false} ThreeOfFour(v: nat, n: nat)
    ensures BigEndian(v, n + 1)[1..] == BigEndian(v, n) && LittleEndian(v, n + 1)[..n] == LittleEndian(v, n)
  {
    if n > 0 {
      ThreeOfFour(v / 256, n - 1);
      assert BigEndian(v, n + 1)[1..] == BigEndian(v / 256, n)[1..] + [v % 256];
      assert LittleEndian(v, n + 1)[..n] == [v % 256] + LittleEndian(v / 256, n)[..n - 1];
    }
  }

  lemma {:induction false} LeadingZero(s: seq<Byte>)
    ensures BigValue([0] + s) == BigValue(s) && LittleValue(s + [0]) == LittleValue(s)
  {
    if s == [] {
      assert LittleValue([0]) == 0 && BigValue([0]) == 0;
    } else {
      var k := |s| - 1;
      LeadingZero(s[..k]);
      assert ([0] + s)[..k + 1] == [0] + s[..k];
      TrailingZero(s);
    }
  }

  lemma {:induction false} TrailingZero(s: seq<Byte>)
    ensures LittleValue(s + [0]) == LittleValue(s)
  {
    if s != [] {
      assert (s + [0])[1..] == s[1..] + [0];
      TrailingZero(s[1..]);
    }
  }

  // Bytes are queued

  datatype Op = Write(bytes: seq<Byte>) | Read(len: nat) | Consume(len: nat) | Resize(len: nat) | Clear

  /** What is in the queue, and what has come out of it. */
  datatype Queue = Queue(contents: seq<Byte>, taken: seq<Byte>)

  /** Operations on a queue of bytes; a read that asks for too much does nothing. */
  function Apply(q: Queue, op: Op): Queue {
    match op
    case Write(bytes) => q.(contents := q.contents + bytes)
    case Read(n) => if n > |q.contents| then q else Queue(q.contents[n..], q.taken + q.contents[..n])
    case Consume(n) => if n > |q.contents| then q else Queue(q.contents[n..], q.taken + q.contents[..n])
    case Resize(n) => q.(contents := q.contents[..Min(|q.contents|, n)])
    case Clear => q.(contents := [])
  }

  function ApplyAll(q: Queue, ops: seq<Op>): Queue
    decreases |ops|
  {
    if ops == [] then q else ApplyAll(Apply(q, ops[0]), ops[1..])
  }

  function Written(ops: seq<Op>): seq<Byte> {
    if ops == [] then [] else (if ops[0].Write? then ops[0].bytes else []) + Written(ops[1..])
  }

  /** Without Resize and Clear, what has come out and what is still in are all that was written, in order. */
  lemma {:induction false} NothingIsLost(q: Queue, ops: seq<Op>)
    requires forall op | op in ops :: !op.Resize? && !op.Clear?
    ensures var r := ApplyAll(q, ops); r.taken + r.contents == q.taken + q.contents + Written(ops)
    decreases |ops|
  {
    if ops == [] {
      assert q.taken + q.contents + [] == q.taken + q.contents;
    } else {
      var op, q1 := ops[0], Apply(q, ops[0]);
      assert op in ops;
      NothingIsLost(q1, ops[1..]);
      var w := if op.Write? then op.bytes else [];
      assert q1.taken + q1.contents == q.taken + q.contents + w;
      assert q1.taken + q1.contents + Written(ops[1..]) == q.taken + q.contents + (w + Written(ops[1..]));
    }
  }

  predicate Moves(op: Op) {
    op.Resize? || op.Clear?
  }

  predicate Quiet(ops: seq<Op>) {
    forall op | op in ops :: !Moves(op)
  }

  /** What came out before does not matter. */
  lemma {:induction false} Rebase(q: Queue, before: seq<Byte>, ops: seq<Op>)
    requires q.taken == []
    ensures var r := ApplyAll(q, ops); ApplyAll(q.(taken := before), ops) == r.(taken := before + r.taken)
    decreases |ops|
  {
    RebaseFrom(q, before, ops);
    assert before + [] == before;
  }

  lemma {:induction false} RebaseFrom(q: Queue, before: seq<Byte>, ops: seq<Op>)
    ensures var r := ApplyAll(q, ops);
            ApplyAll(q.(taken := before + q.taken), ops) == r.(taken := before + r.taken)
    decreases |ops|
  {
    if ops != [] {
      var r := Apply(q, ops[0]);
      assert Apply(q.(taken := before + q.taken), ops[0]) == r.(taken := before + r.taken);
      RebaseFrom(r, before, ops[1..]);
    }
  }

  lemma {:induction false} OneAndRest(q: Queue, ops: seq<Op>)
    ensures ops == [] ==> ApplyAll(q, ops) == q && Written(ops) == [] && Quiet(ops)
    ensures ops != [] ==>
              ApplyAll(q, ops) == ApplyAll(Apply(q, ops[0]), ops[1..])
              && Written(ops) == (if ops[0].Write? then ops[0].bytes else []) + Written(ops[1..])
              && (Quiet(ops) <==> !Moves(ops[0]) && Quiet(ops[1..]))
  {
    if ops != [] {
      assert ops == [ops[0]] + ops[1..];
    }
  }

  lemma {:induction false} Behind(s: seq<Byte>, t: seq<Byte>, k: nat)
    requires k <= |s|
    ensures (s + t)[k..] == s[k..] + t
  {
  }

  // The buffer

  datatype ReadPosition = ReadPosition(start: nat, version: nat)

  class ByteBuffer {
    var bytes: array<Byte>
    var size: nat
    var start: nat
    var end: nat
    var version: nat
    const order: ByteOrder
    const hostBig: bool

    ghost predicate Valid()
      reads this
    {
      start <= end <= size && size == bytes.Length
    }

    /** The bytes that have not been read. */
    ghost function Contents(): seq<Byte>
      reads this, bytes
      requires Valid()
    {
      bytes[start..end]
    }

    /** Everything since the last compaction, read or not. */
    ghost function Retained(): seq<Byte>
      reads this, bytes
      requires Valid()
    {
      bytes[..end]
    }

    /** A position that this buffer gave out: if it is current it lies in what is retained. */
    ghost predicate Issued(p: ReadPosition)
      reads this, bytes
    {
      p.version <= version && (p.version == version ==> p.start <= end)
    }

    /** What every method keeps: positions stay good until the version changes, and the bytes behind them stay. */
    twostate predicate Keeps()
      requires old(Valid()) && Valid()
      reads this, bytes
    {
      version >= old(version) && (version == old(version) ==> old(Retained()) <= Retained())
    }

    constructor (capacity: nat, order: ByteOrder, hostBig: bool)
      ensures Valid() && fresh(bytes) && Contents() == [] && size == capacity && version == 0
      ensures this.order == order && this.hostBig == hostBig
    {
      this.order, this.hostBig := order, hostBig;
      version, start, end, size := 0, 0, 0, capacity;
      bytes := new Byte[capacity];
    }

    method Length() returns (n: nat)
      requires Valid()
      ensures n == |Contents()|
    {
      n := end - start;
    }

    method Resize(newSize: nat)
      requires Valid()
      modifies this, bytes
      ensures Valid() && (bytes == old(bytes) || fresh(bytes))
      ensures Contents() == old(Contents())[..Min(|old(Contents())|, newSize)]
      ensures start == 0 && version == old(version) + 1
      ensures size == if newSize <= old(size) then old(size)
                      else if newSize > 3 * old(size) / 2 then newSize else 3 * old(size) / 2
    {
      var len := Min(end - start, newSize);
      assert bytes[start..start + len] == Contents()[..len];
      MakeRoom(newSize, len);
      start, end := 0, len;
      version := version + 1;
      assert bytes[0..len] == bytes[..len];
    }

    /** The first `len` unread bytes go to the front of the array, or of a larger one. */
    method MakeRoom(newSize: nat, len: nat)
      requires Valid() && start + len <= end && len <= newSize
      modifies this`size, this`bytes, bytes
      ensures (bytes == old(bytes) || fresh(bytes)) && size == bytes.Length
      ensures size == if newSize <= old(size) then old(size)
                      else if newSize > 3 * old(size) / 2 then newSize else 3 * old(size) / 2
      ensures bytes[..len] == old(bytes[start..start + len])
    {
      if newSize <= size {
        MoveToFront(len);
      } else {
        size := if newSize > 3 * size / 2 then newSize else 3 * size / 2;
        bytes := Copy(bytes, start, len, size);
      }
    }

    /** A larger array that starts with a piece of another. */
    static method Copy(from: array<Byte>, start: nat, len: nat, size: nat) returns (r: array<Byte>)
      requires start + len <= from.Length && len <= size
      ensures fresh(r) && r.Length == size && r[..len] == from[start..start + len]
    {
      r := new Byte[size];
      for i := 0 to len
        invariant r[..i] == from[start..start + i]
      {
        r[i] := from[start + i];
      }
    }

    /** memmove of the first unread bytes. */
    method MoveToFront(len: nat)
      requires Valid() && start + len <= end
      modifies bytes
      ensures bytes[..len] == old(bytes[start..start + len])
    {
      for i := 0 to len
        invariant bytes[..i] == old(bytes[start..start + i])
        invariant bytes[i..] == old(bytes[i..])
      {
        assert bytes[start + i] == bytes[i..][start] == old(bytes[i..])[start];
        bytes[i] := bytes[start + i];
        assert bytes[i + 1..] == old(bytes[i..])[1..];
      }
    }

    /** Room for `len` more bytes behind the unread ones; what they are is left to the caller. */
    method ReserveWriteBuffer(len: nat) returns (at: nat)
      requires Valid()
      modifies this, bytes
      ensures Valid() && (bytes == old(bytes) || fresh(bytes)) && Keeps()
      ensures at + len == end && start + |old(Contents())| == at && bytes[start..at] == old(Contents())
      ensures version == if old(end) + len <= old(size) then old(version) else old(version) + 1
      ensures version == old(version) ==>
                start == old(start) && size == old(size) && bytes == old(bytes) && bytes[..at] == old(Retained())
    {
      var used := end - start;
      if used + len > size - start {
        Resize(used + len);
      }
      at := end;
      end := end + len;
    }

    method WriteBytes(val: seq<Byte>)
      requires Valid()
      modifies this, bytes
      ensures Valid() && (bytes == old(bytes) || fresh(bytes)) && Keeps()
      ensures Contents() == old(Contents()) + val
      ensures version == if old(end) + |val| <= old(size) then old(version) else old(version) + 1
      ensures version == old(version) ==>
                start == old(start) && size == old(size) && Retained() == old(Retained()) + val
    {
      var at := ReserveWriteBuffer(|val|);
      ghost var front := bytes[..at];
      assert front[start..] == bytes[start..at];
      CopyIn(at, val);
      Behind(front, val, start);
      assert bytes[start..end] == bytes[..end][start..];
    }

    /** memcpy into the array. */
    method CopyIn(at: nat, val: seq<Byte>)
      requires at + |val| <= bytes.Length
      modifies bytes
      ensures bytes[..at + |val|] == old(bytes[..at]) + val
    {
      for i := 0 to |val|
        invariant bytes[..at + i] == old(bytes[..at]) + val[..i]
      {
        bytes[at + i] := val[i];
      }
      assert val[..|val|] == val;
    }

    method ReadBytes(len: nat) returns (val: Option<seq<Byte>>)
      requires Valid()
      modifies this`start
      ensures Valid() && Keeps()
      ensures val.Some? <==> len <= |old(Contents())|
      ensures val.Some? ==> val.value == old(Contents())[..len] && Contents() == old(Contents())[len..]
      ensures val.None? ==> Contents() == old(Contents())
    {
      if len > end - start {
        return None;
      }
      val := Some(bytes[start..start + len]);
      assert bytes[start..start + len] == Contents()[..len] && bytes[start + len..end] == Contents()[len..];
      start := start + len;
    }

    method Consume(len: nat) returns (ok: bool)
      requires Valid()
      modifies this`start
      ensures Valid() && Keeps()
      ensures ok <==> len <= |old(Contents())|
      ensures Contents() == if ok then old(Contents())[len..] else old(Contents())
    {
      if len > end - start {
        return false;
      }
      assert bytes[start + len..end] == Contents()[len..];
      start := start + len;
      return true;
    }

    method Clear()
      requires Valid()
      modifies this`start, this`end, this`version, bytes
      ensures Valid() && Contents() == [] && version == old(version) + 1
    {
      for i := 0 to size
        invariant version == old(version)
      {
        bytes[i] := 0;
      }
      start, end := 0, 0;
      version := version + 1;
    }

    method GetReadPosition() returns (p: ReadPosition)
      requires Valid()
      ensures Issued(p) && p.version == version && Retained()[p.start..] == Contents()
    {
      p := ReadPosition(start, version);
      assert bytes[..end][start..] == bytes[start..end];
    }

    /** Back to a remembered position, unless the bytes have been moved since. */
    method SetReadPosition(p: ReadPosition) returns (ok: bool)
      requires Valid() && Issued(p)
      modifies this`start
      ensures Valid() && Keeps()
      ensures ok <==> p.version == version
      ensures Contents() == if ok then Retained()[p.start..] else old(Contents())
    {
      if p.version != version {
        return false;
      }
      start := p.start;
      assert bytes[..end][start..] == bytes[start..end];
      return true;
    }

    // Typed values

    /** WriteUInt8, WriteUInt16, WriteUInt32 and WriteUInt64: `n` is 1, 2, 4 or 8. */
    method WriteUInt(val: nat, n: nat)
      requires Valid() && (n == 1 || n == 2 || n == 4 || n == 8) && val < Pow256(n)
      modifies this, bytes
      ensures Valid() && (bytes == old(bytes) || fresh(bytes)) && Keeps()
      ensures Contents() == old(Contents()) + Text(val, n, order, hostBig)
    {
      var v := if order == OrderNetwork then HostToNetwork(val, n, hostBig) else val;
      hide BigEndian, LittleEndian, BigValue, LittleValue, Store, HostToNetwork;
      NetworkOrder(val, n, hostBig);
      WriteBytes(Store(v, n, hostBig));
    }

    /** The low three bytes of a 32-bit value. */
    method WriteUInt24(val: nat)
      requires Valid() && val < Pow256(4)
      modifies this, bytes
      ensures Valid() && (bytes == old(bytes) || fresh(bytes)) && Keeps()
      ensures Contents() == old(Contents()) + Text(val, 3, order, hostBig)
    {
      hide BigEndian, LittleEndian, BigValue, LittleValue;
      var v := if order == OrderNetwork then HostToNetwork(val, 4, hostBig) else val;
      var from := if order == OrderNetwork || hostBig then 1 else 0;
      NetworkOrder(val, 4, hostBig);
      ThreeOfFour(val, 3);
      var memory := Store(v, 4, hostBig);
      assert memory[1..4] == memory[1..] && memory[0..3] == memory[..3];
      WriteBytes(memory[from..from + 3]);
    }

    method ReadUInt(n: nat) returns (val: Option<nat>)
      requires Valid() && (n == 1 || n == 2 || n == 4 || n == 8)
      modifies this`start
      ensures Valid() && Keeps()
      ensures val.Some? <==> n <= |old(Contents())|
      ensures val.Some? ==> val.value == Meaning(old(Contents())[..n], order, hostBig)
                            && Contents() == old(Contents())[n..]
      ensures val.None? ==> Contents() == old(Contents())
    {
      hide BigEndian, LittleEndian, BigValue, LittleValue;
      var r := ReadBytes(n);
      if r.None? {
        return None;
      }
      var v := Load(r.value, hostBig);
      StoreLoads(r.value, hostBig);
      val := Some(if order == OrderNetwork then NetworkToHost(v, n, hostBig) else v);
    }

    method ReadUInt24() returns (val: Option<nat>)
      requires Valid()
      modifies this`start
      ensures Valid() && Keeps()
      ensures val.Some? <==> 3 <= |old(Contents())|
      ensures val.Some? ==> val.value == Meaning(old(Contents())[..3], order, hostBig)
                            && Contents() == old(Contents())[3..]
      ensures val.None? ==> Contents() == old(Contents())
    {
      hide BigEndian, LittleEndian, BigValue, LittleValue;
      var r := ReadBytes(3);
      if r.None? {
        return None;
      }
      var memory := if order == OrderNetwork || hostBig then [0] + r.value else r.value + [0];
      LeadingZero(r.value);
      StoreLoads(memory, hostBig);
      var v := Load(memory, hostBig);
      val := Some(if order == OrderNetwork then NetworkToHost(v, 4, hostBig) else v);
    }

    // Runs

    method Do(op: Op) returns (out: seq<Byte>)
      requires Valid()
      modifies this, bytes
      ensures Valid() && (bytes == old(bytes) || fresh(bytes)) && Keeps()
      ensures Queue(Contents(), out) == Apply(Queue(old(Contents()), []), op)
      ensures version == old(version) <==>
                !Moves(op) && (op.Write? ==> old(end) + |op.bytes| <= old(size))
      ensures version == old(version) ==>
                size == old(size) && Retained() == old(Retained()) + if op.Write? then op.bytes else []
    {
      out := [];
      assert Retained() + [] == Retained();
      match op {
        case Write(val) =>
          WriteBytes(val);
        case Read(n) =>
          out := Take(n);
        case Consume(n) =>
          out := Skip(n);
        case Resize(n) =>
          Resize(n);
        case Clear =>
          Clear();
      }
    }

    method Take(n: nat) returns (out: seq<Byte>)
      requires Valid()
      modifies this`start
      ensures Valid() && Keeps() && Retained() == old(Retained())
      ensures Queue(Contents(), out) == Apply(Queue(old(Contents()), []), Op.Read(n))
    {
      var r := ReadBytes(n);
      out := r.GetOr([]);
      assert [] + out == out;
    }

    method Skip(n: nat) returns (out: seq<Byte>)
      requires Valid()
      modifies this`start
      ensures Valid() && Keeps() && Retained() == old(Retained())
      ensures Queue(Contents(), out) == Apply(Queue(old(Contents()), []), Op.Consume(n))
    {
      out := if n > end - start then [] else bytes[start..start + n];
      assert n <= end - start ==> out == Contents()[..n];
      assert [] + out == out;
      var ok := Consume(n);
    }

    /** Any interleaving of operations does to the buffer what it does to a queue. The read position stays good
        exactly when nothing was moved. */
    method DoAll(ops: seq<Op>) returns (taken: seq<Byte>)
      requires Valid()
      modifies this, bytes
      ensures Valid() && (bytes == old(bytes) || fresh(bytes)) && Keeps()
      ensures Queue(Contents(), taken) == ApplyAll(Queue(old(Contents()), []), ops)
      ensures version == old(version) <==> Quiet(ops) && old(end) + |Written(ops)| <= old(size)
      ensures version == old(version) ==>
                size == old(size) && Retained() == old(Retained()) + Written(ops)
      decreases |ops|
    {
      hide Apply, ApplyAll, Written, Quiet, Moves;
      ghost var before, w := Retained(), if ops != [] && ops[0].Write? then ops[0].bytes else [];
      OneAndRest(Queue(Contents(), []), ops);
      if ops == [] {
        return [];
      }
      var out := Do(ops[0]);
      ghost var contents := Contents();
      taken := DoAll(ops[1..]);
      Rebase(Queue(contents, []), out, ops[1..]);
      taken := out + taken;
      assert before + w + Written(ops[1..]) == before + (w + Written(ops[1..]));
    }

    /** Looking ahead: after any run of operations a remembered position brings back everything that was unread when
        it was taken, followed by everything written since; unless bytes were moved, when it is refused. */
    method ReadAgain(ops: seq<Op>) returns (ok: bool)
      requires Valid()
      modifies this, bytes
      ensures Valid()
      ensures ok <==> Quiet(ops) && old(end) + |Written(ops)| <= old(size)
      ensures ok ==> Contents() == old(Contents()) + Written(ops)
    {
      hide ApplyAll, Written, Quiet;
      var p := GetReadPosition();
      var taken := DoAll(ops);
      ok := SetReadPosition(p);
    }
  }
}
