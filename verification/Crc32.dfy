/** CRC-32 as in section 8 of RFC 1952: the table-driven routine, against the division of the
    message by the reflected polynomial one bit at a time. */
module Crc32 {

  /** kCrc32Polynomial. */
  const POLYNOMIAL: bv32 := 0xEDB88320

  const ALL_ONES: bv32 := 0xFFFFFFFF

  const TABLE_SIZE: nat := 256

  // Operations on 32-bit words, named so that proofs about many steps can treat them as black boxes

  function Xor(a: bv32, b: bv32): bv32 {
    a ^ b
  }

  function Half(a: bv32): bv32 {
    a >> 1
  }

  function LowBit(a: bv32): bv32 {
    a & 1
  }

  function EvenPart(a: bv32): bv32 {
    a & 0xFFFFFFFE
  }

  function LowByte(a: bv32): bv32 {
    a & 0xFF
  }

  function HighBytes(a: bv32): bv32 {
    a & 0xFFFFFF00
  }

  function DropByte(a: bv32): bv32 {
    a >> 8
  }

  // Division, one bit at a time

  /** One step of the division: the bit that leaves the register decides whether the polynomial is subtracted. */
  function Shift(c: bv32): bv32 {
    if LowBit(c) == 1 then Xor(POLYNOMIAL, Half(c)) else Half(c)
  }

  function BitValue(bit: bool): bv32 {
    if bit then 1 else 0
  }

  /** The remainder after more message bits. */
  function Divide(c: bv32, bits: seq<bool>): bv32
    decreases bits
  {
    if bits == [] then c else Divide(Shift(Xor(c, BitValue(bits[0]))), bits[1..])
  }

  /** The lowest `n` bits of a word in the order in which they are sent: lowest first. */
  function WordBits(w: bv32, n: nat): (bits: seq<bool>)
    ensures |bits| == n
    decreases n
  {
    if n == 0 then [] else [LowBit(w) == 1] + WordBits(Half(w), n - 1)
  }

  function ByteBits(b: bv8): (bits: seq<bool>)
    ensures |bits| == 8
  {
    WordBits(b as bv32, 8)
  }

  function MessageBits(buf: seq<bv8>): (bits: seq<bool>)
    ensures |bits| == 8 * |buf|
  {
    if buf == [] then [] else ByteBits(buf[0]) + MessageBits(buf[1..])
  }

  /** The checksum of `buf` that continues the checksum `start`. */
  function Crc(start: bv32, buf: seq<bv8>): bv32 {
    Xor(Divide(Xor(start, ALL_ONES), MessageBits(buf)), ALL_ONES)
  }

  // Laws of words

  lemma {:induction false} XorAssociative(a: bv32, b: bv32, c: bv32)
    ensures Xor(Xor(a, b), c) == Xor(a, Xor(b, c))
  {
  }

  lemma {:induction false} XorCommutes(a: bv32, b: bv32)
    ensures Xor(a, b) == Xor(b, a)
  {
  }

  lemma {:induction false} XorTwice(a: bv32, b: bv32)
    ensures Xor(Xor(a, b), b) == a && Xor(a, 0) == a
  {
  }

  lemma {:induction false} XorCancels(a: bv32, b: bv32, c: bv32)
    requires Xor(a, c) == Xor(b, c)
    ensures a == b
  {
  }

  lemma {:induction false} HalfXor(a: bv32, b: bv32)
    ensures Half(Xor(a, b)) == Xor(Half(a), Half(b))
  {
  }

  lemma {:induction false} LowBitIsBit(w: bv32)
    ensures LowBit(w) == 0 || LowBit(w) == 1
  {
  }

  lemma {:induction false} LowBitEven(a: bv32, e: bv32)
    requires LowBit(e) == 0
    ensures LowBit(Xor(a, e)) == LowBit(a)
  {
  }

  lemma {:induction false} SplitLowBit(c: bv32, w: bv32)
    ensures Xor(c, w) == Xor(Xor(c, LowBit(w)), EvenPart(w))
  {
  }

  lemma {:induction false} EvenPartIsEven(w: bv32)
    ensures LowBit(EvenPart(w)) == 0
  {
  }

  lemma {:induction false} HalfOfEvenPart(w: bv32)
    ensures Half(EvenPart(w)) == Half(w)
  {
  }

  lemma {:induction false} SplitLowByte(w: bv32)
    ensures w == Xor(LowByte(w), HighBytes(w))
  {
  }

  lemma {:induction false} HighBytesAreHigh(w: bv32)
    ensures LowByte(HighBytes(w)) == 0
    ensures DropByte(HighBytes(w)) == DropByte(w)
  {
  }

  // The byte step

  function Shifts(c: bv32, n: nat): bv32
    decreases n
  {
    if n == 0 then c else Shifts(Shift(c), n - 1)
  }

  /** What the table holds for a byte value. */
  function TableEntry(i: bv32): bv32 {
    Shifts(i, 8)
  }

  function Halves(w: bv32, n: nat): bv32
    decreases n
  {
    if n == 0 then w else Halves(Half(w), n - 1)
  }

  lemma {:induction false} ShiftEven(c: bv32, e: bv32)
    requires LowBit(e) == 0
    ensures Shift(Xor(c, e)) == Xor(Shift(c), Half(e))
  {
    hide Xor, Half, LowBit;
    LowBitEven(c, e);
    HalfXor(c, e);
    XorAssociative(POLYNOMIAL, Half(c), Half(e));
  }

  /** The division is linear: adding a word is adding its low bit now and the rest one step later. */
  lemma {:induction false} ShiftLinear(c: bv32, w: bv32)
    ensures Shift(Xor(c, w)) == Xor(Shift(Xor(c, LowBit(w))), Half(w))
  {
    hide *;
    SplitLowBit(c, w);
    EvenPartIsEven(w);
    HalfOfEvenPart(w);
    ShiftEven(Xor(c, LowBit(w)), EvenPart(w));
  }

  /** Dividing by the bits of a word one at a time is adding the word at once, up to the bits not yet reached. */
  lemma {:induction false} AddedAtOnce(c: bv32, w: bv32, n: nat)
    ensures Shifts(Xor(c, w), n) == Xor(Divide(c, WordBits(w, n)), Halves(w, n))
    decreases n
  {
    hide Shift, Xor, Half, LowBit;
    if n != 0 {
      ShiftLinear(c, w);
      LowBitIsBit(w);
      var bits := WordBits(w, n);
      assert BitValue(bits[0]) == LowBit(w) && bits[1..] == WordBits(Half(w), n - 1);
      AddedAtOnce(Shift(Xor(c, LowBit(w))), Half(w), n - 1);
    }
  }

  /** A summand whose low bits are clear is only shifted. */
  lemma {:induction false} AddedHigh(c: bv32, w: bv32, n: nat)
    requires forall k: nat | k < n :: LowBit(Halves(w, k)) == 0
    ensures Shifts(Xor(c, w), n) == Xor(Shifts(c, n), Halves(w, n))
    decreases n
  {
    hide Shift, Xor, Half, LowBit;
    if n != 0 {
      assert LowBit(Halves(w, 0)) == 0;
      ShiftEven(c, w);
      forall k: nat | k < n - 1 ensures LowBit(Halves(Half(w), k)) == 0 {
        assert LowBit(Halves(w, k + 1)) == 0;
      }
      AddedHigh(Shift(c), Half(w), n - 1);
    }
  }

  lemma {:induction false} HalvesAdd(w: bv32, m: nat, n: nat)
    ensures Halves(w, m + n) == Halves(Halves(w, m), n)
    decreases m
  {
    hide Half;
    if m != 0 { HalvesAdd(Half(w), m - 1, n); }
  }

  function DropNibble(w: bv32): bv32 {
    w >> 4
  }

  lemma {:induction false} HalfOfHalf(w: bv32)
    ensures Half(Half(Half(Half(w)))) == DropNibble(w)
  {
  }

  lemma {:induction false} DropTwice(w: bv32)
    ensures DropNibble(DropNibble(w)) == DropByte(w)
  {
  }

  /** Halving eight times drops the low byte. */
  lemma {:induction false} EightHalves(w: bv32)
    ensures Halves(w, 8) == DropByte(w)
  {
    hide *;
    HalvesAdd(w, 4, 4);
    FewHalves(w);
    HalfOfHalf(w);
    FewHalves(DropNibble(w));
    HalfOfHalf(DropNibble(w));
    DropTwice(w);
  }

  lemma {:induction false} LowByteClear(w: bv32)
    requires LowByte(w) == 0
    ensures LowBit(w) == 0 && LowBit(Half(w)) == 0 && LowBit(Half(Half(w))) == 0 && LowBit(Half(Half(Half(w)))) == 0
    ensures var v := Half(Half(Half(Half(w))));
            LowBit(v) == 0 && LowBit(Half(v)) == 0 && LowBit(Half(Half(v))) == 0 && LowBit(Half(Half(Half(v)))) == 0
  {
  }

  lemma {:induction false} LowHalvesClear(w: bv32)
    requires LowByte(w) == 0
    ensures forall k: nat | k < 8 :: LowBit(Halves(w, k)) == 0
  {
    LowByteClear(w);
    hide Half, LowBit, LowByte;
    FewHalves(w);
    forall k: nat | k < 8 ensures LowBit(Halves(w, k)) == 0 {
      if k >= 4 {
        HalvesAdd(w, 4, k - 4);
        FewHalves(Halves(w, 4));
      }
    }
  }

  lemma {:induction false} FewHalves(w: bv32)
    ensures Halves(w, 0) == w && Halves(w, 1) == Half(w) && Halves(w, 2) == Half(Half(w))
    ensures Halves(w, 3) == Half(Half(Half(w))) && Halves(w, 4) == Half(Half(Half(Half(w))))
  {
    hide Half;
    var a := Half(w);
    var b := Half(a);
    var c := Half(b);
    assert Halves(c, 1) == Half(c);
    assert Halves(b, 1) == c && Halves(b, 2) == Half(c);
    assert Halves(a, 1) == b && Halves(a, 2) == c && Halves(a, 3) == Half(c);
  }

  /** Eight steps at once: look up the low byte and shift the rest. */
  lemma {:induction false} EightSteps(x: bv32)
    ensures Shifts(x, 8) == Xor(TableEntry(LowByte(x)), DropByte(x))
  {
    hide Shifts, Xor, LowByte, HighBytes, DropByte;
    SplitLowByte(x);
    HighBytesAreHigh(x);
    LowHalvesClear(HighBytes(x));
    AddedHigh(LowByte(x), HighBytes(x), 8);
    EightHalves(HighBytes(x));
  }

  lemma {:induction false} ByteHasNoHighBytes(b: bv8)
    ensures DropByte(b as bv32) == 0
  {
  }

  /** One table look-up is the division by the eight bits of one byte. */
  lemma {:induction false} ByteStep(c: bv32, b: bv8)
    ensures Divide(c, ByteBits(b))
         == Xor(TableEntry(LowByte(Xor(c, b as bv32))), DropByte(Xor(c, b as bv32)))
  {
    assert ByteBits(b) == WordBits(b as bv32, 8);
    hide *;
    var w := b as bv32;
    AddedAtOnce(c, w, 8);
    EightHalves(w);
    ByteHasNoHighBytes(b);
    XorTwice(Divide(c, WordBits(w, 8)), 0);
    EightSteps(Xor(c, w));
  }

  /** The source shifts the register before the byte is added; the byte is too small to matter. */
  lemma {:induction false} DropByteOfSum(c: bv32, b: bv8)
    ensures DropByte(Xor(c, b as bv32)) == DropByte(c)
  {
  }

  // Composition

  lemma {:induction false} DivideConcat(c: bv32, s: seq<bool>, t: seq<bool>)
    ensures Divide(c, s + t) == Divide(Divide(c, s), t)
    decreases s
  {
    hide Shift, Xor;
    if s == [] {
      assert s + t == t;
    } else {
      assert (s + t)[1..] == s[1..] + t;
      DivideConcat(Shift(Xor(c, BitValue(s[0]))), s[1..], t);
    }
  }

  lemma {:induction false} MessageBitsConcat(a: seq<bv8>, b: seq<bv8>)
    ensures MessageBits(a + b) == MessageBits(a) + MessageBits(b)
  {
    hide ByteBits;
    if a == [] {
      assert a + b == b;
    } else {
      assert (a + b)[1..] == a[1..] + b;
      MessageBitsConcat(a[1..], b);
    }
  }

  /** A checksum can be continued: the parts of a message may be fed one after the other. */
  lemma {:induction false} CrcComposes(start: bv32, a: seq<bv8>, b: seq<bv8>)
    ensures Crc(Crc(start, a), b) == Crc(start, a + b)
  {
    hide Divide, MessageBits, Xor;
    var c := Divide(Xor(start, ALL_ONES), MessageBits(a));
    XorTwice(c, ALL_ONES);
    MessageBitsConcat(a, b);
    DivideConcat(Xor(start, ALL_ONES), MessageBits(a), MessageBits(b));
  }

  // Error detection

  lemma {:induction false} ShiftInjective(x: bv32, y: bv32)
    requires Shift(x) == Shift(y)
    ensures x == y
  {
  }

  /** Different remainders stay different whatever follows. */
  lemma {:induction false} DivideInjective(x: bv32, y: bv32, bits: seq<bool>)
    requires Divide(x, bits) == Divide(y, bits)
    ensures x == y
    decreases bits
  {
    hide Shift, Xor;
    if bits != [] {
      var b := BitValue(bits[0]);
      DivideInjective(Shift(Xor(x, b)), Shift(Xor(y, b)), bits[1..]);
      ShiftInjective(Xor(x, b), Xor(y, b));
      XorCancels(x, y, b);
    }
  }

  lemma {:induction false} LowBitXor(x: bv32, y: bv32)
    ensures LowBit(Xor(x, y)) == if LowBit(x) == LowBit(y) then 0 else 1
  {
  }

  lemma {:induction false} XorPairs(p: bv32, x: bv32, y: bv32)
    ensures Xor(Xor(p, x), Xor(p, y)) == Xor(x, y)
  {
    hide Xor;
    XorCommutes(p, x);
    XorAssociative(x, p, Xor(p, y));
    XorCommutes(p, y);
    XorCommutes(p, Xor(y, p));
    XorTwice(y, p);
  }

  lemma {:induction false} XorMoves(p: bv32, x: bv32, y: bv32)
    ensures Xor(x, Xor(p, y)) == Xor(p, Xor(x, y))
  {
  }

  lemma {:induction false} ShiftAdds(x: bv32, y: bv32)
    ensures Xor(Shift(x), Shift(y)) == Shift(Xor(x, y))
  {
    hide Xor, Half, LowBit;
    LowBitIsBit(x);
    LowBitIsBit(y);
    LowBitXor(x, y);
    HalfXor(x, y);
    XorPairs(POLYNOMIAL, Half(x), Half(y));
    XorMoves(POLYNOMIAL, Half(x), Half(y));
    XorAssociative(POLYNOMIAL, Half(x), Half(y));
  }

  /** `b` can be halved `k` times without losing a bit. */
  predicate Lasts(b: bv32, k: nat)
    decreases k
  {
    if k == 0 then b != 0 else LowBit(b) == 0 && Lasts(Half(b), k - 1)
  }

  predicate AtLeast(d: bv32, b: bv32) {
    d >= b
  }

  /** One more message bit moves a difference of two registers down by at most one place. */
  lemma {:induction false} DifferenceLives(d: bv32, e: bv32, b: bv32)
    requires LowBit(b) == 0 && AtLeast(d, b) && (e == 0 || e == 1)
    ensures AtLeast(Shift(Xor(d, e)), Half(b))
  {
  }

  lemma {:induction false} NotZeroDiffers(x: bv32, y: bv32, b: bv32)
    requires b != 0 && AtLeast(Xor(x, y), b)
    ensures x != y
  {
  }

  lemma {:induction false} XorOfSums(x: bv32, y: bv32, u: bv32, v: bv32)
    ensures Xor(Xor(x, u), Xor(y, v)) == Xor(Xor(x, y), Xor(u, v))
  {
    hide Xor;
    XorAssociative(x, u, Xor(y, v));
    XorMoves(y, u, v);
    XorAssociative(x, y, Xor(u, v));
  }

  lemma {:induction false} BitXor(u: bool, v: bool)
    ensures Xor(BitValue(u), BitValue(v)) == 0 || Xor(BitValue(u), BitValue(v)) == 1
  {
  }

  /** A difference of two registers that starts at the marker `b` survives as many bits as `b` has zeroes below it. */
  lemma {:induction false} DifferenceSurvives(x: bv32, y: bv32, u: seq<bool>, v: seq<bool>, b: bv32)
    requires |u| == |v| && Lasts(b, |u|) && AtLeast(Xor(x, y), b)
    ensures Divide(x, u) != Divide(y, v)
    decreases u
  {
    hide Shift, Xor, Half, LowBit, AtLeast, BitValue;
    if u == [] {
      NotZeroDiffers(x, y, b);
    } else {
      var p, q := BitValue(u[0]), BitValue(v[0]);
      BitXor(u[0], v[0]);
      DifferenceLives(Xor(x, y), Xor(p, q), b);
      XorOfSums(x, y, p, q);
      ShiftAdds(Xor(x, p), Xor(y, q));
      DifferenceSurvives(Shift(Xor(x, p)), Shift(Xor(y, q)), u[1..], v[1..], Half(b));
    }
  }

  /** The highest bit of the register. */
  const TOP: bv32 := 0x80000000

  lemma {:induction false} FirstDifference(c: bv32, p: bool, q: bool)
    requires p != q
    ensures AtLeast(Xor(Shift(Xor(c, BitValue(p))), Shift(Xor(c, BitValue(q)))), TOP)
  {
    ShiftAdds(Xor(c, BitValue(p)), Xor(c, BitValue(q)));
    XorOfSums(c, c, BitValue(p), BitValue(q));
    hide Shift;
    assert Xor(Xor(c, c), Xor(BitValue(p), BitValue(q))) == 1;
    ShiftOne();
  }

  lemma {:induction false} ShiftOne()
    ensures AtLeast(Shift(1), TOP)
  {
  }

  lemma {:induction false} LastsByte(b: bv32, k: nat)
    requires LowByte(b) == 0 && Lasts(DropByte(b), k)
    ensures Lasts(b, k + 8)
  {
    hide Half, LowBit, LowByte, DropByte;
    LowHalvesClear(b);
    EightHalves(b);
    LastsOn(b, 8, k);
  }

  lemma {:induction false} LastsOn(b: bv32, n: nat, k: nat)
    requires forall i: nat | i < n :: LowBit(Halves(b, i)) == 0
    requires Lasts(Halves(b, n), k)
    ensures Lasts(b, k + n)
    decreases n
  {
    hide Half, LowBit;
    if n != 0 {
      assert LowBit(Halves(b, 0)) == 0;
      forall i: nat | i < n - 1 ensures LowBit(Halves(Half(b), i)) == 0 {
        assert LowBit(Halves(b, i + 1)) == 0;
      }
      LastsOn(Half(b), n - 1, k);
    }
  }

  lemma {:induction false} TopLasts()
    ensures Lasts(TOP, 31)
  {
    assert Lasts(1, 0);
    assert Lasts(2, 1);
    assert Lasts(4, 2);
    assert Lasts(8, 3);
    assert Lasts(0x10, 4);
    assert Lasts(0x20, 5);
    assert Lasts(0x40, 6);
    assert Lasts(0x80, 7);
    LastsByte(0x8000, 7);
    LastsByte(0x800000, 15);
    LastsByte(TOP, 23);
  }

  lemma {:induction false} NonZeroHalf(b: bv32)
    requires Half(b) != 0
    ensures b != 0
  {
  }

  lemma {:induction false} LastsLess(b: bv32, k: nat, n: nat)
    requires k <= n && Lasts(b, n)
    ensures Lasts(b, k)
    decreases k
  {
    hide Half, LowBit;
    if k == 0 {
      NotZero(b, n);
    } else {
      LastsLess(Half(b), k - 1, n - 1);
    }
  }

  lemma {:induction false} NotZero(b: bv32, n: nat)
    requires Lasts(b, n)
    ensures b != 0
    decreases n
  {
    hide Half, LowBit;
    if n != 0 {
      NotZero(Half(b), n - 1);
      NonZeroHalf(b);
    }
  }

  /** Two different bit strings of equal length up to 32 never lead to the same remainder. */
  lemma {:induction false} ShortStringsDiffer(c: bv32, u: seq<bool>, v: seq<bool>)
    requires |u| == |v| <= 32 && u != v
    ensures Divide(c, u) != Divide(c, v)
    decreases u
  {
    hide Shift, Xor, AtLeast, BitValue, Lasts;
    assert u == [u[0]] + u[1..] && v == [v[0]] + v[1..];
    if u[0] == v[0] {
      ShortStringsDiffer(Shift(Xor(c, BitValue(u[0]))), u[1..], v[1..]);
    } else {
      FirstDifference(c, u[0], v[0]);
      TopLasts();
      LastsLess(TOP, |u| - 1, 31);
      DifferenceSurvives(Shift(Xor(c, BitValue(u[0]))), Shift(Xor(c, BitValue(v[0]))), u[1..], v[1..], TOP);
    }
  }

  lemma {:induction false} ShiftsInjective(x: bv32, y: bv32, n: nat)
    requires Shifts(x, n) == Shifts(y, n)
    ensures x == y
    decreases n
  {
    hide Shift;
    if n != 0 {
      ShiftsInjective(Shift(x), Shift(y), n - 1);
      ShiftInjective(x, y);
    }
  }

  lemma {:induction false} ZeroAdded(w: bv32)
    ensures Xor(0, w) == w
  {
  }

  /** The eight bits of a byte determine it. */
  lemma {:induction false} BytesDiffer(a: bv8, b: bv8)
    requires a != b
    ensures ByteBits(a) != ByteBits(b)
  {
    assert ByteBits(a) == WordBits(a as bv32, 8) && ByteBits(b) == WordBits(b as bv32, 8);
    if ByteBits(a) == ByteBits(b) {
      WideBytesDiffer(a, b);
      hide *;
      AddedAtOnce(0, a as bv32, 8);
      AddedAtOnce(0, b as bv32, 8);
      EightHalves(a as bv32);
      EightHalves(b as bv32);
      ByteHasNoHighBytes(a);
      ByteHasNoHighBytes(b);
      ZeroAdded(a as bv32);
      ZeroAdded(b as bv32);
      ShiftsInjective(a as bv32, b as bv32, 8);
    }
  }

  lemma {:induction false} WideBytesDiffer(a: bv8, b: bv8)
    requires a != b
    ensures a as bv32 != b as bv32
  {
  }

  lemma {:induction false} MessagesDiffer(a: seq<bv8>, b: seq<bv8>)
    requires |a| == |b| && a != b
    ensures MessageBits(a) != MessageBits(b)
  {
    hide ByteBits;
    FirstAndRest(a);
    FirstAndRest(b);
    if a[0] == b[0] {
      MessagesDiffer(a[1..], b[1..]);
      PartsDiffer(ByteBits(a[0]), MessageBits(a[1..]), ByteBits(b[0]), MessageBits(b[1..]));
    } else {
      BytesDiffer(a[0], b[0]);
      PartsDiffer(ByteBits(a[0]), MessageBits(a[1..]), ByteBits(b[0]), MessageBits(b[1..]));
    }
  }

  lemma {:induction false} FirstAndRest<T>(s: seq<T>)
    ensures s != [] ==> s == [s[0]] + s[1..]
  {
  }

  lemma {:induction false} PartsDiffer<T>(a: seq<T>, b: seq<T>, c: seq<T>, d: seq<T>)
    requires |a| == |c| && (a != c || b != d)
    ensures a + b != c + d
  {
    assert (a + b)[..|a|] == a && (a + b)[|a|..] == b;
    assert (c + d)[..|c|] == c && (c + d)[|c|..] == d;
  }

  lemma {:induction false} CutOut<T>(s: seq<T>, from: nat, to: nat)
    requires from <= to <= |s|
    ensures s == s[..from] + s[from..to] + s[to..]
  {
  }

  /** Every burst of errors within four consecutive bytes is detected, whatever surrounds it. */
  lemma {:induction false} BurstIsDetected(start: bv32, before: seq<bv8>, a: seq<bv8>, b: seq<bv8>, after: seq<bv8>)
    requires |a| == |b| <= 4 && a != b
    ensures Crc(start, before + a + after) != Crc(start, before + b + after)
  {
    hide Divide, MessageBits, Xor;
    var c := Divide(Xor(start, ALL_ONES), MessageBits(before));
    MessageBitsConcat(before + a, after);
    MessageBitsConcat(before, a);
    MessageBitsConcat(before + b, after);
    MessageBitsConcat(before, b);
    DivideConcat(Xor(start, ALL_ONES), MessageBits(before) + MessageBits(a), MessageBits(after));
    DivideConcat(Xor(start, ALL_ONES), MessageBits(before), MessageBits(a));
    DivideConcat(Xor(start, ALL_ONES), MessageBits(before) + MessageBits(b), MessageBits(after));
    DivideConcat(Xor(start, ALL_ONES), MessageBits(before), MessageBits(b));
    MessagesDiffer(a, b);
    ShortStringsDiffer(c, MessageBits(a), MessageBits(b));
    var x, y := Divide(c, MessageBits(a)), Divide(c, MessageBits(b));
    if Crc(start, before + a + after) == Crc(start, before + b + after) {
      XorCancels(Divide(x, MessageBits(after)), Divide(y, MessageBits(after)), ALL_ONES);
      DivideInjective(x, y, MessageBits(after));
    }
  }

  /** Two different buffers of equal length that agree outside four consecutive bytes have different checksums. */
  lemma {:induction false} NearbyDifferencesAreDetected(start: bv32, a: seq<bv8>, b: seq<bv8>, from: nat, to: nat)
    requires |a| == |b| && a != b && from <= to <= |a| && to - from <= 4
    requires a[..from] == b[..from] && a[to..] == b[to..]
    ensures Crc(start, a) != Crc(start, b)
  {
    hide Crc;
    CutOut(a, from, to);
    CutOut(b, from, to);
    BurstIsDetected(start, a[..from], a[from..to], b[from..to], a[to..]);
  }

  // The routine

  /** Continuing a division by the bits of one more byte. */
  lemma {:induction false} MoreBits(c: bv32, buf: seq<bv8>, i: nat)
    requires i < |buf|
    ensures Divide(c, MessageBits(buf[..i + 1])) == Divide(Divide(c, MessageBits(buf[..i])), ByteBits(buf[i]))
  {
    hide Divide, ByteBits;
    assert buf[..i + 1] == buf[..i] + [buf[i]];
    MessageBitsConcat(buf[..i], [buf[i]]);
    assert [buf[i]][1..] == [] && MessageBits([]) == [];
    assert MessageBits([buf[i]]) == ByteBits(buf[i]) + [];
    assert MessageBits([buf[i]]) == ByteBits(buf[i]);
    DivideConcat(c, MessageBits(buf[..i]), ByteBits(buf[i]));
  }

  // The check value

  lemma {:induction false} ByteIsShifted(c: bv32, b: bv8)
    ensures Divide(c, ByteBits(b)) == Shifts(Xor(c, b as bv32), 8)
  {
    assert ByteBits(b) == WordBits(b as bv32, 8);
    hide *;
    AddedAtOnce(c, b as bv32, 8);
    EightHalves(b as bv32);
    ByteHasNoHighBytes(b);
    XorTwice(Divide(c, WordBits(b as bv32, 8)), 0);
  }

  /** The register goes from `c` to `r` when the byte comes in. */
  ghost predicate Moves(c: bv32, b: bv8, r: bv32) {
    Divide(c, ByteBits(b)) == r
  }

  lemma {:induction false} FirstDigits()
    ensures Moves(0xFFFFFFFF, 0x31, 0x7C231048)
    ensures Moves(0x7C231048, 0x32, 0xB0ACBB32)
    ensures Moves(0xB0ACBB32, 0x33, 0x77B79C2D)
  {
    ByteIsShifted(0xFFFFFFFF, 0x31);
    ByteIsShifted(0x7C231048, 0x32);
    ByteIsShifted(0xB0ACBB32, 0x33);
    hide Divide, ByteBits;
  }

  lemma {:induction false} SecondDigits()
    ensures Moves(0x77B79C2D, 0x34, 0x641C1F5C)
    ensures Moves(0x641C1F5C, 0x35, 0x340AC5E3)
    ensures Moves(0x340AC5E3, 0x36, 0xF68D2C9E)
  {
    ByteIsShifted(0x77B79C2D, 0x34);
    ByteIsShifted(0x641C1F5C, 0x35);
    ByteIsShifted(0x340AC5E3, 0x36);
    hide Divide, ByteBits;
  }

  lemma {:induction false} ThirdDigits()
    ensures Moves(0xF68D2C9E, 0x37, 0xAFFC9660)
    ensures Moves(0xAFFC9660, 0x38, 0x651F2550)
    ensures Moves(0x651F2550, 0x39, 0x340BC6D9)
  {
    ByteIsShifted(0xF68D2C9E, 0x37);
    ByteIsShifted(0xAFFC9660, 0x38);
    ByteIsShifted(0x651F2550, 0x39);
    hide Divide, ByteBits;
  }

  lemma {:induction false} NextDigit(s: seq<bv8>, c: bv32, b: bv8, r: bv32)
    requires Divide(0xFFFF_FFFF, MessageBits(s)) == c && Moves(c, b, r)
    ensures Divide(0xFFFF_FFFF, MessageBits(s + [b])) == r
  {
    hide Divide, MessageBits, ByteBits;
    MoreBits(0xFFFF_FFFF, s + [b], |s|);
    assert (s + [b])[..|s| + 1] == s + [b] && (s + [b])[..|s|] == s;
  }

  /** The checksum of the text "123456789" is the published check value of this CRC. */
  lemma {:induction false} CheckValue()
    ensures Crc(0, [0x31, 0x32, 0x33, 0x34, 0x35, 0x36, 0x37, 0x38, 0x39]) == 0xCBF43926
  {
    NothingToDivide(0xFFFF_FFFF);
    FirstDigits();
    SecondDigits();
    ThirdDigits();
    hide Divide, MessageBits, Moves;
    var none: seq<bv8> := [];
    NextDigit(none, 0xFFFFFFFF, 0x31, 0x7C231048);
    var s1 := none + [0x31];
    NextDigit(s1, 0x7C231048, 0x32, 0xB0ACBB32);
    var s2 := s1 + [0x32];
    NextDigit(s2, 0xB0ACBB32, 0x33, 0x77B79C2D);
    var s3 := s2 + [0x33];
    NextDigit(s3, 0x77B79C2D, 0x34, 0x641C1F5C);
    var s4 := s3 + [0x34];
    NextDigit(s4, 0x641C1F5C, 0x35, 0x340AC5E3);
    var s5 := s4 + [0x35];
    NextDigit(s5, 0x340AC5E3, 0x36, 0xF68D2C9E);
    var s6 := s5 + [0x36];
    NextDigit(s6, 0xF68D2C9E, 0x37, 0xAFFC9660);
    var s7 := s6 + [0x37];
    NextDigit(s7, 0xAFFC9660, 0x38, 0x651F2550);
    var s8 := s7 + [0x38];
    NextDigit(s8, 0x651F2550, 0x39, 0x340BC6D9);
    var s9 := s8 + [0x39];
    assert s9 == [0x31, 0x32, 0x33, 0x34, 0x35, 0x36, 0x37, 0x38, 0x39];
  }

  class Crc32 {
    const table: array<bv32>

    /** The table is as the loader left it, or filled. */
    ghost predicate Valid()
      reads table
    {
      table.Length == TABLE_SIZE && (Empty() || Filled(TABLE_SIZE))
    }

    ghost predicate Empty()
      reads table
    {
      forall i | 0 <= i < table.Length :: table[i] == 0
    }

    ghost predicate Filled(n: nat)
      reads table
    {
      n <= table.Length <= TABLE_SIZE && forall i | 0 <= i < n :: table[i] == TableEntry(i as bv32)
    }

    constructor ()
      ensures Valid() && fresh(table)
    {
      table := new bv32[TABLE_SIZE](_ => 0);
    }

    /** EnsureCrc32TableInited. The "already inited" test is the last entry, which is not zero once it is filled. */
    method EnsureCrc32TableInited()
      requires Valid()
      modifies table
      ensures Valid() && Filled(TABLE_SIZE)
      ensures old(Filled(TABLE_SIZE)) ==> table[..] == old(table[..])
    {
      LastEntryIsNotZero();
      hide TableEntry;
      if table[TABLE_SIZE - 1] != 0 {
        return;
      }
      for i := 0 to TABLE_SIZE
        invariant Filled(i)
      {
        table[i] := ComputeEntry(i as bv32);
      }
    }

    /** The inner loop of EnsureCrc32TableInited. */
    method ComputeEntry(i: bv32) returns (c: bv32)
      ensures c == TableEntry(i)
    {
      hide Xor, Half, LowBit;
      c := i;
      for j := 0 to 8
        invariant Shifts(c, 8 - j) == TableEntry(i)
      {
        OneStep(c);
        if c & 1 == 1 {
          c := POLYNOMIAL ^ (c >> 1);
        } else {
          c := c >> 1;
        }
      }
    }

    /** The loop body of UpdateCrc32. */
    function Lookup(c: bv32, b: bv8): (r: bv32)
      requires Filled(TABLE_SIZE)
      reads table
      ensures r == Xor(TableEntry(LowByte(Xor(c, b as bv32))), DropByte(c))
    {
      hide TableEntry, Xor, LowByte, DropByte;
      IndexInTable(Xor(c, b as bv32));
      Xor(table[LowByte(Xor(c, b as bv32)) as int], DropByte(c))
    }

    /** UpdateCrc32. */
    method UpdateCrc32(start: bv32, buf: seq<bv8>) returns (r: bv32)
      requires Valid()
      modifies table
      ensures Valid() && r == Crc(start, buf)
    {
      EnsureCrc32TableInited();
      hide TableEntry, Divide, ByteBits, MessageBits;
      assert MessageBits(buf[..0]) == [] && Divide(Xor(start, ALL_ONES), []) == Xor(start, ALL_ONES) by {
        NothingToDivide(Xor(start, ALL_ONES));
      }
      var c := start ^ ALL_ONES;
      for i := 0 to |buf|
        invariant Valid() && Filled(TABLE_SIZE)
        invariant c == Divide(Xor(start, ALL_ONES), MessageBits(buf[..i]))
      {
        MoreBits(Xor(start, ALL_ONES), buf, i);
        ByteStep(c, buf[i]);
        DropByteOfSum(c, buf[i]);
        c := Lookup(c, buf[i]);
      }
      assert buf[..|buf|] == buf;
      r := c ^ ALL_ONES;
    }
  }

  lemma {:induction false} OneStep(c: bv32)
    ensures Shift(c) == if c & 1 == 1 then POLYNOMIAL ^ (c >> 1) else c >> 1
  {
  }

  lemma {:induction false} NothingToDivide(c: bv32)
    ensures MessageBits([]) == [] && Divide(c, []) == c
  {
  }

  lemma {:induction false} LowByteIsSmall(x: bv32)
    ensures LowByte(x) < 256
  {
  }

  lemma {:induction false} SmallWordAsIndex(x: bv32)
    requires x < 256
    ensures x as int < TABLE_SIZE && (x as int) as bv32 == x
  {
  }

  lemma {:induction false} IndexInTable(x: bv32)
    ensures LowByte(x) as int < TABLE_SIZE && (LowByte(x) as int) as bv32 == LowByte(x)
  {
    hide LowByte;
    LowByteIsSmall(x);
    SmallWordAsIndex(LowByte(x));
  }

  lemma {:induction false} LastEntryIsNotZero()
    ensures TableEntry(255) == 0x2D02EF8D
  {
  }
}
