/** IPAddress: prefixes, their lengths, and the order of addresses. Words are in host order; the address bytes of
    IPv6 are those of its words, the most significant one first. */
module IpAddress {
  import opened CText
  import opened Words32

  type Words = w: seq<bv32> | |w| == 4 witness [0, 0, 0, 0]

  const ONES: bv32 := 0xFFFF_FFFF

  datatype IPAddress = Unspec | V4(word: bv32) | V6(words: Words)

  // Words and masks

  function And(a: bv32, b: bv32): bv32 { a & b }

  /** Ones, but for the `k` low bits. */
  function ClearLow(k: bv6): bv32
    requires k <= 32
  {
    ONES << k
  }

  function BitAt(w: bv32, s: bv6): bv32
    requires s < 32
  {
    (w >> s) & 1
  }

  /** A count of low bits as a shift distance. */
  function Shift(n: nat): (k: bv6)
    requires n <= 32
    ensures k <= 32
  {
    n as bv6
  }

  lemma {:induction false} ShiftGrows(m: nat, n: nat)
    requires m < n <= 32
    ensures Shift(m) < Shift(n)
  {
  }

  lemma {:induction false} ShiftOrder(m: nat, n: nat)
    requires m <= 32 && n <= 32
    ensures m < n <==> Shift(m) < Shift(n)
  {
    hide Shift;
    if m < n {
      ShiftGrows(m, n);
    } else if n < m {
      ShiftGrows(n, m);
    }
  }

  lemma {:induction false} AndOnes(w: bv32)
    ensures And(w, ONES) == w && And(w, 0) == 0 && And(ONES, w) == w
  {
  }

  lemma {:induction false} ClearLowEnds()
    ensures ClearLow(0) == ONES && ClearLow(32) == 0
  {
  }

  lemma {:induction false} BitOfAnd(w: bv32, m: bv32, s: bv6)
    requires s < 32
    ensures BitAt(And(w, m), s) == And(BitAt(w, s), BitAt(m, s))
  {
  }

  lemma {:induction false} BitOfMask(k: bv6, s: bv6)
    requires k <= 32 && s < 32
    ensures BitAt(ClearLow(k), s) == if s < k then 0 else 1
  {
  }

  lemma {:induction false} BitOfBit(w: bv32, s: bv6)
    requires s < 32
    ensures And(BitAt(w, s), 1) == BitAt(w, s) && And(BitAt(w, s), 0) == 0
  {
  }

  lemma {:induction false} MasksMeet(w: bv32, j: bv6, k: bv6)
    requires j <= k <= 32
    ensures And(And(w, ClearLow(j)), ClearLow(k)) == And(w, ClearLow(k))
    ensures And(And(w, ClearLow(k)), ClearLow(j)) == And(w, ClearLow(k))
  {
  }

  // Truncation

  /** The `n` high bits of a word. */
  function Mask(n: nat): bv32
    requires n <= 32
  {
    ClearLow(Shift(32 - n))
  }

  /** How many of the first `length` bits lie in the i-th word. */
  function Share(length: int, i: nat): (n: nat)
    ensures n <= 32
  {
    if length <= 32 * i then 0 else if length >= 32 * i + 32 then 32 else length - 32 * i
  }

  function Truncated(w: seq<bv32>, length: int): (r: seq<bv32>)
    ensures |r| == |w|
    ensures forall i | 0 <= i < |w| :: r[i] == And(w[i], Mask(Share(length, i)))
  {
    seq(|w|, i requires 0 <= i < |w| => And(w[i], Mask(Share(length, i))))
  }

  /** Every word keeps its share of the first `length` bits. */
  function Truncate(ip: IPAddress, length: int): IPAddress {
    if length < 0 then Unspec
    else
      match ip
      case Unspec => Unspec
      case V4(w) => V4(And(w, Mask(Share(length, 0))))
      case V6(w) => V6(Truncated(w, length))
  }

  lemma {:induction false} MaskEnds(w: bv32)
    ensures And(w, Mask(0)) == 0 && And(w, Mask(32)) == w
  {
    hide And, ClearLow;
    ClearLowEnds();
    AndOnes(w);
  }

  method TruncateIP(ip: IPAddress, length: int) returns (r: IPAddress)
    ensures r == Truncate(ip, length)
  {
    hide And, ClearLow, Shift, Truncated;
    if length < 0 {
      return Unspec;
    }
    match ip {
      case V4(word) =>
        MaskEnds(word);
        if length > 31 {
          return ip;
        }
        if length == 0 {
          return V4(0);
        }
        var mask := ClearLow(Shift(32 - length));
        return V4(And(word, mask));
      case V6(words) =>
        if length > 127 {
          WholeIsKept(words, length);
          return ip;
        }
        if length == 0 {
          NothingIsKept(words);
          return V6([0, 0, 0, 0]);
        }
        var w := TruncateWords(words, length);
        return V6(w);
      case Unspec =>
        return Unspec;
    }
  }

  /** The loop over the words of an IPv6 address. */
  method TruncateWords(words: Words, length: nat) returns (w: Words)
    requires 0 < length < 128
    ensures w == Truncated(words, length)
  {
    hide And, ClearLow, Shift;
    w := words;
    var position := length / 32;
    var innerLength := 32 - (length - position * 32);
    var innerMask := ClearLow(Shift(innerLength));
    for i := 0 to 4
      invariant forall j | i <= j < 4 :: w[j] == words[j]
      invariant forall j | 0 <= j < i :: w[j] == And(words[j], Mask(Share(length, j)))
    {
      MaskEnds(words[i]);
      if i == position {
        w := w[i := And(w[i], innerMask)];
      } else if i > position {
        w := w[i := 0];
      }
    }
  }

  lemma {:induction false} WholeIsKept(w: Words, length: int)
    requires length >= 128
    ensures Truncated(w, length) == w
  {
    hide And, Mask;
    forall i | 0 <= i < 4 ensures Truncated(w, length)[i] == w[i] {
      MaskEnds(w[i]);
    }
  }

  lemma {:induction false} NothingIsKept(w: Words)
    ensures Truncated(w, 0) == [0, 0, 0, 0]
  {
    hide And, Mask;
    forall i | 0 <= i < 4 ensures Truncated(w, 0)[i] == 0 {
      MaskEnds(w[i]);
    }
  }

  // What is kept

  /** The i-th bit of an address, counted from the most significant one. */
  function AddressBit(ip: IPAddress, i: nat): bv32
    requires ip.V4? ==> i < 32
    requires ip.V6? ==> i < 128
  {
    match ip
    case Unspec => 0
    case V4(w) => Bit(w, i)
    case V6(w) => Bit(w[i / 32], i % 32)
  }

  function Bit(w: bv32, i: nat): bv32
    requires i < 32
  {
    ShiftOrder(31 - i, 32);
    BitAt(w, Shift(31 - i))
  }

  lemma {:induction false} MaskKeeps(w: bv32, n: nat, i: nat)
    requires n <= 32 && i < 32
    ensures Bit(And(w, Mask(n)), i) == if i < n then Bit(w, i) else 0
  {
    hide And, ClearLow, BitAt, Shift;
    var k := Shift(32 - n);
    ShiftOrder(31 - i, 32);
    ShiftOrder(31 - i, 32 - n);
    var s := Shift(31 - i);
    BitOfAnd(w, ClearLow(k), s);
    BitOfMask(k, s);
    BitOfBit(w, s);
  }

  /** Truncation keeps the first `length` bits and clears the others. */
  lemma {:induction false} TruncationKeepsPrefix(ip: IPAddress, length: nat, i: nat)
    requires ip.V4? ==> i < 32
    requires ip.V6? ==> i < 128
    ensures AddressBit(Truncate(ip, length), i) == if i < length then AddressBit(ip, i) else 0
  {
    hide And, Mask, Bit;
    match ip {
      case V4(w) =>
        MaskKeeps(w, Share(length, 0), i);
      case V6(w) =>
        MaskKeeps(w[i / 32], Share(length, i / 32), i % 32);
      case Unspec =>
    }
  }

  // Truncations compose

  lemma {:induction false} MaskTwice(w: bv32, m: nat, n: nat)
    requires m <= 32 && n <= 32
    ensures And(And(w, Mask(m)), Mask(n)) == And(w, Mask(Min(m, n)))
  {
    hide And, ClearLow, Shift;
    ShiftOrder(32 - m, 32 - n);
    ShiftOrder(32 - n, 32 - m);
    if m <= n {
      MasksMeet(w, Shift(32 - n), Shift(32 - m));
    } else {
      MasksMeet(w, Shift(32 - m), Shift(32 - n));
    }
  }

  /** Truncating twice is truncating to the shorter length. */
  lemma {:induction false} TruncationsCompose(ip: IPAddress, a: nat, b: nat)
    ensures Truncate(Truncate(ip, a), b) == Truncate(ip, Min(a, b))
  {
    hide And, Mask, Truncated;
    match ip {
      case V4(w) =>
        MaskTwice(w, Share(a, 0), Share(b, 0));
      case V6(w) =>
        forall i | 0 <= i < 4 ensures Truncated(Truncated(w, a), b)[i] == Truncated(w, Min(a, b))[i] {
          MaskTwice(w[i], Share(a, i), Share(b, i));
        }
      case Unspec =>
    }
  }

  // The order of addresses

  /** memcmp(...) < 0 for pieces of memory of the same size, and the same comparison word by word. */
  predicate Precedes(s: seq<bv32>, t: seq<bv32>)
    requires |s| == |t|
  {
    s != [] && (Below(s[0], t[0]) || (s[0] == t[0] && Precedes(s[1..], t[1..])))
  }

  /** The bytes of words in memory. */
  function Bytes(w: seq<bv32>): (s: seq<bv32>)
    ensures |s| == 4 * |w|
  {
    if w == [] then []
    else [TopByte(w[0])] + ([SecondByte(w[0])] + ([ThirdByte(w[0])] + ([LowByte(w[0])] + Bytes(w[1..]))))
  }

  /** operator<. */
  predicate Less(a: IPAddress, b: IPAddress) {
    match (a, b)
    case (V4(x), V4(y)) => Below(x, y)
    case (V6(x), V6(y)) => Precedes(Bytes(x), Bytes(y))
    case (Unspec, V4(_)) => true
    case (Unspec, V6(_)) => true
    case (V4(_), V6(_)) => true
    case _ => false
  }

  lemma {:induction false} PrecedesFirst(a: bv32, s: seq<bv32>, b: bv32, t: seq<bv32>)
    requires |s| == |t|
    ensures Precedes([a] + s, [b] + t) <==> Below(a, b) || (a == b && Precedes(s, t))
  {
    hide Below;
    assert ([a] + s)[1..] == s && ([b] + t)[1..] == t;
  }

  /** One word in memory order compares like the word. */
  lemma {:induction false} WordCompares(x: bv32, y: bv32, s: seq<bv32>, t: seq<bv32>)
    requires |s| == |t|
    ensures Precedes([TopByte(x)] + ([SecondByte(x)] + ([ThirdByte(x)] + ([LowByte(x)] + s))),
                     [TopByte(y)] + ([SecondByte(y)] + ([ThirdByte(y)] + ([LowByte(y)] + t))))
            <==> Below(x, y) || (x == y && Precedes(s, t))
  {
    hide *;
    PrecedesFirst(LowByte(x), s, LowByte(y), t);
    PrecedesFirst(ThirdByte(x), [LowByte(x)] + s, ThirdByte(y), [LowByte(y)] + t);
    PrecedesFirst(SecondByte(x), [ThirdByte(x)] + ([LowByte(x)] + s),
                  SecondByte(y), [ThirdByte(y)] + ([LowByte(y)] + t));
    PrecedesFirst(TopByte(x), [SecondByte(x)] + ([ThirdByte(x)] + ([LowByte(x)] + s)),
                  TopByte(y), [SecondByte(y)] + ([ThirdByte(y)] + ([LowByte(y)] + t)));
    BytesCompare(x, y);
    SameBytes(x, y);
  }

  /** Comparing the bytes of addresses compares their words. */
  lemma {:induction false} MemoryOrder(x: seq<bv32>, y: seq<bv32>)
    requires |x| == |y|
    ensures Precedes(Bytes(x), Bytes(y)) <==> Precedes(x, y)
  {
    hide Below, TopByte, SecondByte, ThirdByte, LowByte;
    if x != [] {
      hide Precedes;
      WordCompares(x[0], y[0], Bytes(x[1..]), Bytes(y[1..]));
      MemoryOrder(x[1..], y[1..]);
      PrecedesFirst(x[0], x[1..], y[0], y[1..]);
      assert [x[0]] + x[1..] == x && [y[0]] + y[1..] == y;
    }
  }

  // Truncation keeps the order

  /** Ones, then zeros. */
  predicate IsPrefix(m: bv32) { !m & (!m + 1) == 0 }

  lemma {:induction false} PrefixIsMonotone(x: bv32, y: bv32, m: bv32)
    requires !m & (!m + 1) == 0 && x <= y
    ensures x & m <= y & m
  {
  }

  lemma {:induction false} PrefixKeepsAtMost(x: bv32, y: bv32, m: bv32)
    requires IsPrefix(m) && AtMost(x, y)
    ensures AtMost(x & m, y & m)
  {
    PrefixIsMonotone(x, y, m);
  }

  lemma {:induction false} ClearLowIsPrefix(k: bv6)
    requires k <= 32
    ensures IsPrefix(ClearLow(k))
  {
  }

  lemma {:induction false} AndIs(w: bv32, m: bv32)
    ensures And(w, m) == w & m
  {
  }

  lemma {:induction false} MaskIsMonotone(x: bv32, y: bv32, k: bv6)
    requires k <= 32 && AtMost(x, y)
    ensures AtMost(And(x, ClearLow(k)), And(y, ClearLow(k)))
  {
    hide *;
    var m := ClearLow(k);
    ClearLowIsPrefix(k);
    PrefixKeepsAtMost(x, y, m);
    AndIs(x, m);
    AndIs(y, m);
  }

  lemma {:induction false} MaskedBelow(x: bv32, y: bv32, k: bv6)
    requires k <= 32 && Below(x, y)
    ensures var m := ClearLow(k); And(x, m) == And(y, m) || Below(And(x, m), And(y, m))
  {
    hide Below, AtMost, And, ClearLow;
    var a, b := And(x, ClearLow(k)), And(y, ClearLow(k));
    AtMostIsNotAbove(x, y);
    BelowIsOneWay(x, y);
    MaskIsMonotone(x, y, k);
    AtMostIsNotAbove(a, b);
    BelowIsTotal(a, b);
  }

  lemma {:induction false} MaskOrder(x: bv32, y: bv32, n: nat)
    requires n <= 32 && Below(x, y)
    ensures And(x, Mask(n)) == And(y, Mask(n)) || Below(And(x, Mask(n)), And(y, Mask(n)))
  {
    hide Below, And, ClearLow, Shift;
    MaskedBelow(x, y, Shift(32 - n));
  }

  /** `u` is `x`, truncated, when `x` is what an address has from its i-th word on. */
  predicate IsTruncated(u: seq<bv32>, x: seq<bv32>, length: int, i: nat)
    requires |u| == |x|
  {
    forall k | 0 <= k < |x| :: u[k] == And(x[k], Mask(Share(length, i + k)))
  }

  lemma {:induction false} TruncatedRest(u: seq<bv32>, x: seq<bv32>, length: int, i: nat)
    requires |u| == |x| && x != [] && IsTruncated(u, x, length, i)
    ensures u[0] == And(x[0], Mask(Share(length, i))) && IsTruncated(u[1..], x[1..], length, i + 1)
  {
    hide And, Mask, Share;
    assert u[0] == And(x[0], Mask(Share(length, i + 0)));
    forall k | 0 <= k < |x| - 1 ensures u[1..][k] == And(x[1..][k], Mask(Share(length, i + 1 + k))) {
      assert u[k + 1] == And(x[k + 1], Mask(Share(length, i + (k + 1))));
    }
  }

  /** Once a word has lost a bit the words behind it have lost all of theirs. */
  lemma {:induction false} RestIsCleared(u: seq<bv32>, x: seq<bv32>, length: int, i: nat)
    requires |u| == |x| && IsTruncated(u, x, length, i) && length <= 32 * i
    ensures u == seq(|u|, _ => 0)
  {
    hide And, Mask;
    forall k | 0 <= k < |x| ensures u[k] == 0 {
      MaskEnds(x[k]);
    }
  }

  lemma {:induction false} WordsKeepOrder(x: seq<bv32>, y: seq<bv32>, u: seq<bv32>, v: seq<bv32>, length: int, i: nat)
    requires |x| == |y| == |u| == |v| && IsTruncated(u, x, length, i) && IsTruncated(v, y, length, i)
    requires Precedes(x, y)
    ensures u == v || Precedes(u, v)
  {
    hide And, Mask, Below, IsTruncated;
    TruncatedRest(u, x, length, i);
    TruncatedRest(v, y, length, i);
    BelowIsTotal(x[0], y[0]);
    assert u == [u[0]] + u[1..] && v == [v[0]] + v[1..];
    if x[0] == y[0] {
      WordsKeepOrder(x[1..], y[1..], u[1..], v[1..], length, i + 1);
    } else {
      MaskOrder(x[0], y[0], Share(length, i));
      if u[0] == v[0] {
        MaskEnds(x[0]);
        MaskEnds(y[0]);
        RestIsCleared(u[1..], x[1..], length, i + 1);
        RestIsCleared(v[1..], y[1..], length, i + 1);
      }
    }
  }

  /** Truncation is monotone: a smaller address never becomes the greater one. */
  lemma {:induction false} TruncationIsMonotone(a: IPAddress, b: IPAddress, length: int)
    requires Less(a, b)
    ensures Truncate(a, length) == Truncate(b, length) || Less(Truncate(a, length), Truncate(b, length))
  {
    hide And, Mask, Share, Precedes, Bytes, Below;
    if length >= 0 && a.V4? && b.V4? {
      MaskOrder(a.word, b.word, Share(length, 0));
    } else if length >= 0 && a.V6? && b.V6? {
      var u, v := Truncated(a.words, length), Truncated(b.words, length);
      MemoryOrder(a.words, b.words);
      MemoryOrder(u, v);
      WordsKeepOrder(a.words, b.words, u, v, length, 0);
    }
  }

  lemma {:induction false} PrecedesIsTotal(x: seq<bv32>, y: seq<bv32>)
    requires |x| == |y|
    ensures if x == y then !Precedes(x, y) && !Precedes(y, x) else Precedes(x, y) <==> !Precedes(y, x)
  {
    hide Below;
    if x != [] {
      BelowIsTotal(x[0], y[0]);
      PrecedesIsTotal(x[1..], y[1..]);
      assert x == [x[0]] + x[1..] && y == [y[0]] + y[1..];
    }
  }

  /** operator< is a strict total order: of two different addresses one is the smaller. */
  lemma {:induction false} LessIsTotal(a: IPAddress, b: IPAddress)
    ensures if a == b then !Less(a, b) && !Less(b, a) else Less(a, b) <==> !Less(b, a)
  {
    hide Precedes, Bytes, Below;
    if a.V6? && b.V6? {
      MemoryOrder(a.words, b.words);
      MemoryOrder(b.words, a.words);
      PrecedesIsTotal(a.words, b.words);
    } else if a.V4? && b.V4? {
      BelowIsTotal(a.word, b.word);
    }
  }

  /** The first difference decides. */
  ghost predicate DiffersAt(x: seq<bv32>, y: seq<bv32>, i: nat)
    requires |x| == |y|
  {
    i < |x| && x[..i] == y[..i] && x[i] < y[i]
  }

  lemma {:induction false} DifferenceDecides(x: seq<bv32>, y: seq<bv32>, i: nat)
    requires |x| == |y| && DiffersAt(x, y, i)
    ensures Precedes(x, y)
  {
    if i > 0 {
      assert x[0] == x[..i][0] == y[..i][0] == y[0];
      assert x[1..][..i - 1] == x[..i][1..] == y[..i][1..] == y[1..][..i - 1];
      DifferenceDecides(x[1..], y[1..], i - 1);
    }
  }

  lemma {:induction false} DifferenceIsThere(x: seq<bv32>, y: seq<bv32>) returns (i: nat)
    requires |x| == |y| && Precedes(x, y)
    ensures DiffersAt(x, y, i)
  {
    hide DiffersAt, Below;
    if Below(x[0], y[0]) {
      FirstDiffers(x, y);
      i := 0;
    } else {
      var j := DifferenceIsThere(x[1..], y[1..]);
      LaterDiffers(x, y, j);
      i := j + 1;
    }
  }

  lemma {:induction false} FirstDiffers(x: seq<bv32>, y: seq<bv32>)
    requires |x| == |y| && x != [] && Below(x[0], y[0])
    ensures DiffersAt(x, y, 0)
  {
  }

  lemma {:induction false} LaterDiffers(x: seq<bv32>, y: seq<bv32>, i: nat)
    requires |x| == |y| && x != [] && x[0] == y[0] && DiffersAt(x[1..], y[1..], i)
    ensures DiffersAt(x, y, i + 1)
  {
    assert x[..i + 1] == [x[0]] + x[1..][..i] && y[..i + 1] == [y[0]] + y[1..][..i];
  }

  lemma {:induction false} WordsDecide(x: seq<bv32>, y: seq<bv32>)
    requires |x| == |y|
    ensures Precedes(Bytes(x), Bytes(y)) <==> exists i: nat :: DiffersAt(x, y, i)
  {
    hide Precedes, Bytes, DiffersAt;
    MemoryOrder(x, y);
    if Precedes(x, y) {
      var _ := DifferenceIsThere(x, y);
    }
    if i: nat :| DiffersAt(x, y, i) {
      DifferenceDecides(x, y, i);
    }
  }

  /** The order of addresses: none before IPv4 before IPv6, and in a family the number that the address is. */
  lemma {:induction false} LessMeans(a: IPAddress, b: IPAddress)
    ensures a.Unspec? ==> (Less(a, b) <==> !b.Unspec?)
    ensures a.V4? ==> (Less(a, b) <==> b.V6? || (b.V4? && a.word < b.word))
    ensures a.V6? ==> (Less(a, b) <==> b.V6? && exists i: nat :: DiffersAt(a.words, b.words, i))
  {
    hide DiffersAt, Less;
    LessOfSix(a, b);
    LessOfFour(a, b);
    FamiliesDecide(a, b);
  }

  lemma {:induction false} LessOfSix(a: IPAddress, b: IPAddress)
    ensures a.V6? && b.V6? ==> (Less(a, b) <==> exists i: nat :: DiffersAt(a.words, b.words, i))
  {
    hide Precedes, Bytes, DiffersAt, Below;
    if a.V6? && b.V6? {
      WordsDecide(a.words, b.words);
    }
  }

  lemma {:induction false} LessOfFour(a: IPAddress, b: IPAddress)
    ensures a.V4? && b.V4? ==> (Less(a, b) <==> a.word < b.word)
  {
    hide Precedes, Bytes;
  }

  lemma {:induction false} FamiliesDecide(a: IPAddress, b: IPAddress)
    ensures !(a.V4? && b.V4?) && !(a.V6? && b.V6?) ==>
              (Less(a, b) <==> (a.Unspec? && !b.Unspec?) || (a.V4? && b.V6?))
  {
    hide Precedes, Bytes, Below;
  }

  // Counting mask bits

  lemma {:induction false} HalfIsSmaller(w: bv32)
    requires w != 0 && w & 1 != 1
    ensures w >> 1 < w && w >> 1 != 0
  {
  }

  /** How many zero bits a word ends with. */
  function TrailingZeros(w: bv32): nat
    requires w != 0
    decreases w
  {
    if w & 1 == 1 then 0 else HalfIsSmaller(w); 1 + TrailingZeros(w >> 1)
  }

  /** The lowest one of a word, alone. */
  function Isolate(w: bv32): bv32 {
    w & (0 - w)
  }

  /** The position of a single one: each mask selects the positions that lack one binary digit. */
  function Position(v: bv32): (z: nat)
    ensures z <= 31
  {
    31 - (if v & 0x0000_FFFF != 0 then 16 else 0) - (if v & 0x00FF_00FF != 0 then 8 else 0)
    - (if v & 0x0F0F_0F0F != 0 then 4 else 0) - (if v & 0x3333_3333 != 0 then 2 else 0)
    - (if v & 0x5555_5555 != 0 then 1 else 0)
  }

  predicate IsSingle(v: bv32) {
    v != 0 && v & (v - 1) == 0
  }

  predicate TopIsFree(v: bv32) {
    v < 0x8000_0000
  }

  lemma {:induction false} PositionOfOne()
    ensures Position(1) == 0
  {
  }

  lemma {:induction false} PositionDoubles(v: bv32)
    requires IsSingle(v) && TopIsFree(v)
    ensures Position(v << 1) == Position(v) + 1
  {
  }

  lemma {:induction false} IsolateOdd(w: bv32)
    requires w & 1 == 1
    ensures Isolate(w) == 1
  {
  }

  lemma {:induction false} IsolateEven(w: bv32)
    requires w != 0 && w & 1 != 1
    ensures Isolate(w) == Isolate(w >> 1) << 1
    ensures IsSingle(Isolate(w >> 1)) && TopIsFree(Isolate(w >> 1))
  {
  }

  /** The bit tricks count the trailing zeros of every word. */
  lemma {:induction false} TrickCounts(w: bv32)
    requires w != 0
    ensures Position(Isolate(w)) == TrailingZeros(w)
    decreases w
  {
    hide Isolate, Position, IsSingle, TopIsFree;
    if w & 1 == 1 {
      IsolateOdd(w);
      PositionOfOne();
    } else {
      HalfIsSmaller(w);
      IsolateEven(w);
      PositionDoubles(Isolate(w >> 1));
      TrickCounts(w >> 1);
    }
  }

  /** The number of ones in front of the first zero of a mask. */
  function PrefixBits(w: seq<bv32>): int {
    if w == [] then 0
    else if w[0] == ONES then 32 + PrefixBits(w[1..])
    else if w[0] == 0 then 0
    else 32 - TrailingZeros(w[0])
  }

  function MaskBits(mask: IPAddress): int {
    match mask
    case Unspec => 0
    case V4(w) => PrefixBits([w])
    case V6(w) => PrefixBits(w)
  }

  lemma {:induction false} OnesEnd()
    ensures ONES & 1 == 1 && ONES != 0
  {
  }

  method CountIPMaskBits(mask: IPAddress) returns (r: int)
    ensures r == MaskBits(mask)
    ensures mask.V4? ==> r == if mask.word == 0 then 0 else 32 - TrailingZeros(mask.word)
  {
    hide Position, Isolate, TrailingZeros;
    var wordToCount: bv32 := 0;
    var bits := 0;
    match mask {
      case V4(word) =>
        wordToCount := word;
        assert word == ONES ==> TrailingZeros(word) == 0 by { OnesHaveNoZeros(); }
      case V6(words) =>
        var i := 0;
        assert words[0..] == words;
        while i < 4 && words[i] == ONES
          invariant i <= 4 && 32 * i + PrefixBits(words[i..]) == PrefixBits(words)
        {
          assert words[i..][1..] == words[i + 1..];
          i := i + 1;
        }
        if i < 4 {
          wordToCount := words[i];
        }
        bits := i * 32;
      case Unspec =>
        return 0;
    }
    if wordToCount == 0 {
      return bits;
    }
    var zeroes := CountZeroes(wordToCount);
    return bits + (32 - zeroes);
  }

  lemma {:induction false} OnesHaveNoZeros()
    ensures TrailingZeros(ONES) == 0
  {
    OnesEnd();
  }

  /** The chain of tests on the lowest one of a word. */
  method CountZeroes(word: bv32) returns (zeroes: int)
    requires word != 0
    ensures zeroes == TrailingZeros(word)
  {
    hide TrailingZeros;
    zeroes := 32;
    var w := Isolate(word);
    TrickCounts(word);
    IsolatedIsOne(word);
    if w != 0 { zeroes := zeroes - 1; }
    if w & 0x0000_FFFF != 0 { zeroes := zeroes - 16; }
    if w & 0x00FF_00FF != 0 { zeroes := zeroes - 8; }
    if w & 0x0F0F_0F0F != 0 { zeroes := zeroes - 4; }
    if w & 0x3333_3333 != 0 { zeroes := zeroes - 2; }
    if w & 0x5555_5555 != 0 { zeroes := zeroes - 1; }
  }

  lemma {:induction false} IsolatedIsOne(w: bv32)
    requires w != 0
    ensures Isolate(w) != 0
  {
  }

  // Counting inverts truncation

  lemma {:induction false} BitOfHalf(w: bv32, s: bv6)
    requires s < 31
    ensures BitAt(w >> 1, s) == BitAt(w, s + 1)
  {
  }

  lemma {:induction false} LastBit(w: bv32)
    ensures BitAt(w, 0) == w & 1
  {
  }

  lemma {:induction false} ShiftNext(n: nat)
    requires n < 32
    ensures Shift(n + 1) == Shift(n) + 1
  {
  }

  lemma {:induction false} ShiftEnds()
    ensures Shift(0) == 0 && Shift(31) == 31 && Shift(32) == 32
  {
  }

  lemma {:induction false} BitIsBit(w: bv32, s: bv6)
    requires s < 32
    ensures BitAt(w, s) == 0 || BitAt(w, s) == 1
    ensures BitAt(0, s) == 0
  {
  }

  ghost predicate ClearBelow(w: bv32, k: bv6) {
    forall s: bv6 | s < 32 && s < k :: BitAt(w, s) == 0
  }

  /** The first one is where the bits below it are clear. */
  lemma {:induction false} FirstOne(w: bv32, k: nat)
    requires k < 32 && ClearBelow(w, Shift(k)) && Shift(k) < 32 && BitAt(w, Shift(k)) == 1
    ensures w != 0 && TrailingZeros(w) == k
  {
    hide BitAt, Shift;
    BitIsBit(w, Shift(k));
    LastBit(w);
    ShiftEnds();
    if k > 0 {
      ShiftGrows(0, k);
      assert BitAt(w, 0) == 0;
      ShiftNext(k - 1);
      ShiftOrder(k - 1, 31);
      var half := w >> 1;
      forall s: bv6 | s < 32 && s < Shift(k - 1) ensures BitAt(half, s) == 0 {
        assert s + 1 < Shift(k);
        BitOfHalf(w, s);
      }
      BitOfHalf(w, Shift(k - 1));
      FirstOne(half, k - 1);
    }
  }

  /** A mask of `n` bits, if it has any, ends with 32 - n zeros. */
  lemma {:induction false} MaskZeros(n: nat)
    requires 0 < n <= 32
    ensures Mask(n) != 0 && TrailingZeros(Mask(n)) == 32 - n
  {
    hide BitAt, ClearLow, Shift, TrailingZeros;
    var k := Shift(32 - n);
    ShiftEnds();
    ShiftOrder(32 - n, 32);
    forall s: bv6 | s < 32 && s < k ensures BitAt(ClearLow(k), s) == 0 {
      BitOfMask(k, s);
    }
    BitOfMask(k, k);
    FirstOne(ClearLow(k), 32 - n);
  }

  lemma {:induction false} MaskOfOnes(n: nat)
    requires n <= 32
    ensures And(ONES, Mask(n)) == Mask(n)
    ensures Mask(n) == ONES <==> n == 32
    ensures Mask(n) == 0 <==> n == 0
  {
    hide And, Mask, TrailingZeros;
    MaskEnds(ONES);
    AndOnes(Mask(n));
    OnesHaveNoZeros();
    AndIsSymmetric(ONES, Mask(n));
    AndOnes(Mask(0));
    AndOnes(Mask(32));
    if n > 0 {
      MaskZeros(n);
    }
  }

  lemma {:induction false} AndIsSymmetric(a: bv32, b: bv32)
    ensures And(a, b) == And(b, a)
  {
  }

  lemma {:induction false} MaskWordsCount(u: seq<bv32>, x: seq<bv32>, n: nat, i: nat)
    requires |u| == |x| && IsTruncated(u, x, n, i) && 32 * i <= n <= 32 * (i + |u|)
    requires forall k | 0 <= k < |x| :: x[k] == ONES
    ensures PrefixBits(u) == n - 32 * i
  {
    hide And, Mask, IsTruncated, TrailingZeros;
    if u != [] {
      TruncatedRest(u, x, n, i);
      MaskOfOnes(Share(n, i));
      if n >= 32 * (i + 1) {
        MaskWordsCount(u[1..], x[1..], n, i + 1);
      } else if n > 32 * i {
        MaskZeros(n - 32 * i);
      }
    }
  }

  function AllOnes(six: bool): IPAddress {
    if six then V6([ONES, ONES, ONES, ONES]) else V4(ONES)
  }

  function Width(six: bool): nat {
    if six then 128 else 32
  }

  /** The count of the all-ones address truncated to n bits is n, for every n. */
  lemma {:induction false} CountInvertsTruncation(six: bool, n: nat)
    requires n <= Width(six)
    ensures MaskBits(Truncate(AllOnes(six), n)) == n
  {
    hide And, Mask, PrefixBits;
    if six {
      var x: Words := [ONES, ONES, ONES, ONES];
      MaskWordsCount(Truncated(x, n), x, n, 0);
    } else {
      MaskWordsCount([And(ONES, Mask(Share(n, 0)))], [ONES], n, 0);
    }
  }

  predicate IsMask(mask: IPAddress, six: bool) {
    exists n: nat | n <= Width(six) :: mask == Truncate(AllOnes(six), n)
  }

  /** An address is a mask exactly when its count gives it back. */
  lemma {:induction false} MaskIff(mask: IPAddress, six: bool)
    ensures IsMask(mask, six) <==>
              0 <= MaskBits(mask) <= Width(six) && mask == Truncate(AllOnes(six), MaskBits(mask))
  {
    hide MaskBits, Truncate;
    if IsMask(mask, six) {
      var n: nat :| n <= Width(six) && mask == Truncate(AllOnes(six), n);
      CountInvertsTruncation(six, n);
    }
  }
}
