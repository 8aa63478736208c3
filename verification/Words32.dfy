/** 32-bit words compare like their bytes, the most significant one first. */
module Words32 {

  predicate Below(x: bv32, y: bv32) { x < y }

  predicate AtMost(x: bv32, y: bv32) { x <= y }

  lemma {:induction false} BelowIsOneWay(x: bv32, y: bv32)
    ensures Below(x, y) ==> !Below(y, x) && x != y
  {
  }

  lemma {:induction false} AtMostIsNotAbove(x: bv32, y: bv32)
    ensures AtMost(x, y) <==> !Below(y, x)
  {
  }

  function TopByte(w: bv32): bv32 { w >> 24 }

  function SecondByte(w: bv32): bv32 { (w >> 16) & 0xFF }

  function ThirdByte(w: bv32): bv32 { (w >> 8) & 0xFF }

  function LowByte(w: bv32): bv32 { w & 0xFF }

  /** Of two bytes that are not below one another both are the same. */
  lemma {:induction false} SmallBetween(x: bv32, y: bv32)
    requires x <= y <= x <= 0xFF && y <= 0xFF
    ensures x == y
  {
  }

  predicate IsByte(x: bv32) { x <= 0xFF }

  lemma {:induction false} BytesAreBytes(w: bv32)
    ensures IsByte(TopByte(w)) && IsByte(SecondByte(w)) && IsByte(ThirdByte(w)) && IsByte(LowByte(w))
  {
  }

  lemma {:induction false} ByteBetween(x: bv32, y: bv32)
    requires IsByte(x) && IsByte(y) && AtMost(x, y) && AtMost(y, x)
    ensures x == y
  {
    SmallBetween(x, y);
  }

  /** Of two bytes one is the smaller unless they are the same. */
  lemma {:induction false} ByteIsTotal(x: bv32, y: bv32)
    requires IsByte(x) && IsByte(y)
    ensures if x == y then !Below(x, y) && !Below(y, x) else Below(x, y) <==> !Below(y, x)
  {
    hide *;
    AtMostIsNotAbove(x, y);
    AtMostIsNotAbove(y, x);
    if AtMost(x, y) && AtMost(y, x) {
      ByteBetween(x, y);
    }
    BelowIsOneWay(x, y);
    BelowIsOneWay(y, x);
  }

  lemma {:induction false} SameBytes(x: bv32, y: bv32)
    ensures x == y <==>
              TopByte(x) == TopByte(y) && SecondByte(x) == SecondByte(y) && ThirdByte(x) == ThirdByte(y)
              && LowByte(x) == LowByte(y)
  {
  }

  function Low24(w: bv32): bv32 { w & 0xFF_FFFF }

  function Low16(w: bv32): bv32 { w & 0xFFFF }

  lemma {:induction false} TopDecides(x: bv32, y: bv32)
    ensures Below(TopByte(x), TopByte(y)) ==> Below(x, y)
    ensures Below(x, y) ==> AtMost(TopByte(x), TopByte(y))
  {
  }

  lemma {:induction false} TopBitsTie(x: bv32, y: bv32)
    requires x >> 24 == y >> 24
    ensures (x & 0xFF_FFFF) < (y & 0xFF_FFFF) <==> (x) < (y)
  {
  }

  lemma {:induction false} TopTies(x: bv32, y: bv32)
    requires TopByte(x) == TopByte(y) && Below(Low24(x), Low24(y))
    ensures Below(x, y)
  {
    TopBitsTie(x, y);
  }

  lemma {:induction false} TopTied(x: bv32, y: bv32)
    requires TopByte(x) == TopByte(y) && Below(x, y)
    ensures Below(Low24(x), Low24(y))
  {
    TopBitsTie(x, y);
  }

  lemma {:induction false} TopFirst(x: bv32, y: bv32)
    ensures Below(x, y) <==> (Below(TopByte(x), TopByte(y)) || (TopByte(x) == TopByte(y) && Below(Low24(x), Low24(y))))
  {
    hide *;
    TopDecides(x, y);
    BytesAreBytes(x);
    BytesAreBytes(y);
    ByteIsTotal(TopByte(x), TopByte(y));
    AtMostIsNotAbove(TopByte(x), TopByte(y));
    if TopByte(x) == TopByte(y) {
      if Below(Low24(x), Low24(y)) { TopTies(x, y); }
      if Below(x, y) { TopTied(x, y); }
    }
  }

  lemma {:induction false} SecondDecides(x: bv32, y: bv32)
    ensures Below(SecondByte(x), SecondByte(y)) ==> Below(Low24(x), Low24(y))
    ensures Below(Low24(x), Low24(y)) ==> AtMost(SecondByte(x), SecondByte(y))
  {
  }

  lemma {:induction false} SecondBitsTie(x: bv32, y: bv32)
    requires (x >> 16) & 0xFF == (y >> 16) & 0xFF
    ensures (x & 0xFFFF) < (y & 0xFFFF) <==> (x & 0xFF_FFFF) < (y & 0xFF_FFFF)
  {
  }

  lemma {:induction false} SecondTies(x: bv32, y: bv32)
    requires SecondByte(x) == SecondByte(y) && Below(Low16(x), Low16(y))
    ensures Below(Low24(x), Low24(y))
  {
    SecondBitsTie(x, y);
  }

  lemma {:induction false} SecondTied(x: bv32, y: bv32)
    requires SecondByte(x) == SecondByte(y) && Below(Low24(x), Low24(y))
    ensures Below(Low16(x), Low16(y))
  {
    SecondBitsTie(x, y);
  }

  lemma {:induction false} SecondFirst(x: bv32, y: bv32)
    ensures Below(Low24(x), Low24(y)) <==>
              (Below(SecondByte(x), SecondByte(y))
               || (SecondByte(x) == SecondByte(y) && Below(Low16(x), Low16(y))))
  {
    hide *;
    SecondDecides(x, y);
    BytesAreBytes(x);
    BytesAreBytes(y);
    ByteIsTotal(SecondByte(x), SecondByte(y));
    AtMostIsNotAbove(SecondByte(x), SecondByte(y));
    if SecondByte(x) == SecondByte(y) {
      if Below(Low16(x), Low16(y)) { SecondTies(x, y); }
      if Below(Low24(x), Low24(y)) { SecondTied(x, y); }
    }
  }

  lemma {:induction false} ThirdDecides(x: bv32, y: bv32)
    ensures Below(ThirdByte(x), ThirdByte(y)) ==> Below(Low16(x), Low16(y))
    ensures Below(Low16(x), Low16(y)) ==> AtMost(ThirdByte(x), ThirdByte(y))
  {
  }

  lemma {:induction false} ThirdBitsTie(x: bv32, y: bv32)
    requires (x >> 8) & 0xFF == (y >> 8) & 0xFF
    ensures (x & 0xFF) < (y & 0xFF) <==> (x & 0xFFFF) < (y & 0xFFFF)
  {
  }

  lemma {:induction false} ThirdTies(x: bv32, y: bv32)
    requires ThirdByte(x) == ThirdByte(y) && Below(LowByte(x), LowByte(y))
    ensures Below(Low16(x), Low16(y))
  {
    ThirdBitsTie(x, y);
  }

  lemma {:induction false} ThirdTied(x: bv32, y: bv32)
    requires ThirdByte(x) == ThirdByte(y) && Below(Low16(x), Low16(y))
    ensures Below(LowByte(x), LowByte(y))
  {
    ThirdBitsTie(x, y);
  }

  lemma {:induction false} ThirdFirst(x: bv32, y: bv32)
    ensures Below(Low16(x), Low16(y)) <==>
              (Below(ThirdByte(x), ThirdByte(y))
               || (ThirdByte(x) == ThirdByte(y) && Below(LowByte(x), LowByte(y))))
  {
    hide *;
    ThirdDecides(x, y);
    BytesAreBytes(x);
    BytesAreBytes(y);
    ByteIsTotal(ThirdByte(x), ThirdByte(y));
    AtMostIsNotAbove(ThirdByte(x), ThirdByte(y));
    if ThirdByte(x) == ThirdByte(y) {
      if Below(LowByte(x), LowByte(y)) { ThirdTies(x, y); }
      if Below(Low16(x), Low16(y)) { ThirdTied(x, y); }
    }
  }

  /** Words compare like their bytes, the most significant one first. */
  lemma {:induction false} BytesCompare(x: bv32, y: bv32)
    ensures Below(x, y) <==>
              (Below(TopByte(x), TopByte(y)) || (TopByte(x) == TopByte(y)
               && (Below(SecondByte(x), SecondByte(y)) || (SecondByte(x) == SecondByte(y)
                   && (Below(ThirdByte(x), ThirdByte(y)) || (ThirdByte(x) == ThirdByte(y)
                       && Below(LowByte(x), LowByte(y))))))))
  {
    hide *;
    TopFirst(x, y);
    SecondFirst(x, y);
    ThirdFirst(x, y);
  }

  /** Of two words one is the smaller unless they are the same. */
  lemma {:induction false} BelowIsTotal(x: bv32, y: bv32)
    ensures if x == y then !Below(x, y) && !Below(y, x) else Below(x, y) <==> !Below(y, x)
  {
    hide *;
    BytesAreBytes(x);
    BytesAreBytes(y);
    BytesCompare(x, y);
    BytesCompare(y, x);
    ByteIsTotal(TopByte(x), TopByte(y));
    ByteIsTotal(SecondByte(x), SecondByte(y));
    ByteIsTotal(ThirdByte(x), ThirdByte(y));
    ByteIsTotal(LowByte(x), LowByte(y));
    SameBytes(x, y);
  }
}
