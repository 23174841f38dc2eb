/** The number that a 32-bit word stands for, through the operations of a reader of digits. */
module Words {
  type Word = bv32

  function Number(w: Word): (n: nat)
    ensures n <= 0xffff_ffff
  {
    w as int
  }

  function Plus(a: Word, b: Word): Word {
    a + b
  }

  function Twice(w: Word): Word {
    w << 1
  }

  function TenTimes(w: Word): Word {
    w * 10
  }

  function SixteenTimes(w: Word): Word {
    w * 16
  }

  function TwiceAndOne(w: Word): Word {
    (w << 1) | 1
  }

  function Half(w: Word): Word {
    w >> 1
  }

  predicate IsEven(w: Word) {
    w & 1 == 0
  }

  /** Twice the word does not wrap around. */
  predicate CanDouble(w: Word) {
    w < 0x8000_0000
  }

  predicate IsLast(w: Word) {
    w == 0xffff_ffff
  }

  lemma SameNumber(a: Word, b: Word)
    requires Number(a) == Number(b)
    ensures a == b
  {
    assert (a as int) as Word == a && (b as int) as Word == b;
  }

  // ---- Adding ----

  lemma Doubling(w: Word)
    requires CanDouble(w)
    ensures Number(Twice(w)) == 2 * Number(w)
    ensures Number(TwiceAndOne(w)) == 2 * Number(w) + 1
  {
  }

  lemma AddOne(w: Word)
    ensures Plus(Twice(w), 1) == TwiceAndOne(w)
  {
  }

  lemma EvenHalf(w: Word)
    requires IsEven(w)
    ensures w == Twice(Half(w)) && CanDouble(Half(w))
  {
  }

  lemma OddHalf(w: Word)
    requires !IsEven(w)
    ensures w == TwiceAndOne(Half(w)) && CanDouble(Half(w)) && Half(w) < w
    ensures !IsLast(w) ==> CanDouble(Plus(Half(w), 1)) && !IsLast(Half(w))
  {
  }

  lemma OddNext(w: Word)
    requires !IsEven(w)
    ensures Plus(w, 1) == Twice(Plus(Half(w), 1))
  {
  }

  lemma {:induction false} Successor(w: Word)
    requires !IsLast(w)
    ensures Number(Plus(w, 1)) == Number(w) + 1
    decreases w
  {
    hide Number, Plus, Twice, TwiceAndOne, Half, IsEven, CanDouble, IsLast;
    if IsEven(w) {
      EvenHalf(w);
      AddOne(Half(w));
      Doubling(Half(w));
    } else {
      OddHalf(w);
      OddNext(w);
      Doubling(Half(w));
      Successor(Half(w));
      Doubling(Plus(Half(w), 1));
    }
  }

  lemma Predecessor(w: Word)
    requires w != 0
    ensures w - 1 < w && Plus(w - 1, 1) == w && !IsLast(w - 1)
  {
  }

  lemma AddNext(a: Word, b: Word)
    ensures Plus(Plus(a, b - 1), 1) == Plus(a, b)
  {
  }

  lemma AddZero(a: Word)
    ensures Number(0) == 0 && Plus(a, 0) == a
  {
  }

  lemma NotLast(w: Word)
    requires Number(w) < 0xffff_ffff
    ensures !IsLast(w)
  {
  }

  /** A sum that fits into 32 bits is the sum of the numbers. */
  lemma {:induction false} Sum(a: Word, b: Word)
    requires Number(a) + Number(b) <= 0xffff_ffff
    ensures Number(Plus(a, b)) == Number(a) + Number(b)
    decreases b
  {
    hide Number, Plus, IsLast;
    if b == 0 {
      AddZero(a);
    } else {
      Predecessor(b);
      Successor(b - 1);
      Sum(a, b - 1);
      NotLast(Plus(a, b - 1));
      AddNext(a, b);
      Successor(Plus(a, b - 1));
    }
  }

  // ---- Multiplying by a base ----

  lemma Double(w: Word)
    requires Number(w) < 0x8000_0000
    ensures Number(Twice(w)) == 2 * Number(w)
  {
    hide Twice, TwiceAndOne;
    Doubling(w);
  }

  lemma Shifted(w: Word)
    ensures Plus(Twice(Twice(Twice(w))), Twice(w)) == TenTimes(w)
    ensures Twice(Twice(Twice(Twice(w)))) == SixteenTimes(w)
  {
  }

  /** One more decimal digit behind a number. */
  lemma AppendDecimal(w: Word, digit: Word)
    requires 10 * Number(w) + Number(digit) <= 0xffff_ffff
    ensures Number(Plus(TenTimes(w), digit)) == 10 * Number(w) + Number(digit)
  {
    hide Number, Plus, Twice, TenTimes;
    Shifted(w);
    Double(w);
    Double(Twice(w));
    Double(Twice(Twice(w)));
    Sum(Twice(Twice(Twice(w))), Twice(w));
    Sum(TenTimes(w), digit);
  }

  /** One more hexadecimal digit behind a number. */
  lemma AppendHex(w: Word, digit: Word)
    requires 16 * Number(w) + Number(digit) <= 0xffff_ffff
    ensures Number(Plus(SixteenTimes(w), digit)) == 16 * Number(w) + Number(digit)
  {
    hide Number, Plus, Twice, SixteenTimes;
    Shifted(w);
    Double(w);
    Double(Twice(w));
    Double(Twice(Twice(w)));
    Double(Twice(Twice(Twice(w))));
    Sum(SixteenTimes(w), digit);
  }
}
