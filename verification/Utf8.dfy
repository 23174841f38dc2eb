/**
  The UTF-8 reader and writer of one to six bytes (section 2 of RFC 2279), with the bit
  operations of the C macros, and the string conversions built on them.
 */
module Utf8 {
  import opened Bytes

  /** A UCS-4 code. */
  type Code = bv32

  /** The codes UTF-8 can carry. */
  predicate Encodable(uc: Code) {
    uc < 0x8000_0000
  }

  /** `HTS_IS_LEADING_UTF8`. */
  predicate IsLeading(c: Byte) {
    c < 0x80 || c >= 0xc0
  }

  /** `nlz8`, by halving as the C code does. */
  function Nlz8(x: Byte): nat {
    var (x1, b1) := if x & 0xf0 != 0 then (x >> 4, 0) else (x, 4);
    var (x2, b2) := if x1 & 0x0c != 0 then (x1 >> 2, b1) else (x1, b1 + 2);
    if x2 & 0x02 == 0 then b2 + 1 else b2
  }

  /** `nlz8` counts leading zero bits, except that it gives 7 and not 8 for zero. */
  lemma Nlz8Counts(x: Byte)
    ensures Nlz8(x) <= 7
    ensures Nlz8(x) == 0 <==> x & 0x80 != 0
    ensures Nlz8(x) == 1 <==> x & 0xc0 == 0x40
    ensures Nlz8(x) == 2 <==> x & 0xe0 == 0x20
    ensures Nlz8(x) == 3 <==> x & 0xf0 == 0x10
    ensures Nlz8(x) == 4 <==> x & 0xf8 == 0x08
    ensures Nlz8(x) == 5 <==> x & 0xfc == 0x04
    ensures Nlz8(x) == 6 <==> x & 0xfe == 0x02
    ensures Nlz8(x) == 7 <==> x & 0xfe == 0x00
  {
  }

  /** `hts_getUTF8SequenceLength`; 0 for a byte that starts no sequence. */
  function SequenceLength(lead: Byte): nat {
    var c := Nlz8(!lead);
    if c == 0 then 1
    else if 2 <= c <= 6 then c
    else 0
  }

  // ---- Writing ----

  function FirstByte(uc: Code, len: nat): Byte
    requires 2 <= len <= 6
  {
    match len
    case 2 => (0xc0 | ((uc >> 6) & 0xff)) as Byte
    case 3 => (0xe0 | ((uc >> 12) & 0xff)) as Byte
    case 4 => (0xf0 | ((uc >> 18) & 0xff)) as Byte
    case 5 => (0xf8 | ((uc >> 24) & 0xff)) as Byte
    case _ => (0xfc | ((uc >> 30) & 0xff)) as Byte
  }

  /** A continuation byte. */
  function NextByte(bits: Code): Byte {
    (0x80 | (bits & 0x3f)) as Byte
  }

  function Emit2(uc: Code): (s: seq<Byte>)
    ensures |s| == 2
  {
    [FirstByte(uc, 2), NextByte(uc)]
  }

  function Emit3(uc: Code): (s: seq<Byte>)
    ensures |s| == 3
  {
    [FirstByte(uc, 3), NextByte(uc >> 6), NextByte(uc)]
  }

  function Emit4(uc: Code): (s: seq<Byte>)
    ensures |s| == 4
  {
    [FirstByte(uc, 4), NextByte(uc >> 12), NextByte(uc >> 6), NextByte(uc)]
  }

  function Emit5(uc: Code): (s: seq<Byte>)
    ensures |s| == 5
  {
    [FirstByte(uc, 5), NextByte(uc >> 18), NextByte(uc >> 12), NextByte(uc >> 6), NextByte(uc)]
  }

  function Emit6(uc: Code): (s: seq<Byte>)
    ensures |s| == 6
  {
    [FirstByte(uc, 6), NextByte(uc >> 24), NextByte(uc >> 18), NextByte(uc >> 12), NextByte(uc >> 6), NextByte(uc)]
  }

  /** `EMIT_UNICODE`. */
  function Emit(uc: Code): (s: seq<Byte>)
    ensures 1 <= |s| <= 6
  {
    if uc < 0x80 then [uc as Byte]
    else if uc < 0x0800 then Emit2(uc)
    else if uc < 0x10000 then Emit3(uc)
    else if uc < 0x200000 then Emit4(uc)
    else if uc < 0x4000000 then Emit5(uc)
    else Emit6(uc)
  }

  /** A continuation byte with the last digit to base 64. */
  function LowSix(n: Code): Byte {
    (0x80 + n % 0x40) as Byte
  }

  /** The table of section 2 of RFC 2279: how the bits of a code are laid out. */
  lemma EmitLayout(uc: Code)
    requires uc < 0x8000_0000
    ensures uc < 0x80 ==> Emit(uc) == [uc as Byte]
    ensures 0x80 <= uc < 0x800 ==> Emit(uc) == [(0xc0 + uc / 0x40) as Byte, LowSix(uc)]
    ensures 0x800 <= uc < 0x10000 ==> Emit(uc) == [(0xe0 + uc / 0x1000) as Byte, LowSix(uc / 0x40), LowSix(uc)]
    ensures 0x10000 <= uc < 0x200000 ==>
              Emit(uc) == [(0xf0 + uc / 0x40000) as Byte, LowSix(uc / 0x1000), LowSix(uc / 0x40), LowSix(uc)]
    ensures 0x200000 <= uc < 0x4000000 ==>
              Emit(uc) == [(0xf8 + uc / 0x1000000) as Byte,
                           LowSix(uc / 0x40000), LowSix(uc / 0x1000), LowSix(uc / 0x40), LowSix(uc)]
    ensures 0x4000000 <= uc ==>
              Emit(uc) == [(0xfc + uc / 0x40000000) as Byte, LowSix(uc / 0x1000000),
                           LowSix(uc / 0x40000), LowSix(uc / 0x1000), LowSix(uc / 0x40), LowSix(uc)]
  {
    hide NextByte, FirstByte, LowSix;
    NextBytes(uc);
    FirstBytes(uc);
  }

  lemma NextBytes(uc: Code)
    ensures NextByte(uc) == LowSix(uc)
    ensures NextByte(uc >> 6) == LowSix(uc / 0x40)
    ensures NextByte(uc >> 12) == LowSix(uc / 0x1000)
    ensures NextByte(uc >> 18) == LowSix(uc / 0x40000)
    ensures NextByte(uc >> 24) == LowSix(uc / 0x1000000)
  {
    hide NextByte, LowSix;
    SixBits(uc);
    SixBits(uc >> 6);
    SixBits(uc >> 12);
    SixBits(uc >> 18);
    SixBits(uc >> 24);
    Shifted(uc);
  }

  lemma SixBits(bits: Code)
    ensures NextByte(bits) == LowSix(bits)
  {
  }

  lemma Shifted(uc: Code)
    ensures uc >> 6 == uc / 0x40 && uc >> 12 == uc / 0x1000 && uc >> 18 == uc / 0x40000 && uc >> 24 == uc / 0x1000000
  {
  }

  lemma FirstBytes(uc: Code)
    ensures uc < 0x800 ==> FirstByte(uc, 2) == (0xc0 + uc / 0x40) as Byte
    ensures uc < 0x10000 ==> FirstByte(uc, 3) == (0xe0 + uc / 0x1000) as Byte
    ensures uc < 0x200000 ==> FirstByte(uc, 4) == (0xf0 + uc / 0x40000) as Byte
    ensures uc < 0x4000000 ==> FirstByte(uc, 5) == (0xf8 + uc / 0x1000000) as Byte
    ensures uc < 0x8000_0000 ==> FirstByte(uc, 6) == (0xfc + uc / 0x40000000) as Byte
  {
  }

  // ---- Reading ----

  datatype ReadResult = ReadResult(code: Option<Code>, next: nat)

  predicate IsContinuation(c: Byte) {
    c >> 6 == 2
  }

  /** Six more bits: `uc_ <<= 6; uc_ |= c_ & 0x3f`. */
  function Shift(uc: Code, c: Byte): Code {
    (uc << 6) | (c & 0x3f) as Code
  }

  /** `READ_LOOP`: `left` continuation bytes from `i` on; the byte that ends a bad sequence is consumed. */
  function ReadLoop(s: seq<Byte>, i: nat, uc: Code, left: nat): ReadResult
    decreases left
  {
    if left == 0 then ReadResult(Some(uc), i)
    else if i >= |s| then ReadResult(None, i)
    else if IsContinuation(s[i]) then ReadLoop(s, i + 1, Shift(uc, s[i]), left - 1)
    else ReadResult(None, i + 1)
  }

  /** The bits of the lead byte of a sequence of `len` bytes. */
  function LeadBits(lead: Byte, len: nat): Code
    requires 2 <= len <= 6
  {
    match len
    case 2 => (lead & 0x1f) as Code
    case 3 => (lead & 0x0f) as Code
    case 4 => (lead & 0x07) as Code
    case 5 => (lead & 0x03) as Code
    case _ => (lead & 0x01) as Code
  }

  /** `READ_UNICODE` at index `i`. */
  function Read(s: seq<Byte>, i: nat): ReadResult {
    if i >= |s| then ReadResult(None, i)
    else
      var len := SequenceLength(s[i]);
      if len == 1 then ReadResult(Some(s[i] as Code), i + 1)
      else if len == 0 then ReadResult(None, i + 1)
      else ReadLoop(s, i + 1, LeadBits(s[i], len), len - 1)
  }

  // ---- One code ----

  /** The code made of lead bits and continuation bytes. */
  function Join(uc: Code, tail: seq<Byte>): Code
    decreases |tail|
  {
    if tail == [] then uc else Join(Shift(uc, tail[0]), tail[1..])
  }

  predicate AllContinue(tail: seq<Byte>) {
    forall k :: 0 <= k < |tail| ==> IsContinuation(tail[k])
  }

  lemma SplitTail(tail: seq<Byte>)
    requires tail != []
    ensures AllContinue(tail) <==> IsContinuation(tail[0]) && AllContinue(tail[1..])
  {
    assert forall k :: 0 < k < |tail| ==> tail[k] == tail[1..][k - 1];
  }

  /** `READ_LOOP` succeeds exactly when all the bytes it needs are there and continue the sequence. */
  lemma {:induction false} ReadLoopJoins(s: seq<Byte>, i: nat, uc: Code, left: nat)
    ensures ReadLoop(s, i, uc, left).code.Some? <==> left == 0 || (i + left <= |s| && AllContinue(s[i..i + left]))
    ensures i + left <= |s| && AllContinue(s[i..i + left]) ==>
              ReadLoop(s, i, uc, left) == ReadResult(Some(Join(uc, s[i..i + left])), i + left)
    ensures i <= |s| ==> i <= ReadLoop(s, i, uc, left).next <= |s|
    decreases left
  {
    hide Shift, IsContinuation;
    if left != 0 && i < |s| {
      ReadLoopJoins(s, i + 1, Shift(uc, s[i]), left - 1);
      if i + left <= |s| {
        SplitTail(s[i..i + left]);
        assert s[i..i + left][1..] == s[i + 1..i + left];
      }
    }
  }

  /** Up to five continuation bytes, joined one by one. */
  lemma JoinUnfolds(uc: Code, t: seq<Byte>)
    ensures |t| == 1 ==> Join(uc, t) == Shift(uc, t[0])
    ensures |t| == 2 ==> Join(uc, t) == Shift(Shift(uc, t[0]), t[1])
    ensures |t| == 3 ==> Join(uc, t) == Shift(Shift(Shift(uc, t[0]), t[1]), t[2])
    ensures |t| == 4 ==> Join(uc, t) == Shift(Shift(Shift(Shift(uc, t[0]), t[1]), t[2]), t[3])
    ensures |t| == 5 ==> Join(uc, t) == Shift(Shift(Shift(Shift(Shift(uc, t[0]), t[1]), t[2]), t[3]), t[4])
    decreases |t|
  {
    hide Shift;
    if 1 < |t| <= 5 {
      JoinUnfolds(Shift(uc, t[0]), t[1..]);
    }
  }

  /** The code that a whole sequence stands for. */
  function CodeOf(b: seq<Byte>): Code
    requires 1 <= |b| <= 6
  {
    if |b| == 1 then b[0] as Code else Join(LeadBits(b[0], |b|), b[1..])
  }

  ghost predicate IsSequence(b: seq<Byte>) {
    1 <= |b| <= 6 && SequenceLength(b[0]) == |b| && AllContinue(b[1..])
  }

  // Bit arithmetic of each sequence length, both ways.

  lemma Bits2(uc: Code)
    requires 0x80 <= uc < 0x800
    ensures var e := Emit2(uc);
            && SequenceLength(e[0]) == 2 && IsLeading(e[0])
            && IsContinuation(e[1])
            && Shift(LeadBits(e[0], 2), e[1]) == uc
  {
  }

  lemma Bytes2(a: Byte, b: Byte)
    requires SequenceLength(a) == 2 && IsContinuation(b)
    ensures var uc := Shift(LeadBits(a, 2), b);
            uc < 0x800 && (uc >= 0x80 ==> Emit2(uc) == [a, b])
  {
  }

  lemma Bits3(uc: Code)
    requires 0x800 <= uc < 0x10000
    ensures var e := Emit3(uc);
            && SequenceLength(e[0]) == 3 && IsLeading(e[0])
            && IsContinuation(e[1]) && IsContinuation(e[2])
            && Shift(Shift(LeadBits(e[0], 3), e[1]), e[2]) == uc
  {
  }

  lemma Parts3(a: Byte, b: Byte, c: Byte)
    requires SequenceLength(a) == 3 && IsContinuation(b) && IsContinuation(c)
    ensures var uc := Shift(Shift(LeadBits(a, 3), b), c);
            uc < 0x10000 && (uc >= 0x800 ==> FirstByte(uc, 3) == a && NextByte(uc >> 6) == b && NextByte(uc) == c)
  {
  }

  lemma Bytes3(a: Byte, b: Byte, c: Byte)
    requires SequenceLength(a) == 3 && IsContinuation(b) && IsContinuation(c)
    ensures var uc := Shift(Shift(LeadBits(a, 3), b), c);
            uc < 0x10000 && (uc >= 0x800 ==> Emit3(uc) == [a, b, c])
  {
    hide Shift, LeadBits, IsContinuation, Nlz8, FirstByte, NextByte;
    Parts3(a, b, c);
  }

  lemma Bits4(uc: Code)
    requires 0x10000 <= uc < 0x200000
    ensures var e := Emit4(uc);
            && SequenceLength(e[0]) == 4 && IsLeading(e[0])
            && IsContinuation(e[1]) && IsContinuation(e[2]) && IsContinuation(e[3])
            && Shift(Shift(Shift(LeadBits(e[0], 4), e[1]), e[2]), e[3]) == uc
  {
  }

  lemma Parts4(a: Byte, b: Byte, c: Byte, d: Byte)
    requires SequenceLength(a) == 4 && IsContinuation(b) && IsContinuation(c) && IsContinuation(d)
    ensures var uc := Shift(Shift(Shift(LeadBits(a, 4), b), c), d);
            && uc < 0x200000
            && (uc >= 0x10000 ==>
                  FirstByte(uc, 4) == a && NextByte(uc >> 12) == b && NextByte(uc >> 6) == c && NextByte(uc) == d)
  {
  }

  lemma Bytes4(a: Byte, b: Byte, c: Byte, d: Byte)
    requires SequenceLength(a) == 4 && IsContinuation(b) && IsContinuation(c) && IsContinuation(d)
    ensures var uc := Shift(Shift(Shift(LeadBits(a, 4), b), c), d);
            uc < 0x200000 && (uc >= 0x10000 ==> Emit4(uc) == [a, b, c, d])
  {
    hide Shift, LeadBits, IsContinuation, Nlz8, FirstByte, NextByte;
    Parts4(a, b, c, d);
  }

  lemma Bits5(uc: Code)
    requires 0x200000 <= uc < 0x4000000
    ensures var e := Emit5(uc);
            && SequenceLength(e[0]) == 5 && IsLeading(e[0])
            && IsContinuation(e[1]) && IsContinuation(e[2]) && IsContinuation(e[3]) && IsContinuation(e[4])
            && Shift(Shift(Shift(Shift(LeadBits(e[0], 5), e[1]), e[2]), e[3]), e[4]) == uc
  {
  }

  lemma Parts5(a: Byte, b: Byte, c: Byte, d: Byte, e: Byte)
    requires SequenceLength(a) == 5 && IsContinuation(b) && IsContinuation(c) && IsContinuation(d) && IsContinuation(e)
    ensures var uc := Shift(Shift(Shift(Shift(LeadBits(a, 5), b), c), d), e);
            && uc < 0x4000000
            && (uc >= 0x200000 ==>
                  && FirstByte(uc, 5) == a && NextByte(uc >> 18) == b && NextByte(uc >> 12) == c
                  && NextByte(uc >> 6) == d && NextByte(uc) == e)
  {
  }

  lemma Bytes5(a: Byte, b: Byte, c: Byte, d: Byte, e: Byte)
    requires SequenceLength(a) == 5 && IsContinuation(b) && IsContinuation(c) && IsContinuation(d) && IsContinuation(e)
    ensures var uc := Shift(Shift(Shift(Shift(LeadBits(a, 5), b), c), d), e);
            uc < 0x4000000 && (uc >= 0x200000 ==> Emit5(uc) == [a, b, c, d, e])
  {
    hide Shift, LeadBits, IsContinuation, Nlz8, FirstByte, NextByte;
    Parts5(a, b, c, d, e);
  }

  lemma Bits6(uc: Code)
    requires 0x4000000 <= uc < 0x80000000
    ensures var e := Emit6(uc);
            && SequenceLength(e[0]) == 6 && IsLeading(e[0])
            && IsContinuation(e[1]) && IsContinuation(e[2]) && IsContinuation(e[3])
            && IsContinuation(e[4]) && IsContinuation(e[5])
            && Shift(Shift(Shift(Shift(Shift(LeadBits(e[0], 6), e[1]), e[2]), e[3]), e[4]), e[5]) == uc
  {
  }

  lemma Parts6(a: Byte, b: Byte, c: Byte, d: Byte, e: Byte, f: Byte)
    requires SequenceLength(a) == 6 && IsContinuation(b) && IsContinuation(c)
    requires IsContinuation(d) && IsContinuation(e) && IsContinuation(f)
    ensures var uc := Shift(Shift(Shift(Shift(Shift(LeadBits(a, 6), b), c), d), e), f);
            && uc < 0x80000000
            && (uc >= 0x4000000 ==>
                  && FirstByte(uc, 6) == a && NextByte(uc >> 24) == b && NextByte(uc >> 18) == c
                  && NextByte(uc >> 12) == d && NextByte(uc >> 6) == e && NextByte(uc) == f)
  {
  }

  lemma Bytes6(a: Byte, b: Byte, c: Byte, d: Byte, e: Byte, f: Byte)
    requires SequenceLength(a) == 6 && IsContinuation(b) && IsContinuation(c)
    requires IsContinuation(d) && IsContinuation(e) && IsContinuation(f)
    ensures var uc := Shift(Shift(Shift(Shift(Shift(LeadBits(a, 6), b), c), d), e), f);
            uc < 0x80000000 && (uc >= 0x4000000 ==> Emit6(uc) == [a, b, c, d, e, f])
  {
    hide Shift, LeadBits, IsContinuation, Nlz8, FirstByte, NextByte;
    Parts6(a, b, c, d, e, f);
  }

  /** The bytes of a code are a lead byte and continuation bytes, and they join to the code. */
  lemma EmittedJoins(uc: Code)
    requires Encodable(uc)
    ensures IsSequence(Emit(uc)) && IsLeading(Emit(uc)[0]) && CodeOf(Emit(uc)) == uc
  {
    hide Shift, LeadBits, Emit2, Emit3, Emit4, Emit5, Emit6, IsContinuation, Nlz8;
    var e := Emit(uc);
    if uc < 0x80 {
      Bits1(uc);
    } else {
      JoinUnfolds(LeadBits(e[0], |e|), e[1..]);
      if uc < 0x800 {
        Bits2(uc);
      } else if uc < 0x10000 {
        Bits3(uc);
      } else if uc < 0x200000 {
        Bits4(uc);
      } else if uc < 0x4000000 {
        Bits5(uc);
      } else {
        Bits6(uc);
      }
    }
  }

  lemma Bits1(uc: Code)
    requires uc < 0x80
    ensures SequenceLength(uc as Byte) == 1 && IsLeading(uc as Byte) && (uc as Byte) as Code == uc
  {
  }

  lemma Bytes1(a: Byte)
    requires SequenceLength(a) == 1
    ensures a < 0x80 && (a as Code) < 0x80 && (a as Code) as Byte == a
  {
  }

  /** Writing `uc` needs no more bytes than `b`, and gives `b` back unless a shorter form exists. */
  ghost predicate Rewrites(uc: Code, b: seq<Byte>) {
    Encodable(uc) && |Emit(uc)| <= |b| && (|Emit(uc)| == |b| ==> Emit(uc) == b)
  }

  /** How many bytes a code takes. */
  lemma EmitSize(uc: Code)
    ensures |Emit(uc)| == 1 <==> uc < 0x80
    ensures |Emit(uc)| <= 2 <==> uc < 0x800
    ensures |Emit(uc)| <= 3 <==> uc < 0x10000
    ensures |Emit(uc)| <= 4 <==> uc < 0x200000
    ensures |Emit(uc)| <= 5 <==> uc < 0x4000000
  {
    hide FirstByte, NextByte;
  }

  lemma Rewrites1(b: seq<Byte>)
    requires IsSequence(b) && |b| == 1
    ensures Rewrites(CodeOf(b), b)
  {
    Bytes1(b[0]);
  }

  lemma Rewrites2(b: seq<Byte>)
    requires IsSequence(b) && |b| == 2
    ensures Rewrites(CodeOf(b), b)
  {
    hide Shift, LeadBits, IsContinuation, Nlz8, Join, Emit2;
    var t := b[1..];
    JoinUnfolds(LeadBits(b[0], 2), t);
    Bytes2(b[0], t[0]);
    EmitSize(CodeOf(b));
  }

  lemma Rewrites3(b: seq<Byte>)
    requires IsSequence(b) && |b| == 3
    ensures Rewrites(CodeOf(b), b)
  {
    hide Shift, LeadBits, IsContinuation, Nlz8, Join, Emit3;
    var t := b[1..];
    JoinUnfolds(LeadBits(b[0], 3), t);
    Bytes3(b[0], t[0], t[1]);
    EmitSize(CodeOf(b));
  }

  lemma Rewrites4(b: seq<Byte>)
    requires IsSequence(b) && |b| == 4
    ensures Rewrites(CodeOf(b), b)
  {
    hide Shift, LeadBits, IsContinuation, Nlz8, Join, Emit4;
    var t := b[1..];
    JoinUnfolds(LeadBits(b[0], 4), t);
    Bytes4(b[0], t[0], t[1], t[2]);
    EmitSize(CodeOf(b));
  }

  lemma Rewrites5(b: seq<Byte>)
    requires IsSequence(b) && |b| == 5
    ensures Rewrites(CodeOf(b), b)
  {
    hide Shift, LeadBits, IsContinuation, Nlz8, Join, Emit5;
    var t := b[1..];
    JoinUnfolds(LeadBits(b[0], 5), t);
    Bytes5(b[0], t[0], t[1], t[2], t[3]);
    EmitSize(CodeOf(b));
  }

  lemma Rewrites6(b: seq<Byte>)
    requires IsSequence(b) && |b| == 6
    ensures Rewrites(CodeOf(b), b)
  {
    hide Shift, LeadBits, IsContinuation, Nlz8, Join, Emit6;
    var t := b[1..];
    JoinUnfolds(LeadBits(b[0], 6), t);
    Bytes6(b[0], t[0], t[1], t[2], t[3], t[4]);
    EmitSize(CodeOf(b));
  }

  /** Any well-formed sequence: its code rewrites it. */
  lemma SequenceRewrites(b: seq<Byte>)
    requires IsSequence(b)
    ensures Rewrites(CodeOf(b), b)
  {
    hide Rewrites, CodeOf;
    match |b|
    case 1 => Rewrites1(b);
    case 2 => Rewrites2(b);
    case 3 => Rewrites3(b);
    case 4 => Rewrites4(b);
    case 5 => Rewrites5(b);
    case _ => Rewrites6(b);
  }

  // ---- Reading and writing are inverse ----

  /** `READ_UNICODE` succeeds exactly on a whole sequence, and yields its code and its end. */
  lemma ReadsSequences(s: seq<Byte>, i: nat)
    requires i < |s|
    ensures var r, n := Read(s, i), SequenceLength(s[i]);
            && i < r.next <= |s|
            && (r.code.Some? <==> 1 <= n && i + n <= |s| && IsSequence(s[i..i + n]))
            && (r.code.Some? ==> r.next == i + n && r.code.value == CodeOf(s[i..i + n]))
  {
    hide Nlz8, IsContinuation, LeadBits, Join, ReadLoop;
    var n := SequenceLength(s[i]);
    if n > 1 {
      ReadLoopJoins(s, i + 1, LeadBits(s[i], n), n - 1);
      if i + n <= |s| {
        assert s[i..i + n][1..] == s[i + 1..i + n];
      }
    }
  }

  /** Reading what was written gives the code back, whatever surrounds it. */
  lemma ReadAfterWrite(before: seq<Byte>, uc: Code, after: seq<Byte>)
    requires Encodable(uc)
    ensures Read(before + Emit(uc) + after, |before|) == ReadResult(Some(uc), |before| + |Emit(uc)|)
  {
    hide Nlz8, Read, Emit, CodeOf, IsSequence;
    var s, e := before + Emit(uc) + after, Emit(uc);
    EmittedJoins(uc);
    assert s[|before|] == e[0];
    assert s[|before|..|before| + |e|] == e;
    assert SequenceLength(e[0]) == |e| by {
      Lead(e);
    }
    ReadsSequences(s, |before|);
  }

  lemma Lead(b: seq<Byte>)
    requires IsSequence(b)
    ensures |b| >= 1 && SequenceLength(b[0]) == |b|
  {
  }

  /**
    Writing what was read never takes more bytes, and gives the bytes read exactly when they were
    the shortest form.
   */
  lemma WriteAfterRead(s: seq<Byte>, i: nat)
    requires i < |s| && Read(s, i).code.Some?
    ensures var r := Read(s, i);
            && Encodable(r.code.value)
            && i + |Emit(r.code.value)| <= r.next <= |s|
            && (Emit(r.code.value) == s[i..r.next] <==> i + |Emit(r.code.value)| == r.next)
  {
    hide Nlz8, Read, Emit, CodeOf, IsSequence;
    ReadsSequences(s, i);
    SequenceRewrites(s[i..i + SequenceLength(s[i])]);
  }

  // ---- The readers and writers as the C code runs them ----

  /** `READ_UNICODE` on the bytes of `s`, with its loop over the continuation bytes. */
  method ReadUnicode(s: seq<Byte>, i: nat) returns (code: Option<Code>, next: nat)
    ensures ReadResult(code, next) == Read(s, i)
  {
    hide Nlz8, Shift, LeadBits, IsContinuation;
    next := i;
    if next >= |s| {
      return None, next;
    }
    var lead := s[next];
    next := next + 1;
    var len := SequenceLength(lead);
    if len == 1 {
      return Some(lead as Code), next;
    }
    if len == 0 {
      return None, next;
    }
    var uc := LeadBits(lead, len);
    var k := 1;
    while k < len
      invariant 1 <= k <= len
      invariant ReadLoop(s, i + 1, LeadBits(lead, len), len - 1) == ReadLoop(s, next, uc, len - k)
    {
      if next >= |s| {
        return None, next;
      }
      var c := s[next];
      next := next + 1;
      if !IsContinuation(c) {
        return None, next;
      }
      uc := Shift(uc, c);
      k := k + 1;
    }
    code := Some(uc);
  }

  /** `hts_readUTF8`: the code and the number of bytes read, or 0. */
  method ReadUtf8(src: seq<Byte>) returns (uc: Code, n: nat)
    ensures n == 0 <==> Read(src, 0).code.None?
    ensures n != 0 ==> Read(src, 0) == ReadResult(Some(uc), n) && n == SequenceLength(src[0])
  {
    hide Nlz8, Read;
    var code, next := ReadUnicode(src, 0);
    uc, n := 0, 0;
    if src != [] {
      ReadsSequences(src, 0);
    } else {
      NothingToRead();
    }
    if code.Some? {
      uc, n := code.value, next;
    }
  }

  lemma NothingToRead()
    ensures Read([], 0) == ReadResult(None, 0)
  {
  }

  /** How many bytes `hts_writeUTF8` touches, whether it succeeds or not. */
  function BytesWritten(uc: Code, size: nat): nat {
    if |Emit(uc)| < size then |Emit(uc)| else if size == 0 then 0 else size - 1
  }

  /** `hts_writeUTF8` at `dest[at..]`: the last of the `size` bytes is never written. */
  method WriteUtf8(uc: Code, dest: array<Byte>, at: nat, size: nat) returns (n: nat)
    requires at + BytesWritten(uc, size) <= dest.Length
    modifies dest
    ensures n == if |Emit(uc)| < size then |Emit(uc)| else 0
    ensures n != 0 ==> dest[..] == old(dest[..at]) + Emit(uc) + old(dest[at + n..])
    ensures forall k :: 0 <= k < dest.Length && !(at <= k < at + BytesWritten(uc, size)) ==> dest[k] == old(dest[k])
  {
    hide Emit;
    var bytes := Emit(uc);
    var offset := 0;
    while offset < |bytes|
      invariant offset <= |bytes| && (offset == 0 || offset < size)
      invariant dest[at..at + offset] == bytes[..offset]
      invariant forall k :: 0 <= k < dest.Length && !(at <= k < at + offset) ==> dest[k] == old(dest[k])
    {
      if offset + 1 >= size {
        return 0;
      }
      dest[at + offset] := bytes[offset];
      offset := offset + 1;
    }
    n := offset;
    assert bytes[..n] == bytes;
    assert dest[..at] == old(dest[..at]) && dest[at + n..] == old(dest[at + n..]);
    assert dest[..] == dest[..at] + dest[at..at + n] + dest[at + n..];
  }

  // ---- Whole strings ----

  const REPLACEMENT: Code := 0xfffd

  /** UCS-4 to UTF-8, without the final NUL. */
  function EncodeAll(codes: seq<Code>): seq<Byte> {
    if codes == [] then [] else EncodeAll(codes[..|codes| - 1]) + Emit(codes[|codes| - 1])
  }

  /** UTF-8 to UCS-4 from index `i`; what cannot be read becomes U+FFFD. */
  function DecodeFrom(s: seq<Byte>, i: nat): seq<Code>
    requires i <= |s|
    decreases |s| - i
  {
    if i == |s| then []
    else
      ReadsSequences(s, i);
      var r := Read(s, i);
      [if r.code.Some? then r.code.value else 0xfffd] + DecodeFrom(s, r.next)
  }

  /** Is everything from index `i` readable? */
  predicate ReadableFrom(s: seq<Byte>, i: nat)
    requires i <= |s|
    decreases |s| - i
  {
    i == |s| || (ReadsSequences(s, i); Read(s, i).code.Some? && ReadableFrom(s, Read(s, i).next))
  }

  predicate AllEncodable(codes: seq<Code>) {
    forall k :: 0 <= k < |codes| ==> Encodable(codes[k])
  }

  /** Leading bytes, which is what `hts_stringLengthUTF8` counts. */
  function LeadingCount(s: seq<Byte>): nat {
    if s == [] then 0
    else LeadingCount(s[..|s| - 1]) + if IsLeading(s[|s| - 1]) then 1 else 0
  }

  /** Encoding then decoding, on whole strings: the same codes, all readable. */
  lemma {:induction false} StringRoundTrip(done: seq<Code>, codes: seq<Code>)
    requires AllEncodable(codes)
    ensures var s := EncodeAll(done + codes);
            && |EncodeAll(done)| <= |s|
            && DecodeFrom(s, |EncodeAll(done)|) == codes
            && ReadableFrom(s, |EncodeAll(done)|)
    decreases |codes|
  {
    hide Read, Emit;
    if codes == [] {
      assert done + codes == done;
    } else {
      var s, next := EncodeAll(done + codes), done + [codes[0]];
      assert done + codes == next + codes[1..];
      StringRoundTrip(next, codes[1..]);
      EncodePrefix(next, codes[1..]);
      assert next[..|next| - 1] == done;
      var before, after := EncodeAll(done), s[|EncodeAll(next)|..];
      assert s == before + Emit(codes[0]) + after;
      ReadAfterWrite(before, codes[0], after);
    }
  }

  lemma {:induction false} EncodePrefix(a: seq<Code>, b: seq<Code>)
    ensures EncodeAll(a) <= EncodeAll(a + b)
    decreases |b|
  {
    if b == [] {
      assert a + b == a;
    } else {
      EncodePrefix(a, b[..|b| - 1]);
      assert (a + b)[..|a + b| - 1] == a + b[..|b| - 1];
    }
  }

  /** Re-encoding a readable string takes no more bytes, and gives it back if it takes as many. */
  lemma {:induction false} Reencoding(s: seq<Byte>, i: nat)
    requires i <= |s| && ReadableFrom(s, i)
    ensures AllEncodable(DecodeFrom(s, i))
    ensures |EncodeAll(DecodeFrom(s, i))| <= |s| - i
    ensures EncodeAll(DecodeFrom(s, i)) == s[i..] <==> |EncodeAll(DecodeFrom(s, i))| == |s| - i
    decreases |s| - i
  {
    hide Read, Emit;
    if i < |s| {
      ReadsSequences(s, i);
      var r := Read(s, i);
      Reencoding(s, r.next);
      WriteAfterRead(s, i);
      var rest := DecodeFrom(s, r.next);
      EncodeCons(r.code.value, rest);
      var head := Emit(r.code.value);
      assert s[i..] == s[i..r.next] + s[r.next..];
      if head + EncodeAll(rest) == s[i..] {
        assert |head + EncodeAll(rest)| == |s| - i;
      }
    } else {
      assert s[i..] == [];
    }
  }

  lemma {:induction false} EncodeCons(uc: Code, rest: seq<Code>)
    ensures EncodeAll([uc] + rest) == Emit(uc) + EncodeAll(rest)
    decreases |rest|
  {
    hide Emit;
    if rest == [] {
      assert [uc] + rest == [uc];
      assert [uc][..0] == [];
    } else {
      EncodeCons(uc, rest[..|rest| - 1]);
      assert ([uc] + rest)[..|rest|] == [uc] + rest[..|rest| - 1];
    }
  }

  /** `hts_convertUCS4StringToUTF8`. */
  method Ucs4ToUtf8(s: seq<Code>) returns (dest: seq<Byte>)
    ensures dest == EncodeAll(s) + [0]
  {
    hide Emit;
    dest := [];
    for i := 0 to |s|
      invariant dest == EncodeAll(s[..i])
    {
      dest := dest + Emit(s[i]);
      assert s[..i + 1][..i] == s[..i];
    }
    assert s[..|s|] == s;
    dest := dest + [0];
  }

  /** `hts_convertUTF8StringToUCS4`. */
  method Utf8ToUcs4(s: seq<Byte>) returns (dest: seq<Code>, nChars: nat)
    ensures dest == DecodeFrom(s, 0) + [0]
    ensures nChars == |DecodeFrom(s, 0)|
  {
    hide Read;
    dest, nChars := [], 0;
    var i := 0;
    while i < |s|
      invariant i <= |s| && nChars == |dest|
      invariant dest + DecodeFrom(s, i) == DecodeFrom(s, 0)
      decreases |s| - i
    {
      ReadsSequences(s, i);
      var code, next := ReadUnicode(s, i);
      var uc := if code.Some? then code.value else REPLACEMENT;
      assert dest + DecodeFrom(s, i) == dest + [uc] + DecodeFrom(s, next);
      dest, nChars, i := dest + [uc], nChars + 1, next;
    }
    dest := dest + [0];
  }

  /** `hts_isStringUTF8`. */
  method IsStringUtf8(s: seq<Byte>) returns (yes: bool)
    ensures yes <==> ReadableFrom(s, 0)
  {
    hide Read;
    var i := 0;
    while i < |s|
      invariant i <= |s|
      invariant ReadableFrom(s, 0) <==> ReadableFrom(s, i)
      decreases |s| - i
    {
      ReadsSequences(s, i);
      var code, next := ReadUnicode(s, i);
      if code.None? {
        return false;
      }
      i := next;
    }
    yes := true;
  }

  /** `hts_stringLengthUTF8`. */
  method StringLengthUtf8(s: CString) returns (n: nat)
    ensures n == LeadingCount(s)
  {
    n := 0;
    var i := 0;
    while CharAt(s, i) != 0
      invariant i <= |s|
      invariant n == LeadingCount(s[..i])
      decreases |s| - i
    {
      if IsLeading(s[i]) {
        n := n + 1;
      }
      assert s[..i + 1][..i] == s[..i];
      i := i + 1;
    }
    assert s[..i] == s;
  }

  /** UCS-4 to UTF-8 and back, through the converters, is the identity; and what is in between is UTF-8. */
  method ConvertThereAndBack(codes: seq<Code>) returns (back: seq<Code>, valid: bool, length: nat)
    requires AllEncodable(codes)
    ensures back == codes + [0]
    ensures valid
    ensures 0 !in codes ==> length == |codes|
  {
    hide Read, Emit;
    var utf8 := Ucs4ToUtf8(codes);
    var s := utf8[..|utf8| - 1];
    assert s == EncodeAll(codes);
    StringRoundTrip([], codes);
    assert [] + codes == codes;
    back, length := Utf8ToUcs4(s);
    valid := IsStringUtf8(s);
    EncodedLength(codes);
    if 0 !in s {
      length := StringLengthUtf8(s);
    }
  }

  // ---- Counting characters ----

  lemma {:induction false} LeadingConcat(a: seq<Byte>, b: seq<Byte>)
    ensures LeadingCount(a + b) == LeadingCount(a) + LeadingCount(b)
    decreases |b|
  {
    if b == [] {
      assert a + b == a;
    } else {
      LeadingConcat(a, b[..|b| - 1]);
      assert (a + b)[..|a + b| - 1] == a + b[..|b| - 1];
    }
  }

  lemma {:induction false} NoLeading(tail: seq<Byte>)
    requires AllContinue(tail)
    ensures LeadingCount(tail) == 0 && 0 !in tail
  {
    if tail != [] {
      NoLeading(tail[..|tail| - 1]);
      ContinuationByte(tail[|tail| - 1]);
      assert tail == tail[..|tail| - 1] + [tail[|tail| - 1]];
    }
  }

  lemma ContinuationByte(c: Byte)
    requires IsContinuation(c)
    ensures !IsLeading(c) && c != 0
  {
  }

  lemma EmitsOneCharacter(uc: Code)
    requires Encodable(uc)
    ensures LeadingCount(Emit(uc)) == 1
    ensures 0 in Emit(uc) ==> uc == 0
  {
    hide Nlz8, Emit2, Emit3, Emit4, Emit5, Emit6, IsContinuation, LeadBits, Join;
    var e := Emit(uc);
    EmittedJoins(uc);
    NoLeading(e[1..]);
    assert e == [e[0]] + e[1..];
    LeadingConcat([e[0]], e[1..]);
    assert [e[0]][..0] == [];
    if uc >= 0x80 {
      LongLead(e[0]);
    }
  }

  lemma LongLead(a: Byte)
    requires SequenceLength(a) > 1
    ensures a != 0
  {
  }

  /** A zero-free string of codes becomes a NUL-free string with as many leading bytes as codes. */
  lemma {:induction false} EncodedLength(codes: seq<Code>)
    requires AllEncodable(codes)
    ensures LeadingCount(EncodeAll(codes)) == |codes|
    ensures 0 !in codes ==> 0 !in EncodeAll(codes)
  {
    hide Emit;
    if codes != [] {
      var n := |codes| - 1;
      EncodedLength(codes[..n]);
      EmitsOneCharacter(codes[n]);
      LeadingConcat(EncodeAll(codes[..n]), Emit(codes[n]));
      assert codes == codes[..n] + [codes[n]];
    }
  }
}
