/**
  HTML entity unescaping to UTF-8.  The decoder copies blindly, remembers where the last `&` was
  written, and rolls the write position back when the entity turns out to be one.
 */
module Entities {
  import opened Bytes
  import opened Numerals
  import opened Utf8
  import opened Words

  /** `uc == -1`, as the 32 bits of an `int`. */
  const NO_CODE: Code := 0xffff_ffff

  const AMP: Byte := 38
  const HASH: Byte := 35
  const LOWER_X: Byte := 120
  const SEMICOLON: Byte := 59

  /** `decode_entity`: the code of a name, found by its hash and length alone, or -1. */
  type EntityTable = (Code, nat) -> Code

  /** What the generated table guarantees: names of two characters or more, codes below 0x10000. */
  ghost predicate Sound(decode: EntityTable) {
    forall h, n :: decode(h, n) == NO_CODE || (decode(h, n) < 0x10000 && n >= 2)
  }

  predicate IsAlnum(c: Byte) {
    IsDigit(c) || 65 <= c <= 90 || 97 <= c <= 122
  }

  /** `get_hex_value`, for hexadecimal characters. */
  function HexValue(c: Byte): Code
    requires IsHex(c)
  {
    if IsDigit(c) then (c - 48) as Code else if c >= 97 then (c - 87) as Code else (c - 55) as Code
  }

  function DecimalValue(c: Byte): Code
    requires IsDigit(c)
  {
    (c - 48) as Code
  }

  /** One more digit, with 32-bit wrap-around. */
  function AddDigit(uc: Code, c: Byte, hex: bool): Code
    requires if hex then IsHex(c) else IsDigit(c)
  {
    if hex then Plus(SixteenTimes(uc), HexValue(c)) else Plus(TenTimes(uc), DecimalValue(c))
  }

  /** `HASH_ADD`. */
  function HashAdd(hash: Code, c: Byte): Code {
    hash * 1664525 + 1013904223 + c as Code
  }

  // ---- What an entity is ----

  datatype Value = Bad | Value(uc: Code)

  /**
    The value of a run of digits.  `Bad` if a character is no digit, or if a proper prefix has
    wrapped around to -1, which the decoder mistakes for "no number seen".
   */
  function Digits(t: seq<Byte>, hex: bool): Value {
    if t == [] then Value(0)
    else
      var c := t[|t| - 1];
      match Digits(t[..|t| - 1], hex)
      case Bad => Bad
      case Value(uc) =>
        if uc == NO_CODE || !(if hex then IsHex(c) else IsDigit(c)) then Bad
        else Value(AddDigit(uc, c, hex))
  }

  function NameHash(t: seq<Byte>): Code {
    if t == [] then 0 else HashAdd(NameHash(t[..|t| - 1]), t[|t| - 1])
  }

  predicate IsName(t: seq<Byte>) {
    |t| <= 10 && forall k :: 0 <= k < |t| ==> IsAlnum(t[k])
  }

  /** Table lookup; a no-break space is turned into a space. */
  function Named(decode: EntityTable, hash: Code, n: nat): Code {
    var uc := decode(hash, n);
    if uc == 160 then 32 else uc
  }

  /** The code of the text between `&` and `;`, or -1. */
  function EntityCode(decode: EntityTable, t: seq<Byte>): Code {
    if |t| >= 1 && t[0] == HASH then
      match if |t| >= 2 && t[1] == LOWER_X then Digits(t[2..], true) else Digits(t[1..], false)
      case Bad => NO_CODE
      case Value(uc) => if uc == NO_CODE then Named(decode, 0, |t|) else uc
    else if IsName(t) then Named(decode, NameHash(t), |t|)
    else NO_CODE
  }

  /** `uc > 0` for the signed value. */
  predicate Positive(uc: Code) {
    0 < uc < 0x8000_0000
  }

  /** The first `;` from `i` on, or the length. */
  function NextSemicolon(s: seq<Byte>, i: nat): (k: nat)
    requires i <= |s|
    ensures i <= k <= |s|
    ensures k < |s| ==> s[k] == SEMICOLON
    ensures forall p :: i <= p < k ==> s[p] != SEMICOLON
    decreases |s| - i
  {
    if i == |s| || s[i] == SEMICOLON then i else NextSemicolon(s, i + 1)
  }

  /** Does a decodable entity start at `a`? */
  predicate IsEntity(decode: EntityTable, s: seq<Byte>, a: nat)
    requires a < |s|
  {
    && s[a] == AMP
    && var k := NextSemicolon(s, a + 1);
       k < |s| && Positive(EntityCode(decode, s[a + 1..k]))
  }

  /** The text from `i` on with every decodable entity replaced, everything else copied. */
  function Unescaped(decode: EntityTable, s: seq<Byte>, i: nat): seq<Byte>
    requires i <= |s|
    decreases |s| - i
  {
    if i == |s| then []
    else if IsEntity(decode, s, i) then
      var k := NextSemicolon(s, i + 1);
      Emit(EntityCode(decode, s[i + 1..k])) + Unescaped(decode, s, k + 1)
    else [s[i]] + Unescaped(decode, s, i + 1)
  }

  /**
    Is there room for `max` characters?  The text of an entity up to its `;` is first copied, so it
    has to fit too; and the writer of the decoded bytes wants one byte more than it uses.
   */
  predicate Fits(decode: EntityTable, s: seq<Byte>, i: nat, out: nat, max: nat)
    requires i <= |s|
    decreases |s| - i
  {
    if i == |s| then true
    else if IsEntity(decode, s, i) then
      var k := NextSemicolon(s, i + 1);
      var n := |Emit(EntityCode(decode, s[i + 1..k]))|;
      out + (k - i) <= max && out + n < max && Fits(decode, s, k + 1, out + n, max)
    else out + 1 <= max && Fits(decode, s, i + 1, out + 1, max)
  }

  // ---- Numbers ----

  function DecimalBound(n: nat): Code
    requires n <= 9
  {
    [1, 10, 100, 1000, 10000, 100000, 1000000, 10000000, 100000000, 1000000000][n]
  }

  function HexBound(n: nat): Code
    requires n <= 7
  {
    [1, 0x10, 0x100, 0x1000, 0x10000, 0x100000, 0x1000000, 0x10000000][n]
  }

  lemma AddDecimal(uc: Code, c: Byte, n: nat)
    requires n <= 8 && uc < DecimalBound(n) && IsDigit(c)
    ensures AddDigit(uc, c, false) < DecimalBound(n + 1)
  {
    hide DecimalBound;
    DigitBelowTen(c);
    Tenfold(uc, (c - 48) as Code);
    Bounds(n);
  }

  lemma DigitBelowTen(c: Byte)
    requires IsDigit(c)
    ensures (c - 48) as Code < 10
  {
  }

  lemma Tenfold(uc: Code, d: Code)
    requires d < 10
    ensures uc < 1 ==> uc * 10 + d < 10
    ensures uc < 10 ==> uc * 10 + d < 100
    ensures uc < 100 ==> uc * 10 + d < 1000
    ensures uc < 1000 ==> uc * 10 + d < 10000
    ensures uc < 10000 ==> uc * 10 + d < 100000
    ensures uc < 100000 ==> uc * 10 + d < 1000000
    ensures uc < 1000000 ==> uc * 10 + d < 10000000
    ensures uc < 10000000 ==> uc * 10 + d < 100000000
    ensures uc < 100000000 ==> uc * 10 + d < 1000000000
  {
  }

  lemma Bounds(n: nat)
    requires n <= 8
    ensures (DecimalBound(n), DecimalBound(n + 1)) in {
              (1, 10), (10, 100), (100, 1000), (1000, 10000), (10000, 100000), (100000, 1000000),
              (1000000, 10000000), (10000000, 100000000), (100000000, 1000000000)}
  {
  }

  lemma AddHex(uc: Code, c: Byte, n: nat)
    requires n <= 6 && uc < HexBound(n) && IsHex(c)
    ensures AddDigit(uc, c, true) < HexBound(n + 1)
  {
  }

  /** Few digits make a small number: no wrap-around below ten decimal or eight hexadecimal digits. */
  lemma {:induction false} DigitsBound(t: seq<Byte>, hex: bool)
    requires Digits(t, hex).Value?
    ensures !hex && |t| <= 9 ==> Digits(t, hex).uc < DecimalBound(|t|)
    ensures hex && |t| <= 7 ==> Digits(t, hex).uc < HexBound(|t|)
  {
    hide AddDigit, DecimalBound, HexBound;
    if t == [] {
      FirstBounds();
    } else {
      DigitsBound(t[..|t| - 1], hex);
      var uc, c := Digits(t[..|t| - 1], hex).uc, t[|t| - 1];
      if !hex && |t| <= 9 {
        AddDecimal(uc, c, |t| - 1);
      }
      if hex && |t| <= 7 {
        AddHex(uc, c, |t| - 1);
      }
    }
  }

  lemma FirstBounds()
    ensures 0 < DecimalBound(0) && 0 < HexBound(0)
  {
  }

  /** The bytes of a number, against its digits. */
  lemma NumberNoLonger(d: seq<Byte>, hex: bool, uc: Code)
    requires Digits(d, hex) == Value(uc) && uc != 0
    ensures !hex ==> |Emit(uc)| <= |d| + 2
    ensures hex ==> |Emit(uc)| <= |d| + 3
  {
    hide AddDigit, Digits, Emit;
    EmitSize(uc);
    DigitsBound(d, hex);
    NoDigits(hex);
  }

  /** A decoded entity is never longer than its text without the `;`. */
  lemma EntityNoLonger(decode: EntityTable, t: seq<Byte>)
    requires Sound(decode)
    requires Positive(EntityCode(decode, t))
    ensures |Emit(EntityCode(decode, t))| <= |t| + 1
  {
    hide AddDigit, Digits, Emit, NameHash, IsName;
    var uc := EntityCode(decode, t);
    if |t| >= 1 && t[0] == HASH {
      var hex := |t| >= 2 && t[1] == LOWER_X;
      var d := if hex then t[2..] else t[1..];
      if Digits(d, hex) == Value(uc) {
        NumberNoLonger(d, hex, uc);
      } else {
        EmitSize(uc);
      }
    } else {
      EmitSize(uc);
    }
  }

  lemma NoDigits(hex: bool)
    ensures Digits([], hex) == Value(0)
  {
  }

  // ---- Numbers as they are written ----

  lemma HexDigitRead(d: nat, upper: bool)
    requires d < 16
    ensures IsHex(HexDigitOf(d, upper)) && Number(HexValue(HexDigitOf(d, upper))) == d
  {
    if d < 10 {
      SmallDigitRead(d, upper);
    } else {
      LargeDigitRead(d, upper);
    }
  }

  lemma SmallDigitRead(d: nat, upper: bool)
    requires d < 10
    ensures IsHex(HexDigitOf(d, upper)) && Number(HexValue(HexDigitOf(d, upper))) == d
  {
  }

  lemma LargeDigitRead(d: nat, upper: bool)
    requires 10 <= d < 16
    ensures IsHex(HexDigitOf(d, upper)) && Number(HexValue(HexDigitOf(d, upper))) == d
  {
  }

  lemma DecimalDigitRead(d: nat)
    requires d < 10
    ensures IsDigit(LOWER[d]) && Number(DecimalValue(LOWER[d])) == d
  {
  }

  lemma NotNoCode(uc: Code)
    requires Number(uc) < 0xffff_ffff
    ensures uc != NO_CODE
  {
  }

  lemma DigitsBehind(t: seq<Byte>, c: Byte, hex: bool)
    requires Digits(t, hex).Value? && Digits(t, hex).uc != NO_CODE && if hex then IsHex(c) else IsDigit(c)
    ensures Digits(t + [c], hex) == Value(AddDigit(Digits(t, hex).uc, c, hex))
  {
    hide AddDigit, IsHex, IsDigit;
    assert (t + [c])[..|t|] == t;
  }

  lemma NoDigitsYet(hex: bool)
    ensures Digits([], hex) == Value(0) && Number(0) == 0
  {
  }

  /** The digits to base 16 of a number that fits into 32 bits. */
  lemma {:induction false} HexDigits(n: nat, upper: Cases)
    requires n <= 0xffff_ffff
    ensures var v := Digits(Hex(n, upper), true);
            v.Value? && Number(v.uc) == n
    decreases n
  {
    hide Number, HexValue, IsHex, HexDigitOf, Plus, SixteenTimes, TenTimes, Digits;
    var front := if n < 16 then [] else Hex(n / 16, Before(upper));
    var c := HexDigitOf(n % 16, upper(0));
    HexDigitRead(n % 16, upper(0));
    if n >= 16 {
      HexDigits(n / 16, Before(upper));
    } else {
      NoDigitsYet(true);
    }
    var uc := Digits(front, true).uc;
    NotNoCode(uc);
    AppendHex(uc, HexValue(c));
    DigitsBehind(front, c, true);
  }

  /** The digits to base 10 of a number that fits into 32 bits. */
  lemma {:induction false} DecimalDigits(n: nat)
    requires n <= 0xffff_ffff
    ensures var v := Digits(Decimal(n), false);
            v.Value? && Number(v.uc) == n
    decreases n
  {
    hide Number, DecimalValue, IsDigit, Plus, SixteenTimes, TenTimes, Digits;
    var front := if n < 10 then [] else Decimal(n / 10);
    var c := LOWER[n % 10];
    DecimalDigitRead(n % 10);
    if n >= 10 {
      DecimalDigits(n / 10);
    } else {
      NoDigitsYet(false);
    }
    var uc := Digits(front, false).uc;
    NotNoCode(uc);
    AppendDecimal(uc, DecimalValue(c));
    DigitsBehind(front, c, false);
  }

  lemma {:induction false} FirstIsDigit(n: nat)
    ensures Decimal(n)[0] != LOWER_X
  {
    if n >= 10 {
      FirstIsDigit(n / 10);
    }
  }

  /** `#` and a number to base 10, or `#x` and one to base 16, is the text of the number. */
  lemma WrittenCode(decode: EntityTable, uc: Code, upper: Cases)
    requires uc != NO_CODE
    ensures EntityCode(decode, [35] + Decimal(Number(uc))) == uc
    ensures EntityCode(decode, [35, 120] + Hex(Number(uc), upper)) == uc
  {
    hide Digits, Number;
    var decimal, hex := Decimal(Number(uc)), Hex(Number(uc), upper);
    DecimalDigits(Number(uc));
    HexDigits(Number(uc), upper);
    SameNumber(uc, Digits(decimal, false).uc);
    SameNumber(uc, Digits(hex, true).uc);
    FirstIsDigit(Number(uc));
    assert ([35] + decimal)[1..] == decimal && ([35, 120] + hex)[2..] == hex;
  }

  lemma {:induction false} NoSemicolonInHex(n: nat, upper: Cases)
    ensures SEMICOLON !in Hex(n, upper)
    decreases n
  {
    hide Before;
    if n >= 16 {
      NoSemicolonInHex(n / 16, Before(upper));
    }
  }

  lemma {:induction false} NoSemicolonInDecimal(n: nat)
    ensures SEMICOLON !in Decimal(n)
  {
    if n >= 10 {
      NoSemicolonInDecimal(n / 10);
    }
  }

  /** Anywhere in a text, a written number is replaced by the bytes of the character, except that 0 stays. */
  lemma WrittenEntity(
    decode: EntityTable, s: seq<Byte>, a: nat, text: seq<Byte>, uc: Code, upper: Cases, rest: seq<Byte>)
    requires a <= |s| && uc < 0x8000_0000
    requires text == [35] + Decimal(Number(uc)) || text == [35, 120] + Hex(Number(uc), upper)
    requires s[a..] == [38] + text + [59] + rest
    ensures Unescaped(decode, s, a) == if uc == 0 then [38] + Unescaped(decode, s, a + 1)
                                       else Emit(uc) + Unescaped(decode, s, |s| - |rest|)
  {
    hide Number, Digits, EntityCode, Emit, Unescaped;
    WrittenCode(decode, uc, upper);
    NoSemicolonInDecimal(Number(uc));
    NoSemicolonInHex(Number(uc), upper);
    EntityAt(decode, s, a, text, rest);
  }

  lemma EntityAt(decode: EntityTable, s: seq<Byte>, a: nat, text: seq<Byte>, rest: seq<Byte>)
    requires a <= |s| && s[a..] == [38] + text + [59] + rest && SEMICOLON !in text
    ensures Unescaped(decode, s, a) ==
              if 0 < EntityCode(decode, text) < 0x8000_0000
              then Emit(EntityCode(decode, text)) + Unescaped(decode, s, |s| - |rest|)
              else [38] + Unescaped(decode, s, a + 1)
  {
    hide EntityCode, Emit;
    var k := a + 1 + |text|;
    assert s[a] == s[a..][0] && s[k] == s[a..][1 + |text|];
    forall p | a < p < k
      ensures s[p] != SEMICOLON
    {
      assert s[p] == s[a..][p - a] && s[p] == text[p - a - 1];
    }
    assert ([38] + text + [59] + rest)[1..1 + |text|] == text;
    assert s[a + 1..k] == text by {
      forall p | 0 <= p < |text|
        ensures s[a + 1..k][p] == text[p]
      {
        assert s[a + 1..k][p] == s[a..][1 + p];
      }
    }
    assert NextSemicolon(s, a + 1) == k;
  }

  /** `nbsp` and `amp` have the hashes of the generated table. */
  lemma TableHashes()
    ensures NameHash([110, 98, 115, 112]) == 3948425267
    ensures NameHash([97, 109, 112]) == 2834859755
  {
    hide NameHash;
    HashOfFour([110, 98, 115, 112]);
    HashOfThree([97, 109, 112]);
  }

  lemma HashOfFour(t: seq<Byte>)
    requires |t| == 4
    ensures NameHash(t) == HashAdd(HashAdd(HashAdd(HashAdd(0, t[0]), t[1]), t[2]), t[3])
  {
    hide HashAdd;
    HashOfThree(t[..3]);
  }

  lemma HashOfThree(t: seq<Byte>)
    requires |t| == 3
    ensures NameHash(t) == HashAdd(HashAdd(HashAdd(0, t[0]), t[1]), t[2])
  {
    hide HashAdd;
    assert NameHash(t[..1]) == HashAdd(0, t[0]);
    assert t[..2][..1] == t[..1];
  }

  // ---- Scanning ahead ----

  /** No continuation of `t` is the text of an entity. */
  ghost predicate Dead(decode: EntityTable, t: seq<Byte>) {
    forall u :: EntityCode(decode, t + u) == NO_CODE
  }

  lemma {:induction false} BadStaysBad(d: seq<Byte>, u: seq<Byte>, hex: bool)
    requires Digits(d, hex).Bad?
    ensures Digits(d + u, hex).Bad?
    decreases |u|
  {
    if u == [] {
      assert d + u == d;
    } else {
      BadStaysBad(d, u[..|u| - 1], hex);
      assert (d + u)[..|d + u| - 1] == d + u[..|u| - 1];
    }
  }

  lemma DeadNumber(decode: EntityTable, t: seq<Byte>)
    requires |t| >= 2 && t[0] == HASH
    requires Digits(if t[1] == LOWER_X then t[2..] else t[1..], t[1] == LOWER_X).Bad?
    ensures Dead(decode, t)
  {
    forall u
      ensures EntityCode(decode, t + u) == NO_CODE
    {
      var hex := t[1] == LOWER_X;
      BadStaysBad(if hex then t[2..] else t[1..], u, hex);
      assert (t + u)[2..] == t[2..] + u;
      assert (t + u)[1..] == t[1..] + u;
    }
  }

  lemma DeadName(decode: EntityTable, t: seq<Byte>)
    requires |t| >= 1 && t[0] != HASH && !IsName(t)
    ensures Dead(decode, t)
  {
    forall u
      ensures EntityCode(decode, t + u) == NO_CODE
    {
      if |t| <= 10 {
        var k :| 0 <= k < |t| && !IsAlnum(t[k]);
        assert (t + u)[k] == t[k];
      }
      assert (t + u)[0] == t[0];
    }
  }

  /** The variables of the decoder after reading `t` behind the last `&`. */
  ghost predicate Scanning(t: seq<Byte>, uc: Code, hex: bool, hash: Code) {
    && AMP !in t && SEMICOLON !in t
    && if t == [] then uc == NO_CODE && hash == 0
       else if t[0] == HASH then
         && hash == 0
         && hex == (|t| >= 2 && t[1] == LOWER_X)
         && Digits(if hex then t[2..] else t[1..], hex) == Value(uc)
       else uc == NO_CODE && IsName(t) && hash == NameHash(t)
  }

  /** At the `;` the variables give the code of the entity. */
  lemma ScannedCode(decode: EntityTable, t: seq<Byte>, uc: Code, hex: bool, hash: Code)
    requires Scanning(t, uc, hex, hash)
    ensures EntityCode(decode, t) == if uc == NO_CODE then Named(decode, hash, |t|) else uc
  {
    hide Digits, NameHash;
    if t == [] {
      EmptyName();
    }
  }

  lemma EmptyName()
    ensures NameHash([]) == 0
  {
  }

  /** In a number, a value of -1 is only reached late. */
  lemma StuckLate(t: seq<Byte>, uc: Code, hex: bool, hash: Code)
    requires Scanning(t, uc, hex, hash) && t != [] && t[0] == HASH && uc == NO_CODE
    ensures |t| >= 10
  {
    hide Digits;
    DigitsBound(if hex then t[2..] else t[1..], hex);
  }

  lemma ScanHash(t: seq<Byte>, uc: Code, hex: bool, hash: Code)
    requires Scanning(t, uc, hex, hash) && t == []
    ensures Scanning(t + [HASH], 0, false, hash)
  {
  }

  lemma ScanX(t: seq<Byte>, uc: Code, hex: bool, hash: Code)
    requires Scanning(t, uc, hex, hash) && |t| == 1 && t[0] == HASH
    ensures Scanning(t + [LOWER_X], uc, true, hash)
  {
  }

  /** One more character of a number. */
  lemma ScanDigit(decode: EntityTable, t: seq<Byte>, uc: Code, hex: bool, hash: Code, c: Byte)
    requires Scanning(t, uc, hex, hash) && uc != NO_CODE
    requires c != AMP && c != SEMICOLON
    requires |t| == 1 ==> c != LOWER_X
    ensures t != [] && t[0] == HASH
    ensures if if hex then IsHex(c) else IsDigit(c) then Scanning(t + [c], AddDigit(uc, c, hex), hex, hash)
            else Dead(decode, t + [c])
  {
    hide AddDigit, Dead, EntityCode, IsHex, IsDigit, NameHash, IsName;
    var d := if hex then t[2..] else t[1..];
    var t' := t + [c];
    assert (if hex then t'[2..] else t'[1..]) == d + [c];
    assert (d + [c])[..|d|] == d;
    if !(if hex then IsHex(c) else IsDigit(c)) {
      DeadNumber(decode, t');
    }
  }

  /** One more character of a name, or of a number stuck at -1. */
  lemma ScanName(decode: EntityTable, t: seq<Byte>, uc: Code, hex: bool, hash: Code, c: Byte)
    requires Scanning(t, uc, hex, hash) && uc == NO_CODE
    requires c != AMP && c != SEMICOLON
    requires t == [] ==> c != HASH
    ensures if |t| + 1 <= 10 && IsAlnum(c) then Scanning(t + [c], uc, hex, HashAdd(hash, c))
            else Dead(decode, t + [c])
  {
    hide HashAdd, AddDigit, IsAlnum;
    var t' := t + [c];
    if t != [] && t[0] == HASH {
      StuckLate(t, uc, hex, hash);
      var d := if hex then t[2..] else t[1..];
      assert (if hex then t'[2..] else t'[1..]) == d + [c];
      assert (d + [c])[..|d|] == d;
      DeadNumber(decode, t');
    } else {
      assert t'[..|t|] == t;
      EmptyName();
      if |t| + 1 <= 10 && IsAlnum(c) {
      } else {
        assert t'[|t|] == c;
        DeadName(decode, t');
      }
    }
  }

  // ---- Copied runs ----

  lemma CopyStep(decode: EntityTable, s: seq<Byte>, a: nat, out: nat, max: nat)
    requires a < |s| && !IsEntity(decode, s, a)
    ensures Unescaped(decode, s, a) == [s[a]] + Unescaped(decode, s, a + 1)
    ensures Fits(decode, s, a, out, max) <==> out + 1 <= max && Fits(decode, s, a + 1, out + 1, max)
  {
  }

  /** Text up to `i` where no decodable entity starts is copied as it is. */
  lemma {:induction false} CopyRun(decode: EntityTable, s: seq<Byte>, a: nat, i: nat, out: nat, max: nat)
    requires a <= i <= |s|
    requires forall p :: a <= p < i ==> !IsEntity(decode, s, p)
    ensures Unescaped(decode, s, a) == s[a..i] + Unescaped(decode, s, i)
    ensures Fits(decode, s, a, out, max) <==>
              (a == i || out + (i - a) <= max) && Fits(decode, s, i, out + (i - a), max)
    decreases i - a
  {
    hide IsEntity, Unescaped, Fits;
    if a < i {
      CopyStep(decode, s, a, out, max);
      CopyRun(decode, s, a + 1, i, out + 1, max);
      assert s[a..i] == [s[a]] + s[a + 1..i];
    } else {
      assert s[a..i] == [];
    }
  }

  /** The same behind an `&` at `a` that starts no entity and with no other `&` before `i`. */
  lemma CopyFailed(decode: EntityTable, s: seq<Byte>, a: nat, i: nat, out: nat, max: nat)
    requires a < i <= |s| && !IsEntity(decode, s, a) && AMP !in s[a + 1..i]
    ensures Unescaped(decode, s, a) == s[a..i] + Unescaped(decode, s, i)
    ensures Fits(decode, s, a, out, max) <==> out + (i - a) <= max && Fits(decode, s, i, out + (i - a), max)
  {
    hide Unescaped, Fits;
    forall p | a < p < i
      ensures !IsEntity(decode, s, p)
    {
      assert s[a + 1..i][p - a - 1] == s[p];
    }
    CopyRun(decode, s, a, i, out, max);
  }

  lemma NoneBefore(s: seq<Byte>, a: nat, i: nat)
    requires a <= i <= |s| && SEMICOLON !in s[a..i]
    ensures NextSemicolon(s, a) >= i
  {
    forall p | a <= p < i
      ensures s[p] != SEMICOLON
    {
      assert s[a..i][p - a] == s[p];
    }
  }

  /** A dead scan means that there is no entity at the `&`. */
  lemma DeadScan(decode: EntityTable, s: seq<Byte>, a: nat, i: nat)
    requires a < i <= |s| && s[a] == AMP
    requires SEMICOLON !in s[a + 1..i] && Dead(decode, s[a + 1..i])
    ensures !IsEntity(decode, s, a)
  {
    hide EntityCode;
    var k := NextSemicolon(s, a + 1);
    if k < |s| {
      NoneBefore(s, a + 1, i);
      assert s[a + 1..k] == s[a + 1..i] + s[i..k];
    }
  }

  /** Another `&`, or the end, before any `;`: no entity. */
  lemma CutScan(decode: EntityTable, s: seq<Byte>, a: nat, i: nat, uc: Code, hex: bool, hash: Code)
    requires a < i <= |s| && s[a] == AMP
    requires Scanning(s[a + 1..i], uc, hex, hash)
    requires i == |s| || s[i] == AMP
    ensures !IsEntity(decode, s, a)
  {
    var t := s[a + 1..i];
    if i == |s| {
      NoneBefore(s, a + 1, i);
    } else {
      DeadAmp(decode, t, uc, hex, hash);
      assert s[a + 1..i + 1] == t + [AMP];
      DeadScan(decode, s, a, i + 1);
    }
  }

  lemma DeadAmp(decode: EntityTable, t: seq<Byte>, uc: Code, hex: bool, hash: Code)
    requires Scanning(t, uc, hex, hash)
    ensures Dead(decode, t + [AMP])
  {
    hide AddDigit, Dead, EntityCode, NameHash;
    var t' := t + [AMP];
    if t != [] && t[0] == HASH {
      var d := if hex then t[2..] else t[1..];
      assert (if hex then t'[2..] else t'[1..]) == d + [AMP];
      assert (d + [AMP])[..|d|] == d;
      DeadNumber(decode, t');
    } else {
      assert t'[|t|] == AMP;
      DeadName(decode, t');
    }
  }

  /** The output is no longer than the input, and an output as large as the input is large enough. */
  lemma {:induction false} NeverLonger(decode: EntityTable, s: seq<Byte>, i: nat, out: nat, max: nat)
    requires Sound(decode) && i <= |s|
    ensures |Unescaped(decode, s, i)| <= |s| - i
    ensures out <= i && |s| <= max ==> Fits(decode, s, i, out, max)
    ensures out <= max && Fits(decode, s, i, out, max) ==> out + |Unescaped(decode, s, i)| <= max
    decreases |s| - i
  {
    hide Emit, EntityCode, Sound;
    if i < |s| {
      if IsEntity(decode, s, i) {
        var k := NextSemicolon(s, i + 1);
        EntityNoLonger(decode, s[i + 1..k]);
        NeverLonger(decode, s, k + 1, out + |Emit(EntityCode(decode, s[i + 1..k]))|, max);
      } else {
        NeverLonger(decode, s, i + 1, out + 1, max);
      }
    }
  }

  // ---- The decoder ----

  /** The local variables of the decoder; `ampStart` is -1 outside of a potential entity. */
  datatype State = State(ampStart: int, ampStartDest: nat, uc: Code, hex: bool, hash: Code)

  /**
    `out` has been written for the first `i` characters.  Behind a potential entity start, the text
    from `ampStart` on has been copied, and what precedes it is final.
   */
  ghost predicate Progress(decode: EntityTable, s: seq<Byte>, max: nat, i: nat, st: State, out: seq<Byte>) {
    && |out| <= i <= |s|
    && if st.ampStart == -1 then
         && out + Unescaped(decode, s, i) == Unescaped(decode, s, 0)
         && (Fits(decode, s, 0, 0, max) <==> |out| <= max && Fits(decode, s, i, |out|, max))
       else
         var a, d := st.ampStart, st.ampStartDest;
         && 0 <= a < i && d <= a && |out| == d + (i - a)
         && s[a] == AMP && out[d..] == s[a..i]
         && Scanning(s[a + 1..i], st.uc, st.hex, st.hash)
         && out[..d] + Unescaped(decode, s, a) == Unescaped(decode, s, 0)
         && (Fits(decode, s, 0, 0, max) <==> d <= max && Fits(decode, s, a, d, max))
  }

  lemma Started(decode: EntityTable, s: seq<Byte>, max: nat, st: State)
    requires st.ampStart == -1
    ensures Progress(decode, s, max, 0, st, [])
  {
    assert [] + Unescaped(decode, s, 0) == Unescaped(decode, s, 0);
  }

  /** A potential entity that fails is final as copied. */
  lemma Settle(
    decode: EntityTable, s: seq<Byte>, max: nat, i: nat, i': nat, st: State, st': State, out: seq<Byte>, out':
    seq<Byte>)
    requires st.ampStart >= 0 && Progress(decode, s, max, i, st, out)
    requires i <= i' <= |s| && out' == out + s[i..i']
    requires !IsEntity(decode, s, st.ampStart) && AMP !in s[i..i']
    requires st'.ampStart == -1
    ensures Progress(decode, s, max, i', st', out')
  {
    hide Unescaped, Fits, IsEntity;
    var a, d := st.ampStart, st.ampStartDest;
    NoAmp(s, a, i, i', st);
    CopyFailed(decode, s, a, i', d, max);
    CopiedSoFar(s, a, i, i', out, d);
    GroupBytes(out[..d], s[a..i'], Unescaped(decode, s, i'));
  }

  lemma NoAmp(s: seq<Byte>, a: nat, i: nat, i': nat, st: State)
    requires a < i <= i' <= |s| && Scanning(s[a + 1..i], st.uc, st.hex, st.hash) && AMP !in s[i..i']
    ensures AMP !in s[a + 1..i']
  {
    assert s[a + 1..i'] == s[a + 1..i] + s[i..i'];
  }

  lemma CopiedSoFar(s: seq<Byte>, a: nat, i: nat, i': nat, out: seq<Byte>, d: nat)
    requires a <= i <= i' <= |s| && d <= |out| && out[d..] == s[a..i]
    ensures out + s[i..i'] == out[..d] + s[a..i']
  {
    assert out == out[..d] + out[d..];
    assert s[a..i'] == s[a..i] + s[i..i'];
  }

  lemma GroupBytes(a: seq<Byte>, b: seq<Byte>, c: seq<Byte>)
    ensures (a + b) + c == a + (b + c)
  {
  }

  lemma StepAmp(decode: EntityTable, s: seq<Byte>, max: nat, i: nat, st: State, st': State, out: seq<Byte>)
    requires Progress(decode, s, max, i, st, out) && i < |s| && s[i] == AMP
    requires st'.ampStart == i && st'.ampStartDest == |out| && st'.uc == NO_CODE && st'.hash == 0
    ensures Progress(decode, s, max, i + 1, st', out + [s[i]])
  {
    hide Unescaped, Fits;
    if st.ampStart >= 0 {
      CutScan(decode, s, st.ampStart, i, st.uc, st.hex, st.hash);
      assert s[i..i] == [] && out + [] == out;
      Settle(decode, s, max, i, i, st, st'.(ampStart := -1), out, out);
    }
    assert (out + [s[i]])[..|out|] == out;
    assert s[i + 1..i + 1] == [];
  }

  lemma StepPlain(decode: EntityTable, s: seq<Byte>, max: nat, i: nat, st: State, out: seq<Byte>)
    requires Progress(decode, s, max, i, st, out) && st.ampStart == -1 && i < |s| && s[i] != AMP
    ensures Progress(decode, s, max, i + 1, st, out + [s[i]])
  {
    hide Unescaped, Fits;
    CopyStep(decode, s, i, |out|, max);
    assert out + ([s[i]] + Unescaped(decode, s, i + 1)) == out + [s[i]] + Unescaped(decode, s, i + 1);
  }

  lemma StepScan(decode: EntityTable, s: seq<Byte>, max: nat, i: nat, st: State, st': State, out: seq<Byte>)
    requires Progress(decode, s, max, i, st, out) && st.ampStart >= 0 && i < |s|
    requires st'.ampStart == st.ampStart && st'.ampStartDest == st.ampStartDest
    requires Scanning(s[st.ampStart + 1..i] + [s[i]], st'.uc, st'.hex, st'.hash)
    ensures Progress(decode, s, max, i + 1, st', out + [s[i]])
  {
    hide Unescaped, Fits, Scanning;
    var a, d := st.ampStart, st.ampStartDest;
    assert s[a + 1..i + 1] == s[a + 1..i] + [s[i]];
    assert s[a..i + 1] == s[a..i] + [s[i]];
    assert (out + [s[i]])[..d] == out[..d];
    assert (out + [s[i]])[d..] == out[d..] + [s[i]];
  }

  lemma StepAbandon(decode: EntityTable, s: seq<Byte>, max: nat, i: nat, st: State, st': State, out: seq<Byte>)
    requires Progress(decode, s, max, i, st, out) && st.ampStart >= 0 && i < |s|
    requires s[i] != AMP && s[i] != SEMICOLON
    requires Dead(decode, s[st.ampStart + 1..i] + [s[i]]) && st'.ampStart == -1
    ensures Progress(decode, s, max, i + 1, st', out + [s[i]])
  {
    hide Unescaped, Fits, Dead;
    var a := st.ampStart;
    assert s[a + 1..i + 1] == s[a + 1..i] + [s[i]];
    DeadScan(decode, s, a, i + 1);
    assert s[i..i + 1] == [s[i]];
    Settle(decode, s, max, i, i + 1, st, st', out, out + [s[i]]);
  }

  lemma SemicolonHere(decode: EntityTable, s: seq<Byte>, max: nat, i: nat, st: State, out: seq<Byte>)
    requires Progress(decode, s, max, i, st, out) && st.ampStart >= 0 && i < |s| && s[i] == SEMICOLON
    ensures NextSemicolon(s, st.ampStart + 1) == i
    ensures EntityCode(decode, s[st.ampStart + 1..i])
            == if st.uc == NO_CODE then Named(decode, st.hash, i - st.ampStart - 1) else st.uc
  {
    hide Unescaped, Fits, EntityCode;
    NoneBefore(s, st.ampStart + 1, i);
    ScannedCode(decode, s[st.ampStart + 1..i], st.uc, st.hex, st.hash);
  }

  /** A `;` that ends no decodable entity is copied. */
  lemma StepFailed(decode: EntityTable, s: seq<Byte>, max: nat, i: nat, st: State, st': State, out: seq<Byte>)
    requires Progress(decode, s, max, i, st, out) && st.ampStart >= 0 && i < |s| && s[i] == SEMICOLON
    requires !Positive(EntityCode(decode, s[st.ampStart + 1..i])) && st'.ampStart == -1
    ensures Progress(decode, s, max, i + 1, st', out + [s[i]])
  {
    hide Unescaped, Fits, EntityCode;
    SemicolonHere(decode, s, max, i, st, out);
    assert s[i..i + 1] == [s[i]];
    Settle(decode, s, max, i, i + 1, st, st', out, out + [s[i]]);
  }

  lemma EntityHere(decode: EntityTable, s: seq<Byte>, a: nat, out: nat, max: nat)
    requires a < |s| && s[a] == AMP
    requires var k := NextSemicolon(s, a + 1); k < |s| && Positive(EntityCode(decode, s[a + 1..k]))
    ensures var k := NextSemicolon(s, a + 1);
            var bytes := Emit(EntityCode(decode, s[a + 1..k]));
            && Unescaped(decode, s, a) == bytes + Unescaped(decode, s, k + 1)
            && (Fits(decode, s, a, out, max) <==>
                  out + (k - a) <= max && out + |bytes| < max && Fits(decode, s, k + 1, out + |bytes|, max))
  {
    hide EntityCode, Emit;
  }

  /** A `;` that ends a decodable entity: roll back and write its bytes, if there is room. */
  lemma StepDecoded(decode: EntityTable, s: seq<Byte>, max: nat, i: nat, st: State, st': State, out: seq<Byte>)
    requires Sound(decode)
    requires Progress(decode, s, max, i, st, out) && st.ampStart >= 0 && i < |s| && s[i] == SEMICOLON
    requires Positive(EntityCode(decode, s[st.ampStart + 1..i])) && st'.ampStart == -1 && |out| <= max
    ensures var bytes, d := Emit(EntityCode(decode, s[st.ampStart + 1..i])), st.ampStartDest;
            && d + |bytes| <= |out|
            && if |bytes| < max - d then Progress(decode, s, max, i + 1, st', out[..d] + bytes)
               else |out| == max && !Fits(decode, s, 0, 0, max)
  {
    hide EntityCode, Emit, Scanning, Unescaped, Fits;
    var a, d := st.ampStart, st.ampStartDest;
    SemicolonHere(decode, s, max, i, st, out);
    EntityNoLonger(decode, s[a + 1..i]);
    var bytes := Emit(EntityCode(decode, s[a + 1..i]));
    EntityHere(decode, s, a, d, max);
    assert out[..d] + bytes + Unescaped(decode, s, i + 1) == out[..d] + (bytes + Unescaped(decode, s, i + 1));
  }

  /** Writing past `max` means that the output does not fit. */
  lemma Overflow(decode: EntityTable, s: seq<Byte>, max: nat, i: nat, st: State, out: seq<Byte>)
    requires Progress(decode, s, max, i, st, out) && |out| > max
    ensures !Fits(decode, s, 0, 0, max)
  {
    hide Unescaped, EntityCode, Emit;
    if st.ampStart >= 0 {
      var a, d := st.ampStart, st.ampStartDest;
      NoneBefore(s, a + 1, i);
      if !IsEntity(decode, s, a) {
        CopyFailed(decode, s, a, i, d, max);
      }
    }
  }

  lemma Finished(decode: EntityTable, s: seq<Byte>, max: nat, st: State, out: seq<Byte>)
    requires Progress(decode, s, max, |s|, st, out) && |out| <= max
    ensures out == Unescaped(decode, s, 0) && Fits(decode, s, 0, 0, max)
  {
    hide IsEntity, Scanning;
    if st.ampStart >= 0 {
      CutScan(decode, s, st.ampStart, |s|, st.uc, st.hex, st.hash);
      assert s[|s|..|s|] == [] && out + [] == out;
      Settle(decode, s, max, |s|, |s|, st, st.(ampStart := -1), out, out);
    }
    assert out + [] == out;
  }

  /** The C string `s` is at the start of the array. */
  ghost predicate HoldsString(a: array<Byte>, s: CString)
    reads a
  {
    |s| < a.Length && a[..|s|] == s && a[|s|] == 0
  }

  /** What is still to be read of `s` has not been overwritten. */
  ghost predicate Ahead(a: seq<Byte>, s: CString, i: nat) {
    && i <= |s| < |a|
    && (forall p :: i <= p < |s| ==> a[p] == s[p])
    && a[|s|] == 0
  }

  /** What is known inside a potential entity. */
  lemma InEntity(decode: EntityTable, s: seq<Byte>, max: nat, i: nat, st: State, out: seq<Byte>)
    requires Progress(decode, s, max, i, st, out) && st.ampStart >= 0
    ensures st.ampStart < i && st.ampStartDest <= |out| == st.ampStartDest + (i - st.ampStart)
    ensures s[st.ampStart] == AMP
    ensures Scanning(s[st.ampStart + 1..i], st.uc, st.hex, st.hash)
    ensures |s[st.ampStart + 1..i]| == i - st.ampStart - 1
    ensures st.ampStart + 1 < i ==> s[st.ampStart + 1..i][0] == s[st.ampStart + 1]
  {
  }

  /** A character of a number or a name. */
  method ScanCharacter(
    c: Byte, i: nat, st: State, decode: EntityTable, ghost s: seq<Byte>, ghost max: nat, ghost out: seq<Byte>)
    returns (st': State)
    requires Progress(decode, s, max, i, st, out) && st.ampStart >= 0 && i < |s| && c == s[i]
    requires c != AMP && c != SEMICOLON
    requires i == st.ampStart + 1 ==> c != HASH
    requires i == st.ampStart + 2 && s[st.ampStart + 1] == HASH ==> c != LOWER_X
    ensures Progress(decode, s, max, i + 1, st', out + [c])
    ensures st'.ampStart == -1 || st'.ampStart == st.ampStart
  {
    hide Progress, Fits, Unescaped, EntityCode, Scanning, Dead, HashAdd, AddDigit, IsHex;
    InEntity(decode, s, max, i, st, out);
    ghost var t := s[st.ampStart + 1..i];
    if st.uc != NO_CODE {
      assert |t| == 1 ==> t[0] == HASH by {
        NumberStarts(t, st.uc, st.hex, st.hash);
      }
      ScanDigit(decode, t, st.uc, st.hex, st.hash, c);
      if if st.hex then IsHex(c) else IsDigit(c) {
        st' := st.(uc := AddDigit(st.uc, c, st.hex));
        StepScan(decode, s, max, i, st, st', out);
      } else {
        st' := st.(ampStart := -1);
        StepAbandon(decode, s, max, i, st, st', out);
      }
    } else {
      ScanName(decode, t, st.uc, st.hex, st.hash, c);
      if i <= st.ampStart + 10 && (48 <= c <= 57 || 65 <= c <= 90 || 97 <= c <= 122) {
        st' := st.(hash := HashAdd(st.hash, c));
        StepScan(decode, s, max, i, st, st', out);
      } else {
        st' := st.(ampStart := -1);
        StepAbandon(decode, s, max, i, st, st', out);
      }
    }
  }

  lemma NumberStarts(t: seq<Byte>, uc: Code, hex: bool, hash: Code)
    requires Scanning(t, uc, hex, hash) && uc != NO_CODE
    ensures t != [] && t[0] == HASH
  {
  }

  /** A character inside a potential entity; `found` if it ends a decodable one, with code `st'.uc`. */
  method Inside(
    src: array<Byte>, i: nat, st: State, decode: EntityTable, ghost s: seq<Byte>, ghost max: nat, ghost out:
    seq<Byte>)
    returns (st': State, found: bool)
    requires Progress(decode, s, max, i, st, out) && st.ampStart >= 0
    requires i < |s| < src.Length && src[i] == s[i] && s[i] != AMP
    requires i == st.ampStart + 2 ==> src[i - 1] == s[i - 1]
    ensures found ==> s[i] == SEMICOLON && st'.ampStart == -1 && st'.ampStartDest == st.ampStartDest
    ensures found ==> st.ampStart + 1 <= i && st'.uc == EntityCode(decode, s[st.ampStart + 1..i]) && Positive(st'.uc)
    ensures !found ==> Progress(decode, s, max, i + 1, st', out + [s[i]])
    ensures st'.ampStart == -1 || st'.ampStart == st.ampStart
  {
    hide Progress, Fits, Unescaped, EntityCode, Scanning, Dead, HashAdd, AddDigit;
    InEntity(decode, s, max, i, st, out);
    ghost var t := s[st.ampStart + 1..i];
    found := false;
    if st.ampStart + 1 == i && src[st.ampStart + 1] == HASH {
      ScanHash(t, st.uc, st.hex, st.hash);
      st' := st.(uc := 0, hex := false);
      StepScan(decode, s, max, i, st, st', out);
    } else if st.ampStart + 2 == i && src[st.ampStart + 1] == HASH && src[st.ampStart + 2] == LOWER_X {
      ScanX(t, st.uc, st.hex, st.hash);
      st' := st.(hex := true);
      StepScan(decode, s, max, i, st, st', out);
    } else if src[i] == SEMICOLON {
      SemicolonHere(decode, s, max, i, st, out);
      var uc := st.uc;
      if uc == NO_CODE {
        uc := decode(st.hash, i - st.ampStart - 1);
        if uc == 160 {
          uc := 32;
        }
      }
      st' := st.(ampStart := -1, uc := uc);
      if 0 < uc < 0x8000_0000 {
        found := true;
      } else {
        StepFailed(decode, s, max, i, st, st', out);
      }
    } else {
      st' := ScanCharacter(src[i], i, st, decode, s, max, out);
    }
  }

  /** The copy at the end of each round: `if (src != dest || i != j) dest[j] = src[i]`. */
  method CopyCharacter(src: array<Byte>, dest: array<Byte>, i: nat, j: nat, ghost s: CString)
    requires i < |s| && Ahead(src[..], s, i) && j <= i && j < dest.Length
    modifies dest
    ensures dest[..j + 1] == old(dest[..j]) + [s[i]]
    ensures Ahead(src[..], s, i + 1) && src[i] == s[i]
  {
    if src != dest || i != j {
      dest[j] := src[i];
    }
    assert src[..][i] == s[i];
  }

  /** Write the bytes of an entity over its text. */
  method WriteEntity(uc: Code, src: array<Byte>, dest: array<Byte>, i: nat, j: nat, at: nat, max: nat, ghost s: CString)
    returns (n: nat)
    requires i < |s| && Ahead(src[..], s, i) && at + |Emit(uc)| <= j <= i && j < dest.Length && j <= max
    modifies dest
    ensures n == if |Emit(uc)| < max - at then |Emit(uc)| else 0
    ensures n > 0 ==> dest[..at + n] == old(dest[..at]) + Emit(uc)
    ensures Ahead(src[..], s, i)
  {
    hide Emit;
    n := WriteUtf8(uc, dest, at, max - at);
    assert n > 0 ==> dest[..at + n] == dest[..][..at + n];
  }

  /** The end of a round: the bytes of the entity that was found, or the character itself. */
  method Output(
    src: array<Byte>, dest: array<Byte>, i: nat, j: nat, found: bool, st: State, max: nat, decode: EntityTable,
    ghost s: CString, ghost st0: State)
    returns (ok: bool, next: nat)
    requires Sound(decode)
    requires i < |s| && Ahead(src[..], s, i) && j <= i && j <= max && j < dest.Length
    requires Progress(decode, s, max, i, st0, dest[..j])
    requires found ==>
               && st0.ampStart >= 0 && s[i] == SEMICOLON && st.ampStart == -1 && st.ampStartDest == st0.ampStartDest
               && st0.ampStart + 1 <= i && st.uc == EntityCode(decode, s[st0.ampStart + 1..i]) && Positive(st.uc)
    requires !found ==> Progress(decode, s, max, i + 1, st, dest[..j] + [s[i]])
    modifies dest
    ensures !ok ==> !Fits(decode, s, 0, 0, max)
    ensures ok ==>
              && next <= i + 1 && next <= max
              && next <= dest.Length && Progress(decode, s, max, i + 1, st, dest[..next])
              && Ahead(src[..], s, i + 1)
              && (!found ==> src[i] == s[i])
  {
    hide Progress, Fits, Unescaped, EntityCode, Emit, Sound;
    ghost var out := dest[..j];
    next := j + 1;
    var n := 0;
    AtEnd(src[..], s, i);
    if found {
      StepDecoded(decode, s, max, i, st0, st, out);
      assert out[..st.ampStartDest] == dest[..st.ampStartDest];
      n := WriteEntity(st.uc, src, dest, i, j, st.ampStartDest, max, s);
    }
    if n > 0 {
      AtEnd(src[..], s, i);
      return true, st.ampStartDest + n;
    }
    if j + 1 > max {
      if !found {
        Overflow(decode, s, max, i + 1, st, out + [s[i]]);
      }
      return false, j;
    }
    CopyCharacter(src, dest, i, j, s);
    ok := true;
  }

  /**
    `hts_unescapeEntities`.  The contract is the same whether `dest` is another array or `src`
    itself: 0 exactly when the text fits, and then the unescaped text with its NUL.
   */
  method UnescapeEntities(src: array<Byte>, dest: array<Byte>, max: nat, decode: EntityTable, ghost s: CString)
    returns (r: int)
    requires max != 0 && Sound(decode)
    requires HoldsString(src, s)
    requires src != dest ==> max < dest.Length
    modifies dest
    ensures r == if Fits(decode, s, 0, 0, max) then 0 else -1
    ensures r == 0 ==> var n := |Unescaped(decode, s, 0)|;
              && n <= max && n < dest.Length
              && dest[..n] == Unescaped(decode, s, 0) && dest[n] == 0
  {
    hide Progress, Fits, Unescaped, EntityCode, Emit, Sound;
    var i: nat, j: nat := 0, 0;
    var st := State(-1, 0, NO_CODE, false, 0);
    Started(decode, s, max, st);
    assert dest[..0] == [];
    while src[i] != 0
      invariant i <= |s| && j <= i && j <= max && j < dest.Length
      invariant Ahead(src[..], s, i)
      invariant st.ampStart == -1 || 0 <= st.ampStart < i
      invariant i == st.ampStart + 2 && st.ampStart >= 0 ==> src[i - 1] == s[i - 1]
      invariant Progress(decode, s, max, i, st, dest[..j])
      decreases |s| - i
    {
      AtEnd(src[..], s, i);
      ghost var st0, out := st, dest[..j];
      var found := false;
      if src[i] == AMP {
        st := st.(ampStart := i, ampStartDest := j, uc := NO_CODE, hash := 0);
        StepAmp(decode, s, max, i, st0, st, out);
      } else if st.ampStart != -1 {
        InEntity(decode, s, max, i, st, out);
        st, found := Inside(src, i, st, decode, s, max, out);
      } else {
        StepPlain(decode, s, max, i, st, out);
      }
      var ok, next := Output(src, dest, i, j, found, st, max, decode, s, st0);
      if !ok {
        return -1;
      }
      i, j := i + 1, next;
    }
    AtEnd(src[..], s, i);
    Finished(decode, s, max, st, dest[..j]);
    dest[j] := 0;
    r := 0;
  }

  /** The loop ends at the NUL of the source text. */
  lemma AtEnd(a: seq<Byte>, s: CString, i: nat)
    requires Ahead(a, s, i)
    ensures a[i] == 0 <==> i == |s|
    ensures i < |s| ==> a[i] == s[i]
    ensures i < |s| ==> Ahead(a, s, i + 1)
  {
    assert i < |s| ==> s[i] in s;
  }

  /**
    The documented in-place use: once with a separate destination, once on top of the source.  Both
    runs give the same result, which is never longer than the text.
   */
  method UnescapeBothWays(src: array<Byte>, dest: array<Byte>, max: nat, decode: EntityTable, ghost s: CString)
    returns (apart: int, inPlace: int)
    requires max != 0 && Sound(decode)
    requires HoldsString(src, s) && src != dest && max < dest.Length
    modifies src, dest
    ensures apart == inPlace && (|s| <= max ==> apart == 0)
    ensures apart == 0 ==> var n := |Unescaped(decode, s, 0)|;
              && n <= |s| && n < dest.Length
              && src[..n + 1] == dest[..n + 1] == Unescaped(decode, s, 0) + [0]
  {
    hide Fits, Unescaped, Sound;
    NeverLonger(decode, s, 0, 0, max);
    apart := UnescapeEntities(src, dest, max, decode, s);
    inPlace := UnescapeEntities(src, src, max, decode, s);
    if apart == 0 {
      ghost var n := |Unescaped(decode, s, 0)|;
      assert src[..n + 1] == src[..n] + [0];
      assert dest[..n + 1] == dest[..n] + [0];
    }
  }
}
