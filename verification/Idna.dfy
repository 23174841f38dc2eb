/**
  Internationalized host names: each segment of a URL with a non-ASCII character becomes `xn--` and
  its Punycode, and back.  Punycode itself (RFC 3492) is a parameter.
 */
module Idna {
  import opened Bytes
  import opened Utf8

  datatype Text = Failed | Text(bytes: seq<Byte>)
  datatype Codes = Bad | Codes(codes: seq<Code>)

  /** `punycode_encode` and `punycode_decode`. */
  type Encoder = seq<Code> -> Text
  type Decoder = seq<Byte> -> Codes

  const PREFIX: seq<Byte> := [120, 110, 45, 45]

  /** The characters that end a segment. */
  predicate IsSeparator(c: Byte) {
    c == 0 || c == 46 || c == 58 || c == 47 || c == 63
  }

  predicate IsAscii(s: seq<Byte>) {
    forall k :: 0 <= k < |s| ==> s[k] < 0x80
  }

  predicate IsSegment(s: seq<Byte>) {
    forall k :: 0 <= k < |s| ==> !IsSeparator(s[k])
  }

  /** `xn--`, in any case, with something behind it. */
  predicate LooksIdna(s: seq<Byte>) {
    |s| > 4 && (s[0] == 120 || s[0] == 88) && (s[1] == 110 || s[1] == 78) && s[2] == 45 && s[3] == 45
  }

  /** `xn`, `Xn`, `xN` or `XN`, two dashes, and at least one character more. */
  lemma LooksMeans(s: seq<Byte>)
    ensures LooksIdna(s) <==>
              |s| >= 5 && s[..4] in [[120, 110, 45, 45], [88, 110, 45, 45], [120, 78, 45, 45], [88, 78, 45, 45]]
  {
    if |s| >= 5 {
      assert s[..4] == [s[0], s[1], s[2], s[3]];
    }
  }

  /** The length of the first segment. */
  function SegmentLength(s: seq<Byte>): (n: nat)
    ensures n <= |s| && IsSegment(s[..n]) && (n < |s| ==> IsSeparator(s[n]))
  {
    if s == [] || IsSeparator(s[0]) then 0
    else
      assert forall k :: 1 <= k <= SegmentLength(s[1..]) ==> s[k] == s[1..][k - 1] || k == |s|;
      1 + SegmentLength(s[1..])
  }

  // ---- One segment ----

  /** How many bytes there are before the next start of a character. */
  function Stray(s: seq<Byte>): (n: nat)
    ensures n <= |s| && (n < |s| ==> IsLeading(s[n])) && forall k :: 0 <= k < n ==> !IsLeading(s[k])
  {
    if s == [] || IsLeading(s[0]) then 0
    else
      assert forall k :: 1 <= k < |s| ==> s[k] == s[1..][k - 1];
      1 + Stray(s[1..])
  }

  /**
    The codes of a segment: each leading byte with the continuation bytes behind it is read;
    continuation bytes too many are ignored.
   */
  function CodesOf(s: seq<Byte>): Codes
    decreases |s|
  {
    if s == [] then Codes([])
    else if !IsLeading(s[0]) then CodesOf(s[1..])
    else if s[0] < 0x80 then Behind([s[0] as Code], CodesOf(s[1..]))
    else
      var n := 1 + Stray(s[1..]);
      var code := Read(s[..n], 0).code;
      if code.None? then Bad else Behind([code.value], CodesOf(s[n..]))
  }

  function Behind(codes: seq<Code>, rest: Codes): Codes {
    if rest.Bad? then Bad else Codes(codes + rest.codes)
  }

  datatype Direction = ToIdna(encode: Encoder) | FromIdna(decode: Decoder)

  /** The conversion of one segment. */
  function Segment(d: Direction, s: seq<Byte>): Text {
    match d
    case ToIdna(encode) =>
      if IsAscii(s) then Text(s)
      else (
        match CodesOf(s)
        case Bad => Failed
        case Codes(codes) => Join(PREFIX, encode(codes))
      )
    case FromIdna(decode) =>
      if !LooksIdna(s) then Text(s)
      else (
        match decode(s[4..])
        case Bad => Failed
        case Codes(codes) => Text(EncodeAll(codes))
      )
  }

  function Join(before: seq<Byte>, rest: Text): Text {
    if rest.Failed? then Failed else Text(before + rest.bytes)
  }

  /** The conversion of a whole string, segment by segment, separators in place. */
  function Convert(d: Direction, s: seq<Byte>): Text
    decreases |s|
  {
    var n := SegmentLength(s);
    var x := Segment(d, s[..n]);
    if x.Failed? then Failed
    else if n == |s| then x
    else Join(x.bytes + [s[n]], Convert(d, s[n + 1..]))
  }

  // ---- What Punycode promises ----

  ghost predicate HasNonAscii(codes: seq<Code>) {
    exists k :: 0 <= k < |codes| && codes[k] >= 0x80
  }

  /** A character Punycode may emit for `codes`. */
  ghost predicate Emitted(c: Byte, codes: seq<Code>) {
    c == 45 || 48 <= c <= 57 || 97 <= c <= 122 || (c < 0x80 && c as Code in codes)
  }

  /** Decoding inverts encoding, encoding gives plain characters, and decoding gives no more codes than characters. */
  ghost predicate IsPunycode(encode: Encoder, decode: Decoder) {
    && (forall codes :: HasNonAscii(codes) && encode(codes).Text? ==>
          var e := encode(codes).bytes;
          e != [] && decode(e) == Codes(codes) && forall k :: 0 <= k < |e| ==> Emitted(e[k], codes))
    && (forall e :: decode(e).Codes? ==> |decode(e).codes| <= |e|)
  }

  // ---- Shortest-form UTF-8 ----

  /** `c` is one character in its shortest form. */
  ghost predicate IsCharacter(c: seq<Byte>) {
    IsSequence(c) && Emit(CodeOf(c)) == c
  }

  function FirstLength(s: seq<Byte>): (n: nat)
    requires s != []
    ensures 1 <= n <= |s|
  {
    var n := SequenceLength(s[0]);
    if 1 <= n <= |s| then n else 1
  }

  /** Characters in their shortest form. */
  ghost predicate Shortest(s: seq<Byte>)
    decreases |s|
  {
    s == [] || (IsCharacter(s[..FirstLength(s)]) && Shortest(s[FirstLength(s)..]))
  }

  /** A character is an ASCII byte, or bytes that are not ASCII and of which only the first is leading. */
  lemma CharacterBytes(c: seq<Byte>)
    requires IsSequence(c)
    ensures 1 <= |c| == SequenceLength(c[0]) && IsLeading(c[0])
    ensures if |c| == 1 then c[0] < 0x80 && CodeOf(c) == c[0] as Code else forall k :: 0 <= k < |c| ==> c[k] >= 0x80
    ensures forall k :: 1 <= k < |c| ==> !IsLeading(c[k])
  {
    hide CodeOf;
    Nlz8Counts(!c[0]);
    if |c| == 1 {
      assert CodeOf(c) == c[0] as Code by {
        OneByteCode(c);
      }
    }
    forall k | 1 <= k < |c|
      ensures c[k] >= 0x80 && !IsLeading(c[k])
    {
      assert IsContinuation(c[1..][k - 1]);
    }
  }

  lemma OneByteCode(c: seq<Byte>)
    requires |c| == 1
    ensures CodeOf(c) == c[0] as Code
  {
  }

  /** The first character of `c + rest`. */
  lemma FirstCharacter(c: seq<Byte>, rest: seq<Byte>)
    requires IsSequence(c)
    ensures c + rest != [] && FirstLength(c + rest) == |c|
    ensures Read(c + rest, 0) == ReadResult(Some(CodeOf(c)), |c|)
  {
    hide Read, CodeOf, SequenceLength;
    CharacterBytes(c);
    var s := c + rest;
    assert s[0] == c[0] && s[0..|c|] == c;
    ReadsSequences(s, 0);
  }

  lemma ShortestCons(c: seq<Byte>, rest: seq<Byte>)
    requires IsCharacter(c)
    ensures Shortest(c + rest) <==> Shortest(rest)
  {
    hide Read, CodeOf, SequenceLength, IsSequence, Emit;
    FirstCharacter(c, rest);
    assert (c + rest)[..|c|] == c && (c + rest)[|c|..] == rest;
  }

  lemma CharacterIsSegment(c: seq<Byte>)
    requires IsSequence(c) && c != [] && !IsSeparator(c[0])
    ensures IsSegment(c)
  {
    hide IsSequence, CodeOf;
    CharacterBytes(c);
  }

  /** The first character and the rest. */
  lemma ShortestFirst(s: seq<Byte>)
    requires Shortest(s) && s != []
    ensures IsSequence(s[..FirstLength(s)]) && IsCharacter(s[..FirstLength(s)]) && Shortest(s[FirstLength(s)..])
  {
  }

  lemma ShortestNil()
    ensures Shortest([])
  {
  }

  /** Splitting at the first separator keeps characters whole. */
  lemma {:induction false} ShortestSegment(s: seq<Byte>)
    requires Shortest(s)
    ensures var n := SegmentLength(s);
            Shortest(s[..n]) && (n < |s| ==> Shortest(s[n + 1..]))
    decreases |s|
  {
    hide IsSequence, IsCharacter, Shortest, FirstLength, SegmentLength, IsSegment, IsSeparator;
    ShortestNil();
    if s == [] {
      assert s[..SegmentLength(s)] == [];
    } else if IsSeparator(s[0]) {
      SeparatorFirst(s);
      assert s[..0] == [];
    } else {
      ShortestFirst(s);
      var m := FirstLength(s);
      var c, rest := s[..m], s[m..];
      CharacterIsSegment(c);
      ShortestSegment(rest);
      SegmentBehind(s, m);
      var k := SegmentLength(rest);
      ShortestCons(c, rest[..k]);
      assert s[..m + k] == c + rest[..k];
      assert m + k < |s| ==> s[m + k + 1..] == rest[k + 1..];
    }
  }

  lemma {:induction false} SegmentBehind(s: seq<Byte>, m: nat)
    requires m <= |s| && IsSegment(s[..m])
    ensures SegmentLength(s) == m + SegmentLength(s[m..])
    decreases m
  {
    if m > 0 {
      assert s[..m][0] == s[0];
      assert s[1..][..m - 1] == s[..m][1..];
      SegmentBehind(s[1..], m - 1);
      assert s[1..][m - 1..] == s[m..];
    } else {
      assert s[0..] == s;
    }
  }

  lemma SeparatorFirst(s: seq<Byte>)
    requires s != [] && IsSeparator(s[0]) && Shortest(s)
    ensures SegmentLength(s) == 0 && Shortest(s[1..])
  {
    Nlz8Counts(!s[0]);
    assert FirstLength(s) == 1;
  }

  // ---- Codes of a segment ----

  lemma StrayBytes(s: seq<Byte>, n: nat)
    requires n <= |s| && (n < |s| ==> IsLeading(s[n])) && forall k :: 0 <= k < n ==> !IsLeading(s[k])
    ensures Stray(s) == n
  {
  }

  lemma CharacterCode(c: seq<Byte>)
    requires IsCharacter(c)
    ensures 1 <= |c| <= 6 && Encodable(CodeOf(c)) && (|c| == 1 <==> CodeOf(c) < 0x80)
    ensures |c| == 1 ==> CodeOf(c) == c[0] as Code && c[0] < 0x80
  {
    hide CodeOf, Emit2, Emit3, Emit4, Emit5, Emit6, SequenceLength;
    SequenceRewrites(c);
    CharacterBytes(c);
  }

  /** `CodesOf` takes one character off the front. */
  lemma CodesCons(c: seq<Byte>, rest: seq<Byte>)
    requires IsCharacter(c) && Shortest(rest)
    ensures CodesOf(c + rest) == Behind([CodeOf(c)], CodesOf(rest))
  {
    hide CodeOf, Read, Emit, IsLeading, SequenceLength, IsSequence, Stray;
    var s := c + rest;
    CharacterBytes(c);
    if rest != [] {
      CharacterBytes(rest[..FirstLength(rest)]);
    }
    if |c| == 1 {
      assert s[0] == c[0] && s[1..] == rest;
      AsciiLeads(c[0]);
    } else {
      LongCodesCons(c, rest);
    }
  }

  lemma LongCodesCons(c: seq<Byte>, rest: seq<Byte>)
    requires IsCharacter(c) && Shortest(rest) && |c| > 1 && (rest != [] ==> IsLeading(rest[0]))
    ensures CodesOf(c + rest) == Behind([CodeOf(c)], CodesOf(rest))
  {
    hide CodeOf, Read, Emit, IsLeading, SequenceLength, IsSequence, Stray, Shortest;
    var s := c + rest;
    CharacterBytes(c);
    assert s[1..] == c[1..] + rest;
    StrayBytes(s[1..], |c| - 1);
    assert s[..|c|] == c && s[|c|..] == rest;
    FirstCharacter(c, []);
    assert c + [] == c;
  }

  lemma AsciiLeads(c: Byte)
    ensures c < 0x80 ==> IsLeading(c)
  {
  }

  /** The ASCII codes are characters of the text. */
  ghost predicate AsciiFrom(codes: seq<Code>, s: seq<Byte>) {
    forall b: Byte :: b < 0x80 && b as Code in codes ==> b in s
  }

  /** What is known of the codes of a segment. */
  ghost predicate CodesFor(codes: seq<Code>, s: seq<Byte>) {
    && AllEncodable(codes) && EncodeAll(codes) == s
    && (IsAscii(s) || HasNonAscii(codes))
    && AsciiFrom(codes, s)
  }

  lemma CodesForCons(c: seq<Byte>, rest: seq<Byte>, codes: seq<Code>)
    requires IsCharacter(c) && CodesFor(codes, rest)
    ensures CodesFor([CodeOf(c)] + codes, c + rest)
  {
    hide IsCharacter, CodeOf, Emit, EncodeAll, AsciiFrom, HasNonAscii, IsAscii, Encodable;
    CharacterCode(c);
    EncodeCons(CodeOf(c), codes);
    AsciiFromCons(c, rest, codes);
    NonAsciiCons(c, rest, CodeOf(c), codes);
    CharacterEmits(c);
  }

  lemma CharacterEmits(c: seq<Byte>)
    requires IsCharacter(c)
    ensures Emit(CodeOf(c)) == c
  {
  }

  lemma NonAsciiCons(c: seq<Byte>, rest: seq<Byte>, uc: Code, codes: seq<Code>)
    requires IsAscii(rest) || HasNonAscii(codes)
    requires uc >= 0x80 || (|c| == 1 && c[0] < 0x80)
    ensures IsAscii(c + rest) || HasNonAscii([uc] + codes)
  {
    hide HasNonAscii;
    if uc >= 0x80 || HasNonAscii(codes) {
      NonAsciiCode(uc, codes);
    }
  }

  lemma NonAsciiCode(uc: Code, codes: seq<Code>)
    requires uc >= 0x80 || HasNonAscii(codes)
    ensures HasNonAscii([uc] + codes)
  {
    var all := [uc] + codes;
    if uc >= 0x80 {
      assert all[0] == uc;
    } else {
      var k :| 0 <= k < |codes| && codes[k] >= 0x80;
      assert all[k + 1] == codes[k];
    }
  }

  lemma AsciiFromCons(c: seq<Byte>, rest: seq<Byte>, codes: seq<Code>)
    requires IsCharacter(c) && AsciiFrom(codes, rest)
    ensures AsciiFrom([CodeOf(c)] + codes, c + rest)
  {
    hide CodeOf, Emit, IsSequence;
    CharacterCode(c);
    forall b: Byte | b < 0x80 && b as Code in [CodeOf(c)] + codes
      ensures b in c + rest
    {
      if b as Code !in codes {
        assert b as Code == CodeOf(c) == c[0] as Code;
        SameByte(b, c[0]);
        assert c[0] in c + rest;
      }
    }
  }

  lemma SameByte(a: Byte, b: Byte)
    requires a as Code == b as Code
    ensures a == b
  {
  }

  /** A segment in shortest form is read completely, and writing its codes gives it back. */
  lemma {:induction false} ShortestCodes(s: seq<Byte>)
    requires Shortest(s)
    ensures CodesOf(s).Codes? && CodesFor(CodesOf(s).codes, s)
    decreases |s|
  {
    hide IsCharacter, CodesFor, CodesOf, SequenceLength, CodeOf;
    if s == [] {
      NoCodes();
    } else {
      var m := FirstLength(s);
      ShortestCodes(s[m..]);
      CodesCons(s[..m], s[m..]);
      CodesForCons(s[..m], s[m..], CodesOf(s[m..]).codes);
      assert s[..m] + s[m..] == s;
    }
  }

  lemma NoCodes()
    ensures CodesOf([]) == Codes([]) && CodesFor([], [])
  {
  }

  // ---- There and back ----

  lemma PlainIsSegment(e: seq<Byte>, codes: seq<Code>, s: seq<Byte>)
    requires (forall k :: 0 <= k < |e| ==> Emitted(e[k], codes)) && AsciiFrom(codes, s) && IsSegment(s)
    ensures IsSegment(PREFIX + e)
  {
    forall k | 0 <= k < |e|
      ensures !IsSeparator(e[k])
    {
      assert Emitted(e[k], codes);
      if e[k] < 0x80 && e[k] as Code in codes {
        assert e[k] in s;
      }
    }
  }

  /** One segment: what the conversion gives is a segment, and converts back unless it is ASCII. */
  lemma SegmentRoundTrip(encode: Encoder, decode: Decoder, s: seq<Byte>)
    requires IsPunycode(encode, decode) && IsSegment(s) && Shortest(s) && Segment(ToIdna(encode), s).Text?
    ensures var x := Segment(ToIdna(encode), s).bytes;
            && IsSegment(x) && (x == [] <==> s == [])
            && if IsAscii(s) then x == s else Segment(FromIdna(decode), x) == Text(s)
  {
    hide AllEncodable, EncodeAll, CodesOf, HasNonAscii, AsciiFrom, Emitted;
    ShortestCodes(s);
    if !IsAscii(s) {
      var codes := CodesOf(s).codes;
      var e := encode(codes).bytes;
      PlainIsSegment(e, codes, s);
      assert (PREFIX + e)[4..] == e;
    }
  }

  /** As many codes as ASCII characters. */
  lemma {:induction false} AsciiNeedsCodes(codes: seq<Code>, n: nat)
    requires n <= |EncodeAll(codes)| && forall k :: 0 <= k < n ==> EncodeAll(codes)[k] < 0x80
    ensures n <= |codes|
    decreases |codes|
  {
    hide EncodeAll, Emit;
    if n > 0 {
      if codes == [] {
        NoCodes();
      } else {
        var uc, rest := codes[0], codes[1..];
        assert codes == [uc] + rest;
        EncodeCons(uc, rest);
        AsciiStart(uc, EncodeAll(rest));
        AsciiNeedsCodes(rest, n - 1);
      }
    }
  }

  lemma AsciiStart(uc: Code, rest: seq<Byte>)
    requires |Emit(uc) + rest| > 0 && (Emit(uc) + rest)[0] < 0x80
    ensures |Emit(uc)| == 1 && (Emit(uc) + rest)[1..] == rest
  {
    EmitSize(uc);
    HighStart(uc);
    assert (Emit(uc) + rest)[0] == Emit(uc)[0];
  }

  lemma HighStart(uc: Code)
    ensures |Emit(uc)| >= 1 && (uc >= 0x80 ==> Emit(uc)[0] >= 0x80)
  {
    hide NextByte;
  }

  /** An ASCII segment that is taken for an encoded one is never decoded to itself. */
  lemma DecodesElsewhere(decode: Decoder, x: seq<Byte>, after: seq<Byte>, after': seq<Byte>)
    requires IsSegment(x) && IsAscii(x) && LooksIdna(x)
    requires forall e :: decode(e).Codes? ==> |decode(e).codes| <= |e|
    requires after != [] ==> IsSeparator(after[0])
    requires after == [] ==> after' == []
    requires Segment(FromIdna(decode), x).Text?
    ensures Segment(FromIdna(decode), x).bytes + after != x + after'
  {
    hide EncodeAll;
    var codes := decode(x[4..]).codes;
    var y := EncodeAll(codes);
    if |y| >= |x| && forall k :: 0 <= k < |x| ==> y[k] == x[k] {
      AsciiNeedsCodes(codes, |x|);
      assert false;
    } else if |y| >= |x| {
      var k :| 0 <= k < |x| && y[k] != x[k];
      assert (y + after)[k] == y[k] && (x + after')[k] == x[k];
    } else if after != [] {
      assert (y + after)[|y|] == after[0] && (x + after')[|y|] == x[|y|];
    } else {
      assert |y + after| < |x + after'|;
    }
  }

  /** No ASCII segment looks like an encoded one. */
  predicate NoneLooksIdna(s: seq<Byte>)
    decreases |s|
  {
    var n := SegmentLength(s);
    !(IsAscii(s[..n]) && LooksIdna(s[..n])) && (n < |s| ==> NoneLooksIdna(s[n + 1..]))
  }

  lemma FirstSegment(x: seq<Byte>, rest: seq<Byte>)
    requires IsSegment(x) && (rest != [] ==> IsSeparator(rest[0]))
    ensures SegmentLength(x + rest) == |x| && (x + rest)[..|x|] == x
  {
    SegmentBehind(x + rest, |x|);
    assert (x + rest)[..|x|] == x && (x + rest)[|x|..] == rest;
  }

  /** The conversion of a segment with a separator and more behind it. */
  lemma ConvertFirst(d: Direction, x: seq<Byte>, c: Byte, rest: seq<Byte>)
    requires IsSegment(x) && IsSeparator(c)
    ensures Convert(d, x) == Segment(d, x)
    ensures Convert(d, x + [c] + rest) ==
              if Segment(d, x).Failed? then Failed else Join(Segment(d, x).bytes + [c], Convert(d, rest))
  {
    hide Segment, IsSegment, IsSeparator, SegmentLength;
    FirstSegment(x, []);
    assert x + [] == x;
    FirstSegment(x, [c] + rest);
    var s := x + ([c] + rest);
    assert s == x + [c] + rest && s[|x|] == c && s[|x| + 1..] == rest;
  }

  /**
    Converting to IDNA and back: a string in shortest-form UTF-8 comes back, separators in place,
    exactly when none of its ASCII segments looks like an encoded one.
   */
  lemma {:induction false} RoundTrip(encode: Encoder, decode: Decoder, s: seq<Byte>)
    requires IsPunycode(encode, decode) && Shortest(s) && Convert(ToIdna(encode), s).Text?
    ensures Convert(FromIdna(decode), Convert(ToIdna(encode), s).bytes) == Text(s) <==> NoneLooksIdna(s)
    decreases |s|
  {
    hide Segment, IsPunycode, SegmentLength, IsAscii, LooksIdna, IsSegment, IsSeparator, Convert, Shortest;
    var n := SegmentLength(s);
    ShortestSegment(s);
    SegmentOf(s);
    var seg := s[..n];
    if n == |s| {
      assert seg == s;
      SeparatorNul();
      ConvertFirst(ToIdna(encode), seg, 0, []);
      SegmentRoundTrip(encode, decode, seg);
      LastSegment(encode, decode, seg);
    } else {
      var c, rest := s[n], s[n + 1..];
      assert s == seg + [c] + rest;
      ConvertFirst(ToIdna(encode), seg, c, rest);
      SegmentRoundTrip(encode, decode, seg);
      RoundTrip(encode, decode, rest);
      InnerSegment(encode, decode, seg, c, rest);
    }
  }

  lemma LastSegment(encode: Encoder, decode: Decoder, seg: seq<Byte>)
    requires IsPunycode(encode, decode) && IsSegment(seg) && Shortest(seg) && Segment(ToIdna(encode), seg).Text?
    ensures Convert(FromIdna(decode), Segment(ToIdna(encode), seg).bytes) == Text(seg) <==>
              !(IsAscii(seg) && LooksIdna(seg))
  {
    hide IsSegment, IsSeparator, Convert, Shortest, EncodeAll, CodesOf, HasNonAscii, Emitted;
    SegmentRoundTrip(encode, decode, seg);
    var x := Segment(ToIdna(encode), seg).bytes;
    SeparatorNul();
    ConvertFirst(FromIdna(decode), x, 0, []);
    if IsAscii(seg) && LooksIdna(seg) && Segment(FromIdna(decode), seg).Text? {
      DecodesElsewhere(decode, seg, [], []);
      assert Segment(FromIdna(decode), seg).bytes + [] == Segment(FromIdna(decode), seg).bytes && seg + [] == seg;
    }
  }

  lemma SeparatorNul()
    ensures IsSeparator(0)
  {
  }

  lemma InnerSegment(encode: Encoder, decode: Decoder, seg: seq<Byte>, c: Byte, rest: seq<Byte>)
    requires IsPunycode(encode, decode) && IsSegment(seg) && Shortest(seg) && IsSeparator(c)
    requires Segment(ToIdna(encode), seg).Text? && Convert(ToIdna(encode), rest).Text?
    requires Convert(FromIdna(decode), Convert(ToIdna(encode), rest).bytes) == Text(rest) <==> NoneLooksIdna(rest)
    ensures var t := Segment(ToIdna(encode), seg).bytes + [c] + Convert(ToIdna(encode), rest).bytes;
            Convert(FromIdna(decode), t) == Text(seg + [c] + rest) <==>
              !(IsAscii(seg) && LooksIdna(seg)) && NoneLooksIdna(rest)
  {
    hide IsSegment, IsSeparator, Convert, Shortest, EncodeAll, CodesOf, HasNonAscii, Emitted, NoneLooksIdna;
    SegmentRoundTrip(encode, decode, seg);
    var x, back := Segment(ToIdna(encode), seg).bytes, Convert(ToIdna(encode), rest).bytes;
    var from_ := FromIdna(decode);
    ConvertFirst(from_, x, c, back);
    var y, z := Segment(from_, x), Convert(from_, back);
    if IsAscii(seg) && LooksIdna(seg) {
      if y.Text? && z.Text? {
        DecodesElsewhere(decode, seg, [c] + z.bytes, [c] + rest);
        assert y.bytes + ([c] + z.bytes) == y.bytes + [c] + z.bytes;
        assert seg + ([c] + rest) == seg + [c] + rest;
      }
    } else {
      assert y == Text(seg);
      if z.Text? {
        assert (seg + [c] + z.bytes)[|seg| + 1..] == z.bytes && (seg + [c] + rest)[|seg| + 1..] == rest;
      }
    }
  }

  lemma SegmentOf(s: seq<Byte>)
    ensures IsSegment(s[..SegmentLength(s)]) && (SegmentLength(s) < |s| ==> IsSeparator(s[SegmentLength(s)]))
  {
  }

  // ---- The converters ----

  lemma UnfoldGroup(s: seq<Byte>, a: nat, j: nat)
    requires a < j <= |s| && IsLeading(s[a]) && s[a] >= 0x80
    requires (forall k :: a < k < j ==> !IsLeading(s[k])) && (j < |s| ==> IsLeading(s[j]))
    ensures var code := Read(s[a..j], 0).code;
            && CodesOf(s[a..]) == (if code.None? then Bad else Behind([code.value], CodesOf(s[j..])))
            && (code.Some? ==> a + 2 <= j)
  {
    hide Read, Behind, IsLeading, SequenceLength, IsSequence;
    var rest := s[a..];
    assert forall k :: 0 < k < |rest| ==> rest[k] == s[a + k];
    assert rest[1..] == s[a + 1..];
    StrayBytes(rest[1..], j - a - 1);
    assert rest[..j - a] == s[a..j] && rest[j - a..] == s[j..];
    ReadsSequences(s[a..j], 0);
    Nlz8Counts(!s[a]);
    LongStart(s[a]);
  }

  lemma LongStart(c: Byte)
    ensures c >= 0x80 ==> SequenceLength(c) != 1
  {
  }

  lemma BehindMore(a: seq<Code>, b: seq<Code>, rest: Codes)
    ensures Behind(a, Behind(b, rest)) == Behind(a + b, rest)
  {
    if rest.Codes? {
      assert a + (b + rest.codes) == a + b + rest.codes;
    }
  }

  /** Where the reading of a segment has got to. */
  ghost predicate Reading(s: seq<Byte>, j: nat, utfSeq: int, done: seq<Code>, pos: nat) {
    && pos <= |s| && (if utfSeq == -1 then pos == (if j <= |s| then j else |s|) else pos == utfSeq < j <= |s|)
    && (utfSeq != -1 ==> IsLeading(s[pos]) && s[pos] >= 0x80 && forall k :: pos < k < j ==> !IsLeading(s[k]))
    && CodesOf(s) == Behind(done, CodesOf(s[pos..]))
    && |done| <= pos && (IsAscii(s[..pos]) || |done| < pos)
  }

  lemma ReadCommits(s: seq<Byte>, j: nat, utfSeq: int, done: seq<Code>, pos: nat)
    requires Reading(s, j, utfSeq, done, pos) && utfSeq != -1 && (j < |s| ==> IsLeading(s[j]))
    ensures var code := Read(s[pos..j], 0).code;
            if code.None? then CodesOf(s).Bad? else Reading(s, j, -1, done + [code.value], j)
  {
    hide Read, IsLeading, CodesOf, IsAscii;
    UnfoldGroup(s, pos, j);
    var code := Read(s[pos..j], 0).code;
    if code.Some? {
      BehindMore(done, [code.value], CodesOf(s[j..]));
    }
  }

  lemma ReadOne(s: seq<Byte>, j: nat, utfSeq: int, done: seq<Code>, pos: nat)
    requires Reading(s, j, utfSeq, done, pos) && j < |s|
    ensures utfSeq == -1 && s[j] < 0x80 ==> Reading(s, j + 1, -1, done + [s[j] as Code], j + 1)
    ensures utfSeq == -1 && s[j] >= 0x80 && IsLeading(s[j]) ==> Reading(s, j + 1, j, done, j)
    ensures !IsLeading(s[j]) ==> Reading(s, j + 1, utfSeq, done, if utfSeq == -1 then j + 1 else pos)
  {
    hide Read, Stray;
    if utfSeq == -1 {
      assert s[j..][0] == s[j] && s[j..][1..] == s[j + 1..];
      BehindMore(done, [s[j] as Code], CodesOf(s[j + 1..]));
      assert s[..j + 1] == s[..j] + [s[j]];
      AsciiLeads(s[j]);
    }
  }

  lemma ReadStarts(s: seq<Byte>)
    ensures Reading(s, 0, -1, [], 0)
  {
    assert s[0..] == s;
  }

  lemma ReadEnds(s: seq<Byte>, j: nat, done: seq<Code>, pos: nat)
    requires Reading(s, j, -1, done, pos) && j >= |s| && !IsAscii(s)
    ensures CodesOf(s) == Codes(done) && |done| < |s|
    ensures Reading(s, |s| + 1, -1, done, |s|)
  {
    assert s[..|s|] == s && s[|s|..] == [];
  }

  /** The loop over a segment that is not ASCII; its buffer of one code per byte is large enough. */
  method SegmentCodes(segData: seq<Byte>) returns (ok: bool, segInt: array<Code>, size: nat)
    requires !IsAscii(segData) && IsSegment(segData)
    ensures size <= segInt.Length
    ensures CodesOf(segData) == if ok then Codes(segInt[..size]) else Bad
  {
    hide Reading, CodesOf, Read, IsLeading, IsAscii;
    segInt := new Code[|segData|];
    size := 0;
    var utfSeq := -1;
    var j := 0;
    ghost var pos := 0;
    ReadStarts(segData);
    assert segInt[..0] == [];
    while j <= |segData|
      invariant j <= |segData| + 1 && size <= |segData|
      invariant Reading(segData, j, utfSeq, segInt[..size], pos) && -1 <= utfSeq < j
      invariant j == |segData| + 1 ==> utfSeq == -1
    {
      var c := if j < |segData| then segData[j] else 0;
      AsciiLeads(c);
      if IsLeading(c) {
        if utfSeq != -1 {
          ReadCommits(segData, j, utfSeq, segInt[..size], pos);
          Within(segData, j, utfSeq, segInt[..size], pos);
          var code, _ := ReadUnicode(segData[utfSeq..j], 0);
          if code.None? {
            return false, segInt, size;
          }
          StoreCode(segInt, size, code.value);
          size := size + 1;
          utfSeq, pos := -1, j;
        }
        if j < |segData| {
          ReadOne(segData, j, utfSeq, segInt[..size], pos);
          Within(segData, j, utfSeq, segInt[..size], pos);
        } else {
          ReadEnds(segData, j, segInt[..size], pos);
        }
        if c < 0x80 {
          StoreCode(segInt, size, c as Code);
          if c != 0 {
            size := size + 1;
          }
          pos := if j < |segData| then j + 1 else j;
        } else {
          utfSeq, pos := j, j;
        }
      } else {
        ReadOne(segData, j, utfSeq, segInt[..size], pos);
        pos := if utfSeq == -1 then j + 1 else pos;
      }
      j := j + 1;
    }
    ReadEnds(segData, j, segInt[..size], pos);
    ok := true;
  }

  method StoreCode(codes: array<Code>, size: nat, code: Code)
    requires size < codes.Length
    modifies codes
    ensures codes[..size + 1] == old(codes[..size]) + [code] && codes[..size] == old(codes[..size])
  {
    codes[size] := code;
  }

  /** There is room for another code. */
  lemma Within(s: seq<Byte>, j: nat, utfSeq: int, done: seq<Code>, pos: nat)
    requires Reading(s, j, utfSeq, done, pos)
    ensures utfSeq != -1 || j < |s| ==> |done| < |s|
    ensures utfSeq != -1 ==> utfSeq == pos && j <= |s|
  {
  }

  /** With the final NUL. */
  function Terminated(t: Text): Text {
    if t.Failed? then Failed else Text(t.bytes + [0])
  }

  /** Where the loop over the segments has got to: `dest` holds what is in front of `startSeg`. */
  ghost predicate Converting(d: Direction, s: seq<Byte>, i: nat, startSeg: nat, dest: seq<Byte>) {
    if i <= |s| then
      && startSeg <= i && IsSegment(s[startSeg..i])
      && Convert(d, s) == Join(dest, Convert(d, s[startSeg..]))
    else Terminated(Convert(d, s)) == Text(dest)
  }

  lemma ConvertStarts(d: Direction, s: seq<Byte>)
    ensures Converting(d, s, 0, 0, [])
  {
    hide Convert;
    assert s[0..] == s;
    if Convert(d, s).Text? {
      assert [] + Convert(d, s).bytes == Convert(d, s).bytes;
    }
  }

  lemma ConvertGoesOn(d: Direction, s: seq<Byte>, i: nat, startSeg: nat, dest: seq<Byte>)
    requires i < |s| && Converting(d, s, i, startSeg, dest) && !IsSeparator(s[i])
    ensures Converting(d, s, i + 1, startSeg, dest)
  {
    hide Convert, IsSeparator;
    assert s[startSeg..i + 1] == s[startSeg..i] + [s[i]];
  }

  /** At a separator, or the end: the segment is converted and the separator follows. */
  lemma ConvertSegment(d: Direction, s: seq<Byte>, i: nat, startSeg: nat, dest: seq<Byte>)
    requires i <= |s| && Converting(d, s, i, startSeg, dest) && (i < |s| ==> IsSeparator(s[i]))
    ensures var x := Segment(d, s[startSeg..i]);
            if x.Failed? then Convert(d, s).Failed?
            else Converting(d, s, i + 1, i + 1, dest + x.bytes + [if i < |s| then s[i] else 0])
  {
    hide Convert, Segment, IsSeparator;
    var seg := s[startSeg..i];
    var x := Segment(d, seg);
    if i < |s| {
      assert s[startSeg..] == seg + [s[i]] + s[i + 1..];
      ConvertFirst(d, seg, s[i], s[i + 1..]);
      if x.Text? && Convert(d, s[i + 1..]).Text? {
        var z := Convert(d, s[i + 1..]).bytes;
        assert dest + (x.bytes + [s[i]] + z) == dest + x.bytes + [s[i]] + z;
      }
    } else {
      assert s[startSeg..] == seg;
      SeparatorNul();
      ConvertFirst(d, seg, 0, []);
    }
  }

  lemma EmptySegment(d: Direction)
    ensures Segment(d, []) == Text([])
  {
  }

  /** `hts_convertStringUTF8ToIDNA`. */
  method Utf8ToIdna(s: seq<Byte>, encode: Encoder) returns (r: Text)
    ensures r == Terminated(Convert(ToIdna(encode), s))
  {
    hide Converting, Segment, Convert;
    ghost var d := ToIdna(encode);
    var dest := [];
    var startSeg, nonAsciiFound := 0, false;
    ConvertStarts(d, s);
    var i := 0;
    while i <= |s|
      invariant i <= |s| + 1 && startSeg <= i && Converting(d, s, i, startSeg, dest)
      invariant i <= |s| ==> IsSegment(s[startSeg..i]) && nonAsciiFound == !IsAscii(s[startSeg..i])
    {
      var c := if i < |s| then s[i] else 0;
      if IsSeparator(c) {
        ConvertSegment(d, s, i, startSeg, dest);
        EmptySegment(d);
        if startSeg != i {
          var segment := EncodeSegment(s[startSeg..i], nonAsciiFound, encode);
          if segment.Failed? {
            return Failed;
          }
          dest := dest + segment.bytes;
        } else {
          assert dest + [] == dest && s[startSeg..i] == [];
        }
        startSeg, nonAsciiFound := i + 1, false;
        dest := dest + [c];
        if i < |s| {
          assert s[startSeg..i + 1] == [];
        }
      } else {
        ConvertGoesOn(d, s, i, startSeg, dest);
        assert s[startSeg..i + 1] == s[startSeg..i] + [c];
        AsciiAppend(s[startSeg..i], c);
        if c >= 0x80 {
          nonAsciiFound := true;
        }
      }
      i := i + 1;
    }
    ConvertEnds(d, s, i, startSeg, dest);
    r := Text(dest);
  }

  lemma AsciiAppend(seg: seq<Byte>, c: Byte)
    ensures IsAscii(seg + [c]) <==> IsAscii(seg) && c < 0x80
  {
    assert (seg + [c])[..|seg|] == seg && (seg + [c])[|seg|] == c;
  }

  lemma ConvertEnds(d: Direction, s: seq<Byte>, i: nat, startSeg: nat, dest: seq<Byte>)
    requires i == |s| + 1 && Converting(d, s, i, startSeg, dest)
    ensures Terminated(Convert(d, s)) == Text(dest)
  {
  }

  /** A segment of `hts_convertStringUTF8ToIDNA`. */
  method EncodeSegment(seg: seq<Byte>, nonAsciiFound: bool, encode: Encoder) returns (r: Text)
    requires IsSegment(seg) && nonAsciiFound == !IsAscii(seg)
    ensures r == Segment(ToIdna(encode), seg)
  {
    hide CodesOf, IsSegment;
    if nonAsciiFound {
      var ok, segInt, size := SegmentCodes(seg);
      if !ok {
        return Failed;
      }
      var output := encode(segInt[..size]);
      if output.Failed? {
        return Failed;
      }
      r := Text(PREFIX + output.bytes);
    } else {
      r := Text(seg);
    }
  }

  /** `hts_convertStringIDNAToUTF8`. */
  method IdnaToUtf8(s: seq<Byte>, decode: Decoder) returns (r: Text)
    ensures r == Terminated(Convert(FromIdna(decode), s))
  {
    hide Converting, Segment, Convert;
    ghost var d := FromIdna(decode);
    var dest := [];
    var startSeg := 0;
    ConvertStarts(d, s);
    var i := 0;
    while i <= |s|
      invariant i <= |s| + 1 && startSeg <= i && Converting(d, s, i, startSeg, dest)
    {
      var c := if i < |s| then s[i] else 0;
      if IsSeparator(c) {
        ConvertSegment(d, s, i, startSeg, dest);
        var segment := DecodeSegment(s[startSeg..i], decode);
        if segment.Failed? {
          return Failed;
        }
        dest := dest + segment.bytes;
        startSeg := i + 1;
        dest := dest + [c];
      } else {
        ConvertGoesOn(d, s, i, startSeg, dest);
      }
      i := i + 1;
    }
    ConvertEnds(d, s, i, startSeg, dest);
    r := Text(dest);
  }

  /** A segment of `hts_convertStringIDNAToUTF8`. */
  method DecodeSegment(seg: seq<Byte>, decode: Decoder) returns (r: Text)
    ensures r == Segment(FromIdna(decode), seg)
  {
    hide EncodeAll;
    if !LooksIdna(seg) {
      return Text(seg);
    }
    var output := decode(seg[4..]);
    if output.Bad? {
      return Failed;
    }
    var dest := [];
    var j := 0;
    NoCodes();
    while j < |output.codes|
      invariant j <= |output.codes| && dest == EncodeAll(output.codes[..j])
    {
      EncodeLast(output.codes[..j], output.codes[j]);
      assert output.codes[..j + 1] == output.codes[..j] + [output.codes[j]];
      dest := dest + Emit(output.codes[j]);
      j := j + 1;
    }
    assert output.codes[..j] == output.codes;
    r := Text(dest);
  }

  lemma EncodeLast(codes: seq<Code>, uc: Code)
    ensures EncodeAll(codes + [uc]) == EncodeAll(codes) + Emit(uc)
  {
    hide Emit;
    assert (codes + [uc])[..|codes|] == codes;
  }

  /** Some segment looks like an encoded one. */
  predicate SomeLooksIdna(s: seq<Byte>)
    decreases |s|
  {
    var n := SegmentLength(s);
    LooksIdna(s[..n]) || (n < |s| && SomeLooksIdna(s[n + 1..]))
  }

  /** `hts_isStringIDNA`. */
  method IsStringIdna(s: seq<Byte>) returns (yes: bool)
    ensures yes == SomeLooksIdna(s)
  {
    hide SomeLooksIdna, IsSeparator, LooksIdna;
    assert s[0..] == s;
    var i, startSeg := 0, 0;
    while i <= |s|
      invariant startSeg <= i <= |s| + 1 && (i <= |s| ==> IsSegment(s[startSeg..i]))
      invariant SomeLooksIdna(s) == (i <= |s| && SomeLooksIdna(s[startSeg..]))
    {
      var c := if i < |s| then s[i] else 0;
      SeparatorNul();
      if IsSeparator(c) {
        LooksSegment(s, i, startSeg);
        if LooksIdna(s[startSeg..i]) {
          return true;
        }
        startSeg := i + 1;
      } else {
        assert s[startSeg..i + 1] == s[startSeg..i] + [c];
      }
      i := i + 1;
    }
    yes := false;
  }

  lemma LooksSegment(s: seq<Byte>, i: nat, startSeg: nat)
    requires startSeg <= i <= |s| && IsSegment(s[startSeg..i]) && (i < |s| ==> IsSeparator(s[i]))
    ensures SomeLooksIdna(s[startSeg..]) <==> LooksIdna(s[startSeg..i]) || (i < |s| && SomeLooksIdna(s[i + 1..]))
  {
    hide IsSeparator, LooksIdna, SegmentLength;
    var seg := s[startSeg..i];
    assert s[startSeg..] == seg + s[i..];
    FirstSegment(seg, s[i..]);
    if i < |s| {
      assert s[startSeg..][|seg| + 1..] == s[i + 1..];
    }
  }

  /** An ASCII string is left alone; it comes back unless `hts_isStringIDNA` says it is encoded already. */
  lemma {:induction false} AsciiUnchanged(encode: Encoder, s: seq<Byte>)
    requires IsAscii(s)
    ensures Convert(ToIdna(encode), s) == Text(s)
    ensures NoneLooksIdna(s) <==> !SomeLooksIdna(s)
    decreases |s|
  {
    hide SegmentLength, LooksIdna, Segment;
    var n := SegmentLength(s);
    AsciiPart(encode, s[..n]);
    if n < |s| {
      AsciiUnchanged(encode, s[n + 1..]);
      assert s == s[..n] + [s[n]] + s[n + 1..];
    } else {
      assert s[..n] == s;
    }
  }

  lemma AsciiPart(encode: Encoder, seg: seq<Byte>)
    requires IsAscii(seg)
    ensures Segment(ToIdna(encode), seg) == Text(seg)
  {
  }

  // ---- Host names label by label ----

  /** `.`, `/`, `:` and `?`. */
  const SEPARATORS: seq<Byte> := [46, 47, 58, 63]

  predicate IsLabel(part: seq<Byte>) {
    0 !in part && forall c :: c in SEPARATORS ==> c !in part
  }

  /** A name of labels with separators in between. */
  function Name(labels: seq<seq<Byte>>, separators: seq<Byte>): seq<Byte>
    requires |labels| == |separators| + 1
  {
    if separators == [] then labels[0]
    else labels[0] + [separators[0]] + Name(labels[1..], separators[1..])
  }

  /** Each label converted on its own. */
  function ConvertLabels(d: Direction, labels: seq<seq<Byte>>, separators: seq<Byte>): Text
    requires |labels| == |separators| + 1
  {
    var first := Segment(d, labels[0]);
    if separators == [] || first.Failed? then first
    else Join(first.bytes + [separators[0]], ConvertLabels(d, labels[1..], separators[1..]))
  }

  /** A name is converted label by label, separators in place. */
  lemma {:induction false} LabelByLabel(d: Direction, labels: seq<seq<Byte>>, separators: seq<Byte>)
    requires |labels| == |separators| + 1
    requires forall k :: 0 <= k < |labels| ==> IsLabel(labels[k])
    requires forall k :: 0 <= k < |separators| ==> separators[k] in SEPARATORS
    ensures Convert(d, Name(labels, separators)) == ConvertLabels(d, labels, separators)
  {
    hide Segment, IsLabel;
    LabelIsSegment(labels[0]);
    if separators == [] {
      ConvertFirst(d, labels[0], 0, []);
    } else {
      LabelByLabel(d, labels[1..], separators[1..]);
      ConvertFirst(d, labels[0], separators[0], Name(labels[1..], separators[1..]));
    }
  }

  lemma LabelIsSegment(part: seq<Byte>)
    requires IsLabel(part)
    ensures IsSegment(part)
  {
    forall k | 0 <= k < |part|
      ensures !IsSeparator(part[k])
    {
      assert part[k] in part;
      assert 46 in SEPARATORS && 47 in SEPARATORS && 58 in SEPARATORS && 63 in SEPARATORS;
    }
  }

  /** A label that can be read and is not ASCII becomes `xn--` and the Punycode of its codes. */
  lemma LabelEncoded(encode: Encoder, part: seq<Byte>, codes: seq<Code>)
    requires CodesOf(part) == Codes(codes) && encode(codes).Text? && exists k :: 0 <= k < |part| && part[k] >= 0x80
    ensures Segment(ToIdna(encode), part) == Text([120, 110, 45, 45] + encode(codes).bytes)
  {
  }

  /** And a label that looks encoded becomes what is behind its prefix, decoded. */
  lemma LabelDecoded(decode: Decoder, prefix: seq<Byte>, rest: seq<Byte>, codes: seq<Code>)
    requires prefix in [[120, 110, 45, 45], [88, 110, 45, 45], [120, 78, 45, 45], [88, 78, 45, 45]]
    requires rest != [] && decode(rest) == Codes(codes)
    ensures Segment(FromIdna(decode), prefix + rest) == Text(EncodeAll(codes))
  {
    assert (prefix + rest)[..4] == prefix && (prefix + rest)[4..] == rest;
    LooksMeans(prefix + rest);
  }

  /** The two conversions one after the other. */
  method ThereAndBack(s: seq<Byte>, encode: Encoder, decode: Decoder) returns (back: Text)
    requires IsPunycode(encode, decode) && Shortest(s)
    ensures Convert(ToIdna(encode), s).Text? ==> (back == Text(s + [0]) <==> NoneLooksIdna(s))
  {
    hide IsPunycode, Shortest, Convert, NoneLooksIdna;
    var idna := Utf8ToIdna(s, encode);
    if idna.Failed? {
      return Failed;
    }
    RoundTrip(encode, decode, s);
    ghost var middle := Convert(ToIdna(encode), s).bytes;
    assert (middle + [0])[..|middle|] == middle;
    back := IdnaToUtf8(idna.bytes[..|idna.bytes| - 1], decode);
    ghost var end := Convert(FromIdna(decode), middle);
    if end.Text? {
      assert (end.bytes + [0])[..|end.bytes|] == end.bytes && (s + [0])[..|s|] == s;
    }
  }
}
