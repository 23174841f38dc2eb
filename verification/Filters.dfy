/**
  The wildcard filters: patterns such as `*[A-Z,0-9].gif` and `*.gif*[<5]`, read into tokens, a
  declarative meaning for them, and the backtracking matcher.
 */
module Filters {
  import opened Bytes

  const STAR: Byte := 42
  const QUERY: Byte := 63
  const SLASH: Byte := 47
  const BACKSLASH: Byte := 92
  const DASH: Byte := 45
  const LESS: Byte := 60
  const GREATER: Byte := 62

  const MAX_LLINT: int := 0x7fff_ffff_ffff_ffff

  /** The sizes: 64-bit integers. */
  type LLint = x: int | -MAX_LLINT - 1 <= x <= MAX_LLINT

  // ---- Characters ----

  /** `hichar`. */
  function Upper(c: Byte): Byte {
    if 97 <= c <= 122 then c - 32 else c
  }

  /** `streql`. */
  predicate SameLetter(a: Byte, b: Byte) {
    Upper(a) == Upper(b)
  }

  /** Equal, or the two cases of one of the letters A to Z. */
  predicate EqualButCase(a: Byte, b: Byte) {
    a == b || (65 <= a <= 90 && b == a + 32) || (65 <= b <= 90 && a == b + 32)
  }

  lemma SameLetterMeans(a: Byte, b: Byte)
    ensures SameLetter(a, b) <==> EqualButCase(a, b)
  {
  }

  /** `s[i]` in C for an index up to the NUL. */
  function At(s: CString, i: nat): Byte {
    if i < |s| then s[i] else 0
  }

  /** `strfield(s + i, word)`: does `word` stand at `i`, whatever the case? */
  predicate FieldAt(s: CString, i: nat, word: seq<Byte>) {
    i + |word| <= |s| && forall k :: 0 <= k < |word| ==> SameLetter(s[i + k], word[k])
  }

  const FILE: seq<Byte> := [102, 105, 108, 101]
  const NAME: seq<Byte> := [110, 97, 109, 101]
  const PATH: seq<Byte> := [112, 97, 116, 104]
  const PARAM: seq<Byte> := [112, 97, 114, 97, 109]
  const MIME: seq<Byte> := [109, 105, 109, 101, 58]

  /** The local table `pass[256]`. */
  type Table = t: seq<bool> | |t| == 256 witness seq(256, i => false)

  predicate In(pass: Table, c: Byte) {
    pass[c as int]
  }

  /** The same answer for every character. */
  function Everything(value: bool): Table {
    seq(256, i => value)
  }

  /** Set the entries from `lo` to `hi`. */
  function Mark(pass: Table, lo: Byte, hi: Byte): Table {
    MarkFrom(pass, lo as int, hi as int)
  }

  function MarkFrom(pass: Table, lo: int, hi: int): Table {
    seq(256, i requires 0 <= i < 256 => pass[i] || lo <= i <= hi)
  }

  function Clear(pass: Table, c: Byte): Table {
    pass[c as int := false]
  }

  /** Would `sscanf(s + i, "%d", ..)` read a number? */
  predicate StartsInt(s: CString, i: nat)
    decreases |s| - i
  {
    if IsSpace(At(s, i)) && i < |s| then StartsInt(s, i + 1)
    else
      var k := if At(s, i) == 43 || At(s, i) == DASH then i + 1 else i;
      48 <= At(s, k) <= 57
  }

  /** The number made of the digits from `i` on, behind the ones that make `n`. */
  function DigitsFrom(s: CString, i: nat, n: nat): nat
    decreases |s| - i
  {
    if i < |s| && IsDigit(s[i]) then DigitsFrom(s, i + 1, n * 10 + s[i] as nat - 48) else n
  }

  /** The number `sscanf(s + i, "%d", ..)` reads. */
  function IntAt(s: CString, i: nat): int
    decreases |s| - i
  {
    if IsSpace(At(s, i)) && i < |s| then IntAt(s, i + 1)
    else if At(s, i) == DASH then 0 - DigitsFrom(s, i + 1, 0) as int
    else DigitsFrom(s, if At(s, i) == 43 then i + 1 else i, 0)
  }

  /** That number as an `int`: cut off at 64 bits, then reduced to 32. */
  function ToInt(v: int): (n: LLint) {
    var cut: int := if v > MAX_LLINT then MAX_LLINT else if v < -MAX_LLINT - 1 then -MAX_LLINT - 1 else v;
    var low := cut % 0x1_0000_0000;
    if low >= 0x8000_0000 then low - 0x1_0000_0000 else low
  }

  /** The number modulo 2**32 as an `int`; numbers beyond 64 bits are cut off before. */
  lemma ToIntMeans(v: int)
    ensures -0x8000_0000 <= ToInt(v) < 0x8000_0000
    ensures -0x8000_0000_0000_0000 <= v < 0x8000_0000_0000_0000 ==> (ToInt(v) - v) % 0x1_0000_0000 == 0
    ensures v >= 0x8000_0000_0000_0000 ==> ToInt(v) == -1
    ensures v < -0x8000_0000_0000_0000 ==> ToInt(v) == 0
  {
  }

  lemma MarkedAt(pass: Table, lo: int, hi: int, k: nat)
    requires k < 256
    ensures MarkFrom(pass, lo, hi)[k] == (pass[k] || lo <= k <= hi)
  {
  }

  lemma EverythingAt(value: bool, k: nat)
    requires k < 256
    ensures Everything(value)[k] == value
  {
  }

  lemma MarkMeans(pass: Table, lo: Byte, hi: Byte, c: Byte)
    ensures In(Mark(pass, lo, hi), c) <==> In(pass, c) || lo as int <= c as int <= hi as int
    ensures In(Clear(pass, lo), c) <==> In(pass, c) && c as int != lo as int
    ensures In(Everything(true), c) && !In(Everything(false), c)
  {
    hide MarkFrom, Everything;
    var k, l, h := c as int, lo as int, hi as int;
    MarkedAt(pass, l, h, k);
    EverythingAt(true, k);
    EverythingAt(false, k);
  }

  // ---- Patterns ----

  /**
    One element of a pattern: a letter; any number of characters, or one, of a class; or the parameter
    part of an URL.
   */
  datatype Token = Lit(c: Byte) | Many(pass: Table) | One(pass: Table) | Param(one: bool)

  /**
    How a pattern ends: a query string may follow; nothing may follow (`*[]`); or with a test of the
    size, less or greater than a limit, whatever follows.
   */
  datatype Ending = Open | Exact | SizeTest(less: bool, limit: LLint)

  datatype Pattern = Undefined | Pattern(tokens: seq<Token>, ending: Ending)

  /** A class `[..]` or `(..)` read from index `i`; a size test ends it, and the pattern. */
  datatype Class = BadClass | SizeClass(test: Ending) | Class(pass: Table, end: nat)

  /** Index of `right`, or of the end. */
  function Closing(j: CString, i: nat, right: Byte): (k: nat)
    requires i <= |j|
    ensures i <= k <= |j|
    decreases |j| - i
  {
    if i == |j| || j[i] == right then i else Closing(j, i + 1, right)
  }

  function SkipComma(j: CString, i: nat): (k: nat)
    requires i <= |j|
    ensures i <= k <= |j|
  {
    if At(j, i) == 44 || At(j, i) == 59 then i + 1 else i
  }

  datatype Step = Bad | Test(test: Ending) | Go(next: nat, pass: Table)

  /**
    One element of the list of a class: a range, a character, or a size test.  `Bad` where the C code
    would read past the NUL.
   */
  function ClassStep(j: CString, i: nat, pass: Table): (r: Step)
    requires i < |j|
    ensures r.Go? ==> i < r.next <= |j|
    ensures r.Test? ==> r.test.SizeTest?
  {
    if j[i] == LESS || j[i] == GREATER then
      if StartsInt(j, i + 1) then Test(SizeTest(j[i] == LESS, ToInt(IntAt(j, i + 1))))
      else Go(SkipComma(j, i + 1), pass)
    else if At(j, i + 1) == DASH then
      if i + 3 > |j| then Bad
      else Go(SkipComma(j, i + 3), if j[i + 2] as int > j[i] as int then Mark(pass, j[i], j[i + 2]) else pass)
    else if i + 2 > |j| then Bad
    else
      var k := if At(j, i + 2) == BACKSLASH && At(j, i + 3) != 0 then i + 1 else i;
      Go(SkipComma(j, k + 1), Mark(pass, j[k], j[k]))
  }

  /** A character and a comma or semicolon: both are passed over. */
  lemma SeparatorSkipped(j: CString, i: nat, pass: Table)
    requires i + 2 <= |j| && j[i] != 60 && j[i] != 62 && (j[i + 1] == 44 || j[i + 1] == 59) && At(j, i + 2) != 92
    ensures ClassStep(j, i, pass) == Go(i + 2, Mark(pass, j[i], j[i]))
  {
  }

  /** The list of a class from index `i` on. */
  function ClassFrom(j: CString, i: nat, right: Byte, pass: Table): (r: Class)
    requires i <= |j|
    ensures r.Class? ==> i <= r.end <= |j|
    ensures r.SizeClass? ==> r.test.SizeTest?
    decreases |j| - i
  {
    if i == |j| || j[i] == right then Class(pass, i)
    else
      match ClassStep(j, i, pass)
      case Bad => BadClass
      case Test(test) => SizeClass(test)
      case Go(next, pass') => ClassFrom(j, next, right, pass')
  }

  /** What stands behind a `*` that is not the whole pattern: a token, and where to go on. */
  datatype Head = BadHead | Last(ending: Ending) | Head(token: Token, next: nat)

  /** The index behind the closing bracket, if there is one. */
  function Behind(j: CString, i: nat): (k: nat)
    requires i <= |j|
    ensures i <= k <= |j|
  {
    if i < |j| then i + 1 else i
  }

  function HeadOf(j: CString): (h: Head)
    requires |j| >= 2
    ensures h.Head? ==> 1 <= h.next <= |j|
    ensures h.Last? ==> h.ending == Exact || h.ending.SizeTest?
  {
    var left := j[1];
    if (left == 91 || left == 40) && At(j, 2) != left then
      var one := left == 40;
      var right: Byte := if one then 41 else 93;
      var close := Behind(j, Closing(j, 2, right));
      if FieldAt(j, 2, FILE) || FieldAt(j, 2, NAME) then
        if one then BadHead else Head(Many(Clear(Clear(Everything(true), QUERY), SLASH)), close)
      else if FieldAt(j, 2, PATH) then
        if one then BadHead else Head(Many(Clear(Everything(true), QUERY)), close)
      else if FieldAt(j, 2, PARAM) then Head(Param(one), close)
      else if At(j, 2) == right then Last(Exact)
      else
        match ClassFrom(j, 2, right, Everything(false))
        case BadClass => BadHead
        case SizeClass(test) => Last(test)
        case Class(pass, end) => Head(if one then One(pass) else Many(pass), Behind(j, end))
    else if left == 40 then BadHead
    else Head(Many(Everything(true)), 1)
  }

  function Prepend(t: Token, p: Pattern): Pattern {
    if p.Undefined? then Undefined else Pattern([t] + p.tokens, p.ending)
  }

  /** The tokens of a pattern. */
  function Parse(j: CString): Pattern
    decreases |j|
  {
    if j == [] then Pattern([], Open)
    else if j[0] != STAR then Prepend(Lit(j[0]), Parse(j[1..]))
    else if |j| == 1 then Pattern([Many(Everything(true))], Open)
    else
      match HeadOf(j)
      case BadHead => Undefined
      case Last(ending) => Pattern([], ending)
      case Head(token, next) => Prepend(token, Parse(j[next..]))
  }

  // ---- What patterns mean ----

  /** May the token stand for this piece of text? */
  predicate Takes(t: Token, piece: seq<Byte>) {
    match t
    case Lit(c) => |piece| == 1 && SameLetter(piece[0], c)
    case Many(pass) => forall k :: 0 <= k < |piece| ==> In(pass, piece[k])
    case One(pass) => |piece| == 1 && In(pass, piece[0])
    case Param(one) => if one then piece == [QUERY] else piece == [] || piece[0] == QUERY
  }

  ghost function Flat(pieces: seq<seq<Byte>>): seq<Byte> {
    if pieces == [] then [] else pieces[0] + Flat(pieces[1..])
  }

  /** The size test holds; there is no size in a direct call without one. */
  predicate Passed(less: bool, limit: LLint, size: Option<LLint>) {
    size.Some? && size.value >= 0 && if less then size.value < limit else size.value > limit
  }

  /** What may be left over behind the tokens. */
  datatype Tail = Query | Nothing | Anything | Never

  function TailOf(ending: Ending, size: Option<LLint>): Tail {
    match ending
    case Open => Query
    case Exact => Nothing
    case SizeTest(less, limit) => if Passed(less, limit, size) then Anything else Never
  }

  predicate Leftover(tail: Tail, rest: seq<Byte>) {
    match tail
    case Query => rest == [] || rest[0] == QUERY
    case Nothing => rest == []
    case Anything => true
    case Never => false
  }

  ghost predicate Splits(tokens: seq<Token>, tail: Tail, text: seq<Byte>, pieces: seq<seq<Byte>>, rest: seq<Byte>) {
    && |pieces| == |tokens|
    && text == Flat(pieces) + rest
    && (forall i :: 0 <= i < |tokens| ==> Takes(tokens[i], pieces[i]))
    && Leftover(tail, rest)
  }

  /** The text is the pieces its tokens stand for, one after the other, and an allowed leftover. */
  ghost predicate Accepts(tokens: seq<Token>, tail: Tail, text: seq<Byte>) {
    exists pieces, rest :: Splits(tokens, tail, text, pieces, rest)
  }

  /** The first token takes the first `k` characters, the others accept the rest. */
  ghost predicate SplitsAt(t: Token, tokens: seq<Token>, tail: Tail, text: seq<Byte>, k: nat) {
    k <= |text| && Takes(t, text[..k]) && Accepts(tokens, tail, text[k..])
  }

  /** A text is accepted when some first piece is taken by the first token, and what is behind by the others. */
  lemma AcceptsCons(t: Token, tokens: seq<Token>, tail: Tail, text: seq<Byte>)
    ensures Accepts([t] + tokens, tail, text) <==> exists k :: SplitsAt(t, tokens, tail, text, k)
  {
    if Accepts([t] + tokens, tail, text) {
      var pieces, rest :| Splits([t] + tokens, tail, text, pieces, rest);
      ConsSplits(t, tokens, tail, text, pieces, rest);
    }
    if k :| SplitsAt(t, tokens, tail, text, k) {
      SplitsCons(t, tokens, tail, text, k);
    }
  }

  lemma ConsSplits(t: Token, tokens: seq<Token>, tail: Tail, text: seq<Byte>, pieces: seq<seq<Byte>>, rest: seq<Byte>)
    requires Splits([t] + tokens, tail, text, pieces, rest)
    ensures |pieces| > 0 && SplitsAt(t, tokens, tail, text, |pieces[0]|)
  {
    var k := |pieces[0]|;
    assert text == pieces[0] + (Flat(pieces[1..]) + rest);
    assert text[..k] == pieces[0] && text[k..] == Flat(pieces[1..]) + rest;
    assert Takes(([t] + tokens)[0], pieces[0]);
    forall i | 0 <= i < |tokens|
      ensures Takes(tokens[i], pieces[1..][i])
    {
      assert Takes(([t] + tokens)[i + 1], pieces[i + 1]);
    }
    assert Splits(tokens, tail, text[k..], pieces[1..], rest);
  }

  lemma SplitsCons(t: Token, tokens: seq<Token>, tail: Tail, text: seq<Byte>, k: nat)
    requires SplitsAt(t, tokens, tail, text, k)
    ensures Accepts([t] + tokens, tail, text)
  {
    var pieces, rest :| Splits(tokens, tail, text[k..], pieces, rest);
    var all := [text[..k]] + pieces;
    assert all[1..] == pieces;
    assert text == text[..k] + (Flat(pieces) + rest);
    assert Flat(all) == text[..k] + Flat(pieces);
    assert text == Flat(all) + rest;
    forall i | 0 <= i < |tokens| + 1
      ensures Takes(([t] + tokens)[i], all[i])
    {
      if i > 0 {
        assert Takes(tokens[i - 1], pieces[i - 1]);
      }
    }
    assert Splits([t] + tokens, tail, text, all, rest);
  }

  lemma AcceptsNil(tail: Tail, text: seq<Byte>)
    ensures Accepts([], tail, text) <==> Leftover(tail, text)
  {
    if Leftover(tail, text) {
      assert Splits([], tail, text, [], text);
    }
    if Accepts([], tail, text) {
      var pieces, rest :| Splits([], tail, text, pieces, rest);
      assert pieces == [];
      assert text == rest;
    }
  }

  // ---- The matcher ----

  /** The loop that reads a class into the table `pass[256]`. */
  method ReadClass(j: CString, right: Byte) returns (r: Class)
    requires |j| >= 2
    ensures r == ClassFrom(j, 2, right, Everything(false))
  {
    var pass := new bool[256](i => false);
    assert pass[..] == Everything(false);
    hide Mark, Everything, StartsInt, ClassStep, SkipComma;
    var i := 2;
    while i < |j| && j[i] != right
      invariant 2 <= i <= |j|
      invariant ClassFrom(j, i, right, pass[..]) == ClassFrom(j, 2, right, Everything(false))
      decreases |j| - i
    {
      var step := ReadElement(j, i, pass);
      match step {
        case Bad => return BadClass;
        case Test(test) => return SizeClass(test);
        case Go(next, _) => i := next;
      }
    }
    r := Class(pass[..], i);
  }

  /** One round of that loop. */
  method ReadElement(j: CString, i: nat, pass: array<bool>) returns (step: Step)
    requires i < |j| && pass.Length == 256
    modifies pass
    ensures step == ClassStep(j, i, old(pass[..]))
    ensures step.Go? ==> pass[..] == step.pass
  {
    hide MarkFrom, StartsInt, IntAt;
    var next := i;
    if j[i] == LESS || j[i] == GREATER {
      next := next + 1;
      if StartsInt(j, next) {
        return Test(SizeTest(j[next - 1] == LESS, ToInt(IntAt(j, next))));
      }
    } else if At(j, i + 1) == DASH {
      if i + 3 > |j| {
        return Bad;
      }
      if j[i + 2] as int > j[i] as int {
        MarkRange(pass, j[i] as int, j[i + 2] as int);
      }
      next := next + 3;
    } else {
      if i + 2 > |j| {
        return Bad;
      }
      if At(j, i + 2) == BACKSLASH && At(j, i + 3) != 0 {
        next := next + 1;
      }
      MarkRange(pass, j[next] as int, j[next] as int);
      next := next + 1;
    }
    if At(j, next) == 44 || At(j, next) == 59 {
      next := next + 1;
    }
    step := Go(next, pass[..]);
  }

  /** `for (j = lo; j <= hi; j++) pass[j] = 1`. */
  method MarkRange(pass: array<bool>, lo: nat, hi: nat)
    requires pass.Length == 256 && lo <= hi < 256
    modifies pass
    ensures pass[..] == MarkFrom(old(pass[..]), lo, hi)
  {
    hide MarkFrom;
    ghost var before := pass[..];
    var k := lo;
    MarkNone(before, k);
    while k <= hi
      invariant lo <= k <= hi + 1
      invariant pass[..] == MarkFrom(before, lo, k - 1)
    {
      MarkOneMore(before, lo, k);
      pass[k] := true;
      k := k + 1;
    }
  }

  lemma MarkNone(pass: Table, k: nat)
    ensures MarkFrom(pass, k, k - 1) == pass
  {
  }

  lemma MarkOneMore(pass: Table, lo: nat, k: nat)
    requires lo <= k < 256
    ensures MarkFrom(pass, lo, k - 1)[k := true] == MarkFrom(pass, lo, k)
  {
  }

  /** `HeadOf`, with the class read by its loop. */
  method ReadHead(j: CString) returns (h: Head)
    requires |j| >= 2
    ensures h == HeadOf(j)
  {
    hide ClassFrom, Mark, FieldAt;
    var left := j[1];
    if (left == 91 || left == 40) && At(j, 2) != left {
      var one := left == 40;
      var right: Byte := if one then 41 else 93;
      var close := Behind(j, Closing(j, 2, right));
      if FieldAt(j, 2, FILE) || FieldAt(j, 2, NAME) {
        return if one then BadHead else Head(Many(Clear(Clear(Everything(true), QUERY), SLASH)), close);
      } else if FieldAt(j, 2, PATH) {
        return if one then BadHead else Head(Many(Clear(Everything(true), QUERY)), close);
      } else if FieldAt(j, 2, PARAM) {
        return Head(Param(one), close);
      } else if At(j, 2) == right {
        return Last(Exact);
      }
      var r := ReadClass(j, right);
      match r {
        case BadClass => return BadHead;
        case SizeClass(test) => return Last(test);
        case Class(pass, end) => return Head(if one then One(pass) else Many(pass), Behind(j, end));
      }
    }
    h := if left == 40 then BadHead else Head(Many(Everything(true)), 1);
  }

  /** The table of a token for the text at hand: `*[param]` allows everything before a `?`, else nothing. */
  function PassFor(t: Token, c: CString): Table {
    match t
    case Many(pass) => pass
    case One(pass) => pass
    case Param(_) => Everything(At(c, 0) == QUERY)
    case Lit(_) => Everything(false)
  }

  predicate IsOne(t: Token) {
    t.One? || (t.Param? && t.one)
  }

  predicate IsClass(t: Token) {
    t.Many? || t.One? || t.Param?
  }

  /** All of the first `k` characters are allowed. */
  ghost predicate Passes(pass: Table, c: CString, k: nat) {
    k <= |c| && forall i :: 0 <= i < k ==> In(pass, c[i])
  }

  /** In terms of the table: a class takes any allowed run, a single class one allowed character. */
  lemma TakesRun(t: Token, c: CString, k: nat)
    requires IsClass(t) && k <= |c|
    ensures Takes(t, c[..k]) <==> Passes(PassFor(t, c), c, k) && (IsOne(t) ==> k == 1)
  {
    if !t.Param? {
      assert forall i :: 0 <= i < k ==> c[..k][i] == c[i];
    } else if k > 0 {
      assert c[..k][0] == c[0];
      assert Passes(PassFor(t, c), c, k) <==> c[0] == QUERY by {
        EverythingIn(c[0] == QUERY);
      }
      if t.one && c[0] == QUERY && k == 1 {
        assert c[..k] == [QUERY];
      }
    }
  }

  lemma EverythingIn(value: bool)
    ensures forall c :: In(Everything(value), c) == value
  {
  }

  lemma {:induction false} ParseWord(j: CString, n: nat)
    requires n <= |j| && STAR !in j[..n] && Parse(j).Pattern?
    ensures Parse(j[n..]).Pattern? && Parse(j[n..]).ending == Parse(j).ending
    decreases n
  {
    hide HeadOf;
    if n == 0 {
      assert j[0..] == j;
    } else {
      assert j[..n][0] == j[0];
      assert j[1..][n - 1..] == j[n..];
      assert j[1..][..n - 1] == j[..n][1..];
      ParseWord(j[1..], n - 1);
    }
  }

  /** Letters before the next `*` have to be there one by one. */
  lemma {:induction false} WordRun(j: CString, c: CString, n: nat, tail: Tail)
    requires n <= |j| && STAR !in j[..n] && Parse(j).Pattern? && Parse(j[n..]).Pattern?
    ensures Accepts(Parse(j).tokens, tail, c) <==>
              && n <= |c| && (forall k :: 0 <= k < n ==> SameLetter(c[k], j[k]))
              && Accepts(Parse(j[n..]).tokens, tail, c[n..])
    decreases n
  {
    hide Accepts, SameLetter, HeadOf;
    if n == 0 {
      assert j[0..] == j && c[0..] == c;
    } else {
      assert j[..n][0] == j[0];
      assert j[1..][n - 1..] == j[n..];
      assert j[1..][..n - 1] == j[..n][1..];
      OneLetter(j, c, tail);
      if c != [] {
        WordRun(j[1..], c[1..], n - 1, tail);
        if n <= |c| {
          assert c[1..][n - 1..] == c[n..];
        }
        assert forall k :: 1 <= k < n && k < |c| ==> c[k] == c[1..][k - 1] && j[k] == j[1..][k - 1];
        assert forall k :: 0 <= k < n - 1 && k < |c| - 1 ==> c[1..][k] == c[k + 1] && j[1..][k] == j[k + 1];
      }
    }
  }

  lemma OneLetter(j: CString, c: CString, tail: Tail)
    requires j != [] && j[0] != STAR && Parse(j).Pattern?
    ensures Parse(j[1..]).Pattern? && Parse(j[1..]).ending == Parse(j).ending
    ensures Accepts(Parse(j).tokens, tail, c) <==>
              c != [] && SameLetter(c[0], j[0]) && Accepts(Parse(j[1..]).tokens, tail, c[1..])
  {
    hide Accepts, SameLetter, HeadOf;
    var p := Parse(j[1..]);
    AcceptsCons(Lit(j[0]), p.tokens, tail, c);
    if c != [] {
      assert SplitsAt(Lit(j[0]), p.tokens, tail, c, 1) <==>
          SameLetter(c[0], j[0]) && Accepts(p.tokens, tail, c[1..]);
    }
  }

  /** The text is accepted by the pattern. */
  ghost predicate Matches(j: CString, c: seq<Byte>, size: Option<LLint>) {
    var p := Parse(j);
    p.Pattern? && Accepts(p.tokens, TailOf(p.ending, size), c)
  }

  /** The class takes the first `k` characters and the rest of the pattern accepts the others. */
  ghost predicate Works(t: Token, rest: CString, c: CString, size: Option<LLint>, k: nat) {
    Passes(PassFor(t, c), c, k) && (IsOne(t) ==> k == 1) && Matches(rest, c[k..], size)
  }

  /**
    The place a match is reported at: each class at the start of the pattern takes as little as it
    can, and the place is where the first word of the pattern is found behind them.
   */
  ghost predicate FoundAt(j: CString, c: CString, size: Option<LLint>, p: nat)
    decreases |j|
  {
    if |j| < 2 || j[0] != STAR || !HeadOf(j).Head? then p == 0
    else exists k: nat :: TakesLeast(HeadOf(j).token, j[HeadOf(j).next..], c, size, k) && k <= p &&
           FoundAt(j[HeadOf(j).next..], c[k..], size, p - k)
  }

  ghost predicate TakesLeast(t: Token, rest: CString, c: CString, size: Option<LLint>, k: nat) {
    k <= |c| && Works(t, rest, c, size, k) && forall l :: 0 <= l < k ==> !Works(t, rest, c, size, l)
  }

  /** There is one such place. */
  lemma {:induction false} FoundOnce(j: CString, c: CString, size: Option<LLint>, p: nat, q: nat)
    requires FoundAt(j, c, size, p) && FoundAt(j, c, size, q)
    ensures p == q
    decreases |j|
  {
    hide HeadOf, Works, TakesLeast, FoundAt;
    if |j| >= 2 && j[0] == STAR && HeadOf(j).Head? {
      var t, rest := HeadOf(j).token, RestOf(j);
      var k := FoundLeast(j, c, size, p);
      var l := FoundLeast(j, c, size, q);
      LeastOnce(t, rest, c, size, k, l);
      FoundOnce(rest, c[k..], size, p - k, q - k);
    } else {
      FoundHere(j, c, size, p);
      FoundHere(j, c, size, q);
    }
  }

  /** The pattern behind the class it starts with. */
  function RestOf(j: CString): (rest: CString)
    requires |j| >= 2 && HeadOf(j).Head?
    ensures |rest| < |j|
  {
    j[HeadOf(j).next..]
  }

  lemma FoundLeast(j: CString, c: CString, size: Option<LLint>, p: nat) returns (k: nat)
    requires |j| >= 2 && j[0] == STAR && HeadOf(j).Head? && FoundAt(j, c, size, p)
    ensures k <= |c| && TakesLeast(HeadOf(j).token, RestOf(j), c, size, k)
    ensures k <= p && FoundAt(RestOf(j), c[k..], size, p - k)
  {
    hide HeadOf, Works;
    k :| TakesLeast(HeadOf(j).token, RestOf(j), c, size, k) && k <= p && FoundAt(RestOf(j), c[k..], size, p - k);
    LeastFits(HeadOf(j).token, RestOf(j), c, size, k);
  }

  lemma LeastFits(t: Token, rest: CString, c: CString, size: Option<LLint>, k: nat)
    requires TakesLeast(t, rest, c, size, k)
    ensures k <= |c|
  {
    hide Works;
  }

  lemma FoundHere(j: CString, c: CString, size: Option<LLint>, p: nat)
    requires FoundAt(j, c, size, p) && !(|j| >= 2 && j[0] == STAR && HeadOf(j).Head?)
    ensures p == 0
  {
  }

  lemma LeastOnce(t: Token, rest: CString, c: CString, size: Option<LLint>, k: nat, l: nat)
    requires TakesLeast(t, rest, c, size, k) && TakesLeast(t, rest, c, size, l)
    ensures k == l
  {
    hide Works;
  }

  lemma FoundBehind(j: CString, c: CString, size: Option<LLint>, t: Token, next: nat, k: nat, p: nat)
    requires |j| >= 2 && j[0] == STAR && HeadOf(j) == Head(t, next) && 1 <= next <= |j|
    requires TakesLeast(t, j[next..], c, size, k) && FoundAt(j[next..], c[k..], size, p)
    ensures FoundAt(j, c, size, k + p)
  {
    hide HeadOf, Works, TakesLeast;
    assert k + p - k == p;
  }

  /** The size is overwritten by the limit of the test that ends a matching pattern. */
  ghost predicate Resized(j: CString, size: Option<LLint>, matched: bool, size': Option<LLint>) {
    var p := Parse(j);
    size' == if matched && p.Pattern? && p.ending.SizeTest? then Some(p.ending.limit) else size
  }

  /**
    `strjoker`: the index it returns a pointer to, or nothing, and `*size` after the call; the size is
    `None` when the caller passes no pointer.  It matches exactly the texts the pattern accepts.
   */
  method StrJoker(c: CString, j: CString, size: Option<LLint>) returns (r: Option<nat>, size': Option<LLint>)
    requires Parse(j).Pattern?
    ensures r.Some? <==> Matches(j, c, size)
    ensures r.Some? ==> r.value <= |c| && FoundAt(j, c, size, r.value)
    ensures Resized(j, size, r.Some?, size')
    decreases |j|
  {
    hide Accepts, HeadOf;
    size' := size;
    if |j| == 0 {
      AcceptsNil(Query, c);
      return if |c| == 0 || c[0] == QUERY then Some(0) else None, size;
    }
    if j == [STAR] {
      StarAlone(c, size);
      return Some(0), size;
    }
    if j[0] != STAR {
      r, size' := MatchWord(c, j, size);
      return;
    }
    var h := ReadHead(j);
    match h {
      case Last(ending) =>
        AcceptsNil(TailOf(ending, size), c);
        if ending == Exact {
          return if |c| != 0 then None else Some(0), size;
        }
        if Passed(ending.less, ending.limit, size) {
          return Some(0), Some(ending.limit);
        }
        return None, size;
      case Head(token, next) =>
        HeadIsClass(j);
        r, size' := MatchClass(c, j, token, next, size);
    }
  }

  lemma StarAlone(c: CString, size: Option<LLint>)
    ensures Matches([STAR], c, size)
  {
    hide Accepts, In, Everything;
    AcceptsCons(Many(Everything(true)), [], Query, c);
    AcceptsNil(Query, []);
    assert c[..|c|] == c && c[|c|..] == [];
    EverythingIn(true);
    assert SplitsAt(Many(Everything(true)), [], Query, c, |c|);
    assert [Many(Everything(true))] + [] == [Many(Everything(true))];
  }

  lemma HeadIsClass(j: CString)
    requires |j| >= 2 && HeadOf(j).Head?
    ensures IsClass(HeadOf(j).token)
  {
    hide ClassFrom, Mark, FieldAt, Everything, Clear;
  }

  /** A pattern that starts with a word. */
  method MatchWord(c: CString, j: CString, size: Option<LLint>) returns (r: Option<nat>, size': Option<LLint>)
    requires j != [] && j[0] != STAR && Parse(j).Pattern?
    ensures r.Some? <==> Matches(j, c, size)
    ensures r.Some? ==> r.value == 0
    ensures Resized(j, size, r.Some?, size')
    decreases |j|, 0
  {
    hide Accepts, HeadOf, SameLetter, Parse;
    ghost var tail := TailOf(Parse(j).ending, size);
    if |c| == 0 {
      OneLetter(j, c, tail);
      return None, size;
    }
    var jmp, ok := 0, true;
    while jmp < |j| && j[jmp] != STAR && ok
      invariant jmp <= |j| && STAR !in j[..jmp]
      invariant ok ==> jmp <= |c| && forall k :: 0 <= k < jmp ==> SameLetter(c[k], j[k])
      invariant !ok ==> 0 < jmp && (jmp > |c| || !SameLetter(c[jmp - 1], j[jmp - 1]))
      decreases |j| - jmp
    {
      if jmp == |c| || !SameLetter(c[jmp], j[jmp]) {
        ok := false;
      }
      jmp := jmp + 1;
    }
    ParseWord(j, jmp);
    WordRun(j, c, jmp, tail);
    r, size' := None, size;
    if ok {
      var rest;
      rest, size' := StrJoker(c[jmp..], j[jmp..], size);
      if rest.Some? {
        r := Some(0);
      }
    }
  }

  lemma ClassFirst(j: CString, t: Token, next: nat, c: CString, size: Option<LLint>)
    requires |j| >= 2 && j[0] == STAR && Parse(j).Pattern?
    requires HeadOf(j) == Head(t, next) && IsClass(t) && 1 <= next <= |j|
    ensures Parse(j[next..]).Pattern? && Parse(j[next..]).ending == Parse(j).ending
    ensures Matches(j, c, size) <==> exists k :: Works(t, j[next..], c, size, k)
  {
    hide Accepts, HeadOf, Takes, PassFor, Passes;
    var rest := j[next..];
    var p := Parse(rest);
    var tail := TailOf(p.ending, size);
    assert Parse(j) == Prepend(t, p);
    AcceptsCons(t, p.tokens, tail, c);
    forall k: nat | k <= |c|
      ensures SplitsAt(t, p.tokens, tail, c, k) <==> Works(t, rest, c, size, k)
    {
      TakesRun(t, c, k);
    }
    if k :| Works(t, rest, c, size, k) {
      InText(PassFor(t, c), c, k);
      assert SplitsAt(t, p.tokens, tail, c, k);
    }
    if k :| SplitsAt(t, p.tokens, tail, c, k) {
      assert Works(t, rest, c, size, k);
    }
  }

  lemma InText(pass: Table, c: CString, k: nat)
    requires Passes(pass, c, k)
    ensures k <= |c|
  {
  }

  lemma NonZero(c: Byte)
    ensures c != 0 ==> c as int > 0
  {
  }

  lemma NotNul(j: CString, i: nat)
    requires i < |j|
    ensures j[i] != 0
  {
    assert j[i] in j;
  }

  lemma StepNoNul(j: CString, i: nat, pass: Table)
    requires i < |j| && !In(pass, 0)
    ensures ClassStep(j, i, pass).Go? ==> !In(ClassStep(j, i, pass).pass, 0)
  {
    hide StartsInt, Mark, In, SkipComma;
    NotNul(j, i);
    if i + 3 <= |j| {
      MarkNonZero(pass, j[i], j[i + 2]);
    }
    if i + 2 <= |j| {
      var k := if At(j, i + 2) == BACKSLASH && At(j, i + 3) != 0 then i + 1 else i;
      NotNul(j, k);
      MarkNonZero(pass, j[k], j[k]);
    }
  }

  /** The NUL is in no explicit class. */
  lemma {:induction false} NoNul(j: CString, i: nat, right: Byte, pass: Table)
    requires i <= |j| && !In(pass, 0)
    ensures ClassFrom(j, i, right, pass).Class? ==> !In(ClassFrom(j, i, right, pass).pass, 0)
    decreases |j| - i
  {
    hide ClassStep, In;
    if i < |j| && j[i] != right && ClassStep(j, i, pass).Go? {
      StepNoNul(j, i, pass);
      NoNul(j, ClassStep(j, i, pass).next, right, ClassStep(j, i, pass).pass);
    }
  }

  lemma MarkNonZero(pass: Table, lo: Byte, hi: Byte)
    requires !In(pass, 0) && lo != 0
    ensures !In(Mark(pass, lo, hi), 0)
  {
    NonZero(lo);
  }

  lemma OneIsNotNul(j: CString, c: CString)
    requires |j| >= 2 && HeadOf(j).Head? && IsOne(HeadOf(j).token)
    ensures c == [] ==> !In(PassFor(HeadOf(j).token, c), 0)
  {
    hide ClassFrom, FieldAt, Mark;
    EverythingIn(false);
    var right: Byte := if j[1] == 40 then 41 else 93;
    NoNul(j, 2, right, Everything(false));
  }

  /** No run of at most `i` characters works. */
  ghost predicate NoneUpTo(t: Token, rest: CString, c: CString, size: Option<LLint>, i: nat) {
    forall k: nat :: k <= i ==> !Works(t, rest, c, size, k)
  }

  lemma EmptyRun(t: Token, rest: CString, c: CString, size: Option<LLint>)
    ensures c[0..] == c && Passes(PassFor(t, c), c, 0)
    ensures Works(t, rest, c, size, 0) <==> !IsOne(t) && Matches(rest, c, size)
    ensures !Works(t, rest, c, size, 0) ==> NoneUpTo(t, rest, c, size, 0)
  {
    hide PassFor, Matches;
    assert c[0..] == c;
  }

  /** One character more, if the class allows it; none of the longer runs, if it does not. */
  lemma NextRun(t: Token, rest: CString, c: CString, size: Option<LLint>, i: nat)
    requires Passes(PassFor(t, c), c, i) && NoneUpTo(t, rest, c, size, i) && (IsOne(t) ==> i == 0)
    requires i < |c| || !In(PassFor(t, c), At(c, i))
    ensures In(PassFor(t, c), At(c, i)) ==>
              && Passes(PassFor(t, c), c, i + 1)
              && (Works(t, rest, c, size, i + 1) <==> Matches(rest, c[i + 1..], size))
              && (!Works(t, rest, c, size, i + 1) ==> NoneUpTo(t, rest, c, size, i + 1))
    ensures !In(PassFor(t, c), At(c, i)) ==> forall k :: !Works(t, rest, c, size, k)
  {
    hide PassFor, Matches, In;
    if !In(PassFor(t, c), At(c, i)) {
      forall k: nat
        ensures !Works(t, rest, c, size, k)
      {
      }
    }
  }

  /** The shortest run that works is where the match is found. */
  lemma LeastRun(j: CString, c: CString, size: Option<LLint>, t: Token, next: nat, k: nat, p: nat)
    requires |j| >= 2 && j[0] == STAR && HeadOf(j) == Head(t, next) && 1 <= next <= |j| && k <= |c|
    requires Works(t, j[next..], c, size, k) && (k > 0 ==> NoneUpTo(t, j[next..], c, size, k - 1))
    requires FoundAt(j[next..], c[k..], size, p)
    ensures FoundAt(j, c, size, k + p)
  {
    hide HeadOf, Works, FoundAt;
    assert TakesLeast(t, j[next..], c, size, k);
    FoundBehind(j, c, size, t, next, k, p);
  }

  /** Nothing is left to try behind the longest run. */
  lemma LongestRun(t: Token, rest: CString, c: CString, size: Option<LLint>, max: nat)
    requires max == (if IsOne(t) then 1 else |c|) && Passes(PassFor(t, c), c, max) && NoneUpTo(t, rest, c, size, max)
    ensures max <= |c| && !Matches(rest, c[max..], size) && forall k :: !Works(t, rest, c, size, k)
  {
    hide PassFor, Matches;
    assert !Works(t, rest, c, size, max);
  }

  lemma SameEnding(j: CString, rest: CString, size: Option<LLint>, matched: bool, size': Option<LLint>)
    requires Parse(j).Pattern? && Parse(rest).Pattern? && Parse(rest).ending == Parse(j).ending
    ensures Resized(rest, size, matched, size') ==> Resized(j, size, matched, size')
    ensures Resized(j, size, false, size)
  {
    hide Parse;
  }

  /** A pattern that starts with a class: try it with every run of allowed characters, shortest first. */
  method MatchClass(c: CString, j: CString, token: Token, next: nat, size: Option<LLint>)
    returns (r: Option<nat>, size': Option<LLint>)
    requires |j| >= 2 && j[0] == STAR && Parse(j).Pattern?
    requires HeadOf(j) == Head(token, next) && IsClass(token) && 1 <= next <= |j|
    ensures r.Some? <==> Matches(j, c, size)
    ensures r.Some? ==> r.value <= |c| && FoundAt(j, c, size, r.value)
    ensures Resized(j, size, r.Some?, size')
    decreases |j|, 0
  {
    hide Accepts, HeadOf, Takes, PassFor, In, Matches, Parse, FoundAt, Works, NoneUpTo, TakesLeast, Passes, Resized;
    var pass, unique := PassFor(token, c), IsOne(token);
    var rest := j[next..];
    ClassFirst(j, token, next, c, size);
    EmptyRun(token, rest, c, size);
    var adr;
    if !unique {
      adr, size' := StrJoker(c, rest, size);
      SameEnding(j, rest, size, adr.Some?, size');
      if adr.Some? {
        LeastRun(j, c, size, token, next, 0, adr.value);
        return adr, size';
      }
    }
    var max := if unique then 1 else |c|;
    var i := 0;
    while i < max
      invariant i <= max || (i == max + 2 && forall k :: !Works(token, rest, c, size, k))
      invariant i <= max ==> Passes(pass, c, i) && NoneUpTo(token, rest, c, size, i)
      decreases max + 2 - i
    {
      if unique {
        OneIsNotNul(j, c);
      }
      NextRun(token, rest, c, size, i);
      if In(pass, At(c, i)) {
        adr, size' := StrJoker(c[i + 1..], rest, size);
        SameEnding(j, rest, size, adr.Some?, size');
        if adr.Some? {
          LeastRun(j, c, size, token, next, i + 1, adr.value);
          return Some(i + 1 + adr.value), size';
        }
        i := i + 1;
      } else {
        i := max + 2;
      }
    }
    r, size' := None, size;
    SameEnding(j, j, size, false, size);
    if i != max + 2 {
      // The attempt on what follows the longest run has been made above already.
      LongestRun(token, rest, c, size, max);
      adr, size' := StrJoker(c[max..], rest, size);
      SameEnding(j, rest, size, false, size');
    }
  }

  // ---- Lists of filters ----

  /** Is this a filter on MIME types, `+mime:..`? */
  predicate IsMime(filter: CString) {
    |filter| >= 6 && filter[1..6] == MIME
  }

  /** The pattern behind the sign and the prefix. */
  function PatternOf(filter: CString): CString
    requires filter != []
  {
    if IsMime(filter) then filter[6..] else filter[1..]
  }

  /** The filter is a sign, `mime:` if it is of that kind, and the pattern. */
  lemma PatternBehind(filter: CString)
    requires filter != []
    ensures IsMime(filter) <==> |filter| >= 6 && filter[1..6] == [109, 105, 109, 101, 58]
    ensures filter == filter[..1] + (if IsMime(filter) then [109, 105, 109, 101, 58] else []) + PatternOf(filter)
  {
  }

  /** A filter of the wanted kind, with a pattern. */
  predicate OfKind(kind: int, filter: CString) {
    filter != [] && (IsMime(filter) <==> kind != 0) && Parse(PatternOf(filter)).Pattern?
  }

  /** A filter of the wanted kind that matches. */
  ghost predicate Applies(kind: int, filter: CString, name: CString, size: LLint) {
    OfKind(kind, filter) && Matches(PatternOf(filter), name, Some(size))
  }

  /** `sz` in round `i`: the caller's size; without one, whatever the unset variable holds. */
  function SizeFor(size: Option<LLint>, unset: nat -> LLint, i: nat): LLint {
    if size.Some? then size.value else unset(i)
  }

  /** Of the first `n` filters the last one that matches, or -1. */
  ghost function LastMatch(
    kind: int, filters: seq<CString>, name: CString, size: Option<LLint>, unset: nat -> LLint, n: nat): int
    requires n <= |filters|
  {
    if n == 0 then -1
    else if Applies(kind, filters[n - 1], name, SizeFor(size, unset, n - 1)) then n - 1
    else LastMatch(kind, filters, name, size, unset, n - 1)
  }

  /** The sign of filter `depth`; 0 if there is none. */
  function VerdictOf(filters: seq<CString>, depth: int): int {
    if 0 <= depth < |filters| then if At(filters[depth], 0) == 43 then 1 else -1 else 0
  }

  /** A filter whose size test passes, with a limit other than the size. */
  ghost predicate Limits(kind: int, filter: CString, name: CString, size: LLint) {
    && Applies(kind, filter, name, size)
    && var ending := Parse(PatternOf(filter)).ending; ending.SizeTest? && ending.limit != size
  }

  /** The limit of the last of the first `n` filters that has one, or the size as it is. */
  ghost predicate NewSize(kind: int, filters: seq<CString>, name: CString, size: LLint, n: nat, size': LLint)
    requires n <= |filters|
  {
    || (size' == size && forall i :: 0 <= i < n ==> !Limits(kind, filters[i], name, size))
    || exists i :: 0 <= i < n && Limits(kind, filters[i], name, size) &&
         size' == Parse(PatternOf(filters[i])).ending.limit &&
         forall k :: i < k < n ==> !Limits(kind, filters[k], name, size)
  }

  lemma NewSizeStart(kind: int, filters: seq<CString>, name: CString, size: Option<LLint>, unset: nat -> LLint)
    ensures size.Some? ==> NewSize(kind, filters, name, size.value, 0, size.value)
    ensures LastMatch(kind, filters, name, size, unset, 0) == -1
  {
  }

  lemma LastMatchStep(
    kind: int, filters: seq<CString>, name: CString, size: Option<LLint>, unset: nat -> LLint, n: nat)
    requires n < |filters|
    ensures LastMatch(kind, filters, name, size, unset, n + 1) ==
              if Applies(kind, filters[n], name, SizeFor(size, unset, n)) then n
              else LastMatch(kind, filters, name, size, unset, n)
  {
  }

  lemma NewSizeStep(
    kind: int, filters: seq<CString>, name: CString, size: LLint, n: nat, before: LLint, after: LLint)
    requires n < |filters| && NewSize(kind, filters, name, size, n, before)
    requires if Limits(kind, filters[n], name, size) then after == Parse(PatternOf(filters[n])).ending.limit
             else after == before
    ensures NewSize(kind, filters, name, size, n + 1, after)
  {
    hide Limits;
  }

  /** What one call of `strjoker` says about the filter. */
  lemma RoundMeans(kind: int, filter: CString, name: CString, size: LLint, matched: bool, size': Option<LLint>)
    requires OfKind(kind, filter) && (matched <==> Matches(PatternOf(filter), name, Some(size)))
    requires Resized(PatternOf(filter), Some(size), matched, size')
    ensures Applies(kind, filter, name, size) <==> matched
    ensures Limits(kind, filter, name, size) <==> size' != Some(size)
    ensures Limits(kind, filter, name, size) ==> size' == Some(Parse(PatternOf(filter)).ending.limit)
  {
  }

  lemma OtherKind(kind: int, filter: CString, name: CString, size: LLint)
    requires !OfKind(kind, filter)
    ensures !Applies(kind, filter, name, size) && !Limits(kind, filter, name, size)
  {
  }

  lemma {:induction false} LastMatchMeans(
    kind: int, filters: seq<CString>, name: CString, size: Option<LLint>, unset: nat -> LLint, n: nat)
    requires n <= |filters|
    ensures var k := LastMatch(kind, filters, name, size, unset, n);
            && -1 <= k < n && (k >= 0 ==> Applies(kind, filters[k], name, SizeFor(size, unset, k)))
            && forall i :: k < i < n ==> !Applies(kind, filters[i], name, SizeFor(size, unset, i))
  {
    hide Applies;
    if n > 0 {
      LastMatchMeans(kind, filters, name, size, unset, n - 1);
    }
  }

  /**
    `fa_strjoker`: the sign of the last filter of the wanted kind that matches, and its index; 0 if
    there is none.  The size becomes the limit of the last matching filter that tests it.
   */
  method FaStrJoker(kind: int, filters: seq<CString>, name: CString, size: Option<LLint>, unset: nat -> LLint)
    returns (verdict: int, depth: int, size': Option<LLint>)
    requires forall i :: 0 <= i < |filters| ==> filters[i] != [] && Parse(PatternOf(filters[i])).Pattern?
    ensures depth == LastMatch(kind, filters, name, size, unset, |filters|) && verdict == VerdictOf(filters, depth)
    ensures verdict == 0 <==> forall i :: 0 <= i < |filters| ==>
              !Applies(kind, filters[i], name, SizeFor(size, unset, i))
    ensures verdict != 0 ==>
              && 0 <= depth < |filters| && Applies(kind, filters[depth], name, SizeFor(size, unset, depth))
              && forall i :: depth < i < |filters| ==> !Applies(kind, filters[i], name, SizeFor(size, unset, i))
    ensures -1 <= depth < |filters|
    ensures verdict == 1 <==> depth >= 0 && filters[depth][0] == 43
    ensures verdict == -1 <==> depth >= 0 && filters[depth][0] != 43
    ensures verdict == 0 <==> depth == -1
    ensures size.Some? <==> size'.Some?
    ensures size.Some? ==> NewSize(kind, filters, name, size.value, |filters|, size'.value)
  {
    hide Applies, Limits, NewSize, Matches, Parse, LastMatch;
    NewSizeStart(kind, filters, name, size, unset);
    verdict, depth, size' := 0, -1, size;
    var i := 0;
    while i < |filters|
      invariant i <= |filters| && -1 <= depth < i
      invariant depth == LastMatch(kind, filters, name, size, unset, i) && verdict == VerdictOf(filters, depth)
      invariant size.Some? <==> size'.Some?
      invariant size.Some? ==> NewSize(kind, filters, name, size.value, i, size'.value)
    {
      ghost var limit := if size.Some? then size'.value else 0;
      if IsMime(filters[i]) == (kind != 0) {
        var sz := SizeFor(size, unset, i);
        var r, sz' := StrJoker(name, PatternOf(filters[i]), Some(sz));
        RoundMeans(kind, filters[i], name, sz, r.Some?, sz');
        if r.Some? {
          if size.Some? && sz' != size {
            size' := sz';
          }
          verdict := if filters[i][0] == 43 then 1 else -1;
          depth := i;
        }
      } else {
        OtherKind(kind, filters[i], name, SizeFor(size, unset, i));
      }
      LastMatchStep(kind, filters, name, size, unset, i);
      if size.Some? {
        NewSizeStep(kind, filters, name, size.value, i, limit, size'.value);
      }
      i := i + 1;
    }
    LastMatchMeans(kind, filters, name, size, unset, |filters|);
  }

  // ---- Calls without a size ----

  /** A filter that matches whatever the size is. */
  ghost predicate Steady(kind: int, filter: CString, name: CString) {
    && OfKind(kind, filter) && !Parse(PatternOf(filter)).ending.SizeTest?
    && Matches(PatternOf(filter), name, None)
  }

  /** A filter with a size test that some size passes, and a pattern that matches up to it. */
  ghost predicate Sized(kind: int, filter: CString, name: CString) {
    && OfKind(kind, filter)
    && var p := Parse(PatternOf(filter));
       && p.ending.SizeTest? && (if p.ending.less then p.ending.limit > 0 else p.ending.limit < MAX_LLINT)
       && Accepts(p.tokens, Anything, name)
  }

  /** A size that passes the test of the filter. */
  function PassingSize(filter: CString): LLint {
    if filter == [] then 0 else
    var p := Parse(PatternOf(filter));
    if p.Pattern? && p.ending.SizeTest? && !p.ending.less && 0 <= p.ending.limit < MAX_LLINT
    then p.ending.limit + 1 else 0
  }

  lemma AppliesBySize(kind: int, filter: CString, name: CString, size: LLint)
    ensures Applies(kind, filter, name, size) ==> Steady(kind, filter, name) || Sized(kind, filter, name)
    ensures Steady(kind, filter, name) ==> Applies(kind, filter, name, size) && !Sized(kind, filter, name)
    ensures Sized(kind, filter, name) ==>
              Applies(kind, filter, name, PassingSize(filter)) && !Applies(kind, filter, name, -1)
  {
    hide Parse, Accepts;
    if OfKind(kind, filter) {
      var p := Parse(PatternOf(filter));
      NeverAccepts(p.tokens, name);
      if p.ending.SizeTest? {
        assert TailOf(p.ending, Some(-1)) == Never;
        assert Sized(kind, filter, name) ==> TailOf(p.ending, Some(PassingSize(filter))) == Anything;
        assert TailOf(p.ending, Some(size)) == Anything || TailOf(p.ending, Some(size)) == Never;
      } else {
        assert TailOf(p.ending, Some(size)) == TailOf(p.ending, None);
      }
    }
  }

  lemma NeverAccepts(tokens: seq<Token>, text: seq<Byte>)
    ensures !Accepts(tokens, Never, text)
  {
  }

  /** Of the first `n` filters the last one that matches whatever the size is, or -1. */
  ghost function LastSteady(kind: int, filters: seq<CString>, name: CString, n: nat): (k: int)
    requires n <= |filters|
    ensures -1 <= k < n
    ensures k >= 0 ==> Steady(kind, filters[k], name)
    ensures forall i :: k < i < n ==> !Steady(kind, filters[i], name)
  {
    if n == 0 then -1
    else if Steady(kind, filters[n - 1], name) then n - 1
    else LastSteady(kind, filters, name, n - 1)
  }

  /** Without a size, the filter that decides is that one, or one with a size test behind it. */
  lemma {:induction false} DecidedBy(kind: int, filters: seq<CString>, name: CString, unset: nat -> LLint, n: nat)
    requires n <= |filters|
    ensures var k := LastMatch(kind, filters, name, None, unset, n);
            || k == LastSteady(kind, filters, name, n)
            || (LastSteady(kind, filters, name, n) < k < n && Sized(kind, filters[k], name))
  {
    hide Applies, Steady, Sized;
    if n > 0 {
      AppliesBySize(kind, filters[n - 1], name, unset(n - 1));
      DecidedBy(kind, filters, name, unset, n - 1);
    }
  }

  /** All size tests fail. */
  lemma {:induction false} AllFail(kind: int, filters: seq<CString>, name: CString, n: nat)
    requires n <= |filters|
    ensures LastMatch(kind, filters, name, None, _ => -1, n) == LastSteady(kind, filters, name, n)
  {
    hide Applies, Steady, Sized;
    if n > 0 {
      AppliesBySize(kind, filters[n - 1], name, -1);
      AllFail(kind, filters, name, n - 1);
    }
  }

  /** Only the size test of filter `k` passes. */
  function OnlyAt(k: nat, size: LLint): nat -> LLint {
    i => if i == k then size else -1
  }

  lemma {:induction false} OnePasses(kind: int, filters: seq<CString>, name: CString, n: nat, k: nat)
    requires n <= |filters| && LastSteady(kind, filters, name, n) < k < n && Sized(kind, filters[k], name)
    ensures LastMatch(kind, filters, name, None, OnlyAt(k, PassingSize(filters[k])), n) == k
  {
    hide Applies, Steady, PassingSize;
    var unset := OnlyAt(k, PassingSize(filters[k]));
    AppliesBySize(kind, filters[n - 1], name, unset(n - 1));
    if n - 1 > k {
      OnePasses(kind, filters, name, n - 1, k);
    }
  }

  /** Two unset variables lead to the same filter. */
  ghost predicate SameFilter(kind: int, filters: seq<CString>, name: CString, u: nat -> LLint, v: nat -> LLint) {
    LastMatch(kind, filters, name, None, u, |filters|) == LastMatch(kind, filters, name, None, v, |filters|)
  }

  ghost predicate SameVerdict(kind: int, filters: seq<CString>, name: CString, u: nat -> LLint, v: nat -> LLint) {
    VerdictOf(filters, LastMatch(kind, filters, name, None, u, |filters|)) ==
    VerdictOf(filters, LastMatch(kind, filters, name, None, v, |filters|))
  }

  /** No filter with a size test decides behind the last one that matches whatever the size is. */
  ghost predicate NoSizeDecides(kind: int, filters: seq<CString>, name: CString) {
    forall k :: LastSteady(kind, filters, name, |filters|) < k < |filters| ==> !Sized(kind, filters[k], name)
  }

  /** All filters with a size test behind it have its sign. */
  ghost predicate SizesAgree(kind: int, filters: seq<CString>, name: CString) {
    var last := LastSteady(kind, filters, name, |filters|);
    forall k :: last < k < |filters| && Sized(kind, filters[k], name) ==>
      VerdictOf(filters, k) == VerdictOf(filters, last)
  }

  /**
    A call without a size compares an unset variable.  The filter it reports does not depend on it if
    and only if no filter with a size test decides, and the verdict if and only if those that could
    decide agree with the last one that does not test the size.
   */
  lemma UnsetSize(kind: int, filters: seq<CString>, name: CString)
    ensures (forall u, v :: SameFilter(kind, filters, name, u, v)) <==> NoSizeDecides(kind, filters, name)
    ensures (forall u, v :: SameVerdict(kind, filters, name, u, v)) <==> SizesAgree(kind, filters, name)
  {
    hide Applies, Steady, Sized;
    var n := |filters|;
    forall u, v
      ensures NoSizeDecides(kind, filters, name) ==> SameFilter(kind, filters, name, u, v)
      ensures SizesAgree(kind, filters, name) ==> SameVerdict(kind, filters, name, u, v)
    {
      DecidedBy(kind, filters, name, u, n);
      DecidedBy(kind, filters, name, v, n);
    }
    AllFail(kind, filters, name, n);
    var failing: nat -> LLint := _ => -1;
    var last := LastSteady(kind, filters, name, n);
    forall k | last < k < n && Sized(kind, filters[k], name)
      ensures !SameFilter(kind, filters, name, failing, OnlyAt(k, PassingSize(filters[k])))
      ensures VerdictOf(filters, k) != VerdictOf(filters, last) ==>
                !SameVerdict(kind, filters, name, failing, OnlyAt(k, PassingSize(filters[k])))
    {
      OnePasses(kind, filters, name, n, k);
    }
  }

  /** The first place from which the pattern matches the rest of the text. */
  ghost predicate FirstMatch(j: CString, c: CString, i: nat) {
    i < |c| && Matches(j, c[i..], None) && forall k :: 0 <= k < i ==> !Matches(j, c[k..], None)
  }

  /** `strjokerfind`: search the first place from which the pattern matches the rest of the text. */
  method StrJokerFind(c: CString, j: CString) returns (r: Option<nat>)
    requires Parse(j).Pattern?
    ensures r.Some? <==> exists i :: 0 <= i < |c| && Matches(j, c[i..], None)
    ensures r.Some? ==> r.value <= |c| && exists i: nat ::
              && i <= r.value && i < |c| && FirstMatch(j, c, i) && FoundAt(j, c[i..], None, r.value - i)
              && Matches(j, c[i..], None) && forall k :: 0 <= k < i ==> !Matches(j, c[k..], None)
  {
    hide Matches, Parse, FoundAt;
    var i := 0;
    while i < |c|
      invariant i <= |c|
      invariant forall k :: 0 <= k < i ==> !Matches(j, c[k..], None)
    {
      var adr, _ := StrJoker(c[i..], j, None);
      if adr.Some? {
        assert FirstMatch(j, c, i) && FoundAt(j, c[i..], None, i + adr.value - i);
        return Some(i + adr.value);
      }
      i := i + 1;
    }
    r := None;
  }
}
