/**
  Wildcard patterns as they are written, and what the writing means, apart from how `strjoker` reads
  it.  Reading a written pattern gives exactly this meaning.
 */
module FilterSyntax {
  import opened Bytes
  import opened Filters
  import opened Numerals

  const COMMA: Byte := 44

  function Left(one: bool): Byte {
    if one then 40 else 91
  }

  function Right(one: bool): Byte {
    if one then 41 else 93
  }

  // ---- Patterns ----

  /** A member of the list of a class: a character, or a range. */
  datatype Element = Char(c: Byte) | Range(lo: Byte, hi: Byte)

  datatype Name = File | Name | Path

  /**
    `*[a,b-c]` stands for any number of the listed characters and `*(a,b-c)` for one.  The reserved
    names may be written in upper or lower case, and other text may follow them up to the bracket.
   */
  datatype Piece =
    | Letter(c: Byte)
    | Star
    | Chars(one: bool, elements: seq<Element>)
    | Named(name: Name, word: seq<Byte>, more: seq<Byte>)
    | Params(one: bool, word: seq<Byte>, more: seq<Byte>)

  /** The end of a pattern; behind `*[]` and behind a size test the rest is never looked at. */
  datatype End =
    | Plain
    | Strict(one: bool, more: seq<Byte>)
    | Sized(one: bool, less: bool, blanks: seq<Byte>, sign: seq<Byte>, digits: seq<Byte>, more: seq<Byte>)

  // ---- Writing ----

  function ElementText(e: Element): (t: seq<Byte>)
    ensures t != [] && t[0] == First(e)
  {
    match e
    case Char(c) => [c]
    case Range(lo, hi) => [lo, 45, hi]
  }

  function First(e: Element): Byte {
    if e.Char? then e.c else e.lo
  }

  function ListText(elements: seq<Element>): seq<Byte> {
    if elements == [] then []
    else if |elements| == 1 then ElementText(elements[0])
    else ElementText(elements[0]) + [44] + ListText(elements[1..])
  }

  function Word(name: Name): seq<Byte> {
    match name
    case File => [102, 105, 108, 101]
    case Name => [110, 97, 109, 101]
    case Path => [112, 97, 116, 104]
  }

  function PieceText(p: Piece): seq<Byte> {
    match p
    case Letter(c) => [c]
    case Star => [42]
    case Chars(one, elements) => [42, Left(one)] + ListText(elements) + [Right(one)]
    case Named(_, word, more) => [42, Left(false)] + word + more + [Right(false)]
    case Params(one, word, more) => [42, Left(one)] + word + more + [Right(one)]
  }

  function EndText(end: End): seq<Byte> {
    match end
    case Plain => []
    case Strict(one, more) => [42, Left(one), Right(one)] + more
    case Sized(one, less, blanks, sign, digits, more) =>
      [42, Left(one), if less then 60 else 62] + (blanks + sign + digits + more)
  }

  function Written(pieces: seq<Piece>, end: End): seq<Byte> {
    if pieces == [] then EndText(end) else PieceText(pieces[0]) + Written(pieces[1..], end)
  }

  // ---- Backslashes ----

  /** Two characters behind a character stands a backslash, which is not the last character of the pattern. */
  predicate Hides(e: Element, after: seq<Byte>) {
    e.Char? && |after| >= 2 && after[0] == 92
  }

  /**
    How a list is read: a character that has a backslash two characters on is skipped, and the comma
    or bracket behind it is taken in its place.
   */
  function AsRead(elements: seq<Element>, one: bool, behind: seq<Byte>): (read: seq<Element>)
    ensures |read| == |elements|
  {
    if elements == [] then []
    else
      var e, rest := elements[0], elements[1..];
      if rest == [] then [if Hides(e, behind) then Char(Right(one)) else e]
      else [if e.Char? && First(rest[0]) == 92 then Char(44) else e] + AsRead(rest, one, behind)
  }

  /** The bracket that ends the list is taken for a character: the class goes on behind it. */
  predicate RunsOn(elements: seq<Element>, behind: seq<Byte>) {
    elements != [] && Hides(elements[|elements| - 1], behind)
  }

  /** The piece that is read where this one is written. */
  function ReadPiece(p: Piece): Piece {
    if p.Chars? then Chars(p.one, AsRead(p.elements, p.one, [])) else p
  }

  function ReadPieces(pieces: seq<Piece>): seq<Piece> {
    seq(|pieces|, k requires 0 <= k < |pieces| => ReadPiece(pieces[k]))
  }

  // ---- Well-formed patterns ----

  predicate ElementOk(e: Element, one: bool) {
    && First(e) !in [0, 60, 62, Right(one)]
    && (e.Range? ==> e.hi != 0)
  }

  predicate ListOk(elements: seq<Element>, one: bool) {
    && elements != [] && First(elements[0]) != Left(one)
    && forall k :: 0 <= k < |elements| ==> ElementOk(elements[k], one)
  }

  /** The same word, whatever the case of its letters. */
  predicate Spells(word: seq<Byte>, name: seq<Byte>) {
    |word| == |name| && forall k :: 0 <= k < |name| ==> EqualButCase(word[k], name[k])
  }

  predicate PieceOk(p: Piece) {
    match p
    case Letter(c) => c != 0 && c != 42
    case Star => true
    case Chars(one, elements) => ListOk(elements, one)
    case Named(name, word, more) => Spells(word, Word(name)) && 0 !in more && Right(false) !in more
    case Params(one, word, more) => Spells(word, [112, 97, 114, 97, 109]) && 0 !in more && Right(one) !in more
  }

  predicate AllBlank(blanks: seq<Byte>) {
    forall k :: 0 <= k < |blanks| ==> blanks[k] in [9, 10, 11, 12, 13, 32]
  }

  predicate EndOk(end: End) {
    match end
    case Plain => true
    case Strict(_, more) => 0 !in more
    case Sized(_, _, blanks, sign, digits, more) =>
      && AllBlank(blanks) && sign in [[], [43], [45]]
      && digits != [] && (forall k :: 0 <= k < |digits| ==> IsDigit(digits[k]))
      && 0 !in more && (more == [] || !IsDigit(more[0]))
  }

  /** What stands behind a piece is not mistaken for a part of it. */
  predicate Apart(p: Piece, behind: seq<Byte>) {
    match p
    case Star => behind == [] || (behind[0] != Left(true) && behind[0] != Left(false))
    case Chars(_, elements) => !RunsOn(elements, behind)
    case _ => true
  }

  predicate WellFormed(pieces: seq<Piece>, end: End) {
    && EndOk(end)
    && (pieces != [] ==>
          PieceOk(pieces[0]) && Apart(pieces[0], Written(pieces[1..], end)) && WellFormed(pieces[1..], end))
  }

  // ---- Meaning ----

  /** A range has its characters only if it is written in ascending order, and has more than one. */
  predicate Has(e: Element, c: int) {
    match e
    case Char(d) => c == d as int
    case Range(lo, hi) => lo as int < hi as int && lo as int <= c <= hi as int
  }

  predicate Listed(elements: seq<Element>, c: int) {
    exists k :: 0 <= k < |elements| && Has(elements[k], c)
  }

  /** The piece may stand for this text. */
  predicate Stands(p: Piece, text: seq<Byte>) {
    match p
    case Letter(c) => |text| == 1 && EqualButCase(text[0], c)
    case Star => true
    case Chars(one, elements) =>
      (one ==> |text| == 1) && forall k :: 0 <= k < |text| ==> Listed(elements, text[k] as int)
    case Named(name, _, _) => 63 !in text && (name != Path ==> 47 !in text)
    case Params(one, _, _) => if one then text == [63] else text == [] || text[0] == 63
  }

  /** The number the digits write. */
  function Number(digits: seq<Byte>): nat
    requires forall k :: 0 <= k < |digits| ==> IsDigit(digits[k])
  {
    if digits == [] then 0
    else
      var n := |digits| - 1;
      assert IsDigit(digits[n]);
      Number(digits[..n]) * 10 + (digits[n] as nat - 48)
  }

  function Signed(sign: seq<Byte>, digits: seq<Byte>): int
    requires forall k :: 0 <= k < |digits| ==> IsDigit(digits[k])
  {
    if sign == [45] then 0 - Number(digits) else Number(digits)
  }

  lemma {:induction false} NumberWritten(n: nat)
    ensures forall k :: 0 <= k < |Decimal(n)| ==> IsDigit(Decimal(n)[k])
    ensures Number(Decimal(n)) == n
  {
    DigitWritten(n % 10);
    var front := if n < 10 then [] else Decimal(n / 10);
    if n >= 10 {
      NumberWritten(n / 10);
    }
    assert Decimal(n) == front + [LOWER[n % 10]] && (front + [LOWER[n % 10]])[..|front|] == front;
  }

  lemma DigitWritten(d: nat)
    requires d < 10
    ensures IsDigit(LOWER[d]) && LOWER[d] as nat - 48 == d
  {
  }

  /** This text may be left over at the end. */
  predicate Ends(end: End, size: Option<LLint>, rest: seq<Byte>)
    requires EndOk(end)
  {
    match end
    case Plain => rest == [] || rest[0] == 63
    case Strict(_, _) => rest == []
    case Sized(_, less, _, sign, digits, _) =>
      var limit := ToInt(Signed(sign, digits));
      size.Some? && size.value >= 0 && if less then size.value < limit else size.value > limit
  }

  /** The text is made of texts the pieces stand for, one after the other, and what may be left over. */
  ghost predicate Means(pieces: seq<Piece>, end: End, text: seq<Byte>, size: Option<LLint>)
    requires EndOk(end)
    decreases |pieces|
  {
    if pieces == [] then Ends(end, size, text)
    else exists k :: 0 <= k <= |text| && Stands(pieces[0], text[..k]) && Means(pieces[1..], end, text[k..], size)
  }

  // ---- Tokens ----

  function TableOf(elements: seq<Element>): Table {
    seq(256, i => Listed(elements, i))
  }

  function Union(pass: Table, elements: seq<Element>): Table {
    seq(256, i requires 0 <= i < 256 => pass[i] || Listed(elements, i))
  }

  function TokenOf(p: Piece): Token {
    match p
    case Letter(c) => Lit(c)
    case Star => Many(Everything(true))
    case Chars(one, elements) => if one then One(TableOf(elements)) else Many(TableOf(elements))
    case Named(name, _, _) =>
      var noQuery := Clear(Everything(true), QUERY);
      Many(if name == Path then noQuery else Clear(noQuery, SLASH))
    case Params(one, _, _) => Param(one)
  }

  function Tokens(pieces: seq<Piece>): seq<Token> {
    if pieces == [] then [] else [TokenOf(pieces[0])] + Tokens(pieces[1..])
  }

  function EndingOf(end: End): Ending
    requires EndOk(end)
  {
    match end
    case Plain => Open
    case Strict(_, _) => Exact
    case Sized(_, less, _, sign, digits, _) => SizeTest(less, ToInt(Signed(sign, digits)))
  }

  /** The token takes exactly the texts the piece stands for. */
  lemma TakesStands(p: Piece, text: seq<Byte>)
    ensures Takes(TokenOf(p), text) <==> Stands(p, text)
  {
    hide Mark, Everything, Clear, Listed;
    match p
    case Letter(_) =>
    case Star => EverythingIn(true);
    case Chars(one, elements) =>
      forall k | 0 <= k < |text|
        ensures In(TableOf(elements), text[k]) <==> Listed(elements, text[k] as int)
      {
      }
    case Named(name, _, _) =>
      var noQuery := Clear(Everything(true), QUERY);
      forall k | 0 <= k < |text|
        ensures In(noQuery, text[k]) <==> text[k] != QUERY
        ensures In(Clear(noQuery, SLASH), text[k]) <==> text[k] != QUERY && text[k] != SLASH
      {
        MarkMeans(Everything(true), QUERY, QUERY, text[k]);
        MarkMeans(noQuery, SLASH, SLASH, text[k]);
      }
    case Params(_, _, _) =>
  }

  lemma {:induction false} TokensMean(pieces: seq<Piece>, end: End, text: seq<Byte>, size: Option<LLint>)
    requires EndOk(end)
    ensures Accepts(Tokens(pieces), TailOf(EndingOf(end), size), text) <==> Means(pieces, end, text, size)
    decreases |pieces|
  {
    hide Accepts, Takes, Stands;
    var tail := TailOf(EndingOf(end), size);
    if pieces == [] {
      AcceptsNil(tail, text);
    } else {
      var t, rest := TokenOf(pieces[0]), Tokens(pieces[1..]);
      AcceptsCons(t, rest, tail, text);
      forall k | 0 <= k <= |text|
        ensures SplitsAt(t, rest, tail, text, k) <==>
                  Stands(pieces[0], text[..k]) && Means(pieces[1..], end, text[k..], size)
      {
        TakesStands(pieces[0], text[..k]);
        TokensMean(pieces[1..], end, text[k..], size);
      }
      if Accepts([t] + rest, tail, text) {
        var k: nat :| SplitsAt(t, rest, tail, text, k);
        assert 0 <= k <= |text|;
      }
    }
  }

  // ---- Reading what is written ----

  /** The table with the characters of one more element. */
  function Marked(pass: Table, e: Element): Table {
    match e
    case Char(c) => Mark(pass, c, c)
    case Range(lo, hi) => if hi as int > lo as int then Mark(pass, lo, hi) else pass
  }

  lemma UnionNone(pass: Table)
    ensures Union(pass, []) == pass
  {
  }

  lemma UnionMark(pass: Table, e: Element, rest: seq<Element>)
    ensures Union(Marked(pass, e), rest) == Union(pass, [e] + rest)
  {
    forall i | 0 <= i < 256
      ensures Listed([e] + rest, i) <==> Has(e, i) || Listed(rest, i)
      ensures Marked(pass, e)[i] == (pass[i] || Has(e, i))
    {
      hide Mark;
      ListedMore(e, rest, i);
      MarkedMeans(pass, e, i);
    }
    hide Marked, Listed, Has;
  }

  lemma ListedMore(e: Element, rest: seq<Element>, i: int)
    ensures Listed([e] + rest, i) <==> Has(e, i) || Listed(rest, i)
  {
    hide Has;
    if Has(e, i) {
      assert Has(([e] + rest)[0], i);
    }
    if k :| 0 <= k < |rest| && Has(rest[k], i) {
      assert Has(([e] + rest)[k + 1], i);
    }
  }

  lemma MarkedMeans(pass: Table, e: Element, i: nat)
    requires i < 256
    ensures Marked(pass, e)[i] == (pass[i] || Has(e, i))
  {
    hide MarkFrom;
    match e
    case Char(c) => MarkedAt(pass, c as int, c as int, i);
    case Range(lo, hi) => MarkedAt(pass, lo as int, hi as int, i);
  }

  /** One member of a list at index `i`, with a comma or the bracket behind it, and more behind that. */
  lemma ReadsElement(j: CString, i: nat, e: Element, one: bool, pass: Table, after: seq<Byte>)
    requires ElementOk(e, one) && i + |ElementText(e)| < |j| && j[i..i + |ElementText(e)|] == ElementText(e)
    requires var n := i + |ElementText(e)|; (j[n] == COMMA || j[n] == Right(one)) && j[n + 1..] == after
    ensures var n := i + |ElementText(e)|;
            ClassStep(j, i, pass) ==
              if Hides(e, after) then Go(n + 1, Marked(pass, Char(j[n])))
              else Go(if j[n] == COMMA then n + 1 else n, Marked(pass, e))
  {
    hide Mark, StartsInt, IntAt;
    var t := j[i..i + |ElementText(e)|];
    assert t[0] == j[i];
    if e.Range? {
      assert t[1] == j[i + 1] && t[2] == j[i + 2];
    } else {
      assert after == j[i + 2..];
      BehindElement(j, i + 2);
    }
  }

  lemma BehindElement(j: CString, n: nat)
    requires n <= |j|
    ensures |j[n..]| >= 1 ==> At(j, n) == j[n..][0]
    ensures |j[n..]| >= 2 <==> At(j, n + 1) != 0
  {
    if n + 1 < |j| {
      assert j[n + 1] in j;
    }
  }

  /**
    The list of a class, behind which stands its bracket, is read as `AsRead` says; what follows the
    bracket is read as more of the class if the bracket is taken for a character.
   */
  lemma {:induction false} ReadsList(
    j: CString, i: nat, elements: seq<Element>, one: bool, pass: Table, behind: seq<Byte>)
    requires elements != [] && forall k :: 0 <= k < |elements| ==> ElementOk(elements[k], one)
    requires i <= |j| && j[i..] == ListText(elements) + [Right(one)] + behind
    ensures var n, pass' := i + |ListText(elements)|, Union(pass, AsRead(elements, one, behind));
            && n < |j| && j[n + 1..] == behind
            && ClassFrom(j, i, Right(one), pass)
               == if RunsOn(elements, behind) then ClassFrom(j, n + 1, Right(one), pass') else Class(pass', n)
    decreases |elements|
  {
    hide Marked, Union, ClassFrom, ElementOk, ListText, ElementText, Hides;
    var e, rest := elements[0], elements[1..];
    var n := i + |ElementText(e)|;
    ListStart(j, i, elements, one, behind);
    if rest == [] {
      ReadsLast(j, i, e, one, pass, behind);
    } else {
      var read := if e.Char? && First(rest[0]) == BACKSLASH then Char(COMMA) else e;
      ReadsFirst(j, i, e, rest, one, pass, behind);
      UnionMark(pass, read, AsRead(rest, one, behind));
      ReadsList(j, n + 1, rest, one, Marked(pass, read), behind);
    }
  }

  /** The last element of a list, and its bracket. */
  lemma ReadsLast(j: CString, i: nat, e: Element, one: bool, pass: Table, behind: seq<Byte>)
    requires ElementOk(e, one) && i + |ElementText(e)| < |j| && j[i..i + |ElementText(e)|] == ElementText(e)
    requires var n := i + |ElementText(e)|; j[i] == First(e) && j[n] == Right(one) && j[n + 1..] == behind
    ensures var n, pass' := i + |ElementText(e)|, Union(pass, [if Hides(e, behind) then Char(Right(one)) else e]);
            ClassFrom(j, i, Right(one), pass)
            == if Hides(e, behind) then ClassFrom(j, n + 1, Right(one), pass') else Class(pass', n)
  {
    hide Marked, Union, ClassStep, ElementText, Hides;
    var read := if Hides(e, behind) then Char(Right(one)) else e;
    FirstOk(e, one);
    ReadsElement(j, i, e, one, pass, behind);
    UnionMark(pass, read, []);
    UnionNone(Marked(pass, read));
    assert [read] + [] == [read];
  }

  /** The first element of a longer list, and the comma. */
  lemma ReadsFirst(
    j: CString, i: nat, e: Element, rest: seq<Element>, one: bool, pass: Table, behind: seq<Byte>)
    requires rest != [] && ElementOk(e, one)
    requires i + |ElementText(e)| < |j| && j[i..i + |ElementText(e)|] == ElementText(e) && j[i] == First(e)
    requires var n := i + |ElementText(e)|;
             j[n] == COMMA && j[n + 1..] == ListText(rest) + [Right(one)] + behind
    ensures var read := if e.Char? && First(rest[0]) == BACKSLASH then Char(COMMA) else e;
            ClassFrom(j, i, Right(one), pass)
            == ClassFrom(j, i + |ElementText(e)| + 1, Right(one), Marked(pass, read))
  {
    hide Marked, ClassStep, ElementText, Hides, ListText;
    FirstOk(e, one);
    ListHides(e, rest, one, behind);
    ReadsElement(j, i, e, one, pass, ListText(rest) + [Right(one)] + behind);
  }

  lemma ListHides(e: Element, rest: seq<Element>, one: bool, behind: seq<Byte>)
    requires rest != []
    ensures Hides(e, ListText(rest) + [Right(one)] + behind) <==> e.Char? && First(rest[0]) == BACKSLASH
  {
    ListFirst(rest);
  }

  /** What is behind the bracket matters only if the class runs on. */
  lemma {:induction false} AsReadAlone(elements: seq<Element>, one: bool, behind: seq<Byte>)
    requires !RunsOn(elements, behind)
    ensures AsRead(elements, one, behind) == AsRead(elements, one, [])
  {
    if |elements| > 1 {
      AsReadAlone(elements[1..], one, behind);
    }
  }

  lemma FirstOk(e: Element, one: bool)
    requires ElementOk(e, one)
    ensures First(e) != Right(one)
  {
  }

  lemma Cut(j: CString, i: nat, t: seq<Byte>, mark: Byte, after: seq<Byte>)
    requires i <= |j| && j[i..] == t + [mark] + after
    ensures var n := i + |t|; n < |j| && j[i..n] == t && j[n] == mark && j[n + 1..] == after
  {
    var rest := j[i..];
    assert rest[|t|] == mark && rest[..|t|] == t && rest[|t| + 1..] == after;
  }

  /** The first element of a list, and what is behind it. */
  lemma ListStart(j: CString, i: nat, elements: seq<Element>, one: bool, behind: seq<Byte>)
    requires elements != [] && i <= |j| && j[i..] == ListText(elements) + [Right(one)] + behind
    ensures var t := ElementText(elements[0]); var n := i + |t|;
            && n < |j| && j[i..n] == t && j[i] == First(elements[0])
            && if |elements| == 1 then j[n] == Right(one) && j[n + 1..] == behind && |ListText(elements)| == |t|
               else j[n] == COMMA && j[n + 1..] == ListText(elements[1..]) + [Right(one)] + behind
                    && |ListText(elements)| == |t| + 1 + |ListText(elements[1..])|
  {
    hide ListText;
    var t := ElementText(elements[0]);
    ListIs(elements);
    if |elements| == 1 {
      ElementStart(j, i, elements[0], Right(one), behind);
    } else {
      var after := ListText(elements[1..]) + [Right(one)] + behind;
      assert j[i..] == t + [COMMA] + after;
      ElementStart(j, i, elements[0], COMMA, after);
    }
  }

  /** An element, a comma or the bracket, and what is behind it. */
  lemma ElementStart(j: CString, i: nat, e: Element, mark: Byte, after: seq<Byte>)
    requires i <= |j| && j[i..] == ElementText(e) + [mark] + after
    ensures var n := i + |ElementText(e)|;
            n < |j| && j[i..n] == ElementText(e) && j[i] == First(e) && j[n] == mark && j[n + 1..] == after
  {
    var t := ElementText(e);
    var n := i + |t|;
    Cut(j, i, t, mark, after);
    assert j[i..n][0] == j[i];
  }

  lemma ListIs(elements: seq<Element>)
    requires elements != []
    ensures ListText(elements) ==
              if |elements| == 1 then ElementText(elements[0])
              else ElementText(elements[0]) + [44] + ListText(elements[1..])
  {
  }

  lemma ListFirst(elements: seq<Element>)
    requires elements != []
    ensures ListText(elements) != [] && ListText(elements)[0] == First(elements[0])
  {
  }

  predicate IsLetter(c: Byte) {
    65 <= Upper(c) <= 90
  }

  lemma NoName(j: CString)
    requires |j| <= 3 || !IsLetter(j[2]) || !IsLetter(j[3])
    ensures !FieldAt(j, 2, FILE) && !FieldAt(j, 2, NAME) && !FieldAt(j, 2, PATH) && !FieldAt(j, 2, PARAM)
  {
    assert FILE[0] == 102 && FILE[1] == 105 && NAME[0] == 110 && NAME[1] == 97;
    assert PATH[0] == 112 && PATH[1] == 97 && PARAM[0] == 112 && PARAM[1] == 97;
  }

  lemma FreshUnion(elements: seq<Element>)
    ensures Union(Everything(false), elements) == TableOf(elements)
  {
  }

  /** What is behind the first element of a list is no letter. */
  lemma ClassStart(j: CString, one: bool, elements: seq<Element>, behind: seq<Byte>)
    requires ListOk(elements, one) && |j| >= 2 && j[2..] == ListText(elements) + [Right(one)] + behind
    ensures |j| > 3 && j[2] == First(elements[0]) && !IsLetter(j[3])
  {
    hide ListText, ElementOk;
    ListStart(j, 2, elements, one, behind);
    var e := elements[0];
    if e.Range? {
      assert j[2..5][1] == j[3];
    }
  }

  lemma ReadsClass(j: CString, one: bool, elements: seq<Element>, behind: seq<Byte>)
    requires ListOk(elements, one) && j == [STAR, Left(one)] + ListText(elements) + [Right(one)] + behind
    requires !RunsOn(elements, behind)
    ensures HeadOf(j).Head? && j[HeadOf(j).next..] == behind
    ensures HeadOf(j).token == TokenOf(Chars(one, AsRead(elements, one, [])))
  {
    hide ListText, ClassFrom, FieldAt, Union, TableOf, ElementOk, IsLetter, Everything, HeadOf;
    assert j[2..] == ListText(elements) + [Right(one)] + behind;
    ClassStart(j, one, elements, behind);
    assert ElementOk(elements[0], one);
    FirstOk(elements[0], one);
    NoName(j);
    ReadsList(j, 2, elements, one, Everything(false), behind);
    AsReadAlone(elements, one, behind);
    FreshUnion(AsRead(elements, one, []));
    HeadOfClass(j, one, TableOf(AsRead(elements, one, [])), 2 + |ListText(elements)|);
  }

  lemma HeadOfClass(j: CString, one: bool, pass: Table, end: nat)
    requires |j| > 3 && j[1] == Left(one) && j[2] != Left(one) && j[2] != Right(one)
    requires !FieldAt(j, 2, FILE) && !FieldAt(j, 2, NAME) && !FieldAt(j, 2, PATH) && !FieldAt(j, 2, PARAM)
    requires ClassFrom(j, 2, Right(one), Everything(false)) == Class(pass, end) && end < |j|
    ensures HeadOf(j) == Head(if one then One(pass) else Many(pass), end + 1)
  {
    hide FieldAt, ClassFrom, Everything;
  }

  lemma {:induction false} ClosingAt(j: CString, i: nat, right: Byte, n: nat)
    requires i <= n < |j| && j[n] == right && right !in j[i..n]
    ensures Closing(j, i, right) == n
    decreases n - i
  {
    if i < n {
      assert j[i..n][0] == j[i] && j[i..n][1..] == j[i + 1..n];
      ClosingAt(j, i + 1, right, n);
    }
  }

  lemma ReadsNamed(j: CString, word: seq<Byte>, one: bool, more: seq<Byte>, behind: seq<Byte>)
    requires |word| >= 4 && Right(one) !in word && Right(one) !in more
    requires j == [STAR, Left(one)] + word + more + [Right(one)] + behind
    ensures Behind(j, Closing(j, 2, Right(one))) == |word| + |more| + 3 && j[|word| + |more| + 3..] == behind
    ensures j[1] == Left(one) && j[2..2 + |word|] == word
  {
    var n := 2 + |word| + |more|;
    assert j[2..n] == word + more;
    ClosingAt(j, 2, Right(one), n);
  }

  /** The letters of a reserved name are not NULs or brackets. */
  lemma OnlyLetters(word: seq<Byte>, name: seq<Byte>)
    requires Spells(word, name) && forall k :: 0 <= k < |name| ==> 97 <= name[k] <= 122
    ensures 0 !in word && Right(true) !in word && Right(false) !in word
  {
    forall k | 0 <= k < |word|
      ensures IsLetter(word[k])
    {
      assert SameLetter(word[k], name[k]);
    }
  }

  lemma LowerCase(name: Name)
    ensures |Word(name)| == 4 && |PARAM| == 5
    ensures forall k :: 0 <= k < 4 ==> 97 <= Word(name)[k] <= 122
    ensures forall k :: 0 <= k < 5 ==> 97 <= PARAM[k] <= 122
  {
  }

  /** The reserved names are told apart. */
  lemma NameFound(j: CString, name: Name)
    requires |j| >= 6 && Spells(j[2..6], Word(name))
    ensures IsLetter(At(j, 2))
    ensures (FieldAt(j, 2, FILE) || FieldAt(j, 2, NAME)) <==> name != Path
    ensures FieldAt(j, 2, PATH) <==> name == Path
  {
    assert FILE[0] == 102 && NAME[0] == 110 && PATH[0] == 112;
    assert forall k :: 0 <= k < 4 ==> j[2..6][k] == j[2 + k];
    assert SameLetter(j[2], Word(name)[0]);
  }

  lemma ParamFound(j: CString)
    requires |j| >= 7 && Spells(j[2..7], PARAM)
    ensures IsLetter(At(j, 2)) && FieldAt(j, 2, PARAM)
    ensures !FieldAt(j, 2, FILE) && !FieldAt(j, 2, NAME) && !FieldAt(j, 2, PATH)
  {
    assert forall k :: 0 <= k < 5 ==> j[2..7][k] == j[2 + k];
    assert PARAM[0] == 112 && PARAM[2] == 114 && PATH[2] == 116 && FILE[0] == 102 && NAME[0] == 110;
    assert SameLetter(j[2], PARAM[0]) && SameLetter(j[4], PARAM[2]);
  }

  /** A piece that starts with a star is read as its token, up to what is behind. */
  lemma ReadsPiece(j: CString, p: Piece, behind: seq<Byte>)
    requires PieceOk(p) && !p.Letter? && Apart(p, behind) && j == PieceText(p) + behind && |j| >= 2
    ensures HeadOf(j).Head? && HeadOf(j).token == TokenOf(ReadPiece(p)) && j[HeadOf(j).next..] == behind
  {
    hide FieldAt, ClassFrom, Everything, Clear, ListText, TableOf, ListOk;
    match p
    case Star =>
    case Chars(one, elements) =>
      NonEmpty(elements, one);
      ReadsClass(j, one, elements, behind);
    case Named(name, word, more) =>
      LowerCase(name);
      OnlyLetters(word, Word(name));
      ReadsNamed(j, word, false, more, behind);
      NameFound(j, name);
    case Params(one, word, more) =>
      LowerCase(File);
      OnlyLetters(word, PARAM);
      ReadsNamed(j, word, one, more, behind);
      ParamFound(j);
  }

  lemma NonEmpty(elements: seq<Element>, one: bool)
    requires ListOk(elements, one)
    ensures elements != []
  {
  }

  /** The digits from `i` on, behind the first `k` ones. */
  lemma {:induction false} ReadsDigits(j: CString, i: nat, digits: seq<Byte>, k: nat)
    requires forall l :: 0 <= l < |digits| ==> IsDigit(digits[l])
    requires k <= |digits| && i + |digits| <= |j| && j[i..i + |digits|] == digits
    requires i + |digits| == |j| || !IsDigit(j[i + |digits|])
    ensures DigitsFrom(j, i + k, Number(digits[..k])) == Number(digits)
    decreases |digits| - k
  {
    if k < |digits| {
      assert j[i + k] == j[i..i + |digits|][k];
      assert digits[..k + 1][..k] == digits[..k];
      ReadsDigits(j, i, digits, k + 1);
    } else {
      assert digits[..k] == digits;
    }
  }

  /** Blanks, a sign or none, and digits are read as the number they write. */
  lemma {:induction false} ReadsSigned(
    j: CString, i: nat, blanks: seq<Byte>, sign: seq<Byte>, digits: seq<Byte>, more: seq<Byte>)
    requires i <= |j| && j[i..] == blanks + sign + digits + more
    requires AllBlank(blanks) && sign in [[], [43], [45]] && digits != []
    requires forall l :: 0 <= l < |digits| ==> IsDigit(digits[l])
    requires more == [] || !IsDigit(more[0])
    ensures StartsInt(j, i) && IntAt(j, i) == Signed(sign, digits)
    decreases |blanks|
  {
    hide DigitsFrom, Number, IsSpace, IsDigit, Signed;
    assert |j| - i == |blanks| + |sign| + |digits| + |more|;
    if blanks == [] {
      assert j[i..] == sign + (digits + more);
      ReadsSign(j, i, sign, digits, more);
    } else {
      assert j[i] == j[i..][0] == blanks[0];
      BlankIs(blanks[0]);
      assert j[i + 1..] == j[i..][1..] == blanks[1..] + sign + digits + more;
      ReadsSigned(j, i + 1, blanks[1..], sign, digits, more);
    }
  }

  lemma ReadsSign(j: CString, i: nat, sign: seq<Byte>, digits: seq<Byte>, more: seq<Byte>)
    requires i <= |j| && j[i..] == sign + (digits + more) && sign in [[], [43], [45]] && digits != []
    requires forall l :: 0 <= l < |digits| ==> IsDigit(digits[l])
    requires more == [] || !IsDigit(more[0])
    ensures StartsInt(j, i) && IntAt(j, i) == Signed(sign, digits)
  {
    hide DigitsFrom, Number;
    var k := i + |sign|;
    assert j[k..] == digits + more;
    assert j[k..k + |digits|] == j[k..][..|digits|] == digits;
    assert more != [] ==> j[k + |digits|] == j[k..][|digits|] == more[0];
    assert IsDigit(digits[0]) && j[k] == j[k..][0];
    assert digits[..0] == [];
    NoNumber();
    ReadsDigits(j, k, digits, 0);
    assert sign != [] ==> j[i] == j[i..][0] == sign[0];
  }

  lemma NoNumber()
    ensures Number([]) == 0
  {
  }

  /** And nothing else is read as a number. */
  lemma {:induction false} OnlySigned(j: CString, i: nat) returns (blanks: seq<Byte>, sign: seq<Byte>)
    requires i <= |j| && StartsInt(j, i)
    ensures AllBlank(blanks) && sign in [[], [43], [45]]
    ensures i + |blanks| + |sign| < |j| && j[i..i + |blanks| + |sign|] == blanks + sign
    ensures IsDigit(j[i + |blanks| + |sign|])
    decreases |j| - i
  {
    if i < |j| && IsSpace(j[i]) {
      blanks, sign := OnlySigned(j, i + 1);
      BlankIs(j[i]);
      assert j[i..i + 1 + |blanks| + |sign|] == [j[i]] + j[i + 1..i + 1 + |blanks| + |sign|];
      blanks := [j[i]] + blanks;
    } else if At(j, i) == 43 || At(j, i) == 45 {
      blanks, sign := [], [j[i]];
    } else {
      blanks, sign := [], [];
    }
  }

  lemma BlankIs(c: Byte)
    ensures IsSpace(c) <==> c in [9, 10, 11, 12, 13, 32]
  {
    assert 9 <= c <= 13 <==> c == 9 || c == 10 || c == 11 || c == 12 || c == 13;
  }

  lemma ReadsEnd(end: End)
    requires EndOk(end) && end != Plain && 0 !in EndText(end)
    ensures HeadOf(EndText(end)) == Last(EndingOf(end))
  {
    hide DigitsFrom, FieldAt, Everything, ToInt;
    var j: CString := EndText(end);
    NoName(j);
    if end.Sized? {
      assert j[3..] == end.blanks + end.sign + end.digits + end.more;
      ReadsSigned(j, 3, end.blanks, end.sign, end.digits, end.more);
    }
  }

  lemma {:induction false} NoNulWritten(pieces: seq<Piece>, end: End)
    requires WellFormed(pieces, end)
    ensures 0 !in Written(pieces, end)
  {
    if pieces == [] {
      if end.Sized? {
        assert forall d :: d in end.digits ==> IsDigit(d);
      }
    } else {
      NoNulPiece(pieces[0]);
      NoNulWritten(pieces[1..], end);
    }
  }

  lemma {:induction false} NoNulList(elements: seq<Element>, one: bool)
    requires forall k :: 0 <= k < |elements| ==> ElementOk(elements[k], one)
    ensures 0 !in ListText(elements)
  {
    if elements != [] {
      assert ElementOk(elements[0], one);
      NoNulList(elements[1..], one);
    }
  }

  lemma NoNulPiece(p: Piece)
    requires PieceOk(p)
    ensures 0 !in PieceText(p)
  {
    match p
    case Letter(_) =>
    case Star =>
    case Chars(one, elements) => NoNulList(elements, one);
    case Named(name, word, _) =>
      LowerCase(name);
      OnlyLetters(word, Word(name));
    case Params(_, word, _) =>
      LowerCase(File);
      OnlyLetters(word, PARAM);
  }

  /** Reading a written pattern gives the tokens of its pieces, one by one, and its end. */
  lemma {:induction false} ParseWritten(pieces: seq<Piece>, end: End)
    requires WellFormed(pieces, end)
    ensures 0 !in Written(pieces, end)
    ensures Parse(Written(pieces, end)) == Pattern(Tokens(ReadPieces(pieces)), EndingOf(end))
  {
    hide HeadOf, EndingOf, TokenOf, PieceOk, Apart, ReadPiece, ReadPieces;
    ReadCons(pieces);
    NoNulWritten(pieces, end);
    var j: CString := Written(pieces, end);
    if pieces == [] {
      EndIs(end);
      if end != Plain {
        ReadsEnd(end);
      }
    } else {
      var p, behind := pieces[0], Written(pieces[1..], end);
      ParseWritten(pieces[1..], end);
      PieceIs(p);
      if p.Letter? {
        assert j[1..] == behind;
      } else if |j| >= 2 {
        ReadsPiece(j, p, behind);
      } else {
        assert j == [STAR] && behind == [];
      }
    }
  }

  lemma ReadCons(pieces: seq<Piece>)
    ensures |ReadPieces(pieces)| == |pieces|
    ensures pieces != [] ==>
              ReadPieces(pieces)[0] == ReadPiece(pieces[0]) && ReadPieces(pieces)[1..] == ReadPieces(pieces[1..])
  {
  }

  lemma EndIs(end: End)
    requires EndOk(end)
    ensures end == Plain ==> EndingOf(end) == Open && EndText(end) == []
    ensures end != Plain ==> |EndText(end)| >= 2 && EndText(end)[0] == STAR
  {
  }

  lemma PieceIs(p: Piece)
    requires PieceOk(p)
    ensures PieceText(p) != []
    ensures if p.Letter? then PieceText(p) == [p.c] && p.c != STAR && TokenOf(ReadPiece(p)) == Lit(p.c)
            else PieceText(p)[0] == STAR
    ensures |PieceText(p)| == 1 && !p.Letter? ==> TokenOf(ReadPiece(p)) == Many(Everything(true))
  {
  }

  /** A written pattern matches the texts that what is read in its place means. */
  lemma WrittenMatches(pieces: seq<Piece>, end: End, text: CString, size: Option<LLint>)
    requires WellFormed(pieces, end)
    ensures 0 !in Written(pieces, end)
    ensures Matches(Written(pieces, end), text, size) <==> Means(ReadPieces(pieces), end, text, size)
  {
    hide Accepts, Means, ReadPieces;
    ParseWritten(pieces, end);
    TokensMean(ReadPieces(pieces), end, text, size);
  }

  // ---- Lists that are read as they are written ----

  predicate SameSet(a: seq<Element>, b: seq<Element>) {
    forall c: int :: 0 <= c < 256 ==> (Listed(a, c) <==> Listed(b, c))
  }

  /** Element `k` is a character, and the next one starts with a backslash. */
  predicate Skipped(elements: seq<Element>, k: int) {
    0 <= k && k + 1 < |elements| && elements[k].Char? && First(elements[k + 1]) == BACKSLASH
  }

  /** Every character that is skipped is listed again, and so is the comma that is taken in its place. */
  predicate Harmless(elements: seq<Element>, one: bool) {
    forall k :: 0 <= k < |elements| && Skipped(elements, k) ==>
      Listed(AsRead(elements, one, []), elements[k].c as int) && Listed(elements, COMMA as int)
  }

  lemma {:induction false} AsReadAt(elements: seq<Element>, one: bool, k: nat)
    requires k < |elements|
    ensures AsRead(elements, one, [])[k] == if Skipped(elements, k) then Char(COMMA) else elements[k]
  {
    if k > 0 {
      AsReadAt(elements[1..], one, k - 1);
    }
  }

  /** A backslash harms a list if and only if it loses a character or adds the comma. */
  lemma SameIfHarmless(elements: seq<Element>, one: bool)
    ensures SameSet(AsRead(elements, one, []), elements) <==> Harmless(elements, one)
  {
    hide AsRead;
    var read := AsRead(elements, one, []);
    forall k | Skipped(elements, k)
      ensures Listed(elements, elements[k].c as int) && Listed(read, COMMA as int)
      ensures 0 <= elements[k].c as int < 256
    {
      AsReadAt(elements, one, k);
      assert Has(elements[k], elements[k].c as int) && Has(read[k], COMMA as int);
    }
    assert 0 <= COMMA as int < 256;
    if Harmless(elements, one) {
      forall c | 0 <= c < 256
        ensures Listed(read, c) <==> Listed(elements, c)
      {
        HarmlessAt(elements, one, c);
      }
    }
  }

  lemma HarmlessAt(elements: seq<Element>, one: bool, c: int)
    requires Harmless(elements, one)
    ensures Listed(AsRead(elements, one, []), c) <==> Listed(elements, c)
  {
    hide AsRead;
    var read := AsRead(elements, one, []);
    if k :| 0 <= k < |read| && Has(read[k], c) {
      AsReadAt(elements, one, k);
      assert !Skipped(elements, k) ==> Has(elements[k], c);
    }
    if k :| 0 <= k < |elements| && Has(elements[k], c) {
      AsReadAt(elements, one, k);
      assert !Skipped(elements, k) ==> Has(read[k], c);
    }
  }

  /**
    A list is read as the set it lists, up to its bracket, if and only if no backslash harms it and the
    bracket is not taken for a character.
   */
  lemma ReadAsSet(j: CString, i: nat, elements: seq<Element>, one: bool, behind: seq<Byte>)
    requires elements != [] && forall k :: 0 <= k < |elements| ==> ElementOk(elements[k], one)
    requires i <= |j| && j[i..] == ListText(elements) + [Right(one)] + behind
    ensures ClassFrom(j, i, Right(one), Everything(false)) == Class(TableOf(elements), i + |ListText(elements)|)
            <==> Harmless(elements, one) && !RunsOn(elements, behind)
  {
    hide ListText, ClassFrom, AsRead, Everything, RunsOn, Harmless, SameSet, TableOf;
    ReadsList(j, i, elements, one, Everything(false), behind);
    if !RunsOn(elements, behind) {
      AsReadAlone(elements, one, behind);
      FreshUnion(AsRead(elements, one, []));
      SameTables(AsRead(elements, one, []), elements);
      SameIfHarmless(elements, one);
    }
  }

  lemma SameTables(a: seq<Element>, b: seq<Element>)
    ensures TableOf(a) == TableOf(b) <==> SameSet(a, b)
  {
    hide Listed;
    if TableOf(a) == TableOf(b) {
      forall c: int | 0 <= c < 256
        ensures Listed(a, c) <==> Listed(b, c)
      {
        assert TableOf(a)[c] == TableOf(b)[c];
      }
    }
  }

  predicate AllHarmless(pieces: seq<Piece>) {
    forall k :: 0 <= k < |pieces| && pieces[k].Chars? ==> Harmless(pieces[k].elements, pieces[k].one)
  }

  /** So a pattern whose lists are all harmless matches the texts it means as it is written. */
  lemma {:induction false} HarmlessMeans(pieces: seq<Piece>, end: End, text: seq<Byte>, size: Option<LLint>)
    requires EndOk(end) && AllHarmless(pieces)
    ensures Means(ReadPieces(pieces), end, text, size) <==> Means(pieces, end, text, size)
    decreases |pieces|
  {
    hide Stands, ReadPiece, Harmless;
    if pieces != [] {
      var read := ReadPieces(pieces);
      assert read[1..] == ReadPieces(pieces[1..]) && AllHarmless(pieces[1..]);
      forall k | 0 <= k <= |text|
        ensures Stands(read[0], text[..k]) && Means(read[1..], end, text[k..], size)
                <==> Stands(pieces[0], text[..k]) && Means(pieces[1..], end, text[k..], size)
      {
        HarmlessStands(pieces[0], text[..k]);
        HarmlessMeans(pieces[1..], end, text[k..], size);
      }
    }
  }

  lemma HarmlessStands(p: Piece, text: seq<Byte>)
    requires p.Chars? ==> Harmless(p.elements, p.one)
    ensures Stands(ReadPiece(p), text) <==> Stands(p, text)
  {
    hide Listed, AsRead, Harmless;
    if p.Chars? {
      forall k | 0 <= k < |text|
        ensures Listed(AsRead(p.elements, p.one, []), text[k] as int) <==> Listed(p.elements, text[k] as int)
      {
        HarmlessAt(p.elements, p.one, text[k] as int);
      }
    }
  }

  /** `strjoker` on a written pattern matches the texts it means, as far as no backslash harms its lists. */
  method StrJokerWritten(ghost pieces: seq<Piece>, ghost end: End, j: CString, c: CString, size: Option<LLint>)
    returns (r: Option<nat>, size': Option<LLint>)
    requires WellFormed(pieces, end) && j == Written(pieces, end)
    ensures r.Some? <==> Means(ReadPieces(pieces), end, c, size)
    ensures AllHarmless(pieces) ==> (r.Some? <==> Means(pieces, end, c, size))
    ensures size' == if r.Some? && end.Sized? then Some(ToInt(Signed(end.sign, end.digits))) else size
  {
    hide Matches, Means, Parse, Written, AllHarmless, ReadPieces;
    ParseWritten(pieces, end);
    WrittenMatches(pieces, end, c, size);
    if AllHarmless(pieces) {
      HarmlessMeans(pieces, end, c, size);
    }
    r, size' := StrJoker(c, j, size);
  }

  // ---- What some patterns do ----

  /** `*[>10,<100].gif`, of which the comment on line 42 says that it matches files between 10 and 100 KB. */
  const BETWEEN: CString := [42, 91, 62, 49, 48, 44, 60, 49, 48, 48, 93, 46, 103, 105, 102]

  /** It matches whatever is larger than 10: the second test and the name behind it are never looked at. */
  lemma SecondTestIgnored(text: CString, size: Option<LLint>)
    ensures Matches(BETWEEN, text, size) <==> size.Some? && size.value > 10
  {
    hide Matches;
    var end := Sized(false, false, [], [], [49, 48], BETWEEN[5..]);
    assert EndText(end) == BETWEEN;
    Ten();
    WrittenMatches([], end, text, size);
  }

  lemma Ten()
    ensures Number([49, 48]) == 10
  {
    assert [49 as Byte, 48][..1] == [49];
    assert [49 as Byte][..0] == [];
  }

  /** `*[\]]`, which the comment on line 236 gives for a class of one escaped bracket. */
  const ESCAPED: CString := [42, 91, 92, 93, 93]

  const BRACKET: Byte := 93

  const READ_AS: seq<Piece> := [Chars(false, [Char(BACKSLASH)]), Letter(BRACKET)]

  /** It is read as a class of one backslash, and a bracket behind it. */
  lemma EscapeIsNoEscape(text: CString, size: Option<LLint>)
    ensures Matches(ESCAPED, text, size) <==> Means(READ_AS, Plain, text, size)
    ensures !Means(READ_AS, Plain, [BRACKET, BRACKET], size)
  {
    hide Matches, Means;
    assert READ_AS[1..] == [Letter(BRACKET)] && [Letter(BRACKET)][1..] == [];
    assert WellFormed([Letter(BRACKET)], Plain) && WellFormed(READ_AS, Plain);
    assert Written(READ_AS, Plain) == ESCAPED by {
      assert Written([Letter(BRACKET)], Plain) == [BRACKET];
      assert ListText([Char(BACKSLASH)]) == [BACKSLASH];
    }
    WrittenMatches(READ_AS, Plain, text, size);
    ReadAlone(Char(BACKSLASH), READ_AS);
    TwoBrackets(size);
  }

  lemma ReadAlone(e: Element, pieces: seq<Piece>)
    requires pieces == [Chars(false, [e]), Letter(BRACKET)]
    ensures ReadPieces(pieces) == pieces
  {
    assert AsRead([e], false, []) == [e];
  }

  lemma TwoBrackets(size: Option<LLint>)
    ensures !Means(READ_AS, Plain, [BRACKET, BRACKET], size)
  {
    var text := [BRACKET, BRACKET];
    assert !Listed([Char(BACKSLASH)], BRACKET as int);
    forall k | 1 <= k <= 2
      ensures !Stands(READ_AS[0], text[..k])
    {
      assert text[..k][0] == BRACKET;
    }
    forall k | 0 <= k <= 2 && Stands(READ_AS[0], text[..k])
      ensures !Means(READ_AS[1..], Plain, text[k..], size)
    {
      assert text[0..] == text && READ_AS[1..] == [Letter(BRACKET)];
      forall l | 0 <= l <= 2 && Stands(Letter(BRACKET), text[..l])
        ensures !Means([], Plain, text[l..], size)
      {
        assert text[l..] == [BRACKET];
      }
      assert [Letter(BRACKET)][1..] == [];
    }
  }

  /** `*[a,\]]`: a list of a letter and a backslash, and a bracket behind it. */
  const LOST: CString := [42, 91, 97, 44, 92, 93, 93]

  const LOST_PIECES: seq<Piece> := [Chars(false, [Char(97), Char(BACKSLASH)]), Letter(BRACKET)]

  const FOUND_PIECES: seq<Piece> := [Chars(false, [Char(COMMA), Char(BACKSLASH)]), Letter(BRACKET)]

  /** It is read as a list of a comma and a backslash: the letter is lost. */
  lemma LetterLost(text: CString, size: Option<LLint>)
    ensures LOST == Written(LOST_PIECES, Plain) && WellFormed(LOST_PIECES, Plain)
    ensures Matches(LOST, text, size) <==> Means(FOUND_PIECES, Plain, text, size)
    ensures !AllHarmless(LOST_PIECES)
  {
    hide Matches, Means;
    var list := [Char(97), Char(BACKSLASH)];
    assert LOST_PIECES[1..] == [Letter(BRACKET)] && [Letter(BRACKET)][1..] == [];
    assert Written([Letter(BRACKET)], Plain) == [BRACKET];
    assert list[1..] == [Char(BACKSLASH)] && ListText(list) == [97, COMMA, BACKSLASH];
    assert WellFormed([Letter(BRACKET)], Plain);
    WrittenMatches(LOST_PIECES, Plain, text, size);
    assert AsRead(list, false, []) == [Char(COMMA), Char(BACKSLASH)];
    assert ReadPieces(LOST_PIECES) == FOUND_PIECES;
    assert Skipped(list, 0) && !Listed(list, COMMA as int);
    assert LOST_PIECES[0].elements == list && !Harmless(list, false);
  }

  /** `*[x]\y]`: a list of one letter, behind whose bracket stands a backslash. */
  const RUNNING: CString := [42, 91, 120, 93, 92, 121, 93]

  /** The bracket is taken for a character, the letter is lost, and the class goes on to the next bracket. */
  lemma ClassRunsOn()
    ensures RUNNING[2..] == ListText([Char(120)]) + [BRACKET] + [BACKSLASH, 121, BRACKET]
    ensures ClassFrom(RUNNING, 2, BRACKET, Everything(false))
            == Class(TableOf([Char(BRACKET), Char(BACKSLASH), Char(121)]), 6)
  {
    hide ClassStep;
    var j, a, b, c := RUNNING, Char(BRACKET), Char(BACKSLASH), Char(121 as Byte);
    ReadsList(j, 2, [Char(120)], false, Everything(false), [BACKSLASH, 121, BRACKET]);
    var p1 := Union(Everything(false), [a]);
    assert AsRead([Char(120)], false, [BACKSLASH, 121, BRACKET]) == [a];
    var p2, p3 := Mark(p1, BACKSLASH, BACKSLASH), Mark(Mark(p1, BACKSLASH, BACKSLASH), 121, 121);
    RunningSteps(p1);
    assert ClassFrom(j, 4, BRACKET, p1) == ClassFrom(j, 5, BRACKET, p2) == ClassFrom(j, 6, BRACKET, p3) == Class(p3, 6);
    UnionMark(p2, c, []);
    UnionNone(p3);
    UnionMark(p1, b, [c]);
    UnionUnion(Everything(false), [a], [b, c]);
    assert [b] + [c] == [b, c] && [c] + [] == [c] && [a] + [b, c] == [a, b, c];
    FreshUnion([a, b, c]);
  }

  lemma RunningSteps(pass: Table)
    ensures ClassStep(RUNNING, 4, pass) == Go(5, Mark(pass, BACKSLASH, BACKSLASH))
    ensures forall p :: ClassStep(RUNNING, 5, p) == Go(6, Mark(p, 121, 121))
  {
    hide Mark, StartsInt, IntAt;
  }

  lemma {:induction false} UnionUnion(pass: Table, a: seq<Element>, b: seq<Element>)
    ensures Union(Union(pass, a), b) == Union(pass, a + b)
    decreases |a|
  {
    hide Union, Marked;
    if a == [] {
      UnionNone(pass);
      assert a + b == b;
    } else {
      UnionMark(pass, a[0], a[1..]);
      UnionMark(pass, a[0], a[1..] + b);
      assert [a[0]] + a[1..] == a && [a[0]] + (a[1..] + b) == a + b;
      UnionUnion(Marked(pass, a[0]), a[1..], b);
    }
  }

  /** `+*[<10]`. */
  const SMALL: CString := [43, 42, 91, 60, 49, 48, 93]

  /** In a call without a size this list of one filter answers what happens to be in the unset variable. */
  lemma UnsetDecides(name: CString)
    ensures !(forall u, v :: SameVerdict(0, [SMALL], name, u, v))
  {
    hide LastMatch, Filters.Sized, Steady;
    SmallIsSized(name);
    AppliesBySize(0, SMALL, name, 0);
    assert [SMALL][0] == SMALL;
    UnsetSize(0, [SMALL], name);
  }

  lemma SmallIsSized(name: CString)
    ensures Filters.Sized(0, SMALL, name)
  {
    hide Accepts, Parse;
    var end := Sized(false, true, [], [], [49, 48], [93]);
    assert SMALL[1..6][0] == 42;
    assert EndText(end) == PatternOf(SMALL);
    Ten();
    ParseWritten([], end);
    AcceptsNil(Anything, name);
  }
}
