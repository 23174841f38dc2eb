/**
  Percent decoding of URLs.  The decoder copies every character blindly; when a `%xx` turns out to
  be a printable ASCII character, or the last byte of a readable UTF-8 sequence, it rolls the write
  position back to where the escape or the sequence started.
 */
module UrlDecode {
  import opened Bytes
  import opened Numerals
  import opened Utf8
  import Entities

  const PERCENT: Byte := 37
  const PLUS: Byte := 43
  const QUESTION: Byte := 63
  const SPACE: Byte := 32

  /** `sizeof(utfBuffer)`. */
  const BUFFER_SIZE := 32

  function Digit(c: Byte): Byte
    requires IsHex(c)
  {
    Entities.HexValue(c) as Byte
  }

  /** The byte an escape stands for. */
  function Escaped(a: Byte, b: Byte): Byte
    requires IsHex(a) && IsHex(b)
  {
    Digit(a) * 16 + Digit(b)
  }

  predicate IsPrintable(c: Byte) {
    32 <= c < 0x80
  }

  /** The bytes `hts_readUTF8` takes from `buffer`, 0 when it cannot be read. */
  function ReadSize(buffer: seq<Byte>): nat {
    var r := Read(buffer, 0);
    if r.code.Some? then r.next else 0
  }

  // ---- One character ----

  /**
    The variables of the loop.  `lastI` and `lastJ` are where the last `%` was read and written, -1
    before the first one; `buffer` holds the `k` bytes of the pending UTF-8 sequence, which is
    `bufferSize` bytes long and starts at `bufferJ`.
   */
  datatype State = State(
    dest: seq<Byte>, j: nat, lastI: int, lastJ: int, buffer: seq<Byte>, bufferJ: nat, bufferSize: nat, seenQuery: bool)

  function Start(dest: seq<Byte>): State {
    State(dest, 0, -1, -1, [], 0, 0, false)
  }

  /** On any input the write position is never ahead of the read position. */
  ghost predicate InBounds(s: seq<Byte>, i: nat, st: State) {
    && i <= |s| < |st.dest| && st.j <= i
    && -1 <= st.lastI < i && (if st.lastI == -1 then st.lastJ == -1 else 0 <= st.lastJ <= st.lastI)
    && |st.buffer| <= BUFFER_SIZE && (st.buffer != [] ==> st.bufferJ + |st.buffer| <= i)
  }

  /** What the character at `i` is: the new variables, the character to copy, and the byte it completes. */
  function Classify(s: seq<Byte>, i: nat, st: State, noAscii: bool): (State, Byte, Byte)
    requires i < |s| && InBounds(s, i, st)
  {
    var c := s[i];
    if c == PLUS && st.seenQuery then (st.(buffer := []), SPACE, SPACE)
    else if c == PERCENT then (st.(lastI := i, lastJ := st.j), c, c)
    else if i >= 2 && i == st.lastI + 2 then
      if IsHex(s[i - 1]) && IsHex(c) then
        var e := Escaped(s[i - 1], c);
        if IsPrintable(e) && !noAscii then (st.(j := st.lastJ), e, e) else (st, c, e)
      else (st.(buffer := []), c, c)
    else if c < 0x80 && i != st.lastI + 1 then
      (st.(buffer := [], seenQuery := st.seenQuery || c == QUESTION), c, c)
    else (st, c, c)
  }

  /** Write the buffer when the sequence is complete and readable. */
  function Flush(st: State): (State, bool)
    requires st.bufferJ + |st.buffer| <= |st.dest|
  {
    var b, end := st.buffer, st.bufferJ + |st.buffer|;
    if |b| != st.bufferSize then (st, false)
    else if ReadSize(b) != st.bufferSize then (st.(buffer := []), false)
    else (st.(buffer := [], dest := st.dest[..st.bufferJ] + b + st.dest[end..], j := end), true)
  }

  /** Put a byte that is not ASCII into the buffer; true if that completes a readable sequence. */
  function Collect(s: seq<Byte>, i: nat, st: State, u: Byte): (State, bool)
    requires i < |s| && InBounds(s, i + 1, st) && st.j <= i && (st.buffer != [] ==> st.bufferJ + |st.buffer| <= i)
  {
    if u < 0x80 then (st, false)
    else
      var st1 := if IsLeading(u) then st.(buffer := []) else st;
      if |st1.buffer| >= BUFFER_SIZE then (st1, false)
      else
        var st2 := if st1.buffer != [] then st1
                   else st1.(bufferJ := if st1.lastI != -1 && i == st1.lastI + 2 then st1.lastJ else st1.j,
                             bufferSize := SequenceLength(u));
        Flush(st2.(buffer := st2.buffer + [u]))
  }

  /** Classifying a character keeps the variables in bounds, ready for the next character. */
  lemma ClassifyInBounds(s: seq<Byte>, i: nat, st: State, noAscii: bool)
    requires i < |s| && InBounds(s, i, st)
    ensures var st' := Classify(s, i, st, noAscii).0;
            && InBounds(s, i + 1, st') && st'.j <= i && st'.dest == st.dest
            && (st'.buffer != [] ==> st'.bufferJ + |st'.buffer| <= i)
  {
    hide IsHex, Escaped, IsPrintable;
  }

  lemma CollectInBounds(s: seq<Byte>, i: nat, st: State, u: Byte)
    requires i < |s| && InBounds(s, i + 1, st) && st.j <= i && (st.buffer != [] ==> st.bufferJ + |st.buffer| <= i)
    ensures var (st', flushed) := Collect(s, i, st, u);
            InBounds(s, i + 1, st') && |st'.dest| == |st.dest| && (flushed || st'.j <= i)
  {
    hide SequenceLength, ReadSize, IsLeading;
  }

  /** Copy the current character, if there is room. */
  function Copy(st: State, c: Byte, max: nat): Result
    requires st.j < |st.dest|
  {
    if st.j + 1 > max then Overflow else Done(st.(dest := st.dest[st.j := c], j := st.j + 1))
  }

  /** The body of the loop; `Overflow` is the overflow of the destination. */
  function Step(s: seq<Byte>, i: nat, st: State, max: nat, noAscii: bool): Result
    requires i < |s| && InBounds(s, i, st)
  {
    ClassifyInBounds(s, i, st, noAscii);
    var (st1, c, u) := Classify(s, i, st, noAscii);
    CollectInBounds(s, i, st1, u);
    var (st2, flushed) := Collect(s, i, st1, u);
    if flushed then Done(st2) else Copy(st2, c, max)
  }

  datatype Result = Overflow | Done(st: State)

  lemma StepInBounds(s: seq<Byte>, i: nat, st: State, max: nat, noAscii: bool)
    requires i < |s| && InBounds(s, i, st)
    ensures var r := Step(s, i, st, max, noAscii);
            if r.Done? then InBounds(s, i + 1, r.st) && |r.st.dest| == |st.dest| else i + 1 > max
  {
    hide Classify, Collect;
    ClassifyInBounds(s, i, st, noAscii);
    var (st1, c, u) := Classify(s, i, st, noAscii);
    CollectInBounds(s, i, st1, u);
    var (st2, flushed) := Collect(s, i, st1, u);
    if !flushed {
      assert st2.j <= i;
      assert InBounds(s, i + 1, st2.(dest := st2.dest[st2.j := c], j := st2.j + 1));
    }
  }

  /** The rest of the loop from `i` on. */
  function Run(s: seq<Byte>, i: nat, st: State, max: nat, noAscii: bool): Result
    requires InBounds(s, i, st)
    decreases |s| - i
  {
    if i == |s| then Done(st)
    else
      StepInBounds(s, i, st, max, noAscii);
      match Step(s, i, st, max, noAscii)
      case Overflow => Overflow
      case Done(next) => Run(s, i + 1, next, max, noAscii)
  }

  /** For every input: the output is never longer, so it fits wherever the input would. */
  lemma {:induction false} NeverLonger(s: seq<Byte>, i: nat, st: State, max: nat, noAscii: bool)
    requires InBounds(s, i, st)
    ensures var r := Run(s, i, st, max, noAscii);
            if r.Done? then InBounds(s, |s|, r.st) && |r.st.dest| == |st.dest| && r.st.j <= |s| else |s| > max
    decreases |s| - i
  {
    hide Step;
    if i < |s| {
      StepInBounds(s, i, st, max, noAscii);
      var r := Step(s, i, st, max, noAscii);
      if r.Done? {
        NeverLonger(s, i + 1, r.st, max, noAscii);
      }
    }
  }

  // ---- Room in the destination ----

  /** From here on, the loop and the final NUL write below index `room` only. */
  ghost predicate Within(s: seq<Byte>, i: nat, st: State, max: nat, noAscii: bool, room: nat)
    requires InBounds(s, i, st)
    decreases |s| - i
  {
    if i == |s| then st.j < room
    else
      StepInBounds(s, i, st, max, noAscii);
      match Step(s, i, st, max, noAscii)
      case Overflow => true
      case Done(next) => next.j <= room && Within(s, i + 1, next, max, noAscii, room)
  }

  /** A destination longer than the text is always large enough. */
  lemma {:induction false} LongDestination(s: seq<Byte>, i: nat, st: State, max: nat, noAscii: bool, room: nat)
    requires InBounds(s, i, st) && |s| < room
    ensures Within(s, i, st, max, noAscii, room)
    decreases |s| - i
  {
    hide Step;
    if i < |s| {
      StepInBounds(s, i, st, max, noAscii);
      var r := Step(s, i, st, max, noAscii);
      if r.Done? {
        LongDestination(s, i + 1, r.st, max, noAscii, room);
      }
    }
  }

  /** For every text: pending sequences and escapes start below `max`. */
  ghost predicate Near(st: State, max: nat) {
    && st.lastJ < max && st.j <= max + 5
    && (st.buffer != [] ==> st.bufferJ < max && st.bufferSize <= 6)
  }

  lemma StepIsNear(s: seq<Byte>, i: nat, st: State, max: nat, noAscii: bool)
    requires i < |s| && InBounds(s, i, st) && Near(st, max)
    ensures var r := Step(s, i, st, max, noAscii);
            r.Done? ==> Near(r.st, max)
  {
    hide Classify, Collect;
    ClassifyInBounds(s, i, st, noAscii);
    var (st1, c, u) := Classify(s, i, st, noAscii);
    ClassifyIsNear(s, i, st, max, noAscii);
    CollectInBounds(s, i, st1, u);
    CollectIsNear(s, i, st1, max, u);
  }

  /** The position of a `%` is not yet known to be below `max`: it still has to be copied. */
  lemma ClassifyIsNear(s: seq<Byte>, i: nat, st: State, max: nat, noAscii: bool)
    requires i < |s| && InBounds(s, i, st) && Near(st, max)
    ensures var (st', c, u) := Classify(s, i, st, noAscii);
            && (Near(st', max) || (u < 0x80 && st'.lastJ == st'.j && Near(st'.(lastJ := -1), max)))
            && (u >= 0x80 && st'.lastI != -1 && i == st'.lastI + 2 ==> 0 <= st'.lastJ < max)
  {
    hide IsHex, Escaped, IsPrintable;
  }

  lemma CollectIsNear(s: seq<Byte>, i: nat, st: State, max: nat, u: Byte)
    requires i < |s| && InBounds(s, i + 1, st) && st.j <= i && (st.buffer != [] ==> st.bufferJ + |st.buffer| <= i)
    requires Near(st, max) || (u < 0x80 && st.lastJ == st.j && Near(st.(lastJ := -1), max))
    requires u >= 0x80 && st.lastI != -1 && i == st.lastI + 2 ==> 0 <= st.lastJ < max
    ensures var (st', flushed) := Collect(s, i, st, u);
            if flushed then Near(st', max) else st'.j == st.j && (st'.j + 1 <= max ==> Near(st'.(j := st'.j + 1), max))
  {
    hide SequenceLength, ReadSize, IsLeading;
    LeadSize(u);
  }

  lemma LeadSize(u: Byte)
    ensures SequenceLength(u) <= 6 && (u >= 0x80 ==> SequenceLength(u) != 1)
  {
  }

  /** For every text: nothing is written six characters or more behind the last one that fits. */
  lemma {:induction false} NearMax(s: seq<Byte>, i: nat, st: State, max: nat, noAscii: bool, room: nat)
    requires InBounds(s, i, st) && Near(st, max) && max + 5 < room
    ensures Within(s, i, st, max, noAscii, room)
    ensures var r := Run(s, i, st, max, noAscii); r.Done? ==> r.st.j <= max + 5
    decreases |s| - i
  {
    hide Step;
    if i < |s| {
      StepInBounds(s, i, st, max, noAscii);
      StepIsNear(s, i, st, max, noAscii);
      var r := Step(s, i, st, max, noAscii);
      if r.Done? {
        NearMax(s, i + 1, r.st, max, noAscii, room);
      }
    }
  }

  /** What the loop does from `i` on is what it does from `i'` on, behind `next`. */
  ghost predicate Leads(
    s: seq<Byte>, i: nat, st: State, max: nat, noAscii: bool, room: nat, i': nat, next: Result)
    requires InBounds(s, i, st)
  {
    if next.Done? then
      && i' <= |s| && InBounds(s, i', next.st)
      && Run(s, i, st, max, noAscii) == Run(s, i', next.st, max, noAscii)
      && Within(s, i, st, max, noAscii, room) == Within(s, i', next.st, max, noAscii, room)
    else Run(s, i, st, max, noAscii) == Overflow && Within(s, i, st, max, noAscii, room)
  }

  lemma StepLeads(s: seq<Byte>, i: nat, st: State, max: nat, noAscii: bool, room: nat)
    requires i < |s| && InBounds(s, i, st)
    ensures var r := Step(s, i, st, max, noAscii);
            (r.Done? ==> r.st.j <= room) ==> Leads(s, i, st, max, noAscii, room, i + 1, r)
  {
    hide Step, InBounds;
    StepInBounds(s, i, st, max, noAscii);
  }

  lemma LeadsInBounds(
    s: seq<Byte>, i: nat, st: State, max: nat, noAscii: bool, room: nat, i': nat, next: Result)
    requires InBounds(s, i, st) && Leads(s, i, st, max, noAscii, room, i', next)
    ensures next.Done? ==> i' <= |s| && InBounds(s, i', next.st)
  {
  }

  lemma LeadsNowhere(s: seq<Byte>, i: nat, st: State, max: nat, noAscii: bool, room: nat, i1: nat, i2: nat)
    requires InBounds(s, i, st) && Leads(s, i, st, max, noAscii, room, i1, Overflow)
    ensures Leads(s, i, st, max, noAscii, room, i2, Overflow)
  {
  }

  lemma LeadsOn(
    s: seq<Byte>, i: nat, st: State, max: nat, noAscii: bool, room: nat, i1: nat, st1: State, i2: nat, next: Result)
    requires InBounds(s, i, st) && Leads(s, i, st, max, noAscii, room, i1, Done(st1))
    requires Leads(s, i1, st1, max, noAscii, room, i2, next)
    ensures Leads(s, i, st, max, noAscii, room, i2, next)
  {
    hide Run, Within, InBounds;
  }

  // ---- Well-formed URLs ----

  /** A byte of a URL, written as it is or as `%xx`. */
  datatype Part = Raw(c: Byte) | Escape(a: Byte, b: Byte)

  predicate GoodPart(p: Part) {
    match p
    case Raw(c) => c != PERCENT && c != 0
    case Escape(a, b) => IsHex(a) && IsHex(b)
  }

  function ByteOf(p: Part): Byte
    requires GoodPart(p)
  {
    match p
    case Raw(c) => c
    case Escape(a, b) => Escaped(a, b)
  }

  function PartText(p: Part): (text: seq<Byte>)
    ensures |text| > 0
  {
    match p
    case Raw(c) => [c]
    case Escape(a, b) => [37, a, b]
  }

  type Url = parts: seq<Part> | forall k :: 0 <= k < |parts| ==> GoodPart(parts[k])

  function Text(parts: Url, u: nat): seq<Byte>
    requires u <= |parts|
    decreases |parts| - u
  {
    if u == |parts| then [] else PartText(parts[u]) + Text(parts, u + 1)
  }

  function BytesOf(parts: Url): seq<Byte> {
    seq(|parts|, k requires 0 <= k < |parts| => ByteOf(parts[k]))
  }

  /**
    What a part decodes to: printable ASCII and UTF-8 escapes are decoded once, `+` is a space in the
    query, and other escapes stay.
   */
  function PartDecoded(p: Part, seen: bool, noAscii: bool): seq<Byte>
    requires GoodPart(p)
  {
    if p == Raw(43) && seen then [32]
    else if p.Escape? && ByteOf(p) < 0x80 && !(IsPrintable(ByteOf(p)) && !noAscii) then PartText(p)
    else [ByteOf(p)]
  }

  /** The query starts behind a `?`, unless that is the first character. */
  predicate InQuery(p: Part, u: nat, seen: bool) {
    seen || (p == Raw(63) && u > 0)
  }

  function Decoded(parts: Url, u: nat, seen: bool, noAscii: bool): seq<Byte>
    requires u <= |parts|
    decreases |parts| - u
  {
    if u == |parts| then []
    else PartDecoded(parts[u], seen, noAscii) + Decoded(parts, u + 1, InQuery(parts[u], u, seen), noAscii)
  }

  // ---- One part ----

  /** No escape is open. */
  predicate Settled(st: State, i: nat) {
    st.lastI == -1 || st.lastI + 2 < i
  }

  lemma RawAscii(s: seq<Byte>, i: nat, st: State, max: nat, noAscii: bool)
    requires i < |s| && InBounds(s, i, st) && Settled(st, i) && st.buffer == [] && s[i] < 0x80 && s[i] != PERCENT
    ensures var out := if s[i] == PLUS && st.seenQuery then SPACE else s[i];
            var seen := st.seenQuery || (s[i] == QUESTION && i > 0);
            Step(s, i, st, max, noAscii) ==
              if st.j + 1 > max then Overflow
              else Done(st.(dest := st.dest[st.j := out], j := st.j + 1, seenQuery := seen))
  {
  }

  /** The state behind the `%` and the first digit of an escape, both copied as they are. */
  function Opened(i: nat, st: State, a: Byte): State
    requires st.j + 2 <= |st.dest|
  {
    st.(dest := st.dest[st.j := PERCENT][st.j + 1 := a], j := st.j + 2, lastI := i, lastJ := st.j)
  }

  lemma HexIsPlain(c: Byte)
    requires IsHex(c)
    ensures c != PLUS && c != PERCENT && c != QUESTION && 0 < c < 0x80
  {
  }

  lemma EscapeOpens(s: seq<Byte>, i: nat, st: State, max: nat, noAscii: bool, room: nat)
    requires i + 2 < |s| && InBounds(s, i, st) && s[i] == PERCENT && IsHex(s[i + 1]) && max < room
    ensures st.j + 2 <= |st.dest|
    ensures var r := if st.j + 2 > max then Overflow else Done(Opened(i, st, s[i + 1]));
            Leads(s, i, st, max, noAscii, room, i + 2, r)
    ensures InBounds(s, i + 2, Opened(i, st, s[i + 1]))
  {
    hide IsHex, Leads;
    HexIsPlain(s[i + 1]);
    var st1 := st.(dest := st.dest[st.j := PERCENT], j := st.j + 1, lastI := i, lastJ := st.j);
    StepLeads(s, i, st, max, noAscii, room);
    assert Step(s, i, st, max, noAscii) == if st.j + 1 > max then Overflow else Done(st1);
    assert InBounds(s, i + 1, st1);
    if st.j + 1 <= max {
      StepLeads(s, i + 1, st1, max, noAscii, room);
      assert Step(s, i + 1, st1, max, noAscii) ==
          if st1.j + 1 > max then Overflow else Done(Opened(i, st, s[i + 1]));
      LeadsOn(s, i, st, max, noAscii, room, i + 1, st1, i + 2,
              if st.j + 2 > max then Overflow else Done(Opened(i, st, s[i + 1])));
    } else {
      LeadsNowhere(s, i, st, max, noAscii, room, i + 1, i + 2);
    }
  }

  /** Behind an escape of an ASCII character. */
  lemma AsciiEscape(s: seq<Byte>, i: nat, st: State, max: nat, noAscii: bool)
    requires i + 2 < |s| && InBounds(s, i, st) && s[i] == PERCENT && IsHex(s[i + 1]) && IsHex(s[i + 2])
    requires Escaped(s[i + 1], s[i + 2]) < 0x80
    requires st.j + 2 <= |st.dest|
    ensures var e, st1 := Escaped(s[i + 1], s[i + 2]), Opened(i, st, s[i + 1]);
            InBounds(s, i + 2, st1) &&
            Step(s, i + 2, st1, max, noAscii) ==
              if IsPrintable(e) && !noAscii then
                if st.j + 1 > max then Overflow
                else Done(st1.(dest := st1.dest[st.j := e], j := st.j + 1))
              else if st.j + 3 > max then Overflow
              else Done(st1.(dest := st1.dest[st.j + 2 := s[i + 2]], j := st.j + 3))
  {
    hide IsHex, Escaped;
    HexIsPlain(s[i + 2]);
  }

  // ---- UTF-8 sequences ----

  /** The byte `u` is the next one of a sequence of `n` bytes whose text starts at `j0`. */
  ghost predicate Expects(st: State, u: Byte, at: int, j0: nat, n: nat) {
    && u >= 0x80 && |st.buffer| < n <= 6
    && if st.buffer == [] then IsLeading(u) && n == SequenceLength(u) && j0 == at
       else !IsLeading(u) && j0 == st.bufferJ && n == st.bufferSize
  }

  lemma Collected(s: seq<Byte>, i: nat, st: State, u: Byte, j0: nat, n: nat)
    requires i < |s| && InBounds(s, i + 1, st) && st.j <= i && (st.buffer != [] ==> st.bufferJ + |st.buffer| <= i)
    requires Expects(st, u, if st.lastI != -1 && i == st.lastI + 2 then st.lastJ else st.j, j0, n)
    ensures var b := st.buffer + [u];
            && j0 + |b| <= i + 1
            && Collect(s, i, st, u) ==
                 if |b| < n then (st.(buffer := b, bufferJ := j0, bufferSize := n), false)
                 else if ReadSize(b) != n then (st.(buffer := [], bufferJ := j0, bufferSize := n), false)
                 else (st.(buffer := [], bufferJ := j0, bufferSize := n,
                           dest := st.dest[..j0] + b + st.dest[j0 + n..], j := j0 + n), true)
  {
    hide SequenceLength, ReadSize, IsLeading;
  }

  /** The byte `u` is the last one of a readable sequence. */
  ghost predicate Completes(st: State, u: Byte, n: nat) {
    |st.buffer| + 1 == n && ReadSize(st.buffer + [u]) == n
  }

  /** What one more byte of a sequence does, raw or escaped. */
  ghost predicate Extended(st: State, next: State, u: Byte, j0: nat, n: nat)
    requires j0 <= st.j <= |st.dest|
  {
    var b := st.buffer + [u];
    && next.seenQuery == st.seenQuery && next.j <= |next.dest| && j0 <= next.j
    && next.dest[..j0] == st.dest[..j0]
    && (|b| < n ==> next.buffer == b && next.bufferJ == j0 && next.bufferSize == n)
    && (|b| == n && ReadSize(b) == n ==> next.buffer == [] && next.dest[..next.j] == st.dest[..j0] + b)
  }

  lemma CollectExtends(s: seq<Byte>, i: nat, st: State, u: Byte, c: Byte, max: nat, j0: nat, n: nat)
    requires i < |s| && InBounds(s, i + 1, st) && st.j <= i && (st.buffer != [] ==> st.bufferJ + |st.buffer| <= i)
    requires Expects(st, u, if st.lastI != -1 && i == st.lastI + 2 then st.lastJ else st.j, j0, n)
    requires j0 <= st.j < |st.dest|
    ensures var (st2, flushed) := Collect(s, i, st, u);
            var r := if flushed then Done(st2) else if st2.j < |st2.dest| then Copy(st2, c, max) else Overflow;
            && (r.Done? <==> Completes(st, u, n) || st.j + 1 <= max)
            && (r.Done? ==> Extended(st, r.st, u, j0, n) && r.st.lastI == st.lastI)
            && (r.Done? ==> r.st.j == if Completes(st, u, n) then j0 + n else st.j + 1)
  {
    hide SequenceLength, ReadSize, IsLeading, Collect;
    Collected(s, i, st, u, j0, n);
    var b := st.buffer + [u];
    if |b| == n && ReadSize(b) == n {
      assert (st.dest[..j0] + b + st.dest[j0 + n..])[..j0 + n] == st.dest[..j0] + b;
    }
  }

  lemma RawByte(s: seq<Byte>, i: nat, st: State, max: nat, noAscii: bool, j0: nat, n: nat)
    requires i < |s| && InBounds(s, i, st) && Settled(st, i) && j0 <= st.j
    requires Expects(st, s[i], st.j, j0, n)
    ensures var r := Step(s, i, st, max, noAscii);
            && (r.Done? <==> Completes(st, s[i], n) || st.j + 1 <= max)
            && (r.Done? ==> Extended(st, r.st, s[i], j0, n) && Settled(r.st, i + 1))
            && (r.Done? ==> r.st.j == if Completes(st, s[i], n) then j0 + n else st.j + 1)
  {
    hide SequenceLength, ReadSize, IsLeading, Collect, Extended, Completes;
    ClassifyInBounds(s, i, st, noAscii);
    CollectInBounds(s, i, st, s[i]);
    CollectExtends(s, i, st, s[i], s[i], max, j0, n);
  }

  lemma EscapedByte(s: seq<Byte>, i: nat, st: State, max: nat, noAscii: bool, j0: nat, n: nat)
    requires i + 2 < |s| && InBounds(s, i, st) && s[i] == PERCENT && IsHex(s[i + 1]) && IsHex(s[i + 2])
    requires j0 <= st.j && Expects(st, Escaped(s[i + 1], s[i + 2]), st.j, j0, n)
    requires st.j + 2 <= |st.dest| && InBounds(s, i + 2, Opened(i, st, s[i + 1]))
    ensures var r := Step(s, i + 2, Opened(i, st, s[i + 1]), max, noAscii);
            var u := Escaped(s[i + 1], s[i + 2]);
            && (r.Done? <==> Completes(st, u, n) || st.j + 3 <= max)
            && (r.Done? ==> Extended(st, r.st, u, j0, n) && Settled(r.st, i + 3))
            && (r.Done? ==> r.st.j == if Completes(st, u, n) then j0 + n else st.j + 3)
  {
    hide SequenceLength, ReadSize, IsLeading, Collect, IsHex, Escaped, Extended, Completes;
    HexIsPlain(s[i + 2]);
    var st1, u := Opened(i, st, s[i + 1]), Escaped(s[i + 1], s[i + 2]);
    ClassifyInBounds(s, i + 2, st1, noAscii);
    CollectInBounds(s, i + 2, st1, u);
    CollectExtends(s, i + 2, st1, u, s[i + 2], max, j0, n);
    assert Completes(st1, u, n) == Completes(st, u, n) by {
      SameCompletes(i, st, s[i + 1], u, n);
    }
    var r := Step(s, i + 2, st1, max, noAscii);
    if r.Done? {
      ExtendedBehind(i, st, s[i + 1], r.st, u, j0, n);
    }
  }

  lemma SameCompletes(i: nat, st: State, a: Byte, u: Byte, n: nat)
    requires st.j + 2 <= |st.dest|
    ensures Completes(Opened(i, st, a), u, n) == Completes(st, u, n)
  {
  }

  /** The characters of an escape are written behind the sequence and do not matter. */
  lemma ExtendedBehind(i: nat, st: State, a: Byte, next: State, u: Byte, j0: nat, n: nat)
    requires j0 <= st.j && st.j + 2 <= |st.dest| && Extended(Opened(i, st, a), next, u, j0, n)
    ensures Extended(st, next, u, j0, n)
  {
    hide ReadSize;
    assert Opened(i, st, a).dest[..j0] == st.dest[..j0];
  }

  // ---- Whole URLs ----

  lemma PartAhead(s: seq<Byte>, i: nat, parts: Url, u: nat)
    requires i <= |s| && u < |parts| && s[i..] == Text(parts, u)
    ensures var n := |PartText(parts[u])|;
            i + n <= |s| && s[i..i + n] == PartText(parts[u]) && s[i + n..] == Text(parts, u + 1)
    ensures parts[u].Raw? ==> s[i] == parts[u].c
    ensures parts[u].Escape? ==> s[i] == PERCENT && s[i + 1] == parts[u].a && s[i + 2] == parts[u].b
  {
    hide IsHex;
    var n, rest := |PartText(parts[u])|, s[i..];
    assert rest[..n] == PartText(parts[u]) && rest[n..] == Text(parts, u + 1);
    assert s[i] == rest[0];
    assert parts[u].Escape? ==> s[i + 1] == rest[1] && s[i + 2] == rest[2];
  }

  /** One byte of a sequence, taken from the text. */
  lemma NextByte(
    s: seq<Byte>, i: nat, st: State, max: nat, noAscii: bool, room: nat, parts: Url, u: nat, j0: nat, n: nat)
    returns (next: Result)
    requires i <= |s| && InBounds(s, i, st) && Settled(st, i) && u < |parts| && s[i..] == Text(parts, u)
    requires j0 <= st.j && Expects(st, ByteOf(parts[u]), st.j, j0, n)
    requires max < room && 1 < n && j0 + |st.buffer| <= st.j && (st.buffer != [] ==> st.j <= max)
    ensures var i' := i + |PartText(parts[u])|;
            && Leads(s, i, st, max, noAscii, room, i', next)
            && (next.Done? ==>
                  && i' <= |s| && InBounds(s, i', next.st) && Settled(next.st, i')
                  && s[i'..] == Text(parts, u + 1)
                  && Extended(st, next.st, ByteOf(parts[u]), j0, n))
    ensures var last := Completes(st, ByteOf(parts[u]), n);
            && (next.Done? <==> st.j + |PartText(parts[u])| - (if last then 1 else 0) <= max)
            && (next.Done? ==> next.st.j == if last then j0 + n else st.j + |PartText(parts[u])|)
  {
    hide SequenceLength, ReadSize, IsLeading, Step, Extended, Expects, IsHex, Escaped, InBounds, Leads, Completes;
    PartAhead(s, i, parts, u);
    CompletesSize(st, ByteOf(parts[u]), n);
    match parts[u]
    case Raw(c) =>
      RawByte(s, i, st, max, noAscii, j0, n);
      StepLeads(s, i, st, max, noAscii, room);
      next := Step(s, i, st, max, noAscii);
      LeadsInBounds(s, i, st, max, noAscii, room, i + 1, next);
    case Escape(a, b) =>
      EscapeOpens(s, i, st, max, noAscii, room);
      if st.j + 2 > max {
        next := Overflow;
        LeadsNowhere(s, i, st, max, noAscii, room, i + 2, i + 3);
      } else {
        EscapedByte(s, i, st, max, noAscii, j0, n);
        StepLeads(s, i + 2, Opened(i, st, a), max, noAscii, room);
        next := Step(s, i + 2, Opened(i, st, a), max, noAscii);
        LeadsOn(s, i, st, max, noAscii, room, i + 2, Opened(i, st, a), i + 3, next);
        LeadsInBounds(s, i, st, max, noAscii, room, i + 3, next);
      }
  }

  lemma CompletesSize(st: State, u: Byte, n: nat)
    ensures Completes(st, u, n) ==> |st.buffer| + 1 == n
  {
  }

  /** The bytes of a sequence: a leading byte and continuation bytes, none of them ASCII. */
  lemma SequenceBytes(b: seq<Byte>)
    requires IsSequence(b) && |b| > 1
    ensures IsLeading(b[0]) && SequenceLength(b[0]) == |b| <= 6
    ensures forall k :: 0 <= k < |b| ==> b[k] >= 0x80
    ensures forall k :: 0 < k < |b| ==> !IsLeading(b[k])
    ensures ReadSize(b) == |b|
  {
    hide Read;
    ReadsSequences(b, 0);
    assert b[0..|b|] == b;
    forall k | 0 < k < |b|
      ensures b[k] >= 0x80 && !IsLeading(b[k])
    {
      assert IsContinuation(b[1..][k - 1]);
    }
  }

  /** The copied characters of a sequence, all but the one that completes it, have to fit. */
  predicate SequenceFits(parts: Url, u: nat, m: nat, n: nat, at: nat, max: nat)
    requires m < n && u + n <= |parts|
    decreases n - m
  {
    var size := |PartText(parts[u + m])|;
    if m + 1 == n then at + size - 1 <= max
    else at + size <= max && SequenceFits(parts, u, m + 1, n, at + size, max)
  }

  lemma SliceOfSlice(b: seq<Byte>, u: nat, n: nat, m: nat)
    requires u + n <= |b| && m <= n
    ensures b[u..u + n][..m] == b[u..u + m]
  {
  }

  lemma SequencePrefix(b: seq<Byte>, u: nat, n: nat, m: nat)
    requires u + n <= |b| && m < n
    ensures var bytes := b[u..u + n];
            && bytes[..m] == b[u..u + m] && bytes[..m + 1] == b[u..u + m + 1] && bytes[..n] == bytes
            && b[u..u + m] + [bytes[m]] == b[u..u + m + 1]
  {
    SliceOfSlice(b, u, n, m);
    SliceOfSlice(b, u, n, m + 1);
  }

  /** The rest of a sequence of `n` bytes of which `m` have been read. */
  lemma RunSequence(
    s: seq<Byte>, i: nat, st: State, max: nat, noAscii: bool, room: nat, parts: Url, u: nat, m: nat, j0: nat, n: nat)
    returns (i': nat, next: Result)
    requires i <= |s| && InBounds(s, i, st) && Settled(st, i)
    requires m < n && 1 < n && u + n <= |parts| && s[i..] == Text(parts, u + m)
    requires IsSequence(BytesOf(parts)[u..u + n])
    requires st.buffer == BytesOf(parts)[u..u + m] && j0 + m <= st.j && max < room
    requires if m == 0 then j0 == st.j else st.bufferJ == j0 && st.bufferSize == n && st.j <= max
    ensures Leads(s, i, st, max, noAscii, room, i', next)
    ensures next.Done? <==> SequenceFits(parts, u, m, n, st.j, max)
    ensures next.Done? ==>
              && i < i' && s[i'..] == Text(parts, u + n)
              && Settled(next.st, i') && next.st.buffer == [] && next.st.j == j0 + n <= max + 1
              && next.st.seenQuery == st.seenQuery && next.st.j <= |next.st.dest|
              && next.st.dest[..next.st.j] == st.dest[..j0] + BytesOf(parts)[u..u + n]
    decreases n - m
  {
    hide SequenceLength, ReadSize, IsLeading, Run, IsSequence, InBounds, Settled, ByteOf, Text, PartText, Leads;
    hide Completes;
    var bytes := BytesOf(parts)[u..u + n];
    SequenceBytes(bytes);
    assert bytes[m] == ByteOf(parts[u + m]);
    SequencePrefix(BytesOf(parts), u, n, m);
    CompletesAtEnd(st, bytes, m);
    next := NextByte(s, i, st, max, noAscii, room, parts, u + m, j0, n);
    i' := i + |PartText(parts[u + m])|;
    if next.Done? {
      if m + 1 < n {
        var i1, st1 := i', next.st;
        i', next := RunSequence(s, i1, st1, max, noAscii, room, parts, u, m + 1, j0, n);
        LeadsOn(s, i, st, max, noAscii, room, i1, st1, i', next);
      }
    }
  }

  /** Only the last byte completes a readable sequence. */
  lemma CompletesAtEnd(st: State, bytes: seq<Byte>, m: nat)
    requires m < |bytes| && st.buffer == bytes[..m] && ReadSize(bytes) == |bytes|
    ensures Completes(st, bytes[m], |bytes|) <==> m + 1 == |bytes|
  {
    hide ReadSize;
    assert m + 1 == |bytes| ==> bytes[..m] + [bytes[m]] == bytes;
  }

  /** What an ASCII part does. */
  ghost predicate Wrote(st: State, next: State, p: Part, u: nat, noAscii: bool)
    requires GoodPart(p) && st.j <= |st.dest|
  {
    && next.buffer == [] && next.seenQuery == InQuery(p, u, st.seenQuery) && next.j <= |next.dest|
    && next.dest[..next.j] == st.dest[..st.j] + PartDecoded(p, st.seenQuery, noAscii)
  }

  /** An escape that is decoded, so that its last digit is not copied. */
  predicate Decodes(p: Part, noAscii: bool)
    requires GoodPart(p)
  {
    p.Escape? && IsPrintable(ByteOf(p)) && !noAscii
  }

  lemma WroteRaw(s: seq<Byte>, i: nat, st: State, max: nat, noAscii: bool, u: nat)
    requires i < |s| && InBounds(s, i, st) && Settled(st, i) && st.buffer == [] && s[i] < 0x80 && s[i] != PERCENT
    requires s[i] != 0 && (i == 0 <==> u == 0)
    ensures var r := Step(s, i, st, max, noAscii);
            && (r.Done? <==> st.j + 1 <= max)
            && (r.Done? ==> Wrote(st, r.st, Raw(s[i]), u, noAscii) && Settled(r.st, i + 1))
  {
    hide Step;
    RawAscii(s, i, st, max, noAscii);
  }

  lemma WroteEscape(s: seq<Byte>, i: nat, st: State, max: nat, noAscii: bool, u: nat)
    requires i + 2 < |s| && InBounds(s, i, st) && s[i] == PERCENT && IsHex(s[i + 1]) && IsHex(s[i + 2])
    requires Escaped(s[i + 1], s[i + 2]) < 0x80
    requires st.j + 2 <= |st.dest| && st.buffer == []
    ensures var st1 := Opened(i, st, s[i + 1]);
            InBounds(s, i + 2, st1) &&
            var r, p := Step(s, i + 2, st1, max, noAscii), Escape(s[i + 1], s[i + 2]);
            && (r.Done? <==> st.j + (if Decodes(p, noAscii) then 1 else 3) <= max)
            && (r.Done? ==> Wrote(st, r.st, p, u, noAscii) && Settled(r.st, i + 3))
  {
    hide Step, IsHex, Escaped;
    AsciiEscape(s, i, st, max, noAscii);
  }

  /** An ASCII part, taken from the text. */
  lemma AsciiPart(s: seq<Byte>, i: nat, st: State, max: nat, noAscii: bool, room: nat, parts: Url, u: nat)
    returns (next: Result)
    requires i <= |s| && InBounds(s, i, st) && Settled(st, i) && st.buffer == []
    requires u < |parts| && s[i..] == Text(parts, u) && (i == 0 <==> u == 0) && ByteOf(parts[u]) < 0x80
    requires st.j <= |st.dest| && max < room
    ensures var i' := i + |PartText(parts[u])|;
            && Leads(s, i, st, max, noAscii, room, i', next)
            && (next.Done? ==>
                  s[i'..] == Text(parts, u + 1) && Settled(next.st, i') && Wrote(st, next.st, parts[u], u, noAscii))
    ensures next.Done? <==> st.j + |PartText(parts[u])| - (if Decodes(parts[u], noAscii) then 1 else 0) <= max
  {
    hide Step, IsHex, Escaped, InBounds, Settled, Wrote, Leads, Decodes;
    PartAhead(s, i, parts, u);
    match parts[u]
    case Raw(c) =>
      WroteRaw(s, i, st, max, noAscii, u);
      WroteWithin(s, i, st, max, noAscii, room);
      RawDecodes(c, noAscii);
      next := Step(s, i, st, max, noAscii);
    case Escape(a, b) =>
      EscapeOpens(s, i, st, max, noAscii, room);
      if st.j + 2 > max {
        next := Overflow;
        LeadsNowhere(s, i, st, max, noAscii, room, i + 2, i + 3);
      } else {
        WroteEscape(s, i, st, max, noAscii, u);
        WroteWithinEscape(s, i, st, max, noAscii, room);
        next := Step(s, i + 2, Opened(i, st, a), max, noAscii);
        LeadsOn(s, i, st, max, noAscii, room, i + 2, Opened(i, st, a), i + 3, next);
      }
  }

  lemma RawDecodes(c: Byte, noAscii: bool)
    requires GoodPart(Raw(c))
    ensures !Decodes(Raw(c), noAscii)
  {
  }

  lemma WroteWithin(s: seq<Byte>, i: nat, st: State, max: nat, noAscii: bool, room: nat)
    requires i < |s| && InBounds(s, i, st) && Settled(st, i) && st.buffer == [] && s[i] < 0x80 && s[i] != PERCENT
    requires max < room
    ensures Leads(s, i, st, max, noAscii, room, i + 1, Step(s, i, st, max, noAscii))
  {
    hide Step, Leads;
    RawAscii(s, i, st, max, noAscii);
    StepLeads(s, i, st, max, noAscii, room);
  }

  lemma WroteWithinEscape(s: seq<Byte>, i: nat, st: State, max: nat, noAscii: bool, room: nat)
    requires i + 2 < |s| && InBounds(s, i, st) && s[i] == PERCENT && IsHex(s[i + 1]) && IsHex(s[i + 2])
    requires Escaped(s[i + 1], s[i + 2]) < 0x80 && max < room
    requires st.j + 2 <= |st.dest|
    ensures InBounds(s, i + 2, Opened(i, st, s[i + 1]))
    ensures var st1 := Opened(i, st, s[i + 1]);
            Leads(s, i + 2, st1, max, noAscii, room, i + 3, Step(s, i + 2, st1, max, noAscii))
  {
    hide Step, Leads, IsHex, Escaped;
    AsciiEscape(s, i, st, max, noAscii);
    StepLeads(s, i + 2, Opened(i, st, s[i + 1]), max, noAscii, room);
  }

  lemma NotAscii(p: Part, u: nat, seen: bool, noAscii: bool)
    requires GoodPart(p) && ByteOf(p) >= 0x80
    ensures PartDecoded(p, seen, noAscii) == [ByteOf(p)] && InQuery(p, u, seen) == seen
  {
  }

  lemma OneByteMore(bytes: seq<Byte>, u: nat, n: nat, end: seq<Byte>)
    requires n > 0 && u + n <= |bytes|
    ensures [bytes[u]] + (bytes[u + 1..u + n] + end) == bytes[u..u + n] + end
  {
    assert bytes[u..u + n] == [bytes[u]] + bytes[u + 1..u + n];
  }

  /** A sequence decodes to its bytes. */
  lemma {:induction false} DecodedSequence(parts: Url, u: nat, n: nat, seen: bool, noAscii: bool)
    requires u + n <= |parts|
    requires var bytes := BytesOf(parts); forall k :: u <= k < u + n ==> bytes[k] >= 0x80
    ensures Decoded(parts, u, seen, noAscii) == BytesOf(parts)[u..u + n] + Decoded(parts, u + n, seen, noAscii)
    decreases n
  {
    hide ByteOf, PartDecoded, InQuery;
    var bytes, end := BytesOf(parts), Decoded(parts, u + n, seen, noAscii);
    if n > 0 {
      assert bytes[u] == ByteOf(parts[u]) >= 0x80;
      NotAscii(parts[u], u, seen, noAscii);
      DecodedSequence(parts, u + 1, n - 1, seen, noAscii);
      OneByteMore(bytes, u, n, end);
    } else {
      assert bytes[u..u] + end == end;
    }
  }

  lemma OneByte(b: seq<Byte>, u: nat)
    requires u < |b| && b[u] < 0x80
    ensures Read(b, u).code.Some? && Read(b, u).next == u + 1
  {
    Nlz8Counts(!b[u]);
  }

  lemma LongSequence(b: seq<Byte>, u: nat, n: nat)
    requires u < |b| && b[u] >= 0x80 && ReadableFrom(b, u) && n == SequenceLength(b[u])
    ensures 1 < n && u + n <= |b| && IsSequence(b[u..u + n]) && ReadableFrom(b, u + n)
    ensures forall k :: u <= k < u + n ==> b[k] >= 0x80
  {
    hide Read, Nlz8;
    ReadsSequences(b, u);
    Nlz8Counts(!b[u]);
    SequenceBytes(b[u..u + n]);
    forall k | u <= k < u + n
      ensures b[k] >= 0x80
    {
      assert b[k] == b[u..u + n][k - u];
    }
  }

  lemma RunEnds(s: seq<Byte>, i: nat, st: State, max: nat, noAscii: bool, room: nat, parts: Url)
    requires i <= |s| && InBounds(s, i, st) && s[i..] == Text(parts, |parts|)
    ensures Run(s, i, st, max, noAscii) == Done(st)
    ensures Within(s, i, st, max, noAscii, room) <==> st.j < room
  {
    assert |s[i..]| == 0;
  }

  /** The run ends with `before` and then `rest` in the destination, if it does not overflow. */
  ghost predicate Yields(r: Result, before: seq<Byte>, rest: seq<Byte>) {
    r.Done? ==> r.st.j <= |r.st.dest| && r.st.dest[..r.st.j] == before + rest
  }

  lemma YieldsMore(r: Result, before: seq<Byte>, piece: seq<Byte>, rest: seq<Byte>)
    requires Yields(r, before + piece, rest)
    ensures Yields(r, before, piece + rest)
  {
    assert before + piece + rest == before + (piece + rest);
  }

  /** How many parts make up the character at `u`. */
  function CharacterParts(parts: Url, u: nat): (n: nat)
    requires u < |parts|
    ensures 1 <= n && u + n <= |parts|
  {
    var n := SequenceLength(ByteOf(parts[u]));
    if ByteOf(parts[u]) >= 0x80 && 1 < n && u + n <= |parts| then n else 1
  }

  /**
    Is there room for `max` characters?  Every character that is copied has to fit, also those of an
    escape; the one that completes an escape or a sequence is not copied.
   */
  predicate Fits(parts: Url, u: nat, at: nat, max: nat, noAscii: bool)
    requires u <= |parts|
    decreases |parts| - u
  {
    if u == |parts| then true
    else
      var p, n := parts[u], CharacterParts(parts, u);
      if n > 1 then SequenceFits(parts, u, 0, n, at, max) && Fits(parts, u + n, at + n, max, noAscii)
      else
        && at + |PartText(p)| - (if Decodes(p, noAscii) then 1 else 0) <= max
        && Fits(parts, u + 1, at + |PartDecoded(p, false, noAscii)|, max, noAscii)
  }

  /**
    From `i` on, which is at part `u`, the decoder computes `Decoded`, and overflows exactly when the
    URL does not fit.  It writes at `room` or behind exactly when the whole URL has been decoded to as
    many characters.
   */
  ghost predicate RunsAs(
    s: seq<Byte>, i: nat, st: State, max: nat, noAscii: bool, room: nat, parts: Url, u: nat)
    requires InBounds(s, i, st) && st.j <= |st.dest| && u <= |parts|
  {
    var r, fits := Run(s, i, st, max, noAscii), Fits(parts, u, st.j, max, noAscii);
    var rest := Decoded(parts, u, st.seenQuery, noAscii);
    && (r.Done? <==> fits)
    && Yields(r, st.dest[..st.j], rest)
    && (fits ==> st.j + |rest| <= max + 1)
    && (Within(s, i, st, max, noAscii, room) <==> !(fits && st.j + |rest| >= room))
  }

  /** One character more in front. */
  lemma RunsOn(
    s: seq<Byte>, i: nat, st: State, max: nat, noAscii: bool, room: nat, parts: Url, u: nat,
    i': nat, next: Result, u': nat, piece: seq<Byte>)
    requires InBounds(s, i, st) && st.j <= |st.dest| && u <= |parts| && Leads(s, i, st, max, noAscii, room, i', next)
    requires next.Overflow? ==> !Fits(parts, u, st.j, max, noAscii)
    requires next.Done? ==>
               && u' <= |parts| && next.st.j <= |next.st.dest| && next.st.j == st.j + |piece|
               && next.st.dest[..next.st.j] == st.dest[..st.j] + piece
               && InBounds(s, i', next.st) && RunsAs(s, i', next.st, max, noAscii, room, parts, u')
               && Fits(parts, u, st.j, max, noAscii) == Fits(parts, u', next.st.j, max, noAscii)
               && Decoded(parts, u, st.seenQuery, noAscii) == piece + Decoded(parts, u', next.st.seenQuery, noAscii)
    ensures RunsAs(s, i, st, max, noAscii, room, parts, u)
  {
    hide Run, Within, Fits, Decoded, InBounds, Yields;
    var r, done := Run(s, i, st, max, noAscii), st.dest[..st.j];
    if next.Done? {
      YieldsMore(r, done, piece, Decoded(parts, u', next.st.seenQuery, noAscii));
    } else {
      YieldsNothing(r, done, Decoded(parts, u, st.seenQuery, noAscii));
    }
  }

  /** This is so on every URL whose bytes are readable UTF-8. */
  lemma {:induction false} RunDecodes(
    s: seq<Byte>, i: nat, st: State, max: nat, noAscii: bool, room: nat, parts: Url, u: nat)
    requires i <= |s| && InBounds(s, i, st) && Settled(st, i) && st.buffer == [] && st.j <= |st.dest|
    requires u <= |parts| && s[i..] == Text(parts, u) && (i == 0 <==> u == 0)
    requires ReadableFrom(BytesOf(parts), u) && st.j <= max + 1 <= room
    ensures RunsAs(s, i, st, max, noAscii, room, parts, u)
    decreases |parts| - u
  {
    hide Read, SequenceLength, IsSequence, InBounds, Settled, ByteOf, PartDecoded, InQuery, Text, PartText, Run, Yields;
    hide Within, SequenceFits, CharacterParts, Decodes, RunsAs, Leads;
    var bytes := BytesOf(parts);
    if u < |parts| {
      ReadsSequences(bytes, u);
      var n := SequenceLength(bytes[u]);
      CharacterSize(parts, u);
      if ByteOf(parts[u]) < 0x80 {
        OneByte(bytes, u);
        DecodedSize(parts[u], st.seenQuery, noAscii);
        var i' := i + |PartText(parts[u])|;
        var next := AsciiPart(s, i, st, max, noAscii, room, parts, u);
        LeadsInBounds(s, i, st, max, noAscii, room, i', next);
        if next.Done? {
          WroteSize(st, next.st, parts[u], u, max, noAscii);
          RunDecodes(s, i', next.st, max, noAscii, room, parts, u + 1);
        }
        RunsOn(s, i, st, max, noAscii, room, parts, u, i', next, u + 1, PartDecoded(parts[u], st.seenQuery, noAscii));
      } else {
        LongSequence(bytes, u, n);
        DecodedSequence(parts, u, n, st.seenQuery, noAscii);
        var i', next := RunSequence(s, i, st, max, noAscii, room, parts, u, 0, st.j, n);
        LeadsInBounds(s, i, st, max, noAscii, room, i', next);
        if next.Done? {
          RunDecodes(s, i', next.st, max, noAscii, room, parts, u + n);
        }
        RunsOn(s, i, st, max, noAscii, room, parts, u, i', next, u + n, bytes[u..u + n]);
      }
    } else {
      RunsOut(s, i, st, max, noAscii, room, parts);
    }
  }

  lemma RunsOut(s: seq<Byte>, i: nat, st: State, max: nat, noAscii: bool, room: nat, parts: Url)
    requires i <= |s| && InBounds(s, i, st) && s[i..] == Text(parts, |parts|) && st.j <= |st.dest|
    requires st.j <= max + 1 <= room
    ensures RunsAs(s, i, st, max, noAscii, room, parts, |parts|)
  {
    hide Run, Within, InBounds;
    RunEnds(s, i, st, max, noAscii, room, parts);
    YieldsAll(st);
  }

  lemma CharacterSize(parts: Url, u: nat)
    requires u < |parts|
    ensures ByteOf(parts[u]) < 0x80 ==> CharacterParts(parts, u) == 1
    ensures var n := SequenceLength(BytesOf(parts)[u]);
            ByteOf(parts[u]) >= 0x80 && 1 < n && u + n <= |parts| ==> CharacterParts(parts, u) == n
  {
    hide SequenceLength, ByteOf;
  }

  /** How long the decoded part is does not depend on where the query starts. */
  lemma DecodedSize(p: Part, seen: bool, noAscii: bool)
    requires GoodPart(p) && ByteOf(p) < 0x80
    ensures |PartDecoded(p, seen, noAscii)| == |PartDecoded(p, false, noAscii)|
    ensures |PartDecoded(p, seen, noAscii)| <= |PartText(p)| - (if Decodes(p, noAscii) then 1 else 0)
  {
    hide ByteOf;
  }

  lemma WroteSize(st: State, next: State, p: Part, u: nat, max: nat, noAscii: bool)
    requires GoodPart(p) && st.j <= |st.dest| && Wrote(st, next, p, u, noAscii)
    ensures next.j == st.j + |PartDecoded(p, st.seenQuery, noAscii)|
  {
    hide PartDecoded, InQuery;
    assert |next.dest[..next.j]| == next.j;
  }

  lemma YieldsNothing(r: Result, before: seq<Byte>, rest: seq<Byte>)
    requires r == Overflow
    ensures Yields(r, before, rest)
  {
  }

  lemma YieldsAll(st: State)
    requires st.j <= |st.dest|
    ensures Yields(Done(st), st.dest[..st.j], [])
  {
  }

  // ---- Encoding and decoding ----

  /** A byte as `%` and two digits to base 16, in upper or lower case each. */
  function EscapeOf(b: Byte, upper: Cases): (p: Part)
    ensures GoodPart(p) && p.Escape? && ByteOf(p) == b
  {
    EscapeRead(b, upper);
    Escape(HexDigitOf((b / 16) as nat, upper(1)), HexDigitOf((b % 16) as nat, upper(0)))
  }

  lemma DigitRead(d: Byte, upper: bool)
    requires d < 16
    ensures IsHex(HexDigitOf(d as nat, upper)) && Digit(HexDigitOf(d as nat, upper)) == d
  {
    assert || d == 0 || d == 1 || d == 2 || d == 3 || d == 4 || d == 5 || d == 6 || d == 7
           || d == 8 || d == 9 || d == 10 || d == 11 || d == 12 || d == 13 || d == 14 || d == 15;
  }

  lemma EscapeRead(b: Byte, upper: Cases)
    ensures b / 16 < 16 && b % 16 < 16
    ensures var x, y := HexDigitOf((b / 16) as nat, upper(1)), HexDigitOf((b % 16) as nat, upper(0));
            IsHex(x) && IsHex(y) && Escaped(x, y) == b
  {
    hide Digit, HexDigitOf, IsHex;
    DigitRead(b / 16, upper(1));
    DigitRead(b % 16, upper(0));
    assert (b / 16) * 16 + b % 16 == b;
  }

  /** Every byte as an escape. */
  function Encoded(text: seq<Byte>, upper: nat -> Cases): (url: Url)
    ensures BytesOf(url) == text
  {
    var parts := seq(|text|, k requires 0 <= k < |text| => EscapeOf(text[k], upper(k)));
    assert forall k :: 0 <= k < |text| ==> parts[k] == EscapeOf(text[k], upper(k));
    parts
  }

  /** The text from `u` on, every byte written as an escape. */
  function PercentEncoded(text: seq<Byte>, u: nat, upper: nat -> Cases): seq<Byte>
    requires u <= |text|
    decreases |text| - u
  {
    if u == |text| then []
    else
      [37, HexDigitOf((text[u] / 16) as nat, upper(u)(1)), HexDigitOf((text[u] % 16) as nat, upper(u)(0))]
      + PercentEncoded(text, u + 1, upper)
  }

  lemma {:induction false} EncodedText(text: seq<Byte>, u: nat, upper: nat -> Cases)
    requires u <= |text|
    ensures Text(Encoded(text, upper), u) == PercentEncoded(text, u, upper)
    ensures |PercentEncoded(text, u, upper)| == 3 * (|text| - u)
    decreases |text| - u
  {
    hide HexDigitOf;
    if u < |text| {
      EncodedText(text, u + 1, upper);
      HighAndLow(text[u]);
    }
  }

  lemma HighAndLow(b: Byte)
    ensures b / 16 < 16 && b % 16 < 16
  {
  }

  /** Only the escapes of control characters are left. */
  lemma {:induction false} DecodedEscapes(text: seq<Byte>, u: nat, upper: nat -> Cases)
    requires u <= |text|
    ensures |Decoded(Encoded(text, upper), u, false, false)| >= |text| - u
    ensures Decoded(Encoded(text, upper), u, false, false) == text[u..] <==>
              forall k :: u <= k < |text| ==> text[k] >= 32
    decreases |text| - u
  {
    hide EscapeOf;
    if u < |text| {
      var url := Encoded(text, upper);
      assert url[u] == EscapeOf(text[u], upper(u));
      DecodedEscapes(text, u + 1, upper);
      assert text[u..] == [text[u]] + text[u + 1..];
      var rest := Decoded(url, u + 1, false, false);
      assert PartDecoded(url[u], false, false) == if text[u] >= 32 then [text[u]] else PartText(url[u]);
      if text[u] >= 32 {
        assert ([text[u]] + rest)[1..] == rest;
      } else {
        assert |PartText(url[u]) + rest| > |text[u..]|;
      }
    }
  }

  /** The destination with as much behind it as the loop could ever reach. */
  ghost function Padded(dest: seq<Byte>, n: nat): seq<Byte> {
    dest + seq(n + 1, _ => 0)
  }

  /** Escapes of printable ASCII fit exactly if `max` has room for the text and one character more. */
  lemma {:induction false} EscapesFit(text: seq<Byte>, u: nat, upper: nat -> Cases, at: nat, max: nat)
    requires u <= |text| && forall k :: u <= k < |text| ==> 32 <= text[k] < 0x80
    ensures Fits(Encoded(text, upper), u, at, max, false) <==> (u == |text| || at + |text| - u + 1 <= max)
    decreases |text| - u
  {
    hide EscapeOf, SequenceLength;
    if u < |text| {
      assert Encoded(text, upper)[u] == EscapeOf(text[u], upper(u));
      EscapesFit(text, u + 1, upper, at + 1, max);
    }
  }

  /**
    Percent decoding inverts percent encoding, with no double decoding: on readable UTF-8 text the
    decoder gives the text back exactly when there is no control character in it.  It never writes
    behind `max` + 1 characters, and overflows exactly when the escapes do not fit.
   */
  lemma DecodingInvertsEncoding(text: seq<Byte>, upper: nat -> Cases, dest: seq<Byte>, max: nat)
    requires ReadableFrom(text, 0)
    ensures var s := PercentEncoded(text, 0, upper);
            var st := Start(Padded(dest, |s|));
            && |s| == 3 * |text|
            && Within(s, 0, st, max, false, max + 1)
            && var r := Run(s, 0, st, max, false);
               && (r.Done? <==> Fits(Encoded(text, upper), 0, 0, max, false))
               && (r.Done? ==>
                     && r.st.j <= |r.st.dest|
                     && (r.st.dest[..r.st.j] == text <==> forall k :: 0 <= k < |text| ==> text[k] >= 32))
  {
    hide Run, Text, Decoded, ReadableFrom, Fits, Within, PercentEncoded;
    var url := Encoded(text, upper);
    var s := Text(url, 0);
    var st := Start(Padded(dest, |s|));
    EncodedText(text, 0, upper);
    RunDecodes(s, 0, st, max, false, max + 1, url, 0);
    DecodedEscapes(text, 0, upper);
    assert text[0..] == text;
    assert st.dest[..0] + Decoded(url, 0, false, false) == Decoded(url, 0, false, false);
    if Fits(url, 0, 0, max, false) && |Decoded(url, 0, false, false)| == max + 1 {
      LastEscape(text, upper);
      SpillsAtEnd(url, 0, 0, max, false, false);
    }
  }

  // ---- When the destination is too small ----

  /**
    A well-formed URL that is decoded to one character more than `max`: its final NUL is written
    behind the `max` + 1 characters a caller provides.
   */
  predicate Spills(parts: Url, max: nat, noAscii: bool) {
    Fits(parts, 0, 0, max, noAscii) && |Decoded(parts, 0, false, noAscii)| == max + 1
  }

  lemma {:induction false} SequenceSpills(parts: Url, u: nat, m: nat, n: nat, j0: nat, at: nat, max: nat)
    requires m < n && u + n <= |parts| && SequenceFits(parts, u, m, n, at, max)
    requires j0 + m <= at && j0 + n == max + 1
    ensures parts[u + n - 1].Raw?
    decreases n - m
  {
    if m + 1 < n {
      SequenceSpills(parts, u, m + 1, n, j0, at + |PartText(parts[u + m])|, max);
    }
  }

  /** Only the last byte of a sequence, written as it is, can be the one too many. */
  lemma {:induction false} SpillsAtEnd(parts: Url, u: nat, at: nat, max: nat, seen: bool, noAscii: bool)
    requires u <= |parts| && at <= max + 1 && Fits(parts, u, at, max, noAscii) && ReadableFrom(BytesOf(parts), u)
    requires at + |Decoded(parts, u, seen, noAscii)| == max + 1
    ensures u < |parts| ==> parts[|parts| - 1].Raw? && ByteOf(parts[|parts| - 1]) >= 0x80
    decreases |parts| - u
  {
    hide Read, SequenceLength, ByteOf, PartDecoded, InQuery, PartText, Decodes, CharacterParts, SequenceFits;
    if u < |parts| {
      var bytes := BytesOf(parts);
      ReadsSequences(bytes, u);
      var n := SequenceLength(bytes[u]);
      CharacterSize(parts, u);
      if ByteOf(parts[u]) < 0x80 {
        OneByte(bytes, u);
        DecodedSize(parts[u], seen, noAscii);
        SpillsAtEnd(parts, u + 1, at + |PartDecoded(parts[u], seen, noAscii)|, max,
                    InQuery(parts[u], u, seen), noAscii);
      } else {
        LongSequence(bytes, u, n);
        DecodedSequence(parts, u, n, seen, noAscii);
        if u + n == |parts| {
          SequenceSpills(parts, u, 0, n, at, at, max);
          assert bytes[u + n - 1] == ByteOf(parts[u + n - 1]);
        } else {
          SequenceBound(parts, u, 0, n, at, at, max);
          SpillsAtEnd(parts, u + n, at + n, max, seen, noAscii);
        }
      }
    }
  }

  lemma {:induction false} SequenceBound(parts: Url, u: nat, m: nat, n: nat, j0: nat, at: nat, max: nat)
    requires m < n && u + n <= |parts| && SequenceFits(parts, u, m, n, at, max) && j0 + m <= at
    ensures j0 + n <= max + 1
    decreases n - m
  {
    if m + 1 < n {
      SequenceBound(parts, u, m + 1, n, j0, at + |PartText(parts[u + m])|, max);
    }
  }

  /**
    The decoder stays within `max` + 1 characters on a well-formed URL if and only if that does not
    spill.
   */
  lemma StaysWithin(parts: Url, dest: seq<Byte>, max: nat, noAscii: bool)
    requires ReadableFrom(BytesOf(parts), 0)
    ensures var s := Text(parts, 0);
            Within(s, 0, Start(Padded(dest, |s|)), max, noAscii, max + 1) <==> !Spills(parts, max, noAscii)
    ensures var s := Text(parts, 0);
            Within(s, 0, Start(Padded(dest, |s|)), max, noAscii, max + 2)
    ensures Spills(parts, max, noAscii) ==>
              parts != [] && parts[|parts| - 1].Raw? && ByteOf(parts[|parts| - 1]) >= 0x80
  {
    hide Run, Text, Decoded, ReadableFrom, Fits, Within;
    var s := Text(parts, 0);
    var st := Start(Padded(dest, |s|));
    RunDecodes(s, 0, st, max, noAscii, max + 1, parts, 0);
    RunDecodes(s, 0, st, max, noAscii, max + 2, parts, 0);
    if Spills(parts, max, noAscii) {
      EmptyUrl(max, noAscii);
      SpillsAtEnd(parts, 0, 0, max, false, noAscii);
    }
  }

  lemma EmptyUrl(max: nat, noAscii: bool)
    ensures Decoded([], 0, false, noAscii) == []
  {
  }

  lemma {:induction false} RunLeaves(s: seq<Byte>, i: nat, st: State, max: nat, noAscii: bool, room: nat)
    requires InBounds(s, i, st) && Within(s, i, st, max, noAscii, room)
    ensures var r := Run(s, i, st, max, noAscii); r.Done? ==> r.st.j < room
    decreases |s| - i
  {
    hide Step;
    if i < |s| {
      StepInBounds(s, i, st, max, noAscii);
      var r := Step(s, i, st, max, noAscii);
      if r.Done? {
        RunLeaves(s, i + 1, r.st, max, noAscii, room);
      }
    }
  }

  /** `\u00e9` with `max` 1: the final NUL needs a third character of the destination. */
  lemma LeavesByOne(dest: seq<Byte>)
    ensures var st := Start(Padded(dest, 2));
            !Within([0xc3, 0xa9], 0, st, 1, false, 2) && Run([0xc3, 0xa9], 0, st, 1, false).Done?
  {
    var url: Url := [Raw(0xc3), Raw(0xa9)];
    TwoBytes();
    assert BytesOf(url) == [0xc3, 0xa9] && Text(url, 2) == [] && Text(url, 1) == [0xa9];
    StaysWithin(url, dest, 1, false);
    RunDecodes([0xc3, 0xa9], 0, Start(Padded(dest, 2)), 1, false, 2, url, 0);
  }

  lemma TwoBytes()
    ensures var url: Url := [Raw(0xc3), Raw(0xa9)];
            ReadableFrom([0xc3, 0xa9], 0) && Text(url, 0) == [0xc3, 0xa9] && Spills(url, 1, false)
  {
    var url: Url := [Raw(0xc3), Raw(0xa9)];
    var b: seq<Byte> := [0xc3, 0xa9];
    assert SequenceLength(0xc3) == 2;
    assert b[0..2] == b && b[1..] == [0xa9];
    ReadsSequences(b, 0);
    assert Read(b, 0).next == 2;
    assert Text(url, 2) == [];
    assert Text(url, 1) == [0xa9];
    assert CharacterParts(url, 0) == 2;
    assert SequenceFits(url, 0, 1, 2, 1, 1);
    assert Fits(url, 2, 2, 1, false);
    assert Decoded(url, 2, false, false) == [];
    assert Decoded(url, 1, false, false) == [0xa9];
    assert |Decoded(url, 0, false, false)| == 2;
  }

  /** `%E2%82%`, then the bytes AC, F0, 9F, 98 and 80. */
  const STRAY: seq<Byte> := [37, 69, 50, 37, 56, 50, 37, 0xac, 0xf0, 0x9f, 0x98, 0x80]

  lemma StrayBytes()
    ensures IsHex(69) && IsHex(50) && IsHex(56) && !IsHex(0xac)
    ensures Escaped(69, 50) == 0xe2 && Escaped(56, 50) == 0x82
    ensures SequenceLength(0xe2) == 3 && SequenceLength(0xf0) == 4
    ensures ReadSize([0xe2, 0x82, 0xac]) == 3 && ReadSize([0xf0, 0x9f, 0x98, 0x80]) == 4
  {
    var a: seq<Byte>, b: seq<Byte> := [0xe2, 0x82, 0xac], [0xf0, 0x9f, 0x98, 0x80];
    assert SequenceLength(0xe2) == 3 && SequenceLength(0xf0) == 4;
    assert a[0..3] == a && b[0..4] == b;
    assert a[1..] == [0x82, 0xac] && b[1..] == [0x9f, 0x98, 0x80];
    ReadsSequences(a, 0);
    ReadsSequences(b, 0);
  }

  /** One of its two escapes: one more byte of a sequence of three that starts at 0. */
  lemma StrayEscape(st: State, i: nat) returns (next: State)
    requires i == 0 || i == 3
    requires InBounds(STRAY, i, st) && st.j == i && |st.dest| > 12 && Settled(st, i)
    requires if i == 0 then st.buffer == [] else st.buffer == [0xe2] && st.bufferJ == 0 && st.bufferSize == 3
    ensures InBounds(STRAY, i + 3, next) && Run(STRAY, i, st, 7, false) == Run(STRAY, i + 3, next, 7, false)
    ensures next.j == i + 3 && |next.dest| > 12 && Settled(next, i + 3)
    ensures next.buffer == st.buffer + [if i == 0 then 0xe2 else 0x82] && next.bufferJ == 0 && next.bufferSize == 3
  {
    hide SequenceLength, ReadSize, IsHex, Escaped;
    StrayBytes();
    var c := STRAY[i + 1];
    var st1 := st.(dest := st.dest[i := 37], j := i + 1, lastI := i, lastJ := i);
    var st2 := st1.(dest := st1.dest[i + 1 := c], j := i + 2);
    next := st2.(dest := st2.dest[i + 2 := 50], j := i + 3, bufferJ := 0, bufferSize := 3,
                 buffer := st.buffer + [if i == 0 then 0xe2 else 0x82]);
    assert Step(STRAY, i, st, 7, false) == Done(st1);
    assert Step(STRAY, i + 1, st1, 7, false) == Done(st2);
    StrayDigit(st2, i);
  }

  /** The second digit of the escape. */
  lemma StrayDigit(st: State, i: nat)
    requires i == 0 || i == 3
    requires InBounds(STRAY, i + 2, st) && st.j == i + 2 && |st.dest| > 12 && st.lastI == i && st.lastJ == i
    requires if i == 0 then st.buffer == [] else st.buffer == [0xe2] && st.bufferJ == 0 && st.bufferSize == 3
    ensures Step(STRAY, i + 2, st, 7, false) ==
              Done(st.(dest := st.dest[i + 2 := 50], j := i + 3, bufferJ := 0, bufferSize := 3,
                       buffer := st.buffer + [if i == 0 then 0xe2 else 0x82]))
  {
    hide SequenceLength, ReadSize, IsHex, Escaped;
    StrayBytes();
  }

  /** Then a `%` in the middle of the sequence, which the last byte of it rolls back over. */
  lemma StrayPercent(st: State) returns (next: State)
    requires InBounds(STRAY, 6, st) && st.j == 6 && |st.dest| > 12 && Settled(st, 6)
    requires st.buffer == [0xe2, 0x82] && st.bufferJ == 0 && st.bufferSize == 3
    ensures InBounds(STRAY, 8, next) && Run(STRAY, 6, st, 7, false) == Run(STRAY, 8, next, 7, false)
    ensures next.j == 3 && |next.dest| > 12 && next.buffer == [] && next.lastI == 6 && next.lastJ == 6
  {
    hide SequenceLength, ReadSize, IsHex, Escaped;
    StrayBytes();
    var st1 := st.(dest := st.dest[6 := 37], j := 7, lastI := 6, lastJ := 6);
    next := st1.(dest := st1.dest[..0] + [0xe2, 0x82, 0xac] + st1.dest[3..], j := 3, buffer := []);
    assert Step(STRAY, 6, st, 7, false) == Done(st1);
    assert st1.buffer + [0xac] == [0xe2, 0x82, 0xac];
    assert Step(STRAY, 7, st1, 7, false) == Done(next);
  }

  /** The next sequence is taken to start at that `%`, three characters ahead of the write position. */
  lemma StraySequence(st: State) returns (next: State)
    requires InBounds(STRAY, 8, st) && st.j == 3 && |st.dest| > 12
    requires st.buffer == [] && st.lastI == 6 && st.lastJ == 6
    ensures InBounds(STRAY, 11, next) && Run(STRAY, 8, st, 7, false) == Run(STRAY, 11, next, 7, false)
    ensures next.j == 6 && |next.dest| > 12 && next.lastI == 6
    ensures next.buffer == [0xf0, 0x9f, 0x98] && next.bufferJ == 6 && next.bufferSize == 4
  {
    hide SequenceLength, ReadSize, IsHex, Escaped;
    StrayBytes();
    var st1 := st.(dest := st.dest[3 := 0xf0], j := 4, buffer := [0xf0], bufferJ := 6, bufferSize := 4);
    var st2 := st1.(dest := st1.dest[4 := 0x9f], j := 5, buffer := [0xf0, 0x9f]);
    next := st2.(dest := st2.dest[5 := 0x98], j := 6, buffer := [0xf0, 0x9f, 0x98]);
    assert Step(STRAY, 8, st, 7, false) == Done(st1);
    assert Step(STRAY, 9, st1, 7, false) == Done(st2);
    assert Step(STRAY, 10, st2, 7, false) == Done(next);
  }

  lemma StrayEnd(st: State)
    requires InBounds(STRAY, 11, st) && st.j == 6 && |st.dest| > 12 && st.lastI == 6
    requires st.buffer == [0xf0, 0x9f, 0x98] && st.bufferJ == 6 && st.bufferSize == 4
    ensures var r := Run(STRAY, 11, st, 7, false); r.Done? && r.st.j == 10
  {
    hide SequenceLength, ReadSize, IsHex, Escaped;
    StrayBytes();
    assert st.buffer + [0x80] == [0xf0, 0x9f, 0x98, 0x80];
    var r := Step(STRAY, 11, st, 7, false);
    assert r.Done? && r.st.j == 10;
  }

  /** With `max` 7 this text ends three characters behind the ones a caller provides. */
  lemma LeavesByThree(dest: seq<Byte>)
    ensures var st := Start(Padded(dest, |STRAY|));
            && !Within(STRAY, 0, st, 7, false, 7 + 3)
            && var r := Run(STRAY, 0, st, 7, false); r.Done? && r.st.j == 7 + 3
  {
    hide Run, Within, Step;
    var st := Start(Padded(dest, |STRAY|));
    var st3 := StrayEscape(st, 0);
    var st6 := StrayEscape(st3, 3);
    var st8 := StrayPercent(st6);
    var st11 := StraySequence(st8);
    StrayEnd(st11);
    if Within(STRAY, 0, st, 7, false, 10) {
      RunLeaves(STRAY, 0, st, 7, false, 10);
      assert false;
    }
  }

  /** For any text, the decoder stays within a destination longer than the text or than `max` + 5. */
  lemma RoomEnough(s: seq<Byte>, dest: seq<Byte>, max: nat, noAscii: bool)
    requires |s| < |dest| || max + 5 < |dest|
    ensures Within(s, 0, Start(Padded(dest, |s|)), max, noAscii, |dest|)
  {
    hide Run, Within, Step;
    var st := Start(Padded(dest, |s|));
    if |s| < |dest| {
      LongDestination(s, 0, st, max, noAscii, |dest|);
    } else {
      NearMax(s, 0, st, max, noAscii, |dest|);
    }
  }

  // ---- The decoder ----

  /** `memcpy`. */
  method CopyBytes(dest: array<Byte>, at: nat, bytes: array<Byte>, n: nat)
    requires dest != bytes && at + n <= dest.Length && n <= bytes.Length
    modifies dest
    ensures dest[..] == old(dest[..at]) + bytes[..n] + old(dest[at + n..])
  {
    var m := 0;
    while m < n
      invariant m <= n
      invariant dest[..] == old(dest[..at]) + bytes[..m] + old(dest[at + m..])
    {
      dest[at + m] := bytes[m];
      m := m + 1;
    }
  }

  /** `hts_readUTF8` on the whole buffer. */
  method ReadBuffer(bytes: seq<Byte>) returns (n: nat)
    ensures n == ReadSize(bytes)
  {
    hide SequenceLength, ReadLoop, LeadBits;
    if bytes != [] {
      ReadsSequences(bytes, 0);
    }
    var _, size := ReadUtf8(bytes);
    n := size;
  }

  /** The first part of the loop: what the character at `i` is. */
  method ClassifyCharacter(
    src: array<Byte>, i: nat, j: nat, k: nat, lastI: int, lastJ: int, seenQuery: bool, noAscii: bool,
    ghost s: seq<Byte>, ghost st: State)
    returns (c: Byte, u: Byte, j': nat, k': nat, lastI': int, lastJ': int, seenQuery': bool)
    requires i < |s| < src.Length && InBounds(s, i, st) && src[i] == s[i] && (i > 0 ==> src[i - 1] == s[i - 1])
    requires j == st.j && k == |st.buffer| && lastI == st.lastI && lastJ == st.lastJ && seenQuery == st.seenQuery
    ensures k' == 0 || k' == |st.buffer|
    ensures var buffer := if k' == 0 then [] else st.buffer;
            Classify(s, i, st, noAscii) ==
              (st.(j := j', lastI := lastI', lastJ := lastJ', buffer := buffer, seenQuery := seenQuery'), c, u)
  {
    hide IsHex, Escaped;
    c, u := src[i], src[i];
    j', k', lastI', lastJ', seenQuery' := j, k, lastI, lastJ, seenQuery;
    if c == PLUS && seenQuery {
      c, u, k' := SPACE, SPACE, 0;
    } else if c == PERCENT {
      lastI', lastJ' := i, j;
    } else if i >= 2 && i == lastI + 2 {
      if IsHex(src[lastI + 1]) && IsHex(src[lastI + 2]) {
        u := Escaped(src[lastI + 1], src[lastI + 2]);
        if IsPrintable(u) && !noAscii {
          j', c := lastJ, u;
        }
      } else {
        k' := 0;
      }
    } else if c < 0x80 && i != lastI + 1 {
      k' := 0;
      if c == QUESTION && !seenQuery {
        seenQuery' := true;
      }
    }
  }

  lemma StepParts(s: seq<Byte>, i: nat, st: State, max: nat, noAscii: bool,
                  st1: State, c: Byte, u: Byte, st2: State, flushed: bool)
    requires i < |s| && InBounds(s, i, st) && Classify(s, i, st, noAscii) == (st1, c, u)
    requires InBounds(s, i + 1, st1) && st1.j <= i && (st1.buffer != [] ==> st1.bufferJ + |st1.buffer| <= i)
    requires Collect(s, i, st1, u) == (st2, flushed)
    ensures !flushed ==> st2.j < |st2.dest|
    ensures Step(s, i, st, max, noAscii) == if flushed then Done(st2) else Copy(st2, c, max)
  {
    hide Classify, Collect;
    CollectInBounds(s, i, st1, u);
  }

  /** The array holds the beginning of the specification's destination, the rest being padding. */
  ghost predicate Holds(dest: seq<Byte>, whole: seq<Byte>) {
    |dest| <= |whole| && whole[..|dest|] == dest
  }

  lemma HoldsCopy(dest: seq<Byte>, whole: seq<Byte>, at: nat, b: seq<Byte>)
    requires Holds(dest, whole) && at + |b| <= |dest|
    ensures Holds(dest[..at] + b + dest[at + |b|..], whole[..at] + b + whole[at + |b|..])
  {
    assert forall k :: 0 <= k < |dest| ==> whole[..|dest|][k] == whole[k];
  }

  /** `dest[j++] = c`. */
  lemma HoldsByte(dest: seq<Byte>, whole: seq<Byte>, j: nat, c: Byte)
    requires Holds(dest, whole) && j < |dest|
    ensures Holds(dest[j := c], whole[j := c])
  {
  }

  lemma HoldsPadded(dest: seq<Byte>, n: nat)
    ensures Holds(dest, Padded(dest, n))
  {
  }

  lemma HoldsMeans(dest: seq<Byte>, whole: seq<Byte>)
    requires Holds(dest, whole)
    ensures |dest| <= |whole| && whole[..|dest|] == dest
  {
  }

  /** The buffer is written when the sequence is complete and readable. */
  method FlushBuffer(
    dest: array<Byte>, utfBuffer: array<Byte>, j: nat, k: nat, utfBufferJ: nat, utfBufferSize: nat, ghost st: State)
    returns (flushed: bool, j': nat, k': nat, ghost st': State)
    requires dest != utfBuffer && k <= utfBuffer.Length && Holds(dest[..], st.dest)
    requires st == st.(j := j, buffer := utfBuffer[..k], bufferJ := utfBufferJ, bufferSize := utfBufferSize)
    requires utfBufferJ + k <= |st.dest| && (Flush(st).1 ==> Flush(st).0.j <= dest.Length)
    modifies dest
    ensures k' <= k && Flush(st) == (st', flushed) && Holds(dest[..], st'.dest)
    ensures st' == st.(dest := st'.dest, j := j', buffer := utfBuffer[..k'])
  {
    hide ReadSize, Holds;
    flushed, j', k', st' := false, j, k, st;
    if k == utfBufferSize {
      var nRead := ReadBuffer(utfBuffer[..k]);
      k' := 0;
      st' := st.(buffer := []);
      if nRead == utfBufferSize {
        HoldsCopy(dest[..], st.dest, utfBufferJ, utfBuffer[..k]);
        CopyBytes(dest, utfBufferJ, utfBuffer, utfBufferSize);
        flushed, j' := true, utfBufferJ + utfBufferSize;
        st' := Flush(st).0;
      }
    }
  }

  /** The UTF-8 part of the loop. */
  method CollectByte(
    dest: array<Byte>, utfBuffer: array<Byte>, i: nat, j: nat, k: nat, lastI: int, lastJ: int,
    utfBufferJ: nat, utfBufferSize: nat, u: Byte, ghost s: seq<Byte>, ghost st: State)
    returns (flushed: bool, j': nat, k': nat, utfBufferJ': nat, utfBufferSize': nat, ghost st': State)
    requires dest != utfBuffer && utfBuffer.Length == BUFFER_SIZE && k <= BUFFER_SIZE && Holds(dest[..], st.dest)
    requires st == State(st.dest, j, lastI, lastJ, utfBuffer[..k], utfBufferJ, utfBufferSize, st.seenQuery)
    requires i < |s| && InBounds(s, i + 1, st) && st.j <= i && (st.buffer != [] ==> st.bufferJ + |st.buffer| <= i)
    requires Collect(s, i, st, u).1 ==> Collect(s, i, st, u).0.j <= dest.Length
    modifies dest, utfBuffer
    ensures k' <= BUFFER_SIZE && Collect(s, i, st, u) == (st', flushed) && Holds(dest[..], st'.dest)
    ensures st' == State(st'.dest, j', lastI, lastJ, utfBuffer[..k'], utfBufferJ', utfBufferSize', st.seenQuery)
  {
    hide SequenceLength, ReadSize, IsLeading, Holds, Flush;
    flushed, j', k', utfBufferJ', utfBufferSize', st' := false, j, k, utfBufferJ, utfBufferSize, st;
    if u >= 0x80 {
      if IsLeading(u) {
        k', st' := 0, st'.(buffer := []);
      }
      if k' < BUFFER_SIZE {
        if k' == 0 {
          utfBufferJ' := if lastI != -1 && i == lastI + 2 then lastJ else j;
          utfBufferSize' := SequenceLength(u);
          st' := st'.(bufferJ := utfBufferJ', bufferSize := utfBufferSize');
        }
        st' := st'.(buffer := st'.buffer + [u]);
        utfBuffer[k'] := u;
        k' := k' + 1;
        assert utfBuffer[..k'] == st'.buffer;
        flushed, j', k', st' := FlushBuffer(dest, utfBuffer, j', k', utfBufferJ', utfBufferSize', st');
      }
    }
  }

  /**
    `hts_unescapeUrlSpecial`, for any text with which it stays within the destination; `RoomEnough` and
    `StaysWithin` say when that is.
   */
  method UnescapeUrlSpecial(src: array<Byte>, dest: array<Byte>, max: nat, noAscii: bool, ghost s: CString)
    returns (r: int)
    requires max != 0 && src != dest && Entities.HoldsString(src, s)
    requires Within(s, 0, Start(Padded(dest[..], |s|)), max, noAscii, dest.Length)
    modifies dest
    ensures var run := Run(s, 0, Start(Padded(old(dest[..]), |s|)), max, noAscii);
            if run.Done? then
              && r == 0 && run.st.j <= |s| && run.st.j < dest.Length <= |run.st.dest|
              && dest[..] == run.st.dest[..dest.Length][run.st.j := 0]
            else r == -1 && |s| > max
  {
    hide Run, Step, Classify, Collect, SequenceLength, ReadSize, IsHex, Escaped, Within, Holds;
    var i: nat, j: nat, k: nat := 0, 0, 0;
    var lastI: int, lastJ: int := -1, -1;
    var utfBufferJ: nat, utfBufferSize: nat := 0, 0;
    var seenQuery := false;
    var utfBuffer := new Byte[BUFFER_SIZE];
    ghost var st := Start(Padded(dest[..], |s|));
    ghost var whole := Run(s, 0, st, max, noAscii);
    NeverLonger(s, 0, st, max, noAscii);
    HoldsPadded(dest[..], |s|);
    while src[i] != 0
      invariant i <= |s| && k <= BUFFER_SIZE && fresh(utfBuffer)
      invariant st == State(st.dest, j, lastI, lastJ, utfBuffer[..k], utfBufferJ, utfBufferSize, seenQuery)
      invariant InBounds(s, i, st) && Run(s, i, st, max, noAscii) == whole && Holds(dest[..], st.dest)
      invariant Within(s, i, st, max, noAscii, dest.Length)
      decreases |s| - i
    {
      Characters(src[..], s, i);
      RunUnfolds(s, i, st, max, noAscii, dest.Length);
      StepInBounds(s, i, st, max, noAscii);
      ClassifyInBounds(s, i, st, noAscii);
      var c, u;
      c, u, j, k, lastI, lastJ, seenQuery := ClassifyCharacter(src, i, j, k, lastI, lastJ, seenQuery, noAscii, s, st);
      ghost var st1 := State(st.dest, j, lastI, lastJ, utfBuffer[..k], utfBufferJ, utfBufferSize, seenQuery);
      assert st1 == Classify(s, i, st, noAscii).0;
      CollectInBounds(s, i, st1, u);
      StepParts(s, i, st, max, noAscii, st1, c, u, Collect(s, i, st1, u).0, Collect(s, i, st1, u).1);
      var flushed;
      ghost var st2;
      flushed, j, k, utfBufferJ, utfBufferSize, st2 :=
        CollectByte(dest, utfBuffer, i, j, k, lastI, lastJ, utfBufferJ, utfBufferSize, u, s, st1);
      st := st2;
      if !flushed {
        if j + 1 > max {
          return -1;
        }
        HoldsByte(dest[..], st.dest, j, c);
        dest[j] := c;
        j := j + 1;
        st := Copy(st2, c, max).st;
      }
      i := i + 1;
    }
    Characters(src[..], s, i);
    RunUnfolds(s, i, st, max, noAscii, dest.Length);
    HoldsMeans(dest[..], st.dest);
    dest[j] := 0;
    r := 0;
  }

  lemma Characters(a: seq<Byte>, s: CString, i: nat)
    requires |s| < |a| && a[..|s|] == s && a[|s|] == 0 && i <= |s|
    ensures a[i] == 0 <==> i == |s|
    ensures forall p :: 0 <= p < |s| ==> a[p] == s[p]
  {
    assert i < |s| ==> s[i] in s;
  }

  lemma RunUnfolds(s: seq<Byte>, i: nat, st: State, max: nat, noAscii: bool, room: nat)
    requires InBounds(s, i, st) && Within(s, i, st, max, noAscii, room)
    ensures i == |s| ==> Run(s, i, st, max, noAscii) == Done(st) && st.j < room
    ensures i < |s| ==>
              var r := Step(s, i, st, max, noAscii);
              if r.Done? then
                && InBounds(s, i + 1, r.st) && Run(s, i, st, max, noAscii) == Run(s, i + 1, r.st, max, noAscii)
                && r.st.j <= room && Within(s, i + 1, r.st, max, noAscii, room)
              else Run(s, i, st, max, noAscii) == Overflow
  {
    if i < |s| {
      StepInBounds(s, i, st, max, noAscii);
    }
  }

  /**
    `hts_unescapeUrl` on a well-formed URL: 0 exactly when it fits, and then the decoded URL.  A
    destination of `max` + 1 characters is enough exactly when the URL does not spill.
   */
  method UnescapeUrl(src: array<Byte>, dest: array<Byte>, max: nat, ghost s: CString, ghost url: Url) returns (r: int)
    requires max != 0 && src != dest && Entities.HoldsString(src, s)
    requires s == Text(url, 0) && ReadableFrom(BytesOf(url), 0)
    requires |s| < dest.Length || max + 1 < dest.Length || (max < dest.Length && !Spills(url, max, false))
    modifies dest
    ensures r == if Fits(url, 0, 0, max, false) then 0 else -1
    ensures |s| <= max ==> r == 0
    ensures r == 0 ==> var n := |Decoded(url, 0, false, false)|;
              && n <= |s| && n < dest.Length && dest[..n] == Decoded(url, 0, false, false) && dest[n] == 0
  {
    hide Run, Text, Decoded, ReadableFrom, Within, Fits, Spills;
    ghost var st := Start(Padded(dest[..], |s|));
    RunDecodes(s, 0, st, max, false, max + 1, url, 0);
    StaysWithin(url, dest[..], max, false);
    if |s| < dest.Length {
      RoomEnough(s, dest[..], max, false);
    } else {
      WithinMore(s, 0, st, max, false, if max + 1 < dest.Length then max + 2 else max + 1, dest.Length);
    }
    r := UnescapeUrlSpecial(src, dest, max, false, s);
    if r == 0 {
      ghost var end := Run(s, 0, st, max, false).st;
      assert end.dest[..end.j] == st.dest[..0] + Decoded(url, 0, false, false);
      assert dest[..end.j] == end.dest[..end.j];
    }
  }

  /** `hts_unescapeUrl` on a percent-encoded text, whatever the case of the digits. */
  method UnescapeEncoded(
    src: array<Byte>, dest: array<Byte>, max: nat, ghost s: CString, ghost text: seq<Byte>, ghost upper: nat -> Cases)
    returns (r: int)
    requires max != 0 && src != dest && Entities.HoldsString(src, s) && max < dest.Length
    requires s == PercentEncoded(text, 0, upper) && ReadableFrom(text, 0)
    requires forall k :: 0 <= k < |text| ==> text[k] >= 32
    modifies dest
    ensures 3 * |text| <= max ==> r == 0
    ensures (forall k :: 0 <= k < |text| ==> text[k] < 0x80) ==> r == if text == [] || |text| < max then 0 else -1
    ensures r == 0 || r == -1
    ensures r == 0 ==> |text| < dest.Length && dest[..|text|] == text && dest[|text|] == 0
  {
    hide Text, Decoded, ReadableFrom, Fits, PercentEncoded, Encoded;
    ghost var url := Encoded(text, upper);
    EncodedText(text, 0, upper);
    DecodedEscapes(text, 0, upper);
    assert text[0..] == text;
    if Spills(url, max, false) {
      SpillsAtEnd(url, 0, 0, max, false, false);
      LastEscape(text, upper);
    }
    r := UnescapeUrl(src, dest, max, s, url);
    if forall k :: 0 <= k < |text| ==> text[k] < 0x80 {
      EscapesFit(text, 0, upper, 0, max);
    }
  }

  lemma LastEscape(text: seq<Byte>, upper: nat -> Cases)
    ensures |Encoded(text, upper)| == |text|
    ensures text != [] ==> Encoded(text, upper)[|text| - 1].Escape?
  {
    hide EscapeOf;
    assert text != [] ==> Encoded(text, upper)[|text| - 1] == EscapeOf(text[|text| - 1], upper(|text| - 1));
  }

  lemma {:induction false} WithinMore(
    s: seq<Byte>, i: nat, st: State, max: nat, noAscii: bool, room: nat, more: nat)
    requires InBounds(s, i, st) && Within(s, i, st, max, noAscii, room) && room <= more
    ensures Within(s, i, st, max, noAscii, more)
    decreases |s| - i
  {
    hide Step;
    if i < |s| {
      StepInBounds(s, i, st, max, noAscii);
      var r := Step(s, i, st, max, noAscii);
      if r.Done? {
        WithinMore(s, i + 1, r.st, max, noAscii, room, more);
      }
    }
  }
}
