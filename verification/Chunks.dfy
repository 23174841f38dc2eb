/**
  Decoding a chunked message body (section 3.6.1 of RFC 2616) as the download loop does it: one
  pass per event, with whatever bytes the socket has at that moment.
 */
module Chunks {
  import opened Bytes
  import opened Numerals

  const LF: Byte := 10
  const CR: Byte := 13

  /** `status`: 1, 97, 98 and 0 in the C code. */
  datatype Status = Body | ChunkCr | ChunkWait | Ready

  /**
    The fields of a slot that the decoder uses.  `body` is what `r.adr` holds and `size` its
    length; `line` is `chunk_adr[..chunk_size]`; `failed` is set where the C code stores an error
    status and drops the body.
   */
  datatype State = State(
    status: Status, size: int, total: int, body: seq<Byte>, line: seq<Byte>, block: int, failed: bool)

  /** The state when a chunked body begins. */
  const START := State(ChunkWait, 0, -1, [], [], 0, false)

  // ---- Chunk lines ----

  function SkipSpaces(s: seq<Byte>): seq<Byte> {
    if s != [] && IsSpace(s[0]) then SkipSpaces(s[1..]) else s
  }

  /** What ends the text of a chunk line: its NUL, or an extension. */
  predicate EndsText(c: Byte) {
    c == 0 || c == 59 || c == 32 || c == CR
  }

  function UpToEnd(s: seq<Byte>): seq<Byte> {
    if s == [] || EndsText(s[0]) then [] else [s[0]] + UpToEnd(s[1..])
  }

  /** The text of a line without leading spaces and extensions. */
  function LineText(s: seq<Byte>): seq<Byte> {
    UpToEnd(SkipSpaces(s))
  }

  function HexDigit(c: Byte): int
    requires IsHex(c)
  {
    if c <= 57 then c as int - 48 else if c <= 70 then c as int - 55 else c as int - 87
  }

  /** The leading hexadecimal digits. */
  function HexPrefix(s: seq<Byte>): seq<Byte> {
    if s == [] || !IsHex(s[0]) then [] else [s[0]] + HexPrefix(s[1..])
  }

  predicate AllHex(s: seq<Byte>) {
    forall k :: 0 <= k < |s| ==> IsHex(s[k])
  }

  function HexValue(s: seq<Byte>): nat
    requires AllHex(s)
  {
    if s == [] then 0 else 16 * HexValue(s[..|s| - 1]) + HexDigit(s[|s| - 1])
  }

  lemma {:induction false} HexPrefixIsHex(s: seq<Byte>)
    ensures AllHex(HexPrefix(s)) && HexPrefix(s) <= s
  {
    if s != [] && IsHex(s[0]) {
      HexPrefixIsHex(s[1..]);
    }
  }

  /** A 32-bit pattern as a signed `int`. */
  function Signed(x: int): int {
    var u := x % 0x1_0000_0000;
    if u >= 0x8000_0000 then u - 0x1_0000_0000 else u
  }

  const ULONG_MAX: int := 0xffff_ffff_ffff_ffff

  function BehindSign(s: seq<Byte>): seq<Byte> {
    if s != [] && (s[0] == 45 || s[0] == 43) then s[1..] else s
  }

  function BehindPrefix(s: seq<Byte>): seq<Byte> {
    if |s| >= 2 && s[0] == 48 && (s[1] == 120 || s[1] == 88) then s[2..] else s
  }

  /** `sscanf(s, "%x", ..)`: sign, `0x`, digits; numbers beyond 64 bits are all bits set. */
  function ScanHex(s: seq<Byte>): Option<int> {
    var negative := s != [] && s[0] == 45;
    var text := BehindPrefix(BehindSign(s));
    var digits := HexPrefix(text);
    HexPrefixIsHex(text);
    if digits == [] then None
    else
      var n: int := HexValue(digits);
      Some(Signed(if n > ULONG_MAX then ULONG_MAX else if negative then -n else n))
  }

  /** The size announced by a chunk line, if it can be read. */
  function AnnouncedSize(line: seq<Byte>): Option<int> {
    ScanHex(LineText(line))
  }

  // ---- One pass ----

  datatype LineRead = LineRead(line: seq<Byte>, used: nat, error: bool)

  /**
    `http_xfread1(.., -1)`: one byte after the other, without the carriage returns, up to a line
    feed, `count` bytes, or the end of what is there.
   */
  function ReadLine(line: seq<Byte>, input: seq<Byte>, used: nat, count: nat): LineRead
    requires used <= |input|
    decreases count
  {
    if count == 0 || used == |input| then LineRead(line, used, false)
    else if |line| >= 8190 then LineRead(line, used, true)
    else if input[used] == LF then LineRead(line + [LF], used + 1, false)
    else ReadLine(if input[used] == CR then line else line + [input[used]], input, used + 1, count - 1)
  }

  /** The end of a transfer: the length must be the announced one. */
  function Finish(st: State, bad: bool): State {
    if bad || (st.total >= 0 && st.total != st.size) then st.(status := Ready, body := [], failed := true)
    else st.(status := Ready)
  }

  /** Where a chunk line leads, `chunk` being the size it stands for or -1. */
  function Follow(st: State, chunk: int): State {
    if st.status == ChunkCr && chunk > 0 then st.(status := ChunkWait)
    else if st.status == ChunkWait && chunk == 0 then st.(status := ChunkCr)
    else if st.status == ChunkWait && chunk >= 0 then st.(status := Body)
    else Finish(st, chunk < 0)
  }

  /** A whole line is there: a chunk size, or the end of line behind the data of a chunk. */
  function TakeLine(st: State): State
    requires st.line != []
  {
    var text := st.line[..|st.line| - 1];
    if |st.line| >= 32 then Follow(st.(line := []), -1)
    else
      var st1 := st.(total := if st.total < 0 then 0 else st.total, line := []);
      if st.status == ChunkWait then
        match AnnouncedSize(text)
        case Some(n) => Follow(st1.(block := if n > 0 then n else -1, total := st1.total + n), n)
        case None => Follow(st1, -1)
      else if LineText(text) == [] then
        Follow(st1, if st.block > 0 then st.block else if st.block == -1 then 0 else 1)
      else Follow(st1, -1)
  }

  function Min(a: int, b: int): int {
    if a < b then a else b
  }

  /** One pass of the download loop with `input` in the socket; the number of bytes it takes. */
  function Step(st: State, input: seq<Byte>): (r: (State, nat))
    ensures r.1 <= |input|
  {
    match st.status
    case Ready => (st, 0)
    case Body =>
      var n := if st.size <= st.total then Min(|input|, st.total - st.size) else 0;
      var st1 := st.(size := st.size + n, body := st.body + input[..n]);
      (if st1.size == st1.total then st1.(status := ChunkCr, line := []) else st1, n)
    case _ =>
      ReadLineUses(st.line, input, 0, 256);
      var r := ReadLine(st.line, input, 0, 256);
      if r.error then (st.(line := r.line, status := Ready, failed := true), r.used)
      else if r.used > 0 && r.line != [] && r.line[|r.line| - 1] == LF then (TakeLine(st.(line := r.line)), r.used)
      else (st.(line := r.line), r.used)
  }

  lemma {:induction false} ReadLineUses(line: seq<Byte>, input: seq<Byte>, used: nat, count: nat)
    requires used <= |input|
    ensures used <= ReadLine(line, input, used, count).used <= |input|
    ensures used < |input| && count > 0 && |line| < 8190 ==> used < ReadLine(line, input, used, count).used
    ensures used < |input| && count > 0 && |line| >= 8190 ==> ReadLine(line, input, used, count).error
    decreases count
  {
    if count != 0 && used < |input| && |line| < 8190 && input[used] != LF {
      ReadLineUses(if input[used] == CR then line else line + [input[used]], input, used + 1, count - 1);
    }
  }

  /** The peer has closed the connection: the transfer ends, with an error in the middle of a chunk. */
  function Close(st: State): State {
    if st.status == Ready then st else Finish(st, false)
  }

  // ---- Safety on any input ----

  /** What every pass keeps, whatever the bytes are. */
  predicate Safe(st: State) {
    && (!st.failed ==> |st.body| == st.size)
    && (st.status == Body ==> 0 <= st.size < st.total)
    && (st.status != Body && !st.failed ==> st.total == st.size || (st.total == -1 && st.size == 0))
    && (st.failed ==> st.status == Ready)
  }

  /**
    On any bytes: never more than announced is read, every pass with data makes progress, and a
    transfer that ends without error has exactly the announced length.
   */
  lemma StepIsSafe(st: State, input: seq<Byte>)
    requires Safe(st)
    ensures Safe(Step(st, input).0)
    ensures st.status == Body ==> Step(st, input).1 <= st.total - st.size
    ensures st.status != Ready && input != [] ==> Step(st, input).1 > 0 || Step(st, input).0.failed
    ensures st.status != Ready && Step(st, input).0.status == Ready && !Step(st, input).0.failed ==>
              st.status == ChunkCr && st.block == -1 && Step(st, input).0.total == Step(st, input).0.size
  {
    hide TakeLine, ReadLine;
    if st.status == ChunkCr || st.status == ChunkWait {
      ReadLineUses(st.line, input, 0, 256);
      var line := ReadLine(st.line, input, 0, 256).line;
      if line != [] {
        LineIsSafe(st.(line := line));
      }
    }
  }

  lemma LineIsSafe(st: State)
    requires Safe(st) && st.line != [] && (st.status == ChunkCr || st.status == ChunkWait)
    ensures var st' := TakeLine(st);
            && Safe(st')
            && (st'.status == Ready && !st'.failed ==>
                  st.status == ChunkCr && st.block == -1 && st'.total == st'.size)
  {
    hide AnnouncedSize, LineText;
  }

  /** A close is taken for the end of the body exactly between chunks, even before the final one. */
  lemma CloseIsSafe(st: State)
    requires Safe(st)
    ensures Safe(Close(st)) && Close(st).status == Ready
    ensures st.status != Ready ==> (Close(st).failed <==> st.status == Body)
  {
  }

  // ---- Well-formed messages ----

  /** A chunk: the text that announces its size, and its data. */
  datatype Chunk = Chunk(header: seq<Byte>, data: seq<Byte>)

  const CRLF: seq<Byte> := [CR, LF]

  function NoCr(s: seq<Byte>): seq<Byte> {
    if s == [] then [] else NoCr(s[..|s| - 1]) + if s[|s| - 1] == CR then [] else [s[|s| - 1]]
  }

  /** A line shorter than 32 characters that announces `n`. */
  predicate Announces(header: seq<Byte>, n: int) {
    LF !in header && |NoCr(header)| + 1 < 32 && AnnouncedSize(NoCr(header)) == Some(n)
  }

  /** Chunks with their sizes in front, none empty. */
  predicate WellFormed(chunks: seq<Chunk>) {
    forall k :: 0 <= k < |chunks| ==> chunks[k].data != [] && Announces(chunks[k].header, |chunks[k].data|)
  }

  /** The bytes on the wire; `last` announces the final, empty chunk. */
  function Wire(chunks: seq<Chunk>, last: seq<Byte>): seq<Byte> {
    if chunks == [] then last + CRLF + CRLF
    else chunks[0].header + CRLF + (chunks[0].data + CRLF + Wire(chunks[1..], last))
  }

  function Contents(chunks: seq<Chunk>): seq<Byte> {
    if chunks == [] then [] else chunks[0].data + Contents(chunks[1..])
  }

  /** The message text of the line the decoder is waiting for. */
  function NextHeader(chunks: seq<Chunk>, last: seq<Byte>): seq<Byte> {
    (if chunks == [] then last else chunks[0].header) + CRLF
  }

  /** What follows that line on the wire. */
  function BehindHeader(chunks: seq<Chunk>, last: seq<Byte>): seq<Byte> {
    if chunks == [] then CRLF else chunks[0].data + CRLF + Wire(chunks[1..], last)
  }

  /** Where the decoder is in the message: `k` characters into the part it is reading. */
  datatype Phase = InHeader(k: nat) | InData(k: nat) | InEnd(k: nat) | InFinalEnd(k: nat) | AtEnd

  /**
    The decoder is in `phase`, `done` has been received, the chunks of `todo` are to come (the
    first one in part), and `rest` is what is still on the wire.
   */
  ghost predicate At(st: State, phase: Phase, done: seq<Byte>, todo: seq<Chunk>, last: seq<Byte>, rest: seq<Byte>) {
    && !st.failed && st.size == |st.body|
    && match phase
       case InHeader(k) =>
         && k < |NextHeader(todo, last)|
         && st.status == ChunkWait && st.body == done && (st.total == st.size || (st.total == -1 && st.size == 0))
         && st.line == NoCr(NextHeader(todo, last)[..k])
         && rest == NextHeader(todo, last)[k..] + BehindHeader(todo, last)
       case InData(k) =>
         && todo != [] && k < |todo[0].data| && st.block == |todo[0].data|
         && st.status == Body && st.body == done + todo[0].data[..k] && st.line == []
         && st.total == |done| + |todo[0].data|
         && rest == todo[0].data[k..] + CRLF + Wire(todo[1..], last)
       case InEnd(k) =>
         && k < 2 && st.block > 0
         && st.status == ChunkCr && st.body == done && st.total == st.size && st.line == []
         && rest == CRLF[k..] + Wire(todo, last)
       case InFinalEnd(k) =>
         && k < 2 && st.block == -1 && todo == []
         && st.status == ChunkCr && st.body == done && st.total == st.size && st.line == []
         && rest == CRLF[k..]
       case AtEnd =>
         st.status == Ready && st.body == done && todo == [] && st.total == st.size && rest == []
  }

  lemma {:induction false} NoCrSplit(a: seq<Byte>, b: seq<Byte>)
    ensures NoCr(a + b) == NoCr(a) + NoCr(b)
    decreases |b|
  {
    if b == [] {
      assert a + b == a;
    } else {
      NoCrSplit(a, b[..|b| - 1]);
      assert (a + b)[..|a + b| - 1] == a + b[..|b| - 1];
    }
  }

  lemma NoCrPrefix(s: seq<Byte>, k: nat)
    requires k <= |s|
    ensures |NoCr(s[..k])| <= |NoCr(s)|
    ensures k < |s| ==> NoCr(s[..k + 1]) == if s[k] == CR then NoCr(s[..k]) else NoCr(s[..k]) + [s[k]]
  {
    NoCrSplit(s[..k], s[k..]);
    assert s == s[..k] + s[k..];
    if k < |s| {
      assert s[..k + 1][..k] == s[..k];
    }
  }

  /** A line of the message, with its only line feed at the end. */
  ghost predicate IsLine(full: seq<Byte>) {
    && |full| > 0 && full[|full| - 1] == LF && |NoCr(full)| <= 32
    && forall i :: 0 <= i < |full| - 1 ==> full[i] != LF
  }

  /** Reading goes on in the line of the message, and does not go past its end. */
  lemma {:induction false} ReadsOn(full: seq<Byte>, k: nat, line: seq<Byte>, input: seq<Byte>, used: nat, count: nat)
    requires IsLine(full) && k + used < |full| && used <= |input|
    requires line == NoCr(full[..k + used])
    requires forall p :: used <= p < |input| && k + p < |full| ==> input[p] == full[k + p]
    ensures var r := ReadLine(line, input, used, count);
            !r.error && used <= r.used && k + r.used <= |full| && r.line == NoCr(full[..k + r.used])
    decreases count
  {
    hide NoCr;
    NoCrPrefix(full, k + used);
    if count != 0 && used < |input| && input[used] != LF {
      ReadsOn(full, k, if input[used] == CR then line else line + [input[used]], input, used + 1, count - 1);
    }
  }

  /** What has been read ends with a line feed only when the line is complete. */
  lemma CompleteLine(full: seq<Byte>, m: nat)
    requires IsLine(full) && m <= |full|
    ensures var line := NoCr(full[..m]);
            (line != [] && line[|line| - 1] == LF) <==> m == |full|
    ensures NoCr(full) == NoCr(full[..|full| - 1]) + [LF]
  {
    var n := |full| - 1;
    NoCrPrefix(full, n);
    assert full[..n + 1] == full && full[..|full|] == full;
    if m < |full| {
      NoCrKeepsOut(full[..m]);
      assert LF !in full[..m];
    }
  }

  lemma {:induction false} NoCrKeepsOut(s: seq<Byte>)
    ensures forall c :: c !in s ==> c !in NoCr(s)
  {
    if s != [] {
      NoCrKeepsOut(s[..|s| - 1]);
      assert s == s[..|s| - 1] + [s[|s| - 1]];
    }
  }

  /** Reading a line of the message in one pass. */
  lemma ReadsLine(full: seq<Byte>, k: nat, line: seq<Byte>, input: seq<Byte>, after: seq<Byte>)
    requires IsLine(full) && k < |full| && line == NoCr(full[..k])
    requires input <= full[k..] + after
    ensures var r := ReadLine(line, input, 0, 256);
            && !r.error && r.used <= |input| && k + r.used <= |full|
            && r.line == NoCr(full[..k + r.used])
            && (full[k..] + after)[r.used..] == full[k + r.used..] + after
            && (r.used > 0 && r.line != [] && r.line[|r.line| - 1] == LF <==> k + r.used == |full|)
  {
    hide NoCr, ReadLine;
    forall p | 0 <= p < |input| && k + p < |full|
      ensures input[p] == full[k + p]
    {
      assert input[p] == (full[k..] + after)[p];
    }
    ReadsOn(full, k, line, input, 0, 256);
    ReadLineUses(line, input, 0, 256);
    var r := ReadLine(line, input, 0, 256);
    CompleteLine(full, k + r.used);
    CompleteLine(full, k);
  }

  lemma HeaderIsLine(header: seq<Byte>, n: int)
    requires Announces(header, n)
    ensures IsLine(header + CRLF)
    ensures NoCr((header + CRLF)[..|header + CRLF| - 1]) == NoCr(header)
  {
    var full := header + CRLF;
    NoCrSplit(header, CRLF);
    assert NoCr(CRLF) == [LF] by {
      assert CRLF[..1] == [CR];
      assert [CR][..0] == [];
    }
    assert full[..|full| - 1] == header + [CR];
    NoCrSplit(header, [CR]);
    assert [CR][..0] == [];
  }

  lemma CrlfIsLine()
    ensures IsLine(CRLF) && NoCr(CRLF[..0]) == [] && NoCr(CRLF[..1]) == [] && NoCr(CRLF[..2]) == [LF]
  {
    assert CRLF[..1] == [CR];
    assert [CR][..0] == [];
    assert CRLF[..2] == CRLF;
    NoCrSplit([CR], [LF]);
    assert CRLF == [CR] + [LF] && [LF][..0] == [];
  }

  /** A complete line that announces a chunk, or the end. */
  lemma TakeHeader(
    st: State, done: seq<Byte>, todo: seq<Chunk>, last: seq<Byte>, header: seq<Byte>)
    returns (phase: Phase)
    requires WellFormed(todo) && Announces(last, 0)
    requires header == if todo == [] then last else todo[0].header
    requires !st.failed && st.size == |st.body| && st.status == ChunkWait && st.body == done
    requires st.total == st.size || (st.total == -1 && st.size == 0)
    requires st.line == NoCr(header) + [LF]
    ensures At(TakeLine(st), phase, done, todo, last, BehindHeader(todo, last))
  {
    hide NoCr, AnnouncedSize;
    assert st.line[..|st.line| - 1] == NoCr(header);
    if todo == [] {
      phase := InFinalEnd(0);
      assert CRLF[0..] == CRLF;
    } else {
      phase := InData(0);
      assert todo[0].data[..0] == [] && done + [] == done && todo[0].data[0..] == todo[0].data;
    }
  }

  /** One pass over the line that announces a chunk. */
  lemma StepHeader(
    st: State, k: nat, done: seq<Byte>, todo: seq<Chunk>, last: seq<Byte>, rest: seq<Byte>, input: seq<Byte>)
    returns (phase: Phase)
    requires At(st, InHeader(k), done, todo, last, rest) && input <= rest
    requires WellFormed(todo) && Announces(last, 0)
    ensures var (st', n) := Step(st, input);
            At(st', phase, done, todo, last, rest[n..])
  {
    hide NoCr, AnnouncedSize, ReadLine, TakeLine, BehindHeader, WellFormed;
    var full, after := NextHeader(todo, last), BehindHeader(todo, last);
    var header := HeaderOf(todo, last);
    ReadsLine(full, k, st.line, input, after);
    var r := ReadLine(st.line, input, 0, 256);
    if k + r.used == |full| {
      CompleteLine(full, |full|);
      assert full[..|full|] == full && full[|full|..] == [] && [] + after == after;
      phase := TakeHeader(st.(line := r.line), done, todo, last, header);
    } else {
      phase := InHeader(k + r.used);
    }
  }

  lemma HeaderOf(todo: seq<Chunk>, last: seq<Byte>) returns (header: seq<Byte>)
    requires WellFormed(todo) && Announces(last, 0)
    ensures header == if todo == [] then last else todo[0].header
    ensures NextHeader(todo, last) == header + CRLF
    ensures IsLine(header + CRLF)
    ensures NoCr((header + CRLF)[..|header + CRLF| - 1]) == NoCr(header)
  {
    header := if todo == [] then last else todo[0].header;
    HeaderIsLine(header, if todo == [] then 0 else |todo[0].data|);
  }

  /** The bytes that `input` has of the rest of `data`. */
  lemma TakenData(data: seq<Byte>, k: nat, behind: seq<Byte>, done: seq<Byte>, rest: seq<Byte>, input: seq<Byte>)
    requires k <= |data| && input <= rest && rest == data[k..] + CRLF + behind
    ensures var n := Min(|input|, |data| - k);
            && done + data[..k] + input[..n] == done + data[..k + n] && rest[n..] == data[k + n..] + (CRLF + behind)
  {
    var n, after := Min(|input|, |data| - k), CRLF + behind;
    assert rest == data[k..] + after;
    assert input[..n] == data[k..k + n] by {
      assert input[..n] == rest[..n] == data[k..][..n];
    }
    assert data[..k] + data[k..k + n] == data[..k + n];
  }

  /** One pass over the data of a chunk. */
  lemma StepData(
    st: State, k: nat, done: seq<Byte>, todo: seq<Chunk>, last: seq<Byte>, rest: seq<Byte>, input: seq<Byte>)
    returns (phase: Phase, done': seq<Byte>, todo': seq<Chunk>)
    requires At(st, InData(k), done, todo, last, rest) && input <= rest
    ensures var (st', n) := Step(st, input);
            At(st', phase, done', todo', last, rest[n..]) && done' + Contents(todo') == done + Contents(todo)
    ensures todo != [] && (todo' == todo || todo' == todo[1..])
  {
    hide NoCr, Wire, ReadLine, AnnouncedSize, LineText, Follow;
    var data, after := todo[0].data, CRLF + Wire(todo[1..], last);
    var n := Min(|input|, |data| - k);
    TakenData(data, k, Wire(todo[1..], last), done, rest, input);
    if k + n == |data| {
      phase, done', todo' := InEnd(0), done + data, todo[1..];
      assert data[..|data|] == data && data[|data|..] == [] && [] + after == after && CRLF[0..] == CRLF;
      assert done + data + Contents(todo[1..]) == done + (data + Contents(todo[1..]));
    } else {
      phase, done', todo' := InData(k + n), done, todo;
      assert rest[n..] == data[k + n..] + CRLF + Wire(todo[1..], last);
    }
  }

  /** One pass over the line end behind the data of a chunk. */
  lemma StepEnd(
    st: State, k: nat, done: seq<Byte>, todo: seq<Chunk>, last: seq<Byte>, rest: seq<Byte>, input: seq<Byte>)
    returns (phase: Phase)
    requires At(st, InEnd(k), done, todo, last, rest) && input <= rest
    ensures var (st', n) := Step(st, input);
            At(st', phase, done, todo, last, rest[n..])
  {
    hide NoCr, AnnouncedSize, ReadLine;
    CrlfIsLine();
    ReadsLine(CRLF, k, st.line, input, Wire(todo, last));
    var r := ReadLine(st.line, input, 0, 256);
    if k + r.used == 2 {
      EmptyText();
      phase := InHeader(0);
      assert CRLF[2..] + Wire(todo, last) == Wire(todo, last);
      assert NextHeader(todo, last)[..0] == [] && NextHeader(todo, last)[0..] == NextHeader(todo, last);
      WireHeader(todo, last);
      CrlfIsLine();
      assert CRLF[..0] == [];
    } else {
      phase := InEnd(k + r.used);
    }
  }

  lemma EmptyText()
    ensures LineText([]) == []
  {
  }

  lemma WireHeader(todo: seq<Chunk>, last: seq<Byte>)
    ensures Wire(todo, last) == NextHeader(todo, last) + BehindHeader(todo, last)
  {
  }

  /** One pass over the last line end. */
  lemma StepFinalEnd(st: State, k: nat, done: seq<Byte>, last: seq<Byte>, rest: seq<Byte>, input: seq<Byte>)
    returns (phase: Phase)
    requires At(st, InFinalEnd(k), done, [], last, rest) && input <= rest
    ensures var (st', n) := Step(st, input);
            At(st', phase, done, [], last, rest[n..])
  {
    hide NoCr, AnnouncedSize, ReadLine;
    CrlfIsLine();
    assert rest == CRLF[k..] + [];
    ReadsLine(CRLF, k, st.line, input, []);
    var r := ReadLine(st.line, input, 0, 256);
    if k + r.used == 2 {
      EmptyText();
      phase := AtEnd;
    } else {
      phase := InFinalEnd(k + r.used);
      assert CRLF[k + r.used..] + [] == CRLF[k + r.used..];
    }
  }

  /** Any pass: the decoder stays at some place of the same message. */
  lemma StepAt(
    st: State, phase: Phase, done: seq<Byte>, todo: seq<Chunk>, last: seq<Byte>, rest: seq<Byte>, input: seq<Byte>)
    returns (phase': Phase, done': seq<Byte>, todo': seq<Chunk>)
    requires At(st, phase, done, todo, last, rest) && input <= rest
    requires WellFormed(todo) && Announces(last, 0)
    ensures var (st', n) := Step(st, input);
            n <= |rest| && At(st', phase', done', todo', last, rest[n..])
    ensures WellFormed(todo') && done' + Contents(todo') == done + Contents(todo)
    ensures todo' == todo || (todo != [] && todo' == todo[1..])
  {
    hide Step, At, Announces;
    done', todo' := done, todo;
    match phase
    case InHeader(k) => phase' := StepHeader(st, k, done, todo, last, rest, input);
    case InData(k) =>
      phase', done', todo' := StepData(st, k, done, todo, last, rest, input);
      WellFormedTail(todo);
    case InEnd(k) => phase' := StepEnd(st, k, done, todo, last, rest, input);
    case InFinalEnd(k) =>
      NothingToDo(st, phase, done, todo, last, rest);
      phase' := StepFinalEnd(st, k, done, last, rest, input);
    case AtEnd =>
      NothingToDo(st, phase, done, todo, last, rest);
      phase' := AtEnd;
      StepStays(st, done, todo, last, rest, input);
  }

  lemma WellFormedTail(todo: seq<Chunk>)
    requires WellFormed(todo)
    ensures todo != [] ==> WellFormed(todo[1..])
  {
  }

  lemma NothingToDo(st: State, phase: Phase, done: seq<Byte>, todo: seq<Chunk>, last: seq<Byte>, rest: seq<Byte>)
    requires At(st, phase, done, todo, last, rest) && (phase.InFinalEnd? || phase.AtEnd?)
    ensures todo == []
  {
  }

  lemma StepStays(st: State, done: seq<Byte>, todo: seq<Chunk>, last: seq<Byte>, rest: seq<Byte>, input: seq<Byte>)
    requires At(st, AtEnd, done, todo, last, rest) && input <= rest
    ensures Step(st, input) == (st, 0) && rest[0..] == rest
  {
  }

  // ---- Whole runs ----

  /** Passes over `wire`, the socket having at most `slices[i]` bytes at pass `i`. */
  function RunPasses(st: State, wire: seq<Byte>, slices: seq<nat>): (State, seq<Byte>)
    decreases |slices|
  {
    if slices == [] then (st, wire)
    else
      var (st', n) := Step(st, wire[..Min(slices[0], |wire|)]);
      RunPasses(st', wire[n..], slices[1..])
  }

  /**
    However the bytes arrive, a pass never fails and the body is a prefix of the contents; once the
    decoder is ready, the body is the contents, of the announced length, and nothing is left over.
   */
  lemma {:induction false} RunAt(
    st: State, phase: Phase, done: seq<Byte>, todo: seq<Chunk>, last: seq<Byte>, wire: seq<Byte>, lacking: seq<Byte>,
    slices: seq<nat>)
    returns (phase': Phase, done': seq<Byte>, i: nat)
    requires At(st, phase, done, todo, last, wire + lacking)
    requires WellFormed(todo) && Announces(last, 0)
    ensures i <= |todo|
    ensures var (st', rest) := RunPasses(st, wire, slices);
            At(st', phase', done', todo[i..], last, rest + lacking)
    ensures WellFormed(todo[i..]) && done' + Contents(todo[i..]) == done + Contents(todo)
    ensures lacking == [] && (forall i :: 0 <= i < |slices| ==> slices[i] > 0) && |slices| >= |wire| ==>
              RunPasses(st, wire, slices).0.status == Ready
    decreases |slices|
  {
    hide Step, At, Announces, WellFormed, Contents;
    if slices == [] {
      phase', done', i := phase, done, 0;
      assert todo[0..] == todo;
      if lacking == [] && |wire| == 0 {
        assert wire + lacking == wire;
        OnlyReadyIsEmpty(st, phase, done, todo, last, wire);
      }
    } else {
      var input := wire[..Min(slices[0], |wire|)];
      var (st1, n) := Step(st, input);
      assert input <= wire + lacking;
      var phase1, done1, todo1 := StepAt(st, phase, done, todo, last, wire + lacking, input);
      assert (wire + lacking)[n..] == wire[n..] + lacking;
      phase', done', i := RunAt(st1, phase1, done1, todo1, last, wire[n..], lacking, slices[1..]);
      if todo1 != todo {
        assert todo1[i..] == todo[i + 1..];
        i := i + 1;
      }
      if lacking == [] && (forall i :: 0 <= i < |slices| ==> slices[i] > 0) && |slices| >= |wire| {
        assert wire + lacking == wire;
        assert forall i :: 0 <= i < |slices| - 1 ==> slices[1..][i] == slices[i + 1];
        PassProgress(st, phase, done, todo, last, wire, input);
        ReadyStays(st1, wire[n..], slices[1..]);
      }
    }
  }

  lemma OnlyReadyIsEmpty(st: State, phase: Phase, done: seq<Byte>, todo: seq<Chunk>, last: seq<Byte>, rest: seq<Byte>)
    requires At(st, phase, done, todo, last, rest)
    ensures rest == [] <==> st.status == Ready
  {
  }

  lemma AtIsSafe(st: State, phase: Phase, done: seq<Byte>, todo: seq<Chunk>, last: seq<Byte>, rest: seq<Byte>)
    requires At(st, phase, done, todo, last, rest)
    ensures Safe(st) && !st.failed
  {
  }

  lemma PassProgress(
    st: State, phase: Phase, done: seq<Byte>, todo: seq<Chunk>, last: seq<Byte>, rest: seq<Byte>, input: seq<Byte>)
    requires At(st, phase, done, todo, last, rest) && input <= rest && (rest != [] ==> input != [])
    requires WellFormed(todo) && Announces(last, 0)
    ensures st.status == Ready ==> Step(st, input) == (st, 0)
    ensures st.status != Ready ==> Step(st, input).1 > 0
  {
    hide At, Announces, WellFormed;
    OnlyReadyIsEmpty(st, phase, done, todo, last, rest);
    AtIsSafe(st, phase, done, todo, last, rest);
    StepIsSafe(st, input);
    var phase1, done1, todo1 := StepAt(st, phase, done, todo, last, rest, input);
    var (st1, n) := Step(st, input);
    AtIsSafe(st1, phase1, done1, todo1, last, rest[n..]);
  }

  lemma {:induction false} ReadyStays(st: State, wire: seq<Byte>, slices: seq<nat>)
    ensures st.status == Ready ==> RunPasses(st, wire, slices).0.status == Ready
    decreases |slices|
  {
    if slices != [] && st.status == Ready {
      assert wire[0..] == wire;
      ReadyStays(st, wire, slices[1..]);
    }
  }

  /** Exactness: from the start of a well-formed message, under every fragmentation. */
  lemma DecodesExactly(chunks: seq<Chunk>, last: seq<Byte>, slices: seq<nat>)
    requires WellFormed(chunks) && Announces(last, 0)
    ensures var (st, rest) := RunPasses(START, Wire(chunks, last), slices);
            && !st.failed && |st.body| == st.size && st.body <= Contents(chunks)
            && (st.status == Ready ==> st.body == Contents(chunks) && st.total == st.size && rest == [])
            && ((forall i :: 0 <= i < |slices| ==> slices[i] > 0) && |slices| >= |Wire(chunks, last)| ==>
                  st.status == Ready)
  {
    hide At, Announces, WellFormed, Contents, RunPasses;
    AtStart(chunks, last);
    var wire := Wire(chunks, last);
    assert wire + [] == wire;
    var phase, done, i := RunAt(START, InHeader(0), [], chunks, last, wire, [], slices);
    var (st, rest) := RunPasses(START, wire, slices);
    assert rest + [] == rest;
    BodySoFar(st, phase, done, chunks[i..], last, rest);
    assert [] + Contents(chunks) == Contents(chunks);
  }

  lemma AtStart(chunks: seq<Chunk>, last: seq<Byte>)
    requires WellFormed(chunks) && Announces(last, 0)
    ensures At(START, InHeader(0), [], chunks, last, Wire(chunks, last))
  {
    hide Announces, AnnouncedSize;
    WireHeader(chunks, last);
    assert NextHeader(chunks, last)[..0] == [] && NextHeader(chunks, last)[0..] == NextHeader(chunks, last);
  }

  lemma BodySoFar(st: State, phase: Phase, done: seq<Byte>, todo: seq<Chunk>, last: seq<Byte>, rest: seq<Byte>)
    requires At(st, phase, done, todo, last, rest)
    ensures !st.failed && st.size == |st.body| && st.body <= done + Contents(todo)
    ensures st.status == Ready ==> st.body == done + Contents(todo) && st.total == st.size && rest == []
  {
    hide NoCr, Wire;
    if phase.InData? {
      var data := todo[0].data;
      assert done + Contents(todo) == done + data[..phase.k] + (data[phase.k..] + Contents(todo[1..]));
    }
  }

  // ---- Messages cut short ----

  /** Is the place behind the first `n` bytes of the message inside the data of a chunk? */
  predicate InsideData(chunks: seq<Chunk>, n: int) {
    if chunks == [] then false
    else
      var header, data := |chunks[0].header| + |CRLF|, |chunks[0].data|;
      header <= n && (n < header + data || InsideData(chunks[1..], n - header - data - |CRLF|))
  }

  /** Seen from chunk `i` on, the place is the same. */
  lemma {:induction false} InsideFrom(chunks: seq<Chunk>, last: seq<Byte>, i: nat, rest: nat)
    requires i <= |chunks| && rest <= |Wire(chunks[i..], last)|
    ensures rest <= |Wire(chunks, last)|
    ensures InsideData(chunks, |Wire(chunks, last)| - rest)
            <==> InsideData(chunks[i..], |Wire(chunks[i..], last)| - rest)
    decreases i
  {
    if i == 0 {
      assert chunks[0..] == chunks;
    } else {
      assert chunks[1..][i - 1..] == chunks[i..];
      InsideFrom(chunks[1..], last, i - 1, rest);
    }
  }

  lemma WireLength(todo: seq<Chunk>, last: seq<Byte>)
    ensures |Wire(todo, last)| ==
              if todo == [] then |last| + 4
              else |todo[0].header| + |todo[0].data| + 4 + |Wire(todo[1..], last)|
  {
  }

  /** What is still to come, by where the decoder is. */
  lemma RestLength(st: State, phase: Phase, done: seq<Byte>, todo: seq<Chunk>, last: seq<Byte>, rest: seq<Byte>)
    requires At(st, phase, done, todo, last, rest)
    ensures st.status == Body <==> phase.InData?
    ensures match phase
            case InHeader(k) =>
              |rest| + k == |Wire(todo, last)| && (todo != [] ==> k < |todo[0].header| + |CRLF|)
            case InData(k) =>
              todo != [] && k < |todo[0].data| && |rest| + |todo[0].header| + |CRLF| + k == |Wire(todo, last)|
            case InEnd(k) => k < 2 && |rest| + k == |CRLF| + |Wire(todo, last)|
            case _ => todo == [] && |rest| <= |Wire(todo, last)|
  {
    hide NoCr, Wire;
    WireLength(todo, last);
    WireHeader(todo, last);
  }

  /** So the decoder is inside the data of a chunk exactly if the place is. */
  lemma PlaceInside(
    st: State, phase: Phase, done: seq<Byte>, chunks: seq<Chunk>, i: nat, last: seq<Byte>, rest: seq<Byte>)
    requires i <= |chunks| && At(st, phase, done, chunks[i..], last, rest) && |rest| <= |Wire(chunks, last)|
    ensures InsideData(chunks, |Wire(chunks, last)| - |rest|) <==> st.status == Body
  {
    hide At, Wire;
    var todo := chunks[i..];
    WireLength(todo, last);
    RestLength(st, phase, done, todo, last, rest);
    if phase.InEnd? {
      assert i == 0 ==> todo == chunks;
      var before := chunks[i - 1..];
      assert before[1..] == todo;
      WireLength(before, last);
      InsideFrom(chunks, last, i - 1, |rest|);
    } else {
      InsideFrom(chunks, last, i, |rest|);
    }
  }

  /**
    A message of which only the first `n` bytes arrive, and are read, before the peer closes the
    connection: this is an error exactly if the cut is inside the data of a chunk.
   */
  lemma CutMessage(chunks: seq<Chunk>, last: seq<Byte>, n: nat, slices: seq<nat>)
    requires WellFormed(chunks) && Announces(last, 0) && n <= |Wire(chunks, last)|
    requires RunPasses(START, Wire(chunks, last)[..n], slices).1 == []
    ensures Close(RunPasses(START, Wire(chunks, last)[..n], slices).0).failed <==> InsideData(chunks, n)
  {
    hide At, Announces, WellFormed, Contents, RunPasses, Wire, InsideData;
    AtStart(chunks, last);
    var wire := Wire(chunks, last);
    assert wire[..n] + wire[n..] == wire;
    var phase, done, i := RunAt(START, InHeader(0), [], chunks, last, wire[..n], wire[n..], slices);
    var st := RunPasses(START, wire[..n], slices).0;
    assert [] + wire[n..] == wire[n..];
    AtIsSafe(st, phase, done, chunks[i..], last, wire[n..]);
    PlaceInside(st, phase, done, chunks, i, last, wire[n..]);
    CloseIsSafe(st);
  }

  // ---- Announcing sizes ----

  lemma {:induction false} UpToEndOf(text: seq<Byte>, ext: seq<Byte>)
    requires forall k :: 0 <= k < |text| ==> !EndsText(text[k])
    requires ext == [] || EndsText(ext[0])
    ensures UpToEnd(text + ext) == text
  {
    if text == [] {
      assert text + ext == ext;
    } else {
      assert (text + ext)[1..] == text[1..] + ext;
      UpToEndOf(text[1..], ext);
    }
  }

  lemma {:induction false} HexPrefixOf(digits: seq<Byte>)
    requires AllHex(digits)
    ensures HexPrefix(digits) == digits
  {
    if digits != [] {
      HexPrefixOf(digits[1..]);
    }
  }

  /** Hexadecimal digits below 2**31, with or without an extension, announce their value. */
  lemma HexAnnounces(digits: seq<Byte>, ext: seq<Byte>)
    requires digits != [] && AllHex(digits) && HexValue(digits) < 0x8000_0000
    requires ext == [] || EndsText(ext[0])
    ensures AnnouncedSize(digits + ext) == Some(HexValue(digits))
  {
    hide HexValue;
    assert SkipSpaces(digits + ext) == digits + ext;
    UpToEndOf(digits, ext);
    HexPrefixOf(digits);
  }

  // ---- Sizes as they are written ----

  lemma DigitRead(d: nat, upper: bool)
    requires d < 16
    ensures IsHex(HexDigitOf(d, upper)) && HexDigit(HexDigitOf(d, upper)) == d
  {
    if d < 10 {
      SmallDigitRead(d, upper);
    } else {
      LargeDigitRead(d, upper);
    }
  }

  lemma SmallDigitRead(d: nat, upper: bool)
    requires d < 10
    ensures IsHex(HexDigitOf(d, upper)) && HexDigit(HexDigitOf(d, upper)) == d
  {
  }

  lemma LargeDigitRead(d: nat, upper: bool)
    requires 10 <= d < 16
    ensures IsHex(HexDigitOf(d, upper)) && HexDigit(HexDigitOf(d, upper)) == d
  {
  }

  lemma HexAppend(text: seq<Byte>, c: Byte)
    requires AllHex(text) && IsHex(c)
    ensures AllHex(text + [c]) && HexValue(text + [c]) == 16 * HexValue(text) + HexDigit(c)
  {
    hide HexDigit;
    assert (text + [c])[..|text|] == text;
  }

  lemma NothingRead()
    ensures AllHex([]) && HexValue([]) == 0
  {
  }

  /** A number written to base 16, behind any zeros, is read as it was. */
  lemma {:induction false} HexRead(zeros: nat, n: nat, upper: Cases)
    ensures var text := Zeros(zeros) + Hex(n, upper);
            AllHex(text) && HexValue(text) == n
    decreases n
  {
    hide HexDigit, HexDigitOf, HexValue, AllHex, Before, Zeros;
    DigitRead(n % 16, upper(0));
    var front := if n < 16 then [] else Hex(n / 16, Before(upper));
    if n < 16 {
      ZerosRead(zeros);
      assert Zeros(zeros) + front == Zeros(zeros);
    } else {
      HexRead(zeros, n / 16, Before(upper));
    }
    var last := [HexDigitOf(n % 16, upper(0))];
    HexAppend(Zeros(zeros) + front, last[0]);
    assert Zeros(zeros) + (front + last) == Zeros(zeros) + front + last;
  }

  lemma {:induction false} ZerosRead(zeros: nat)
    ensures AllHex(Zeros(zeros)) && HexValue(Zeros(zeros)) == 0
  {
    hide HexValue, AllHex;
    if zeros == 0 {
      NothingRead();
    } else {
      ZerosRead(zeros - 1);
      DigitRead(0, false);
      HexAppend(Zeros(zeros - 1), 48);
    }
  }

  function Zeros(n: nat): seq<Byte> {
    if n == 0 then [] else Zeros(n - 1) + [48]
  }

  /** `r` is the remainder of `x` modulo 2**32 as a signed `int`. */
  predicate IsInt(r: int, x: int) {
    -0x8000_0000 <= r < 0x8000_0000 && (r - x) % 0x1_0000_0000 == 0
  }

  lemma SignedIsInt(x: int)
    ensures IsInt(Signed(x), x) && Signed(ULONG_MAX) == -1
  {
  }

  /**
    `sscanf` on a number with or without a sign and `0x`: the number modulo 2**32 as a signed `int`,
    and -1 for whatever does not fit into 64 bits.
   */
  lemma ScansWritten(sign: seq<Byte>, prefix: seq<Byte>, zeros: nat, n: nat, upper: Cases)
    requires sign in [[], [43], [45]] && prefix in [[], [48, 120], [48, 88]]
    ensures var r := ScanHex(sign + prefix + (Zeros(zeros) + Hex(n, upper)));
            && r.Some?
            && (n < 0x1_0000_0000_0000_0000 ==> IsInt(r.value, if sign == [45] then 0 - n else n))
            && (n >= 0x1_0000_0000_0000_0000 ==> r.value == -1)
  {
    hide HexValue, AllHex, Hex, Zeros, Signed, IsInt, ScanHex;
    HexRead(zeros, n, upper);
    var digits := Zeros(zeros) + Hex(n, upper);
    Scanned(sign, prefix, digits);
    SignedIsInt(n);
    SignedIsInt(0 - n);
  }

  lemma Scanned(sign: seq<Byte>, prefix: seq<Byte>, digits: seq<Byte>)
    requires sign in [[], [43], [45]] && prefix in [[], [48, 120], [48, 88]]
    requires digits != [] && AllHex(digits)
    ensures var n := HexValue(digits);
            ScanHex(sign + prefix + digits) ==
              Some(Signed(if n > ULONG_MAX then ULONG_MAX else if sign == [45] then 0 - n else n))
  {
    hide HexValue, AllHex, Signed, BehindSign, BehindPrefix, HexPrefix;
    HexPrefixOf(digits);
    FirstIsHex(digits);
    Unprefixed(prefix, digits);
    Unsigned(sign, prefix + digits);
    assert sign + prefix + digits == sign + (prefix + digits);
  }

  lemma Unprefixed(prefix: seq<Byte>, digits: seq<Byte>)
    requires prefix in [[], [48, 120], [48, 88]] && digits != []
    requires digits[0] !in [43, 45] && (|digits| >= 2 ==> digits[1] !in [88, 120])
    ensures var t := prefix + digits;
            BehindPrefix(t) == digits && t[0] != 43 && t[0] != 45
  {
    if prefix == [] {
      assert prefix + digits == digits;
    } else {
      assert (prefix + digits)[2..] == digits;
    }
  }

  lemma Unsigned(sign: seq<Byte>, t: seq<Byte>)
    requires sign in [[], [43], [45]] && t != [] && t[0] != 43 && t[0] != 45
    ensures BehindSign(sign + t) == t
    ensures (sign + t)[0] == 45 <==> sign == [45]
  {
    if sign == [] {
      assert sign + t == t;
    } else {
      assert (sign + t)[1..] == t;
    }
  }

  lemma FirstIsHex(digits: seq<Byte>)
    requires digits != [] && AllHex(digits)
    ensures digits[0] !in [43, 45] && (|digits| >= 2 ==> digits[1] !in [88, 120])
  {
  }

  /** How a size is written: blanks and zeros in front, the cases of the digits, and what stands behind them. */
  datatype Spelling = Spelling(indent: seq<Byte>, zeros: nat, upper: Cases, behind: seq<Byte>)

  function SizeLine(n: nat, how: Spelling): seq<Byte> {
    how.indent + (Zeros(how.zeros) + Hex(n, how.upper) + how.behind)
  }

  /** A blank, a semicolon or a NUL ends the number, the line has no end of line in it, and fits into 31 characters. */
  predicate Plain(n: nat, how: Spelling) {
    && n < 0x8000_0000
    && (forall k :: 0 <= k < |how.indent| ==> how.indent[k] in [9, 11, 12, 32])
    && (how.behind == [] || how.behind[0] in [0, 32, 59])
    && 10 !in how.behind && 13 !in how.behind
    && |SizeLine(n, how)| < 31
  }

  /** Such a line announces the number. */
  lemma LineAnnounces(n: nat, how: Spelling)
    requires Plain(n, how)
    ensures AnnouncedSize(SizeLine(n, how)) == Some(n)
    ensures Announces(SizeLine(n, how), n)
  {
    hide HexValue, AnnouncedSize, Hex, Zeros;
    HexRead(how.zeros, n, how.upper);
    var digits := Zeros(how.zeros) + Hex(n, how.upper);
    HexAnnounces(digits, how.behind);
    Indented(how.indent, digits + how.behind);
    NoEnds(how.indent, digits, how.behind);
    NoneTaken(SizeLine(n, how));
  }

  lemma {:induction false} Indented(indent: seq<Byte>, text: seq<Byte>)
    requires forall k :: 0 <= k < |indent| ==> indent[k] in [9, 11, 12, 32]
    ensures AnnouncedSize(indent + text) == AnnouncedSize(text)
  {
    hide ScanHex, UpToEnd;
    if indent == [] {
      assert indent + text == text;
    } else {
      Indented(indent[1..], text);
      assert (indent + text)[1..] == indent[1..] + text;
    }
  }

  lemma NoEnds(indent: seq<Byte>, digits: seq<Byte>, behind: seq<Byte>)
    requires forall k :: 0 <= k < |indent| ==> indent[k] in [9, 11, 12, 32]
    requires AllHex(digits) && 10 !in behind && 13 !in behind
    ensures 10 !in indent + (digits + behind) && 13 !in indent + (digits + behind)
  {
    forall k | 0 <= k < |digits|
      ensures digits[k] != 10 && digits[k] != 13
    {
      assert IsHex(digits[k]);
    }
  }

  lemma {:induction false} NoneTaken(s: seq<Byte>)
    requires 13 !in s
    ensures NoCr(s) == s
  {
    if s != [] {
      NoneTaken(s[..|s| - 1]);
      assert s == s[..|s| - 1] + [s[|s| - 1]];
    }
  }

  /** The message that carries `parts`, byte by byte: sizes, ends of line, data, and a size of zero. */
  function Message(parts: seq<seq<Byte>>, sizes: seq<Spelling>, last: Spelling): seq<Byte>
    requires |sizes| == |parts|
  {
    if parts == [] then SizeLine(0, last) + [13, 10, 13, 10]
    else SizeLine(|parts[0]|, sizes[0]) + [13, 10] + parts[0] + [13, 10] + Message(parts[1..], sizes[1..], last)
  }

  function Flat(parts: seq<seq<Byte>>): seq<Byte> {
    if parts == [] then [] else parts[0] + Flat(parts[1..])
  }

  ghost predicate IsWritten(parts: seq<seq<Byte>>, sizes: seq<Spelling>, last: Spelling)
    requires |sizes| == |parts|
  {
    && Plain(0, last)
    && forall k :: 0 <= k < |parts| ==> parts[k] != [] && Plain(|parts[k]|, sizes[k])
  }

  function Chunked(parts: seq<seq<Byte>>, sizes: seq<Spelling>): seq<Chunk>
    requires |sizes| == |parts|
  {
    if parts == [] then []
    else [Chunk(SizeLine(|parts[0]|, sizes[0]), parts[0])] + Chunked(parts[1..], sizes[1..])
  }

  /** Every message written that way is well-formed. */
  lemma {:induction false} WrittenWellFormed(parts: seq<seq<Byte>>, sizes: seq<Spelling>, last: Spelling)
    requires |sizes| == |parts| && IsWritten(parts, sizes, last)
    ensures WellFormed(Chunked(parts, sizes)) && Announces(SizeLine(0, last), 0)
    ensures Wire(Chunked(parts, sizes), SizeLine(0, last)) == Message(parts, sizes, last)
    ensures Contents(Chunked(parts, sizes)) == Flat(parts)
  {
    hide SizeLine, Plain, Announces;
    LineAnnounces(0, last);
    if parts == [] {
      assert SizeLine(0, last) + CRLF + CRLF == SizeLine(0, last) + [13, 10, 13, 10];
    } else {
      LineAnnounces(|parts[0]|, sizes[0]);
      WrittenWellFormed(parts[1..], sizes[1..], last);
      var chunks := Chunked(parts, sizes);
      assert chunks[1..] == Chunked(parts[1..], sizes[1..]);
      var line, rest := SizeLine(|parts[0]|, sizes[0]), Message(parts[1..], sizes[1..], last);
      assert line + CRLF + (parts[0] + CRLF + rest) == line + [13, 10] + parts[0] + [13, 10] + rest;
    }
  }

  // ---- The decoder as the C code runs it ----

  /** The slot of a chunked transfer. */
  class Slot {
    var status: Status
    var size: int
    var totalsize: int
    var adr: seq<Byte>
    var chunkAdr: seq<Byte>
    var chunkBlocksize: int
    var failed: bool

    /** The fields as a value. */
    function View(): State
      reads this
    {
      State(status, size, totalsize, adr, chunkAdr, chunkBlocksize, failed)
    }

    /** The beginning of a chunked body. */
    constructor ()
      ensures View() == START
    {
      status, size, totalsize, adr := ChunkWait, 0, -1, [];
      chunkAdr, chunkBlocksize, failed := [], 0, false;
    }

    /** `http_xfread1(.., -1)` into the line buffer. */
    method FetchLine(input: seq<Byte>) returns (used: nat, error: bool)
      modifies `chunkAdr
      ensures LineRead(chunkAdr, used, error) == ReadLine(old(chunkAdr), input, 0, 256)
      ensures used <= |input|
    {
      used := 0;
      var count := 256;
      while count > 0 && used < |input|
        invariant 0 <= count && used <= |input|
        invariant ReadLine(chunkAdr, input, used, count) == ReadLine(old(chunkAdr), input, 0, 256)
      {
        if |chunkAdr| >= 8190 {
          return used, true;
        }
        var c := input[used];
        used := used + 1;
        if c == LF {
          chunkAdr := chunkAdr + [LF];
          return used, false;
        }
        if c != CR {
          chunkAdr := chunkAdr + [c];
        }
        count := count - 1;
      }
      error := false;
    }

    /** The end of a transfer. */
    method End(bad: bool)
      modifies `status, `adr, `failed
      ensures View() == Finish(old(View()), bad)
    {
      status := Ready;
      if bad || (totalsize >= 0 && totalsize != size) {
        adr, failed := [], true;
      }
    }

    /** A complete chunk line. */
    method HandleLine()
      requires chunkAdr != [] && (status == ChunkCr || status == ChunkWait)
      modifies this
      ensures View() == TakeLine(old(View()))
    {
      hide LineText, ScanHex;
      var chunkSize := -1;
      if |chunkAdr| < 32 {
        var text := StripLine(chunkAdr[..|chunkAdr| - 1]);
        if totalsize < 0 {
          totalsize := 0;
        }
        if status == ChunkWait {
          var n := ScanHex(text);
          if n.Some? {
            chunkSize := n.value;
            chunkBlocksize := if chunkSize > 0 then chunkSize else -1;
            totalsize := totalsize + chunkSize;
          }
        } else if text == [] {
          chunkSize := if chunkBlocksize > 0 then chunkBlocksize else if chunkBlocksize == -1 then 0 else 1;
        }
      }
      chunkAdr := [];
      if status == ChunkCr && chunkSize > 0 {
        status := ChunkWait;
      } else if status == ChunkWait && chunkSize == 0 {
        status := ChunkCr;
      } else if status == ChunkWait && chunkSize >= 0 {
        status := Body;
      } else {
        End(chunkSize < 0);
      }
    }

    /** One pass of the download loop on this slot. */
    method Pass(input: seq<Byte>) returns (used: nat)
      requires status == Body ==> size <= totalsize
      modifies this
      ensures (View(), used) == Step(old(View()), input)
    {
      hide TakeLine, ReadLine;
      used := 0;
      if status == ChunkWait || status == ChunkCr {
        var error;
        used, error := FetchLine(input);
        if error {
          status, failed := Ready, true;
        } else if used > 0 && |chunkAdr| > 0 && chunkAdr[|chunkAdr| - 1] == LF {
          HandleLine();
        }
      } else if status == Body {
        used := Min(|input|, totalsize - size);
        adr := adr + input[..used];
        size := size + used;
        if size == totalsize {
          status, chunkAdr := ChunkCr, [];
        }
      }
    }
  }

  /** The loops that strip a chunk line: leading spaces, then everything from an extension on. */
  method StripLine(line: seq<Byte>) returns (text: seq<Byte>)
    ensures text == LineText(line)
  {
    var i := 0;
    while i < |line| && IsSpace(line[i])
      invariant i <= |line|
      invariant SkipSpaces(line[i..]) == SkipSpaces(line)
    {
      i := i + 1;
    }
    text := [];
    var rest := line[i..];
    var k := 0;
    while k < |rest| && !EndsText(rest[k])
      invariant k <= |rest|
      invariant text + UpToEnd(rest[k..]) == UpToEnd(rest)
    {
      text := text + [rest[k]];
      k := k + 1;
    }
  }

  /**
    A whole transfer of the bytes in `data`: `slices` says how many of them the socket has at each
    pass.  The decoder ends with the contents of the message, whatever the fragmentation.
   */
  method Transfer(data: seq<Byte>, slices: seq<nat>, ghost chunks: seq<Chunk>, ghost last: seq<Byte>)
    returns (body: seq<Byte>, ready: bool)
    requires WellFormed(chunks) && Announces(last, 0) && data == Wire(chunks, last)
    ensures body <= Contents(chunks)
    ensures ready ==> body == Contents(chunks)
    ensures (forall i :: 0 <= i < |slices| ==> slices[i] > 0) && |slices| >= |data| ==> ready
  {
    hide Step, Announces, WellFormed, Wire, Contents;
    var slot := new Slot();
    var wire := data;
    var i := 0;
    DecodesExactly(chunks, last, slices);
    while i < |slices|
      invariant i <= |slices|
      invariant Safe(slot.View())
      invariant RunPasses(slot.View(), wire, slices[i..]) == RunPasses(START, data, slices)
    {
      var input := wire[..Min(slices[i], |wire|)];
      StepIsSafe(slot.View(), input);
      assert slices[i..][1..] == slices[i + 1..];
      var used := slot.Pass(input);
      wire := wire[used..];
      i := i + 1;
    }
    body, ready := slot.adr, slot.status == Ready;
  }

  /** The transfer of a message in which every size is a number written to base 16. */
  method TransferWritten(
    data: seq<Byte>, slices: seq<nat>, ghost parts: seq<seq<Byte>>, ghost sizes: seq<Spelling>, ghost last: Spelling)
    returns (body: seq<Byte>, ready: bool)
    requires |sizes| == |parts| && IsWritten(parts, sizes, last) && data == Message(parts, sizes, last)
    ensures body <= Flat(parts)
    ensures ready ==> body == Flat(parts)
    ensures (forall i :: 0 <= i < |slices| ==> slices[i] > 0) && |slices| >= |data| ==> ready
  {
    hide IsWritten, Message, Chunked, WellFormed, Announces, SizeLine;
    WrittenWellFormed(parts, sizes, last);
    body, ready := Transfer(data, slices, Chunked(parts, sizes), SizeLine(0, last));
  }
}
