/**
  The slot table of the download engine: which slot owns which socket, and how idle keep-alive
  connections move between slots.
 */
module Sockets {
  const STATUS_ALIVE := -103
  const STATUS_FREE := -1
  const STATUS_READY := 0
  const STATUS_CONNECTING := 100
  const STATUS_WAIT_DNS := 101
  const STATUS_FTP_TRANSFER := 1000

  const INVALID_SOCKET := -1
  const LOCAL_SOCKET_ID := -2

  /** What `back_connxfr` moves from one slot to another. */
  datatype Connection = Connection(soc: int, keepAlive: bool, keepAliveMax: int, keepAliveT: int)

  const NO_CONNECTION := Connection(INVALID_SOCKET, false, 0, 0)

  /** What the cleaning of finished slots looks at; `toDisk` is the answer of `slot_can_be_finalized`. */
  datatype File = File(
    path: string, testMode: bool, named: bool, isTest: bool, size: int, toDisk: bool, finalized: bool, locked: bool)

  const NO_FILE := File("", false, false, false, 0, false, false, false)

  datatype Slot = Slot(
    status: int, conn: Connection, isFile: bool, statuscode: int, trailers: bool, kaTimeStart: int,
    address: string, file: File)

  /** `back_clear_entry` leaves a slot like this. */
  const FREE_SLOT := Slot(STATUS_FREE, NO_CONNECTION, false, 0, false, 0, "", NO_FILE)

  /** `ftpProxy`: a proxy is in use, for FTP too. */
  datatype Options = Options(noKeepAlive: bool, maxConn: real, maxSoc: int, ftpProxy: bool)

  predicate Active(s: Slot) {
    s.status > 0
  }

  function Lower(c: char): char {
    if 'A' <= c <= 'Z' then c + 32 as char else c
  }

  /** `strfield2`: equal up to the case of letters, and not empty. */
  predicate SameAddress(a: string, b: string) {
    a != "" && |a| == |b| && forall k :: 0 <= k < |a| ==> Lower(a[k]) == Lower(b[k])
  }

  /** The same text, but for the case of the letters A to Z. */
  predicate EqualButCase(a: string, b: string) {
    && |a| == |b|
    && forall k :: 0 <= k < |a| ==>
         || a[k] == b[k]
         || ('A' <= a[k] <= 'Z' && b[k] == a[k] + 32 as char)
         || ('A' <= b[k] <= 'Z' && a[k] == b[k] + 32 as char)
  }

  lemma SameAddressMeans(a: string, b: string)
    ensures SameAddress(a, b) <==> a != "" && EqualButCase(a, b)
  {
  }

  const FTP: string := "ftp://"

  /** `strfield(address, "ftp://")`. */
  predicate IsFtp(address: string) {
    |address| >= |FTP| && SameAddress(address[..|FTP|], FTP)
  }

  lemma FtpMeans(address: string)
    ensures IsFtp(address) <==> exists rest :: IsPrefixed(address, rest)
  {
    SameAddressMeans(if |address| >= 6 then address[..6] else "", FTP);
    if IsFtp(address) {
      assert address == address[..6] + address[6..];
      assert IsPrefixed(address, address[6..]);
    }
    if rest :| IsPrefixed(address, rest) {
      var scheme :| EqualButCase(scheme, "ftp://") && address == scheme + rest;
      assert address[..6] == scheme;
      SameAddressMeans(scheme, FTP);
    }
  }

  /** The address is `ftp://` in any case, and `rest`. */
  ghost predicate IsPrefixed(address: string, rest: string) {
    exists scheme :: EqualButCase(scheme, "ftp://") && address == scheme + rest
  }

  // ---- Ownership ----

  /** The network sockets the slots hold. */
  ghost function Held(slots: seq<Slot>): set<int> {
    set k | 0 <= k < |slots| && slots[k].conn.soc >= 0 :: slots[k].conn.soc
  }

  ghost predicate NoneShared(slots: seq<Slot>) {
    forall k, l :: 0 <= k < l < |slots| && slots[k].conn.soc >= 0 ==> slots[k].conn.soc != slots[l].conn.soc
  }

  /** Every socket opened so far is held by exactly one slot, or has been closed once, or is lost. */
  ghost predicate Owned(slots: seq<Slot>, handles: nat, closed: set<int>, lost: set<int>) {
    && NoneShared(slots)
    && closed !! lost && closed !! Held(slots) && lost !! Held(slots)
    && forall x :: x in closed || x in lost || x in Held(slots) <==> 0 <= x < handles
  }

  /** What a slot may hold in each state. */
  predicate GoodSlot(s: Slot) {
    && (s.status >= 0 || s.status == STATUS_FREE || s.status == STATUS_ALIVE)
    && s.conn.soc >= LOCAL_SOCKET_ID && (s.conn.soc == LOCAL_SOCKET_ID ==> s.isFile)
    && (s.status == STATUS_FREE ==> s.conn.soc == INVALID_SOCKET && !s.isFile)
    && (s.status == STATUS_WAIT_DNS ==> s.conn.soc == INVALID_SOCKET && !s.isFile)
    && (s.status == STATUS_ALIVE ==>
          s.conn.soc >= 0 && s.conn.keepAlive && s.conn.keepAliveMax > 1 && s.kaTimeStart != 0 && !s.isFile)
  }

  ghost predicate AllGood(slots: seq<Slot>) {
    forall k :: 0 <= k < |slots| ==> GoodSlot(slots[k])
  }

  /** A slot with a network socket that is marked as a local file: `deletehttp` does not close the socket. */
  predicate Endangers(s: Slot) {
    s.conn.soc >= 0 && s.isFile
  }

  ghost predicate FilesApart(slots: seq<Slot>) {
    forall k :: 0 <= k < |slots| ==> !Endangers(slots[k])
  }

  /** The sockets in danger. */
  ghost function Marked(slots: seq<Slot>): set<int> {
    set k | 0 <= k < |slots| && Endangers(slots[k]) :: slots[k].conn.soc
  }

  /** The sockets `deletehttp` closes and the ones it forgets: a slot marked as a file is not closed. */
  ghost function ClosedBy(s: Slot): set<int> {
    if s.conn.soc >= 0 && !s.isFile then {s.conn.soc} else {}
  }

  ghost function LostBy(s: Slot): set<int> {
    if Endangers(s) then {s.conn.soc} else {}
  }

  lemma MarkedSlot(slots: seq<Slot>, k: nat)
    requires k < |slots|
    ensures LostBy(slots[k]) <= Marked(slots)
  {
  }

  lemma NoneMarked(slots: seq<Slot>)
    ensures FilesApart(slots) <==> Marked(slots) == {}
    ensures Marked(slots) <= Held(slots)
  {
    if !FilesApart(slots) {
      var k :| 0 <= k < |slots| && Endangers(slots[k]);
      assert slots[k].conn.soc in Marked(slots);
    }
  }

  /** What changing slot `p` does to the sockets in danger. */
  lemma MarkedUpdate(slots: seq<Slot>, p: nat, s: Slot)
    requires p < |slots| && NoneShared(slots)
    ensures Marked(slots[p := s]) == Marked(slots) - LostBy(slots[p]) + LostBy(s)
  {
    var after := slots[p := s];
    forall x | x in Marked(slots) - LostBy(slots[p])
      ensures x in Marked(after)
    {
      var k :| 0 <= k < |slots| && Endangers(slots[k]) && slots[k].conn.soc == x;
      MarkedSlot(after, k);
    }
    MarkedSlot(after, p);
    forall x | x in Marked(after) && x !in LostBy(s)
      ensures x in Marked(slots) - LostBy(slots[p])
    {
      var k :| 0 <= k < |after| && Endangers(after[k]) && after[k].conn.soc == x;
      MarkedSlot(slots, k);
    }
  }

  lemma HeldSlot(slots: seq<Slot>, k: nat)
    requires k < |slots| && slots[k].conn.soc >= 0
    ensures slots[k].conn.soc in Held(slots)
  {
  }

  /** Dropping the socket of slot `p`. */
  lemma Dropping(slots: seq<Slot>, p: nat, s: Slot)
    requires p < |slots| && NoneShared(slots) && s.conn.soc < 0
    ensures NoneShared(slots[p := s])
    ensures Held(slots[p := s]) == Held(slots) - {slots[p].conn.soc}
    ensures slots[p].conn.soc >= 0 ==> slots[p].conn.soc in Held(slots)
    ensures slots[p].conn.soc < 0 ==> slots[p].conn.soc !in Held(slots)
  {
    var after := slots[p := s];
    forall x | x in Held(slots) && x != slots[p].conn.soc
      ensures x in Held(after)
    {
      var k :| 0 <= k < |slots| && slots[k].conn.soc == x;
      HeldSlot(after, k);
    }
    forall x | x in Held(after)
      ensures x in Held(slots) && x != slots[p].conn.soc
    {
      var k :| 0 <= k < |slots| && after[k].conn.soc == x && x >= 0;
      HeldSlot(slots, k);
    }
  }

  /** Giving slot `p` a socket no slot holds. */
  lemma Taking(slots: seq<Slot>, p: nat, s: Slot)
    requires p < |slots| && NoneShared(slots) && slots[p].conn.soc < 0 <= s.conn.soc && s.conn.soc !in Held(slots)
    ensures NoneShared(slots[p := s])
    ensures Held(slots[p := s]) == Held(slots) + {s.conn.soc}
  {
    var after := slots[p := s];
    forall k | 0 <= k < |slots| && slots[k].conn.soc >= 0
      ensures slots[k].conn.soc != s.conn.soc && slots[k].conn.soc in Held(after)
    {
      HeldSlot(slots, k);
      HeldSlot(after, k);
    }
    HeldSlot(after, p);
  }

  /** Slot `p` is given up: its socket is closed, or lost if the slot is marked as a file. */
  lemma Closing(slots: seq<Slot>, p: nat, s: Slot, handles: nat, closed: set<int>, lost: set<int>)
    requires p < |slots| && Owned(slots, handles, closed, lost) && s.conn.soc < 0
    ensures Owned(slots[p := s], handles, closed + ClosedBy(slots[p]), lost + LostBy(slots[p]))
    ensures Marked(slots[p := s]) == Marked(slots) - LostBy(slots[p])
  {
    Dropping(slots, p, s);
    MarkedUpdate(slots, p, s);
  }

  /** The connection of slot `i` moves to slot `p`, which has none. */
  lemma Moving(slots: seq<Slot>, i: nat, p: nat, from: Slot, to: Slot, handles: nat, closed: set<int>, lost: set<int>)
    requires i < |slots| && p < |slots| && i != p && Owned(slots, handles, closed, lost)
    requires slots[p].conn.soc < 0 && from.conn.soc < 0 && to.conn.soc == slots[i].conn.soc >= 0
    ensures Owned(slots[i := from][p := to], handles, closed, lost)
    ensures Marked(slots[i := from][p := to]) == Marked(slots) - LostBy(slots[i]) + LostBy(to)
  {
    Dropping(slots, i, from);
    MarkedUpdate(slots, i, from);
    Taking(slots[i := from], p, to);
    MarkedUpdate(slots[i := from], p, to);
  }

  /** A slot changes, but not its socket. */
  lemma Keeping(slots: seq<Slot>, p: nat, s: Slot, handles: nat, closed: set<int>, lost: set<int>)
    requires p < |slots| && Owned(slots, handles, closed, lost) && s.conn.soc == slots[p].conn.soc
    ensures Owned(slots[p := s], handles, closed, lost)
    ensures Marked(slots[p := s]) == Marked(slots) - LostBy(slots[p]) + LostBy(s)
  {
    MarkedUpdate(slots, p, s);
    if s.conn.soc >= 0 {
      var none := slots[p].(conn := NO_CONNECTION);
      Dropping(slots, p, none);
      Taking(slots[p := none], p, s);
      assert slots[p := none][p := s] == slots[p := s];
    } else {
      Dropping(slots, p, s);
    }
  }

  /** A new socket for slot `p`. */
  lemma Opening(slots: seq<Slot>, p: nat, s: Slot, handles: nat, closed: set<int>, lost: set<int>)
    requires p < |slots| && Owned(slots, handles, closed, lost) && slots[p].conn.soc < 0 && s.conn.soc == handles
    requires !s.isFile
    ensures Owned(slots[p := s], handles + 1, closed, lost) && Marked(slots[p := s]) == Marked(slots)
  {
    MarkedUpdate(slots, p, s);
    assert handles !in Held(slots) && handles !in closed && handles !in lost;
    Taking(slots, p, s);
  }

  // ---- Counting ----

  predicate Counts(s: Slot) {
    Active(s) || s.status == STATUS_ALIVE
  }

  /** `back_nsoc_overall`. */
  function SocketCount(slots: seq<Slot>): nat {
    if slots == [] then 0
    else SocketCount(slots[..|slots| - 1]) + if Counts(slots[|slots| - 1]) then 1 else 0
  }

  lemma {:induction false} CountChange(slots: seq<Slot>, p: nat, s: Slot)
    requires p < |slots|
    ensures SocketCount(slots[p := s]) ==
              SocketCount(slots) - (if Counts(slots[p]) then 1 else 0) + if Counts(s) then 1 else 0
  {
    var n := |slots| - 1;
    if p < n {
      CountChange(slots[..n], p, s);
      assert slots[p := s][..n] == slots[..n][p := s];
    } else {
      assert slots[p := s][..n] == slots[..n];
    }
  }

  ghost predicate NoneAlive(slots: seq<Slot>) {
    forall k :: 0 <= k < |slots| ==> slots[k].status != STATUS_ALIVE
  }

  /** The transfers in progress are kept. */
  ghost predicate TransfersKept(before: seq<Slot>, after: seq<Slot>) {
    && |before| == |after|
    && forall k :: 0 <= k < |before| && Active(before[k]) ==> after[k] == before[k]
  }

  /** The transfers in progress are kept, and no transfer starts. */
  ghost predicate SameTransfers(before: seq<Slot>, after: seq<Slot>) {
    && TransfersKept(before, after)
    && forall k :: 0 <= k < |before| && Active(after[k]) ==> Active(before[k])
  }

  /** The slot has the connection of the other one, to the same address and since the same time. */
  predicate Continues(before: Slot, after: Slot) {
    after.conn == before.conn && after.address == before.address && after.kaTimeStart == before.kaTimeStart
  }

  ghost predicate FromSome(before: seq<Slot>, after: Slot) {
    exists j :: 0 <= j < |before| && Continues(before[j], after)
  }

  /** No socket gets to another address. */
  ghost predicate SocketsFrom(before: seq<Slot>, after: seq<Slot>) {
    forall k :: 0 <= k < |after| && after[k].conn.soc >= 0 ==> FromSome(before, after[k])
  }

  lemma SocketsStart(slots: seq<Slot>)
    ensures SocketsFrom(slots, slots)
  {
    forall k | 0 <= k < |slots|
      ensures FromSome(slots, slots[k])
    {
      assert Continues(slots[k], slots[k]);
    }
  }

  lemma SocketsSteps(a: seq<Slot>, b: seq<Slot>, c: seq<Slot>)
    requires SocketsFrom(a, b) && SocketsFrom(b, c)
    ensures SocketsFrom(a, c)
  {
    forall k | 0 <= k < |c| && c[k].conn.soc >= 0
      ensures FromSome(a, c[k])
    {
      assert FromSome(b, c[k]);
      var j :| 0 <= j < |b| && Continues(b[j], c[k]);
      assert FromSome(a, b[j]);
      var i :| 0 <= i < |a| && Continues(a[i], b[j]);
      assert Continues(a[i], c[k]);
    }
  }

  /** A slot that changes has no socket then, or the connection of some slot. */
  lemma SocketsOne(slots: seq<Slot>, p: nat, s: Slot)
    requires p < |slots| && (s.conn.soc >= 0 ==> FromSome(slots, s))
    ensures SocketsFrom(slots, slots[p := s])
  {
    SocketsStart(slots);
    var after := slots[p := s];
    forall k | 0 <= k < |after| && after[k].conn.soc >= 0
      ensures FromSome(slots, after[k])
    {
      assert k != p ==> after[k] == slots[k] && FromSome(slots, slots[k]);
    }
  }

  lemma SocketsMove(slots: seq<Slot>, p: nat, q: nat, from: Slot, to: Slot)
    requires p < |slots| && q < |slots| && p != q && from.conn.soc < 0 && Continues(slots[p], to)
    ensures SocketsFrom(slots, slots[p := from][q := to])
  {
    SocketsStart(slots);
    var after := slots[p := from][q := to];
    forall k | 0 <= k < |slots| && after[k].conn.soc >= 0
      ensures FromSome(slots, after[k])
    {
      assert k != p;
      assert k != q ==> after[k] == slots[k] && FromSome(slots, slots[k]);
      assert k == q ==> Continues(slots[p], after[k]);
    }
  }

  /** Transfers in progress are left alone, and exactly the sockets that leave the ones in danger are lost. */
  ghost predicate Gentle(before: seq<Slot>, after: seq<Slot>, lost: set<int>, lost': set<int>) {
    && SameTransfers(before, after)
    && Marked(after) <= Marked(before)
    && lost' + Marked(after) == lost + Marked(before)
    && SocketsFrom(before, after)
  }

  lemma GentleStart(slots: seq<Slot>, lost: set<int>)
    ensures Gentle(slots, slots, lost, lost)
  {
    SocketsStart(slots);
  }

  lemma GentleSteps(a: seq<Slot>, b: seq<Slot>, c: seq<Slot>, lost: set<int>, lost': set<int>, lost'': set<int>)
    requires Gentle(a, b, lost, lost') && Gentle(b, c, lost', lost'')
    ensures Gentle(a, c, lost, lost'')
  {
    SocketsSteps(a, b, c);
  }

  /** The socket of slot `p` leaves it, or stays in a slot that is not marked. */
  lemma GentleOne(before: seq<Slot>, after: seq<Slot>, p: nat, lost: set<int>, lost': set<int>)
    requires p < |before| && SameTransfers(before, after)
    requires lost' == lost + LostBy(before[p]) && Marked(after) == Marked(before) - LostBy(before[p])
    requires SocketsFrom(before, after)
    ensures Gentle(before, after, lost, lost')
  {
    MarkedSlot(before, p);
  }

  lemma GentleMeans(before: seq<Slot>, after: seq<Slot>, lost: set<int>, lost': set<int>)
    requires Gentle(before, after, lost, lost')
    ensures SameTransfers(before, after) && (FilesApart(before) ==> FilesApart(after) && lost' == lost)
    ensures SocketsFrom(before, after)
  {
    NoneMarked(before);
    NoneMarked(after);
  }

  // ---- Keep-alive decisions ----

  /** The user, the server and the clock allow the connection to be kept. */
  predicate MayKeep(s: Slot, options: Options, now: int) {
    && !options.noKeepAlive && s.conn.keepAlive && s.conn.keepAliveMax > 1 && s.kaTimeStart != 0
    && now < s.kaTimeStart + s.conn.keepAliveT
    && (options.maxConn <= 0.0 || s.conn.keepAliveT as real > 1.0 / options.maxConn)
  }

  /** The socket is in a state to be kept; `broken` is the answer of `check_sockerror`. */
  predicate CanKeep(s: Slot, broken: bool) {
    !s.isFile && s.conn.soc != INVALID_SOCKET && s.statuscode >= 0 && !s.trailers && !broken
  }

  /** `deletehttp` leaves a slot like this. */
  function WithoutSocket(s: Slot): Slot {
    s.(conn := s.conn.(soc := INVALID_SOCKET))
  }

  /** A slot that only keeps a connection alive. */
  function AliveSlot(s: Slot): Slot {
    FREE_SLOT.(status := STATUS_ALIVE, conn := s.conn, kaTimeStart := s.kaTimeStart, address := s.address)
  }

  /** A live connection that can be used for `address`. */
  predicate Usable(s: Slot, address: string, now: int) {
    s.status == STATUS_ALIVE && SameAddress(s.address, address) && now < s.kaTimeStart + s.conn.keepAliveT
  }

  /** A live connection that has to be dropped. */
  predicate Expired(s: Slot, now: int) {
    !s.conn.keepAlive || s.conn.soc == INVALID_SOCKET || s.conn.keepAliveMax < 1
    || now >= s.kaTimeStart + s.conn.keepAliveT
  }

  /** An idle connection to the address, whatever the case of its letters, with time left. */
  predicate Serves(s: Slot, address: string, now: int) {
    && s.status == STATUS_ALIVE && address != "" && EqualButCase(s.address, address)
    && now < s.kaTimeStart + s.conn.keepAliveT
  }

  /** The slot has no socket to the address that has time left. */
  predicate NoSocketFor(s: Slot, address: string, now: int) {
    s.conn.soc >= 0 && now < s.kaTimeStart + s.conn.keepAliveT ==> !EqualButCase(s.address, address)
  }

  lemma UsableServes(s: Slot, address: string, now: int)
    ensures Usable(s, address, now) <==> Serves(s, address, now)
  {
    SameAddressMeans(s.address, address);
  }

  /** The slot has the connection of a slot with this address. */
  ghost predicate TakesFrom(before: seq<Slot>, s: Slot, address: string) {
    exists j :: 0 <= j < |before| && before[j].conn == s.conn && EqualButCase(before[j].address, address)
  }

  ghost predicate AnyUsable(slots: seq<Slot>, address: string, now: int) {
    exists k :: 0 <= k < |slots| && Usable(slots[k], address, now)
  }

  /** A slot that does not keep a connection alive does not change which connections can be used. */
  lemma StillUsable(before: seq<Slot>, p: nat, s: Slot, address: string, now: int)
    requires p < |before| && before[p].status != STATUS_ALIVE && s.status != STATUS_ALIVE
    ensures AnyUsable(before[p := s], address, now) <==> AnyUsable(before, address, now)
  {
    var after := before[p := s];
    if k :| 0 <= k < |before| && Usable(before[k], address, now) {
      assert Usable(after[k], address, now);
    }
    if k :| 0 <= k < |after| && Usable(after[k], address, now) {
      assert Usable(before[k], address, now);
    }
  }

  /** No expired connection among the first `n` slots. */
  ghost predicate NoneExpired(slots: seq<Slot>, n: nat, now: int) {
    forall k :: 0 <= k < n && k < |slots| && slots[k].status == STATUS_ALIVE ==> !Expired(slots[k], now)
  }

  /** No finished slot among the first `n` holds a socket. */
  ghost predicate NoneIdle(slots: seq<Slot>, n: nat) {
    forall k :: 0 <= k < n && k < |slots| && slots[k].status == STATUS_READY ==> slots[k].conn.soc == INVALID_SOCKET
  }

  /** `slot_can_be_cleaned`. */
  predicate CanBeCleaned(s: Slot) {
    s.status == STATUS_READY && !s.file.testMode && s.file.named && 200 <= s.statuscode < 300 && s.file.size >= 0
  }

  /** No finished file on disk among the first `n` slots. */
  ghost predicate NoneFinished(slots: seq<Slot>, n: nat) {
    forall k :: 0 <= k < n && k < |slots| && CanBeCleaned(slots[k]) ==> !slots[k].file.toDisk
  }

  /** The order the cleaning leaves. */
  ghost predicate Tidy(slots: seq<Slot>, now: int) {
    NoneExpired(slots, |slots|, now) && NoneIdle(slots, |slots|) && NoneFinished(slots, |slots|)
  }

  lemma TidyMeans(slots: seq<Slot>, now: int)
    requires Tidy(slots, now) && AllGood(slots)
    ensures forall k :: 0 <= k < |slots| && slots[k].status == -103 ==>
              && slots[k].conn.keepAlive && slots[k].conn.soc >= 0 && slots[k].conn.keepAliveMax > 1
              && now < slots[k].kaTimeStart + slots[k].conn.keepAliveT
    ensures forall k :: 0 <= k < |slots| && slots[k].status == 0 ==> slots[k].conn.soc == -1
  {
    assert forall k :: 0 <= k < |slots| ==> GoodSlot(slots[k]);
  }

  /** `slot_can_be_cached_on_disk`. */
  predicate CanBeStored(s: Slot) {
    s.status == STATUS_READY && !s.file.locked && s.file.named && !s.file.isTest
  }

  /** Not more sockets, and no connection kept alive where none was. */
  ghost predicate Fewer(before: seq<Slot>, after: seq<Slot>) {
    SocketCount(after) <= SocketCount(before) && (NoneAlive(before) ==> NoneAlive(after))
  }

  lemma FewerStart(slots: seq<Slot>)
    ensures Fewer(slots, slots)
  {
  }

  lemma FewerSteps(a: seq<Slot>, b: seq<Slot>, c: seq<Slot>)
    requires Fewer(a, b) && Fewer(b, c)
    ensures Fewer(a, c)
  {
  }

  lemma FewerClear(slots: seq<Slot>, p: nat)
    requires p < |slots|
    ensures Fewer(slots, slots[p := FREE_SLOT])
  {
    CountChange(slots, p, FREE_SLOT);
  }

  /** One socket more is allowed while links are being tested. */
  function OneMore(parsing: int, maxSoc: int): int {
    if (parsing == 2 && maxSoc >= 2) || (parsing == 1 && maxSoc >= 4) then 1 else 0
  }

  /** What happens to a socket that is opened. */
  datatype Outcome = Connected | LocalFile | Failed

  /** A slot waiting for its connection, after the attempt. */
  function Opened(s: Slot, outcome: Outcome, handle: int): Slot {
    match outcome
    case Connected => s.(conn := s.conn.(soc := handle), status := STATUS_CONNECTING)
    case LocalFile => s.(conn := s.conn.(soc := LOCAL_SOCKET_ID), isFile := true, status := 1)
    case Failed => s.(status := STATUS_READY)
  }

  /** A slot in use may change in any way that keeps its socket. */
  predicate MayProgress(before: Slot, after: Slot) {
    before.status >= 0 && after.status >= 0 && after.conn.soc == before.conn.soc && GoodSlot(after)
  }

  /** A transfer that ended with an error. */
  function Ended(s: Slot, statuscode: int): Slot {
    WithoutSocket(s).(status := STATUS_READY, statuscode := statuscode)
  }

  /** What the engine sees of the world at one moment. */
  datatype World = World(parsing: int, now: int, broken: int -> bool, duplicate: nat -> bool, written: nat -> bool)

  /** The connection is kept when its slot is released. */
  predicate Keeps(s: Slot, options: Options, now: int, broken: int -> bool) {
    MayKeep(s, options, now) && CanKeep(s, broken(s.conn.soc))
  }

  datatype Event =
    | Adding(address: string, file: File, cached: bool, outcome: Outcome)
    | Connecting(p: nat, outcome: Outcome)
    | Progressing(p: nat, slot: Slot)
    | Failing(p: nat, statuscode: int)
    | Releasing(p: nat)
    | ReleasingSocket(p: nat)
    | Deleting(p: nat)
    | Cleaning

  /** The one event that can put a socket in danger: a slot with a network socket is marked as a file. */
  predicate MarksSocket(e: Event) {
    e.Progressing? && e.slot.isFile && e.slot.conn.soc >= 0
  }

  // ---- Steps ----

  /** The slots, with the sockets opened, closed and lost so far. */
  datatype State = State(slots: seq<Slot>, handles: nat, closed: set<int>, lost: set<int>)

  ghost predicate Proper(a: State) {
    AllGood(a.slots) && Owned(a.slots, a.handles, a.closed, a.lost)
  }

  /** Slot `p` becomes `s`: the socket it held is closed, or lost. */
  ghost function GiveUp(a: State, p: nat, s: Slot): State
    requires p < |a.slots|
  {
    State(a.slots[p := s], a.handles, a.closed + ClosedBy(a.slots[p]), a.lost + LostBy(a.slots[p]))
  }

  /** A slot that can be taken: free, or one that only keeps a connection alive. */
  predicate Takeable(s: Slot) {
    s.status == STATUS_FREE || s.status == STATUS_ALIVE
  }

  /** A finished slot that the cleaning leaves in place; `written` says if the storage can take it. */
  predicate Stays(s: Slot, written: bool) {
    s.status == STATUS_READY && !(CanBeCleaned(s) && s.file.toDisk) && !(CanBeStored(s) && written)
  }

  /** The slot is finished before and after, but for its connection the same, or neither before nor after. */
  predicate SameReady(before: Slot, after: Slot) {
    && (before.status == STATUS_READY <==> after.status == STATUS_READY)
    && (before.status == STATUS_READY ==> after == before.(conn := after.conn))
  }

  /** What the cleaning does to the first `n` finished slots; `drop` says which of them have to go. */
  ghost predicate ReadyUpTo(before: seq<Slot>, after: seq<Slot>, drop: set<nat>, n: nat) {
    && |before| == |after|
    && forall k :: 0 <= k < |before| ==>
         if k < n && k in drop then after[k].status != STATUS_READY else SameReady(before[k], after[k])
  }

  /** Files on disk are released. */
  ghost function OnDisk(slots: seq<Slot>): set<nat> {
    set k | 0 <= k < |slots| && CanBeCleaned(slots[k]) && slots[k].file.toDisk
  }

  /** Files that can be written go to the storage. */
  ghost function ToStore(slots: seq<Slot>, written: nat -> bool): set<nat> {
    set k | 0 <= k < |slots| && CanBeStored(slots[k]) && written(k)
  }

  /** The finished slots that are left are the ones that stay, the same but for their connections. */
  ghost predicate ReadyStays(before: seq<Slot>, after: seq<Slot>, written: nat -> bool) {
    && |before| == |after|
    && (forall k :: 0 <= k < |before| ==> (after[k].status == STATUS_READY <==> Stays(before[k], written(k))))
    && (forall k :: 0 <= k < |before| && after[k].status == STATUS_READY ==>
          after[k] == before[k].(conn := after[k].conn))
  }

  lemma ReadyKept(a: seq<Slot>, b: seq<Slot>, c: seq<Slot>)
    requires ReadyUpTo(a, b, {}, |a|) && ReadyUpTo(b, c, {}, |b|)
    ensures ReadyUpTo(a, c, {}, |a|)
  {
  }

  /** The four loops of the cleaning, one after the other. */
  lemma ReadyLeft(a: seq<Slot>, b: seq<Slot>, c: seq<Slot>, d: seq<Slot>, written: nat -> bool)
    requires ReadyUpTo(a, b, OnDisk(a), |a|) && ReadyUpTo(b, c, {}, |b|)
    requires ReadyUpTo(c, d, ToStore(c, written), |c|)
    ensures ReadyStays(a, d, written)
  {
    forall k | 0 <= k < |a|
      ensures d[k].status == STATUS_READY <==> Stays(a[k], written(k))
      ensures d[k].status == STATUS_READY ==> d[k] == a[k].(conn := d[k].conn)
    {
      assert k in OnDisk(a) || SameReady(a[k], b[k]);
      assert SameReady(b[k], c[k]);
      assert k in ToStore(c, written) || SameReady(c[k], d[k]);
    }
  }

  /** What `back_clean` does. */
  ghost predicate Cleans(a: State, b: State, options: Options, w: World) {
    && Gentle(a.slots, b.slots, a.lost, b.lost) && b.handles == a.handles
    && Tidy(b.slots, w.now) && ReadyStays(a.slots, b.slots, w.written)
    && (options.maxSoc > 0 ==>
          SocketCount(b.slots) <= options.maxSoc + OneMore(w.parsing, options.maxSoc) || NoneAlive(b.slots))
  }

  /** `back_add` finds no slot: all are in use, or finished and stay so after the cleaning. */
  ghost predicate NoRoom(slots: seq<Slot>, written: nat -> bool) {
    forall k :: 0 <= k < |slots| ==> Active(slots[k]) || Stays(slots[k], written(k))
  }

  /** The slot `q` gets the connection of slot `p`. */
  ghost predicate HandsOver(a: State, b: State, p: nat, q: nat)
    requires p < |a.slots| == |b.slots|
  {
    && q < |a.slots| && q != p && Takeable(a.slots[q])
    && b == State(a.slots[p := a.slots[p].(conn := NO_CONNECTION)][q := b.slots[q]], a.handles,
                  a.closed + ClosedBy(a.slots[q]), a.lost)
    && b.slots[q].status == STATUS_ALIVE && b.slots[q].conn == a.slots[p].conn && !b.slots[q].isFile
    && b.slots[q].kaTimeStart == a.slots[p].kaTimeStart && b.slots[q].address == a.slots[p].address
  }

  /** The finished slots of `a` give up their sockets, and no other slot marked as a file changes. */
  ghost predicate Settles(a: State, b: State) {
    b.lost == a.lost + ReadyMarked(a.slots) && Marked(b.slots) == Marked(a.slots) - ReadyMarked(a.slots)
  }

  ghost function ReadyMarked(slots: seq<Slot>): set<int> {
    set k | 0 <= k < |slots| && slots[k].status == STATUS_READY && Endangers(slots[k]) :: slots[k].conn.soc
  }

  /** The sockets in danger after cleaning belong to transfers in progress. */
  lemma CleaningKeepsActive(a: State, b: State, now: int)
    requires Proper(a) && Proper(b) && SameTransfers(a.slots, b.slots) && Tidy(b.slots, now)
    ensures Marked(b.slots) !! ReadyMarked(a.slots)
  {
    forall x | x in Marked(b.slots)
      ensures x !in ReadyMarked(a.slots)
    {
      var k :| 0 <= k < |b.slots| && Endangers(b.slots[k]) && b.slots[k].conn.soc == x;
      assert GoodSlot(b.slots[k]) && Active(b.slots[k]) && a.slots[k] == b.slots[k];
    }
  }

  /** Cleaning loses exactly the sockets of finished slots that are marked as files. */
  lemma CleaningSettles(a: State, b: State, now: int)
    requires Proper(a) && Proper(b) && Gentle(a.slots, b.slots, a.lost, b.lost) && Tidy(b.slots, now)
    ensures Settles(a, b)
  {
    hide SocketsFrom;
    CleaningKeepsActive(a, b, now);
    var ready := ReadyMarked(a.slots);
    forall x | x in Marked(a.slots) - ready
      ensures x in Marked(b.slots)
    {
      var k :| 0 <= k < |a.slots| && Endangers(a.slots[k]) && a.slots[k].conn.soc == x;
      assert GoodSlot(a.slots[k]) && Active(a.slots[k]);
      MarkedSlot(b.slots, k);
    }
    NoneMarked(a.slots);
    NoneMarked(b.slots);
    assert ready <= Marked(a.slots);
  }

  /** The transfer `s`, linked to the idle connection of `t`. */
  function Linked(s: Slot, t: Slot): Slot {
    s.(conn := t.conn, kaTimeStart := t.kaTimeStart, status := STATUS_CONNECTING)
  }

  /** Slot `p` gives up its socket and gets the connection of slot `i`, which becomes free. */
  ghost function TakenOver(a: State, p: nat, i: nat): State
    requires p < |a.slots| && i < |a.slots|
  {
    GiveUp(a, p, a.slots[p]).(slots := a.slots[i := FREE_SLOT][p := Linked(a.slots[p], a.slots[i])])
  }

  /** What `back_add` does; `p` is the slot of the new transfer, or -1. */
  ghost predicate Adds(a: State, b: State, p: int, e: Event, options: Options, w: World)
    requires e.Adding?
  {
    && |a.slots| == |b.slots| && -1 <= p < |a.slots|
    && if e.address == "" || e.file.path == "" then p == -1 && b == a else
       && Settles(a, b) && TransfersKept(a.slots, b.slots)
       && var ftp := !e.cached && IsFtp(e.address);
       && (p == -1 <==> NoRoom(a.slots, w.written) || (ftp && e.file.testMode))
       && (p == -1 ==> SameTransfers(a.slots, b.slots) && b.handles == a.handles)
       && (p != -1 ==>
             && b.slots[p].address == e.address && b.slots[p].file == e.file && b.slots[p].status >= 0
             && !Active(a.slots[p]) && !Stays(a.slots[p], w.written(p)))
       && (p != -1 && e.cached ==> b.slots[p].status == STATUS_READY)
       && (p != -1 && ftp && !options.ftpProxy ==>
             b.slots[p].status == STATUS_FTP_TRANSFER && b.slots[p].conn.soc == INVALID_SOCKET)
       && (b.handles == a.handles || b.handles == a.handles + 1)
       && (b.handles != a.handles ==>
             && p != -1 && !e.cached && e.outcome == Connected && (ftp ==> options.ftpProxy)
             && b.slots[p].conn.soc == a.handles && !AnyUsable(b.slots, e.address, w.now))
       && (p != -1 && b.handles == a.handles && b.slots[p].conn.soc >= 0 ==>
             TakesFrom(a.slots, b.slots[p], e.address))
       && (p != -1 && !e.cached && (ftp ==> options.ftpProxy) && e.outcome == Connected &&
           (forall k :: 0 <= k < |a.slots| ==> NoSocketFor(a.slots[k], e.address, w.now)) ==>
             b.handles == a.handles + 1)
       && (p != -1 && !e.cached && (ftp ==> options.ftpProxy) && e.outcome == Connected ==>
             b.slots[p].status == STATUS_CONNECTING && b.slots[p].conn.soc >= 0)
  }

  /** What an event does to the slots and the sockets; events that do not apply do nothing. */
  ghost predicate Step(a: State, b: State, e: Event, options: Options, w: World) {
    && |a.slots| == |b.slots|
    && match e
       case Adding(_, _, _, _) => exists p :: Adds(a, b, p, e, options, w)
       case Cleaning => Cleans(a, b, options, w) && Settles(a, b)
       case Connecting(p, outcome) =>
         b == if p < |a.slots| && a.slots[p].status == STATUS_WAIT_DNS
              then a.(slots := a.slots[p := Opened(a.slots[p], outcome, a.handles)],
                      handles := a.handles + if outcome == Connected then 1 else 0)
              else a
       case Progressing(p, s) =>
         b == if p < |a.slots| && MayProgress(a.slots[p], s) then a.(slots := a.slots[p := s]) else a
       case Failing(p, statuscode) =>
         b == if p < |a.slots| && Active(a.slots[p]) then GiveUp(a, p, Ended(a.slots[p], statuscode)) else a
       case Deleting(p) => b == if p < |a.slots| then GiveUp(a, p, FREE_SLOT) else a
       case Releasing(p) =>
         if p >= |a.slots| then b == a
         else if Keeps(a.slots[p], options, w.now, w.broken) then b == a.(slots := a.slots[p := AliveSlot(a.slots[p])])
         else b == GiveUp(a, p, FREE_SLOT)
       case ReleasingSocket(p) =>
         if p >= |a.slots| || a.slots[p].status == STATUS_ALIVE then b == a
         else if Keeps(a.slots[p], options, w.now, w.broken) && exists k :: 0 <= k < |a.slots| && Takeable(a.slots[k])
         then exists q: nat :: HandsOver(a, b, p, q)
         else b == GiveUp(a, p, WithoutSocket(a.slots[p]))
  }

  // ---- Losses ----

  /** The slots an event gives up. */
  predicate GivesUp(s: Slot, k: nat, e: Event) {
    match e
    case Adding(address, file, _, _) => address != "" && file.path != "" && s.status == STATUS_READY
    case Cleaning => s.status == STATUS_READY
    case Failing(p, _) => k == p && Active(s)
    case Releasing(p) => k == p
    case ReleasingSocket(p) => k == p
    case Deleting(p) => k == p
    case Connecting(_, _) => false
    case Progressing(_, _) => false
  }

  /** The sockets of the slots an event gives up while they are marked as files. */
  ghost function GivenUp(slots: seq<Slot>, e: Event): set<int> {
    set k | 0 <= k < |slots| && GivesUp(slots[k], k, e) && Endangers(slots[k]) :: slots[k].conn.soc
  }

  /** The sockets in danger after an event: only the download loop puts one in danger, or out of it. */
  ghost function MarkedAfter(slots: seq<Slot>, e: Event): set<int> {
    if e.Progressing? && e.p < |slots| && MayProgress(slots[e.p], e.slot)
    then Marked(slots) - LostBy(slots[e.p]) + LostBy(e.slot)
    else Marked(slots) - GivenUp(slots, e)
  }

  /** An event that gives up one slot. */
  lemma GivenUpOne(slots: seq<Slot>, e: Event, p: nat)
    requires p < |slots| && forall k :: 0 <= k < |slots| ==> (GivesUp(slots[k], k, e) <==> k == p)
    ensures GivenUp(slots, e) == LostBy(slots[p])
  {
    assert GivesUp(slots[p], p, e);
  }

  /** Handing a connection over puts no socket in danger: only slots not marked as files do it. */
  lemma HandingOver(a: State, b: State, p: nat, q: nat)
    requires Proper(a) && p < |a.slots| == |b.slots| && HandsOver(a, b, p, q)
    requires a.slots[p].conn.soc >= 0 && !a.slots[p].isFile
    ensures Marked(b.slots) == Marked(a.slots)
  {
    hide Owned;
    assert GoodSlot(a.slots[q]);
    var none := a.slots[p].(conn := NO_CONNECTION);
    var cleared := a.slots[q := FREE_SLOT];
    Closing(a.slots, q, FREE_SLOT, a.handles, a.closed, a.lost);
    Moving(cleared, p, q, none, b.slots[q], a.handles, a.closed + ClosedBy(a.slots[q]), a.lost + LostBy(a.slots[q]));
    assert cleared[p := none][q := b.slots[q]] == b.slots;
  }

  /** A socket is lost exactly when a slot is given up while it holds the socket and is marked as a file. */
  lemma StepLoses(a: State, b: State, e: Event, options: Options, w: World)
    requires Proper(a) && Step(a, b, e, options, w)
    ensures b.lost == a.lost + GivenUp(a.slots, e) && Marked(b.slots) == MarkedAfter(a.slots, e)
    ensures a.lost !! GivenUp(a.slots, e)
  {
    GivenUpMarked(a.slots, e);
    assert a.lost !! GivenUp(a.slots, e) by { NoneMarked(a.slots); }
    hide Owned, Cleans, SameTransfers, TransfersKept, NoRoom, IsFtp, Usable;
    if e.Adding? || e.Cleaning? {
      if e.Cleaning? || (e.address != "" && e.file.path != "") {
        assert GivenUp(a.slots, e) == ReadyMarked(a.slots);
      }
    } else if e.p >= |a.slots| {
      assert GivenUp(a.slots, e) == {};
    } else {
      SlotStepLoses(a, b, e, e.p, options, w);
    }
  }

  lemma SlotStepLoses(a: State, b: State, e: Event, p: nat, options: Options, w: World)
    requires Proper(a) && Step(a, b, e, options, w)
    requires !e.Adding? && !e.Cleaning? && e.p == p < |a.slots|
    ensures b.lost == a.lost + GivenUp(a.slots, e) && Marked(b.slots) == MarkedAfter(a.slots, e)
  {
    hide Owned, Marked, GivenUp, MayKeep;
    var s := a.slots[p];
    assert GoodSlot(s);
    if e.Progressing? || e.Connecting? || (e.Failing? && !Active(s)) {
      NoneGivenUp(a.slots, e);
      Updating(a, p, b.slots[p]);
    } else {
      GivenUpOne(a.slots, e, p);
      if b == GiveUp(a, p, b.slots[p]) && b.slots[p].conn.soc < 0 {
        Updating(a, p, b.slots[p]);
      } else if e.ReleasingSocket? && s.status != STATUS_ALIVE {
        var q: nat :| HandsOver(a, b, p, q);
        HandingOver(a, b, p, q);
      } else if e.Releasing? {
        Updating(a, p, AliveSlot(s));
      }
    }
  }

  lemma Updating(a: State, p: nat, s: Slot)
    requires Proper(a) && p < |a.slots|
    ensures Marked(a.slots[p := s]) == Marked(a.slots) - LostBy(a.slots[p]) + LostBy(s)
  {
    MarkedUpdate(a.slots, p, s);
  }

  lemma NoneGivenUp(slots: seq<Slot>, e: Event)
    requires forall k :: 0 <= k < |slots| ==> !GivesUp(slots[k], k, e)
    ensures GivenUp(slots, e) == {}
  {
  }

  lemma GivenUpMarked(slots: seq<Slot>, e: Event)
    ensures GivenUp(slots, e) <= Marked(slots)
  {
  }

  /** A run: the state before and after every event. */
  ghost predicate Follows(trace: seq<State>, events: seq<(Event, World)>, options: Options) {
    && |trace| == |events| + 1
    && forall k :: 0 <= k < |events| ==> Step(trace[k], trace[k + 1], events[k].0, options, events[k].1)
  }

  /** The sockets all events of a run give up. */
  ghost function AllGivenUp(trace: seq<State>, events: seq<(Event, World)>): set<int>
    requires |trace| == |events| + 1
  {
    set k, x | 0 <= k < |events| && x in GivenUp(trace[k].slots, events[k].0) :: x
  }

  /** A run without its last event. */
  lemma FollowsStart(trace: seq<State>, events: seq<(Event, World)>, options: Options)
    requires |events| > 0 && Follows(trace, events, options)
    ensures Follows(trace[..|events|], events[..|events| - 1], options)
    ensures AllGivenUp(trace, events) ==
              AllGivenUp(trace[..|events|], events[..|events| - 1]) +
              GivenUp(trace[|events| - 1].slots, events[|events| - 1].0)
  {
    hide Step, GivenUp;
    var n := |events| - 1;
    var first, rest := trace[..n + 1], events[..n];
    forall k | 0 <= k < n
      ensures Step(first[k], first[k + 1], rest[k].0, options, rest[k].1)
    {
      assert Step(trace[k], trace[k + 1], events[k].0, options, events[k].1);
    }
    forall x
      ensures x in AllGivenUp(trace, events) <==> x in AllGivenUp(first, rest) + GivenUp(trace[n].slots, events[n].0)
    {
      if k :| 0 <= k < n && x in GivenUp(trace[k].slots, events[k].0) {
        assert x in GivenUp(first[k].slots, rest[k].0);
      }
    }
  }

  lemma {:induction false} RunLoses(trace: seq<State>, events: seq<(Event, World)>, options: Options)
    requires Follows(trace, events, options) && forall k :: 0 <= k <= |events| ==> Proper(trace[k])
    ensures trace[|events|].lost == trace[0].lost + AllGivenUp(trace, events)
    ensures trace[0].lost !! AllGivenUp(trace, events)
  {
    hide Proper, Step, GivenUp;
    if |events| > 0 {
      var n := |events| - 1;
      var first, rest := trace[..n + 1], events[..n];
      FollowsStart(trace, events, options);
      RunLoses(first, rest, options);
      StepLoses(trace[n], trace[n + 1], events[n].0, options, events[n].1);
    }
  }

  /** Nothing is in danger, and nothing lost, in a run that marks no connected slot as a file. */
  lemma {:induction false} RunKeepsApart(trace: seq<State>, events: seq<(Event, World)>, options: Options)
    requires Follows(trace, events, options) && forall k :: 0 <= k <= |events| ==> Proper(trace[k])
    ensures (forall k :: 0 <= k < |events| ==> !MarksSocket(events[k].0)) && FilesApart(trace[0].slots) ==>
              FilesApart(trace[|events|].slots) && trace[|events|].lost == trace[0].lost
  {
    hide Proper, Step, FilesApart;
    if |events| > 0 {
      var n := |events| - 1;
      var first, rest := trace[..n + 1], events[..n];
      FollowsStart(trace, events, options);
      RunKeepsApart(first, rest, options);
      StepLoses(trace[n], trace[n + 1], events[n].0, options, events[n].1);
      NoneMarked(trace[n].slots);
      NoneMarked(trace[n + 1].slots);
      if FilesApart(trace[n].slots) {
        GivenUpMarked(trace[n].slots, events[n].0);
      }
    }
  }

  /** Sockets in danger are not lost yet. */
  lemma NewlyLost(slots: seq<Slot>, handles: nat, closed: set<int>, lost: set<int>)
    requires Owned(slots, handles, closed, lost)
    ensures lost + Marked(slots) == lost <==> FilesApart(slots)
  {
    NoneMarked(slots);
  }

  /** After the cleaning a slot can be taken unless there is no room. */
  lemma Finding(a: State, b: State, options: Options, w: World)
    requires Proper(b) && Cleans(a, b, options, w)
    ensures (forall k :: 0 <= k < |b.slots| ==> !Takeable(b.slots[k])) <==> NoRoom(a.slots, w.written)
    ensures forall k :: 0 <= k < |b.slots| && Takeable(b.slots[k]) ==>
              !Active(a.slots[k]) && !Stays(a.slots[k], w.written(k))
  {
    forall k | 0 <= k < |b.slots|
      ensures !Takeable(b.slots[k]) <==> Active(a.slots[k]) || Stays(a.slots[k], w.written(k))
    {
      assert GoodSlot(b.slots[k]);
    }
  }

  lemma TakenFrom(a: seq<Slot>, b: seq<Slot>, s: Slot, address: string)
    requires SocketsFrom(a, b) && TakesFrom(b, s, address) && s.conn.soc >= 0
    ensures TakesFrom(a, s, address)
  {
    hide EqualButCase;
    var j :| 0 <= j < |b| && b[j].conn == s.conn && EqualButCase(b[j].address, address);
    assert FromSome(a, b[j]);
    var i :| 0 <= i < |a| && Continues(a[i], b[j]);
    assert a[i].conn == s.conn && EqualButCase(a[i].address, address);
  }

  /** Where there is no socket to the address there is none after the cleaning. */
  lemma NoneForIt(a: seq<Slot>, b: seq<Slot>, address: string, now: int)
    requires SocketsFrom(a, b) && AllGood(b)
    requires forall k :: 0 <= k < |a| ==> NoSocketFor(a[k], address, now)
    ensures !AnyUsable(b, address, now)
  {
    hide EqualButCase, SameAddress;
    forall k | 0 <= k < |b|
      ensures !Usable(b[k], address, now)
    {
      UsableServes(b[k], address, now);
      assert GoodSlot(b[k]);
      if b[k].conn.soc >= 0 {
        assert FromSome(a, b[k]);
        var i :| 0 <= i < |a| && Continues(a[i], b[k]);
        assert NoSocketFor(a[i], address, now);
      }
    }
  }

  /** Changes that lose nothing and put nothing in danger. */
  lemma SettledStill(a: State, b: State, c: State)
    requires Settles(a, b) && c.lost == b.lost && Marked(c.slots) == Marked(b.slots)
    ensures Settles(a, c)
  {
  }

  lemma NothingHeld(slots: seq<Slot>, handles: nat, closed: set<int>, lost: set<int>)
    requires Owned(slots, handles, closed, lost) && forall k :: 0 <= k < |slots| ==> slots[k] == FREE_SLOT
    ensures Held(slots) == {} && closed !! lost
    ensures forall x :: x in closed || x in lost <==> 0 <= x < handles
  {
  }

  class Backlog {
    const lnk: array<Slot>
    const options: Options
    /** The sockets opened so far are 0 to `handles` - 1. */
    var handles: nat
    ghost var closed: set<int>
    ghost var lost: set<int>

    ghost function Now(): State
      reads this, lnk
    {
      State(lnk[..], handles, closed, lost)
    }

    ghost predicate Valid()
      reads this, lnk
    {
      AllGood(lnk[..]) && Owned(lnk[..], handles, closed, lost)
    }

    /** `back_new`. */
    constructor (count: nat, options: Options)
      ensures Valid() && fresh(lnk) && lnk.Length == count && this.options == options
      ensures handles == 0 && closed == {} && lost == {} && forall k :: 0 <= k < count ==> lnk[k] == FREE_SLOT
    {
      lnk := new Slot[count](_ => FREE_SLOT);
      this.options := options;
      handles, closed, lost := 0, {}, {};
    }

    // ---- The pieces ----

    /** `deletehttp`: nothing is closed when the slot is marked as a file. */
    method DeleteHttp(p: nat)
      requires p < lnk.Length && lnk[p].conn.soc >= LOCAL_SOCKET_ID
      modifies lnk, `closed, `lost
      ensures Now() == GiveUp(old(Now()), p, WithoutSocket(old(lnk[p])))
    {
      var s := lnk[p];
      if s.conn.soc != INVALID_SOCKET {
        if s.isFile {
          lost := lost + LostBy(s);
        } else if s.conn.soc != LOCAL_SOCKET_ID {
          closed := closed + {s.conn.soc};
        }
        lnk[p] := s.(conn := s.conn.(soc := INVALID_SOCKET));
      }
      assert lnk[..] == old(lnk[..])[p := WithoutSocket(s)];
    }

    /** `back_clear_entry`, which is what `back_delete` comes down to. */
    method ClearEntry(p: nat)
      requires p < lnk.Length && lnk[p].conn.soc >= LOCAL_SOCKET_ID
      modifies lnk, `closed, `lost
      ensures Now() == GiveUp(old(Now()), p, FREE_SLOT)
    {
      if lnk[p].conn.soc != INVALID_SOCKET {
        DeleteHttp(p);
      }
      lnk[p] := FREE_SLOT;
      assert lnk[..] == old(lnk[..])[p := FREE_SLOT];
    }

    /** `back_delete`. */
    method Delete(p: nat)
      requires Valid() && p < lnk.Length
      modifies lnk, `closed, `lost
      ensures Valid() && Now() == GiveUp(old(Now()), p, FREE_SLOT)
      ensures Marked(lnk[..]) == Marked(old(lnk[..])) - LostBy(old(lnk[p]))
      ensures !Active(old(lnk[p])) ==> Gentle(old(lnk[..]), lnk[..], old(lost), lost)
    {
      hide Owned, Gentle, Marked;
      Closing(lnk[..], p, FREE_SLOT, handles, closed, lost);
      ClearEntry(p);
      if !Active(old(lnk[p])) {
        SocketsOne(old(lnk[..]), p, FREE_SLOT);
        GentleOne(old(lnk[..]), lnk[..], p, old(lost), lost);
      }
    }

    /** `back_letlive`: everything but the connection is cleared. */
    method LetLive(p: nat, broken: bool) returns (kept: bool)
      requires p < lnk.Length
      modifies lnk, `closed, `lost
      ensures kept == CanKeep(old(lnk[p]), broken)
      ensures lnk[..] == old(lnk[..])[p := if kept then FREE_SLOT.(conn := old(lnk[p]).conn) else old(lnk[p])]
      ensures closed == old(closed) && lost == old(lost)
    {
      var s := lnk[p];
      kept := !s.isFile && s.conn.soc != INVALID_SOCKET && s.statuscode >= 0 && !s.trailers && !broken;
      if kept {
        var tmp := lnk[p].conn;
        lnk[p] := lnk[p].(conn := NO_CONNECTION);
        ClearEntry(p);
        lnk[p] := lnk[p].(conn := tmp);
      }
    }

    /** `back_search`: a free slot, or one taken from an idle connection. */
    method Search() returns (q: int)
      requires Valid()
      modifies lnk, `closed, `lost
      ensures Valid() && -1 <= q < lnk.Length
      ensures q == -1 <==> forall k :: 0 <= k < lnk.Length ==> !Takeable(old(lnk[k]))
      ensures q == -1 ==> lnk[..] == old(lnk[..]) && closed == old(closed) && lost == old(lost)
      ensures q != -1 ==>
                && lnk[q].status == STATUS_FREE
                && if old(lnk[q]).status == STATUS_FREE then lnk[..] == old(lnk[..]) && closed == old(closed)
                   else old(lnk[q]).status == STATUS_ALIVE && lnk[..] == old(lnk[..])[q := FREE_SLOT]
                        && closed == old(closed) + {old(lnk[q]).conn.soc}
                        && forall k :: 0 <= k < lnk.Length ==> old(lnk[k]).status != STATUS_FREE
      ensures lost == old(lost) && Marked(lnk[..]) == Marked(old(lnk[..]))
      ensures Gentle(old(lnk[..]), lnk[..], old(lost), lost)
    {
      hide Owned, Gentle, Marked;
      GentleStart(lnk[..], lost);
      var i := 0;
      while i < lnk.Length
        invariant i <= lnk.Length
        invariant forall k :: 0 <= k < i ==> lnk[k].status != STATUS_FREE
        invariant lnk[..] == old(lnk[..]) && closed == old(closed) && lost == old(lost)
      {
        if lnk[i].status == STATUS_FREE {
          return i;
        }
        i := i + 1;
      }
      i := 0;
      while i < lnk.Length
        invariant i <= lnk.Length
        invariant forall k :: 0 <= k < i ==> lnk[k].status != STATUS_ALIVE
        invariant lnk[..] == old(lnk[..]) && closed == old(closed) && lost == old(lost)
      {
        if lnk[i].status == STATUS_ALIVE {
          Delete(i);
          return i;
        }
        i := i + 1;
      }
      q := -1;
    }

    // ---- Keeping connections alive ----

    /** `back_maydelete`: the slot is freed, or only keeps its connection. */
    method MayDelete(p: nat, now: int, broken: int -> bool) returns (kept: bool)
      requires Valid() && p < lnk.Length
      modifies lnk, `closed, `lost
      ensures Valid()
      ensures kept == Keeps(old(lnk[p]), options, now, broken)
      ensures kept ==> Now() == old(Now()).(slots := old(lnk[..])[p := AliveSlot(old(lnk[p]))])
      ensures !kept ==> Now() == GiveUp(old(Now()), p, FREE_SLOT)
      ensures !Active(old(lnk[p])) ==> Gentle(old(lnk[..]), lnk[..], old(lost), lost)
    {
      hide Owned, Gentle, Marked;
      var s := lnk[p];
      if !options.noKeepAlive && s.conn.keepAlive && s.conn.keepAliveMax > 1 && s.kaTimeStart != 0
         && now < s.kaTimeStart + s.conn.keepAliveT
         && (options.maxConn <= 0.0 || s.conn.keepAliveT as real > 1.0 / options.maxConn)
      {
        kept := LetLive(p, broken(s.conn.soc));
        if kept {
          Keeping(old(lnk[..]), p, AliveSlot(s), handles, closed, lost);
          lnk[p] := lnk[p].(address := s.address, kaTimeStart := s.kaTimeStart, status := STATUS_ALIVE);
          assert lnk[..] == old(lnk[..])[p := AliveSlot(s)];
          if !Active(s) {
            assert Continues(old(lnk[..])[p], AliveSlot(s));
            SocketsOne(old(lnk[..]), p, AliveSlot(s));
            GentleOne(old(lnk[..]), lnk[..], p, lost, lost);
          }
          return true;
        }
      }
      assert lnk[..] == old(lnk[..]);
      Delete(p);
      kept := false;
    }

    /** The connection of slot `p` moves to the free slot `q`, which keeps it alive. */
    method MoveConnection(p: nat, q: nat)
      requires Valid() && p < lnk.Length && q < lnk.Length && p != q && lnk[q].status == STATUS_FREE
      requires lnk[p].status != STATUS_ALIVE && lnk[p].conn.soc >= 0 && !lnk[p].isFile
      requires lnk[p].conn.keepAlive && lnk[p].conn.keepAliveMax > 1 && lnk[p].kaTimeStart != 0
      modifies lnk, `closed, `lost
      ensures Valid()
      ensures lnk[..] == old(lnk[..])[p := old(lnk[p]).(conn := NO_CONNECTION)][q := lnk[q]]
      ensures lnk[q].status == STATUS_ALIVE && lnk[q].conn == old(lnk[p]).conn && !lnk[q].isFile
      ensures lnk[q].kaTimeStart == old(lnk[p]).kaTimeStart && lnk[q].address == old(lnk[p]).address
      ensures closed == old(closed) && lost == old(lost)
      ensures !Active(old(lnk[p])) ==> Gentle(old(lnk[..]), lnk[..], lost, lost)
    {
      hide Owned, Marked, Gentle;
      var s := lnk[p];
      assert GoodSlot(lnk[q]);
      DeleteHttp(q);
      assert Now() == old(Now());
      var t := lnk[q].(conn := s.conn, kaTimeStart := s.kaTimeStart, address := s.address, status := STATUS_ALIVE);
      Moving(lnk[..], p, q, s.(conn := NO_CONNECTION), t, handles, closed, lost);
      lnk[p], lnk[q] := s.(conn := NO_CONNECTION), t;
      if !Active(s) {
        SocketsMove(old(lnk[..]), p, q, s.(conn := NO_CONNECTION), t);
        GentleOne(old(lnk[..]), lnk[..], p, lost, lost);
      }
    }

    /** The slot gives up its socket. */
    method GiveUpSocket(p: nat)
      requires Valid() && p < lnk.Length && lnk[p].status != STATUS_ALIVE
      modifies lnk, `closed, `lost
      ensures Valid() && Now() == GiveUp(old(Now()), p, WithoutSocket(old(lnk[p])))
      ensures !Active(old(lnk[p])) ==> Gentle(old(lnk[..]), lnk[..], old(lost), lost)
    {
      hide Owned, Gentle, Marked;
      var s := lnk[p];
      Closing(lnk[..], p, WithoutSocket(s), handles, closed, lost);
      DeleteHttp(p);
      if !Active(s) {
        SocketsOne(old(lnk[..]), p, WithoutSocket(s));
        GentleOne(old(lnk[..]), lnk[..], p, old(lost), lost);
      }
    }

    /**
      `back_maydeletehttp`: the connection of slot `p` moves to another slot `q` that keeps it alive,
      or its socket is closed.
     */
    method MayDeleteHttp(p: nat, now: int, broken: int -> bool) returns (q: int)
      requires Valid() && p < lnk.Length && lnk[p].status != STATUS_ALIVE
      modifies lnk, `closed, `lost
      ensures Valid() && -1 <= q < lnk.Length
      ensures q != -1 <==> Keeps(old(lnk[p]), options, now, broken) &&
                           exists k :: 0 <= k < lnk.Length && Takeable(old(lnk[k]))
      ensures q == -1 ==> Now() == GiveUp(old(Now()), p, WithoutSocket(old(lnk[p])))
      ensures q != -1 ==> HandsOver(old(Now()), Now(), p, q)
      ensures !Active(old(lnk[p])) ==> Gentle(old(lnk[..]), lnk[..], old(lost), lost)
    {
      hide Owned, Gentle, Marked;
      q := -1;
      var s := lnk[p];
      if s.conn.soc == INVALID_SOCKET {
        assert Now() == GiveUp(Now(), p, WithoutSocket(s));
        GentleStart(lnk[..], lost);
        return;
      }
      if !s.isFile && s.statuscode >= 0 && !s.trailers && !broken(s.conn.soc)
         && !options.noKeepAlive && s.conn.keepAlive && s.conn.keepAliveMax > 1 && s.kaTimeStart != 0
         && now < s.kaTimeStart + s.conn.keepAliveT
         && (options.maxConn <= 0.0 || s.conn.keepAliveT as real > 1.0 / options.maxConn)
      {
        q := Search();
      }
      if q >= 0 {
        assert lnk[p] == s && q != p;
        ghost var found, lost1 := lnk[..], lost;
        MoveConnection(p, q);
        assert lnk[..] == old(lnk[..])[p := s.(conn := NO_CONNECTION)][q := lnk[q]];
        if !Active(s) {
          GentleSteps(old(lnk[..]), found, lnk[..], old(lost), lost1, lost);
        }
      } else {
        GiveUpSocket(p);
      }
    }

    /** `back_searchlive`. */
    method SearchLive(address: string, now: int) returns (i: int)
      ensures -1 <= i < lnk.Length
      ensures i == -1 ==> forall k :: 0 <= k < lnk.Length ==> !Usable(lnk[k], address, now)
      ensures i != -1 ==> Usable(lnk[i], address, now) && forall k :: 0 <= k < i ==> !Usable(lnk[k], address, now)
      ensures i == -1 ==> forall k :: 0 <= k < lnk.Length ==> !Serves(lnk[k], address, now)
      ensures i != -1 ==> Serves(lnk[i], address, now)
    {
      forall k | 0 <= k < lnk.Length
        ensures Usable(lnk[k], address, now) <==> Serves(lnk[k], address, now)
      {
        UsableServes(lnk[k], address, now);
      }
      hide Usable, Serves;
      var k := 0;
      while k < lnk.Length
        invariant k <= lnk.Length
        invariant forall l :: 0 <= l < k ==> !Usable(lnk[l], address, now)
      {
        if Usable(lnk[k], address, now) {
          return k;
        }
        k := k + 1;
      }
      i := -1;
    }

    /** Slot `p` takes over the idle connection of slot `i`. */
    method TakeOver(p: nat, i: nat)
      requires Valid() && p < lnk.Length && i < lnk.Length && p != i
      requires lnk[p].status != STATUS_ALIVE && lnk[i].status == STATUS_ALIVE
      modifies lnk, `closed, `lost
      ensures Valid() && Now() == TakenOver(old(Now()), p, i)
      ensures !old(lnk[p]).isFile ==> Marked(lnk[..]) == Marked(old(lnk[..]))
    {
      hide Owned, Marked;
      ghost var a := Now();
      var s, t := lnk[p], lnk[i];
      assert GoodSlot(s) && GoodSlot(t);
      Closing(lnk[..], p, WithoutSocket(s), handles, closed, lost);
      DeleteHttp(p);
      ghost var b := Now();
      Moving(lnk[..], i, p, FREE_SLOT, Linked(s, t), handles, closed, lost);
      lnk[p] := lnk[p].(conn := t.conn, kaTimeStart := t.kaTimeStart);
      lnk[i] := t.(conn := NO_CONNECTION);
      ClearEntry(i);
      lnk[p] := lnk[p].(status := STATUS_CONNECTING);
      assert Now() == b.(slots := b.slots[i := FREE_SLOT][p := Linked(s, t)]);
      assert lnk[..] == a.slots[i := FREE_SLOT][p := Linked(s, t)];
    }

    /** `back_trylive`: slot `p` takes over an idle connection to its address. */
    method TryLive(p: nat, now: int) returns (i: int)
      requires Valid() && p < lnk.Length
      modifies lnk, `closed, `lost
      ensures Valid() && -1 <= i < lnk.Length && i != p
      ensures i == -1 ==> lnk[..] == old(lnk[..]) && closed == old(closed) && lost == old(lost)
      ensures i == -1 && old(lnk[p]).status != STATUS_ALIVE ==>
                forall k :: 0 <= k < lnk.Length ==> !Usable(old(lnk[k]), old(lnk[p]).address, now)
      ensures i != -1 ==>
                && old(lnk[p]).status != STATUS_ALIVE && old(lnk[i]).status == STATUS_ALIVE
                && Usable(old(lnk[i]), old(lnk[p]).address, now)
                && Now() == TakenOver(old(Now()), p, i)
      ensures !old(lnk[p]).isFile ==> Marked(lnk[..]) == Marked(old(lnk[..]))
      ensures i == -1 && old(lnk[p]).status != STATUS_ALIVE ==>
                forall k :: 0 <= k < lnk.Length ==> !Serves(old(lnk[k]), old(lnk[p]).address, now)
      ensures i != -1 ==> Serves(old(lnk[i]), old(lnk[p]).address, now)
    {
      hide Owned, Marked, EqualButCase, SameAddress;
      i := -1;
      if lnk[p].status != STATUS_ALIVE {
        i := SearchLive(lnk[p].address, now);
        if i >= 0 {
          TakeOver(p, i);
        }
      }
    }

    // ---- Cleaning ----

    /** The first loop of `back_clean`: finished files on disk are released, expired connections dropped. */
    method CleanFinished(now: int, broken: int -> bool)
      requires Valid()
      modifies lnk, `closed, `lost
      ensures Valid() && Gentle(old(lnk[..]), lnk[..], old(lost), lost)
      ensures NoneExpired(lnk[..], lnk.Length, now) && NoneFinished(lnk[..], lnk.Length)
      ensures ReadyUpTo(old(lnk[..]), lnk[..], OnDisk(old(lnk[..])), lnk.Length)
    {
      hide Owned, AllGood, Gentle, Marked;
      GentleStart(lnk[..], lost);
      ghost var drop := OnDisk(lnk[..]);
      var i := 0;
      while i < lnk.Length
        invariant i <= lnk.Length && ReadyUpTo(old(lnk[..]), lnk[..], drop, i)
        invariant Valid() && Gentle(old(lnk[..]), lnk[..], old(lost), lost)
        invariant NoneExpired(lnk[..], i, now) && NoneFinished(lnk[..], i)
      {
        ghost var slots, lost0 := lnk[..], lost;
        var s := lnk[i];
        if s.status == STATUS_READY && !s.file.testMode && s.file.named && s.statuscode / 100 == 2 && s.file.size >= 0 {
          if s.file.toDisk {
            var _ := MayDelete(i, now, broken);
          } else if !s.file.finalized {
            var _ := MayDeleteHttp(i, now, broken);
          }
        } else if s.status == STATUS_ALIVE
                  && (!s.conn.keepAlive || s.conn.soc == INVALID_SOCKET || s.conn.keepAliveMax < 1
                      || now >= s.kaTimeStart + s.conn.keepAliveT)
        {
          Delete(i);
        }
        GentleStart(slots, lost0);
        GentleSteps(old(lnk[..]), slots, lnk[..], old(lost), lost0, lost);
        i := i + 1;
      }
    }

    /** The second loop: finished slots hand over or close their sockets. */
    method ReleaseSockets(now: int, broken: int -> bool)
      requires Valid() && NoneExpired(lnk[..], lnk.Length, now) && NoneFinished(lnk[..], lnk.Length)
      modifies lnk, `closed, `lost
      ensures Valid() && Gentle(old(lnk[..]), lnk[..], old(lost), lost)
      ensures Tidy(lnk[..], now) && ReadyUpTo(old(lnk[..]), lnk[..], {}, lnk.Length)
    {
      hide Owned, AllGood, Gentle, Marked;
      GentleStart(lnk[..], lost);
      var i := 0;
      while i < lnk.Length
        invariant i <= lnk.Length && ReadyUpTo(old(lnk[..]), lnk[..], {}, lnk.Length)
        invariant Valid() && Gentle(old(lnk[..]), lnk[..], old(lost), lost)
        invariant NoneExpired(lnk[..], lnk.Length, now) && NoneFinished(lnk[..], lnk.Length) && NoneIdle(lnk[..], i)
      {
        ghost var slots, lost0 := lnk[..], lost;
        if lnk[i].status == STATUS_READY && lnk[i].conn.soc != INVALID_SOCKET {
          var _ := MayDeleteHttp(i, now, broken);
        }
        GentleStart(slots, lost0);
        GentleSteps(old(lnk[..]), slots, lnk[..], old(lost), lost0, lost);
        i := i + 1;
      }
    }

    /** `back_nsoc_overall`. */
    method CountSockets() returns (n: nat)
      ensures n == SocketCount(lnk[..])
    {
      n := 0;
      var i := 0;
      while i < lnk.Length
        invariant i <= lnk.Length && n == SocketCount(lnk[..i])
      {
        assert lnk[..i + 1][..i] == lnk[..i];
        if lnk[i].status > 0 || lnk[i].status == STATUS_ALIVE {
          n := n + 1;
        }
        i := i + 1;
      }
      assert lnk[..lnk.Length] == lnk[..];
    }

    /** The third loop: idle connections are closed until there are at most `max` sockets. */
    method DropExcess(max: int, ghost now: int)
      requires Valid() && Tidy(lnk[..], now)
      modifies lnk, `closed, `lost
      ensures Valid() && Gentle(old(lnk[..]), lnk[..], old(lost), lost) && Tidy(lnk[..], now)
      ensures SocketCount(lnk[..]) <= max || NoneAlive(lnk[..])
      ensures ReadyUpTo(old(lnk[..]), lnk[..], {}, lnk.Length)
    {
      hide Owned, AllGood, Gentle, Marked, SocketCount;
      GentleStart(lnk[..], lost);
      var curr: int := CountSockets();
      var i := 0;
      while i < lnk.Length && curr > max
        invariant i <= lnk.Length && curr == SocketCount(lnk[..])
        invariant ReadyUpTo(old(lnk[..]), lnk[..], {}, lnk.Length)
        invariant Valid() && Gentle(old(lnk[..]), lnk[..], old(lost), lost) && Tidy(lnk[..], now)
        invariant forall k :: 0 <= k < i ==> lnk[k].status != STATUS_ALIVE
      {
        ghost var slots, lost0 := lnk[..], lost;
        if lnk[i].status == STATUS_ALIVE {
          CountChange(slots, i, FREE_SLOT);
          Delete(i);
          curr := curr - 1;
        }
        GentleStart(slots, lost0);
        GentleSteps(old(lnk[..]), slots, lnk[..], old(lost), lost0, lost);
        i := i + 1;
      }
    }

    /** The duplicate is moved to the free slot `q`, and dropped. */
    method WakeAndDrop(q: nat)
      requires Valid() && q < lnk.Length && lnk[q].status == STATUS_FREE
      modifies lnk, `closed, `lost
      ensures Valid() && Now() == old(Now()).(slots := old(lnk[..])[q := FREE_SLOT])
      ensures Gentle(old(lnk[..]), lnk[..], old(lost), lost)
    {
      hide Owned, Gentle, Marked;
      assert GoodSlot(lnk[q]);
      DeleteHttp(q);
      assert Now() == old(Now());
      Keeping(lnk[..], q, FREE_SLOT.(status := STATUS_READY), handles, closed, lost);
      lnk[q] := FREE_SLOT.(status := STATUS_READY);
      Delete(q);
      assert lnk[..] == old(lnk[..])[q := FREE_SLOT];
      SocketsOne(old(lnk[..]), q, FREE_SLOT);
      GentleOne(old(lnk[..]), lnk[..], q, lost, lost);
    }

    /** `back_index_ready` and the deletion that follows: a stored duplicate comes back and is dropped. */
    method DropDuplicate(ghost now: int)
      requires Valid() && Tidy(lnk[..], now)
      modifies lnk, `closed, `lost
      ensures Valid() && Gentle(old(lnk[..]), lnk[..], old(lost), lost) && Tidy(lnk[..], now)
      ensures Fewer(old(lnk[..]), lnk[..])
      ensures forall k :: 0 <= k < lnk.Length ==>
                lnk[k] == old(lnk[k]) || (lnk[k] == FREE_SLOT && old(lnk[k]).status != STATUS_READY)
    {
      hide Owned, AllGood, Gentle, Marked, Fewer, SocketCount;
      ghost var slots := lnk[..];
      FewerStart(slots);
      var q := Search();
      if q != -1 {
        ghost var found, lost0 := lnk[..], lost;
        FewerClear(slots, q);
        WakeAndDrop(q);
        assert lnk[..] == slots[q := FREE_SLOT];
        GentleSteps(slots, found, lnk[..], old(lost), lost0, lost);
      }
    }

    /**
      `back_cleanup_background`: finished slots go to the storage.  `duplicate` and `written` say for
      which slots the storage has an entry already, and which could be written.
     */
    method StoreFinished(duplicate: nat -> bool, written: nat -> bool, ghost now: int)
      requires Valid() && Tidy(lnk[..], now)
      modifies lnk, `closed, `lost
      ensures Valid() && Gentle(old(lnk[..]), lnk[..], old(lost), lost) && Tidy(lnk[..], now)
      ensures ReadyUpTo(old(lnk[..]), lnk[..], ToStore(old(lnk[..]), written), lnk.Length)
      ensures Fewer(old(lnk[..]), lnk[..])
    {
      hide Owned, AllGood, Gentle, Marked, Fewer, SocketCount;
      GentleStart(lnk[..], lost);
      FewerStart(lnk[..]);
      ghost var drop := ToStore(lnk[..], written);
      var i := 0;
      while i < lnk.Length
        invariant i <= lnk.Length && Valid() && Tidy(lnk[..], now)
        invariant ReadyUpTo(old(lnk[..]), lnk[..], drop, i)
        invariant Gentle(old(lnk[..]), lnk[..], old(lost), lost) && Fewer(old(lnk[..]), lnk[..])
      {
        ghost var slots, lost0 := lnk[..], lost;
        var s := lnk[i];
        if s.status == STATUS_READY && !s.file.locked && s.file.named && !s.file.isTest {
          if duplicate(i) {
            DropDuplicate(now);
            FewerSteps(old(lnk[..]), slots, lnk[..]);
            GentleSteps(old(lnk[..]), slots, lnk[..], old(lost), lost0, lost);
          }
          slots, lost0 := lnk[..], lost;
          if written(i) {
            FewerClear(slots, i);
            Delete(i);
            FewerSteps(old(lnk[..]), slots, lnk[..]);
            GentleSteps(old(lnk[..]), slots, lnk[..], old(lost), lost0, lost);
          }
        }
        i := i + 1;
      }
    }

    /**
      `back_clean`.  Transfers in progress are left alone; no expired connection is kept, no finished
      file on disk stays, no finished slot holds a socket or could still be stored, and the number of
      sockets is within the limit unless they are all in use.
     */
    method Clean(w: World)
      requires Valid()
      modifies lnk, `closed, `lost
      ensures Valid() && Cleans(old(Now()), Now(), options, w) && Settles(old(Now()), Now())
      ensures forall k :: 0 <= k < lnk.Length && lnk[k].status == -103 ==>
                && lnk[k].conn.keepAlive && lnk[k].conn.soc >= 0 && lnk[k].conn.keepAliveMax > 1
                && w.now < lnk[k].kaTimeStart + lnk[k].conn.keepAliveT
      ensures forall k :: 0 <= k < lnk.Length && lnk[k].status == 0 ==> lnk[k].conn.soc == -1
    {
      hide Owned, AllGood, Gentle, Marked, Tidy, SocketCount, ReadyUpTo, ReadyStays, Settles, NoneAlive, OnDisk;
      hide ToStore;
      ghost var a := Now();
      CleanFinished(w.now, w.broken);
      ghost var b := Now();
      ReleaseSockets(w.now, w.broken);
      ghost var c := Now();
      GentleSteps(a.slots, b.slots, c.slots, a.lost, b.lost, c.lost);
      if options.maxSoc > 0 {
        var oneMore := (w.parsing == 2 && options.maxSoc >= 2) || (w.parsing == 1 && options.maxSoc >= 4);
        DropExcess(options.maxSoc + if oneMore then 1 else 0, w.now);
        GentleSteps(a.slots, c.slots, lnk[..], a.lost, c.lost, lost);
        ReadyKept(b.slots, c.slots, lnk[..]);
        c := Now();
      }
      StoreFinished(w.duplicate, w.written, w.now);
      GentleSteps(a.slots, c.slots, lnk[..], a.lost, c.lost, lost);
      ReadyLeft(a.slots, b.slots, c.slots, lnk[..], w.written);
      CleaningSettles(a, Now(), w.now);
      TidyMeans(lnk[..], w.now);
    }

    // ---- Transfers ----

    /** `http_xfopen` for a slot whose host has been resolved, with what it leads to. */
    method Connect(p: nat, outcome: Outcome)
      requires Valid() && p < lnk.Length && lnk[p].status == STATUS_WAIT_DNS
      modifies lnk, `handles
      ensures Valid() && Marked(lnk[..]) == Marked(old(lnk[..]))
      ensures handles == old(handles) + if outcome == Connected then 1 else 0
      ensures lnk[..] == old(lnk[..])[p := Opened(old(lnk[p]), outcome, old(handles))]
    {
      hide Owned, Marked;
      assert GoodSlot(lnk[p]) && !lnk[p].isFile;
      ghost var after := Opened(lnk[p], outcome, handles);
      assert GoodSlot(after);
      assert closed + ClosedBy(lnk[p]) == closed && lost + LostBy(lnk[p]) == lost;
      if outcome == Connected {
        Opening(lnk[..], p, after, handles, closed, lost);
      } else {
        Closing(lnk[..], p, after, handles, closed, lost);
      }
      match outcome {
        case Connected =>
          lnk[p] := lnk[p].(conn := lnk[p].conn.(soc := handles));
          handles := handles + 1;
        case LocalFile =>
          lnk[p] := lnk[p].(conn := lnk[p].conn.(soc := LOCAL_SOCKET_ID), isFile := true);
        case Failed =>
      }
      if lnk[p].conn.soc == INVALID_SOCKET {
        lnk[p] := lnk[p].(status := STATUS_READY);
      } else if !lnk[p].isFile {
        lnk[p] := lnk[p].(status := STATUS_CONNECTING);
      } else {
        lnk[p] := lnk[p].(status := 1);
      }
      assert lnk[..] == old(lnk[..])[p := after];
    }

    /** The connection of the new transfer in slot `p`: an idle one, or a new one. */
    method Link(p: nat, outcome: Outcome, now: int)
      requires Valid() && p < lnk.Length && lnk[p].status == STATUS_FREE
      modifies lnk, `handles, `closed, `lost
      ensures Valid() && closed == old(closed) && lost == old(lost) && Marked(lnk[..]) == Marked(old(lnk[..]))
      ensures lnk[p].address == old(lnk[p]).address && lnk[p].file == old(lnk[p]).file && lnk[p].status >= 0
      ensures TransfersKept(old(lnk[..]), lnk[..])
      ensures forall k :: 0 <= k < lnk.Length && k != p && lnk[k] != old(lnk[k]) ==>
                lnk[k] == FREE_SLOT && Usable(old(lnk[k]), old(lnk[p]).address, now)
      ensures outcome == Connected ==> lnk[p].status == STATUS_CONNECTING && lnk[p].conn.soc >= 0
      ensures if AnyUsable(old(lnk[..]), old(lnk[p]).address, now)
              then handles == old(handles) && lnk[p].status == STATUS_CONNECTING && lnk[p].conn.soc >= 0
                   && TakesFrom(old(lnk[..]), lnk[p], old(lnk[p]).address)
              else handles == old(handles) + (if outcome == Connected then 1 else 0)
                   && (if outcome == Connected then lnk[p].conn.soc == old(handles) else lnk[p].conn.soc < 0)
                   && !AnyUsable(lnk[..], old(lnk[p]).address, now)
    {
      hide Owned, Marked;
      var s := lnk[p];
      assert GoodSlot(s);
      var i := TryLive(p, now);
      if i == -1 {
        Keeping(lnk[..], p, s.(status := STATUS_WAIT_DNS), handles, closed, lost);
        lnk[p] := s.(status := STATUS_WAIT_DNS);
        Connect(p, outcome);
        StillUsable(old(lnk[..]), p, lnk[p], s.address, now);
        assert lnk[..] == old(lnk[..])[p := lnk[p]];
      } else {
        assert GoodSlot(old(lnk[i])) && Usable(old(lnk[..])[i], s.address, now);
      }
    }

    /** The second half of `back_add`: a new transfer in the free slot `p`, unless it is a test of an FTP link. */
    method Begin(p: nat, address: string, file: File, cached: bool, outcome: Outcome, now: int) returns (begun: bool)
      requires Valid() && p < lnk.Length && lnk[p].status == STATUS_FREE
      modifies lnk, `handles, `closed, `lost
      ensures Valid() && closed == old(closed) && lost == old(lost) && Marked(lnk[..]) == Marked(old(lnk[..]))
      ensures begun <==> cached || !IsFtp(address) || !file.testMode
      ensures TransfersKept(old(lnk[..]), lnk[..]) && lnk[p].address == address && lnk[p].file == file
      ensures if begun then lnk[p].status >= 0 else SameTransfers(old(lnk[..]), lnk[..]) && handles == old(handles)
      ensures cached ==> handles == old(handles) && lnk[p].status == STATUS_READY && lnk[p].conn.soc < 0
      ensures begun && !cached && IsFtp(address) && !options.ftpProxy ==>
                handles == old(handles) && lnk[p].status == STATUS_FTP_TRANSFER && lnk[p].conn.soc == INVALID_SOCKET
      ensures begun && !cached && (!IsFtp(address) || options.ftpProxy) ==>
                && (outcome == Connected ==> lnk[p].status == STATUS_CONNECTING && lnk[p].conn.soc >= 0)
                && if AnyUsable(old(lnk[..]), address, now)
                   then handles == old(handles) && lnk[p].status == STATUS_CONNECTING && lnk[p].conn.soc >= 0
                        && TakesFrom(old(lnk[..]), lnk[p], address)
                   else handles == old(handles) + (if outcome == Connected then 1 else 0)
                        && (if outcome == Connected then lnk[p].conn.soc == old(handles) else lnk[p].conn.soc < 0)
                        && !AnyUsable(lnk[..], address, now)
    {
      hide Owned, Marked, Usable, AnyUsable, IsFtp;
      assert GoodSlot(lnk[p]);
      var s := lnk[p].(conn := NO_CONNECTION, isFile := false, statuscode := -1, trailers := false,
                       address := address, file := file);
      begun := true;
      Keeping(lnk[..], p, s, handles, closed, lost);
      lnk[p] := s;
      if cached {
        Keeping(lnk[..], p, s.(status := STATUS_READY), handles, closed, lost);
        lnk[p] := s.(status := STATUS_READY);
        return;
      }
      if IsFtp(address) {
        if file.testMode {
          return false;
        }
        if !options.ftpProxy {
          Keeping(lnk[..], p, s.(status := STATUS_FTP_TRANSFER), handles, closed, lost);
          lnk[p] := s.(status := STATUS_FTP_TRANSFER);
          return;
        }
      }
      assert lnk[..] == old(lnk[..])[p := s];
      StillUsable(old(lnk[..]), p, s, address, now);
      Link(p, outcome, now);
    }

    /**
      `back_add`, from the cleaning to the connection.  The new transfer takes an idle connection to
      its address if there is one, and opens a socket only if there is none.
     */
    method Add(address: string, file: File, cached: bool, outcome: Outcome, w: World) returns (p: int)
      requires Valid()
      modifies lnk, `handles, `closed, `lost
      ensures Valid() && Adds(old(Now()), Now(), p, Adding(address, file, cached, outcome), options, w)
    {
      hide Owned, AllGood, Gentle, Marked, Tidy, SocketCount, Settles, Usable, AnyUsable, IsFtp, ReadyStays, NoRoom;
      hide SocketsFrom, TakesFrom, NoSocketFor, SameReady;
      if address == "" || file.path == "" {
        return -1;
      }
      ghost var a := Now();
      Clean(w);
      ghost var b := Now();
      Finding(a, b, options, w);
      p := Search();
      GentleMeans(a.slots, b.slots, a.lost, b.lost);
      GentleMeans(b.slots, lnk[..], b.lost, lost);
      SettledStill(a, b, Now());
      if p >= 0 {
        ghost var c := Now();
        SocketsSteps(a.slots, b.slots, c.slots);
        var begun := Begin(p, address, file, cached, outcome, w.now);
        SettledStill(a, c, Now());
        if lnk[p].conn.soc >= 0 && TakesFrom(c.slots, lnk[p], address) {
          TakenFrom(a.slots, c.slots, lnk[p], address);
        }
        if forall k :: 0 <= k < |a.slots| ==> NoSocketFor(a.slots[k], address, w.now) {
          NoneForIt(a.slots, c.slots, address, w.now);
        }
        if !begun {
          p := -1;
        }
      }
    }

    /** Whatever the download loop does to a slot, except to its socket. */
    method Progress(p: nat, s: Slot)
      requires Valid() && p < lnk.Length && MayProgress(lnk[p], s)
      modifies lnk
      ensures Valid() && lnk[..] == old(lnk[..])[p := s]
    {
      hide Owned, Marked;
      Keeping(lnk[..], p, s, handles, closed, lost);
      lnk[p] := s;
    }

    /** A transfer ends with an error: its socket is closed. */
    method Fail(p: nat, statuscode: int)
      requires Valid() && p < lnk.Length && Active(lnk[p])
      modifies lnk, `closed, `lost
      ensures Valid() && Now() == GiveUp(old(Now()), p, Ended(old(lnk[p]), statuscode))
    {
      hide Owned, Marked;
      var s := lnk[p];
      Closing(lnk[..], p, Ended(s, statuscode), handles, closed, lost);
      DeleteHttp(p);
      lnk[p] := lnk[p].(statuscode := statuscode);
      lnk[p] := lnk[p].(status := STATUS_READY);
      assert lnk[..] == old(lnk[..])[p := Ended(s, statuscode)];
    }

    /** `back_delete_all`: every socket ever opened has been closed, or is lost; the ones in danger are lost now. */
    method DeleteAll()
      requires Valid()
      modifies lnk, `closed, `lost
      ensures Valid() && Held(lnk[..]) == {} && closed !! lost
      ensures forall x :: x in closed || x in lost <==> 0 <= x < handles
      ensures lost == old(lost) + Marked(old(lnk[..]))
      ensures lost == old(lost) <==> FilesApart(old(lnk[..]))
    {
      hide Owned, Marked;
      NewlyLost(old(lnk[..]), handles, closed, lost);
      var i := 0;
      while i < lnk.Length
        invariant i <= lnk.Length && Valid()
        invariant forall k :: 0 <= k < i ==> lnk[k] == FREE_SLOT
        invariant lost + Marked(lnk[..]) == old(lost) + Marked(old(lnk[..]))
      {
        MarkedSlot(lnk[..], i);
        Delete(i);
        i := i + 1;
      }
      NothingHeld(lnk[..], handles, closed, lost);
      NoneMarked(lnk[..]);
    }

    // ---- Whole runs ----

    /** One event; events that do not apply to the slot are ignored. */
    method Perform(e: Event, w: World)
      requires Valid()
      modifies lnk, `handles, `closed, `lost
      ensures Valid() && Step(old(Now()), Now(), e, options, w)
    {
      hide Owned, AllGood, Tidy, SocketCount, SameTransfers, Gentle, Settles, Adds, Cleans;
      match e
      case Adding(address, file, cached, outcome) =>
        var p := Add(address, file, cached, outcome, w);
        assert Adds(old(Now()), Now(), p, e, options, w);
      case Connecting(p, outcome) =>
        if p < lnk.Length && lnk[p].status == STATUS_WAIT_DNS {
          Connect(p, outcome);
        }
      case Progressing(p, slot) =>
        if p < lnk.Length && MayProgress(lnk[p], slot) {
          Progress(p, slot);
        }
      case Failing(p, statuscode) =>
        if p < lnk.Length && Active(lnk[p]) {
          Fail(p, statuscode);
        }
      case Releasing(p) =>
        if p < lnk.Length {
          var _ := MayDelete(p, w.now, w.broken);
        }
      case ReleasingSocket(p) =>
        if p < lnk.Length && lnk[p].status != STATUS_ALIVE {
          var q := MayDeleteHttp(p, w.now, w.broken);
          assert q != -1 ==> HandsOver(old(Now()), Now(), p, q);
        }
      case Deleting(p) =>
        if p < lnk.Length {
          Delete(p);
        }
      case Cleaning =>
        Clean(w);
    }

    /**
      Any run keeps the ownership of sockets.  A socket is lost exactly when a slot is given up while it
      holds the socket and is marked as a file.
     */
    method Run(events: seq<(Event, World)>) returns (ghost trace: seq<State>)
      requires Valid()
      modifies lnk, `handles, `closed, `lost
      ensures Valid() && Follows(trace, events, options) && trace[0] == old(Now()) && trace[|events|] == Now()
      ensures forall k :: 0 <= k <= |events| ==> Proper(trace[k])
      ensures lost == old(lost) + AllGivenUp(trace, events)
      ensures lost == old(lost) <==> AllGivenUp(trace, events) == {}
      ensures (forall k :: 0 <= k < |events| ==> !MarksSocket(events[k].0)) && FilesApart(old(lnk[..])) ==>
                FilesApart(lnk[..]) && lost == old(lost)
    {
      hide Owned, AllGood, FilesApart, Step;
      trace := [Now()];
      var i := 0;
      while i < |events|
        invariant i <= |events| && Valid() && |trace| == i + 1
        invariant Follows(trace, events[..i], options) && trace[0] == old(Now()) && trace[i] == Now()
        invariant forall k :: 0 <= k <= i ==> Proper(trace[k])
      {
        Perform(events[i].0, events[i].1);
        assert forall k :: 0 <= k < i ==> events[..i + 1][k] == events[..i][k];
        trace := trace + [Now()];
        i := i + 1;
      }
      assert events[..|events|] == events;
      RunLoses(trace, events, options);
      RunKeepsApart(trace, events, options);
    }
  }

  /**
    From start to end: every socket opened is closed exactly once, unless it is lost; and it is lost
    exactly when a slot is given up while it holds the socket and is marked as a file.
   */
  method RunToTheEnd(count: nat, options: Options, events: seq<(Event, World)>)
    returns (backlog: Backlog, ghost trace: seq<State>)
    ensures backlog.Valid() && Held(backlog.lnk[..]) == {} && backlog.closed !! backlog.lost
    ensures forall x :: x in backlog.closed || x in backlog.lost <==> 0 <= x < backlog.handles
    ensures Follows(trace, events, options) && trace[0] == State(seq(count, _ => FREE_SLOT), 0, {}, {})
    ensures backlog.lost == AllGivenUp(trace, events) + Marked(trace[|events|].slots)
    ensures backlog.lost == {} <==> AllGivenUp(trace, events) == {} && FilesApart(trace[|events|].slots)
    ensures (forall k :: 0 <= k < |events| ==> !MarksSocket(events[k].0)) ==> backlog.lost == {}
  {
    hide Owned, AllGood, Step;
    backlog := new Backlog(count, options);
    assert backlog.lnk[..] == seq(count, _ => FREE_SLOT);
    trace := backlog.Run(events);
    NoneMarked(backlog.lnk[..]);
    backlog.DeleteAll();
  }

  /** Idle connections to one host are not used for another one: a socket is opened. */
  lemma OtherHost(a: State, b: State, p: int, e: Event, options: Options, w: World)
    requires e.Adding? && Adds(a, b, p, e, options, w) && p != -1
    requires e.address == "b.example" && !e.cached && e.outcome == Connected
    requires forall k :: 0 <= k < |a.slots| ==> a.slots[k].address == "A.example"
    ensures b.handles == a.handles + 1 && b.slots[p].conn.soc == a.handles
  {
    hide TransfersKept, Settles, NoRoom;
    assert !IsFtp("b.example") by {
      assert Lower("b.example"[..6][0]) != Lower(FTP[0]);
    }
    var x, y := "A.example", "b.example";
    assert x[0] == 'A' && y[0] == 'b';
    assert !EqualButCase(x, y);
  }

  /** The case of letters makes no difference. */
  lemma SameHost()
    ensures EqualButCase("A.Example", "a.eXamPle") && !EqualButCase("a.example", "a.example.")
  {
  }

  const LOCAL_COPY := FREE_SLOT.(status := STATUS_READY, conn := NO_CONNECTION.(soc := 0), isFile := true)

  /** A transfer starts, ends as a file on disk while it is still connected, and gives up its socket. */
  function LosingEvents(w: World): seq<(Event, World)> {
    [(Adding("www.example.com", NO_FILE.(path := "/"), false, Connected), w),
     (Progressing(0, LOCAL_COPY), w),
     (ReleasingSocket(0), w)]
  }

  lemma LosingStart(a: State, b: State, options: Options, w: World)
    requires Proper(b) && a == State([FREE_SLOT], 0, {}, {}) && Step(a, b, LosingEvents(w)[0].0, options, w)
    ensures b.slots[0].conn.soc == 0 && b.slots[0].status == STATUS_CONNECTING
    ensures b.handles == 1 && b.lost == {} && b.closed == {}
  {
    hide Proper, TransfersKept;
    assert !IsFtp("www.example.com") by {
      assert Lower("www.example.com"[..6][0]) != Lower(FTP[0]);
    }
    assert !Active(a.slots[0]) && !Stays(a.slots[0], w.written(0));
    OnlyHandle(b);
  }

  lemma OnlyHandle(b: State)
    requires Proper(b) && |b.slots| == 1 && 0 <= b.slots[0].conn.soc && b.handles <= 1
    ensures b.slots[0].conn.soc == 0 && b.handles == 1 && b.closed == {}
  {
    HeldSlot(b.slots, 0);
    assert forall x :: x in b.closed ==> x in {0};
  }

  /** The condition is needed: this run loses the socket it opens, which no slot holds and nothing has closed. */
  lemma LosingRun(trace: seq<State>, options: Options, w: World)
    requires Follows(trace, LosingEvents(w), options) && forall k :: 0 <= k <= 3 ==> Proper(trace[k])
    requires trace[0] == State([FREE_SLOT], 0, {}, {})
    ensures trace[3].handles == 1 && trace[3].lost == {0} && trace[3].closed == {} && Held(trace[3].slots) == {}
  {
    hide Adds;
    var events := LosingEvents(w);
    assert Step(trace[0], trace[0 + 1], events[0].0, options, w);
    assert Step(trace[1], trace[1 + 1], events[1].0, options, w);
    assert Step(trace[2], trace[2 + 1], events[2].0, options, w);
    LosingStart(trace[0], trace[1], options, w);
  }

  /** Such a run, from an empty backlog of one slot. */
  method LoseSocket(options: Options, w: World) returns (backlog: Backlog)
    ensures backlog.Valid() && backlog.handles == 1 && Held(backlog.lnk[..]) == {}
    ensures backlog.lost == {0} && backlog.closed == {}
  {
    hide Owned, AllGood, Step;
    backlog := new Backlog(1, options);
    assert backlog.lnk[..] == [FREE_SLOT];
    ghost var trace := backlog.Run(LosingEvents(w));
    LosingRun(trace, options, w);
  }
}
