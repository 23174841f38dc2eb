/**
  Whole runs of the hashtable: any sequence of operations behaves as on a finite map, values are
  released exactly as often as they were written, and enumeration yields no entry twice.
 */
module CoucalRuns {
  import opened Bytes
  import opened CoucalTypes
  import opened CoucalTable
  import opened CoucalMap
  import opened CoucalPool
  import opened CoucalLayout
  import opened CoucalHashtable

  // ---- The finite map ----

  datatype Operation =
    | Write(name: CString, value: Value)
    | Read(name: CString)
    | ReadWith(name: CString, hashes: HashKeys)
    | Remove(name: CString)
    | Count

  datatype Answer =
    | Written(added: bool)
    | Found(value: Option<Value>)
    | Removed(present: bool)
    | Counted(n: nat)

  /** What the documentation promises of one operation on the map `m`. */
  ghost function MapAfter(m: Contents, op: Operation): Contents {
    match op
    case Write(name, value) => m[name := value]
    case Remove(name) => m - {name}
    case _ => m
  }

  ghost function MapAnswer(m: Contents, op: Operation, hash: Hasher): Answer {
    match op
    case Write(name, _) => Written(name !in m)
    case Read(name) => Found(if name in m then Some(m[name]) else None)
    case ReadWith(name, hashes) => Found(if name in m && hashes == hash(name) then Some(m[name]) else None)
    case Remove(name) => Removed(name in m)
    case Count => Counted(|m|)
  }

  ghost function MapAfterAll(m: Contents, ops: seq<Operation>): Contents {
    if ops == [] then m else MapAfter(MapAfterAll(m, ops[..|ops| - 1]), ops[|ops| - 1])
  }

  ghost function MapAnswers(m: Contents, ops: seq<Operation>, hash: Hasher): seq<Answer> {
    if ops == [] then []
    else
      var before := ops[..|ops| - 1];
      MapAnswers(m, before, hash) + [MapAnswer(MapAfterAll(m, before), ops[|ops| - 1], hash)]
  }

  /** The non-NULL values written by the operations. */
  ghost function AllWritten(ops: seq<Operation>): multiset<Value> {
    if ops == [] then multiset{}
    else
      var op := ops[|ops| - 1];
      AllWritten(ops[..|ops| - 1]) + if op.Write? then Owned(op.value) else multiset{}
  }

  // ---- One operation on the table ----

  /** Stored and released values together grow by exactly what is written. */
  ghost predicate Balanced(
    freed: multiset<Value>, m: Contents, freed': multiset<Value>, m': Contents, written: multiset<Value>) {
    freed' + Values(m') == freed + Values(m) + written
  }

  lemma WriteBalances(freed: multiset<Value>, m: Contents, name: CString, value: Value)
    ensures name in m ==> Balanced(freed, m, freed + Owned(m[name]), m[name := value], Owned(value))
    ensures name !in m ==> Balanced(freed, m, freed + multiset{}, m[name := value], Owned(value))
  {
    hide Values, Owned;
    ValuesWrite(m, name, value);
    if name in m {
      ValuesRemove(m, name);
      var a, b, c := Owned(m[name]), Owned(value), Values(m - {name});
      assert freed + a + (b + c) == freed + (a + c) + b;
    } else {
      assert m - {name} == m;
      assert freed + multiset{} + (Owned(value) + Values(m)) == freed + Values(m) + Owned(value);
    }
  }

  lemma RemoveBalances(freed: multiset<Value>, m: Contents, name: CString)
    ensures name in m ==> Balanced(freed, m, freed + Owned(m[name]), m - {name}, multiset{})
    ensures name !in m ==> m - {name} == m && Balanced(freed, m, freed + multiset{}, m, multiset{})
  {
    hide Values, Owned;
    if name in m {
      ValuesRemove(m, name);
      GroupSummands(freed, Owned(m[name]), Values(m - {name}));
    }
  }

  /** One of the two assertions that end the program. */
  predicate Fatal(r: Outcome) {
    r.StashFull? || r.TableTooLarge?
  }

  method PerformWrite(table: Coucal, name: CString, value: Value) returns (answer: Option<Answer>)
    requires table.Valid()
    modifies table, table.items, table.stash, table.poolBuffer
    ensures table.poolBuffer == old(table.poolBuffer) || fresh(table.poolBuffer)
    ensures table.items == old(table.items) || fresh(table.items)
    ensures table.freesValues == old(table.freesValues)
    ensures Whole(old(table.Now()))
    ensures answer.None? <==> Fatal(WriteEnds(old(table.Now()), table.hash, name))
    ensures answer.Some? ==>
              && table.Valid() && table.Now() == AfterWrite(old(table.Now()), table.hash, name, value)
              && answer.value == Written(name !in old(table.contents))
              && table.contents == old(table.contents)[name := value]
    ensures answer.Some? && table.freesValues ==>
              Balanced(old(table.freed), old(table.contents), table.freed, table.contents, Owned(value))
  {
    hide Represents, PoolOk, Placed, AllTaken, Values, Owned, OnlyEarlier, Balanced, AfterWrite, Entries, HalfFull;
    hide HasNoPlace, KeysIn, Pow2;
    table.WholeNow();
    KeysHeld(table.Slots(), table.text, table.poolBase, table.hash, table.contents);
    WriteBalances(table.freed, table.contents, name, value);
    var r := table.WriteValue(name, value);
    answer := if Fatal(r) then None else Some(Written(r.Inserted?));
  }

  method PerformRemove(table: Coucal, name: CString) returns (answer: Answer)
    requires table.Valid()
    modifies table, table.items, table.stash, table.poolBuffer
    ensures table.poolBuffer == old(table.poolBuffer) || fresh(table.poolBuffer)
    ensures table.items == old(table.items)
    ensures table.freesValues == old(table.freesValues)
    ensures table.Valid()
    ensures Whole(old(table.Now())) && table.Now() == AfterRemove(old(table.Now()), table.hash, name)
    ensures answer == Removed(name in old(table.contents))
    ensures table.contents == old(table.contents) - {name}
    ensures table.freesValues ==>
              Balanced(old(table.freed), old(table.contents), table.freed, table.contents, multiset{})
  {
    hide Represents, PoolOk, Placed, AllTaken, Values, Owned, OnlyEarlier, Balanced, AfterRemove, Entries;
    RemoveBalances(table.freed, table.contents, name);
    var r := table.Remove(name);
    answer := Removed(r);
  }

  /** What an operation does to the layout. */
  function LayoutAfter(l: Layout, hash: Hasher, op: Operation): (r: Layout)
    requires Whole(l)
    ensures Whole(r) && l.lg <= r.lg <= l.lg + 1
  {
    match op
    case Write(name, value) => AfterWrite(l, hash, name, value)
    case Remove(name) => AfterRemove(l, hash, name)
    case _ => l
  }

  /** In this layout the operation ends the program. */
  predicate StopsAt(l: Layout, hash: Hasher, op: Operation)
    requires Whole(l)
  {
    op.Write? && Fatal(WriteEnds(l, hash, op.name))
  }

  function LayoutAfterAll(l: Layout, hash: Hasher, ops: seq<Operation>): (r: Layout)
    requires Whole(l)
    ensures Whole(r) && l.lg <= r.lg <= l.lg + |ops|
  {
    if ops == [] then l else LayoutAfter(LayoutAfterAll(l, hash, ops[..|ops| - 1]), hash, ops[|ops| - 1])
  }

  /** The first operation of a run that ends the program, or the number of operations. */
  function FirstStop(l: Layout, hash: Hasher, ops: seq<Operation>): (n: nat)
    requires Whole(l)
    ensures n <= |ops|
  {
    if ops == [] then 0
    else
      var before := ops[..|ops| - 1];
      var n := FirstStop(l, hash, before);
      if n == |before| && !StopsAt(LayoutAfterAll(l, hash, before), hash, ops[|ops| - 1]) then |ops| else n
  }

  /** No operation before that one ends the program. */
  lemma {:induction false} FirstStops(l: Layout, hash: Hasher, ops: seq<Operation>)
    requires Whole(l)
    ensures var n := FirstStop(l, hash, ops);
            && (forall k :: 0 <= k < n ==> !StopsAt(LayoutAfterAll(l, hash, ops[..k]), hash, ops[k]))
            && (n < |ops| ==> StopsAt(LayoutAfterAll(l, hash, ops[..n]), hash, ops[n]))
  {
    hide StopsAt, LayoutAfterAll;
    if ops != [] {
      var before := ops[..|ops| - 1];
      FirstStops(l, hash, before);
      assert forall k :: 0 <= k <= |before| ==> before[..k] == ops[..k];
    }
  }

  lemma OnlyStop(l: Layout, hash: Hasher, ops: seq<Operation>, n: nat)
    requires Whole(l) && n <= |ops|
    requires forall k :: 0 <= k < n ==> !StopsAt(LayoutAfterAll(l, hash, ops[..k]), hash, ops[k])
    requires n < |ops| ==> StopsAt(LayoutAfterAll(l, hash, ops[..n]), hash, ops[n])
    ensures n == FirstStop(l, hash, ops)
  {
    hide StopsAt, LayoutAfterAll, FirstStop;
    FirstStops(l, hash, ops);
  }

  /** One operation; `None` is one of the two fatal assertions. */
  method Perform(table: Coucal, op: Operation) returns (answer: Option<Answer>)
    requires table.Valid()
    modifies table, table.items, table.stash, table.poolBuffer
    ensures table.poolBuffer == old(table.poolBuffer) || fresh(table.poolBuffer)
    ensures table.items == old(table.items) || fresh(table.items)
    ensures table.freesValues == old(table.freesValues)
    ensures Whole(old(table.Now())) && (answer.None? <==> StopsAt(old(table.Now()), table.hash, op))
    ensures answer.None? ==> op.Write? && op.name !in old(table.contents)
    ensures answer.Some? ==>
              && table.Valid() && table.stashSize <= table.stash.Length
              && answer.value == MapAnswer(old(table.contents), op, table.hash)
              && table.contents == MapAfter(old(table.contents), op)
              && table.Now() == LayoutAfter(old(table.Now()), table.hash, op)
    ensures answer.Some? && table.freesValues ==>
              Balanced(old(table.freed), old(table.contents), table.freed, table.contents,
                       if op.Write? then Owned(op.value) else multiset{})
  {
    hide Represents, PoolOk, Placed, AllTaken, Values, Owned, OnlyEarlier, AfterWrite, AfterRemove, WriteEnds, Entries;
    hide Pow2, Coucal.PoolValid;
    NewKeyStops(table, op);
    match op {
      case Write(name, value) =>
        answer := PerformWrite(table, name, value);
      case Read(name) =>
        var v := table.ReadValue(name);
        answer := Some(Found(v));
      case ReadWith(name, hashes) =>
        var v := table.FetchValueHashes(name, hashes);
        answer := Some(Found(v));
      case Remove(name) =>
        var a := PerformRemove(table, name);
        answer := Some(a);
      case Count =>
        var n := table.Count();
        answer := Some(Counted(n));
    }
  }

  /** Only the write of a new key can end the program. */
  lemma NewKeyStops(table: Coucal, op: Operation)
    requires table.Valid()
    ensures Whole(table.Now())
    ensures StopsAt(table.Now(), table.hash, op) ==> op.name !in table.contents
  {
    hide Represents, Entries, Pow2, HalfFull, HasNoPlace;
    table.WholeNow();
    KeysHeld(table.Slots(), table.text, table.poolBase, table.hash, table.contents);
  }

  // ---- Whole runs ----

  /**
    Any sequence of operations answers as the finite map does, and leads to the layout that the
    operations and the hash function determine.  A run stops early exactly at the first write that
    ends in one of the two fatal assertions, which is always the write of a new key.
   */
  method Run(table: Coucal, ops: seq<Operation>) returns (answers: seq<Answer>)
    requires table.Valid()
    modifies table, table.items, table.stash, table.poolBuffer
    ensures Whole(old(table.Now())) && |answers| == FirstStop(old(table.Now()), table.hash, ops)
    ensures answers == MapAnswers(old(table.contents), ops[..|answers|], table.hash)
    ensures |answers| == |ops| ==>
              && table.Valid() && table.contents == MapAfterAll(old(table.contents), ops)
              && table.Now() == LayoutAfterAll(old(table.Now()), table.hash, ops)
    ensures |answers| < |ops| ==>
              && ops[|answers|].Write?
              && ops[|answers|].name !in MapAfterAll(old(table.contents), ops[..|answers|])
    ensures table.freesValues == old(table.freesValues)
    ensures |answers| == |ops| && table.freesValues ==>
              Balanced(old(table.freed), old(table.contents), table.freed, table.contents, AllWritten(ops))
    ensures table.items == old(table.items) || fresh(table.items)
    ensures table.poolBuffer == old(table.poolBuffer) || fresh(table.poolBuffer)
  {
    hide Represents, PoolOk, Placed, AllTaken, Values, Owned, Balanced, MapAnswers, MapAfterAll, AllWritten, MapAnswer;
    hide MapAfter, LayoutAfter, LayoutAfterAll, StopsAt, FirstStop, Coucal.Valid, Coucal.Now;
    StashFits(table);
    ghost var m, freed0, l := table.contents, table.freed, table.Now();
    answers := [];
    NewKeyStops(table, Count);
    StartBalanced(freed0, m);
    NoOperation(m, l, ops, table.hash);
    while |answers| < |ops|
      invariant |answers| <= |ops|
      invariant table.Valid() && table.stashSize <= table.stash.Length
      invariant table.Now() == LayoutAfterAll(l, table.hash, ops[..|answers|])
      invariant table.items == old(table.items) || fresh(table.items)
      invariant table.poolBuffer == old(table.poolBuffer) || fresh(table.poolBuffer)
      invariant table.freesValues == old(table.freesValues)
      invariant answers == MapAnswers(m, ops[..|answers|], table.hash)
      invariant forall k :: 0 <= k < |answers| ==>
                  !StopsAt(LayoutAfterAll(l, table.hash, ops[..k]), table.hash, ops[k])
      invariant table.contents == MapAfterAll(m, ops[..|answers|])
      invariant table.freesValues ==>
                  Balanced(freed0, m, table.freed, table.contents, AllWritten(ops[..|answers|]))
    {
      var i := |answers|;
      ghost var m1, freed1 := table.contents, table.freed;
      OneOperation(m, l, ops, i, table.hash);
      var answer := Perform(table, ops[i]);
      if answer.None? {
        OnlyStop(l, table.hash, ops, i);
        return;
      }
      if table.freesValues {
        BalancedTwice(freed0, m, freed1, m1, table.freed, table.contents, AllWritten(ops[..i]),
                      if ops[i].Write? then Owned(ops[i].value) else multiset{});
      }
      answers := answers + [answer.value];
    }
    assert ops[..|ops|] == ops;
    OnlyStop(l, table.hash, ops, |ops|);
  }

  lemma NoOperation(m: Contents, l: Layout, ops: seq<Operation>, hash: Hasher)
    requires Whole(l)
    ensures MapAnswers(m, ops[..0], hash) == [] && MapAfterAll(m, ops[..0]) == m && AllWritten(ops[..0]) == multiset{}
    ensures LayoutAfterAll(l, hash, ops[..0]) == l
  {
  }

  lemma OneOperation(m: Contents, l: Layout, ops: seq<Operation>, i: nat, hash: Hasher)
    requires i < |ops| && Whole(l)
    ensures MapAfterAll(m, ops[..i + 1]) == MapAfter(MapAfterAll(m, ops[..i]), ops[i])
    ensures MapAnswers(m, ops[..i + 1], hash)
            == MapAnswers(m, ops[..i], hash) + [MapAnswer(MapAfterAll(m, ops[..i]), ops[i], hash)]
    ensures AllWritten(ops[..i + 1]) == AllWritten(ops[..i]) + if ops[i].Write? then Owned(ops[i].value) else multiset{}
    ensures LayoutAfterAll(l, hash, ops[..i + 1]) == LayoutAfter(LayoutAfterAll(l, hash, ops[..i]), hash, ops[i])
  {
    hide LayoutAfter;
    assert ops[..i + 1][..i] == ops[..i];
  }

  lemma StartBalanced(freed: multiset<Value>, m: Contents)
    ensures Balanced(freed, m, freed, m, multiset{})
  {
  }

  lemma BalancedTwice(
    freed0: multiset<Value>, m0: Contents, freed1: multiset<Value>, m1: Contents, freed2: multiset<Value>, m2: Contents,
    written1: multiset<Value>, written2: multiset<Value>)
    requires Balanced(freed0, m0, freed1, m1, written1) && Balanced(freed1, m1, freed2, m2, written2)
    ensures Balanced(freed0, m0, freed2, m2, written1 + written2)
  {
    hide Values;
    GroupSummands(freed0 + Values(m0), written1, written2);
  }

  /**
    From `coucal_new` to `coucal_delete` with a free handler set: unless the run ends early, every
    written value has been released exactly as often as it was written.
   */
  method RunFromNew(initialSize: nat, hash: Hasher, ops: seq<Operation>) returns (table: Coucal, answers: seq<Answer>)
    requires initialSize <= Pow2(32)
    ensures table.hash == hash && fresh(table)
    ensures var l := EmptyLayout(SizeFor(initialSize, 4));
            Whole(l) && |answers| == FirstStop(l, hash, ops)
    ensures answers == MapAnswers(map[], ops[..|answers|], hash)
    ensures |answers| < |ops| ==>
              ops[|answers|].Write? && ops[|answers|].name !in MapAfterAll(map[], ops[..|answers|])
    ensures |answers| == |ops| ==> table.freed == AllWritten(ops)
  {
    hide Represents, PoolOk, Placed, AllTaken, Pow2, FirstStop, MapAnswers, AllWritten, Entries, Coucal.PoolValid;
    table := Coucal.New(initialSize, hash);
    table.FreeValues(true);
    answers := Run(table, ops);
    if |answers| == |ops| {
      table.Delete();
    }
  }

  // ---- A displacement ----

  /** Four entries of a table of the smallest size, in its first slots. */
  function FirstFour(e0: Entry, e1: Entry, e2: Entry, e3: Entry): Layout {
    Layout(4, [e0, e1, e2, e3] + seq(12, i => None))
  }

  /** The writes of four keys, of which the last one kicks the second one, and that the first one. */
  lemma FourWrites(hash: Hasher, a: CString, b: CString, c: CString, d: CString, v: Value)
    requires hash(a) == HashKeys(0, 3) && hash(b) == HashKeys(0, 1)
    requires hash(c) == HashKeys(2, 5) && hash(d) == HashKeys(1, 2)
    ensures Whole(EmptyLayout(MIN_LG_SIZE))
    ensures LayoutAfterAll(EmptyLayout(MIN_LG_SIZE), hash, [Write(a, v), Write(b, v), Write(c, v), Write(d, v)])
            == FirstFour(Some((b, v)), Some((d, v)), Some((c, v)), Some((a, v)))
  {
    hide AfterWrite;
    Sixteen();
    var ops := [Write(a, v), Write(b, v), Write(c, v), Write(d, v)];
    var l0, l1 := FirstFour(None, None, None, None), FirstFour(Some((a, v)), None, None, None);
    var l2 := FirstFour(Some((a, v)), Some((b, v)), None, None);
    var l3 := FirstFour(Some((a, v)), Some((b, v)), Some((c, v)), None);
    assert EmptyLayout(MIN_LG_SIZE) == l0;
    assert l1.entries[0] == l2.entries[0] == Some((a, v)) && l2.entries[1] == Some((b, v));
    assert KeysIn(l0.entries) == {} && KeysIn(l1.entries) == {a} && KeysIn(l2.entries) == {a, b};
    assert AfterWrite(l0, hash, a, v) == l1 by { WriteHome(l0, hash, a, v, {}, 0); }
    assert AfterWrite(l1, hash, b, v) == l2 by { WriteHome(l1, hash, b, v, {a}, 1); }
    assert AfterWrite(l2, hash, c, v) == l3 by { WriteHome(l2, hash, c, v, {a, b}, 2); }
    LastOfFour(l3, hash, a, b, c, d, v);
    assert ops[..4] == ops && ops[..3][..2] == ops[..2] && ops[..2][..1] == ops[..1] && ops[..1][..0] == [];
    assert LayoutAfterAll(l0, hash, ops[..1]) == l1;
    assert LayoutAfterAll(l0, hash, ops[..2]) == l2;
    assert LayoutAfterAll(l0, hash, ops[..3]) == l3;
  }

  /** A few keys in a table of the smallest size, and one more with a free slot `p`. */
  lemma WriteHome(l: Layout, hash: Hasher, name: CString, value: Value, keys: set<CString>, p: nat)
    requires l.lg == 4 && |l.entries| == Pow2(4) == 16 && KeysIn(l.entries) == keys && |keys| <= 3 && name !in keys
    requires p < 16 && l.entries[p].None?
    requires p == Position(4, hash(name).hash1) ||
             (p == Position(4, hash(name).hash2) && l.entries[Position(4, hash(name).hash1)].Some?)
    ensures AfterWrite(l, hash, name, value) == Layout(4, l.entries[p := Some((name, value))])
  {
    hide Put, HasNoPlace, KeysIn;
    assert Pow2(3) == 8;
    PutHome(l, hash, name, value);
  }

  lemma LastOfFour(l: Layout, hash: Hasher, a: CString, b: CString, c: CString, d: CString, v: Value)
    requires hash(a) == HashKeys(0, 3) && hash(b) == HashKeys(0, 1)
    requires hash(c) == HashKeys(2, 5) && hash(d) == HashKeys(1, 2) && Pow2(4) == 16
    requires l == FirstFour(Some((a, v)), Some((b, v)), Some((c, v)), None)
    ensures AfterWrite(l, hash, d, v) == FirstFour(Some((b, v)), Some((d, v)), Some((c, v)), Some((a, v)))
  {
    assert Pow2(3) == 8;
    var all := l.entries + [Some((d, v))];
    var t := Tagged(hash, all);
    var t0, x := t[..16], t[16];
    var t1, t2 := t0[1 := x], t0[1 := x][0 := t0[1]];
    assert Kick(4, t0, x, 1, 1, 16) == Kick(4, t1, t0[1], 0, 1, 15) == Kick(4, t2, t0[0], 3, 1, 14);
    assert Kick(4, t2, t0[0], 3, 1, 14) == Settled(t2[3 := t0[0]]);
    assert Added(4, t0, x) == Settled(t2[3 := t0[0]]);
    PlaceByHashes(4, TableOf(l, hash), t0, x);
    assert KeysIn(l.entries) == {a, b, c};
    assert t[16..16] == [];
  }

  // ---- The two fatal assertions are reached ----

  /** A hash function that has one value. */
  function SameHash(x: HashKey): Hasher {
    _ => HashKeys(x, x)
  }

  predicate AllDifferent(keys: seq<CString>) {
    forall i, j :: 0 <= i < j < |keys| ==> keys[i] != keys[j]
  }

  /** One write after the other. */
  function Writes(keys: seq<CString>, value: Value): (ops: seq<Operation>)
    ensures |ops| == |keys|
    ensures forall k :: 0 <= k < |keys| ==> ops[k] == Write(keys[k], value)
  {
    seq(|keys|, k requires 0 <= k < |keys| => Write(keys[k], value))
  }

  lemma {:induction false} KeysWritten(m: Contents, keys: seq<CString>, value: Value, n: nat)
    requires n <= |keys| && AllDifferent(keys) && forall k :: 0 <= k < |keys| ==> keys[k] !in m
    ensures var m' := MapAfterAll(m, Writes(keys, value)[..n]);
            |m'| == |m| + n && forall k :: n <= k < |keys| ==> keys[k] !in m'
  {
    var ops := Writes(keys, value);
    if n > 0 {
      KeysWritten(m, keys, value, n - 1);
      assert ops[..n][..n - 1] == ops[..n - 1] && ops[..n][n - 1] == Write(keys[n - 1], value);
      OneMoreKeyed(MapAfterAll(m, ops[..n - 1]), keys[n - 1], value);
    }
  }

  lemma OneMoreKeyed(m: Contents, key: CString, value: Value)
    requires key !in m
    ensures |m[key := value]| == |m| + 1 && forall k :: k != key && k !in m ==> k !in m[key := value]
  {
    assert m[key := value].Keys == m.Keys + {key};
    assert |m.Keys| == |m| && |m[key := value].Keys| == |m[key := value]|;
  }

  lemma EntriesFit(table: Coucal, x: HashKey)
    requires table.Valid() && table.hash == SameHash(x)
    ensures |table.contents| <= 1 + table.stashSize <= 1 + STASH_SIZE
    ensures Whole(table.Now()) && table.stashSize == StashCount(table.Now())
  {
    hide Represents, Placed;
    table.WholeNow();
    Crowded(table.lgSize, table.items[..], table.stash[..table.stashSize], table.text, table.poolBase, table.hash,
            table.contents, x);
  }

  /**
    With a hash function of one value a run of 18 writes of different keys, from a table of the
    smallest size, stops at a write that finds the stash full.
   */
  method FillStash(x: HashKey, keys: seq<CString>, value: Value) returns (n: nat)
    requires |keys| == 18 && AllDifferent(keys)
    ensures var l, ops := EmptyLayout(4), Writes(keys, value);
            && Whole(l) && n == FirstStop(l, SameHash(x), ops) < |keys|
            && WriteEnds(LayoutAfterAll(l, SameHash(x), ops[..n]), SameHash(x), keys[n]) == StashFull
  {
    hide Coucal.Valid, Coucal.Now, AllDifferent, Writes, FirstStop, LayoutAfterAll, Pow2, WriteEnds;
    var table := Coucal.New(0, SameHash(x));
    SizesFit(table);
    ghost var l := table.Now();
    var answers := Run(table, Writes(keys, value));
    n := |answers|;
    if n == |keys| {
      KeysWritten(map[], keys, value, n);
      assert Writes(keys, value)[..n] == Writes(keys, value);
      EntriesFit(table, x);
    }
    FirstStops(l, SameHash(x), Writes(keys, value));
    SmallTable(LayoutAfterAll(l, SameHash(x), Writes(keys, value)[..n]), SameHash(x), keys[n]);
  }

  /** A table that is not of the largest size can double. */
  lemma SmallTable(l: Layout, hash: Hasher, name: CString)
    requires Whole(l) && l.lg < COUCAL_HASH_SIZE
    ensures Fatal(WriteEnds(l, hash, name)) ==> WriteEnds(l, hash, name) == StashFull
  {
  }

  /** The largest table cannot double: nine such keys stop the run before the stash is full. */
  method OutgrowTable(x: HashKey, keys: seq<CString>, value: Value) returns (n: nat)
    requires |keys| == 9 && AllDifferent(keys)
    ensures var l, ops := EmptyLayout(32), Writes(keys, value);
            && Whole(l) && n == FirstStop(l, SameHash(x), ops) < |keys|
            && WriteEnds(LayoutAfterAll(l, SameHash(x), ops[..n]), SameHash(x), keys[n]) == TableTooLarge
  {
    hide Coucal.Valid, Coucal.Now, AllDifferent, Writes, FirstStop, LayoutAfterAll, Pow2, WriteEnds;
    var table := Coucal.New(Pow2(COUCAL_HASH_SIZE), SameHash(x));
    SizesFit(table);
    LargestTable(table.lgSize);
    ghost var l := table.Now();
    var answers := Run(table, Writes(keys, value));
    n := |answers|;
    StaysLarge(l, SameHash(x), keys, value, n);
    if n == |keys| {
      KeysWritten(map[], keys, value, n);
      assert Writes(keys, value)[..n] == Writes(keys, value);
      EntriesFit(table, x);
    }
    FirstStops(l, SameHash(x), Writes(keys, value));
    RoomInStash(LayoutAfterAll(l, SameHash(x), Writes(keys, value)[..n]), SameHash(x), keys[n]);
  }

  lemma RoomInStash(l: Layout, hash: Hasher, name: CString)
    requires Whole(l) && StashCount(l) < STASH_SIZE / 2
    ensures Fatal(WriteEnds(l, hash, name)) ==> WriteEnds(l, hash, name) == TableTooLarge
  {
  }

  /** As long as no write stops the run, the largest table keeps its size and a stash less than half full. */
  lemma {:induction false} StaysLarge(l: Layout, hash: Hasher, keys: seq<CString>, value: Value, n: nat)
    requires Whole(l) && l.lg == COUCAL_HASH_SIZE && StashCount(l) < STASH_SIZE / 2
    requires n <= |keys| && n <= FirstStop(l, hash, Writes(keys, value))
    ensures var l' := LayoutAfterAll(l, hash, Writes(keys, value)[..n]);
            l'.lg == COUCAL_HASH_SIZE && StashCount(l') < STASH_SIZE / 2
  {
    hide AfterWrite, Pow2, FirstStop;
    var ops := Writes(keys, value);
    if n > 0 {
      StaysLarge(l, hash, keys, value, n - 1);
      FirstStops(l, hash, ops);
      assert ops[..n][..n - 1] == ops[..n - 1];
      var before := LayoutAfterAll(l, hash, ops[..n - 1]);
      assert !StopsAt(before, hash, ops[n - 1]);
      LargeStep(before, hash, keys[n - 1], value);
    }
  }

  lemma LargeStep(l: Layout, hash: Hasher, name: CString, value: Value)
    requires Whole(l) && l.lg == COUCAL_HASH_SIZE && StashCount(l) < STASH_SIZE / 2
    requires !Fatal(WriteEnds(l, hash, name))
    ensures var l' := AfterWrite(l, hash, name, value);
            l'.lg == COUCAL_HASH_SIZE && StashCount(l') < STASH_SIZE / 2
  {
    hide Pow2, Put, Grown, HasNoPlace, KeysIn;
    PutStash(l, hash, name, value);
  }

  lemma SizesFit(table: Coucal)
    requires table.Valid()
    ensures table.stashSize <= STASH_SIZE == table.stash.Length && table.lgSize <= COUCAL_HASH_SIZE
  {
  }

  lemma LargestTable(lg: nat)
    requires lg <= COUCAL_HASH_SIZE && Pow2(COUCAL_HASH_SIZE) <= Pow2(lg)
    ensures lg == COUCAL_HASH_SIZE
  {
    if lg < COUCAL_HASH_SIZE {
      Pow2Monotone(lg, COUCAL_HASH_SIZE - 1);
    }
  }

  // ---- Enumeration ----

  /** `struct_coucal_enum`. */
  class Enumerator {
    const table: Coucal
    var index: nat

    constructor (table: Coucal)
      ensures this.table == table && index == 0
    {
      this.table := table;
      index := 0;
    }

    /** `coucal_enum_next`: the next occupied slot at or after the cursor. */
    method Next() returns (item: Option<Item>)
      requires table.Valid()
      modifies `index
      ensures item.Some? ==>
                && old(index) < index <= |table.Slots()|
                && item.value == table.Slots()[index - 1] && !item.value.name.Null?
                && forall k :: old(index) <= k < index - 1 ==> table.Slots()[k].name.Null?
      ensures old(index) <= index
      ensures item.None? ==>
                && index == (if old(index) < Pow2(table.lgSize) then Pow2(table.lgSize) else old(index))
                && forall k :: old(index) <= k < |table.Slots()| ==> table.Slots()[k].name.Null?
    {
      hide Represents, PoolOk, Placed;
      var size := table.items.Length;
      while index < size && table.items[index].name.Null?
        invariant old(index) <= index && (index <= size || index == old(index))
        invariant forall k :: old(index) <= k < index && k < size ==> table.items[k].name.Null?
      {
        index := index + 1;
      }
      if index < size {
        index := index + 1;
        item := Some(table.items[index - 1]);
      } else if index < size + table.stashSize {
        index := index + 1;
        item := Some(table.stash[index - 1 - size]);
      } else {
        item := None;
      }
    }
  }

  /** Entries from `index` on belong to keys not yielded yet. */
  ghost predicate AheadIsNew(entries: seq<Entry>, index: nat, yielded: seq<CString>) {
    forall j :: index <= j < |entries| && entries[j].Some? ==> entries[j].value.0 !in yielded
  }

  /** The keys of the entries below `index`, in slot order. */
  ghost function KeysBelow(entries: seq<Entry>, index: nat): seq<CString>
    requires index <= |entries|
  {
    if index == 0 then []
    else KeysBelow(entries, index - 1) + if entries[index - 1].Some? then [entries[index - 1].value.0] else []
  }

  ghost predicate NoRepeat(keys: seq<CString>) {
    forall i, j :: 0 <= i < j < |keys| ==> keys[i] != keys[j]
  }

  /** Slots with no entry are passed over. */
  lemma {:induction false} NothingBetween(entries: seq<Entry>, lo: nat, hi: nat)
    requires lo <= hi <= |entries|
    requires forall k :: lo <= k < hi ==> entries[k].None?
    ensures KeysBelow(entries, hi) == KeysBelow(entries, lo)
    decreases hi
  {
    if lo < hi {
      NothingBetween(entries, lo, hi - 1);
    }
  }

  lemma {:induction false} KeysBelowHas(entries: seq<Entry>, index: nat, key: CString)
    requires index <= |entries|
    ensures key in KeysBelow(entries, index) <==>
              exists k :: 0 <= k < index && entries[k].Some? && entries[k].value.0 == key
  {
    if index != 0 {
      KeysBelowHas(entries, index - 1, key);
    }
  }

  /** Slots hold distinct keys, so listing them repeats none. */
  lemma {:induction false} KeysBelowDistinct(slots: seq<Item>, text: Text, base: int, index: nat)
    requires Distinct(slots, text, base) && index <= |slots|
    ensures NoRepeat(KeysBelow(Entries(slots, text, base), index))
  {
    if index != 0 {
      KeysBelowDistinct(slots, text, base, index - 1);
      var entries := Entries(slots, text, base);
      if entries[index - 1].Some? {
        var key := entries[index - 1].value.0;
        KeysBelowHas(entries, index - 1, key);
        assert forall k :: 0 <= k < index - 1 && entries[k].Some? ==> entries[k].value.0 != key;
        assert key !in KeysBelow(entries, index - 1);
      }
    }
  }

  /** All slots together hold exactly the keys of the map. */
  lemma AllKeys(slots: seq<Item>, text: Text, base: int, hash: Hasher, contents: Contents)
    requires Represents(slots, text, base, hash, contents)
    ensures var keys := KeysBelow(Entries(slots, text, base), |slots|);
            NoRepeat(keys) && forall key :: key in keys <==> key in contents
  {
    var entries := Entries(slots, text, base);
    KeysBelowDistinct(slots, text, base, |slots|);
    forall key
      ensures key in KeysBelow(entries, |slots|) <==> key in contents
    {
      KeysBelowHas(entries, |slots|, key);
      if key in contents {
        assert Held(slots, text, base, key);
        var k :| Holds(slots, text, base, k, key);
        assert entries[k].Some? && entries[k].value.0 == key;
      }
      if k :| 0 <= k < |slots| && entries[k].Some? && entries[k].value.0 == key {
        assert GoodItem(slots[k], text, base, hash, contents);
      }
    }
  }

  /** The keys of the items an enumeration has found. */
  ghost function KeysOf(text: Text, base: int, found: seq<Item>): seq<CString> {
    seq(|found|, i requires 0 <= i < |found| => KeyOf(text, base, found[i].name))
  }

  /** Enumerating an unchanged table yields every entry, and each exactly once. */
  method EnumerateAll(table: Coucal) returns (found: seq<Item>)
    requires table.Valid()
    ensures var keys := KeysOf(table.text, table.poolBase, found);
            && NoRepeat(keys)
            && (forall key :: key in keys <==> key in table.contents)
            && forall i :: 0 <= i < |found| ==>
                 keys[i] in table.contents && found[i].value == table.contents[keys[i]]
  {
    hide Represents, PoolOk, Placed, AllTaken, NoRepeat, Entries, Pow2;
    var e := new Enumerator(table);
    ghost var entries := table.SlotEntries();
    found := [];
    while true
      invariant e.table == table && table.Valid() && e.index <= |entries| && entries == table.SlotEntries()
      invariant fresh(e)
      invariant KeysOf(table.text, table.poolBase, found) == KeysBelow(entries, e.index)
      invariant forall i :: 0 <= i < |found| ==>
                  var key := KeyOf(table.text, table.poolBase, found[i].name);
                  key in table.contents && found[i].value == table.contents[key]
      decreases |entries| - e.index
    {
      ghost var at := e.index;
      var item := e.Next();
      if item.None? {
        FreeBetween(table.Slots(), table.text, table.poolBase, at, |entries|);
        AllKeys(table.Slots(), table.text, table.poolBase, table.hash, table.contents);
        return;
      }
      FreeBetween(table.Slots(), table.text, table.poolBase, at, e.index - 1);
      OneMoreKey(table.Slots(), table.text, table.poolBase, e.index);
      MatchMeans(table.Slots(), table.text, table.poolBase, table.hash, table.contents, e.index - 1);
      KeysOfOne(table.text, table.poolBase, found, item.value);
      found := found + [item.value];
    }
  }

  lemma FreeBetween(slots: seq<Item>, text: Text, base: int, lo: nat, hi: nat)
    requires lo <= hi <= |slots| && forall k :: lo <= k < hi ==> slots[k].name.Null?
    ensures KeysBelow(Entries(slots, text, base), hi) == KeysBelow(Entries(slots, text, base), lo)
  {
    NothingBetween(Entries(slots, text, base), lo, hi);
  }

  lemma OneMoreKey(slots: seq<Item>, text: Text, base: int, index: nat)
    requires 0 < index <= |slots| && !slots[index - 1].name.Null?
    ensures KeysBelow(Entries(slots, text, base), index) ==
              KeysBelow(Entries(slots, text, base), index - 1) + [KeyOf(text, base, slots[index - 1].name)]
  {
  }

  lemma KeysOfOne(text: Text, base: int, found: seq<Item>, item: Item)
    ensures KeysOf(text, base, found + [item]) == KeysOf(text, base, found) + [KeyOf(text, base, item.name)]
  {
  }

  datatype EnumStep = TakeNext | Drop(key: CString)

  /** The keys dropped by the steps. */
  ghost function Dropped(steps: seq<EnumStep>): set<CString> {
    set s | s in steps && s.Drop? :: s.key
  }

  /**
    What the steps have found: distinct entries of the initial map `m`, none of them dropped before
    the step that found it.
   */
  ghost predicate Logged(m: Contents, steps: seq<EnumStep>, found: seq<Entry>)
    requires |found| <= |steps|
  {
    && NoRepeat(KeysBelow(found, |found|))
    && forall k :: 0 <= k < |found| && found[k].Some? ==>
         && steps[k].TakeNext? && found[k].value.0 !in Dropped(steps[..k])
         && found[k].value.0 in m && m[found[k].value.0] == found[k].value.1
  }

  lemma LogStart(m: Contents, steps: seq<EnumStep>)
    ensures Logged(m, steps, []) && KeysBelow([], 0) == []
  {
  }

  lemma FoundMore(found: seq<Entry>, entry: Entry)
    ensures KeysBelow(found + [entry], |found| + 1)
            == if entry.Some? then KeysBelow(found, |found|) + [entry.value.0] else KeysBelow(found, |found|)
  {
    BelowPrefix(found, entry, |found|);
  }

  lemma {:induction false} BelowPrefix(found: seq<Entry>, entry: Entry, n: nat)
    requires n <= |found|
    ensures KeysBelow(found + [entry], n) == KeysBelow(found, n)
  {
    if n > 0 {
      BelowPrefix(found, entry, n - 1);
    }
  }

  lemma LogMore(m: Contents, steps: seq<EnumStep>, found: seq<Entry>, entry: Entry)
    requires |found| < |steps| && Logged(m, steps, found)
    requires entry.Some? ==>
               && steps[|found|].TakeNext? && entry.value.0 !in KeysBelow(found, |found|)
               && entry.value.0 !in Dropped(steps[..|found|])
               && entry.value.0 in m && m[entry.value.0] == entry.value.1
    ensures Logged(m, steps, found + [entry])
  {
    hide Dropped, KeysBelow, NoRepeat;
    FoundMore(found, entry);
    var more := found + [entry];
    assert forall k :: 0 <= k < |found| ==> more[k] == found[k];
    if entry.Some? {
      NoRepeatMore(KeysBelow(found, |found|), entry.value.0);
    }
  }

  lemma NoRepeatMore(keys: seq<CString>, key: CString)
    requires NoRepeat(keys) && key !in keys
    ensures NoRepeat(keys + [key])
  {
  }

  lemma LogDistinct(m: Contents, steps: seq<EnumStep>, found: seq<Entry>)
    requires |found| <= |steps| && Logged(m, steps, found)
    ensures NoRepeat(KeysBelow(found, |found|)) && |KeysBelow(found, |found|)| <= |m|
  {
    var keys := KeysBelow(found, |found|);
    forall k | 0 <= k < |keys|
      ensures keys[k] in m
    {
      KeysBelowHas(found, |found|, keys[k]);
    }
    NoMoreThan(keys, m);
  }

  // ---- What an enumeration with removals finds ----

  /** A layout, and the slot an enumerator has got to. */
  datatype Cursor = Cursor(layout: Layout, index: nat)

  /** The first entry from slot `i` on. */
  function NextFrom(entries: seq<Entry>, i: nat): (k: nat)
    ensures i <= |entries| ==> i <= k <= |entries|
    ensures k < |entries| ==> i <= k && entries[k].Some?
    ensures forall m :: i <= m < k && m < |entries| ==> entries[m].None?
    decreases |entries| - i
  {
    if i >= |entries| then i else if entries[i].Some? then i else NextFrom(entries, i + 1)
  }

  function CursorAfter(c: Cursor, hash: Hasher, step: EnumStep): (r: (Cursor, Entry))
    requires Whole(c.layout)
    ensures Whole(r.0.layout)
  {
    match step
    case Drop(key) => (c.(layout := AfterRemove(c.layout, hash, key)), None)
    case TakeNext =>
      var k, n := NextFrom(c.layout.entries, c.index), Pow2(c.layout.lg);
      if k < |c.layout.entries| then (c.(index := k + 1), c.layout.entries[k])
      else (c.(index := if c.index < n then n else c.index), None)
  }

  function CursorAfterAll(c: Cursor, hash: Hasher, steps: seq<EnumStep>): (r: (Cursor, seq<Entry>))
    requires Whole(c.layout)
    ensures Whole(r.0.layout)
  {
    if steps == [] then (c, [])
    else
      var before := CursorAfterAll(c, hash, steps[..|steps| - 1]);
      var last := CursorAfter(before.0, hash, steps[|steps| - 1]);
      (last.0, before.1 + [last.1])
  }

  lemma CursorStart(c: Cursor, hash: Hasher, steps: seq<EnumStep>)
    requires Whole(c.layout)
    ensures CursorAfterAll(c, hash, steps[..0]) == (c, [])
  {
  }

  lemma CursorMore(c: Cursor, hash: Hasher, steps: seq<EnumStep>, i: nat)
    requires Whole(c.layout) && i < |steps|
    ensures var before := CursorAfterAll(c, hash, steps[..i]);
            var last := CursorAfter(before.0, hash, steps[i]);
            CursorAfterAll(c, hash, steps[..i + 1]) == (last.0, before.1 + [last.1])
  {
    hide CursorAfter;
    assert steps[..i + 1][..i] == steps[..i];
  }

  // ---- Which entries are yielded ----

  function Takes(steps: seq<EnumStep>): nat {
    if steps == [] then 0 else Takes(steps[..|steps| - 1]) + if steps[|steps| - 1].TakeNext? then 1 else 0
  }

  /** An entry in the first `n` slots, the table, that is not dropped. */
  ghost predicate Lasts(before: seq<Entry>, n: nat, dropped: set<CString>, p: int) {
    0 <= p < n && p < |before| && before[p].Some? && before[p].value.0 !in dropped
  }

  /** Such entries stay where they are, and those below the cursor have been yielded. */
  ghost predicate Progress(
    before: seq<Entry>, now: seq<Entry>, n: nat, dropped: set<CString>, index: nat, yielded: seq<CString>) {
    && n <= |before| && n <= |now|
    && (forall p :: Lasts(before, n, dropped, p) ==> now[p] == before[p])
    && (forall p :: Lasts(before, n, dropped, p) && p < index ==> before[p].value.0 in yielded)
  }

  /** All of them have been yielded. */
  ghost predicate AllYielded(before: seq<Entry>, n: nat, dropped: set<CString>, yielded: seq<CString>) {
    forall p :: Lasts(before, n, dropped, p) ==> before[p].value.0 in yielded
  }

  /** The cursor moves from `index` to `index'`: to the next entry, or past the last. */
  ghost predicate Moves(entries: seq<Entry>, index: nat, index': nat, key: Option<CString>) {
    if key.Some? then
      && index < index' <= |entries| && entries[index' - 1].Some? && entries[index' - 1].value.0 == key.value
      && forall k :: index <= k < index' - 1 ==> entries[k].None?
    else forall k :: index <= k < |entries| ==> entries[k].None?
  }

  lemma ProgressStart(entries: seq<Entry>, n: nat)
    requires n <= |entries|
    ensures Progress(entries, entries, n, {}, 0, [])
  {
  }

  lemma ProgressDrop(
    before: seq<Entry>, now: seq<Entry>, after: seq<Entry>, n: nat, dropped: set<CString>, key: CString, index: nat,
    yielded: seq<CString>)
    requires Progress(before, now, n, dropped, index, yielded) && TableKept(now, after, n, key)
    ensures Progress(before, after, n, dropped + {key}, index, yielded)
  {
    forall p | Lasts(before, n, dropped + {key}, p)
      ensures after[p] == before[p] && (p < index ==> before[p].value.0 in yielded)
    {
      assert Lasts(before, n, dropped, p);
    }
  }

  lemma ProgressTake(
    before: seq<Entry>, now: seq<Entry>, n: nat, dropped: set<CString>, index: nat, index': nat, key: Option<CString>,
    yielded: seq<CString>)
    requires Progress(before, now, n, dropped, index, yielded) && Moves(now, index, index', key)
    ensures key.Some? ==> Progress(before, now, n, dropped, index', yielded + [key.value])
    ensures key.None? ==> Progress(before, now, n, dropped, index', yielded)
    ensures key.None? ==> AllYielded(before, n, dropped, yielded)
  {
    forall p | Lasts(before, n, dropped, p)
      ensures index <= p && key.None? ==> before[p].value.0 in yielded
      ensures index <= p < index' && key.Some? ==> before[p].value.0 == key.value
    {
      assert now[p] == before[p];
    }
  }

  lemma StillAllYielded(
    before: seq<Entry>, n: nat, dropped: set<CString>, dropped': set<CString>, yielded: seq<CString>,
    yielded': seq<CString>)
    requires AllYielded(before, n, dropped, yielded) && dropped <= dropped'
    requires forall key :: key in yielded ==> key in yielded'
    ensures AllYielded(before, n, dropped', yielded')
  {
    forall p | Lasts(before, n, dropped', p)
      ensures before[p].value.0 in yielded'
    {
      assert Lasts(before, n, dropped, p);
    }
  }

  lemma TakesNext(steps: seq<EnumStep>, i: nat)
    requires i < |steps|
    ensures Takes(steps[..i + 1]) == Takes(steps[..i]) + if steps[i].TakeNext? then 1 else 0
  {
    assert steps[..i + 1][..i] == steps[..i];
  }

  /** Distinct keys of a map are no more than its entries. */
  lemma {:induction false} NoMoreThan(keys: seq<CString>, m: Contents)
    requires NoRepeat(keys) && forall k :: 0 <= k < |keys| ==> keys[k] in m
    ensures |keys| <= |m|
    decreases |keys|
  {
    if keys != [] {
      var n := |keys| - 1;
      NoMoreThan(keys[..n], m - {keys[n]});
      Shrinks(m, keys[n]);
    }
  }

  /** Removing entries does not reach the steps past: one round of the loop. */
  lemma RoundDone(
    before: seq<Entry>, now: seq<Entry>, after: seq<Entry>, n: nat, steps: seq<EnumStep>, i: nat, index: nat,
    index': nat, key: Option<CString>, yielded: seq<CString>)
    requires i < |steps| && Progress(before, now, n, Dropped(steps[..i]), index, yielded)
    requires |yielded| <= Takes(steps[..i])
    requires |yielded| < Takes(steps[..i]) ==> AllYielded(before, n, Dropped(steps[..i]), yielded)
    requires if steps[i].Drop? then key.None? && index' == index && TableKept(now, after, n, steps[i].key)
             else after == now && Moves(now, index, index', key)
    ensures var yielded' := if key.Some? then yielded + [key.value] else yielded;
            && Progress(before, after, n, Dropped(steps[..i + 1]), index', yielded')
            && |yielded'| <= Takes(steps[..i + 1])
            && (|yielded'| < Takes(steps[..i + 1]) ==> AllYielded(before, n, Dropped(steps[..i + 1]), yielded'))
  {
    hide Progress, Moves, TableKept, Dropped, Takes, AllYielded;
    DroppedNext(steps, i);
    TakesNext(steps, i);
    var yielded' := if key.Some? then yielded + [key.value] else yielded;
    if |yielded| < Takes(steps[..i]) {
      StillAllYielded(before, n, Dropped(steps[..i]), Dropped(steps[..i + 1]), yielded, yielded');
    }
    if steps[i].Drop? {
      ProgressDrop(before, now, after, n, Dropped(steps[..i]), steps[i].key, index, yielded);
    } else {
      assert Dropped(steps[..i + 1]) == Dropped(steps[..i]);
      ProgressTake(before, now, n, Dropped(steps[..i]), index, index', key, yielded);
    }
  }

  /**
    Removals in the middle of an enumeration: `found` is what each step has found, as the layouts say
    step by step.  No entry is found twice, and each was in the table and had not been removed before.
    Once the enumeration finds nothing more, which it does at the latest when it has been asked more
    often than there were entries, every entry of the table that is not removed has been found.
   */
  method EnumerateWhileRemoving(table: Coucal, steps: seq<EnumStep>) returns (found: seq<Entry>)
    requires table.Valid()
    modifies table, table.items, table.stash, table.poolBuffer
    ensures table.Valid() && table.contents == old(table.contents) - Dropped(steps)
    ensures Whole(old(table.Now()))
    ensures var (cursor, entries) := CursorAfterAll(Cursor(old(table.Now()), 0), table.hash, steps);
            table.Now() == cursor.layout && found == entries
    ensures |found| == |steps| && Logged(old(table.contents), steps, found)
    ensures var keys := KeysBelow(found, |found|);
            && NoRepeat(keys)
            && (|keys| < Takes(steps) || |old(table.contents)| < Takes(steps) ==>
                  AllYielded(old(table.SlotEntries()), old(table.items.Length), Dropped(steps), keys))
  {
    hide Entries, Dropped, Coucal.Valid, Enumerating, AllYielded, Takes, CursorAfterAll, KeysBelow, NoRepeat, Logged;
    hide AheadIsNew, Pow2, Coucal.PoolValid;
    StashFits(table);
    NewKeyStops(table, Count);
    var e := new Enumerator(table);
    ghost var m, n, start := table.contents, table.items.Length, table.Now();
    found := [];
    StartsAt(table);
    EnumerationStart(m, start, n, table.hash, steps);
    while |found| < |steps|
      invariant |found| <= |steps|
      invariant e.table == table && fresh(e) && Underway(e, m, start, n, steps, found)
      invariant table.poolBuffer == old(table.poolBuffer) || fresh(table.poolBuffer)
      invariant table.items == old(table.items)
    {
      var entry := EnumerateRound(e, m, start, n, steps, found);
      found := found + [entry];
    }
    assert steps[..|steps|] == steps;
    EnumerationEnd(m, start, n, table.hash, steps, found, table.Now(), table.SlotEntries(), e.index);
  }

  /** The enumerator after the steps that found `found`. */
  ghost predicate Underway(
    e: Enumerator, m: Contents, start: Layout, n: nat, steps: seq<EnumStep>, found: seq<Entry>)
    reads e, e.table, e.table.items, e.table.stash, e.table.poolBuffer
  {
    && |found| <= |steps| && Whole(start)
    && e.table.Valid() && e.table.stashSize <= e.table.stash.Length
    && e.table.contents == m - Dropped(steps[..|found|]) && n == e.table.items.Length
    && AheadIsNew(e.table.SlotEntries(), e.index, KeysBelow(found, |found|))
    && Enumerating(m, start, n, e.table.hash, steps, found, e.table.Now(), e.table.SlotEntries(), e.index)
  }

  method EnumerateRound(
    e: Enumerator, ghost m: Contents, ghost start: Layout, ghost n: nat, steps: seq<EnumStep>, found: seq<Entry>)
    returns (entry: Entry)
    requires |found| < |steps| && Underway(e, m, start, n, steps, found)
    modifies e, e.table, e.table.poolBuffer, e.table.items, e.table.stash
    ensures Underway(e, m, start, n, steps, found + [entry])
    ensures e.table.poolBuffer == old(e.table.poolBuffer) || fresh(e.table.poolBuffer)
    ensures e.table.items == old(e.table.items)
  {
    hide Represents, PoolOk, Placed, AllTaken, Entries, AheadIsNew, Dropped, Coucal.Valid, Coucal.Now, Enumerating;
    hide Moves, TableKept, CursorAfter, KeysBelow, Pow2;
    var i := |found|;
    DroppedNext(steps, i);
    ghost var layout, now, index := e.table.Now(), e.table.SlotEntries(), e.index;
    entry := EnumerateStep(e, steps[i], KeysBelow(found, i));
    EnumerationRound(m, start, n, e.table.hash, steps, found, layout, now, index, e.table.Now(),
                     e.table.SlotEntries(), e.index, entry, e.table.contents);
    FoundMore(found, entry);
  }

  lemma StartsAt(table: Coucal)
    requires table.Valid() && table.stashSize <= table.stash.Length
    ensures table.Now().entries == table.SlotEntries() && table.items.Length <= |table.SlotEntries()|
  {
  }

  /** The state of an enumeration with removals after the steps that found `found`. */
  ghost predicate Enumerating(
    m: Contents, start: Layout, n: nat, hash: Hasher, steps: seq<EnumStep>, found: seq<Entry>, layout: Layout,
    now: seq<Entry>, index: nat)
    requires |found| <= |steps| && Whole(start)
  {
    var yielded, done := KeysBelow(found, |found|), steps[..|found|];
    && Logged(m, steps, found)
    && Progress(start.entries, now, n, Dropped(done), index, yielded)
    && |yielded| <= Takes(done)
    && (|yielded| < Takes(done) ==> AllYielded(start.entries, n, Dropped(done), yielded))
    && CursorAfterAll(Cursor(start, 0), hash, done) == (Cursor(layout, index), found)
  }

  lemma EnumerationStart(m: Contents, start: Layout, n: nat, hash: Hasher, steps: seq<EnumStep>)
    requires Whole(start) && n <= |start.entries|
    ensures Enumerating(m, start, n, hash, steps, [], start, start.entries, 0)
    ensures AheadIsNew(start.entries, 0, KeysBelow([], 0)) && m - Dropped(steps[..0]) == m
  {
    hide Progress, Logged, CursorAfterAll, Dropped, Takes;
    LogStart(m, steps);
    NothingDropped(steps);
    NothingYielded(start.entries);
    ProgressStart(start.entries, n);
    CursorStart(Cursor(start, 0), hash, steps);
  }

  lemma EnumerationRound(
    m: Contents, start: Layout, n: nat, hash: Hasher, steps: seq<EnumStep>, found: seq<Entry>, layout: Layout,
    now: seq<Entry>, index: nat, layout': Layout, now': seq<Entry>, index': nat, entry: Entry, m': Contents)
    requires |found| < |steps| && Whole(start) && Whole(layout)
    requires Enumerating(m, start, n, hash, steps, found, layout, now, index)
    requires m' == m - Dropped(steps[..|found| + 1])
    requires entry.Some? ==>
               && steps[|found|].TakeNext? && entry.value.0 !in KeysBelow(found, |found|)
               && entry.value.0 in m' && m'[entry.value.0] == entry.value.1
    requires if steps[|found|].Drop?
             then entry.None? && index' == index && TableKept(now, now', n, steps[|found|].key)
             else now' == now && Moves(now, index, index', KeyIn(entry))
    requires CursorAfter(Cursor(layout, index), hash, steps[|found|]) == (Cursor(layout', index'), entry)
    ensures Enumerating(m, start, n, hash, steps, found + [entry], layout', now', index')
  {
    hide Progress, Logged, CursorAfterAll, CursorAfter, Dropped, Takes, TableKept, Moves, AllYielded, KeysBelow;
    var i := |found|;
    DroppedNext(steps, i);
    CursorMore(Cursor(start, 0), hash, steps, i);
    RoundDone(start.entries, now, now', n, steps, i, index, index', KeyIn(entry), KeysBelow(found, i));
    LogMore(m, steps, found, entry);
    FoundMore(found, entry);
  }

  lemma EnumerationEnd(
    m: Contents, start: Layout, n: nat, hash: Hasher, steps: seq<EnumStep>, found: seq<Entry>, layout: Layout,
    now: seq<Entry>, index: nat)
    requires |found| == |steps| && Whole(start)
    requires Enumerating(m, start, n, hash, steps, found, layout, now, index)
    ensures CursorAfterAll(Cursor(start, 0), hash, steps) == (Cursor(layout, index), found)
    ensures Logged(m, steps, found) && NoRepeat(KeysBelow(found, |found|))
    ensures |KeysBelow(found, |found|)| < Takes(steps) || |m| < Takes(steps) ==>
              AllYielded(start.entries, n, Dropped(steps), KeysBelow(found, |found|))
  {
    hide Progress, CursorAfterAll, Dropped, Takes, AllYielded, KeysBelow, Logged;
    assert steps[..|found|] == steps;
    LogDistinct(m, steps, found);
  }

  function KeyIn(entry: Entry): Option<CString> {
    if entry.Some? then Some(entry.value.0) else None
  }

  lemma StashFits(table: Coucal)
    requires table.Valid()
    ensures table.stashSize <= table.stash.Length
  {
  }

  /** One step: the next entry is present and new, or an entry is dropped. */
  method EnumerateStep(e: Enumerator, step: EnumStep, ghost yielded: seq<CString>) returns (entry: Entry)
    requires e.table.Valid() && AheadIsNew(e.table.SlotEntries(), e.index, yielded)
    modifies e, e.table, e.table.poolBuffer, e.table.items, e.table.stash
    ensures e.table.Valid() && e.table.stashSize <= e.table.stash.Length
    ensures e.table.contents == old(e.table.contents) - if step.Drop? then {step.key} else {}
    ensures e.table.poolBuffer == old(e.table.poolBuffer) || fresh(e.table.poolBuffer)
    ensures e.table.items == old(e.table.items)
    ensures entry.None? ==> AheadIsNew(e.table.SlotEntries(), e.index, yielded)
    ensures entry.Some? ==>
              && step.TakeNext? && entry.value.0 !in yielded
              && entry.value.0 in e.table.contents && e.table.contents[entry.value.0] == entry.value.1
              && AheadIsNew(e.table.SlotEntries(), e.index, yielded + [entry.value.0])
    ensures if step.Drop?
            then e.index == old(e.index)
                 && TableKept(old(e.table.SlotEntries()), e.table.SlotEntries(), e.table.items.Length, step.key)
            else e.table.SlotEntries() == old(e.table.SlotEntries())
                 && Moves(e.table.SlotEntries(), old(e.index), e.index, KeyIn(entry))
    ensures Whole(old(e.table.Now()))
    ensures CursorAfter(Cursor(old(e.table.Now()), old(e.index)), e.table.hash, step)
            == (Cursor(e.table.Now(), e.index), entry)
  {
    hide Represents, PoolOk, Placed, AllTaken, Entries, AheadIsNew, Coucal.PoolValid, TableKept, Moves, AfterRemove;
    hide KeyOf, Pow2;
    entry := None;
    match step {
      case Drop(dropped) =>
        RemoveWhile(e.table, dropped, e.index, yielded);
      case TakeNext =>
        entry := NextKey(e, yielded);
    }
  }

  /** A removal during an enumeration whose cursor is at `index`. */
  method RemoveWhile(table: Coucal, key: CString, ghost index: nat, ghost yielded: seq<CString>)
    requires table.Valid() && AheadIsNew(table.SlotEntries(), index, yielded)
    modifies table, table.poolBuffer, table.items, table.stash
    ensures table.Valid() && AheadIsNew(table.SlotEntries(), index, yielded)
    ensures table.contents == old(table.contents) - {key}
    ensures table.poolBuffer == old(table.poolBuffer) || fresh(table.poolBuffer)
    ensures table.items == old(table.items)
    ensures TableKept(old(table.SlotEntries()), table.SlotEntries(), table.items.Length, key)
    ensures Whole(old(table.Now())) && table.Now() == AfterRemove(old(table.Now()), table.hash, key)
  {
    hide Represents, PoolOk, Placed, AllTaken, OnlyEarlier, Entries, AheadIsNew, BackFilled, TableKept, AfterRemove;
    ghost var before := table.SlotEntries();
    var _ := table.Remove(key);
    StillNew(before, table.SlotEntries(), index, yielded);
  }

  /** One step of an enumeration: the entry it yields is present and new. */
  method NextKey(e: Enumerator, ghost yielded: seq<CString>) returns (entry: Entry)
    requires e.table.Valid() && AheadIsNew(e.table.SlotEntries(), e.index, yielded)
    modifies e
    ensures e.table.Valid()
    ensures entry.None? ==> AheadIsNew(e.table.SlotEntries(), e.index, yielded)
    ensures entry.Some? ==>
              && entry.value.0 !in yielded
              && entry.value.0 in e.table.contents && e.table.contents[entry.value.0] == entry.value.1
              && AheadIsNew(e.table.SlotEntries(), e.index, yielded + [entry.value.0])
    ensures Moves(e.table.SlotEntries(), old(e.index), e.index, KeyIn(entry))
    ensures Whole(e.table.Now())
    ensures CursorAfter(Cursor(e.table.Now(), old(e.index)), e.table.hash, TakeNext)
            == (Cursor(e.table.Now(), e.index), entry)
  {
    hide Represents, PoolOk, Placed, AllTaken, Entries, AheadIsNew, Moves, KeyOf, Pow2;
    e.table.WholeNow();
    ghost var index, slots := e.index, e.table.Slots();
    var item := e.Next();
    entry := None;
    if item.Some? {
      MatchMeans(slots, e.table.text, e.table.poolBase, e.table.hash, e.table.contents, e.index - 1);
      PassedOver(slots, e.table.text, e.table.poolBase, e.table.hash, e.table.contents, index, e.index - 1, yielded);
      var key := e.table.ReadKey(item.value.name);
      entry := Some((key, item.value.value));
      MovesOver(slots, e.table.text, e.table.poolBase, index, e.index, Some(key));
    } else {
      MovesOver(slots, e.table.text, e.table.poolBase, index, e.index, None);
      NothingAhead(slots, e.table.text, e.table.poolBase, index, e.index, yielded);
    }
    NextIs(slots, e.table.text, e.table.poolBase, e.table.lgSize, e.table.hash, index, e.index, entry);
  }

  /** The next occupied slot, seen in the layout. */
  lemma NextIs(
    slots: seq<Item>, text: Text, base: int, lg: nat, hash: Hasher, index: nat, index': nat, entry: Entry)
    requires Whole(Layout(lg, Entries(slots, text, base)))
    requires entry.Some? ==>
               && index < index' <= |slots| && !slots[index' - 1].name.Null?
               && entry.value == (KeyOf(text, base, slots[index' - 1].name), slots[index' - 1].value)
               && forall k :: index <= k < index' - 1 ==> slots[k].name.Null?
    requires entry.None? ==>
               && index' == (if index < Pow2(lg) then Pow2(lg) else index)
               && forall k :: index <= k < |slots| ==> slots[k].name.Null?
    ensures var l := Layout(lg, Entries(slots, text, base));
            CursorAfter(Cursor(l, index), hash, TakeNext) == (Cursor(l, index'), entry)
  {
    hide KeyOf, Pow2;
    var entries := Entries(slots, text, base);
    assert forall k :: 0 <= k < |slots| ==> (entries[k].None? <==> slots[k].name.Null?);
    var k := NextFrom(entries, index);
    if entry.Some? {
      assert entries[index' - 1].Some?;
      assert k == index' - 1;
    } else {
      assert k >= |entries|;
    }
  }

  lemma MovesOver(slots: seq<Item>, text: Text, base: int, index: nat, index': nat, key: Option<CString>)
    requires key.Some? ==>
               && index < index' <= |slots| && !slots[index' - 1].name.Null?
               && key.value == KeyOf(text, base, slots[index' - 1].name)
               && forall k :: index <= k < index' - 1 ==> slots[k].name.Null?
    requires key.None? ==> forall k :: index <= k < |slots| ==> slots[k].name.Null?
    ensures Moves(Entries(slots, text, base), index, index', key)
  {
  }

  lemma NothingYielded(entries: seq<Entry>)
    ensures AheadIsNew(entries, 0, [])
  {
  }

  lemma NothingDropped(steps: seq<EnumStep>)
    ensures Dropped(steps[..0]) == {} && Takes(steps[..0]) == 0
  {
  }

  lemma NothingAhead(slots: seq<Item>, text: Text, base: int, index: nat, index': nat, yielded: seq<CString>)
    requires AheadIsNew(Entries(slots, text, base), index, yielded) && index <= index'
    ensures AheadIsNew(Entries(slots, text, base), index', yielded)
  {
  }

  lemma DroppedNext(steps: seq<EnumStep>, i: nat)
    requires i < |steps|
    ensures Dropped(steps[..i + 1]) == Dropped(steps[..i]) + if steps[i].Drop? then {steps[i].key} else {}
  {
    assert steps[..i + 1] == steps[..i] + [steps[i]];
  }

  /** A removal never moves an entry across the cursor in the wrong direction. */
  lemma StillNew(before: seq<Entry>, after: seq<Entry>, index: nat, yielded: seq<CString>)
    requires OnlyEarlier(before, after) && AheadIsNew(before, index, yielded)
    ensures AheadIsNew(after, index, yielded)
  {
  }

  /** After yielding slot `pos`, what lies ahead is still new. */
  lemma PassedOver(
    slots: seq<Item>, text: Text, base: int, hash: Hasher, contents: Contents, index: nat, pos: nat, yielded:
    seq<CString>)
    requires Represents(slots, text, base, hash, contents)
    requires AheadIsNew(Entries(slots, text, base), index, yielded)
    requires index <= pos < |slots| && !slots[pos].name.Null?
    ensures KeyOf(text, base, slots[pos].name) !in yielded
    ensures AheadIsNew(Entries(slots, text, base), pos + 1, yielded + [KeyOf(text, base, slots[pos].name)])
  {
    var entries := Entries(slots, text, base);
    assert entries[pos].Some?;
    assert forall j :: pos < j < |slots| && entries[j].Some? ==> entries[j].value.0 != entries[pos].value.0;
  }
}
