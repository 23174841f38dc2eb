/**
  Where the entries of a table are, apart from the memory their names are in: how every operation
  changes that, and how a write will end.  The next layout depends on the last one, the operation and
  the hash function alone.
 */
module CoucalLayout {
  import opened Bytes
  import opened CoucalTypes
  import opened CoucalTable
  import opened CoucalMap

  /** The entries of the `2**lg` slots of the table, and behind them those of the stash. */
  datatype Layout = Layout(lg: nat, entries: seq<Entry>)

  /** What a write did.  The last two are the fatal assertions an unlucky hash can reach. */
  datatype Outcome = Replaced | Inserted | StashFull | TableTooLarge

  predicate Whole(l: Layout) {
    l.lg > 0 && Pow2(l.lg) <= |l.entries|
  }

  function StashCount(l: Layout): nat
    requires Whole(l)
  {
    |l.entries| - Pow2(l.lg)
  }

  /** No entries. */
  function EmptyLayout(lg: nat): Layout {
    Layout(lg, seq(Pow2(lg), i => None))
  }

  /** The smallest size of a table, from `lg` on, that is large enough. */
  function SizeFor(size: nat, lg: nat): nat
    decreases COUCAL_HASH_SIZE - lg
  {
    if lg >= COUCAL_HASH_SIZE || size <= Pow2(lg) then lg else SizeFor(size, lg + 1)
  }

  predicate IsOf(entry: Entry, name: CString) {
    entry.Some? && entry.value.0 == name
  }

  function KeysIn(entries: seq<Entry>): set<CString> {
    set k | 0 <= k < |entries| && entries[k].Some? :: entries[k].value.0
  }

  /** The slot of the key, or the number of slots. */
  function IndexOf(entries: seq<Entry>, name: CString): (i: nat)
    ensures i <= |entries| && (i < |entries| ==> IsOf(entries[i], name))
    ensures forall k :: 0 <= k < i ==> !IsOf(entries[k], name)
  {
    if entries == [] || IsOf(entries[0], name) then 0 else 1 + IndexOf(entries[1..], name)
  }

  // ---- Items for entries ----

  /** Items that stand for the entries, to be moved by the functions on items; the name is the index. */
  function Tagged(hash: Hasher, entries: seq<Entry>): (items: seq<Item>)
    ensures |items| == |entries|
  {
    seq(|entries|, i requires 0 <= i < |entries| =>
      if entries[i].None? then FREE else Item(At(i), 0, hash(entries[i].value.0)))
  }

  /** The entry an item stands for. */
  function EntryFor(all: seq<Entry>, item: Item): Entry {
    if item.name.At? && 0 <= item.name.address < |all| then all[item.name.address] else None
  }

  function Untagged(all: seq<Entry>, items: seq<Item>): (entries: seq<Entry>)
    ensures |entries| == |items|
  {
    seq(|items|, i requires 0 <= i < |items| => EntryFor(all, items[i]))
  }

  function TableOf(l: Layout, hash: Hasher): (items: seq<Item>)
    requires Whole(l)
    ensures |items| == Pow2(l.lg)
  {
    Tagged(hash, l.entries)[..Pow2(l.lg)]
  }

  // ---- How a write ends ----

  /** A new key with these hashes makes the table half full, or the stash. */
  predicate HalfFull(l: Layout, hash: Hasher, name: CString)
    requires Whole(l)
  {
    || |KeysIn(l.entries)| + 1 >= Pow2(l.lg - 1)
    || StashCount(l) + (if HasNoPlace(l.lg, TableOf(l, hash), hash(name)) then 1 else 0) >= 8
  }

  /** How a write ends. */
  function WriteEnds(l: Layout, hash: Hasher, name: CString): Outcome
    requires Whole(l)
  {
    if name in KeysIn(l.entries) then Replaced
    else if StashCount(l) == 16 && HasNoPlace(l.lg, TableOf(l, hash), hash(name)) then StashFull
    else if l.lg == 32 && HalfFull(l, hash, name) then TableTooLarge
    else Inserted
  }

  // ---- What the operations do ----

  /** The value of the key is replaced. */
  function Rewritten(entries: seq<Entry>, name: CString, value: Value): (r: seq<Entry>)
    ensures |r| == |entries|
  {
    seq(|entries|, i requires 0 <= i < |entries| =>
      if IsOf(entries[i], name) then Some((name, value)) else entries[i])
  }

  /** A new entry is added, with displacement; what finds no place goes to the stash. */
  function Put(l: Layout, hash: Hasher, name: CString, value: Value): (r: Layout)
    requires Whole(l)
    ensures Whole(r) && r.lg == l.lg
  {
    var all := l.entries + [Some((name, value))];
    var items, n := Tagged(hash, all), |l.entries|;
    AddedLength(l.lg, items[..Pow2(l.lg)], items[n]);
    var k := Added(l.lg, items[..Pow2(l.lg)], items[n]);
    Layout(l.lg, Untagged(all, k.items + StashAfter(items[Pow2(l.lg)..n], k)))
  }

  /** The table is doubled, and the stash put through it again. */
  function Grown(l: Layout, hash: Hasher): (r: Layout)
    requires Whole(l)
    ensures Whole(r) && r.lg == l.lg + 1
  {
    var items, n := Tagged(hash, l.entries), Pow2(l.lg);
    MergedLength(l.lg + 1, Doubled(l.lg, items[..n]), [], items[n..]);
    var (items', stash') := Merged(l.lg + 1, Doubled(l.lg, items[..n]), [], items[n..]);
    Layout(l.lg + 1, Untagged(l.entries, items' + stash'))
  }

  function AfterWrite(l: Layout, hash: Hasher, name: CString, value: Value): (r: Layout)
    requires Whole(l)
    ensures Whole(r) && l.lg <= r.lg <= l.lg + 1
  {
    if name in KeysIn(l.entries) then l.(entries := Rewritten(l.entries, name, value))
    else if HalfFull(l, hash, name) then Grown(Put(l, hash, name, value), hash)
    else Put(l, hash, name, value)
  }

  /** The first slot from `i` on whose entry may live at `pos`, or the number of slots. */
  function FirstFor(l: Layout, hash: Hasher, pos: nat, i: nat): (k: nat)
    requires i <= |l.entries|
    ensures i <= k <= |l.entries|
    ensures k < |l.entries| ==> AtHome(l.lg, Tagged(hash, l.entries)[k], pos)
    ensures forall m :: i <= m < k ==> !AtHome(l.lg, Tagged(hash, l.entries)[m], pos)
    decreases |l.entries| - i
  {
    if i == |l.entries| || AtHome(l.lg, Tagged(hash, l.entries)[i], pos) then i else FirstFor(l, hash, pos, i + 1)
  }

  function WithoutSlot(entries: seq<Entry>, i: nat): seq<Entry>
    requires i < |entries|
  {
    entries[..i] + entries[i + 1..]
  }

  /** The entry of the key goes. */
  function Cleared(l: Layout, name: CString): (r: Layout)
    requires Whole(l)
    ensures Whole(r) && r.lg == l.lg
  {
    var slot := IndexOf(l.entries, name);
    if slot == |l.entries| then l
    else if slot >= Pow2(l.lg) then l.(entries := WithoutSlot(l.entries, slot))
    else l.(entries := l.entries[slot := None])
  }

  /** The first entry of the stash that may live in the slot moves there. */
  function Refilled(l: Layout, hash: Hasher, slot: nat): (r: Layout)
    requires Whole(l) && slot < Pow2(l.lg)
    ensures Whole(r) && r.lg == l.lg
  {
    var i := FirstFor(l, hash, slot, Pow2(l.lg));
    if i == |l.entries| then l else l.(entries := WithoutSlot(l.entries[slot := l.entries[i]], i))
  }

  function AfterRemove(l: Layout, hash: Hasher, name: CString): (r: Layout)
    requires Whole(l)
    ensures Whole(r) && r.lg == l.lg
  {
    var slot := IndexOf(l.entries, name);
    if slot < Pow2(l.lg) then Refilled(Cleared(l, name), hash, slot) else Cleared(l, name)
  }

  lemma {:induction false} MergedLength(lg: nat, items: seq<Item>, stash: seq<Item>, todo: seq<Item>)
    requires |items| == Pow2(lg)
    ensures |Merged(lg, items, stash, todo).0| == Pow2(lg)
    decreases |todo|
  {
    if todo != [] {
      AddedLength(lg, items, todo[0]);
      var k := Added(lg, items, todo[0]);
      MergedLength(lg, k.items, StashAfter(stash, k), todo[1..]);
    }
  }

  // ---- The functions on items do the same to items that stand for the same entries ----

  ghost function EntryOf(text: Text, base: int, item: Item): Entry {
    if item.name.Null? then None else Some((KeyOf(text, base, item.name), item.value))
  }

  /** A real item and one that stands for its entry. */
  ghost predicate Alike(text: Text, base: int, all: seq<Entry>, r: Item, t: Item) {
    && r.hashes == t.hashes && (r.name.Null? <==> t.name.Null?)
    && EntryOf(text, base, r) == EntryFor(all, t)
  }

  ghost predicate AllAlike(text: Text, base: int, all: seq<Entry>, rs: seq<Item>, ts: seq<Item>) {
    |rs| == |ts| && forall i :: 0 <= i < |rs| ==> Alike(text, base, all, rs[i], ts[i])
  }

  ghost predicate KickedAlike(text: Text, base: int, all: seq<Entry>, r: Kicked, t: Kicked) {
    && (r.Settled? <==> t.Settled?) && AllAlike(text, base, all, r.items, t.items)
    && (r.Homeless? ==> Alike(text, base, all, r.item, t.item) && !r.item.name.Null?)
  }

  lemma {:induction false} KickAlike(
    text: Text, base: int, all: seq<Entry>, lg: nat, rs: seq<Item>, ts: seq<Item>, r: Item, t: Item,
    cuckoo: HashKey, initial: HashKey, loops: nat)
    requires |rs| == Pow2(lg) && AllAlike(text, base, all, rs, ts)
    requires Alike(text, base, all, r, t) && !r.name.Null?
    ensures KickedAlike(
              text, base, all, Kick(lg, rs, r, cuckoo, initial, loops), Kick(lg, ts, t, cuckoo, initial, loops))
    decreases loops
  {
    hide EntryOf, EntryFor, Pow2;
    if loops != 0 {
      var pos := Position(lg, cuckoo);
      var lost, lost' := rs[pos], ts[pos];
      assert Alike(text, base, all, lost, lost');
      if !lost.name.Null? {
        var next := OtherHash(lg, lost, pos);
        if next != initial {
          KickAlike(text, base, all, lg, rs[pos := r], ts[pos := t], lost, lost', next, initial, loops - 1);
        }
      }
    }
  }

  lemma AddedAlike(
    text: Text, base: int, all: seq<Entry>, lg: nat, rs: seq<Item>, ts: seq<Item>, r: Item, t: Item)
    requires |rs| == Pow2(lg) && AllAlike(text, base, all, rs, ts)
    requires Alike(text, base, all, r, t) && !r.name.Null?
    ensures KickedAlike(text, base, all, Added(lg, rs, r), Added(lg, ts, t))
  {
    hide EntryOf, EntryFor, Pow2, Kick;
    var pos1, pos2 := Position(lg, r.hashes.hash1), Position(lg, r.hashes.hash2);
    assert Alike(text, base, all, rs[pos1], ts[pos1]) && Alike(text, base, all, rs[pos2], ts[pos2]);
    KickAlike(text, base, all, lg, rs, ts, r, t, r.hashes.hash1, r.hashes.hash1, Pow2(lg));
  }

  lemma StashAlike(text: Text, base: int, all: seq<Entry>, rs: seq<Item>, ts: seq<Item>, r: Kicked, t: Kicked)
    requires AllAlike(text, base, all, rs, ts) && KickedAlike(text, base, all, r, t)
    ensures AllAlike(text, base, all, StashAfter(rs, r), StashAfter(ts, t))
    ensures AllTaken(rs) ==> AllTaken(StashAfter(rs, r))
  {
    hide Alike;
  }

  lemma DoubledAlike(text: Text, base: int, all: seq<Entry>, lg: nat, rs: seq<Item>, ts: seq<Item>)
    requires AllAlike(text, base, all, rs, ts)
    ensures AllAlike(text, base, all, Doubled(lg, rs), Doubled(lg, ts))
  {
    hide Position;
    forall i | 0 <= i < |rs|
      ensures Stays(lg, rs[i], i) == Stays(lg, ts[i], i)
    {
      assert Alike(text, base, all, rs[i], ts[i]);
    }
  }

  lemma {:induction false} MergedAlike(
    text: Text, base: int, all: seq<Entry>, lg: nat, rs: seq<Item>, ts: seq<Item>, rstash: seq<Item>,
    tstash: seq<Item>, rtodo: seq<Item>, ttodo: seq<Item>)
    requires |rs| == Pow2(lg) && AllAlike(text, base, all, rs, ts) && AllAlike(text, base, all, rstash, tstash)
    requires AllAlike(text, base, all, rtodo, ttodo) && AllTaken(rtodo)
    ensures AllAlike(text, base, all, Merged(lg, rs, rstash, rtodo).0, Merged(lg, ts, tstash, ttodo).0)
    ensures AllAlike(text, base, all, Merged(lg, rs, rstash, rtodo).1, Merged(lg, ts, tstash, ttodo).1)
    decreases |rtodo|
  {
    hide Alike, Added, Pow2;
    if rtodo != [] {
      AddedLength(lg, rs, rtodo[0]);
      AddedAlike(text, base, all, lg, rs, ts, rtodo[0], ttodo[0]);
      var r, t := Added(lg, rs, rtodo[0]), Added(lg, ts, ttodo[0]);
      StashAlike(text, base, all, rstash, tstash, r, t);
      MergedAlike(text, base, all, lg, r.items, t.items, StashAfter(rstash, r), StashAfter(tstash, t),
                  rtodo[1..], ttodo[1..]);
    }
  }

  /** Real slots, and the items that stand for their entries, perhaps among others behind them. */
  lemma SlotsAlike(
    slots: seq<Item>, text: Text, base: int, hash: Hasher, contents: Contents, more: seq<Entry>)
    requires AllGood(slots, text, base, hash, contents)
    ensures var all := Entries(slots, text, base) + more;
            AllAlike(text, base, all, slots, Tagged(hash, all)[..|slots|])
  {
    var entries := Entries(slots, text, base);
    var all := entries + more;
    forall i | 0 <= i < |slots|
      ensures Alike(text, base, all, slots[i], Tagged(hash, all)[..|slots|][i])
    {
      assert all[i] == entries[i];
      assert slots[i] == FREE || GoodItem(slots[i], text, base, hash, contents);
    }
  }

  lemma SameEntriesAlike(text: Text, base: int, all: seq<Entry>, rs: seq<Item>, ts: seq<Item>)
    requires AllAlike(text, base, all, rs, ts)
    ensures Entries(rs, text, base) == Untagged(all, ts)
  {
    forall i | 0 <= i < |rs|
      ensures Entries(rs, text, base)[i] == Untagged(all, ts)[i]
    {
      assert Alike(text, base, all, rs[i], ts[i]);
    }
  }

  lemma AlikeParts(
    text: Text, base: int, all: seq<Entry>, rs: seq<Item>, ts: seq<Item>, rs': seq<Item>, ts': seq<Item>)
    requires AllAlike(text, base, all, rs, ts) && AllAlike(text, base, all, rs', ts')
    ensures AllAlike(text, base, all, rs + rs', ts + ts')
  {
    hide Alike;
  }

  lemma AlikeSlices(text: Text, base: int, all: seq<Entry>, rs: seq<Item>, rs': seq<Item>, ts: seq<Item>)
    requires AllAlike(text, base, all, rs + rs', ts)
    ensures AllAlike(text, base, all, rs, ts[..|rs|]) && AllAlike(text, base, all, rs', ts[|rs|..])
  {
    hide Alike;
    assert forall i :: 0 <= i < |rs| ==> (rs + rs')[i] == rs[i] && ts[..|rs|][i] == ts[i];
    assert forall i :: 0 <= i < |rs'| ==> (rs + rs')[|rs| + i] == rs'[i] && ts[|rs|..][i] == ts[|rs| + i];
  }

  // ---- The layout of a real table ----

  /** One more string in the pool changes no entry. */
  lemma MoreText(
    slots: seq<Item>, rest: Text, text: Text, base: int, hash: Hasher, contents: Contents)
    requires AllGood(slots, rest, base, hash, contents)
    requires forall o :: o in rest ==> o in text && text[o] == rest[o]
    ensures AllGood(slots, text, base, hash, contents)
    ensures Entries(slots, text, base) == Entries(slots, rest, base)
  {
    forall i | 0 <= i < |slots| && slots[i] != FREE
      ensures GoodItem(slots[i], text, base, hash, contents)
      ensures KeyOf(text, base, slots[i].name) == KeyOf(rest, base, slots[i].name)
    {
      assert GoodItem(slots[i], rest, base, hash, contents);
    }
  }

  /** An insertion into the real table and stash leads to the layout `Put` says. */
  lemma PutIsAdded(
    lg: nat, items: seq<Item>, stash: seq<Item>, rest: Text, text: Text, base: int, hash: Hasher,
    contents: Contents, item: Item, name: CString)
    requires lg > 0 && |items| == Pow2(lg) && Represents(items + stash, rest, base, hash, contents)
    requires item.hashes == hash(name)
    requires if name == [] then item.name.EmptyString? && text == rest
             else item.name.At? && item.name.address - base !in rest && text == rest[item.name.address - base := name]
    ensures var k := Added(lg, items, item);
            Entries(k.items + StashAfter(stash, k), text, base)
            == Put(Layout(lg, Entries(items + stash, rest, base)), hash, name, item.value).entries
  {
    hide Added, Pow2, AllGood, Tagged, AllAlike, Entries, Untagged;
    var entries, slots := Entries(items + stash, rest, base), items + stash;
    var all, n := entries + [Some((name, item.value))], |slots|;
    var ts := Tagged(hash, all);
    MoreText(slots, rest, text, base, hash, contents);
    SlotsAlike(slots, text, base, hash, contents, [Some((name, item.value))]);
    AlikeSlices(text, base, all, items, stash, ts[..n]);
    assert ts[..n][..|items|] == ts[..|items|] && ts[..n][|items|..] == ts[|items|..n];
    NewAlike(text, base, entries, hash, item, name);
    AddedAlike(text, base, all, lg, items, ts[..|items|], item, ts[n]);
    var r, t := Added(lg, items, item), Added(lg, ts[..|items|], ts[n]);
    StashAlike(text, base, all, stash, ts[|items|..n], r, t);
    AlikeParts(text, base, all, r.items, t.items, StashAfter(stash, r), StashAfter(ts[|items|..n], t));
    SameEntriesAlike(text, base, all, r.items + StashAfter(stash, r), t.items + StashAfter(ts[|items|..n], t));
  }

  lemma NewAlike(text: Text, base: int, entries: seq<Entry>, hash: Hasher, item: Item, name: CString)
    requires item.hashes == hash(name)
    requires if name == [] then item.name.EmptyString?
             else item.name.At? && item.name.address - base in text && text[item.name.address - base] == name
    ensures var all := entries + [Some((name, item.value))];
            Alike(text, base, all, item, Tagged(hash, all)[|entries|])
  {
  }

  lemma DoubledLength(lg: nat, items: seq<Item>)
    requires |items| == Pow2(lg)
    ensures |Doubled(lg, items)| == Pow2(lg + 1)
  {
  }

  /** A new entry goes to a free slot of its own, the first one if both are free. */
  lemma PutHome(l: Layout, hash: Hasher, name: CString, value: Value)
    requires Whole(l)
    ensures var p1, p2 := Position(l.lg, hash(name).hash1), Position(l.lg, hash(name).hash2);
            && (l.entries[p1].None? ==>
                  Put(l, hash, name, value).entries == l.entries[p1 := Some((name, value))])
            && (l.entries[p1].Some? && l.entries[p2].None? ==>
                  Put(l, hash, name, value).entries == l.entries[p2 := Some((name, value))])
            && (l.entries[p1].None? || l.entries[p2].None? ==> !HasNoPlace(l.lg, TableOf(l, hash), hash(name)))
  {
    hide Kick, Position, Pow2;
    var p1, p2 := Position(l.lg, hash(name).hash1), Position(l.lg, hash(name).hash2);
    var all, n := l.entries + [Some((name, value))], |l.entries|;
    var items := Tagged(hash, all);
    assert items[n] == Item(At(n), 0, hash(name));
    forall p | p == p1 || p == p2
      ensures items[..Pow2(l.lg)][p].name.Null? <==> l.entries[p].None?
      ensures Untagged(all, items[..Pow2(l.lg)][p := items[n]] + items[Pow2(l.lg)..n])
              == l.entries[p := Some((name, value))]
    {
      UntaggedUpdate(all, hash, Pow2(l.lg), n, p);
    }
    assert forall p :: 0 <= p < Pow2(l.lg) ==> (TableOf(l, hash)[p].name.Null? <==> l.entries[p].None?);
  }

  lemma UntaggedUpdate(all: seq<Entry>, hash: Hasher, size: nat, n: nat, p: nat)
    requires p < size <= n < |all| && all[n].Some?
    ensures Untagged(all, Tagged(hash, all)[..size][p := Tagged(hash, all)[n]] + Tagged(hash, all)[size..n])
            == all[..n][p := all[n]]
  {
  }

  /** An insertion that finds no place makes the stash larger by one. */
  lemma PutStash(l: Layout, hash: Hasher, name: CString, value: Value)
    requires Whole(l)
    ensures StashCount(Put(l, hash, name, value))
            == StashCount(l) + if HasNoPlace(l.lg, TableOf(l, hash), hash(name)) then 1 else 0
  {
    hide Added, Pow2;
    var all, n := l.entries + [Some((name, value))], Pow2(l.lg);
    var items := Tagged(hash, all);
    assert items[..n] == TableOf(l, hash);
    AddedLength(l.lg, items[..n], items[|l.entries|]);
    PlaceByHashes(l.lg, items[..n], items[..n], items[|l.entries|]);
  }

  /** Doubling the real table and merging its stash leads to the layout `Grown` says. */
  lemma GrownIsMerged(
    lg: nat, items: seq<Item>, stash: seq<Item>, text: Text, base: int, hash: Hasher, contents: Contents)
    requires lg > 0 && |items| == Pow2(lg) && Represents(items + stash, text, base, hash, contents) && AllTaken(stash)
    ensures |Doubled(lg, items)| == Pow2(lg + 1)
    ensures var (items', stash') := Merged(lg + 1, Doubled(lg, items), [], stash);
            Entries(items' + stash', text, base)
            == Grown(Layout(lg, Entries(items + stash, text, base)), hash).entries
  {
    hide Doubled, Merged, AllGood, Tagged, Alike, Entries, Untagged;
    var all := Entries(items + stash, text, base);
    var ts := Tagged(hash, all);
    DoubledLength(lg, items);
    DoubledLength(lg, ts[..|items|]);
    SlotsAlike(items + stash, text, base, hash, contents, []);
    assert all + [] == all && ts[..|ts|] == ts;
    AlikeSlices(text, base, all, items, stash, ts);
    DoubledAlike(text, base, all, lg, items, ts[..|items|]);
    MergedAlike(text, base, all, lg + 1, Doubled(lg, items), Doubled(lg, ts[..|items|]), [], [], stash, ts[|items|..]);
    var (items', stash') := Merged(lg + 1, Doubled(lg, items), [], stash);
    var (items'', stash'') := Merged(lg + 1, Doubled(lg, ts[..|items|]), [], ts[|items|..]);
    AlikeParts(text, base, all, items', items'', stash', stash'');
    SameEntriesAlike(text, base, all, items' + stash', items'' + stash'');
  }

  /** Whether there is a place for a key, and which keys there are, can be seen in the layout. */
  lemma Deciding(
    lg: nat, items: seq<Item>, stash: seq<Item>, text: Text, base: int, hash: Hasher, contents: Contents,
    hashes: HashKeys)
    requires lg > 0 && |items| == Pow2(lg) && Represents(items + stash, text, base, hash, contents)
    ensures var l := Layout(lg, Entries(items + stash, text, base));
            && Whole(l) && StashCount(l) == |stash| && KeysIn(l.entries) == contents.Keys
            && HasNoPlace(lg, TableOf(l, hash), hashes) == HasNoPlace(lg, items, hashes)
  {
    hide Added, Pow2;
    var l := Layout(lg, Entries(items + stash, text, base));
    KeysHeld(items + stash, text, base, hash, contents);
    SlotsAlike(items + stash, text, base, hash, contents, []);
    assert l.entries + [] == l.entries;
    AlikeSlices(text, base, l.entries, items, stash, Tagged(hash, l.entries)[..|items + stash|]);
    assert Tagged(hash, l.entries)[..|items + stash|][..|items|] == TableOf(l, hash);
    AlikeHashes(text, base, l.entries, items, TableOf(l, hash));
    PlaceByHashes(lg, TableOf(l, hash), items, Item(EmptyString, 0, hashes));
  }

  lemma AlikeHashes(text: Text, base: int, all: seq<Entry>, rs: seq<Item>, ts: seq<Item>)
    requires AllAlike(text, base, all, rs, ts)
    ensures SameHashes(ts, rs)
  {
    assert forall i :: 0 <= i < |rs| ==> Alike(text, base, all, rs[i], ts[i]);
  }

  lemma KeysHeld(slots: seq<Item>, text: Text, base: int, hash: Hasher, contents: Contents)
    requires Represents(slots, text, base, hash, contents)
    ensures KeysIn(Entries(slots, text, base)) == contents.Keys
  {
    var entries := Entries(slots, text, base);
    forall key | key in contents
      ensures key in KeysIn(entries)
    {
      assert Held(slots, text, base, key);
      var k :| Holds(slots, text, base, k, key);
      assert entries[k].Some? && entries[k].value.0 == key;
    }
    forall key | key in KeysIn(entries)
      ensures key in contents
    {
      var k :| 0 <= k < |entries| && entries[k].Some? && entries[k].value.0 == key;
      assert GoodItem(slots[k], text, base, hash, contents);
    }
  }

  /** The slot that holds a key is the only one. */
  lemma HeldAt(
    slots: seq<Item>, text: Text, base: int, hash: Hasher, contents: Contents, slot: nat, name: CString)
    requires Represents(slots, text, base, hash, contents) && Holds(slots, text, base, slot, name)
    ensures var entries := Entries(slots, text, base);
            && (forall i :: 0 <= i < |entries| ==> (IsOf(entries[i], name) <==> i == slot))
            && IndexOf(entries, name) == slot
  {
    var entries := Entries(slots, text, base);
    assert IsOf(entries[slot], name);
    forall i | 0 <= i < |entries| && IsOf(entries[i], name)
      ensures i == slot
    {
      assert KeyOf(text, base, slots[i].name) == KeyOf(text, base, slots[slot].name);
    }
  }

  lemma NotHeld(entries: seq<Entry>, name: CString)
    requires name !in KeysIn(entries)
    ensures IndexOf(entries, name) == |entries|
  {
    assert forall i :: 0 <= i < |entries| && entries[i].Some? ==> entries[i].value.0 in KeysIn(entries);
  }

  lemma RewrittenIsStored(
    slots: seq<Item>, text: Text, base: int, hash: Hasher, contents: Contents, slot: nat, name: CString, value: Value)
    requires Represents(slots, text, base, hash, contents) && Holds(slots, text, base, slot, name)
    ensures Entries(slots[slot := slots[slot].(value := value)], text, base)
            == Rewritten(Entries(slots, text, base), name, value)
  {
    HeldAt(slots, text, base, hash, contents, slot, name);
  }

  /** The back-fill, on entries. */
  lemma PulledEntries(
    items: seq<Item>, stash: seq<Item>, items': seq<Item>, stash': seq<Item>, pos: nat, i: nat, text: Text, base: int)
    requires Pulled(items, stash, items', stash', pos, i) && pos < |items|
    ensures var entries, n := Entries(items + stash, text, base), |items|;
            Entries(items' + stash', text, base)
            == if i < |stash| then WithoutSlot(entries[pos := entries[n + i]], n + i) else entries
  {
    hide Entries;
    if i < |stash| {
      var slots := (items + stash)[pos := stash[i]];
      assert slots == items[pos := stash[i]] + stash;
      PulledSlots(items[pos := stash[i]], stash, i);
      ClosedEntries(slots, text, base, |items| + i);
      StoredEntries(items + stash, pos, |items| + i, text, base);
      assert (items + stash)[|items| + i] == stash[i];
    }
  }

  lemma PulledSlots(items: seq<Item>, stash: seq<Item>, i: nat)
    requires i < |stash|
    ensures var slots, n := items + stash, |items| + i;
            items + (stash[..i] + stash[i + 1..]) == slots[..n] + slots[n + 1..]
  {
  }

  lemma StoredEntries(slots: seq<Item>, pos: nat, i: nat, text: Text, base: int)
    requires pos < |slots| && i < |slots|
    ensures var entries := Entries(slots, text, base);
            Entries(slots[pos := slots[i]], text, base) == entries[pos := entries[i]]
  {
  }

  lemma NothingPulled(items: seq<Item>, stash: seq<Item>, pos: nat)
    ensures Pulled(items, stash, items, stash, pos, |stash|)
  {
  }

  lemma NothingToRefill(l: Layout, hash: Hasher, slot: nat)
    requires Whole(l) && StashCount(l) == 0 && slot < Pow2(l.lg)
    ensures Refilled(l, hash, slot) == l
  {
  }

  /** A removal has cleared the slot of the key, which is `freed` if it is one of the table. */
  ghost predicate ClearedTo(before: Layout, after: Layout, name: CString, freed: Option<nat>)
    requires Whole(before)
  {
    var slot := IndexOf(before.entries, name);
    after == Cleared(before, name) && freed == if slot < Pow2(before.lg) then Some(slot) else None
  }

  lemma ClearedAt(l: Layout, l': Layout, name: CString, slot: nat, freed: Option<nat>)
    requires Whole(l) && slot == IndexOf(l.entries, name) < |l.entries| && l'.lg == l.lg
    requires if slot < Pow2(l.lg) then l'.entries == l.entries[slot := None] && freed == Some(slot)
             else l'.entries == l.entries[..slot] + l.entries[slot + 1..] && freed == None
    ensures ClearedTo(l, l', name, freed)
  {
  }

  lemma NothingCleared(l: Layout, name: CString)
    requires Whole(l) && name !in KeysIn(l.entries)
    ensures ClearedTo(l, l, name, None)
  {
    NotHeld(l.entries, name);
  }

  /** The first item of the stash that may live at `pos`, seen in the layout. */
  lemma FirstIsFirst(
    lg: nat, items: seq<Item>, stash: seq<Item>, text: Text, base: int, hash: Hasher, contents: Contents,
    pos: nat, i: nat)
    requires Represents(items + stash, text, base, hash, contents) && i <= |stash| && AllTaken(stash)
    requires i < |stash| ==> AtHome(lg, stash[i], pos)
    requires forall k :: 0 <= k < i ==> !AtHome(lg, stash[k], pos)
    ensures FirstFor(Layout(lg, Entries(items + stash, text, base)), hash, pos, |items|) == |items| + i
  {
    var slots := items + stash;
    var entries := Entries(slots, text, base);
    forall k | 0 <= k < |stash|
      ensures Tagged(hash, entries)[|items| + k].hashes == stash[k].hashes
    {
      assert slots[|items| + k] == stash[k];
      assert GoodItem(slots[|items| + k], text, base, hash, contents);
    }
    var ts := Tagged(hash, entries);
    forall m | |items| <= m < |items| + i
      ensures !AtHome(lg, ts[m], pos)
    {
      assert ts[|items| + (m - |items|)].hashes == stash[m - |items|].hashes;
    }
  }
}
