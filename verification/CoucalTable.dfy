/**
  The cuckoo table as a value: displacement, doubling and stash merging as functions,
  and the proofs that none of them loses, duplicates or misplaces an item.
 */
module CoucalTable {
  import opened Bytes
  import opened CoucalTypes

  /** `Settled`: a free slot was found.  `Homeless`: `item` was kicked out and has no slot. */
  datatype Kicked = Settled(items: seq<Item>) | Homeless(items: seq<Item>, item: Item)

  /** The items that are really there: everything but free slots. */
  ghost function Live(slots: seq<Item>): multiset<Item> {
    multiset(slots)[FREE := 0]
  }

  /** Is `pos` one of the two positions of `item`? */
  predicate AtHome(lg: nat, item: Item, pos: nat) {
    pos == Position(lg, item.hashes.hash1) || pos == Position(lg, item.hashes.hash2)
  }

  /** A table of `2**lg` slots: free slots are all-zero, other items are at one of their positions. */
  ghost predicate Placed(lg: nat, items: seq<Item>) {
    && |items| == Pow2(lg)
    && forall i :: 0 <= i < |items| ==>
         if items[i].name.Null? then items[i] == FREE else AtHome(lg, items[i], i)
  }

  /** The position of an item does not depend on where its name is stored. */
  lemma RenamedStaysPlaced(lg: nat, items: seq<Item>, i: nat, name: Name)
    requires Placed(lg, items) && !name.Null?
    requires i < |items| && !items[i].name.Null?
    ensures Placed(lg, items[i := items[i].(name := name)])
  {
  }

  lemma FreeStaysPlaced(lg: nat, items: seq<Item>, i: nat)
    requires Placed(lg, items) && i < |items|
    ensures Placed(lg, items[i := FREE])
  {
  }

  lemma HomeStaysPlaced(lg: nat, items: seq<Item>, i: nat, item: Item)
    requires Placed(lg, items) && i < |items| && AtHome(lg, item, i) && !item.name.Null?
    ensures Placed(lg, items[i := item])
  {
  }

  // ---- Displacement ----

  /** The hash an item that is kicked from `pos` goes on with. */
  function OtherHash(lg: nat, item: Item, pos: nat): HashKey {
    if pos == Position(lg, item.hashes.hash1) then item.hashes.hash2 else item.hashes.hash1
  }

  /** The displacement loop: put `item` at the position of `cuckoo`, carry on with what was there. */
  function Kick(lg: nat, items: seq<Item>, item: Item, cuckoo: HashKey, initial: HashKey, loops: nat): Kicked
    requires |items| == Pow2(lg)
    decreases loops
  {
    if loops == 0 then Homeless(items, item)
    else
      var pos := Position(lg, cuckoo);
      var lost := items[pos];
      if lost.name.Null? then Settled(items[pos := item])
      else
        var next := OtherHash(lg, lost, pos);
        if next == initial then Homeless(items[pos := item], lost)
        else Kick(lg, items[pos := item], lost, next, initial, loops - 1)
  }

  /** Adding an item: position 1 if free, position 2 if free, otherwise displacement from position 1. */
  function Added(lg: nat, items: seq<Item>, item: Item): Kicked
    requires |items| == Pow2(lg)
  {
    var pos1 := Position(lg, item.hashes.hash1);
    var pos2 := Position(lg, item.hashes.hash2);
    if items[pos1].name.Null? then Settled(items[pos1 := item])
    else if items[pos2].name.Null? then Settled(items[pos2 := item])
    else Kick(lg, items, item, item.hashes.hash1, item.hashes.hash1, Pow2(lg))
  }

  /** No place is found for an item with these hashes: the displacement ends with an item in hand. */
  predicate HasNoPlace(lg: nat, items: seq<Item>, hashes: HashKeys)
    requires |items| == Pow2(lg)
  {
    Added(lg, items, Item(EmptyString, 0, hashes)).Homeless?
  }

  // ---- The path of the kicks ----

  /**
    The item, kicked from slot `from`, goes on by `hash`: by the one of its two hashes that leads to
    another slot, or by the second one when both lead to the same.
   */
  predicate GoesBy(item: Item, lg: nat, from: nat, hash: HashKey) {
    var (a, b) := (item.hashes.hash1, item.hashes.hash2);
    && (hash == a || hash == b)
    && if Position(lg, a) == Position(lg, b) then hash == b else Position(lg, hash) != from
  }

  /**
    A path of kicks: `hands[k]` is put at the position of `hashes[k]`, where the next item in hand was;
    `tables[k]` is the table before that.
   */
  ghost predicate KickPath(lg: nat, tables: seq<seq<Item>>, hands: seq<Item>, hashes: seq<HashKey>) {
    && |tables| == |hands| == |hashes| > 0
    && (forall k :: 0 <= k < |tables| ==> |tables[k]| == Pow2(lg))
    && forall k, m :: 0 <= k < m == k + 1 < |tables| ==>
         PathStep(lg, tables[k], hands[k], hashes[k], tables[m], hands[m], hashes[m])
  }

  predicate PathStep(
    lg: nat, table: seq<Item>, hand: Item, hash: HashKey, table': seq<Item>, hand': Item, hash': HashKey) {
    && |table| == Pow2(lg)
    && var slot := Position(lg, hash);
       && !table[slot].name.Null? && table' == table[slot := hand] && hand' == table[slot]
       && GoesBy(hand', lg, slot, hash')
  }

  /** The path starts with `item` and `hash`, and ends at a free slot without coming to `initial` on its way. */
  ghost predicate Arrives(
    lg: nat, items: seq<Item>, item: Item, hash: HashKey, initial: HashKey, tables: seq<seq<Item>>, hands: seq<Item>,
    hashes: seq<HashKey>) {
    && KickPath(lg, tables, hands, hashes)
    && tables[0] == items && hands[0] == item && hashes[0] == hash
    && (forall k :: 0 < k < |hashes| ==> hashes[k] != initial)
    && var n := |tables| - 1; tables[n][Position(lg, hashes[n])].name.Null?
  }

  /** The table at the end of the path, with the last item in the free slot. */
  ghost function Arrived(lg: nat, tables: seq<seq<Item>>, hands: seq<Item>, hashes: seq<HashKey>): seq<Item>
    requires KickPath(lg, tables, hands, hashes)
  {
    var n := |tables| - 1;
    tables[n][Position(lg, hashes[n]) := hands[n]]
  }

  lemma OtherHashGoes(lg: nat, item: Item, pos: nat, hash: HashKey)
    requires AtHome(lg, item, pos)
    ensures GoesBy(item, lg, pos, hash) ==> hash == OtherHash(lg, item, pos)
    ensures GoesBy(item, lg, pos, OtherHash(lg, item, pos))
  {
  }

  /** A displacement that settles has followed such a path. */
  lemma {:induction false} KickArrives(
    lg: nat, items: seq<Item>, item: Item, hash: HashKey, initial: HashKey, loops: nat)
    returns (tables: seq<seq<Item>>, hands: seq<Item>, hashes: seq<HashKey>)
    requires Placed(lg, items) && AtHome(lg, item, Position(lg, hash)) && !item.name.Null?
    requires Kick(lg, items, item, hash, initial, loops).Settled?
    ensures Arrives(lg, items, item, hash, initial, tables, hands, hashes) && |hashes| <= loops
    ensures Kick(lg, items, item, hash, initial, loops).items == Arrived(lg, tables, hands, hashes)
    decreases loops
  {
    hide OtherHash, GoesBy;
    var pos := Position(lg, hash);
    tables, hands, hashes := [items], [item], [hash];
    if !items[pos].name.Null? {
      var lost := items[pos];
      var next := OtherHash(lg, lost, pos);
      OtherHashGoes(lg, lost, pos, next);
      OtherHashHome(lg, lost, pos);
      HomeStaysPlaced(lg, items, pos, item);
      var t, h, c := KickArrives(lg, items[pos := item], lost, next, initial, loops - 1);
      LongerPath(lg, items, item, hash, initial, next, t, h, c);
      tables, hands, hashes := [items] + t, [item] + h, [hash] + c;
    }
  }

  lemma OtherHashHome(lg: nat, item: Item, pos: nat)
    ensures AtHome(lg, item, Position(lg, OtherHash(lg, item, pos)))
  {
  }

  lemma LongerPath(
    lg: nat, items: seq<Item>, item: Item, hash: HashKey, initial: HashKey, next: HashKey, tables: seq<seq<Item>>,
    hands: seq<Item>, hashes: seq<HashKey>)
    requires |items| == Pow2(lg) && !items[Position(lg, hash)].name.Null? && next != initial
    requires GoesBy(items[Position(lg, hash)], lg, Position(lg, hash), next)
    requires Arrives(
               lg, items[Position(lg, hash) := item], items[Position(lg, hash)], next, initial, tables, hands, hashes)
    ensures Arrives(lg, items, item, hash, initial, [items] + tables, [item] + hands, [hash] + hashes)
    ensures Arrived(lg, [items] + tables, [item] + hands, [hash] + hashes) == Arrived(lg, tables, hands, hashes)
  {
    hide GoesBy;
    var t, h, c := [items] + tables, [item] + hands, [hash] + hashes;
    forall k, m | 0 <= k < m == k + 1 < |t|
      ensures PathStep(lg, t[k], h[k], c[k], t[m], h[m], c[m])
    {
      if k > 0 {
        assert PathStep(lg, tables[k - 1], hands[k - 1], hashes[k - 1], tables[m - 1], hands[m - 1], hashes[m - 1]);
      }
    }
  }

  /** And where there is such a path, the displacement settles. */
  lemma {:induction false} ArrivingSettles(
    lg: nat, items: seq<Item>, item: Item, hash: HashKey, initial: HashKey, loops: nat, tables: seq<seq<Item>>,
    hands: seq<Item>, hashes: seq<HashKey>)
    requires Placed(lg, items) && AtHome(lg, item, Position(lg, hash)) && !item.name.Null?
    requires Arrives(lg, items, item, hash, initial, tables, hands, hashes) && |hashes| <= loops
    ensures Kick(lg, items, item, hash, initial, loops).Settled?
    decreases loops
  {
    hide OtherHash, GoesBy;
    if |hashes| > 1 {
      var pos := Position(lg, hash);
      assert PathStep(lg, tables[0], hands[0], hashes[0], tables[1], hands[1], hashes[1]);
      var lost := items[pos];
      OtherHashGoes(lg, lost, pos, hashes[1]);
      OtherHashHome(lg, lost, pos);
      HomeStaysPlaced(lg, items, pos, item);
      ShorterPath(lg, items, item, hash, initial, tables, hands, hashes);
      ArrivingSettles(lg, tables[1], lost, hashes[1], initial, loops - 1, tables[1..], hands[1..], hashes[1..]);
    }
  }

  lemma ShorterPath(
    lg: nat, items: seq<Item>, item: Item, hash: HashKey, initial: HashKey, tables: seq<seq<Item>>,
    hands: seq<Item>, hashes: seq<HashKey>)
    requires Arrives(lg, items, item, hash, initial, tables, hands, hashes) && |hashes| > 1
    ensures Arrives(lg, tables[1], hands[1], hashes[1], initial, tables[1..], hands[1..], hashes[1..])
  {
    hide PathStep;
    var t, h, c := tables[1..], hands[1..], hashes[1..];
    forall k, m | 0 <= k < m == k + 1 < |t|
      ensures PathStep(lg, t[k], h[k], c[k], t[m], h[m], c[m])
    {
      assert PathStep(lg, tables[k + 1], hands[k + 1], hashes[k + 1], tables[m + 1], hands[m + 1], hashes[m + 1]);
    }
  }

  /** A path from these hashes, no longer than there are slots. */
  ghost predicate HasPath(lg: nat, items: seq<Item>, item: Item) {
    exists tables, hands, hashes ::
      && Arrives(lg, items, item, item.hashes.hash1, item.hashes.hash1, tables, hands, hashes)
      && |hashes| <= Pow2(lg)
  }

  /**
    There is a place for new hashes if and only if one of their two slots is free, or the kicks that
    begin at the first one come to a free slot before they come to the first hash again.
   */
  lemma PlaceFound(lg: nat, items: seq<Item>, hashes: HashKeys)
    requires Placed(lg, items)
    ensures !HasNoPlace(lg, items, hashes) <==>
              || items[Position(lg, hashes.hash1)].name.Null? || items[Position(lg, hashes.hash2)].name.Null?
              || HasPath(lg, items, Item(EmptyString, 0, hashes))
  {
    hide Kick, Arrives;
    var item, first := Item(EmptyString, 0, hashes), hashes.hash1;
    if Kick(lg, items, item, first, first, Pow2(lg)).Settled? {
      var t, h, c := KickArrives(lg, items, item, first, first, Pow2(lg));
    }
    if t, h, c :| Arrives(lg, items, item, first, first, t, h, c) && |c| <= Pow2(lg) {
      ArrivingSettles(lg, items, item, first, first, Pow2(lg), t, h, c);
    }
  }

  /**
    An insertion that settles by kicks leaves the table at the end of a path; when no slot is visited
    twice, each item that was kicked is at its other position, the new one at its first, and no other
    item has moved.
   */
  lemma AddedArrives(lg: nat, items: seq<Item>, item: Item)
    returns (tables: seq<seq<Item>>, hands: seq<Item>, hashes: seq<HashKey>)
    requires Placed(lg, items) && !item.name.Null? && Added(lg, items, item).Settled?
    requires !items[Position(lg, item.hashes.hash1)].name.Null? && !items[Position(lg, item.hashes.hash2)].name.Null?
    ensures Arrives(lg, items, item, item.hashes.hash1, item.hashes.hash1, tables, hands, hashes)
    ensures Added(lg, items, item).items == Arrived(lg, tables, hands, hashes)
    ensures NoSlotTwice(lg, hashes) ==> MovedAlong(lg, items, item, Added(lg, items, item).items, hashes)
  {
    hide Kick, MovedAlong, NoSlotTwice;
    tables, hands, hashes := KickArrives(lg, items, item, item.hashes.hash1, item.hashes.hash1, Pow2(lg));
    if NoSlotTwice(lg, hashes) {
      AlongThePath(lg, items, item, tables, hands, hashes, item.hashes.hash1);
    }
  }

  predicate NoSlotTwice(lg: nat, hashes: seq<HashKey>) {
    forall k, m :: 0 <= k < m < |hashes| ==> Position(lg, hashes[k]) != Position(lg, hashes[m])
  }

  /** Every item on the path has moved to the next slot of the path, which is its other position. */
  ghost predicate MovedAlong(
    lg: nat, items: seq<Item>, item: Item, items': seq<Item>, hashes: seq<HashKey>) {
    && |items| == |items'| == Pow2(lg) && |hashes| > 0
    && items'[Position(lg, hashes[0])] == item
    && (forall k, m :: 0 <= k < m == k + 1 < |hashes| ==>
          var from, to := Position(lg, hashes[k]), Position(lg, hashes[m]);
          items'[to] == items[from] && from != to && AtHome(lg, items[from], to))
    && (forall p :: 0 <= p < |items| && (forall k :: 0 <= k < |hashes| ==> p != Position(lg, hashes[k])) ==>
          items'[p] == items[p])
  }

  /** The tables on the way. */
  lemma {:induction false} OnTheWay(
    lg: nat, items: seq<Item>, tables: seq<seq<Item>>, hands: seq<Item>, hashes: seq<HashKey>, n: nat)
    requires KickPath(lg, tables, hands, hashes) && tables[0] == items && NoSlotTwice(lg, hashes) && n < |tables|
    ensures forall p :: 0 <= p < Pow2(lg) && (forall k :: 0 <= k < n ==> p != Position(lg, hashes[k])) ==>
              tables[n][p] == items[p]
    ensures forall k :: 0 <= k < n ==> tables[n][Position(lg, hashes[k])] == hands[k]
    ensures n > 0 ==> hands[n] == items[Position(lg, hashes[n - 1])]
  {
    hide GoesBy;
    if n > 0 {
      OnTheWay(lg, items, tables, hands, hashes, n - 1);
      assert PathStep(lg, tables[n - 1], hands[n - 1], hashes[n - 1], tables[n], hands[n], hashes[n]);
    }
  }

  lemma AlongThePath(
    lg: nat, items: seq<Item>, item: Item, tables: seq<seq<Item>>, hands: seq<Item>, hashes: seq<HashKey>,
    initial: HashKey)
    requires Arrives(lg, items, item, item.hashes.hash1, initial, tables, hands, hashes) && NoSlotTwice(lg, hashes)
    ensures MovedAlong(lg, items, item, Arrived(lg, tables, hands, hashes), hashes)
  {
    hide PathStep, AtHome, NoSlotTwice;
    var n := |tables| - 1;
    OnTheWay(lg, items, tables, hands, hashes, n);
    var items' := Arrived(lg, tables, hands, hashes);
    forall k, m | 0 <= k < m == k + 1 < |hashes|
      ensures items'[Position(lg, hashes[m])] == items[Position(lg, hashes[k])]
      ensures Position(lg, hashes[k]) != Position(lg, hashes[m])
      ensures AtHome(lg, items[Position(lg, hashes[k])], Position(lg, hashes[m]))
    {
      OnStep(lg, items, tables, hands, hashes, k, m);
      Apart(lg, hashes, m, n);
    }
    Apart(lg, hashes, 0, n);
  }

  lemma Apart(lg: nat, hashes: seq<HashKey>, k: nat, m: nat)
    requires NoSlotTwice(lg, hashes) && k <= m < |hashes|
    ensures Position(lg, hashes[k]) == Position(lg, hashes[m]) <==> k == m
  {
  }

  lemma OnStep(
    lg: nat, items: seq<Item>, tables: seq<seq<Item>>, hands: seq<Item>, hashes: seq<HashKey>, k: nat, m: nat)
    requires KickPath(lg, tables, hands, hashes) && tables[0] == items && NoSlotTwice(lg, hashes)
    requires k < m == k + 1 < |tables|
    ensures hands[m] == items[Position(lg, hashes[k])] && AtHome(lg, hands[m], Position(lg, hashes[m]))
    ensures Position(lg, hashes[k]) != Position(lg, hashes[m])
  {
    OnTheWay(lg, items, tables, hands, hashes, m);
    assert PathStep(lg, tables[k], hands[k], hashes[k], tables[m], hands[m], hashes[m]);
  }

  /** Both slots are taken, and the item in the first one goes on by the new first hash itself. */
  lemma GivesUp(lg: nat, items: seq<Item>, hashes: HashKeys)
    requires Placed(lg, items)
    requires !items[Position(lg, hashes.hash1)].name.Null? && !items[Position(lg, hashes.hash2)].name.Null?
    requires GoesBy(items[Position(lg, hashes.hash1)], lg, Position(lg, hashes.hash1), hashes.hash1)
    ensures HasNoPlace(lg, items, hashes)
  {
    var pos := Position(lg, hashes.hash1);
    OtherHashGoes(lg, items[pos], pos, hashes.hash1);
    assert Pow2(lg) > 0;
  }

  /** Two items in a table of the smallest size: the one in slot 0 stays there, the other could go to slot 2. */
  function TwoItems(hash2: HashKey): seq<Item> {
    [Item(At(0), 0, HashKeys(0, hash2)), Item(At(1), 0, HashKeys(1, 2))] + seq(14, i => FREE)
  }

  /**
    The displacement compares hashes, not positions: it gives up although slot 2 could be reached when
    the item in slot 0 has the new first hash itself, and not when it has another one of the same position.
   */
  lemma SameHashGivesUp()
    ensures Position(4, 16) == Position(4, 32) == 0
    ensures Placed(4, TwoItems(16)) && AtHome(4, TwoItems(16)[1], 2) && HasNoPlace(4, TwoItems(16), HashKeys(16, 1))
    ensures Placed(4, TwoItems(32)) && AtHome(4, TwoItems(32)[1], 2) && !HasNoPlace(4, TwoItems(32), HashKeys(16, 1))
  {
    hide Kick;
    Sixteen();
    GivesUp(4, TwoItems(16), HashKeys(16, 1));
    var item, t0 := Item(EmptyString, 0, HashKeys(16, 1)), TwoItems(32);
    var t1 := t0[0 := item];
    var t2 := t1[0 := t0[0]];
    var t3 := t2[1 := item];
    assert PathStep(4, t0, item, 16, t1, t0[0], 32) && PathStep(4, t1, t0[0], 32, t2, item, 1);
    assert PathStep(4, t2, item, 1, t3, t0[1], 2);
    assert Arrives(4, t0, item, 16, 16, [t0, t1, t2, t3], [item, t0[0], item, t0[1]], [16, 32, 1, 2]);
    PlaceFound(4, TwoItems(32), HashKeys(16, 1));
  }

  lemma Sixteen()
    ensures Pow2(4) == 16
  {
    assert Pow2(0) == 1 && Pow2(1) == 2 && Pow2(2) == 4 && Pow2(3) == 8;
  }

  /** The same slots are free and the others have the same hashes. */
  ghost predicate SameHashes(items: seq<Item>, items': seq<Item>) {
    && |items| == |items'|
    && forall i :: 0 <= i < |items| ==>
         items'[i].hashes == items[i].hashes && (items'[i].name.Null? <==> items[i].name.Null?)
  }

  lemma SameHashesTable(items: seq<Item>, items': seq<Item>, stash: seq<Item>, stash': seq<Item>)
    requires SameHashes(items + stash, items' + stash') && |items| == |items'|
    ensures SameHashes(items, items')
  {
    assert forall i :: 0 <= i < |items| ==> (items + stash)[i] == items[i] && (items' + stash')[i] == items'[i];
  }

  /** Where the displacement ends depends on the hashes alone. */
  lemma {:induction false} KickByHashes(
    lg: nat, items: seq<Item>, items': seq<Item>, item: Item, item': Item, cuckoo: HashKey, initial: HashKey, loops:
    nat)
    requires |items| == Pow2(lg) && SameHashes(items, items')
    requires item.hashes == item'.hashes && !item.name.Null? && !item'.name.Null?
    ensures Kick(lg, items, item, cuckoo, initial, loops).Homeless? ==
            Kick(lg, items', item', cuckoo, initial, loops).Homeless?
    decreases loops
  {
    if loops != 0 {
      var pos := Position(lg, cuckoo);
      var lost, lost' := items[pos], items'[pos];
      if !lost.name.Null? {
        var next := OtherHash(lg, lost, pos);
        if next != initial {
          KickByHashes(lg, items[pos := item], items'[pos := item'], lost, lost', next, initial, loops - 1);
        }
      }
    }
  }

  /** So a copy of the key elsewhere in the pool, or a pool that has moved, makes no difference. */
  lemma PlaceByHashes(lg: nat, items: seq<Item>, items': seq<Item>, item: Item)
    requires |items| == Pow2(lg) && SameHashes(items, items') && !item.name.Null?
    ensures Added(lg, items', item).Homeless? == HasNoPlace(lg, items, item.hashes)
  {
    var plain := Item(EmptyString, 0, item.hashes);
    KickByHashes(lg, items, items', plain, item, item.hashes.hash1, item.hashes.hash1, Pow2(lg));
  }

  /** The table, plus the item still in hand when there is one, holds `before` and `item`. */
  ghost predicate Conserves(lg: nat, before: seq<Item>, item: Item, after: Kicked) {
    && Placed(lg, after.items)
    && (after.Settled? ==> Live(after.items) == Live(before) + multiset{item})
    && (after.Homeless? ==>
          && !after.item.name.Null?
          && Live(after.items) + multiset{after.item} == Live(before) + multiset{item})
  }

  lemma LiveUpdate(slots: seq<Item>, i: nat, item: Item)
    requires i < |slots|
    ensures multiset(slots[i := item]) == multiset(slots) - multiset{slots[i]} + multiset{item}
    ensures slots[i] == FREE != item ==> Live(slots[i := item]) == Live(slots) + multiset{item}
    ensures slots[i] != FREE && item != FREE ==>
              Live(slots[i := item]) + multiset{slots[i]} == Live(slots) + multiset{item}
    ensures slots[i] != FREE == item ==> Live(slots[i := item]) + multiset{slots[i]} == Live(slots)
  {
    MultisetUpdate(slots, i, item);
  }

  lemma MultisetUpdate(slots: seq<Item>, i: nat, item: Item)
    requires i < |slots|
    ensures multiset(slots[i := item]) == multiset(slots) - multiset{slots[i]} + multiset{item}
    ensures slots[i] in multiset(slots)
  {
    assert slots == slots[..i] + [slots[i]] + slots[i + 1..];
    assert slots[i := item] == slots[..i] + [item] + slots[i + 1..];
  }

  lemma {:induction false} KickConserves(
    lg: nat, items: seq<Item>, item: Item, cuckoo: HashKey, initial: HashKey, loops: nat)
    requires Placed(lg, items)
    requires !item.name.Null?
    requires cuckoo == item.hashes.hash1 || cuckoo == item.hashes.hash2
    ensures Conserves(lg, items, item, Kick(lg, items, item, cuckoo, initial, loops))
    decreases loops
  {
    if loops != 0 {
      var pos := Position(lg, cuckoo);
      var lost := items[pos];
      LiveUpdate(items, pos, item);
      var items' := items[pos := item];
      assert Placed(lg, items');
      if !lost.name.Null? {
        var next := OtherHash(lg, lost, pos);
        if next != initial {
          KickConserves(lg, items', lost, next, initial, loops - 1);
        }
      }
    }
  }

  /** Adding keeps every item, wherever the displacement stops. */
  lemma AddedConserves(lg: nat, items: seq<Item>, item: Item)
    requires Placed(lg, items)
    requires !item.name.Null?
    ensures Conserves(lg, items, item, Added(lg, items, item))
  {
    var pos1 := Position(lg, item.hashes.hash1);
    var pos2 := Position(lg, item.hashes.hash2);
    LiveUpdate(items, pos1, item);
    LiveUpdate(items, pos2, item);
    KickConserves(lg, items, item, item.hashes.hash1, item.hashes.hash1, Pow2(lg));
  }

  // ---- Doubling ----

  /** The position in the doubled table of the item found at slot `i`. */
  function NewPosition(lg: nat, item: Item, i: nat): nat {
    if Position(lg, item.hashes.hash1) == i then Position(lg + 1, item.hashes.hash1)
    else Position(lg + 1, item.hashes.hash2)
  }

  /** Does the item of slot `i` keep its slot when the table doubles? */
  predicate Stays(lg: nat, item: Item, i: nat) {
    item.name.Null? || NewPosition(lg, item, i) == i
  }

  function LowerHalf(lg: nat, items: seq<Item>): (r: seq<Item>)
    ensures |r| == |items|
  {
    seq(|items|, i requires 0 <= i < |items| => if Stays(lg, items[i], i) then items[i] else FREE)
  }

  function UpperHalf(lg: nat, items: seq<Item>): (r: seq<Item>)
    ensures |r| == |items|
  {
    seq(|items|, i requires 0 <= i < |items| => if Stays(lg, items[i], i) then FREE else items[i])
  }

  /** The doubled table: every item of old slot `i` is at `i` or at `i` plus the old size. */
  function Doubled(lg: nat, items: seq<Item>): seq<Item> {
    LowerHalf(lg, items) + UpperHalf(lg, items)
  }

  lemma LiveConcat(a: seq<Item>, b: seq<Item>)
    ensures Live(a + b) == Live(a) + Live(b)
  {
  }

  /** Splitting a table in two by any choice per slot keeps its items. */
  lemma {:induction false} LiveSplit(whole: seq<Item>, lower: seq<Item>, upper: seq<Item>)
    requires |whole| == |lower| == |upper|
    requires forall i :: 0 <= i < |whole| ==>
               || (lower[i] == whole[i] && upper[i] == FREE)
               || (lower[i] == FREE && upper[i] == whole[i])
    ensures Live(lower) + Live(upper) == Live(whole)
  {
    hide Live;
    if |whole| == 0 {
      NoneLive();
    } else {
      var n := |whole| - 1;
      LiveSplit(whole[..n], lower[..n], upper[..n]);
      assert whole == whole[..n] + [whole[n]];
      assert lower == lower[..n] + [lower[n]];
      assert upper == upper[..n] + [upper[n]];
      LiveConcat(whole[..n], [whole[n]]);
      LiveConcat(lower[..n], [lower[n]]);
      LiveConcat(upper[..n], [upper[n]]);
      NoneLive();
      LiveParts(Live(whole[..n]), Live(lower[..n]), Live(upper[..n]), Live([lower[n]]), Live([upper[n]]));
    }
  }

  lemma NoneLive()
    ensures Live([]) == Live([FREE]) == multiset{}
  {
  }

  lemma LiveParts(all: multiset<Item>, a: multiset<Item>, b: multiset<Item>, x: multiset<Item>, y: multiset<Item>)
    requires a + b == all
    ensures (a + x) + (b + y) == all + (x + y)
  {
  }

  /** The doubled table holds the same items, each at one of its new positions. */
  lemma DoubledConserves(lg: nat, items: seq<Item>)
    requires Placed(lg, items)
    ensures Placed(lg + 1, Doubled(lg, items))
    ensures Live(Doubled(lg, items)) == Live(items)
  {
    var n := |items|;
    var d := Doubled(lg, items);
    forall i | 0 <= i < n
      ensures Stays(lg, items[i], i) || NewPosition(lg, items[i], i) == i + n
    {
      PositionAfterDoubling(lg, items[i].hashes.hash1);
      PositionAfterDoubling(lg, items[i].hashes.hash2);
    }
    forall i | 0 <= i < |d|
      ensures if d[i].name.Null? then d[i] == FREE else AtHome(lg + 1, d[i], i)
    {
      var j := if i < n then i else i - n;
      assert d[i] == items[j] || d[i] == FREE;
    }
    LiveSplit(items, LowerHalf(lg, items), UpperHalf(lg, items));
    LiveConcat(LowerHalf(lg, items), UpperHalf(lg, items));
  }

  // ---- Stash merging ----

  /** Re-add `todo` to the table in order; what finds no slot goes to `stash`. */
  function Merged(lg: nat, items: seq<Item>, stash: seq<Item>, todo: seq<Item>): (seq<Item>, seq<Item>)
    requires |items| == Pow2(lg)
    decreases |todo|
  {
    if todo == [] then (items, stash)
    else
      AddedLength(lg, items, todo[0]);
      var k := Added(lg, items, todo[0]);
      Merged(lg, k.items, StashAfter(stash, k), todo[1..])
  }

  lemma NothingMerged(lg: nat, items: seq<Item>)
    requires |items| == Pow2(lg)
    ensures Merged(lg, items, [], []) == (items, [])
  {
  }

  lemma {:induction false} KickLength(
    lg: nat, items: seq<Item>, item: Item, cuckoo: HashKey, initial: HashKey, loops: nat)
    requires |items| == Pow2(lg)
    ensures |Kick(lg, items, item, cuckoo, initial, loops).items| == |items|
    decreases loops
  {
    if loops != 0 {
      var pos := Position(lg, cuckoo);
      var lost := items[pos];
      var next := OtherHash(lg, lost, pos);
      KickLength(lg, items[pos := item], lost, next, initial, loops - 1);
    }
  }

  lemma AddedLength(lg: nat, items: seq<Item>, item: Item)
    requires |items| == Pow2(lg)
    ensures |Added(lg, items, item).items| == |items|
  {
    KickLength(lg, items, item, item.hashes.hash1, item.hashes.hash1, Pow2(lg));
  }

  /** The stash after adding one item. */
  function StashAfter(stash: seq<Item>, k: Kicked): seq<Item> {
    if k.Settled? then stash else stash + [k.item]
  }

  ghost predicate AllTaken(stash: seq<Item>) {
    forall i :: 0 <= i < |stash| ==> !stash[i].name.Null?
  }

  /** Adding one item to the table and the stash behind it. */
  lemma AddedKeepsAll(lg: nat, items: seq<Item>, stash: seq<Item>, item: Item, k: Kicked)
    requires AllTaken(stash) && !item.name.Null?
    requires Conserves(lg, items, item, k)
    ensures AllTaken(StashAfter(stash, k))
    ensures Live(k.items + StashAfter(stash, k)) == Live(items + stash) + multiset{item}
  {
    LiveConcat(items, stash);
    LiveConcat(k.items, StashAfter(stash, k));
    if k.Homeless? {
      LiveConcat(stash, [k.item]);
      assert Live([k.item]) == multiset{k.item};
      var a, b, c, d, e := Live(items), Live(stash), Live(k.items), multiset{item}, multiset{k.item};
      assert c + (b + e) == (c + e) + b == (a + b) + d;
    }
  }

  /** Merging loses nothing and never leaves a stash longer than what was put in. */
  lemma {:induction false} MergedConserves(lg: nat, items: seq<Item>, stash: seq<Item>, todo: seq<Item>)
    requires Placed(lg, items) && AllTaken(stash) && AllTaken(todo)
    ensures var (items', stash') := Merged(lg, items, stash, todo);
            && Placed(lg, items')
            && AllTaken(stash')
            && |stash| <= |stash'| <= |stash| + |todo|
            && Live(items' + stash') == Live(items + stash) + multiset(todo)
    decreases |todo|
  {
    if todo != [] {
      AddedConserves(lg, items, todo[0]);
      var k := Added(lg, items, todo[0]);
      AddedKeepsAll(lg, items, stash, todo[0], k);
      MergedConserves(lg, k.items, StashAfter(stash, k), todo[1..]);
      assert todo == [todo[0]] + todo[1..];
    }
  }

  /** One round of the merging loop. */
  lemma MergedStep(lg: nat, items: seq<Item>, stash: seq<Item>, todo: seq<Item>, i: nat)
    requires |items| == Pow2(lg) && i < |todo|
    ensures var k := Added(lg, items, todo[i]);
            && |k.items| == |items|
            && Merged(lg, items, stash, todo[i..]) == Merged(lg, k.items, StashAfter(stash, k), todo[i + 1..])
            && |StashAfter(stash, k)| <= |stash| + 1
  {
    AddedLength(lg, items, todo[i]);
    assert todo[i..][1..] == todo[i + 1..];
  }

  lemma MergedDone(lg: nat, items: seq<Item>, stash: seq<Item>, todo: seq<Item>)
    requires |items| == Pow2(lg)
    ensures Merged(lg, items, stash, todo[|todo|..]) == (items, stash)
  {
  }

  /** Emptying the stash and merging what was in it keeps every item, and the stash does not grow. */
  lemma MergedWhole(lg: nat, items: seq<Item>, todo: seq<Item>)
    requires Placed(lg, items) && AllTaken(todo)
    ensures var (items', stash') := Merged(lg, items, [], todo);
            && Placed(lg, items') && AllTaken(stash') && |stash'| <= |todo|
            && Live(items' + stash') == Live(items + todo)
  {
    MergedConserves(lg, items, [], todo);
    LiveConcat(items, todo);
    assert items + [] == items;
    assert FREE !in todo;
    assert Live(todo) == multiset(todo);
  }
}
