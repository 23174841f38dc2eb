/**
  What a sequence of slots (table, then stash) means: a finite map from keys to values.
  Keys live in the string pool; `text` gives the string found at each pool offset in use.
 */
module CoucalMap {
  import opened Bytes
  import opened CoucalTypes
  import opened CoucalTable

  type Text = map<int, CString>
  type Contents = map<CString, Value>
  type Hasher = CString -> HashKeys

  /** The key an item's `name` points to. */
  ghost function KeyOf(text: Text, base: int, name: Name): CString {
    if name.At? && name.address - base in text then text[name.address - base] else []
  }

  /** The slot holds an item whose name, hashes and value are those of an entry of the map. */
  ghost predicate GoodItem(item: Item, text: Text, base: int, hash: Hasher, contents: Contents) {
    var key := KeyOf(text, base, item.name);
    && !item.name.Null?
    && (item.name.At? ==> item.name.address - base in text && key != [])
    && item.hashes == hash(key)
    && key in contents
    && contents[key] == item.value
  }

  /** Slot `i` holds the entry of `key`. */
  ghost predicate Holds(slots: seq<Item>, text: Text, base: int, i: int, key: CString) {
    0 <= i < |slots| && !slots[i].name.Null? && KeyOf(text, base, slots[i].name) == key
  }

  /** Slot `i` points to pool offset `offset`. */
  ghost predicate PointsTo(slots: seq<Item>, base: int, i: int, offset: int) {
    0 <= i < |slots| && slots[i].name == At(base + offset)
  }

  ghost predicate Held(slots: seq<Item>, text: Text, base: int, key: CString) {
    exists i :: Holds(slots, text, base, i, key)
  }

  ghost predicate Named(slots: seq<Item>, base: int, offset: int) {
    exists i :: PointsTo(slots, base, i, offset)
  }

  /** Every occupied slot is an entry; free slots are all-zero. */
  ghost predicate AllGood(slots: seq<Item>, text: Text, base: int, hash: Hasher, contents: Contents) {
    forall i :: 0 <= i < |slots| ==> slots[i] == FREE || GoodItem(slots[i], text, base, hash, contents)
  }

  /** No key is held twice. */
  ghost predicate Distinct(slots: seq<Item>, text: Text, base: int) {
    forall i, j :: 0 <= i < j < |slots| && !slots[i].name.Null? && !slots[j].name.Null? ==>
      KeyOf(text, base, slots[i].name) != KeyOf(text, base, slots[j].name)
  }

  /** Every entry has a slot. */
  ghost predicate Covers(slots: seq<Item>, text: Text, base: int, contents: Contents) {
    forall key {:trigger Held(slots, text, base, key)} :: key in contents ==> Held(slots, text, base, key)
  }

  /** Every string in use in the pool is the name of some slot. */
  ghost predicate NoLeak(slots: seq<Item>, text: Text, base: int) {
    forall offset {:trigger Named(slots, base, offset)} :: offset in text ==> Named(slots, base, offset)
  }

  /** The slots represent `contents`. */
  ghost predicate Represents(slots: seq<Item>, text: Text, base: int, hash: Hasher, contents: Contents) {
    && AllGood(slots, text, base, hash, contents)
    && Distinct(slots, text, base)
    && Covers(slots, text, base, contents)
    && NoLeak(slots, text, base)
  }

  /** The entries slot by slot, whatever the addresses of the names. */
  ghost function Entries(slots: seq<Item>, text: Text, base: int): (r: seq<Option<(CString, Value)>>)
    ensures |r| == |slots|
  {
    seq(|slots|, i requires 0 <= i < |slots| =>
      if slots[i].name.Null? then None else Some((KeyOf(text, base, slots[i].name), slots[i].value)))
  }

  /** The entries of the slots and the hash function determine the hashes. */
  lemma EntriesByHashes(
    slots: seq<Item>, slots': seq<Item>, text: Text, base: int, text': Text, base': int, hash: Hasher,
    contents: Contents)
    requires Represents(slots, text, base, hash, contents) && Represents(slots', text', base', hash, contents)
    requires Entries(slots, text, base) == Entries(slots', text', base')
    ensures SameHashes(slots, slots')
  {
    var entries, entries' := Entries(slots, text, base), Entries(slots', text', base');
    forall i | 0 <= i < |slots|
      ensures slots'[i].hashes == slots[i].hashes && (slots'[i].name.Null? <==> slots[i].name.Null?)
    {
      assert entries[i] == entries'[i];
      assert slots[i] == FREE || GoodItem(slots[i], text, base, hash, contents);
      assert slots'[i] == FREE || GoodItem(slots'[i], text', base', hash, contents);
    }
  }

  // ---- Multisets and indices ----

  lemma TwoIndices(slots: seq<Item>, i: nat, j: nat)
    requires i < j < |slots| && slots[i] == slots[j]
    ensures multiset(slots)[slots[i]] >= 2
  {
    assert slots == slots[..i] + [slots[i]] + slots[i + 1..j] + [slots[j]] + slots[j + 1..];
  }

  lemma FindTwo(slots: seq<Item>, x: Item) returns (i: nat, j: nat)
    requires multiset(slots)[x] >= 2
    ensures i < j < |slots| && slots[i] == slots[j] == x
  {
    assert x in multiset(slots);
    i :| 0 <= i < |slots| && slots[i] == x;
    var rest := slots[..i] + slots[i + 1..];
    assert slots == slots[..i] + [slots[i]] + slots[i + 1..];
    assert multiset(slots) == multiset(rest) + multiset{x};
    assert x in multiset(rest);
    var k :| 0 <= k < |rest| && rest[k] == x;
    if k < i {
      i, j := k, i;
    } else {
      j := k + 1;
    }
  }

  lemma SameLiveMember(slots: seq<Item>, slots': seq<Item>, i: nat) returns (j: nat)
    requires Live(slots) == Live(slots')
    requires i < |slots| && slots[i] != FREE
    ensures j < |slots'| && slots'[j] == slots[i]
  {
    assert slots[i] in multiset(slots);
    assert Live(slots')[slots[i]] == multiset(slots')[slots[i]];
    assert slots[i] in multiset(slots');
    j :| 0 <= j < |slots'| && slots'[j] == slots[i];
  }

  /** Moving items between slots does not change what the slots mean. */
  lemma MovingKeepsMeaning(
    slots: seq<Item>, slots': seq<Item>, text: Text, base: int, hash: Hasher, contents: Contents)
    requires Represents(slots, text, base, hash, contents)
    requires Live(slots) == Live(slots')
    ensures Represents(slots', text, base, hash, contents)
  {
    forall i | 0 <= i < |slots'| && slots'[i] != FREE
      ensures GoodItem(slots'[i], text, base, hash, contents)
    {
      var j := SameLiveMember(slots', slots, i);
    }
    forall i, j | 0 <= i < j < |slots'| && !slots'[i].name.Null? && !slots'[j].name.Null?
      ensures KeyOf(text, base, slots'[i].name) != KeyOf(text, base, slots'[j].name)
    {
      if KeyOf(text, base, slots'[i].name) == KeyOf(text, base, slots'[j].name) {
        var p := SameLiveMember(slots', slots, i);
        var q := SameLiveMember(slots', slots, j);
        assert p == q;
        TwoIndices(slots', i, j);
        var x := slots'[i];
        assert Live(slots)[x] == multiset(slots)[x] && Live(slots')[x] == multiset(slots')[x];
        var a, b := FindTwo(slots, x);
        assert false;
      }
    }
    forall key | key in contents
      ensures Held(slots', text, base, key)
    {
      assert Held(slots, text, base, key);
      var i :| Holds(slots, text, base, i, key);
      var j := SameLiveMember(slots, slots', i);
      assert Holds(slots', text, base, j, key);
    }
    forall offset | offset in text
      ensures Named(slots', base, offset)
    {
      assert Named(slots, base, offset);
      var i :| PointsTo(slots, base, i, offset);
      var j := SameLiveMember(slots, slots', i);
      assert PointsTo(slots', base, j, offset);
    }
  }

  /** One more slot holding a new key adds one entry. */
  lemma AddingAnEntry(
    slots: seq<Item>, text: Text, text': Text, base: int, hash: Hasher, contents: Contents, key: CString, item: Item)
    requires Represents(slots, text, base, hash, contents)
    requires key !in contents && item.hashes == hash(key)
    requires if key == [] then item.name.EmptyString? && text' == text
             else item.name.At? && item.name.address - base !in text && text' == text[item.name.address - base := key]
    ensures Represents(slots + [item], text', base, hash, contents[key := item.value])
  {
    var all, contents' := slots + [item], contents[key := item.value];
    forall i | 0 <= i < |slots| && slots[i] != FREE
      ensures GoodItem(slots[i], text', base, hash, contents')
      ensures KeyOf(text', base, slots[i].name) == KeyOf(text, base, slots[i].name)
    {
      assert GoodItem(slots[i], text, base, hash, contents);
    }
    assert KeyOf(text', base, item.name) == key;
    NewSlotCovers(slots, text, text', base, contents, key, item);
    NewSlotNames(slots, text, text', base, item);
  }

  lemma NewSlotCovers(
    slots: seq<Item>, text: Text, text': Text, base: int, contents: Contents, key: CString, item: Item)
    requires Covers(slots, text, base, contents) && !item.name.Null? && KeyOf(text', base, item.name) == key
    requires forall i :: 0 <= i < |slots| && slots[i] != FREE ==>
               KeyOf(text', base, slots[i].name) == KeyOf(text, base, slots[i].name)
    ensures Covers(slots + [item], text', base, contents[key := item.value])
  {
    hide KeyOf;
    var all := slots + [item];
    forall k | k in contents || k == key
      ensures Held(all, text', base, k)
    {
      if k == key {
        assert Holds(all, text', base, |slots|, k);
      } else {
        assert Held(slots, text, base, k);
        var i :| Holds(slots, text, base, i, k);
        assert Holds(all, text', base, i, k);
      }
    }
  }

  lemma NewSlotNames(slots: seq<Item>, text: Text, text': Text, base: int, item: Item)
    requires NoLeak(slots, text, base)
    requires forall offset :: offset in text' && offset !in text ==> item.name == At(base + offset)
    ensures NoLeak(slots + [item], text', base)
  {
    var all := slots + [item];
    forall offset | offset in text'
      ensures Named(all, base, offset)
    {
      if offset in text {
        assert Named(slots, base, offset);
        var i :| PointsTo(slots, base, i, offset);
        assert PointsTo(all, base, i, offset);
      } else {
        assert PointsTo(all, base, |slots|, offset);
      }
    }
  }

  /** Overwriting the value of a slot changes that one entry. */
  lemma ReplacingAValue(
    slots: seq<Item>, text: Text, base: int, hash: Hasher, contents: Contents, i: nat, value: Value)
    requires Represents(slots, text, base, hash, contents)
    requires i < |slots| && !slots[i].name.Null?
    ensures Represents(slots[i := slots[i].(value := value)], text, base, hash,
                       contents[KeyOf(text, base, slots[i].name) := value])
  {
    var key := KeyOf(text, base, slots[i].name);
    var slots', contents' := slots[i := slots[i].(value := value)], contents[key := value];
    forall j | 0 <= j < |slots'| && slots'[j] != FREE
      ensures GoodItem(slots'[j], text, base, hash, contents')
    {
      assert GoodItem(slots[j], text, base, hash, contents);
      if j < i || i < j {
        assert KeyOf(text, base, slots[j].name) != key;
      }
    }
    forall k | k in contents'
      ensures Held(slots', text, base, k)
    {
      assert Held(slots, text, base, k);
      var j :| Holds(slots, text, base, j, k);
      assert Holds(slots', text, base, j, k);
    }
    forall offset | offset in text
      ensures Named(slots', base, offset)
    {
      assert Named(slots, base, offset);
      var j :| PointsTo(slots, base, j, offset);
      assert PointsTo(slots', base, j, offset);
    }
  }

  /** The strings left in use once `name` is released. */
  ghost function Without(text: Text, base: int, name: Name): Text {
    if name.At? then text - {name.address - base} else text
  }

  /** Freeing a slot removes that one entry and releases its string. */
  lemma RemovingAnEntry(slots: seq<Item>, text: Text, base: int, hash: Hasher, contents: Contents, i: nat)
    requires Represents(slots, text, base, hash, contents)
    requires i < |slots| && !slots[i].name.Null?
    ensures Represents(slots[i := FREE], Without(text, base, slots[i].name), base, hash,
                       contents - {KeyOf(text, base, slots[i].name)})
    ensures forall j :: 0 <= j < |slots| && j != i && slots[j] != FREE ==>
              KeyOf(Without(text, base, slots[i].name), base, slots[j].name) == KeyOf(text, base, slots[j].name)
    ensures Entries(slots[i := FREE], Without(text, base, slots[i].name), base) == Entries(slots, text, base)[i := None]
  {
    var key := KeyOf(text, base, slots[i].name);
    var slots', contents' := slots[i := FREE], contents - {key};
    var text' := Without(text, base, slots[i].name);
    assert GoodItem(slots[i], text, base, hash, contents);
    forall j | 0 <= j < |slots| && j != i && slots[j] != FREE
      ensures GoodItem(slots[j], text', base, hash, contents')
      ensures KeyOf(text', base, slots[j].name) == KeyOf(text, base, slots[j].name)
    {
      assert GoodItem(slots[j], text, base, hash, contents);
      assert KeyOf(text, base, slots[j].name) != key;
    }
    forall k | k in contents'
      ensures Held(slots', text', base, k)
    {
      assert Held(slots, text, base, k);
      var j :| Holds(slots, text, base, j, k);
      assert Holds(slots', text', base, j, k);
    }
    forall offset | offset in text'
      ensures Named(slots', base, offset)
    {
      assert Named(slots, base, offset);
      var j :| PointsTo(slots, base, j, offset);
      assert PointsTo(slots', base, j, offset);
    }
  }

  /** The same entry and hashes, the name perhaps at another address. */
  ghost predicate SameEntry(item: Item, text: Text, base: int, item': Item, text': Text, base': int) {
    && item' == item.(name := item'.name)
    && (item'.name.Null? <==> item.name.Null?)
    && (item'.name.EmptyString? <==> item.name.EmptyString?)
    && (item'.name.At? ==>
          && item'.name.address - base' in text'
          && KeyOf(text', base', item'.name) == KeyOf(text, base, item.name))
  }

  ghost predicate SameEntries(slots: seq<Item>, text: Text, base: int, slots': seq<Item>, text': Text, base': int) {
    && |slots| == |slots'|
    && forall i :: 0 <= i < |slots| ==> SameEntry(slots[i], text, base, slots'[i], text', base')
  }

  /** Moving strings inside the pool does not change what the slots mean. */
  lemma RelocatingKeepsMeaning(
    slots: seq<Item>, text: Text, base: int, slots': seq<Item>, text': Text, base': int,
    hash: Hasher, contents: Contents)
    requires Represents(slots, text, base, hash, contents)
    requires SameEntries(slots, text, base, slots', text', base')
    requires NoLeak(slots', text', base')
    ensures Represents(slots', text', base', hash, contents)
    ensures Entries(slots', text', base') == Entries(slots, text, base)
  {
    forall i | 0 <= i < |slots|
      ensures slots'[i] == FREE || GoodItem(slots'[i], text', base', hash, contents)
      ensures KeyOf(text', base', slots'[i].name) == KeyOf(text, base, slots[i].name)
    {
      assert SameEntry(slots[i], text, base, slots'[i], text', base');
    }
    forall key | key in contents
      ensures Held(slots', text', base', key)
    {
      assert Held(slots, text, base, key);
      var i :| Holds(slots, text, base, i, key);
      assert Holds(slots', text', base', i, key);
    }
  }

  type Entry = Option<(CString, Value)>

  /** No free slot from `n` on. */
  ghost predicate FullFrom(entries: seq<Entry>, n: nat) {
    forall j :: n <= j < |entries| ==> entries[j].Some?
  }

  lemma TakenAsEntries(items: seq<Item>, stash: seq<Item>, text: Text, base: int)
    ensures AllTaken(stash) <==> FullFrom(Entries(items + stash, text, base), |items|)
  {
    var entries := Entries(items + stash, text, base);
    assert forall i :: 0 <= i < |stash| ==> (entries[|items| + i].Some? <==> !stash[i].name.Null?);
    assert forall j :: |items| <= j < |entries| ==> (entries[j].Some? <==> !stash[j - |items|].name.Null?);
  }

  /** Slot `i` is not the item of `key` under these hashes. */
  ghost predicate Misses(slots: seq<Item>, text: Text, base: int, i: int, key: CString, hashes: HashKeys) {
    Holds(slots, text, base, i, key) ==> slots[i].hashes != hashes
  }

  /** The two positions and the stash are the only places to look. */
  lemma NotThere(
    lg: nat, items: seq<Item>, slots: seq<Item>, text: Text, base: int, hash: Hasher, contents: Contents,
    key: CString, hashes: HashKeys)
    requires items <= slots
    requires Represents(slots, text, base, hash, contents) && Placed(lg, items)
    requires Misses(slots, text, base, Position(lg, hashes.hash1), key, hashes)
    requires Misses(slots, text, base, Position(lg, hashes.hash2), key, hashes)
    requires forall j :: |items| <= j < |slots| ==> Misses(slots, text, base, j, key, hashes)
    ensures !(key in contents && hashes == hash(key))
  {
    if key in contents {
      assert Held(slots, text, base, key);
      var i :| Holds(slots, text, base, i, key);
      assert GoodItem(slots[i], text, base, hash, contents);
      assert i < |items| ==> AtHome(lg, items[i], i);
      assert i >= |items| ==> Misses(slots, text, base, i, key, hashes);
    }
  }

  /** A slot whose hashes and name match is the entry, and the hashes are the key's own. */
  lemma MatchMeans(slots: seq<Item>, text: Text, base: int, hash: Hasher, contents: Contents, i: nat)
    requires Represents(slots, text, base, hash, contents)
    requires i < |slots| && !slots[i].name.Null?
    ensures var key := KeyOf(text, base, slots[i].name);
            && key in contents && contents[key] == slots[i].value && slots[i].hashes == hash(key)
            && Holds(slots, text, base, i, key)
    ensures slots[i].name.At? ==> slots[i].name.address - base in text
  {
    assert GoodItem(slots[i], text, base, hash, contents);
  }

  /** A new item added to table and stash adds its entry. */
  lemma InsertedMeans(
    lg: nat, items: seq<Item>, stash: seq<Item>, k: Kicked, item: Item, rest: Text, text: Text, base: int,
    hash: Hasher, contents: Contents, key: CString)
    requires Represents(items + stash, rest, base, hash, contents)
    requires AllTaken(stash) && Conserves(lg, items, item, k)
    requires key !in contents && item.hashes == hash(key)
    requires if key == [] then item.name.EmptyString? && text == rest
             else item.name.At? && item.name.address - base !in rest && text == rest[item.name.address - base := key]
    ensures Represents(k.items + StashAfter(stash, k), text, base, hash, contents[key := item.value])
    ensures AllTaken(StashAfter(stash, k))
  {
    hide Represents;
    AddingAnEntry(items + stash, rest, text, base, hash, contents, key, item);
    AddedKeepsAll(lg, items, stash, item, k);
    LiveConcat(items + stash, [item]);
    assert Live([item]) == multiset{item};
    MovingKeepsMeaning(items + stash + [item], k.items + StashAfter(stash, k), text, base, hash,
                       contents[key := item.value]);
  }

  // ---- The order of entries under removal ----

  /** Every entry after was at the same slot or a later one before. */
  ghost predicate OnlyEarlier(before: seq<Entry>, after: seq<Entry>) {
    forall j :: 0 <= j < |after| && after[j].Some? ==> exists i :: j <= i < |before| && before[i] == after[j]
  }

  lemma OnlyEarlierTransitive(a: seq<Entry>, b: seq<Entry>, c: seq<Entry>)
    requires OnlyEarlier(a, b) && OnlyEarlier(b, c)
    ensures OnlyEarlier(a, c)
  {
    forall j | 0 <= j < |c| && c[j].Some?
      ensures exists i :: j <= i < |a| && a[i] == c[j]
    {
      var k :| j <= k < |b| && b[k] == c[j];
      var i :| k <= i < |a| && a[i] == b[k];
    }
  }

  lemma ClosedEntries(slots: seq<Item>, text: Text, base: int, i: nat)
    requires i < |slots|
    ensures Entries(slots[..i] + slots[i + 1..], text, base)
            == Entries(slots, text, base)[..i] + Entries(slots, text, base)[i + 1..]
  {
  }

  lemma EarlierGap(before: seq<Entry>, i: nat)
    requires i < |before| && before[i].None?
    ensures OnlyEarlier(before, before[..i] + before[i + 1..])
  {
    var after := before[..i] + before[i + 1..];
    forall j | 0 <= j < |after| && after[j].Some?
      ensures exists k :: j <= k < |before| && before[k] == after[j]
    {
      assert before[if j < i then j else j + 1] == after[j];
    }
  }

  lemma FreeEntry(slots: seq<Item>, text: Text, base: int, i: nat)
    requires i < |slots| && slots[i] == FREE
    ensures Entries(slots, text, base)[i].None?
  {
  }

  /** Closing the gap left in the stash by slot `i`. */
  lemma ClosingAGap(slots: seq<Item>, text: Text, base: int, hash: Hasher, contents: Contents, i: nat)
    requires Represents(slots, text, base, hash, contents)
    requires i < |slots| && slots[i] == FREE
    ensures Represents(slots[..i] + slots[i + 1..], text, base, hash, contents)
    ensures OnlyEarlier(Entries(slots, text, base), Entries(slots[..i] + slots[i + 1..], text, base))
  {
    hide Represents, OnlyEarlier, Entries;
    var slots' := slots[..i] + slots[i + 1..];
    LiveGap(slots, i);
    MovingKeepsMeaning(slots, slots', text, base, hash, contents);
    FreeEntry(slots, text, base, i);
    ClosedEntries(slots, text, base, i);
    EarlierGap(Entries(slots, text, base), i);
  }

  lemma LiveGap(slots: seq<Item>, i: nat)
    requires i < |slots| && slots[i] == FREE
    ensures Live(slots[..i] + slots[i + 1..]) == Live(slots)
  {
    hide Live;
    LiveConcat(slots[..i], slots[i + 1..]);
    LiveConcat(slots[..i], [FREE] + slots[i + 1..]);
    LiveConcat([FREE], slots[i + 1..]);
    assert slots == slots[..i] + ([FREE] + slots[i + 1..]);
    LiveFree();
  }

  lemma LiveFree()
    ensures Live([FREE]) == multiset{}
  {
  }

  /** Moving the item of slot `i` to the free slot `pos` in front of it. */
  lemma MovingForward(slots: seq<Item>, text: Text, base: int, hash: Hasher, contents: Contents, pos: nat, i: nat)
    requires Represents(slots, text, base, hash, contents)
    requires pos < i < |slots| && slots[pos] == FREE != slots[i]
    ensures Represents(slots[pos := slots[i]][i := FREE], text, base, hash, contents)
    ensures OnlyEarlier(Entries(slots, text, base), Entries(slots[pos := slots[i]][i := FREE], text, base))
  {
    var slots' := slots[pos := slots[i]][i := FREE];
    LiveUpdate(slots, pos, slots[i]);
    LiveUpdate(slots[pos := slots[i]], i, FREE);
    MovingKeepsMeaning(slots, slots', text, base, hash, contents);
    var before, after := Entries(slots, text, base), Entries(slots', text, base);
    forall j | 0 <= j < |after| && after[j].Some?
      ensures exists k :: j <= k < |before| && before[k] == after[j]
    {
      assert before[if j == pos then i else j] == after[j];
    }
  }

  /** Pulling the item of slot `i` forward to `pos` and closing the gap it leaves. */
  lemma PullingForward(slots: seq<Item>, text: Text, base: int, hash: Hasher, contents: Contents, pos: nat, i: nat)
    requires Represents(slots, text, base, hash, contents)
    requires pos < i < |slots| && slots[pos] == FREE != slots[i]
    ensures var pulled := slots[pos := slots[i]];
            && Represents(pulled[..i] + pulled[i + 1..], text, base, hash, contents)
            && OnlyEarlier(Entries(slots, text, base), Entries(pulled[..i] + pulled[i + 1..], text, base))
  {
    hide Represents, Entries, OnlyEarlier;
    var pulled, moved := slots[pos := slots[i]], slots[pos := slots[i]][i := FREE];
    MovingForward(slots, text, base, hash, contents, pos, i);
    ClosingAGap(moved, text, base, hash, contents, i);
    assert moved[..i] + moved[i + 1..] == pulled[..i] + pulled[i + 1..];
    OnlyEarlierTransitive(Entries(slots, text, base), Entries(moved, text, base),
                          Entries(pulled[..i] + pulled[i + 1..], text, base));
  }

  lemma Unmoved(entries: seq<Entry>)
    ensures OnlyEarlier(entries, entries)
  {
  }

  lemma InRange(slots: seq<Item>, text: Text, base: int, i: int, key: CString)
    requires Holds(slots, text, base, i, key)
    ensures 0 <= i < |slots| && Entries(slots, text, base)[i].Some?
  {
  }

  lemma NoneIsFree(slots: seq<Item>, text: Text, base: int, hash: Hasher, contents: Contents, i: nat)
    requires Represents(slots, text, base, hash, contents)
    requires i < |slots| && Entries(slots, text, base)[i].None?
    ensures slots[i] == FREE
  {
  }

  lemma TakenGap(stash: seq<Item>, i: nat)
    requires AllTaken(stash) && i < |stash|
    ensures AllTaken(stash[..i] + stash[i + 1..]) && !stash[i].name.Null?
  {
  }

  lemma FullStash(entries: seq<Entry>, n: nat, i: nat)
    requires FullFrom(entries, n) && i < |entries|
    ensures i < n ==> FullFrom(entries[i := None], n)
    ensures i >= n ==> FullFrom(entries[..i] + entries[i + 1..], n)
  {
  }

  lemma FreeingASlot(before: seq<Entry>, i: nat)
    requires i < |before|
    ensures OnlyEarlier(before, before[i := None])
  {
    var after := before[i := None];
    forall j | 0 <= j < |after| && after[j].Some?
      ensures exists k :: j <= k < |before| && before[k] == after[j]
    {
      assert before[j] == after[j];
    }
  }

  /** The entries of the table, the first `n` slots, are the same, except perhaps in `slot`. */
  ghost predicate SameTable(before: seq<Entry>, after: seq<Entry>, n: nat, slot: Option<nat>) {
    && n <= |before| && n <= |after|
    && forall p :: 0 <= p < n && slot != Some(p) ==> after[p] == before[p]
  }

  /** The entries of the table stay where they are, except that of `key`. */
  ghost predicate TableKept(before: seq<Entry>, after: seq<Entry>, n: nat, key: CString) {
    && n <= |before| && n <= |after|
    && forall p :: 0 <= p < n && before[p].Some? && before[p].value.0 != key ==> after[p] == before[p]
  }

  /** The slot, if any, had the entry of `key`. */
  ghost predicate HadKey(before: seq<Entry>, slot: Option<nat>, key: CString) {
    slot.Some? ==> slot.value < |before| && before[slot.value].Some? && before[slot.value].value.0 == key
  }

  lemma TableKeptBut(before: seq<Entry>, after: seq<Entry>, n: nat, slot: Option<nat>, key: CString)
    requires SameTable(before, after, n, slot) && HadKey(before, slot, key)
    ensures TableKept(before, after, n, key)
  {
  }

  lemma HeldEntry(slots: seq<Item>, text: Text, base: int, slot: nat, key: CString)
    requires slot < |slots| && Holds(slots, text, base, slot, key)
    ensures HadKey(Entries(slots, text, base), Some(slot), key)
  {
  }

  lemma NoSlot(before: seq<Entry>, key: CString)
    ensures HadKey(before, None, key)
  {
  }

  lemma SameTableHere(entries: seq<Entry>, n: nat, slot: Option<nat>)
    requires n <= |entries|
    ensures SameTable(entries, entries, n, slot)
  {
  }

  lemma SameTableBut(slots: seq<Item>, slots': seq<Item>, text: Text, base: int, n: nat, pos: nat)
    requires n <= |slots| && n <= |slots'| && forall p :: 0 <= p < n && p != pos ==> slots'[p] == slots[p]
    ensures SameTable(Entries(slots, text, base), Entries(slots', text, base), n, Some(pos))
  {
  }

  lemma SameTableTwice(a: seq<Entry>, b: seq<Entry>, c: seq<Entry>, n: nat, slot: Option<nat>)
    requires SameTable(a, b, n, slot) && SameTable(b, c, n, slot)
    ensures SameTable(a, c, n, slot)
  {
  }

  /** Item `i` of the stash has moved to slot `pos`, or nothing has when there is no item `i`. */
  ghost predicate Pulled(
    items: seq<Item>, stash: seq<Item>, items': seq<Item>, stash': seq<Item>, pos: nat, i: nat) {
    if i < |stash| then
      pos < |items| && items' == items[pos := stash[i]] && stash' == stash[..i] + stash[i + 1..]
    else items' == items && stash' == stash
  }

  /** No item is left in the stash that could live in a slot the removal has freed. */
  ghost predicate BackFilled(lg: nat, before: seq<Entry>, items: seq<Item>, stash: seq<Item>) {
    forall p, k :: 0 <= p < |items| && p < |before| && items[p] == FREE && before[p].Some? && 0 <= k < |stash| ==>
      !AtHome(lg, stash[k], p)
  }

  lemma NothingLeft(lg: nat, pos: nat, stash: seq<Item>, items': seq<Item>, stash': seq<Item>, i: nat)
    requires pos < |items'| && i <= |stash| && (forall k :: 0 <= k < i ==> !AtHome(lg, stash[k], pos))
    requires if i < |stash| then items'[pos] == stash[i] && !stash[i].name.Null? else stash' == stash
    ensures items'[pos] == FREE ==> forall k :: 0 <= k < |stash'| ==> !AtHome(lg, stash'[k], pos)
  {
  }

  lemma NothingToPull(
    lg: nat, before: seq<Entry>, items: seq<Item>, stash: seq<Item>, text: Text, base: int, slot: Option<nat>)
    requires SameTable(before, Entries(items + stash, text, base), |items|, slot)
    requires slot.Some? && slot.value < |items| && items[slot.value] == FREE ==>
               forall k :: 0 <= k < |stash| ==> !AtHome(lg, stash[k], slot.value)
    ensures BackFilled(lg, before, items, stash)
  {
    var after := Entries(items + stash, text, base);
    forall p | 0 <= p < |items| && items[p] == FREE && slot != Some(p)
      ensures before[p].None?
    {
      assert (items + stash)[p] == FREE;
      assert after[p].None?;
    }
  }

  // ---- Counting ----

  /** The map has as many entries as there are occupied slots. */
  lemma {:induction false} EntryCount(slots: seq<Item>, text: Text, base: int, hash: Hasher, contents: Contents)
    requires Represents(slots, text, base, hash, contents)
    ensures |contents| == |Live(slots)|
    decreases |contents|
  {
    if contents == map[] {
      NothingLive(slots, text, base, hash);
    } else {
      var key := AnyKey(contents);
      assert Held(slots, text, base, key);
      var i :| Holds(slots, text, base, i, key);
      RemovingAnEntry(slots, text, base, hash, contents, i);
      Shrinks(contents, key);
      EntryCount(slots[i := FREE], Without(text, base, slots[i].name), base, hash, contents - {key});
      LiveUpdate(slots, i, FREE);
    }
  }

  lemma NothingLive(slots: seq<Item>, text: Text, base: int, hash: Hasher)
    requires AllGood(slots, text, base, hash, map[])
    ensures Live(slots) == multiset{}
  {
    assert forall i :: 0 <= i < |slots| ==> slots[i] == FREE;
  }

  lemma AtMostOne(items: seq<Item>, p: nat)
    requires p < |items| && forall i :: 0 <= i < |items| && i != p ==> items[i] == FREE
    ensures |Live(items)| <= 1
  {
    LiveUpdate(items, p, FREE);
    var none := items[p := FREE];
    assert forall i :: 0 <= i < |none| ==> none[i] == FREE;
    assert Live(none) == multiset{};
    assert Live(items) == multiset{} || Live(items) == multiset{items[p]};
  }

  /** When every key has the same two hashes, and they coincide, the table has room for one entry. */
  lemma Crowded(
    lg: nat, items: seq<Item>, stash: seq<Item>, text: Text, base: int, hash: Hasher, contents: Contents, x: HashKey)
    requires Represents(items + stash, text, base, hash, contents) && Placed(lg, items)
    requires forall key :: hash(key) == HashKeys(x, x)
    ensures |contents| <= 1 + |stash|
  {
    EntryCount(items + stash, text, base, hash, contents);
    LiveConcat(items, stash);
    forall i | 0 <= i < |items| && i != Position(lg, x)
      ensures items[i] == FREE
    {
      assert (items + stash)[i] == FREE || GoodItem((items + stash)[i], text, base, hash, contents);
      assert (items + stash)[i] == items[i];
    }
    AtMostOne(items, Position(lg, x));
    assert |multiset(stash)| == |Live(stash)| + multiset(stash)[FREE];
  }

  /** A table with fewer entries than slots has a free slot. */
  lemma FreeSlot(items: seq<Item>)
    requires |Live(items)| < |items|
    ensures FREE in items
  {
    assert |multiset(items)| == |Live(items)| + multiset(items)[FREE];
  }

  /** Half the table is more than all entries, so a slot is free. */
  lemma Counted(
    items: seq<Item>, stash: seq<Item>, text: Text, base: int, hash: Hasher, contents: Contents, lg: nat)
    requires Represents(items + stash, text, base, hash, contents)
    requires lg > 0 && |items| == Pow2(lg) && |contents| < Pow2(lg - 1)
    ensures |contents| == |Live(items + stash)| < |items|
    ensures FREE in items
  {
    EntryCount(items + stash, text, base, hash, contents);
    LiveConcat(items, stash);
    FreeSlot(items);
  }

  // ---- Values ----

  /** A NULL value owns nothing. */
  ghost function Owned(value: Value): multiset<Value> {
    if value == 0 then multiset{} else multiset{value}
  }

  ghost function AnyKey(contents: Contents): (key: CString)
    requires contents != map[]
    ensures key in contents
  {
    var key :| key in contents;
    key
  }

  /** The non-NULL values of a map, each as often as it is stored. */
  ghost function Values(contents: Contents): multiset<Value>
    decreases |contents|
  {
    if contents == map[] then multiset{}
    else
      var key := AnyKey(contents);
      Shrinks(contents, key);
      Owned(contents[key]) + Values(contents - {key})
  }

  lemma Shrinks(contents: Contents, key: CString)
    requires key in contents
    ensures |contents - {key}| == |contents| - 1
  {
    assert contents == (contents - {key})[key := contents[key]];
  }

  lemma SwapSummands(a: multiset<Value>, b: multiset<Value>, c: multiset<Value>)
    ensures a + (b + c) == b + (a + c)
  {
  }

  lemma GroupSummands(a: multiset<Value>, b: multiset<Value>, c: multiset<Value>)
    ensures (a + b) + c == a + (b + c)
  {
  }

  lemma {:induction false} ValuesRemove(contents: Contents, key: CString)
    requires key in contents
    ensures Values(contents) == Owned(contents[key]) + Values(contents - {key})
    decreases |contents|
  {
    var k := AnyKey(contents);
    if k != key {
      Shrinks(contents, k);
      Shrinks(contents, key);
      var rest := contents - {k} - {key};
      assert rest == contents - {key} - {k};
      calc {
        Values(contents);
        Owned(contents[k]) + Values(contents - {k});
        { ValuesRemove(contents - {k}, key); }
        Owned(contents[k]) + (Owned(contents[key]) + Values(rest));
        { SwapSummands(Owned(contents[k]), Owned(contents[key]), Values(rest)); }
        Owned(contents[key]) + (Owned(contents[k]) + Values(rest));
        { ValuesRemove(contents - {key}, k); }
        Owned(contents[key]) + Values(contents - {key});
      }
    }
  }

  lemma ValuesWrite(contents: Contents, key: CString, value: Value)
    ensures Values(contents[key := value]) == Owned(value) + Values(contents - {key})
  {
    ValuesRemove(contents[key := value], key);
    assert contents[key := value] - {key} == contents - {key};
  }

  // ---- Releasing every value ----

  /** The slots below `done` have been drained; `todo` are the entries of the others. */
  ghost predicate Draining(
    slots: seq<Item>, text: Text, base: int, contents: Contents, slots': seq<Item>, todo: Contents, done: nat) {
    && |slots| == |slots'| && done <= |slots|
    && (forall k :: done <= k < |slots| ==> slots'[k] == slots[k])
    && (forall k :: 0 <= k < done && !slots[k].name.Null? ==> KeyOf(text, base, slots[k].name) !in todo)
    && (forall k :: done <= k < |slots| && !slots[k].name.Null? ==>
          KeyOf(text, base, slots[k].name) in todo && todo[KeyOf(text, base, slots[k].name)] == slots[k].value)
    && (forall key :: key in todo ==> key in contents)
  }

  lemma DrainingStart(slots: seq<Item>, text: Text, base: int, hash: Hasher, contents: Contents)
    requires Represents(slots, text, base, hash, contents)
    ensures Draining(slots, text, base, contents, slots, contents, 0)
  {
    forall k | 0 <= k < |slots| && !slots[k].name.Null?
      ensures KeyOf(text, base, slots[k].name) in contents
      ensures contents[KeyOf(text, base, slots[k].name)] == slots[k].value
    {
      assert GoodItem(slots[k], text, base, hash, contents);
    }
  }

  lemma DrainingStep(
    slots: seq<Item>, text: Text, base: int, hash: Hasher, contents: Contents, slots': seq<Item>, todo: Contents, done:
    nat)
    requires Represents(slots, text, base, hash, contents)
    requires Draining(slots, text, base, contents, slots', todo, done) && done < |slots'|
    ensures slots'[done].name.Null? ==> Draining(slots, text, base, contents, slots', todo, done + 1)
    ensures !slots'[done].name.Null? ==>
              var key := KeyOf(text, base, slots'[done].name);
              && key in todo && todo[key] == slots'[done].value
              && Draining(
                   slots, text, base, contents, slots'[done := slots'[done].(value := 0)], todo - {key}, done + 1)
  {
    var key := KeyOf(text, base, slots[done].name);
    if !slots[done].name.Null? {
      forall k | done < k < |slots| && !slots[k].name.Null?
        ensures KeyOf(text, base, slots[k].name) != key
      {
      }
    }
  }

  lemma DrainingEnd(
    slots: seq<Item>, text: Text, base: int, hash: Hasher, contents: Contents, slots': seq<Item>, todo: Contents)
    requires Represents(slots, text, base, hash, contents)
    requires Draining(slots, text, base, contents, slots', todo, |slots'|)
    ensures Values(todo) == multiset{}
  {
    forall key | key in contents
      ensures key !in todo
    {
      assert Held(slots, text, base, key);
      var k :| Holds(slots, text, base, k, key);
    }
    assert todo == map[];
  }
}
