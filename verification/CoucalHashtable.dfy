/**
  The hashtable object, with its fields updated in place as the C code does: two-choice table,
  stash, and string pool.  Methods follow the C functions one by one.
 */
module CoucalHashtable {
  import opened Bytes
  import opened CoucalTypes
  import opened CoucalTable
  import opened CoucalMap
  import opened CoucalPool
  import opened CoucalLayout

  /** `malloc`: some address; failure is not modelled. */
  method Malloc() returns (address: int)
    ensures address > 0
  {
    address :| address > 0;
  }

  /** `realloc` to a larger block: the old bytes are kept, the rest is unspecified. */
  method Realloc(buffer: array<Byte>, capacity: nat) returns (grown: array<Byte>)
    requires buffer.Length <= capacity
    ensures fresh(grown) && grown.Length == capacity
    ensures grown[..buffer.Length] == buffer[..]
  {
    grown := new Byte[capacity];
    forall k | 0 <= k < buffer.Length {
      grown[k] := buffer[k];
    }
  }

  /** The first of 256, 512, 1024, .. that is large enough. */
  ghost predicate LeastCapacity(capacity: nat, need: nat) {
    && capacity >= need && (capacity == 256 || capacity / 2 < need)
    && exists k :: capacity == 256 * Pow2(k)
  }

  class Coucal {
    /** The hash handler: any function of the key. */
    const hash: Hasher

    var items: array<Item>
    var lgSize: nat
    var used: nat
    const stash: array<Item>
    var stashSize: nat

    /** The pool: address of its buffer, the buffer (its length is the capacity), watermark, used chars. */
    var poolBase: int
    var poolBuffer: array<Byte>
    var poolSize: nat
    var poolUsed: nat

    /** Is a value free handler set? */
    var freesValues: bool

    /** The values passed to the free handler so far. */
    ghost var freed: multiset<Value>
    /** The strings in use in the pool, by offset. */
    ghost var text: Text
    /** The map this table stands for. */
    ghost var contents: Contents

    /** The table followed by the occupied part of the stash. */
    ghost function Slots(): (s: seq<Item>)
      reads this, items, stash
      requires stashSize <= stash.Length
      ensures |s| == items.Length + stashSize
    {
      items[..] + stash[..stashSize]
    }

    ghost predicate Shape()
      reads this, items, stash
    {
      && stash.Length == STASH_SIZE
      && stashSize <= STASH_SIZE
      && items != stash
      && items as object != poolBuffer && stash as object != poolBuffer
      && MIN_LG_SIZE <= lgSize <= COUCAL_HASH_SIZE
      && items.Length == Pow2(lgSize)
      && Placed(lgSize, items[..])
    }

    ghost predicate PoolValid()
      reads this, poolBuffer
    {
      PoolOk(poolBuffer[..], poolSize, poolUsed, text)
    }

    /** Table, stash and pool are consistent with each other and with `contents`. */
    ghost predicate Core()
      reads this, items, stash, poolBuffer
    {
      && Shape()
      && PoolValid()
      && Represents(Slots(), text, poolBase, hash, contents)
    }

    /** The invariant between public operations. */
    ghost predicate Valid()
      reads this, items, stash, poolBuffer
    {
      && Core()
      && AllTaken(stash[..stashSize])
      && used == |contents|
      && used < Pow2(lgSize - 1)
    }

    /** The entry in each slot, as the enumerator sees them. */
    ghost function SlotEntries(): seq<Option<(CString, Value)>>
      reads this, items, stash
      requires stashSize <= stash.Length
    {
      Entries(Slots(), text, poolBase)
    }

    constructor Init(lg: nat, hash: Hasher)
      requires MIN_LG_SIZE <= lg <= COUCAL_HASH_SIZE
      ensures Valid()
      ensures this.hash == hash && lgSize == lg && stashSize == 0 && contents == map[] && freed == multiset{}
      ensures !freesValues && Now() == EmptyLayout(lg)
      ensures fresh(items) && fresh(stash) && fresh(poolBuffer)
    {
      this.hash := hash;
      lgSize, used, stashSize := lg, 0, 0;
      items := new Item[Pow2(lg)](_ => FREE);
      stash := new Item[STASH_SIZE](_ => FREE);
      poolBase, poolSize, poolUsed := 0, 0, 0;
      poolBuffer := new Byte[0];
      freesValues := false;
      freed, text, contents := multiset{}, map[], map[];
      new;
      Pow2Monotone(MIN_LG_SIZE - 1, lg - 1);
    }

    /** `coucal_new`: no table beyond the hash size. */
    static method New(initialSize: nat, hash: Hasher) returns (table: Coucal?)
      ensures table == null <==> initialSize > Pow2(32)
      ensures table != null ==>
                && fresh(table) && fresh(table.items) && fresh(table.stash) && fresh(table.poolBuffer)
                && table.Valid() && table.hash == hash && table.contents == map[]
                && table.stashSize == 0 && table.freed == multiset{} && !table.freesValues
                && table.lgSize == SizeFor(initialSize, 4) && table.Now() == EmptyLayout(table.lgSize)
                && initialSize <= Pow2(table.lgSize)
                && (table.lgSize == 4 || Pow2(table.lgSize - 1) < initialSize)
    {
      hide Pow2, Coucal.Valid;
      var size := MIN_LG_SIZE;
      while size <= COUCAL_HASH_SIZE && Pow2(size) < initialSize
        invariant MIN_LG_SIZE <= size <= COUCAL_HASH_SIZE + 1
        invariant size == MIN_LG_SIZE || Pow2(size - 1) < initialSize
        invariant size <= COUCAL_HASH_SIZE ==> SizeFor(initialSize, size) == SizeFor(initialSize, MIN_LG_SIZE)
      {
        size := size + 1;
      }
      if size <= COUCAL_HASH_SIZE {
        Pow2Monotone(size, COUCAL_HASH_SIZE);
        table := new Coucal.Init(size, hash);
      } else {
        table := null;
      }
    }

    // ---- String pool ----

    /** The copy loop of `RELOCATE_STRING`: bytes from `src` up to and including the NUL. */
    method CopyString(oldBuffer: array<Byte>, src: int, ghost s: CString)
      requires oldBuffer != poolBuffer
      requires s != [] && HasText(oldBuffer[..], src, s)
      requires poolSize + |s| + 1 <= poolBuffer.Length
      modifies poolBuffer, `poolSize
      ensures poolSize == old(poolSize) + |s| + 1
      ensures poolBuffer[..old(poolSize)] == old(poolBuffer[..poolSize])
      ensures HasText(poolBuffer[..], old(poolSize), s)
    {
      var dest := poolSize;
      TextChars(oldBuffer[..], src, s);
      assert dest < poolBuffer.Length;
      poolBuffer[dest] := oldBuffer[src];
      var i := 1;
      while oldBuffer[src + i - 1] != 0
        invariant 1 <= i <= |s| + 1
        invariant poolBuffer[..dest] == old(poolBuffer[..poolSize])
        invariant forall p :: dest <= p < dest + i ==> poolBuffer[p] == oldBuffer[p - dest + src]
        decreases |s| + 1 - i
      {
        assert src + i - 1 != src + |s|;
        assert dest + i < poolBuffer.Length;
        poolBuffer[dest + i] := oldBuffer[src + i];
        i := i + 1;
      }
      assert i == |s| + 1;
      TextCopied(oldBuffer[..], src, s, poolBuffer[..], dest);
      poolSize := dest + i;
      assert poolSize <= poolBuffer.Length;
    }

    /** `RELOCATE_STRING`: copy one string to the watermark of the new pool. */
    method RelocateString(name: Name, oldBuffer: array<Byte>, oldBase: int, ghost s: CString) returns (moved: Name)
      requires oldBuffer != poolBuffer
      requires name.At? && s != [] && HasText(oldBuffer[..], name.address - oldBase, s)
      requires Laid(poolBuffer[..], poolSize, text)
      requires poolSize + |s| + 1 <= poolBuffer.Length
      modifies poolBuffer, `poolSize, `text
      ensures moved == At(poolBase + old(poolSize))
      ensures old(poolSize) !in old(text) && text == old(text)[old(poolSize) := s]
      ensures poolSize == old(poolSize) + |s| + 1
      ensures Laid(poolBuffer[..], poolSize, text)
      ensures Total(text, poolSize) == Total(old(text), old(poolSize)) + |s| + 1
    {
      var dest := poolSize;
      CopyString(oldBuffer, name.address - oldBase, s);
      Appending(old(poolBuffer[..]), poolBuffer[..], dest, text, s);
      TotalAppend(text, dest, s);
      moved := At(poolBase + dest);
      text := text[dest := s];
    }

    /** `slots[i]` is slot `from + i` of `Slots()`. */
    ghost predicate IsPart(slots: array<Item>, from: nat, count: nat)
      reads this
    {
      || (slots == items && from == 0 && count == items.Length)
      || (slots == stash && from == items.Length && count == stashSize)
    }

    /** Store one item, in the table or in the stash. */
    method SetSlot(slots: array<Item>, i: nat, item: Item, ghost from: nat, ghost count: nat)
      requires stashSize <= stash.Length && items != stash
      requires IsPart(slots, from, count) && i < count
      modifies slots
      ensures slots[..] == old(slots[..])[i := item]
      ensures Slots() == old(Slots())[from + i := item]
    {
      slots[i] := item;
    }

    /** State of the relocation: `done` slots moved, the strings in `todo` still in the old pool. */
    ghost predicate Moving(
      slots0: seq<Item>, text0: Text, base0: int, size0: nat, used0: nat, todo: Text, done: nat)
      reads this, items, stash, poolBuffer
    {
      && Shape()
      && Relocating(slots0, text0, base0, Slots(), text, poolBase, todo, done)
      && Laid(poolBuffer[..], poolSize, text)
      && Total(text, poolSize) == poolSize
      && poolSize + Total(todo, size0) == used0
    }

    /** `RELOCATE_STRING` applied to one slot. */
    method RelocateSlot(
      slots: array<Item>, i: nat, oldBuffer: array<Byte>, oldBase: int,
      ghost from: nat, ghost count: nat, ghost slots0: seq<Item>, ghost text0: Text, ghost size0: nat, ghost used0: nat,
      ghost todo0: Text)
      returns (ghost todo: Text)
      requires Moving(slots0, text0, oldBase, size0, used0, todo0, from + i)
      requires oldBuffer != poolBuffer && IsPart(slots, from, count) && i < count
      requires Represents(slots0, text0, oldBase, hash, contents)
      requires Laid(oldBuffer[..], size0, text0)
      requires used0 <= poolBuffer.Length
      modifies poolBuffer, slots, `poolSize, `text
      ensures Moving(slots0, text0, oldBase, size0, used0, todo, from + i + 1)
    {
      hide Represents, Laid, Total, Relocating, Placed, HasText;
      todo := todo0;
      ghost var before := Slots();
      SlotAt(slots, from, count, i);
      if slots[i].name.At? {
        NextToMove(slots0, text0, oldBase, before, text, poolBase, todo, from + i, hash, contents,
                   oldBuffer[..], size0, poolBuffer[..], poolSize);
        ghost var o := slots[i].name.address - oldBase;
        ghost var s := text0[o];
        RelocatingOne(slots0, text0, oldBase, before, text, poolBase, todo, from + i, hash, contents, poolSize);
        todo := todo - {o};
        var moved := RelocateString(slots[i].name, oldBuffer, oldBase, s);
        if slots == items {
          RenamedStaysPlaced(lgSize, items[..], i, moved);
        }
        SetSlot(slots, i, slots[i].(name := moved), from, count);
      } else {
        RelocatingSkip(slots0, text0, oldBase, before, text, poolBase, todo, from + i);
      }
    }

    lemma SlotAt(slots: array<Item>, from: nat, count: nat, i: nat)
      requires stashSize <= stash.Length && IsPart(slots, from, count) && i < count
      ensures from + i < |Slots()| && Slots()[from + i] == slots[i]
    {
    }

    /** `coucal_compact_pool`: copy the strings in use to a new buffer, without holes. */
    method CompactPool(capacity: nat)
      requires Shape() && Laid(poolBuffer[..], poolSize, text)
      requires Represents(Slots(), text, poolBase, hash, contents)
      requires poolUsed == Total(text, poolSize) <= capacity
      modifies `poolBase, `poolBuffer, `poolSize, `poolUsed, `text, items, stash
      ensures Core()
      ensures fresh(poolBuffer) && poolBuffer.Length == capacity
      ensures poolSize == poolUsed == old(poolUsed)
      ensures SlotEntries() == old(SlotEntries())
    {
      hide Represents, Laid, Total, Placed, Entries, Pow2;
      ghost var slots0, text0, size0, used0 := Slots(), text, poolSize, poolUsed;
      var oldBuffer, oldBase := poolBuffer, poolBase;
      poolBuffer := new Byte[capacity];
      poolBase := Malloc();
      poolSize, poolUsed := 0, 0;
      text := map[];
      RelocateAll(oldBuffer, oldBase, slots0, text0, size0, used0);
      poolUsed := poolSize;
    }

    /** Relocation from start to end: the new, empty pool receives every string. */
    method RelocateAll(
      oldBuffer: array<Byte>, oldBase: int,
      ghost slots0: seq<Item>, ghost text0: Text, ghost size0: nat, ghost used0: nat)
      requires Shape() && slots0 == Slots()
      requires oldBuffer != poolBuffer && oldBuffer as object != items && oldBuffer as object != stash
      requires Represents(slots0, text0, oldBase, hash, contents)
      requires Laid(oldBuffer[..], size0, text0)
      requires used0 == Total(text0, size0) <= poolBuffer.Length
      requires text == map[] && poolSize == 0
      modifies poolBuffer, items, stash, `poolSize, `text
      ensures Shape()
      ensures Laid(poolBuffer[..], poolSize, text) && Total(text, poolSize) == poolSize == used0
      ensures Represents(Slots(), text, poolBase, hash, contents)
      ensures Entries(Slots(), text, poolBase) == Entries(slots0, text0, oldBase)
    {
      hide Represents, Laid, Total, Relocating, Placed, Entries;
      RelocatingStart(slots0, text0, oldBase, poolBase, hash, contents);
      EmptyPool(poolBuffer[..]);
      ghost var todo := RelocateLoops(oldBuffer, oldBase, slots0, text0, size0, used0, text0);
      RelocatingEnd(slots0, text0, oldBase, Slots(), text, poolBase, todo, size0, hash, contents);
    }

    /** The two relocation loops: the table, then the stash. */
    method RelocateLoops(
      oldBuffer: array<Byte>, oldBase: int,
      ghost slots0: seq<Item>, ghost text0: Text, ghost size0: nat, ghost used0: nat, ghost todo0: Text)
      returns (ghost todo: Text)
      requires Moving(slots0, text0, oldBase, size0, used0, todo0, 0)
      requires oldBuffer != poolBuffer && oldBuffer as object != items && oldBuffer as object != stash
      requires Represents(slots0, text0, oldBase, hash, contents)
      requires Laid(oldBuffer[..], size0, text0)
      requires used0 <= poolBuffer.Length
      modifies poolBuffer, items, stash, `poolSize, `text
      ensures Moving(slots0, text0, oldBase, size0, used0, todo, items.Length + stashSize)
    {
      hide Represents, Laid, Moving;
      todo := todo0;
      var i := 0;
      while i < items.Length
        invariant i <= items.Length && oldBuffer != poolBuffer
        invariant Moving(slots0, text0, oldBase, size0, used0, todo, i)
      {
        todo := RelocateSlot(items, i, oldBuffer, oldBase, 0, items.Length, slots0, text0, size0, used0, todo);
        i := i + 1;
      }
      i := 0;
      while i < stashSize
        invariant i <= stashSize && oldBuffer != poolBuffer
        invariant Moving(slots0, text0, oldBase, size0, used0, todo, items.Length + i)
      {
        todo := RelocateSlot(stash, i, oldBuffer, oldBase, items.Length, stashSize, slots0, text0, size0, used0, todo);
        i := i + 1;
      }
    }

    /** `RECOMPUTE_STRING` applied to one slot: same offset, new base. */
    method RecomputeSlot(
      slots: array<Item>, i: nat, oldBase: int,
      ghost from: nat, ghost count: nat, ghost slots0: seq<Item>)
      requires Shape() && IsPart(slots, from, count) && i < count
      requires Represents(slots0, text, oldBase, hash, contents)
      requires PoolValid()
      requires Rebasing(slots0, oldBase, Slots(), poolBase, from + i)
      modifies slots
      ensures Shape()
      ensures Rebasing(slots0, oldBase, Slots(), poolBase, from + i + 1)
    {
      hide Represents, Rebasing, Placed, PoolOk;
      ghost var before := Slots();
      SlotAt(slots, from, count, i);
      RebasingStep(slots0, oldBase, before, poolBase, from + i);
      if slots[i].name.At? {
        var offset := slots[i].name.address - oldBase;
        assert offset < poolBuffer.Length by {
          OffsetInPool(slots0, text, oldBase, hash, contents, before, poolBase, from + i,
                       poolBuffer[..], poolSize, poolUsed);
        }
        if slots == items {
          RenamedStaysPlaced(lgSize, items[..], i, At(poolBase + offset));
        }
        SetSlot(slots, i, slots[i].(name := At(poolBase + offset)), from, count);
      }
    }

    /** The two address loops of `coucal_realloc_pool`: the table, then the stash. */
    method RecomputeAll(oldBase: int, ghost slots0: seq<Item>)
      requires Shape() && PoolValid()
      requires Represents(slots0, text, oldBase, hash, contents)
      requires Rebasing(slots0, oldBase, Slots(), poolBase, 0)
      modifies items, stash
      ensures Shape()
      ensures Rebasing(slots0, oldBase, Slots(), poolBase, items.Length + stashSize)
    {
      hide Represents, Rebasing, Placed, PoolOk;
      var i := 0;
      while i < items.Length
        invariant i <= items.Length && Shape()
        invariant Rebasing(slots0, oldBase, Slots(), poolBase, i)
      {
        RecomputeSlot(items, i, oldBase, 0, items.Length, slots0);
        i := i + 1;
      }
      i := 0;
      while i < stashSize
        invariant i <= stashSize && Shape()
        invariant Rebasing(slots0, oldBase, Slots(), poolBase, items.Length + i)
      {
        RecomputeSlot(stash, i, oldBase, items.Length, stashSize, slots0);
        i := i + 1;
      }
    }

    /** `coucal_realloc_pool`: a larger buffer, by compaction when a quarter of the pool is holes. */
    method ReallocPool(capacity: nat)
      requires Core()
      requires poolBuffer.Length <= capacity
      modifies `poolBase, `poolBuffer, `poolSize, `poolUsed, `text, items, stash
      ensures Core()
      ensures fresh(poolBuffer) && poolBuffer.Length == capacity
      ensures poolUsed == old(poolUsed)
      ensures poolSize == if old(poolUsed) < old(poolSize) * 3 / 4 then old(poolUsed) else old(poolSize)
      ensures SlotEntries() == old(SlotEntries())
    {
      hide Represents, Laid, Total, Rebasing, Placed, Entries;
      if poolUsed < (poolSize * 3) / 4 {
        CompactPool(capacity);
        return;
      }
      ghost var slots0 := Slots();
      var oldBase, oldBuffer := poolBase, poolBuffer;
      poolBuffer := Realloc(oldBuffer, capacity);
      CopyingWhole(oldBuffer[..], poolBuffer[..], poolSize, text);
      poolBase := Malloc();
      if poolBase != oldBase {
        RebasingStart(slots0, oldBase, poolBase);
        RecomputeAll(oldBase, slots0);
        RebasingEnd(slots0, text, oldBase, Slots(), poolBase, hash, contents);
      }
    }

    /** `strlen` of a pool string. */
    method StringLength(offset: int, ghost s: CString) returns (n: nat)
      requires HasText(poolBuffer[..], offset, s)
      ensures n == |s|
    {
      TextChars(poolBuffer[..], offset, s);
      n := 0;
      while poolBuffer[offset + n] != 0
        invariant n <= |s|
        decreases |s| - n
      {
        n := n + 1;
      }
      assert poolBuffer[..][offset + n] == 0;
    }

    /** What a caller reads at a pool offset, up to the NUL. */
    method ReadString(offset: int, ghost s: CString) returns (key: CString)
      requires HasText(poolBuffer[..], offset, s)
      ensures key == s
    {
      TextChars(poolBuffer[..], offset, s);
      key := [];
      while poolBuffer[offset + |key|] != 0
        invariant |key| <= |s| && key == s[..|key|]
        decreases |s| - |key|
      {
        assert poolBuffer[..][offset + |key|] == s[|key|];
        key := key + [poolBuffer[offset + |key|]];
      }
      assert poolBuffer[..][offset + |key|] == 0;
    }

    /** The key a name points to. */
    method ReadKey(name: Name) returns (key: CString)
      requires PoolValid() && (name.At? ==> name.address - poolBase in text)
      ensures key == KeyOf(text, poolBase, name)
    {
      key := [];
      if name.At? {
        key := ReadString(name.address - poolBase, text[name.address - poolBase]);
      }
    }

    /** `strcmp(pool string, name) == 0`. */
    method SameString(offset: int, name: CString, ghost s: CString) returns (same: bool)
      requires HasText(poolBuffer[..], offset, s)
      ensures same <==> s == name
    {
      TextChars(poolBuffer[..], offset, s);
      var n := 0;
      while poolBuffer[offset + n] != 0 && poolBuffer[offset + n] == CharAt(name, n)
        invariant n <= |s| && n <= |name|
        invariant s[..n] == name[..n]
        decreases |s| - n
      {
        assert poolBuffer[..][offset + n] == s[n];
        n := n + 1;
      }
      same := poolBuffer[offset + n] == CharAt(name, n);
      assert n < |s| ==> poolBuffer[..][offset + n] == s[n];
      if same {
        assert n == |s| == |name|;
      }
    }

    /** `coucal_dup_name_internal`: copy `name` into the pool; `rest` are the strings already in use. */
    method DupName(name: CString) returns (copy: Name, ghost rest: Text)
      requires Core()
      modifies poolBuffer, `poolBase, `poolBuffer, `poolSize, `poolUsed, `text, items, stash
      ensures Shape() && PoolValid()
      ensures Represents(Slots(), rest, poolBase, hash, contents)
      ensures Entries(Slots(), rest, poolBase) == old(SlotEntries())
      ensures poolBuffer == old(poolBuffer) || fresh(poolBuffer)
      ensures name == [] || old(poolBuffer.Length - poolSize) > |name| ==> poolBuffer == old(poolBuffer)
      ensures name != [] && old(poolBuffer.Length - poolSize) <= |name| ==>
                LeastCapacity(poolBuffer.Length, old(poolSize) + |name| + 1)
      ensures if name == [] then copy == EmptyString && text == rest
              else copy.At? && copy.address - poolBase !in rest && text == rest[copy.address - poolBase := name]
    {
      hide Represents, Laid, Placed, Entries, HasText;
      var len := |name| + 1;
      if len == 1 {
        return EmptyString, text;
      }
      if poolBuffer.Length - poolSize < len {
        var capacity := MIN_POOL_CAPACITY;
        ghost var k := 0;
        while capacity < poolSize + len
          invariant capacity == MIN_POOL_CAPACITY * Pow2(k) && (k == 0 || capacity / 2 < poolSize + len)
          decreases poolSize + len - capacity
        {
          capacity, k := capacity * 2, k + 1;
        }
        assert poolSize < capacity;
        ReallocPool(capacity);
      }
      assert len + poolSize <= poolBuffer.Length;
      rest := text;
      AppendString(name);
      copy := At(poolBase + (poolSize - len));
    }

    /** The `memcpy` of a key to the watermark. */
    method AppendString(name: CString)
      requires PoolValid() && name != [] && poolSize + |name| + 1 <= poolBuffer.Length
      modifies poolBuffer, `poolSize, `poolUsed, `text
      ensures PoolValid()
      ensures poolSize == old(poolSize) + |name| + 1
      ensures old(poolSize) !in old(text) && text == old(text)[old(poolSize) := name]
    {
      hide Pow2;
      var at := poolSize;
      ghost var buffer := poolBuffer[..];
      forall k | 0 <= k <= |name| {
        poolBuffer[at + k] := CharAt(name, k);
      }
      assert poolBuffer[..][at..at + |name|] == name;
      assert poolBuffer[at + |name|] == CharAt(name, |name|);
      Appending(buffer, poolBuffer[..], at, text, name);
      TotalAppend(text, at, name);
      poolSize, poolUsed := poolSize + |name| + 1, poolUsed + |name| + 1;
      text := text[at := name];
    }

    /**
      `coucal_free_key_internal`: the slots no longer use `name`.  The string is erased, and the
      pool compacted when it has become more than half holes.
     */
    method FreeKey(name: Name)
      requires Shape() && PoolValid() && !name.Null?
      requires name.At? ==> name.address - poolBase in text
      requires Represents(Slots(), Without(text, poolBase, name), poolBase, hash, contents)
      modifies poolBuffer, `poolBase, `poolBuffer, `poolSize, `poolUsed, `text, items, stash
      ensures Core()
      ensures SlotEntries() == old(Entries(Slots(), Without(text, poolBase, name), poolBase))
      ensures poolBuffer == old(poolBuffer) || fresh(poolBuffer)
      ensures name.At? ==> poolUsed == old(poolUsed) - |old(text)[name.address - old(poolBase)]| - 1
      ensures name.At? ==> poolSize == if poolUsed < old(poolSize) / 2 then poolUsed else old(poolSize)
    {
      hide Represents, Placed, Entries;
      if name.EmptyString? {
        return;
      }
      EraseString(name.address - poolBase);
      if poolUsed < poolSize / 2 {
        var capacity := poolBuffer.Length;
        if poolUsed < capacity / 4 {
          capacity := capacity / 2;
        }
        assert poolUsed < capacity;
        CompactPool(capacity);
      }
    }

    /** Release one string: its characters are no longer used, and its first byte is zeroed. */
    method EraseString(offset: int)
      requires PoolValid() && offset in text
      modifies poolBuffer, `poolUsed, `text
      ensures text == old(text) - {offset}
      ensures poolUsed == old(poolUsed) - |old(text)[offset]| - 1
      ensures Laid(poolBuffer[..], poolSize, text)
      ensures poolUsed == Total(text, poolSize) <= poolSize
    {
      assert HasText(poolBuffer[..], offset, text[offset]);
      var len := StringLength(offset, text[offset]);
      len := len + 1;
      assert poolBuffer[offset] != 0 by {
        TextChars(poolBuffer[..], offset, text[offset]);
        assert poolBuffer[..][offset + 0] != 0;
      }
      TotalRemove(text, poolSize, offset);
      Releasing(poolBuffer[..], poolSize, text, offset);
      poolUsed := poolUsed - len;
      poolBuffer[offset] := 0;
      text := text - {offset};
    }

    // ---- What a write leads to ----

    /** Where the entries are. */
    ghost function Now(): Layout
      reads this, items, stash
      requires stashSize <= stash.Length
    {
      Layout(lgSize, SlotEntries())
    }

    /** How `coucal_write_value` will end. */
    ghost function WriteOutcome(name: CString): Outcome
      reads this, items, stash
      requires Shape()
    {
      WholeNow();
      WriteEnds(Now(), hash, name)
    }

    lemma WholeNow()
      requires Shape()
      ensures Whole(Now()) && StashCount(Now()) == stashSize
    {
    }

    // ---- Lookup ----

    /** `coucal_matches_`: is this the item of `name`, stored under these hashes? */
    method Matches(item: Item, name: CString, hashes: HashKeys) returns (yes: bool)
      requires PoolValid()
      requires item.name.At? ==> item.name.address - poolBase in text
      ensures yes <==> !item.name.Null? && item.hashes == hashes && KeyOf(text, poolBase, item.name) == name
    {
      if item.name.Null? || item.hashes.hash1 != hashes.hash1 || item.hashes.hash2 != hashes.hash2 {
        return false;
      }
      if item.name.EmptyString? {
        return |name| == 0;
      }
      yes := SameString(item.name.address - poolBase, name, text[item.name.address - poolBase]);
    }

    /** Try one slot. */
    method MatchesSlot(
      slots: array<Item>, i: nat, name: CString, hashes: HashKeys, ghost from: nat, ghost count: nat)
      returns (yes: bool)
      requires Core() && IsPart(slots, from, count) && i < count
      ensures yes ==> Holds(Slots(), text, poolBase, from + i, name)
      ensures yes ==> name in contents && contents[name] == slots[i].value && hashes == hash(name)
      ensures !yes ==> Misses(Slots(), text, poolBase, from + i, name, hashes)
    {
      hide Represents, Placed, PoolOk;
      SlotAt(slots, from, count, i);
      if !slots[i].name.Null? {
        MatchMeans(Slots(), text, poolBase, hash, contents, from + i);
      }
      yes := Matches(slots[i], name, hashes);
    }

    /**
      The search of `coucal_fetch_value_hashes`, `coucal_write_value_` and `coucal_remove_`:
      position 1, position 2, then the stash.
     */
    method Find(name: CString, hashes: HashKeys) returns (found: Option<nat>)
      requires Core()
      ensures found.Some? <==> name in contents && hashes == hash(name)
      ensures found.Some? ==>
                && Holds(Slots(), text, poolBase, found.value, name)
                && Slots()[found.value].value == contents[name]
    {
      assert items.Length == Pow2(lgSize);
      hide Represents, PoolOk, Placed, Holds, Misses;
      var pos1 := Position(lgSize, hashes.hash1);
      var yes := MatchesSlot(items, pos1, name, hashes, 0, items.Length);
      if yes {
        return Some(pos1);
      }
      var pos2 := Position(lgSize, hashes.hash2);
      yes := MatchesSlot(items, pos2, name, hashes, 0, items.Length);
      if yes {
        return Some(pos2);
      }
      var i := 0;
      while i < stashSize
        invariant i <= stashSize
        invariant forall j :: items.Length <= j < items.Length + i ==> Misses(Slots(), text, poolBase, j, name, hashes)
      {
        yes := MatchesSlot(stash, i, name, hashes, items.Length, stashSize);
        if yes {
          return Some(items.Length + i);
        }
        i := i + 1;
      }
      NotThere(lgSize, items[..], Slots(), text, poolBase, hash, contents, name, hashes);
      found := None;
    }

    /** The slot numbered `slot`. */
    method ItemAt(slot: nat) returns (item: Item)
      requires stashSize <= stash.Length && slot < items.Length + stashSize
      ensures item == Slots()[slot]
    {
      if slot < items.Length {
        item := items[slot];
      } else {
        item := stash[slot - items.Length];
      }
    }

    /** `coucal_fetch_value_hashes`. */
    method FetchValueHashes(name: CString, hashes: HashKeys) returns (value: Option<Value>)
      requires Valid()
      ensures value == if name in contents && hashes == hash(name) then Some(contents[name]) else None
    {
      hide Represents, PoolOk, Placed;
      var found := Find(name, hashes);
      if found.None? {
        return None;
      }
      var item := ItemAt(found.value);
      value := Some(item.value);
    }

    /** `coucal_read_value`. */
    method ReadValue(name: CString) returns (value: Option<Value>)
      requires Valid()
      ensures value == if name in contents then Some(contents[name]) else None
    {
      value := FetchValueHashes(name, hash(name));
    }

    /** `coucal_nitems`. */
    method Count() returns (n: nat)
      requires Valid()
      ensures n == |contents| == |Live(Slots())| < items.Length
      ensures FREE in items[..]
    {
      n := used;
      Counted(items[..], stash[..stashSize], text, poolBase, hash, contents, lgSize);
    }

    // ---- Adding ----

    /** `coucal_add_item_`; false is the fatal assertion on a full stash. */
    method AddItem(item: Item) returns (ok: bool)
      requires Shape() && !item.name.Null?
      modifies items, stash, `stashSize
      ensures Shape()
      ensures ok ==> var k := Added(lgSize, old(items[..]), item);
                && items[..] == k.items
                && stash[..stashSize] == StashAfter(old(stash[..stashSize]), k)
      ensures ok == !(old(stashSize) == 16 && Added(lgSize, old(items[..]), item).Homeless?)
      ensures !ok ==> stashSize == old(stashSize)
      ensures ok ==> Conserves(lgSize, old(items[..]), item, Added(lgSize, old(items[..]), item))
    {
      AddedConserves(lgSize, items[..], item);
      var pos := Position(lgSize, item.hashes.hash1);
      if items[pos].name.Null? {
        items[pos] := item;
        return true;
      }
      pos := Position(lgSize, item.hashes.hash2);
      if items[pos].name.Null? {
        items[pos] := item;
        return true;
      }
      var settled, homeless := Displace(item);
      if settled {
        return true;
      }
      if stashSize < STASH_SIZE {
        ghost var before := stash[..stashSize];
        stash[stashSize] := homeless;
        stashSize := stashSize + 1;
        assert stash[..stashSize] == before + [homeless];
        ok := true;
      } else {
        ok := false;
      }
    }

    /** The displacement loop, at most one kick per slot of the table. */
    method Displace(item: Item) returns (settled: bool, homeless: Item)
      requires items.Length == Pow2(lgSize) && Placed(lgSize, items[..]) && !item.name.Null?
      modifies items
      ensures Kick(lgSize, old(items[..]), item, item.hashes.hash1, item.hashes.hash1, Pow2(lgSize))
              == if settled then Settled(items[..]) else Homeless(items[..], homeless)
    {
      var initial := item.hashes.hash1;
      var cuckoo := initial;
      var hand := item;
      var loops := Pow2(lgSize);
      while loops != 0
        invariant !hand.name.Null? && Placed(lgSize, items[..])
        invariant cuckoo == hand.hashes.hash1 || cuckoo == hand.hashes.hash2
        invariant Kick(lgSize, old(items[..]), item, initial, initial, Pow2(lgSize))
                  == Kick(lgSize, items[..], hand, cuckoo, initial, loops)
        decreases loops
      {
        var pos := Position(lgSize, cuckoo);
        ghost var before := items[..];
        if items[pos].name.Null? {
          items[pos] := hand;
          assert items[..] == before[pos := hand];
          return true, hand;
        }
        var backup := items[pos];
        items[pos] := hand;
        assert items[..] == before[pos := hand];
        hand := backup;
        if pos == Position(lgSize, hand.hashes.hash1) {
          cuckoo := hand.hashes.hash2;
        } else if pos == Position(lgSize, hand.hashes.hash2) {
          cuckoo := hand.hashes.hash1;
        } else {
          assert false;
        }
        if cuckoo == initial {
          return false, hand;
        }
        loops := loops - 1;
      }
      settled, homeless := false, hand;
    }

    /** The doubling of `coucal_write_value`: split every slot of the old table in place. */
    method Double()
      requires Shape() && lgSize < COUCAL_HASH_SIZE
      modifies `items, `lgSize
      ensures lgSize == old(lgSize) + 1 && fresh(items)
      ensures items[..] == Doubled(old(lgSize), old(items[..]))
      ensures Live(Slots()) == old(Live(Slots()))
      ensures Shape()
    {
      hide Stays, Live, AtHome, Pow2, Coucal.PoolValid;
      ghost var lg, before := lgSize, items[..];
      var prevSize := items.Length;
      lgSize := lgSize + 1;
      items := Enlarge(items);
      var i := 0;
      while i < prevSize
        invariant i <= prevSize && lgSize == lg + 1 && fresh(items) && items.Length == 2 * prevSize
        invariant forall j :: 0 <= j < i ==> items[j] == if Stays(lg, before[j], j) then before[j] else FREE
        invariant forall j :: prevSize <= j < prevSize + i ==>
                    items[j] == if Stays(lg, before[j - prevSize], j - prevSize) then FREE else before[j - prevSize]
        invariant forall j :: i <= j < prevSize ==> items[j] == before[j]
        invariant forall j :: prevSize + i <= j < 2 * prevSize ==> items[j] == FREE
      {
        assert items[prevSize + i] == FREE;
        SplitSlot(i, prevSize);
        i := i + 1;
      }
      assert items[..] == Doubled(lg, before);
      DoubledConserves(lg, before);
      LiveConcat(before, stash[..stashSize]);
      LiveConcat(items[..], stash[..stashSize]);
    }

    /** Move the item of slot `i` to the upper half if its position has changed. */
    method SplitSlot(i: nat, prevSize: nat)
      requires lgSize > 0 && prevSize == Pow2(lgSize - 1) && items.Length == 2 * prevSize && i < prevSize
      requires items[i].name.Null? ==> items[i] == FREE
      requires !items[i].name.Null? ==> AtHome(lgSize - 1, items[i], i)
      requires items[prevSize + i] == FREE
      modifies items
      ensures items[..] == if Stays(lgSize - 1, old(items[i]), i) then old(items[..])
                           else old(items[..])[prevSize + i := old(items[i])][i := FREE]
    {
      if !items[i].name.Null? {
        var hashes := items[i].hashes;
        PositionAfterDoubling(lgSize - 1, hashes.hash1);
        PositionAfterDoubling(lgSize - 1, hashes.hash2);
        if Position(lgSize - 1, hashes.hash1) == i {
          var pos := Position(lgSize, hashes.hash1);
          if pos != i {
            assert pos >= prevSize;
            assert items[pos] == FREE;
            items[pos] := items[i];
            items[i] := FREE;
          }
        } else if Position(lgSize - 1, hashes.hash2) == i {
          var pos := Position(lgSize, hashes.hash2);
          if pos != i {
            assert pos >= prevSize;
            assert items[pos] == FREE;
            items[pos] := items[i];
            items[i] := FREE;
          }
        } else {
          assert false;
        }
      }
    }

    /** The `realloc` of the table to twice its size, upper half cleared. */
    method Enlarge(table: array<Item>) returns (larger: array<Item>)
      ensures fresh(larger) && larger.Length == 2 * table.Length
      ensures forall j :: 0 <= j < table.Length ==> larger[j] == table[j]
      ensures forall j :: table.Length <= j < larger.Length ==> larger[j] == FREE
    {
      larger := new Item[2 * table.Length](_ => FREE);
      forall j | 0 <= j < table.Length {
        larger[j] := table[j];
      }
    }

    /** Put the stash back through `coucal_add_item_` after doubling: no failure, no growth. */
    method MergeStash()
      requires Shape() && AllTaken(stash[..stashSize])
      modifies items, stash, `stashSize
      ensures Shape() && AllTaken(stash[..stashSize])
      ensures (items[..], stash[..stashSize]) == Merged(lgSize, old(items[..]), [], old(stash[..stashSize]))
      ensures stashSize <= old(stashSize)
      ensures Live(Slots()) == old(Live(Slots()))
    {
      hide Merged, Placed, Added, Conserves, Kick, Live;
      var backup := stash[..stashSize];
      var oldSize := stashSize;
      ghost var items0 := items[..];
      MergedWhole(lgSize, items0, backup);
      stashSize := 0;
      var i := 0;
      while i < oldSize
        invariant i <= oldSize && stashSize <= i
        invariant Shape()
        invariant Merged(lgSize, items[..], stash[..stashSize], backup[i..]) == Merged(lgSize, items0, [], backup)
      {
        MergedStep(lgSize, items[..], stash[..stashSize], backup, i);
        var ok := AddItem(backup[i]);
        assert ok;
        i := i + 1;
      }
      MergedDone(lgSize, items[..], stash[..stashSize], backup);
      assert stashSize <= oldSize;
    }

    // ---- Writing ----

    /** `coucal_del_value_`: hand a non-NULL value to the free handler, if there is one. */
    method ReleaseValue(value: Value)
      modifies `freed
      ensures freed == old(freed) + Released(value)
    {
      if value != 0 {
        if freesValues {
          freed := freed + multiset{value};
        }
      }
    }

    /** What releasing `value` passes to the free handler. */
    ghost function Released(value: Value): multiset<Value>
      reads `freesValues
    {
      if freesValues then Owned(value) else multiset{}
    }

    /** Overwrite the item in slot `slot`, table or stash. */
    method StoreAt(slot: nat, item: Item)
      requires stashSize <= stash.Length && items != stash && slot < items.Length + stashSize
      modifies items, stash
      ensures Slots() == old(Slots())[slot := item]
      ensures slot < items.Length ==> items[..] == old(items[..])[slot := item] && stash[..] == old(stash[..])
      ensures slot >= items.Length ==>
                items[..] == old(items[..]) && stash[..] == old(stash[..])[slot - items.Length := item]
    {
      if slot < items.Length {
        SetSlot(items, slot, item, 0, items.Length);
      } else {
        SetSlot(stash, slot - items.Length, item, items.Length, stashSize);
      }
    }

    /** Replace the value of the entry found at `slot`. */
    method ReplaceValue(slot: nat, name: CString, value: Value)
      requires Core() && AllTaken(stash[..stashSize])
      requires Holds(Slots(), text, poolBase, slot, name)
      requires name in contents && Slots()[slot].value == contents[name]
      modifies items, stash, `freed, `contents
      ensures Core() && AllTaken(stash[..stashSize])
      ensures contents == old(contents)[name := value]
      ensures freed == old(freed) + Released(old(contents)[name])
      ensures Now() == old(Now()).(entries := Rewritten(old(SlotEntries()), name, value))
    {
      hide Represents, PoolOk, Live, Pow2, Entries, Placed, Rewritten, Released;
      var item := ItemAt(slot);
      ReleaseValue(item.value);
      RewriteEntry(slot, name, value);
    }

    /** Store the new value. */
    method RewriteEntry(slot: nat, name: CString, value: Value)
      requires Core() && AllTaken(stash[..stashSize])
      requires Holds(Slots(), text, poolBase, slot, name)
      modifies items, stash, `contents
      ensures Core() && AllTaken(stash[..stashSize]) && contents == old(contents)[name := value]
      ensures Now() == old(Now()).(entries := Rewritten(old(SlotEntries()), name, value))
    {
      hide Represents, PoolOk, Live, Pow2, Entries, Rewritten;
      RewrittenIsStored(Slots(), text, poolBase, hash, contents, slot, name, value);
      var item := ItemAt(slot);
      ReplacingAValue(Slots(), text, poolBase, hash, contents, slot, value);
      StoreAt(slot, item.(value := value));
      contents := contents[name := value];
    }

    /** Create the entry of a key that is not there. */
    method InsertNew(name: CString, value: Value, hashes: HashKeys) returns (ok: bool)
      requires Core() && AllTaken(stash[..stashSize])
      requires name !in contents && hashes == hash(name)
      modifies poolBuffer, `poolBase, `poolBuffer, `poolSize, `poolUsed, `text, items, stash, `stashSize, `contents
      ensures poolBuffer == old(poolBuffer) || fresh(poolBuffer)
      ensures var noPlace := HasNoPlace(lgSize, old(items[..]), hashes);
              && ok == !(old(stashSize) == 16 && noPlace)
              && stashSize == old(stashSize) + (if ok && noPlace then 1 else 0)
      ensures ok ==> Core() && AllTaken(stash[..stashSize])
      ensures ok ==> contents == old(contents)[name := value]
      ensures ok ==> Whole(old(Now())) && Now() == Put(old(Now()), hash, name, value)
    {
      hide Represents, PoolOk, Placed, Conserves, Added, Entries, Live, AllTaken, HasNoPlace, SameHashes, Pow2;
      hide Put;
      WholeNow();
      ghost var items0, stash0, text0, base0 := items[..], stash[..stashSize], text, poolBase;
      var copy, rest := DupName(name);
      EntriesByHashes(items0 + stash0, Slots(), text0, base0, rest, poolBase, hash, contents);
      SameHashesTable(items0, items[..], stash0, stash[..stashSize]);
      TakenAsEntries(items0, stash0, text0, base0);
      TakenAsEntries(items[..], stash[..stashSize], rest, poolBase);
      ghost var items1, stash1 := items[..], stash[..stashSize];
      var item := Item(copy, value, hashes);
      PlaceByHashes(lgSize, items0, items1, item);
      PutIsAdded(lgSize, items1, stash1, rest, text, poolBase, hash, contents, item, name);
      ok := AddItem(item);
      if ok {
        InsertedMeans(
          lgSize, items1, stash1, Added(lgSize, items1, item), item, rest, text, poolBase, hash, contents, name);
        contents := contents[name := value];
      }
    }

    /** `coucal_write_value_`: replace where the key is, otherwise insert. */
    method ReplaceOrInsert(name: CString, value: Value) returns (r: Outcome)
      requires Core() && AllTaken(stash[..stashSize])
      modifies poolBuffer, `poolBase, `poolBuffer, `poolSize, `poolUsed, `text
      modifies items, stash, `stashSize, `contents, `freed
      ensures poolBuffer == old(poolBuffer) || fresh(poolBuffer)
      ensures var noPlace := HasNoPlace(lgSize, old(items[..]), hash(name));
              && r == (if name in old(contents) then Replaced
                       else if old(stashSize) == 16 && noPlace then StashFull else Inserted)
              && stashSize == old(stashSize) + (if r.Inserted? && noPlace then 1 else 0)
      ensures !r.StashFull? ==> Core() && AllTaken(stash[..stashSize])
      ensures !r.StashFull? ==> contents == old(contents)[name := value]
      ensures freed == old(freed) + if r.Replaced? then Released(old(contents)[name]) else multiset{}
      ensures r.Replaced? ==> Now() == old(Now()).(entries := Rewritten(old(SlotEntries()), name, value))
      ensures r.Inserted? ==> Whole(old(Now())) && Now() == Put(old(Now()), hash, name, value)
    {
      hide Represents, PoolOk, Placed, AllTaken, HasNoPlace, Put, Entries;
      var hashes := hash(name);
      var found := Find(name, hashes);
      if found.Some? {
        ReplaceValue(found.value, name, value);
        return Replaced;
      }
      var ok := InsertNew(name, value, hashes);
      r := if ok then Inserted else StashFull;
    }

    /** `coucal_write_value`: write, count, and grow the table when it is half full or the stash is. */
    method WriteValue(name: CString, value: Value) returns (r: Outcome)
      requires Valid()
      modifies this, items, stash, poolBuffer
      ensures poolBuffer == old(poolBuffer) || fresh(poolBuffer)
      ensures items == old(items) || fresh(items)
      ensures freesValues == old(freesValues)
      ensures r == old(WriteOutcome(name))
      ensures r.Replaced? || r.Inserted? ==> Valid() && contents == old(contents)[name := value]
      ensures freed == old(freed) + if r.Replaced? then Released(old(contents)[name]) else multiset{}
      ensures Whole(old(Now()))
      ensures r.Replaced? || r.Inserted? ==> Now() == AfterWrite(old(Now()), hash, name, value)
    {
      hide Represents, PoolOk, Placed, AllTaken, Live, Released, HasNoPlace, Pow2, Coucal.PoolValid, Entries, Put;
      hide Grown;
      hide Rewritten, KeysIn;
      WholeNow();
      Deciding(lgSize, items[..], stash[..stashSize], text, poolBase, hash, contents, hash(name));
      r := ReplaceOrInsert(name, value);
      if r.Inserted? {
        var ok := CountIn();
        r := if ok then Inserted else TableTooLarge;
      }
    }

    /** Count a new entry, and grow when the table or the stash is half full; false: it cannot grow. */
    method CountIn() returns (ok: bool)
      requires Core() && AllTaken(stash[..stashSize])
      requires used + 1 == |contents| && used < Pow2(lgSize - 1)
      modifies `used, `items, items, stash, `lgSize, `stashSize
      ensures items == old(items) || fresh(items)
      ensures ok ==> Valid()
      ensures var full := old(used) + 1 >= Pow2(old(lgSize) - 1) || old(stashSize) >= 8;
              && ok == (!full || old(lgSize) < 32)
              && lgSize == old(lgSize) + (if full && ok then 1 else 0)
              && (!full ==> stashSize == old(stashSize))
              && Whole(old(Now())) && (ok ==> Now() == if full then Grown(old(Now()), hash) else old(Now()))
    {
      hide Represents, PoolOk, Placed, AllTaken, Live, Pow2, Grown, Entries;
      WholeNow();
      var halfSize := Pow2(lgSize - 1);
      Pow2Twice(lgSize);
      used := used + 1;
      if used >= halfSize || stashSize >= STASH_SIZE / 2 {
        if lgSize + 1 > COUCAL_HASH_SIZE {
          return false;
        }
        Grow();
      }
      ok := true;
    }

    /** Double the table, then try to empty the stash into it. */
    method Grow()
      requires Core() && AllTaken(stash[..stashSize]) && lgSize < COUCAL_HASH_SIZE
      modifies `items, items, stash, `lgSize, `stashSize
      ensures fresh(items) && lgSize == old(lgSize) + 1
      ensures Core() && AllTaken(stash[..stashSize])
      ensures (items[..], stash[..stashSize])
              == Merged(lgSize, Doubled(old(lgSize), old(items[..])), [], old(stash[..stashSize]))
      ensures stashSize <= old(stashSize)
      ensures Whole(old(Now())) && Now() == Grown(old(Now()), hash)
    {
      hide Represents, PoolOk, Placed, AllTaken, Doubled, Merged, Live, Grown, Entries;
      WholeNow();
      GrownIsMerged(lgSize, items[..], stash[..stashSize], text, poolBase, hash, contents);
      ghost var slots0 := Slots();
      Double();
      if stashSize != 0 {
        MergeStash();
      } else {
        NothingMerged(lgSize, items[..]);
        assert stash[..stashSize] == [];
      }
      MovingKeepsMeaning(slots0, Slots(), text, poolBase, hash, contents);
    }

    // ---- Removing ----

    /** `coucal_del_item`: release the value, detach the name, then free it in the pool. */
    method DeleteItem(slot: nat, name: CString)
      requires Core() && name in contents
      requires Holds(Slots(), text, poolBase, slot, name) && Slots()[slot].value == contents[name]
      modifies poolBuffer, `poolBase, `poolBuffer, `poolSize, `poolUsed, `text, items, stash, `contents, `freed
      ensures Core()
      ensures poolBuffer == old(poolBuffer) || fresh(poolBuffer)
      ensures contents == old(contents) - {name}
      ensures freed == old(freed) + Released(old(contents)[name])
      ensures SlotEntries() == old(SlotEntries())[slot := None]
    {
      hide Represents, PoolOk, Entries, Placed, Released, KeyOf, Pow2;
      var item := ItemAt(slot);
      ReleaseValue(item.value);
      FreeEntry(slot, name);
      FreeKey(item.name);
    }

    /** Clear the slot, whose name stays in the pool for now. */
    method FreeEntry(slot: nat, name: CString)
      requires Core() && name in contents
      requires Holds(Slots(), text, poolBase, slot, name)
      modifies items, stash, `contents
      ensures var detached := old(Slots()[slot].name);
              && !detached.Null? && (detached.At? ==> detached.address - poolBase in text)
              && Represents(Slots(), Without(text, poolBase, detached), poolBase, hash, contents)
              && Entries(Slots(), Without(text, poolBase, detached), poolBase) == old(SlotEntries())[slot := None]
      ensures Shape() && PoolValid() && contents == old(contents) - {name}
    {
      hide Represents, PoolOk, Entries, Placed, KeyOf, Pow2;
      if slot < items.Length {
        FreeStaysPlaced(lgSize, items[..], slot);
      }
      MatchMeans(Slots(), text, poolBase, hash, contents, slot);
      RemovingAnEntry(Slots(), text, poolBase, hash, contents, slot);
      StoreAt(slot, FREE);
      contents := contents - {name};
    }

    /** Element `i` is gone, and the ones behind it up to `j` have moved up. */
    static ghost predicate Closing(before: seq<Item>, now: seq<Item>, i: nat, j: nat) {
      i <= j < |before| == |now| && now[..j] == before[..i] + before[i + 1..j + 1] && now[j + 1..] == before[j + 1..]
    }

    static lemma ClosedOneMore(before: seq<Item>, now: seq<Item>, i: nat, j: nat)
      requires Closing(before, now, i, j) && j + 1 < |now|
      ensures Closing(before, now[j := now[j + 1]], i, j + 1)
    {
      assert now[j + 1..][0] == before[j + 1..][0];
      assert now[j + 2..] == now[j + 1..][1..] && before[j + 2..] == before[j + 1..][1..];
      var after := now[j := now[j + 1]];
      assert after[..j + 1] == now[..j] + [now[j + 1]] && after[j + 2..] == now[j + 2..];
      assert before[i + 1..j + 2] == before[i + 1..j + 1] + [before[j + 1]];
    }

    static lemma Closed(before: seq<Item>, now: seq<Item>, i: nat)
      requires before != [] && Closing(before, now, i, |before| - 1)
      ensures now[..|before| - 1] == before[..i] + before[i + 1..]
    {
    }

    /** The loop that closes the gap left at `i` in the stash. */
    method CloseGap(i: nat)
      requires stash.Length == STASH_SIZE && stashSize <= STASH_SIZE && i < stashSize
      modifies stash, `stashSize
      ensures stashSize == old(stashSize) - 1
      ensures stash[..stashSize] == old(stash[..stashSize])[..i] + old(stash[..stashSize])[i + 1..]
    {
      ghost var before := stash[..stashSize];
      var j := i;
      while j + 1 < stashSize
        invariant i <= j < stashSize == |before|
        invariant Closing(before, stash[..stashSize], i, j)
      {
        ClosedOneMore(before, stash[..stashSize], i, j);
        stash[j] := stash[j + 1];
        j := j + 1;
      }
      stashSize := stashSize - 1;
      Closed(before, stash[..stashSize + 1], i);
    }

    /** Delete the item of a table slot. */
    method DeleteFromTable(slot: nat, name: CString)
      requires Core() && AllTaken(stash[..stashSize]) && name in contents && slot < items.Length
      requires Holds(Slots(), text, poolBase, slot, name) && Slots()[slot].value == contents[name]
      modifies poolBuffer, `poolBase, `poolBuffer, `poolSize, `poolUsed, `text, items, stash, `contents, `freed
      ensures Core() && AllTaken(stash[..stashSize])
      ensures poolBuffer == old(poolBuffer) || fresh(poolBuffer)
      ensures contents == old(contents) - {name}
      ensures freed == old(freed) + Released(old(contents)[name])
      ensures items[slot] == FREE
      ensures SlotEntries() == old(SlotEntries())[slot := None]
      ensures OnlyEarlier(old(SlotEntries()), SlotEntries())
    {
      hide Represents, PoolOk, Placed, Entries, AllTaken, FullFrom, OnlyEarlier;
      ghost var entries := SlotEntries();
      TakenAsEntries(items[..], stash[..stashSize], text, poolBase);
      DeleteItem(slot, name);
      FreeingASlot(entries, slot);
      FullStash(entries, items.Length, slot);
      TakenAsEntries(items[..], stash[..stashSize], text, poolBase);
      NoneIsFree(Slots(), text, poolBase, hash, contents, slot);
    }

    /** Delete the item of a stash slot and close the gap. */
    method DeleteFromStash(i: nat, name: CString)
      requires Core() && AllTaken(stash[..stashSize]) && name in contents && i < stashSize
      requires Holds(Slots(), text, poolBase, items.Length + i, name)
      requires Slots()[items.Length + i].value == contents[name]
      modifies poolBuffer, `poolBase, `poolBuffer, `poolSize, `poolUsed, `text, items, stash, `stashSize, `contents
      modifies `freed
      ensures Core() && AllTaken(stash[..stashSize])
      ensures poolBuffer == old(poolBuffer) || fresh(poolBuffer)
      ensures contents == old(contents) - {name}
      ensures freed == old(freed) + Released(old(contents)[name])
      ensures SlotEntries() == old(SlotEntries())[..items.Length + i] + old(SlotEntries())[items.Length + i + 1..]
      ensures OnlyEarlier(old(SlotEntries()), SlotEntries())
    {
      hide Represents, PoolOk, Placed, Entries, AllTaken, FullFrom, OnlyEarlier, Pow2;
      ghost var entries := SlotEntries();
      var slot := items.Length + i;
      TakenAsEntries(items[..], stash[..stashSize], text, poolBase);
      DeleteItem(slot, name);
      FreeingASlot(entries, slot);
      NoneIsFree(Slots(), text, poolBase, hash, contents, slot);
      ClosingAGap(Slots(), text, poolBase, hash, contents, slot);
      ClosedEntries(Slots(), text, poolBase, slot);
      CloseGapOf(slot, i);
      FullStash(entries, items.Length, slot);
      assert entries[slot := None][..slot] + entries[slot := None][slot + 1..] == entries[..slot] + entries[slot + 1..];
      TakenAsEntries(items[..], stash[..stashSize], text, poolBase);
      OnlyEarlierTransitive(entries, entries[slot := None], SlotEntries());
    }

    /** Closing the gap, seen on all slots. */
    method CloseGapOf(ghost slot: nat, i: nat)
      requires stash.Length == STASH_SIZE && stashSize <= STASH_SIZE && i < stashSize
      requires slot == items.Length + i && items != stash
      modifies stash, `stashSize
      ensures stashSize == old(stashSize) - 1
      ensures stash[..stashSize] == old(stash[..stashSize])[..i] + old(stash[..stashSize])[i + 1..]
      ensures Slots() == old(Slots())[..slot] + old(Slots())[slot + 1..]
    {
      CloseGap(i);
    }

    /** `coucal_remove_`; `freedSlot` is the table slot it emptied, if any. */
    method RemoveHashes(name: CString, hashes: HashKeys) returns (removed: bool, freedSlot: Option<nat>)
      requires Core() && AllTaken(stash[..stashSize])
      modifies poolBuffer, `poolBase, `poolBuffer, `poolSize, `poolUsed, `text, items, stash, `stashSize, `contents
      modifies `freed
      ensures Core() && AllTaken(stash[..stashSize])
      ensures poolBuffer == old(poolBuffer) || fresh(poolBuffer)
      ensures removed <==> name in old(contents) && hashes == hash(name)
      ensures contents == if removed then old(contents) - {name} else old(contents)
      ensures freed == old(freed) + if removed then Released(old(contents)[name]) else multiset{}
      ensures freedSlot.Some? ==> removed && freedSlot.value < items.Length && items[freedSlot.value] == FREE
      ensures SameTable(old(SlotEntries()), SlotEntries(), items.Length, freedSlot)
      ensures HadKey(old(SlotEntries()), freedSlot, name)
      ensures OnlyEarlier(old(SlotEntries()), SlotEntries())
      ensures Whole(old(Now())) && (hashes == hash(name) ==> ClearedTo(old(Now()), Now(), name, freedSlot))
    {
      hide Represents, PoolOk, Placed, Entries, AllTaken, OnlyEarlier, Holds, HadKey, KeysIn, ClearedTo, Pow2, Released;
      hide Coucal.PoolValid;
      WholeNow();
      ghost var before := Now();
      KeysHeld(Slots(), text, poolBase, hash, contents);
      NoSlot(SlotEntries(), name);
      var found := Find(name, hashes);
      if found.None? {
        Unmoved(SlotEntries());
        if hashes == hash(name) {
          NothingCleared(Now(), name);
        }
        return false, None;
      }
      var slot := found.value;
      InRange(Slots(), text, poolBase, slot, name);
      HeldEntry(Slots(), text, poolBase, slot, name);
      HeldAt(Slots(), text, poolBase, hash, contents, slot, name);
      if slot < items.Length {
        DeleteFromTable(slot, name);
        removed, freedSlot := true, Some(slot);
      } else {
        DeleteFromStash(slot - items.Length, name);
        removed, freedSlot := true, None;
      }
      ClearedAt(before, Now(), name, slot, freedSlot);
    }

    /** Remove the entry and count it out. */
    method RemoveAndCount(name: CString) returns (removed: bool, freedSlot: Option<nat>)
      requires Valid()
      modifies poolBuffer, `poolBase, `poolBuffer, `poolSize, `poolUsed, `text, items, stash, `stashSize, `contents
      modifies `freed, `used
      ensures Valid()
      ensures poolBuffer == old(poolBuffer) || fresh(poolBuffer)
      ensures removed <==> name in old(contents)
      ensures contents == old(contents) - {name}
      ensures freed == old(freed) + if removed then Released(old(contents)[name]) else multiset{}
      ensures freedSlot.Some? ==> removed && freedSlot.value < items.Length && items[freedSlot.value] == FREE
      ensures SameTable(old(SlotEntries()), SlotEntries(), items.Length, freedSlot)
      ensures HadKey(old(SlotEntries()), freedSlot, name)
      ensures OnlyEarlier(old(SlotEntries()), SlotEntries())
      ensures Whole(old(Now())) && ClearedTo(old(Now()), Now(), name, freedSlot)
    {
      hide Represents, PoolOk, Placed, Entries, AllTaken, OnlyEarlier, Released, HadKey, ClearedTo;
      if name in contents {
        Shrinks(contents, name);
      }
      removed, freedSlot := RemoveHashes(name, hash(name));
      if removed {
        assert used != 0;
        used := used - 1;
      }
    }

    /** `coucal_remove`: remove, count, and move a stash item into the slot that became free. */
    method Remove(name: CString) returns (removed: bool)
      requires Valid()
      modifies poolBuffer, `poolBase, `poolBuffer, `poolSize, `poolUsed, `text, items, stash, `stashSize, `contents
      modifies `freed, `used
      ensures Valid()
      ensures poolBuffer == old(poolBuffer) || fresh(poolBuffer)
      ensures removed <==> name in old(contents)
      ensures contents == old(contents) - {name}
      ensures freed == old(freed) + if removed then Released(old(contents)[name]) else multiset{}
      ensures OnlyEarlier(old(SlotEntries()), SlotEntries())
      ensures TableKept(old(SlotEntries()), SlotEntries(), items.Length, name)
      ensures BackFilled(lgSize, old(SlotEntries()), items[..], stash[..stashSize])
      ensures Whole(old(Now())) && Now() == AfterRemove(old(Now()), hash, name)
    {
      hide Represents, PoolOk, Placed, Entries, AllTaken, OnlyEarlier, Released, SameTable, BackFilled, HadKey;
      hide TableKept, Pow2;
      hide Coucal.PoolValid;
      ghost var entries := SlotEntries();
      var freedSlot;
      removed, freedSlot := RemoveAndCount(name);
      ghost var cleared := Now();
      WholeNow();
      if removed {
        Refill(freedSlot, entries);
      } else {
        NothingToPull(lgSize, entries, items[..], stash[..stashSize], text, poolBase, None);
      }
      TableKeptBut(entries, SlotEntries(), items.Length, freedSlot, name);
    }

    /** After a removal: use the slot it has freed, if any, for an item of the stash. */
    method Refill(freedSlot: Option<nat>, ghost before: seq<Entry>)
      requires Core() && AllTaken(stash[..stashSize])
      requires freedSlot.Some? ==> freedSlot.value < items.Length && items[freedSlot.value] == FREE
      requires SameTable(before, SlotEntries(), items.Length, freedSlot) && OnlyEarlier(before, SlotEntries())
      modifies items, stash, `stashSize
      ensures Core() && AllTaken(stash[..stashSize])
      ensures OnlyEarlier(before, SlotEntries()) && SameTable(before, SlotEntries(), items.Length, freedSlot)
      ensures BackFilled(lgSize, before, items[..], stash[..stashSize])
      ensures Whole(old(Now()))
      ensures Now() == if freedSlot.Some? then Refilled(old(Now()), hash, freedSlot.value) else old(Now())
    {
      hide Represents, PoolOk, Placed, Entries, AllTaken, OnlyEarlier, SameTable, BackFilled, Refilled, AtHome, Pow2;
      WholeNow();
      if stashSize == 0 && freedSlot.Some? {
        NothingToRefill(Now(), hash, freedSlot.value);
      }
      if stashSize != 0 && freedSlot.Some? {
        ghost var middle, stash0 := SlotEntries(), stash[..stashSize];
        ghost var i := Backfill(freedSlot.value);
        if i < |stash0| {
          TakenGap(stash0, i);
        }
        NothingLeft(lgSize, freedSlot.value, stash0, items[..], stash[..stashSize], i);
        OnlyEarlierTransitive(before, middle, SlotEntries());
        SameTableTwice(before, middle, SlotEntries(), items.Length, freedSlot);
      }
      NothingToPull(lgSize, before, items[..], stash[..stashSize], text, poolBase, freedSlot);
    }

    /** Move the first stash item that may live in slot `pos` there, if there is one. */
    method Backfill(pos: nat) returns (ghost i: nat)
      requires Core() && AllTaken(stash[..stashSize])
      requires pos < items.Length && items[pos] == FREE
      modifies items, stash, `stashSize
      ensures Core() && AllTaken(stash[..stashSize])
      ensures i <= old(stashSize) && (i < old(stashSize) ==> AtHome(lgSize, old(stash[i]), pos))
      ensures forall k :: 0 <= k < i ==> !AtHome(lgSize, old(stash[k]), pos)
      ensures Pulled(old(items[..]), old(stash[..stashSize]), items[..], stash[..stashSize], pos, i)
      ensures SameTable(old(SlotEntries()), SlotEntries(), items.Length, Some(pos))
      ensures OnlyEarlier(old(SlotEntries()), SlotEntries())
      ensures Whole(old(Now())) && Now() == Refilled(old(Now()), hash, pos)
    {
      hide Represents, PoolOk, Entries, OnlyEarlier, SameTable, Pow2, AllTaken, Placed, Position, Pulled, WithoutSlot;
      WholeNow();
      var j := 0;
      while j < stashSize
        invariant j <= stashSize
        invariant forall k :: 0 <= k < j ==> !AtHome(lgSize, stash[k], pos)
      {
        var pos1 := Position(lgSize, stash[j].hashes.hash1);
        var pos2 := Position(lgSize, stash[j].hashes.hash2);
        if pos1 == pos || pos2 == pos {
          ghost var items0, stash0 := items[..], stash[..stashSize];
          FirstIsFirst(lgSize, items0, stash0, text, poolBase, hash, contents, pos, j);
          PullFromStash(pos, j);
          PulledEntries(items0, stash0, items[..], stash[..stashSize], pos, j, text, poolBase);
          return j;
        }
        j := j + 1;
      }
      Unmoved(SlotEntries());
      SameTableHere(SlotEntries(), items.Length, Some(pos));
      NothingPulled(items[..], stash[..stashSize], pos);
      FirstIsFirst(lgSize, items[..], stash[..stashSize], text, poolBase, hash, contents, pos, j);
      return j;
    }

    /** Move stash item `i` to its free table slot `pos`. */
    method PullFromStash(pos: nat, i: nat)
      requires Core() && AllTaken(stash[..stashSize])
      requires pos < items.Length && items[pos] == FREE && i < stashSize && AtHome(lgSize, stash[i], pos)
      modifies items, stash, `stashSize
      ensures Core() && AllTaken(stash[..stashSize])
      ensures Pulled(old(items[..]), old(stash[..stashSize]), items[..], stash[..stashSize], pos, i)
      ensures SameTable(old(SlotEntries()), SlotEntries(), items.Length, Some(pos))
      ensures OnlyEarlier(old(SlotEntries()), SlotEntries())
    {
      hide Represents, PoolOk, Placed, Entries, OnlyEarlier, AllTaken, SameTable, Pow2, AtHome, Live;
      ghost var slots := Slots();
      TakenGap(stash[..stashSize], i);
      HomeStaysPlaced(lgSize, items[..], pos, stash[i]);
      PullingForward(slots, text, poolBase, hash, contents, pos, items.Length + i);
      SetSlot(items, pos, stash[i], 0, items.Length);
      CloseGapOf(items.Length + i, i);
      SameTableBut(slots, Slots(), text, poolBase, items.Length, pos);
    }

    // ---- Deleting ----

    /** The values still to be passed to the free handler. */
    ghost function Pending(todo: Contents): multiset<Value>
      reads `freesValues
    {
      if freesValues then Values(todo) else multiset{}
    }

    lemma PendingStep(todo: Contents, key: CString, before: multiset<Value>)
      requires key in todo
      ensures before + Released(todo[key]) + Pending(todo - {key}) == before + Pending(todo)
    {
      ValuesRemove(todo, key);
      GroupSummands(before, Released(todo[key]), Pending(todo - {key}));
    }

    /** Release the value of one slot; `todo0` are the entries of the slots from `from + i` on. */
    method DrainSlot(
      slots: array<Item>, i: nat, ghost from: nat, ghost count: nat, ghost slots0: seq<Item>, ghost todo0: Contents)
      returns (ghost todo: Contents)
      requires stashSize <= stash.Length && items != stash && IsPart(slots, from, count) && i < count
      requires Represents(slots0, text, poolBase, hash, contents)
      requires Draining(slots0, text, poolBase, contents, Slots(), todo0, from + i)
      modifies slots, `freed
      ensures Draining(slots0, text, poolBase, contents, Slots(), todo, from + i + 1)
      ensures freed + Pending(todo) == old(freed) + Pending(todo0)
    {
      hide Represents, Draining, Released, Pending, KeyOf;
      todo := todo0;
      SlotAt(slots, from, count, i);
      DrainingStep(slots0, text, poolBase, hash, contents, Slots(), todo0, from + i);
      if !slots[i].name.Null? {
        ghost var key := KeyOf(text, poolBase, slots[i].name);
        todo := todo0 - {key};
        PendingStep(todo0, key, freed);
        ReleaseValue(slots[i].value);
        SetSlot(slots, i, slots[i].(value := 0), from, count);
      }
    }

    /** `coucal_delete`: release the value of every entry; the memory itself is then given back. */
    method Delete()
      requires Valid()
      modifies items, stash, `freed, `lgSize, `used
      ensures freed == old(freed) + old(Pending(contents))
    {
      hide Represents, Draining, PoolOk, Placed, Values, Pow2, Coucal.PoolValid;
      ghost var slots0, todo := Slots(), contents;
      DrainingStart(slots0, text, poolBase, hash, contents);
      var i := 0;
      while i < items.Length
        invariant i <= items.Length
        invariant Draining(slots0, text, poolBase, contents, Slots(), todo, i)
        invariant freed + Pending(todo) == old(freed) + old(Pending(contents))
      {
        todo := DrainSlot(items, i, 0, items.Length, slots0, todo);
        i := i + 1;
      }
      i := 0;
      while i < stashSize
        invariant i <= stashSize
        invariant Draining(slots0, text, poolBase, contents, Slots(), todo, items.Length + i)
        invariant freed + Pending(todo) == old(freed) + old(Pending(contents))
      {
        todo := DrainSlot(stash, i, items.Length, stashSize, slots0, todo);
        i := i + 1;
      }
      DrainingEnd(slots0, text, poolBase, hash, contents, Slots(), todo);
      lgSize, used := 0, 0;
    }

    /** `coucal_value_is_malloc`: set or clear the free handler, before anything is written. */
    method FreeValues(flag: bool)
      requires Valid()
      modifies `freesValues
      ensures Valid() && freesValues == flag
    {
      hide Represents, PoolOk, Placed, AllTaken;
      freesValues := flag;
    }
  }
}
