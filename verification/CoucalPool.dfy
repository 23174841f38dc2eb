/**
  The string pool as a value: which strings it holds at which offsets, and what appending,
  releasing and copying do to them.
 */
module CoucalPool {
  import opened Bytes
  import opened CoucalTypes
  import opened CoucalTable
  import opened CoucalMap

  /** `s` and its NUL are at `offset`. */
  ghost predicate HasText(buffer: seq<Byte>, offset: int, s: CString) {
    && 0 <= offset
    && offset + |s| < |buffer|
    && buffer[offset..offset + |s|] == s
    && buffer[offset + |s|] == 0
  }

  /** Each string in use is non-empty and has its own region, NUL included, below `size`. */
  ghost predicate Laid(buffer: seq<Byte>, size: nat, text: Text) {
    && size <= |buffer|
    && (forall o :: o in text ==> text[o] != [] && HasText(buffer, o, text[o]) && o + |text[o]| < size)
    && (forall o, p :: o in text && p in text && o < p ==> o + |text[o]| < p)
  }

  /** Pool invariant: regions, the count of used characters, and the bound on holes. */
  ghost predicate PoolOk(buffer: seq<Byte>, size: nat, used: nat, text: Text) {
    && Laid(buffer, size, text)
    && used == Total(text, size)
    && size / 2 <= used <= size <= |buffer|
  }

  /** The characters, NULs included, of the strings in use at offsets below `size`. */
  ghost function Total(text: Text, size: nat): nat {
    if size == 0 then 0
    else Total(text, size - 1) + if size - 1 in text then |text[size - 1]| + 1 else 0
  }

  lemma {:induction false} TotalRemove(text: Text, size: nat, o: int)
    requires 0 <= o < size && o in text
    ensures Total(text, size) == Total(text - {o}, size) + |text[o]| + 1
  {
    if o < size - 1 {
      TotalRemove(text, size - 1, o);
    } else {
      TotalSame(text, text - {o}, size - 1);
    }
  }

  lemma {:induction false} TotalSame(text: Text, text': Text, size: nat)
    requires forall o :: 0 <= o < size ==> (o in text <==> o in text')
    requires forall o :: 0 <= o < size && o in text ==> text[o] == text'[o]
    ensures Total(text, size) == Total(text', size)
  {
    if size != 0 {
      TotalSame(text, text', size - 1);
    }
  }

  /** Offsets not in use count for nothing. */
  lemma {:induction false} TotalGap(text: Text, size: nat, size': nat)
    requires size <= size'
    requires forall o :: size <= o < size' ==> o !in text
    ensures Total(text, size') == Total(text, size)
    decreases size'
  {
    if size < size' {
      TotalGap(text, size, size' - 1);
    }
  }

  lemma TotalAppend(text: Text, size: nat, s: CString)
    requires forall o :: o in text ==> o < size
    ensures Total(text[size := s], size + |s| + 1) == Total(text, size) + |s| + 1
  {
    TotalGap(text[size := s], size + 1, size + |s| + 1);
    TotalSame(text, text[size := s], size);
  }

  lemma HasTextFrame(buffer: seq<Byte>, buffer': seq<Byte>, offset: int, s: CString)
    requires HasText(buffer, offset, s)
    requires offset + |s| < |buffer'|
    requires forall i :: offset <= i <= offset + |s| ==> buffer'[i] == buffer[i]
    ensures HasText(buffer', offset, s)
  {
    assert buffer'[offset..offset + |s|] == buffer[offset..offset + |s|];
  }

  /** Reading a pool string character by character: no NUL before the end. */
  lemma TextChars(buffer: seq<Byte>, offset: int, s: CString)
    requires HasText(buffer, offset, s)
    ensures forall k :: 0 <= k < |s| ==> buffer[offset + k] == s[k] && buffer[offset + k] != 0
  {
    forall k | 0 <= k < |s|
      ensures buffer[offset + k] == s[k] && buffer[offset + k] != 0
    {
      assert buffer[offset..offset + |s|][k] == s[k];
      assert s[k] in s;
    }
  }

  /** A string copied character by character, NUL included. */
  lemma TextCopied(buffer: seq<Byte>, offset: int, s: CString, buffer': seq<Byte>, offset': int)
    requires HasText(buffer, offset, s)
    requires 0 <= offset' && offset' + |s| < |buffer'|
    requires forall p :: offset' <= p <= offset' + |s| ==> buffer'[p] == buffer[p - offset' + offset]
    ensures HasText(buffer', offset', s)
  {
    TextChars(buffer, offset, s);
    assert buffer'[offset'..offset' + |s|] == s;
  }

  /** A string copied at the high watermark gets a region of its own. */
  lemma Appending(buffer: seq<Byte>, buffer': seq<Byte>, size: nat, text: Text, s: CString)
    requires Laid(buffer, size, text)
    requires s != []
    requires size + |s| + 1 <= |buffer'|
    requires buffer'[..size] == buffer[..size]
    requires HasText(buffer', size, s)
    ensures size !in text
    ensures Laid(buffer', size + |s| + 1, text[size := s])
  {
    forall o | o in text
      ensures HasText(buffer', o, text[o])
    {
      forall i | o <= i <= o + |text[o]|
        ensures buffer'[i] == buffer[i]
      {
        assert buffer'[..size][i] == buffer[..size][i];
      }
      HasTextFrame(buffer, buffer', o, text[o]);
    }
  }

  /** Erasing the first character of a released string touches no other string. */
  lemma Releasing(buffer: seq<Byte>, size: nat, text: Text, o: int)
    requires Laid(buffer, size, text)
    requires o in text
    ensures 0 <= o < |buffer|
    ensures Laid(buffer[o := 0], size, text - {o})
  {
    forall p | p in text - {o}
      ensures HasText(buffer[o := 0], p, text[p])
    {
      assert p in text;
      HasTextFrame(buffer, buffer[o := 0], p, text[p]);
    }
  }

  /** Copying the pool to a buffer at least as large keeps every string at its offset. */
  lemma CopyingWhole(buffer: seq<Byte>, buffer': seq<Byte>, size: nat, text: Text)
    requires Laid(buffer, size, text)
    requires |buffer| <= |buffer'|
    requires buffer'[..|buffer|] == buffer
    ensures Laid(buffer', size, text)
  {
    forall o | o in text
      ensures HasText(buffer', o, text[o])
    {
      forall i | o <= i <= o + |text[o]|
        ensures buffer'[i] == buffer[i]
      {
        assert buffer'[..|buffer|][i] == buffer[i];
      }
      HasTextFrame(buffer, buffer', o, text[o]);
    }
  }

  // ---- Moving the strings of all slots to a new pool, slot by slot ----

  /**
    Slots below `done` point into the new pool, the others still into the old one; `todo` are the
    strings not moved yet.
   */
  ghost predicate Relocating(
    slots: seq<Item>, text: Text, base: int, slots': seq<Item>, text': Text, base': int, todo: Text, done: nat) {
    && |slots| == |slots'| && done <= |slots|
    && (forall k :: 0 <= k < done ==> SameEntry(slots[k], text, base, slots'[k], text', base'))
    && (forall k :: done <= k < |slots| ==> slots'[k] == slots[k])
    && (forall k :: 0 <= k < done && slots[k].name.At? ==> slots[k].name.address - base !in todo)
    && (forall k :: done <= k < |slots| && slots[k].name.At? ==> slots[k].name.address - base in todo)
    && (forall o :: o in todo ==> o in text && todo[o] == text[o])
    && NoLeak(slots'[..done], text', base')
  }

  lemma RelocatingStart(slots: seq<Item>, text: Text, base: int, base': int, hash: Hasher, contents: Contents)
    requires Represents(slots, text, base, hash, contents)
    ensures Relocating(slots, text, base, slots, map[], base', text, 0)
  {
    forall k | 0 <= k < |slots| && slots[k].name.At?
      ensures slots[k].name.address - base in text
    {
      assert GoodItem(slots[k], text, base, hash, contents);
    }
  }

  /** A slot without a pool string needs no copy. */
  lemma RelocatingSkip(
    slots: seq<Item>, text: Text, base: int, slots': seq<Item>, text': Text, base': int, todo: Text, done: nat)
    requires Relocating(slots, text, base, slots', text', base', todo, done)
    requires done < |slots'| && !slots'[done].name.At?
    ensures Relocating(slots, text, base, slots', text', base', todo, done + 1)
  {
    NamedLonger(slots', text', base', done);
  }

  lemma NamedLonger(slots: seq<Item>, text: Text, base: int, done: nat)
    requires done < |slots|
    requires NoLeak(slots[..done], text, base)
    ensures NoLeak(slots[..done + 1], text, base)
  {
    forall o | o in text
      ensures Named(slots[..done + 1], base, o)
    {
      assert Named(slots[..done], base, o);
      var k :| PointsTo(slots[..done], base, k, o);
      assert PointsTo(slots[..done + 1], base, k, o);
    }
  }

  /** The string slot `done` still has to move: where it is, and that there is room for it. */
  lemma NextToMove(
    slots: seq<Item>, text: Text, base: int, slots': seq<Item>, text': Text, base': int, todo: Text, done: nat,
    hash: Hasher, contents: Contents, buffer: seq<Byte>, size: nat, buffer': seq<Byte>, size': nat)
    requires Represents(slots, text, base, hash, contents)
    requires Relocating(slots, text, base, slots', text', base', todo, done)
    requires done < |slots'| && slots'[done].name.At?
    requires Laid(buffer, size, text) && Laid(buffer', size', text')
    requires size' + Total(todo, size) <= |buffer'|
    ensures size' !in text' && done < |slots| && slots'[done] == slots[done]
    ensures var o := slots[done].name.address - base;
            && o in todo && o in text && text[o] != []
            && HasText(buffer, o, text[o])
            && Total(todo, size) == Total(todo - {o}, size) + |text[o]| + 1
  {
    var o := slots[done].name.address - base;
    assert GoodItem(slots[done], text, base, hash, contents);
    TotalRemove(todo, size, o);
  }

  /** Copying the string of slot `done` to offset `size` of the new pool. */
  lemma RelocatingOne(
    slots: seq<Item>, text: Text, base: int, slots': seq<Item>, text': Text, base': int, todo: Text, done: nat,
    hash: Hasher, contents: Contents, size: nat)
    requires Represents(slots, text, base, hash, contents)
    requires Relocating(slots, text, base, slots', text', base', todo, done)
    requires done < |slots| && slots[done].name.At?
    requires size !in text'
    ensures slots[done].name.address - base in todo
    ensures var o := slots[done].name.address - base;
            Relocating(slots, text, base,
                       slots'[done := slots[done].(name := At(base' + size))], text'[size := text[o]], base',
                       todo - {o}, done + 1)
  {
    var o := slots[done].name.address - base;
    var after, text2 := slots'[done := slots[done].(name := At(base' + size))], text'[size := text[o]];
    assert GoodItem(slots[done], text, base, hash, contents);
    forall k | done < k < |slots| && slots[k].name.At?
      ensures slots[k].name.address - base != o
    {
      assert KeyOf(text, base, slots[k].name) != KeyOf(text, base, slots[done].name);
    }
    forall k | 0 <= k < done
      ensures SameEntry(slots[k], text, base, after[k], text2, base')
    {
      assert SameEntry(slots[k], text, base, slots'[k], text', base');
    }
    NamesMoved(slots', text', base', done, slots[done].(name := At(base' + size)), size, text[o]);
  }

  lemma NamesMoved(slots: seq<Item>, text: Text, base: int, done: nat, item: Item, size: nat, s: CString)
    requires done < |slots| && NoLeak(slots[..done], text, base) && item.name == At(base + size)
    ensures NoLeak(slots[done := item][..done + 1], text[size := s], base)
  {
    var after, text' := slots[done := item], text[size := s];
    forall p | p in text'
      ensures Named(after[..done + 1], base, p)
    {
      if p == size {
        assert PointsTo(after[..done + 1], base, done, p);
      } else {
        assert Named(slots[..done], base, p);
        var k :| PointsTo(slots[..done], base, k, p);
        assert PointsTo(after[..done + 1], base, k, p);
      }
    }
  }

  lemma EmptyPool(buffer: seq<Byte>)
    ensures Laid(buffer, 0, map[]) && Total(map[], 0) == 0
  {
  }

  /** All slots moved: the same entries, and nothing left to move. */
  lemma RelocatingEnd(
    slots: seq<Item>, text: Text, base: int, slots': seq<Item>, text': Text, base': int, todo: Text, size: nat,
    hash: Hasher, contents: Contents)
    requires Represents(slots, text, base, hash, contents)
    requires Relocating(slots, text, base, slots', text', base', todo, |slots'|)
    ensures Total(todo, size) == 0
    ensures Represents(slots', text', base', hash, contents)
    ensures Entries(slots', text', base') == Entries(slots, text, base)
  {
    forall o | o in text
      ensures o !in todo
    {
      assert Named(slots, base, o);
      var k :| PointsTo(slots, base, k, o);
    }
    TotalGap(todo, 0, size);
    assert slots'[..|slots|] == slots';
    RelocatingKeepsMeaning(slots, text, base, slots', text', base', hash, contents);
  }

  // ---- Moving the whole pool: same offsets, another base address ----

  function Rebased(item: Item, base: int, base': int): Item {
    if item.name.At? then item.(name := At(base' + (item.name.address - base))) else item
  }

  /** Slots below `done` have been given the new base address, the others not yet. */
  ghost predicate Rebasing(slots: seq<Item>, base: int, slots': seq<Item>, base': int, done: nat) {
    && |slots| == |slots'| && done <= |slots|
    && (forall k :: 0 <= k < done ==> slots'[k] == Rebased(slots[k], base, base'))
    && (forall k :: done <= k < |slots| ==> slots'[k] == slots[k])
  }

  lemma RebasingStart(slots: seq<Item>, base: int, base': int)
    ensures Rebasing(slots, base, slots, base', 0)
  {
  }

  lemma RebasingStep(slots: seq<Item>, base: int, slots': seq<Item>, base': int, done: nat)
    requires Rebasing(slots, base, slots', base', done) && done < |slots'|
    ensures Rebasing(slots, base, slots'[done := Rebased(slots'[done], base, base')], base', done + 1)
    ensures slots'[done := slots'[done]] == slots'
  {
  }

  lemma OffsetInPool(
    slots: seq<Item>, text: Text, base: int, hash: Hasher, contents: Contents,
    slots': seq<Item>, base': int, done: nat, buffer: seq<Byte>, size: nat, used: nat)
    requires Represents(slots, text, base, hash, contents)
    requires PoolOk(buffer, size, used, text)
    requires Rebasing(slots, base, slots', base', done) && done < |slots'|
    requires slots'[done].name.At?
    ensures 0 <= slots'[done].name.address - base < size <= |buffer|
  {
    assert GoodItem(slots[done], text, base, hash, contents);
  }

  lemma RebasingEnd(
    slots: seq<Item>, text: Text, base: int, slots': seq<Item>, base': int, hash: Hasher, contents: Contents)
    requires Represents(slots, text, base, hash, contents)
    requires Rebasing(slots, base, slots', base', |slots'|)
    ensures Represents(slots', text, base', hash, contents)
    ensures Entries(slots', text, base') == Entries(slots, text, base)
  {
    forall i | 0 <= i < |slots|
      ensures SameEntry(slots[i], text, base, slots'[i], text, base')
    {
      assert slots[i] == FREE || GoodItem(slots[i], text, base, hash, contents);
    }
    forall o | o in text
      ensures Named(slots', base', o)
    {
      assert Named(slots, base, o);
      var k :| PointsTo(slots, base, k, o);
      assert PointsTo(slots', base', k, o);
    }
    RelocatingKeepsMeaning(slots, text, base, slots', text, base', hash, contents);
  }
}
