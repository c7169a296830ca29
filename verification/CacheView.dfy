/**
 * What a set of cached entries over a block store means to a reader, the
 * invariant that ties the two together, and what keeps both.
 *
 * Byte `i` of the cached object lives in entry `i / size` at offset `i % size`,
 * where `size` is the entry size.
 */
module CacheViews {
  import opened Common

  const PAGE_EXP: nat := 12
  const PAGE_SIZE: nat := 4096

  datatype Entry = Entry(data: seq<byte>, dirty: bool, writing: bool, reading: bool, refs: nat)

  type Pages = map<nat, Entry>

  // ---------------------------------------------------------------- meaning of the cache

  /** Every entry is fully sized, and no transfer is under way. */
  ghost predicate Shaped(pages: Pages, size: nat) {
    forall k | k in pages :: |pages[k].data| == size && !pages[k].writing && !pages[k].reading
  }

  /** The entry holds what the store holds, as far as the object reaches. */
  ghost predicate Agrees(e: Entry, base: int, store: seq<byte>, len: nat)
    requires 0 <= base && len <= |store|
  {
    forall j | 0 <= j < |e.data| && base + j < len :: e.data[j] == store[base + j]
  }

  /** The entry is zero past the end of the object. */
  ghost predicate ZeroPast(e: Entry, base: int, len: nat) {
    forall j | 0 <= j < |e.data| && base + j >= len :: e.data[j] == 0
  }

  /** Entry number `k` starts at byte `Base(k, size)`. */
  function Base(k: nat, size: nat): (b: nat) {
    MulNonNeg(k, size);
    k * size
  }

  ghost predicate Coherent(pages: Pages, size: nat, store: seq<byte>, len: nat)
    requires len <= |store|
  {
    forall k | k in pages :: pages[k].dirty || Agrees(pages[k], Base(k, size), store, len)
  }

  ghost predicate InBounds(pages: Pages, size: nat, len: nat) {
    forall k | k in pages :: Base(k, size) < len
  }

  ghost predicate Padded(pages: Pages, size: nat, len: nat) {
    forall k | k in pages :: ZeroPast(pages[k], Base(k, size), len)
  }

  ghost predicate Invariant(pages: Pages, size: nat, store: seq<byte>, len: nat)
  {
    size > 0 && len <= |store|
    && Shaped(pages, size) && InBounds(pages, size, len)
    && Padded(pages, size, len) && Coherent(pages, size, store, len)
  }

  /** What a reader of byte `i` sees: the cached byte, or else the store's. */
  ghost function At(pages: Pages, size: nat, store: seq<byte>, i: nat): byte
    requires size > 0 && Shaped(pages, size) && i < |store|
  {
    if i / size in pages then pages[i / size].data[i % size] else store[i]
  }

  /** The contents of the object as its readers see them. */
  ghost function View(pages: Pages, size: nat, store: seq<byte>, len: nat): (v: seq<byte>)
    requires size > 0 && Shaped(pages, size) && len <= |store|
    ensures |v| == len
  {
    seq(len, i requires 0 <= i < len => At(pages, size, store, i))
  }

  /** Entry `k` as the store defines it: the store's bytes up to the end of the object, then zeroes. */
  ghost function Loaded(k: nat, size: nat, store: seq<byte>, len: nat): seq<byte>
    requires len <= |store|
  {
    seq(size, j requires 0 <= j => if Base(k, size) + j < len then store[Base(k, size) + j] else 0)
  }

  /** `v` cut or zero-extended to `n` bytes. */
  ghost function Resized(v: seq<byte>, n: nat): (r: seq<byte>)
  {
    seq(n, i requires 0 <= i => if i < |v| then v[i] else 0)
  }

  // ---------------------------------------------------------------- address arithmetic

  /** A byte's entry and offset, from the other direction. */
  lemma EntryOf(k: nat, j: nat, size: nat)
    requires j < size
    ensures (Base(k, size) + j) / size == k && (Base(k, size) + j) % size == j
  {
    DivModUnique(Base(k, size) + j, size, k, j);
  }

  lemma EntrySplit(i: nat, size: nat)
    requires size > 0
    ensures i == Base(i / size, size) + i % size
  {
  }

  lemma BaseOrder(k: nat, m: nat, size: nat)
    requires k < m
    ensures Base(k, size) + size <= Base(m, size)
  {
    assert Base(m, size) - Base(k, size) == (m - k) * size;
    MulGrows(m - k, size);
  }

  /** The two entry sizes the source computes, from pages and from blocks, are one number. */
  lemma EntrySizes(blockExp: nat, entryExp: nat)
    requires entryExp == Max(blockExp, PAGE_EXP)
    ensures PAGE_SIZE * Pow2(entryExp - PAGE_EXP) == Pow2(entryExp)
    ensures Pow2(entryExp - blockExp) * Pow2(blockExp) == Pow2(entryExp)
  {
    assert Pow2(PAGE_EXP) == PAGE_SIZE by {
      assert Pow2(6) == 64;
      Pow2Add(6, 6);
    }
    Pow2Add(PAGE_EXP, entryExp - PAGE_EXP);
    Pow2Add(entryExp - blockExp, blockExp);
  }

  // ---------------------------------------------------------------- what keeps the view

  /** A coherent cache without dirty entries shows the store itself. */
  lemma CleanViewIsStore(pages: Pages, size: nat, store: seq<byte>, len: nat)
    requires size > 0 && len <= |store| && Shaped(pages, size) && Coherent(pages, size, store, len)
    requires forall k | k in pages :: !pages[k].dirty
    ensures View(pages, size, store, len) == store[..len]
  {
    forall i | 0 <= i < len
      ensures At(pages, size, store, i) == store[i]
    {
      CleanByteIsStored(pages, size, store, len, i);
    }
  }

  lemma CleanByteIsStored(pages: Pages, size: nat, store: seq<byte>, len: nat, i: nat)
    requires size > 0 && i < len <= |store| && Shaped(pages, size) && Coherent(pages, size, store, len)
    requires i / size in pages ==> !pages[i / size].dirty
    ensures At(pages, size, store, i) == store[i]
  {
    EntrySplit(i, size);
    if i / size in pages {
      assert Agrees(pages[i / size], Base(i / size, size), store, len);
    }
  }

  /** The same entries, some of them written back. */
  ghost predicate OnlyCleaned(before: Pages, after: Pages) {
    && after.Keys == before.Keys
    && forall k | k in after :: after[k] == before[k].(dirty := after[k].dirty) && (after[k].dirty ==> before[k].dirty)
  }

  /** An entry that is dirty and starts at or past the end of the object. */
  ghost predicate Stray(pages: Pages, k: nat, size: nat, len: nat) {
    k in pages && pages[k].dirty && Base(k, size) >= len
  }

  /** Dropping clean entries leaves the view alone. */
  lemma DropCleanKeepsView(pages: Pages, kept: Pages, size: nat, store: seq<byte>, len: nat)
    requires Invariant(pages, size, store, len)
    requires forall k | k in kept :: k in pages && kept[k] == pages[k]
    requires forall k | k in pages && k !in kept :: !pages[k].dirty
    ensures Invariant(kept, size, store, len)
    ensures View(kept, size, store, len) == View(pages, size, store, len)
  {
    forall i | 0 <= i < len
      ensures At(kept, size, store, i) == At(pages, size, store, i)
    {
      EntrySplit(i, size);
      if i / size in pages {
        assert pages[i / size].dirty || Agrees(pages[i / size], Base(i / size, size), store, len);
      }
    }
  }

  /** So does loading an absent one. */
  lemma LoadKeepsView(pages: Pages, k: nat, size: nat, store: seq<byte>, len: nat, refs: nat)
    requires Invariant(pages, size, store, len) && k !in pages && Base(k, size) < len
    ensures var more := pages[k := Entry(Loaded(k, size, store, len), false, false, false, refs)];
            Invariant(more, size, store, len)
            && View(more, size, store, len) == View(pages, size, store, len)
  {
    var more := pages[k := Entry(Loaded(k, size, store, len), false, false, false, refs)];
    forall i | 0 <= i < len
      ensures At(more, size, store, i) == At(pages, size, store, i)
    {
      EntrySplit(i, size);
    }
  }

  /** A run of bytes within one entry is read straight from it. */
  lemma EntrySlice(pages: Pages, k: nat, off: nat, n: nat, size: nat, store: seq<byte>, len: nat)
    requires Invariant(pages, size, store, len) && k in pages
    requires off + n <= size && Base(k, size) + off + n <= len
    ensures pages[k].data[off..off + n]
         == View(pages, size, store, len)[Base(k, size) + off..Base(k, size) + off + n]
  {
    forall i | off <= i < off + n
      ensures At(pages, size, store, Base(k, size) + i) == pages[k].data[i]
    {
      EntryOf(k, i, size);
    }
    var v := View(pages, size, store, len);
    assert forall i | off <= i < off + n :: v[Base(k, size) + i] == pages[k].data[i];
  }

  /** Reference counts are invisible to readers. */
  lemma RefsKeepView(pages: Pages, k: nat, refs: nat, size: nat, store: seq<byte>, len: nat)
    requires Invariant(pages, size, store, len) && k in pages
    ensures Invariant(pages[k := pages[k].(refs := refs)], size, store, len)
    ensures View(pages[k := pages[k].(refs := refs)], size, store, len) == View(pages, size, store, len)
  {
  }

  /** Overwriting part of an entry and marking it dirty splices exactly those bytes into the view. */
  lemma WriteSplicesView(pages: Pages, k: nat, off: nat, t: seq<byte>, size: nat, store: seq<byte>, len: nat)
    requires Invariant(pages, size, store, len) && k in pages
    requires off + |t| <= size && Base(k, size) + off + |t| <= len
    ensures var after := pages[k := pages[k].(data := Splice(pages[k].data, off, t), dirty := true)];
            Invariant(after, size, store, len)
            && Patched(View(pages, size, store, len), View(after, size, store, len), Base(k, size) + off, t)
  {
    var after := pages[k := pages[k].(data := Splice(pages[k].data, off, t), dirty := true)];
    assert ZeroPast(pages[k], Base(k, size), len);
    assert ZeroPast(after[k], Base(k, size), len);
    var v, v' := View(pages, size, store, len), View(after, size, store, len);
    forall i | 0 <= i < len
      ensures v'[i] == if Base(k, size) + off <= i < Base(k, size) + off + |t| then t[i - Base(k, size) - off] else v[i]
    {
      EntrySplit(i, size);
      if i / size < k {
        BaseOrder(i / size, k, size);
      } else if i / size > k {
        BaseOrder(k, i / size, size);
      }
    }
  }

  /**
   * The store may change underneath a cached entry, as long as the entry stays
   * dirty or holds what the store now holds: no reader can tell.
   */
  lemma StoreChangeKeepsView(pages: Pages, k: nat, dirty: bool, size: nat,
                             store: seq<byte>, store': seq<byte>, len: nat)
    requires size > 0 && len <= |store| == |store'| && Shaped(pages, size) && k in pages
    requires forall i | 0 <= i < |store| && !(Base(k, size) <= i < Base(k, size) + size) :: store'[i] == store[i]
    requires dirty || Agrees(pages[k], Base(k, size), store', len)
    ensures var after := pages[k := pages[k].(dirty := dirty)];
            && Shaped(after, size) && View(after, size, store', len) == View(pages, size, store, len)
            && (Coherent(pages, size, store, len) ==> Coherent(after, size, store', len))
            && (Invariant(pages, size, store, len) ==> Invariant(after, size, store', len))
  {
    var after := pages[k := pages[k].(dirty := dirty)];
    if Coherent(pages, size, store, len) {
      forall m | m in after
        ensures after[m].dirty || Agrees(after[m], Base(m, size), store', len)
      {
        if m != k && !pages[m].dirty {
          AgreesElsewhere(pages[m], m, k, size, store, store', len);
        }
      }
    }
    forall i | 0 <= i < len
      ensures At(after, size, store', i) == At(pages, size, store, i)
    {
      if Base(k, size) <= i < Base(k, size) + size {
        EntryRange(i, k, size);
      }
    }
  }

  lemma AgreesElsewhere(e: Entry, m: nat, k: nat, size: nat, store: seq<byte>, store': seq<byte>, len: nat)
    requires m != k && |e.data| == size && len <= |store| == |store'|
    requires forall i | 0 <= i < |store| && !(Base(k, size) <= i < Base(k, size) + size) :: store'[i] == store[i]
    requires Agrees(e, Base(m, size), store, len)
    ensures Agrees(e, Base(m, size), store', len)
  {
    if m < k { BaseOrder(m, k, size); } else { BaseOrder(k, m, size); }
  }

  lemma EntryRange(i: nat, k: nat, size: nat)
    requires size > 0 && Base(k, size) <= i < Base(k, size) + size
    ensures i / size == k
  {
    EntryOf(k, i - Base(k, size), size);
  }

  // ---------------------------------------------------------------- changing the length

  /** `e` with everything from byte `len` of the object on zeroed. */
  ghost function Trimmed(e: Entry, base: nat, len: nat): Entry {
    e.(data := seq(|e.data|, j requires 0 <= j < |e.data| => if base + j < len then e.data[j] else 0))
  }

  /** The entries left by truncation to `len`: those still reached, and those a reference pins. */
  ghost predicate TruncatedTo(pages: Pages, after: Pages, size: nat, len: nat) {
    && (forall k | k in after :: k in pages && (Base(k, size) < len || pages[k].refs != 0))
    && (forall k | k in pages && Base(k, size) < len ::
          k in after && after[k] == Trimmed(pages[k], Base(k, size), len))
    && (forall k | k in pages && Base(k, size) >= len :: pages[k].refs != 0 ==> k in after && after[k] == pages[k])
  }

  /** No entry that starts at or past `len` is referenced. */
  ghost predicate Unpinned(pages: Pages, size: nat, len: nat) {
    forall k | k in pages && Base(k, size) >= len :: pages[k].refs == 0
  }

  /** Truncation keeps every byte below the new length, whatever is pinned. */
  lemma TruncateKeepsPrefix(pages: Pages, after: Pages, size: nat, store: seq<byte>, oldLen: nat, len: nat)
    requires Invariant(pages, size, store, oldLen) && len <= oldLen && TruncatedTo(pages, after, size, len)
    ensures Shaped(after, size)
    ensures View(after, size, store, len) == View(pages, size, store, oldLen)[..len]
  {
    forall k | k in after
      ensures |after[k].data| == size && !after[k].writing && !after[k].reading
    {
      assert k in pages;
    }
    forall i | 0 <= i < len
      ensures At(after, size, store, i) == At(pages, size, store, i)
    {
      EntrySplit(i, size);
    }
  }

  /** Truncation keeps the invariant exactly when it pins nothing past the new end. */
  lemma TruncateInvariant(pages: Pages, after: Pages, size: nat, store: seq<byte>, oldLen: nat, len: nat)
    requires Invariant(pages, size, store, oldLen) && len <= oldLen && TruncatedTo(pages, after, size, len)
    ensures Invariant(after, size, store, len) <==> Unpinned(pages, size, len)
  {
    TruncateKeepsPrefix(pages, after, size, store, oldLen, len);
    if Unpinned(pages, size, len) {
      forall k | k in after
        ensures ZeroPast(after[k], Base(k, size), len)
        ensures after[k].dirty || Agrees(after[k], Base(k, size), store, len)
      {
        assert k in pages && after[k] == Trimmed(pages[k], Base(k, size), len);
        assert pages[k].dirty || Agrees(pages[k], Base(k, size), store, oldLen);
      }
    }
  }

  /** Every entry that a reference pins past `n` is zero, as far as the object will reach at `m` bytes. */
  ghost predicate PinnedZero(pages: Pages, size: nat, n: nat, m: nat) {
    forall k | k in pages && Base(k, size) >= n && pages[k].refs != 0 :: ZeroUpTo(pages[k], Base(k, size), m)
  }

  ghost predicate ZeroUpTo(e: Entry, base: int, m: nat) {
    forall j | 0 <= j < |e.data| && base + j < m :: e.data[j] == 0
  }

  /**
   * What a reader sees after truncation to `n` and growth over zeroes: below `n` as before, above
   * it zero or a pinned byte.
   */
  lemma RegrownAt(pages: Pages, after: Pages, size: nat, store: seq<byte>, store': seq<byte>, oldLen: nat, n: nat,
                  i: nat)
    requires Invariant(pages, size, store, oldLen) && n <= oldLen && TruncatedTo(pages, after, size, n)
    requires i < |store'| && store'[i] == if i < n then store[i] else 0
    ensures Shaped(after, size)
    ensures At(after, size, store', i)
         == if i < n then At(pages, size, store, i)
            else if i / size in pages && Base(i / size, size) >= n && pages[i / size].refs != 0
            then pages[i / size].data[i % size]
            else 0
  {
    TruncateKeepsPrefix(pages, after, size, store, oldLen, n);
    EntrySplit(i, size);
  }

  /**
   * After truncation to `n` and growth to `m` over a store that is zero from `n` on, readers
   * see the old bytes below `n` and zeroes above if and only if what is pinned there is zero.
   */
  lemma RegrowIff(pages: Pages, after: Pages, size: nat, store: seq<byte>, store': seq<byte>, oldLen: nat, n: nat,
                  m: nat)
    requires Invariant(pages, size, store, oldLen) && n <= oldLen && TruncatedTo(pages, after, size, n)
    requires n <= m <= |store'| && forall i | 0 <= i < m :: store'[i] == if i < n then store[i] else 0
    ensures Shaped(after, size)
    ensures View(after, size, store', m) == Resized(View(pages, size, store, oldLen)[..n], m)
       <==> PinnedZero(pages, size, n, m)
  {
    TruncateKeepsPrefix(pages, after, size, store, oldLen, n);
    var seen, wanted := View(after, size, store', m), Resized(View(pages, size, store, oldLen)[..n], m);
    forall i | 0 <= i < m
      ensures seen[i] == if i < n then wanted[i]
                         else if i / size in pages && Base(i / size, size) >= n && pages[i / size].refs != 0
                         then pages[i / size].data[i % size]
                         else 0
    {
      RegrownAt(pages, after, size, store, store', oldLen, n, i);
    }
    if PinnedZero(pages, size, n, m) {
      PinnedZeroSeen(pages, size, n, m);
      assert seen == wanted;
    } else {
      var k :| k in pages && Base(k, size) >= n && pages[k].refs != 0 && !ZeroUpTo(pages[k], Base(k, size), m);
      var j :| 0 <= j < |pages[k].data| && Base(k, size) + j < m && pages[k].data[j] != 0;
      EntryOf(k, j, size);
      assert seen[Base(k, size) + j] != wanted[Base(k, size) + j];
    }
  }

  lemma PinnedZeroSeen(pages: Pages, size: nat, n: nat, m: nat)
    requires size > 0 && Shaped(pages, size) && PinnedZero(pages, size, n, m)
    ensures forall i: nat | i < m && i / size in pages && Base(i / size, size) >= n && pages[i / size].refs != 0 ::
              pages[i / size].data[i % size] == 0
  {
    forall i: nat | i < m && i / size in pages && Base(i / size, size) >= n && pages[i / size].refs != 0
      ensures pages[i / size].data[i % size] == 0
    {
      EntrySplit(i, size);
      assert ZeroUpTo(pages[i / size], Base(i / size, size), m);
    }
  }

  /** An entry pinned through a truncation to nothing: its old bytes are back once the object grows again. */
  lemma PinnedEntryResurfaces(size: nat)
    requires size > 0
    ensures var pages := map[0 := Entry(seq(size, _ => 1), false, false, false, 1)];
            var store, zeroes := seq(size, _ => 1 as byte), seq(size, _ => 0 as byte);
            && Invariant(pages, size, store, size) && TruncatedTo(pages, pages, size, 0)
            && !Invariant(pages, size, store, 0) && !PinnedZero(pages, size, 0, size)
            && View(pages, size, zeroes, size)[0] == 1
  {
    var pages: Pages := map[0 := Entry(seq(size, _ => 1), false, false, false, 1)];
    assert Base(0, size) == 0;
    assert 0 in pages && pages[0].data[0] == 1;
    DivModUnique(0, size, 0, 0);
  }

  /** Growth keeps the invariant exactly when the store shows zeroes under every clean entry it uncovers. */
  lemma GrowInvariant(pages: Pages, size: nat, store: seq<byte>, oldLen: nat, len: nat)
    requires Invariant(pages, size, store, oldLen) && oldLen <= len <= |store|
    ensures Invariant(pages, size, store, len)
       <==> forall i | oldLen <= i < len && i / size in pages && !pages[i / size].dirty :: store[i] == 0
  {
    assert InBounds(pages, size, len) && Padded(pages, size, len);
    if Coherent(pages, size, store, len) {
      forall i | oldLen <= i < len && i / size in pages && !pages[i / size].dirty
        ensures store[i] == 0
      {
        EntrySplit(i, size);
        assert Agrees(pages[i / size], Base(i / size, size), store, len);
        assert ZeroPast(pages[i / size], Base(i / size, size), oldLen);
        assert pages[i / size].data[i % size] == store[Base(i / size, size) + i % size];
      }
    }
    if forall i | oldLen <= i < len && i / size in pages && !pages[i / size].dirty :: store[i] == 0 {
      forall k | k in pages && !pages[k].dirty
        ensures Agrees(pages[k], Base(k, size), store, len)
      {
        assert Agrees(pages[k], Base(k, size), store, oldLen);
        assert ZeroPast(pages[k], Base(k, size), oldLen);
        forall i | Base(k, size) <= i < Base(k, size) + size && oldLen <= i < len
          ensures store[i] == 0
        {
          EntryRange(i, k, size);
        }
      }
    }
  }

  /** Growing over a store that reads zero there zero-extends the view. */
  lemma GrowExtendsView(pages: Pages, size: nat, store: seq<byte>, oldLen: nat, len: nat)
    requires Invariant(pages, size, store, oldLen) && oldLen <= len <= |store|
    requires forall i | oldLen <= i < len :: store[i] == 0
    ensures View(pages, size, store, len) == Resized(View(pages, size, store, oldLen), len)
  {
    forall i | oldLen <= i < len
      ensures At(pages, size, store, i) == 0
    {
      EntrySplit(i, size);
      if i / size in pages {
        assert ZeroPast(pages[i / size], Base(i / size, size), oldLen);
      }
    }
  }

  /** Only the store's first `len` bytes matter. */
  lemma StorePrefixOnly(pages: Pages, size: nat, store: seq<byte>, store': seq<byte>, len: nat)
    requires Invariant(pages, size, store, len) && len <= |store'|
    requires forall i | 0 <= i < len :: store'[i] == store[i]
    ensures Invariant(pages, size, store', len)
    ensures View(pages, size, store', len) == View(pages, size, store, len)
  {
    forall k | k in pages && !pages[k].dirty
      ensures Agrees(pages[k], Base(k, size), store', len)
    {
      assert Agrees(pages[k], Base(k, size), store, len);
    }
  }

  /** An object truncated to its own length. */
  lemma WholeIsTruncated(pages: Pages, size: nat, store: seq<byte>, len: nat)
    requires Invariant(pages, size, store, len)
    ensures TruncatedTo(pages, pages, size, len)
  {
    forall k | k in pages
      ensures pages[k] == Trimmed(pages[k], Base(k, size), len)
    {
      assert ZeroPast(pages[k], Base(k, size), len);
      assert pages[k].data == Trimmed(pages[k], Base(k, size), len).data;
    }
  }

  /**
   * Resizing the store and then the cache cuts the view, or extends it with zeroes, and
   * keeps the invariant if and only if nothing is pinned past the new end.
   */
  lemma ResizeView(pages: Pages, after: Pages, size: nat, store: seq<byte>, store': seq<byte>, oldLen: nat, len: nat)
    requires Invariant(pages, size, store, oldLen) && len <= |store'|
    requires forall i | 0 <= i < len :: store'[i] == if i < oldLen then store[i] else 0
    requires if len < oldLen then TruncatedTo(pages, after, size, len) else after == pages
    ensures Shaped(after, size)
    ensures View(after, size, store', len) == Resized(View(pages, size, store, oldLen), len)
    ensures Coherent(after, size, store', len)
    ensures Invariant(after, size, store', len) <==> Unpinned(pages, size, len)
  {
    if len < oldLen {
      ShrinkView(pages, after, size, store, store', oldLen, len);
    } else {
      StorePrefixOnly(pages, size, store, store', oldLen);
      GrowInvariant(pages, size, store', oldLen, len);
      GrowExtendsView(pages, size, store', oldLen, len);
    }
  }

  lemma ShrinkView(pages: Pages, after: Pages, size: nat, store: seq<byte>, store': seq<byte>, oldLen: nat, len: nat)
    requires Invariant(pages, size, store, oldLen) && len < oldLen && len <= |store'|
    requires forall i | 0 <= i < len :: store'[i] == store[i]
    requires TruncatedTo(pages, after, size, len)
    ensures Shaped(after, size)
    ensures View(after, size, store', len) == View(pages, size, store, oldLen)[..len]
    ensures Invariant(after, size, store', len) <==> Unpinned(pages, size, len)
  {
    TruncateKeepsPrefix(pages, after, size, store, oldLen, len);
    forall i | 0 <= i < len
      ensures At(after, size, store', i) == At(pages, size, store, i)
    {
      RegrownAt(pages, after, size, store, store', oldLen, len, i);
    }
    if Unpinned(pages, size, len) {
      TruncateInvariant(pages, after, size, store, oldLen, len);
      StorePrefixOnly(after, size, store, store', len);
    } else {
      var k :| k in pages && Base(k, size) >= len && pages[k].refs != 0;
      assert k in after;
    }
  }
}
