/**
 * The page cache of src/mem/pagecache.rs: whole entries of a block store held in
 * memory, read and written page by page, written back, evicted and truncated.
 * Calls run one at a time, so an entry is never seen in the middle of a transfer.
 */
module PageCaches {
  import opened Common
  import opened BlockStores
  import opened CacheViews

  datatype Errno = EIO | ENXIO | DeviceError | Overflow

  datatype Result<+T> = Ok(value: T) | Err(error: Errno)

  /** A mappable page: an entry and the page within it. */
  datatype Page = Page(index: nat, page: nat)

  /** Block `x` starts below `len` if and only if it is one of the blocks `len` bytes need. */
  lemma BlockBelow(x: int, len: nat, bs: nat)
    requires bs > 0
    ensures x < CeilDiv(len, bs) <==> x * bs < len
  {
    var blocks := CeilDiv(len, bs);
    CeilDivCovers(len, bs);
    if x < blocks {
      MulOrder(x, blocks - 1, bs);
      assert (blocks - 1) * bs == blocks * bs - bs;
    } else {
      MulOrder(blocks, x, bs);
    }
  }

  /** The block range of an entry, clipped to the object, in bytes. */
  lemma BlockRange(index: nat, bs: nat, eb: nat, size: nat, len: nat, storeLen: nat)
    requires bs > 0 && eb > 0 && size == eb * bs && storeLen % bs == 0 && len <= storeLen
    ensures var start, blocks := index * eb, CeilDiv(len, bs);
            var count := Max(Min(start + eb, blocks) - start, 0);
            && 0 <= start && start * bs == Base(index, size)
            && (start < blocks <==> Base(index, size) < len)
            && 0 <= count * bs
            && (start < blocks ==>
                  && (start + count) * bs == Base(index, size) + count * bs <= storeLen
                  && Min(len - Base(index, size), size) <= count * bs <= size)
            && (blocks > start + eb ==> Base(index, size) + size <= len)
  {
    var start, blocks := index * eb, CeilDiv(len, bs);
    var count := Max(Min(start + eb, blocks) - start, 0);
    MulNonNeg(index, eb);
    MulNonNeg(count, bs);
    MulAssoc(index, eb, bs);
    MulAdd(start, eb, bs);
    BlockBelow(start, len, bs);
    BlockBelow(start + eb, len, bs);
    if start < blocks {
      MulAdd(start, count, bs);
      assert len <= blocks * bs <= storeLen by {
        CeilDivCovers(len, bs);
        CeilDivFits(len, bs, storeLen);
      }
      if blocks < start + eb {
        MulOrder(blocks, start + eb, bs);
      } else {
        MulOrder(start + eb, blocks, bs);
      }
    }
  }

  /** An offset within an entry, as a page of the entry and an offset within the page. */
  lemma IndexSplit(offset: nat, m: nat, size: nat)
    requires m > 0 && size == PAGE_SIZE * m
    ensures offset / PAGE_SIZE % m * PAGE_SIZE + offset % PAGE_SIZE == offset % size
    ensures offset % size + (PAGE_SIZE - offset % PAGE_SIZE) <= size
    ensures offset / size >= 0
  {
    DivModTwoStage(offset, PAGE_SIZE, m);
    MulOrder(offset / PAGE_SIZE % m, m - 1, PAGE_SIZE);
    assert (m - 1) * PAGE_SIZE == PAGE_SIZE * m - PAGE_SIZE;
  }

  /** A page starts in the entry of every byte it holds. */
  lemma PageStart(offset: nat, m: nat, size: nat)
    requires m > 0 && size == PAGE_SIZE * m
    ensures (offset - offset % PAGE_SIZE) % PAGE_SIZE == 0
    ensures (offset - offset % PAGE_SIZE) / PAGE_SIZE == offset / PAGE_SIZE
    ensures (offset - offset % PAGE_SIZE) / size == offset / size
  {
    var base := offset - offset % PAGE_SIZE;
    DivModUnique(base, PAGE_SIZE, offset / PAGE_SIZE, 0);
    DivModTwoStage(offset, PAGE_SIZE, m);
    DivModTwoStage(base, PAGE_SIZE, m);
  }

  /** A page starts at a multiple of the page size. */
  lemma PageAligned(addr: nat)
    ensures 0 <= addr - addr % PAGE_SIZE && (addr - addr % PAGE_SIZE) % PAGE_SIZE == 0
  {
    DivMod(addr, PAGE_SIZE);
    DivModUnique(addr - addr % PAGE_SIZE, PAGE_SIZE, addr / PAGE_SIZE, 0);
  }

  lemma SliceRun(v: seq<byte>, a: nat, b: nat, c: nat)
    requires a <= b <= c <= |v|
    ensures v[a..b] + v[b..c] == v[a..c]
  {
  }

  /** Two adjacent patches from one run of data make one. */
  lemma PatchRun(v: seq<byte>, w: seq<byte>, x: seq<byte>, addr: nat, data: seq<byte>, p: nat, q: nat)
    requires p <= q <= |data|
    requires Patched(v, w, addr, data[..p]) && Patched(w, x, addr + p, data[p..q])
    ensures Patched(v, x, addr, data[..q])
  {
  }

  class PageCache {
    const blockExp: nat
    const entryPagesExp: nat
    const entryBlocksExp: nat
    /** What freshly allocated memory happens to hold. */
    const garbage: nat -> byte
    var pages: Pages
    var len: nat

    ghost predicate Geometry() {
      blockExp + entryBlocksExp == PAGE_EXP + entryPagesExp == Max(blockExp, PAGE_EXP)
    }

    function EntrySize(): (size: nat)
      ensures size > 0
    {
      Pow2(blockExp + entryBlocksExp)
    }

    /** The store has the cache's block size and reaches as far as the object. */
    ghost predicate Attached(pager: BlockStore)
      reads this, pager
    {
      Geometry() && pager.Valid() && pager.blockSize == Pow2(blockExp) && len < U64_LIMIT && len <= |pager.data|
    }

    ghost predicate Valid(pager: BlockStore)
      reads this, pager
    {
      Attached(pager) && Invariant(pages, EntrySize(), pager.data, len)
    }

    /** What a truncation leaves: entries past the end are allowed. */
    ghost predicate Usable(pager: BlockStore)
      reads this, pager
    {
      Attached(pager) && Shaped(pages, EntrySize())
    }

    /** What readers see of it. */
    ghost function Seen(pager: BlockStore): (v: seq<byte>)
      requires Usable(pager)
      reads this, pager
      ensures |v| == len
    {
      View(pages, EntrySize(), pager.data, len)
    }

    /** Clean entries hold what the store holds. */
    ghost predicate InStep(pager: BlockStore)
      requires Usable(pager)
      reads this, pager
    {
      Coherent(pages, EntrySize(), pager.data, len)
    }

    ghost predicate HasStray()
      reads this
    {
      exists k :: Stray(pages, k, EntrySize(), len)
    }

    /** The object as its readers see it. */
    ghost function Contents(pager: BlockStore): (v: seq<byte>)
      requires Valid(pager)
      reads this, pager
      ensures |v| == len
    {
      View(pages, EntrySize(), pager.data, len)
    }

    constructor (blockExp: nat, len: nat, garbage: nat -> byte)
      ensures Geometry() && this.blockExp == blockExp && this.len == len && pages == map[]
    {
      var entryExp := Max(blockExp, PAGE_EXP);
      this.blockExp, this.garbage := blockExp, garbage;
      entryPagesExp := entryExp - PAGE_EXP;
      entryBlocksExp := entryExp - blockExp;
      pages, this.len := map[], len;
    }

    /** The entry holding `offset` and the page within it. */
    function Index(offset: nat): (r: (nat, nat))
      requires Geometry()
      ensures r.0 == offset / EntrySize()
      ensures r.1 * PAGE_SIZE + offset % PAGE_SIZE == offset % EntrySize()
    {
      var size, pagesPerEntry := EntrySize(), Pow2(entryPagesExp);
      assert size == PAGE_SIZE * pagesPerEntry by { PagesOfEntry(); }
      IndexSplit(offset, pagesPerEntry, size);
      (offset / size, offset / PAGE_SIZE % pagesPerEntry)
    }

    lemma PagesOfEntry()
      requires Geometry()
      ensures PAGE_SIZE * Pow2(entryPagesExp) == EntrySize()
      ensures Pow2(entryBlocksExp) * Pow2(blockExp) == EntrySize()
    {
      EntrySizes(blockExp, blockExp + entryBlocksExp);
    }

    /** The page that holds `addr` lies inside one entry, up to the page's end. */
    lemma PageInEntry(addr: nat)
      requires Geometry()
      ensures var base := addr - addr % PAGE_SIZE;
              && Index(base).0 == addr / EntrySize()
              && Index(base).1 * PAGE_SIZE + addr % PAGE_SIZE == addr % EntrySize()
              && addr % EntrySize() + (PAGE_SIZE - addr % PAGE_SIZE) <= EntrySize()
    {
      PagesOfEntry();
      IndexSplit(addr, Pow2(entryPagesExp), EntrySize());
      PageStart(addr, Pow2(entryPagesExp), EntrySize());
    }

    /**
     * The blocks of an entry that the object reaches, their extent in bytes, and
     * whether the entry may hold the end of the object.
     */
    method BlockExtent(pager: BlockStore, index: nat)
      returns (inside: bool, startBlock: nat, blockCount: nat, byteCount: nat, last: bool)
      requires Attached(pager)
      ensures inside <==> Base(index, EntrySize()) < len
      ensures startBlock * pager.blockSize == Base(index, EntrySize())
      ensures inside ==>
        && (startBlock + blockCount) * pager.blockSize == Base(index, EntrySize()) + byteCount <= |pager.data|
        && Min(len - Base(index, EntrySize()), EntrySize()) <= byteCount <= EntrySize()
      ensures !last ==> Base(index, EntrySize()) + EntrySize() <= len
    {
      var bs, eb := Pow2(blockExp), Pow2(entryBlocksExp);
      assert eb * bs == EntrySize() by { PagesOfEntry(); }
      BlockRange(index, bs, eb, EntrySize(), len, |pager.data|);
      var blockLen := CeilDiv(len, bs);
      startBlock := index * eb;
      inside := startBlock < blockLen;
      var endBlock := Min(startBlock + eb, blockLen);
      blockCount := Max(endBlock - startBlock, 0);
      byteCount := blockCount * bs;
      last := blockLen <= startBlock + eb;
    }

    /** Fill an entry's memory from the store, with zeroes past the end of the object. */
    method ReadFromDisk(pager: BlockStore, index: nat, memory: seq<byte>) returns (r: Result<seq<byte>>)
      requires Attached(pager) && |memory| == EntrySize()
      modifies pager`transfers
      ensures Attached(pager)
      ensures old(pager.transfers) <= pager.transfers
      ensures Base(index, EntrySize()) >= len <==> r == Err(ENXIO)
      ensures r.Err? && r.error != ENXIO ==> r.error == DeviceError && pager.Failed(old(pager.transfers))
      ensures r.Ok? ==> r.value == Loaded(index, EntrySize(), pager.data, len)
    {
      var inside, startBlock, blockCount, byteCount, last := BlockExtent(pager, index);
      if !inside {
        return Err(ENXIO);
      }
      var ok, bytes := pager.ReadBlocks(startBlock, blockCount);
      if !ok {
        return Err(DeviceError);
      }
      var filled := bytes + memory[|bytes|..];
      if last {
        PagesOfEntry();
        var entryBytes := PAGE_SIZE * Pow2(entryPagesExp);
        var valid := Min(Max(len - startBlock * pager.blockSize, 0), entryBytes);
        if valid < entryBytes {
          filled := Splice(filled, valid, seq(entryBytes - valid, _ => 0));
        }
      }
      assert filled == Loaded(index, EntrySize(), pager.data, len);
      return Ok(filled);
    }

    /** Write an entry back to the blocks it came from. */
    method WriteToDisk(pager: BlockStore, index: nat, memory: seq<byte>) returns (r: Result<()>)
      requires Attached(pager) && |memory| == EntrySize()
      modifies pager`transfers, pager`data
      ensures Attached(pager) && |pager.data| == old(|pager.data|)
      ensures Base(index, EntrySize()) >= len <==> r == Err(ENXIO)
      ensures old(pager.transfers) <= pager.transfers
      ensures r.Err? && r.error != ENXIO ==> r.error == DeviceError && pager.Failed(old(pager.transfers))
      ensures forall i | 0 <= i < |pager.data|
                && !(Base(index, EntrySize()) <= i < Base(index, EntrySize()) + EntrySize()) ::
                pager.data[i] == old(pager.data)[i]
      ensures r.Ok? ==> forall j | 0 <= j < EntrySize() && Base(index, EntrySize()) + j < len ::
                pager.data[Base(index, EntrySize()) + j] == memory[j]
    {
      var inside, startBlock, blockCount, byteCount, last := BlockExtent(pager, index);
      if !inside {
        return Err(ENXIO);
      }
      var ok := pager.WriteBlocks(startBlock, memory[..byteCount]);
      return if ok then Ok(()) else Err(DeviceError);
    }

    /** An existing entry's page, with one more reference. */
    method Get(addr: nat) returns (r: Option<Page>)
      requires Geometry() && addr % PAGE_SIZE == 0
      modifies this`pages
      ensures var (k, p) := Index(addr);
              if k in old(pages)
              then r == Some(Page(k, p)) && pages == old(pages)[k := old(pages)[k].(refs := old(pages)[k].refs + 1)]
              else r == None && pages == old(pages)
    {
      var (k, p) := Index(addr);
      if k !in pages {
        return None;
      }
      pages := pages[k := pages[k].(refs := pages[k].refs + 1)];
      return Some(Page(k, p));
    }

    /** Get a page, reading its entry from the store if it is not cached. */
    method Alloc(pager: BlockStore, addr: nat) returns (r: Result<Page>)
      requires Valid(pager) && addr % PAGE_SIZE == 0
      modifies this`pages, pager`transfers
      ensures Valid(pager) && Contents(pager) == old(Contents(pager))
      ensures Index(addr).0 in old(pages) ==> r.Ok?
      ensures old(pager.transfers) <= pager.transfers
      ensures Index(addr).0 !in old(pages) && Base(Index(addr).0, EntrySize()) >= len <==> r == Err(ENXIO)
      ensures r.Err? && r.error != ENXIO ==> r.error == DeviceError && pager.Failed(old(pager.transfers))
      ensures r.Err? ==> pages == old(pages)
      ensures r.Ok? ==>
        && r.value == Page(Index(addr).0, Index(addr).1) && r.value.index in pages
        && pages == old(pages)[r.value.index := pages[r.value.index]]
        && pages[r.value.index].refs ==
             1 + if r.value.index in old(pages) then old(pages)[r.value.index].refs else 0
    {
      var (k, p) := Index(addr);
      if k in pages {
        RefsKeepView(pages, k, pages[k].refs + 1, EntrySize(), pager.data, len);
      }
      var found := Get(addr);
      if found.Some? {
        return Ok(found.value);
      }
      var memory := seq(EntrySize(), j requires 0 <= j => garbage(j));
      var filled := ReadFromDisk(pager, k, memory);
      // The pending entry exists only while it is being read, and is removed again on failure.
      if filled.Err? {
        return Err(filled.error);
      }
      LoadKeepsView(pages, k, EntrySize(), pager.data, len, 1);
      pages := pages[k := Entry(filled.value, false, false, false, 1)];
      return Ok(Page(k, p));
    }

    /** Drop a reference to a page. */
    method Release(pager: BlockStore, page: Page)
      requires Valid(pager) && page.index in pages && pages[page.index].refs > 0
      modifies this`pages
      ensures Valid(pager) && Contents(pager) == old(Contents(pager))
      ensures pages == old(pages)[page.index := old(pages)[page.index].(refs := old(pages)[page.index].refs - 1)]
    {
      RefsKeepView(pages, page.index, pages[page.index].refs - 1, EntrySize(), pager.data, len);
      pages := pages[page.index := pages[page.index].(refs := pages[page.index].refs - 1)];
    }

    /** One step of the read loop: copy out of the page that holds `cur`. */
    method ReadFromPage(pager: BlockStore, cur: nat, n: nat) returns (r: Result<seq<byte>>)
      requires Valid(pager) && n <= PAGE_SIZE - cur % PAGE_SIZE && cur + n <= len
      modifies this`pages, pager`transfers
      ensures Valid(pager) && Contents(pager) == old(Contents(pager))
      ensures old(pager.transfers) <= pager.transfers
      ensures r.Err? ==> n == 0 || pager.Failed(old(pager.transfers))
      ensures r.Ok? ==> r.value == Contents(pager)[cur..cur + n]
    {
      var offset := cur % PAGE_SIZE;
      PageInEntry(cur);
      EntrySplit(cur, EntrySize());
      var page := Alloc(pager, cur - offset);
      if page.Err? {
        return Err(page.error);
      }
      var Page(k, p) := page.value;
      var src := p * PAGE_SIZE + offset;
      var bytes := pages[k].data[src..src + n];
      assert bytes == Contents(pager)[cur..cur + n] by {
        EntrySlice(pages, k, src, n, EntrySize(), pager.data, len);
      }
      Release(pager, page.value);
      return Ok(bytes);
    }

    method ReadBytes(pager: BlockStore, addr: nat, count: nat) returns (r: Result<seq<byte>>)
      requires Valid(pager) && addr < U64_LIMIT && count < U64_LIMIT
      modifies this`pages, pager`transfers
      ensures Valid(pager) && Contents(pager) == old(Contents(pager))
      ensures addr + count > len ==> r == Err(EIO)
      ensures r.Err? && addr + count <= len ==> pager.Failed(old(pager.transfers))
      ensures r.Ok? ==> addr + count <= len && r.value == Contents(pager)[addr..addr + count]
    {
      if addr + count >= U64_LIMIT || len < addr + count {
        return Err(EIO);
      }
      var rdata, progress := [], 0;
      ghost var view := Contents(pager);
      while progress < count
        invariant 0 <= progress <= count
        invariant Valid(pager) && Contents(pager) == view
        invariant rdata == view[addr..addr + progress] && old(pager.transfers) <= pager.transfers
      {
        var cur := addr + progress;
        var copyLen := Min(PAGE_SIZE - cur % PAGE_SIZE, count - progress);
        var bytes := ReadFromPage(pager, cur, copyLen);
        if bytes.Err? {
          return bytes;
        }
        SliceRun(view, addr, cur, cur + copyLen);
        rdata := rdata + bytes.value;
        progress := progress + copyLen;
      }
      return Ok(rdata);
    }

    /** Mark the entry of a page dirty, if it is cached. */
    method MarkDirty(addr: nat)
      requires Geometry() && addr % PAGE_SIZE == 0
      modifies this`pages
      ensures var k := Index(addr).0;
              pages == if k in old(pages) then old(pages)[k := old(pages)[k].(dirty := true)] else old(pages)
    {
      var (k, _) := Index(addr);
      if k in pages {
        pages := pages[k := pages[k].(dirty := true)];
      }
    }

    /** Copy into the held page of the cache that holds `cur`, and mark it dirty before letting go of it. */
    method StoreInto(pager: BlockStore, cur: nat, bytes: seq<byte>)
      requires Valid(pager) && |bytes| <= PAGE_SIZE - cur % PAGE_SIZE && cur + |bytes| <= len
      requires Index(cur - cur % PAGE_SIZE).0 in pages
      modifies this`pages
      ensures Valid(pager) && Patched(old(Contents(pager)), Contents(pager), cur, bytes)
      ensures pages.Keys == old(pages.Keys) && forall k | k in pages :: pages[k].refs == old(pages[k].refs)
    {
      PageAligned(cur);
      var offset := cur % PAGE_SIZE;
      var (k, p) := Index(cur - offset);
      var dst := p * PAGE_SIZE + offset;
      PageInEntry(cur);
      ghost var size := EntrySize();
      EntrySplit(cur, size);
      WriteSplicesView(pages, k, dst, bytes, size, pager.data, len);
      ghost var written := pages[k := pages[k].(data := Splice(pages[k].data, dst, bytes), dirty := true)];
      assert Patched(Contents(pager), View(written, size, pager.data, len), cur, bytes);
      pages := pages[k := pages[k].(data := Splice(pages[k].data, dst, bytes))];
      MarkDirty(cur - offset);
      assert pages == written;
    }

    /** One step of the write loop: copy into the page that holds `cur`. */
    method WriteToPage(pager: BlockStore, cur: nat, bytes: seq<byte>) returns (r: Result<()>)
      requires Valid(pager) && |bytes| <= PAGE_SIZE - cur % PAGE_SIZE && cur + |bytes| <= len
      modifies this`pages, pager`transfers
      ensures Valid(pager)
      ensures old(pager.transfers) <= pager.transfers
      ensures r.Err? ==> |bytes| == 0 || pager.Failed(old(pager.transfers))
      ensures Patched(old(Contents(pager)), Contents(pager), cur, if r.Ok? then bytes else [])
    {
      PageAligned(cur);
      PageInEntry(cur);
      EntrySplit(cur, EntrySize());
      ghost var view := Contents(pager);
      var page := Alloc(pager, cur - cur % PAGE_SIZE);
      assert Contents(pager) == view;
      if page.Err? {
        return Err(page.error);
      }
      StoreInto(pager, cur, bytes);
      assert Patched(view, Contents(pager), cur, bytes);
      Release(pager, page.value);
      return Ok(());
    }

    /** A write that fails part way has written a prefix of its data and nothing else. */
    method WriteBytes(pager: BlockStore, addr: nat, wdata: seq<byte>) returns (r: Result<()>, ghost written: nat)
      requires Valid(pager) && addr < U64_LIMIT && |wdata| < U64_LIMIT
      modifies this`pages, pager`transfers
      ensures Valid(pager)
      ensures addr + |wdata| > len ==> r == Err(EIO) && written == 0
      ensures written <= |wdata| && (r.Ok? <==> written == |wdata| && addr + |wdata| <= len)
      ensures r.Err? && addr + |wdata| <= len ==> pager.Failed(old(pager.transfers))
      ensures Patched(old(Contents(pager)), Contents(pager), addr, wdata[..written])
    {
      written := 0;
      if addr + |wdata| >= U64_LIMIT || len < addr + |wdata| {
        return Err(EIO), 0;
      }
      var progress := 0;
      ghost var view := Contents(pager);
      while progress < |wdata|
        invariant 0 <= progress <= |wdata|
        invariant Valid(pager) && Patched(view, Contents(pager), addr, wdata[..progress])
        invariant old(pager.transfers) <= pager.transfers
      {
        ghost var before := Contents(pager);
        var cur := addr + progress;
        var copyLen := Min(PAGE_SIZE - cur % PAGE_SIZE, |wdata| - progress);
        var step := WriteToPage(pager, cur, wdata[progress..progress + copyLen]);
        if step.Err? {
          assert Contents(pager) == before;
          return step, progress;
        }
        PatchRun(view, before, Contents(pager), addr, wdata, progress, progress + copyLen);
        progress := progress + copyLen;
      }
      return Ok(()), progress;
    }

    /** The same loop with zeroes for data. */
    method WriteZeroes(pager: BlockStore, addr: nat, count: nat) returns (r: Result<()>, ghost written: nat)
      requires Valid(pager) && addr < U64_LIMIT && count < U64_LIMIT
      modifies this`pages, pager`transfers
      ensures Valid(pager)
      ensures addr + count > len ==> r == Err(EIO) && written == 0
      ensures written <= count && (r.Ok? <==> written == count && addr + count <= len)
      ensures r.Err? && addr + count <= len ==> pager.Failed(old(pager.transfers))
      ensures forall i | 0 <= i < len :: Contents(pager)[i] ==
                if addr <= i < addr + written then 0 else old(Contents(pager))[i]
    {
      r, written := WriteBytes(pager, addr, seq(count, _ => 0));
    }

    // -------------------------------------------------------------- write-back and eviction

    /** One step of the write-back loop; an entry past the end of the object cannot be written. */
    method SyncEntry(pager: BlockStore, index: nat) returns (r: Result<()>)
      requires Usable(pager)
      modifies this`pages, pager`transfers, pager`data
      ensures Usable(pager) && Seen(pager) == old(Seen(pager)) && OnlyCleaned(old(pages), pages)
      ensures (old(InStep(pager)) ==> InStep(pager)) && (old(Valid(pager)) ==> Valid(pager))
      ensures r.Ok? ==> index in pages ==> !pages[index].dirty
      ensures r == Err(ENXIO) <==> old(Stray(pages, index, EntrySize(), len))
      ensures forall k | k in pages && Base(k, EntrySize()) >= len :: pages[k] == old(pages)[k]
      ensures old(pager.transfers) <= pager.transfers
      ensures r.Err? && r.error != ENXIO ==> r.error == DeviceError && pager.Failed(old(pager.transfers))
      ensures r.Err? ==> index in pages && pages[index].dirty
    {
      if index !in pages || !(pages[index].dirty && !pages[index].writing) {
        return Ok(());
      }
      ghost var before, store := pages, pager.data;
      var memory := pages[index].data;
      pages := pages[index := pages[index].(dirty := false)];
      r := WriteToDisk(pager, index, memory);
      pages := pages[index := pages[index].(dirty := r.Err?)];
      assert pages == before[index := before[index].(dirty := r.Err?)];
      StoreChangeKeepsView(before, index, r.Err?, EntrySize(), store, pager.data, len);
    }

    method SyncList(pager: BlockStore, toSync: seq<nat>) returns (r: Result<()>)
      requires Usable(pager)
      modifies this`pages, pager`transfers, pager`data
      ensures Usable(pager) && Seen(pager) == old(Seen(pager)) && OnlyCleaned(old(pages), pages)
      ensures (old(InStep(pager)) ==> InStep(pager)) && (old(Valid(pager)) ==> Valid(pager))
      ensures r.Ok? ==> forall k | k in toSync && k in pages :: !pages[k].dirty
      ensures r.Ok? ==> forall k | k in toSync :: !old(Stray(pages, k, EntrySize(), len))
      ensures r == Err(ENXIO) ==> old(HasStray())
      ensures r.Err? ==> exists k | k in toSync :: k in pages && pages[k].dirty
      ensures r.Err? && r.error != ENXIO ==> r.error == DeviceError && pager.Failed(old(pager.transfers))
    {
      ghost var before := pages;
      for i := 0 to |toSync|
        invariant Usable(pager) && Seen(pager) == old(Seen(pager)) && OnlyCleaned(before, pages)
        invariant (old(InStep(pager)) ==> InStep(pager)) && (old(Valid(pager)) ==> Valid(pager))
        invariant old(pager.transfers) <= pager.transfers
        invariant forall k | k in pages && Base(k, EntrySize()) >= len :: pages[k] == before[k]
        invariant forall j | 0 <= j < i :: toSync[j] in pages ==> !pages[toSync[j]].dirty
        invariant forall j | 0 <= j < i :: !Stray(before, toSync[j], EntrySize(), len)
      {
        var step := SyncEntry(pager, toSync[i]);
        if step.Err? {
          assert toSync[i] in toSync;
          assert step == Err(ENXIO) ==> Stray(before, toSync[i], EntrySize(), len);
          return step;
        }
      }
      return Ok(());
    }

    /**
     * Write back the dirty entries of a range, clamped to the object.  A range that ends
     * past the last address overflows, and a checked build stops there.
     */
    method Sync(pager: BlockStore, addr: nat, count: nat) returns (r: Result<()>)
      requires Usable(pager) && addr < U64_LIMIT && count < U64_LIMIT
      modifies this`pages, pager`transfers, pager`data
      ensures Usable(pager) && Seen(pager) == old(Seen(pager)) && OnlyCleaned(old(pages), pages)
      ensures (old(InStep(pager)) ==> InStep(pager)) && (old(Valid(pager)) ==> Valid(pager))
      ensures r == Err(Overflow) <==> addr + Max(count - 1, 0) >= U64_LIMIT
      ensures r == Err(Overflow) ==> pages == old(pages) && pager.data == old(pager.data)
      ensures r == Err(ENXIO) ==> old(HasStray())
      ensures r.Err? && r.error != Overflow ==> exists k | k in pages :: pages[k].dirty
      ensures r.Err? && r.error !in {Overflow, ENXIO} ==> r.error == DeviceError && pager.Failed(old(pager.transfers))
      ensures r.Ok? && old(InStep(pager)) ==>
                forall i | addr <= i < addr + count && i < len :: pager.data[i] == Seen(pager)[i]
    {
      if addr + Max(count - 1, 0) >= U64_LIMIT {
        return Err(Overflow);
      }
      var first := Index(addr).0;
      var last := Index(Min(addr + Max(count - 1, 0), len)).0;
      var toSync := DirtyBetween(first, last);
      r := SyncList(pager, toSync);
      if r.Ok? && old(InStep(pager)) {
        forall i | addr <= i < addr + count && i < len
          ensures pager.data[i] == Seen(pager)[i]
        {
          assert first <= i / EntrySize() <= last by {
            DivMonotone(addr, i, EntrySize());
            DivMonotone(i, Min(addr + Max(count - 1, 0), len), EntrySize());
          }
          CleanByteIsStored(pages, EntrySize(), pager.data, len, i);
        }
      }
    }

    /** The dirty entries from number `first` up to `last`. */
    method DirtyBetween(first: nat, last: nat) returns (toSync: seq<nat>)
      ensures forall k | k in toSync :: k in pages
      ensures forall k | first <= k <= last && k in pages && pages[k].dirty :: k in toSync
    {
      toSync := [];
      var index := first;
      while index < last + 1
        invariant first <= index
        invariant forall k | k in toSync :: k in pages
        invariant forall k | first <= k < index && k in pages && pages[k].dirty :: k in toSync
        decreases last + 1 - index
      {
        if index in pages && pages[index].dirty {
          toSync := toSync + [index];
        }
        index := index + 1;
      }
    }

    /**
     * Write back everything.  If that succeeds, the store is the object.  It fails for want of
     * an address if and only if an entry past the end is dirty, unless a transfer fails first.
     */
    method SyncAll(pager: BlockStore) returns (r: Result<()>)
      requires Usable(pager)
      modifies this`pages, pager`transfers, pager`data
      ensures Usable(pager) && Seen(pager) == old(Seen(pager)) && OnlyCleaned(old(pages), pages)
      ensures (old(InStep(pager)) ==> InStep(pager)) && (old(Valid(pager)) ==> Valid(pager))
      ensures r.Err? ==> exists k | k in pages :: pages[k].dirty
      ensures r == Err(ENXIO) ==> old(HasStray())
      ensures old(HasStray()) ==> r == Err(ENXIO) || (r == Err(DeviceError) && pager.Failed(old(pager.transfers)))
      ensures r.Err? && r.error != ENXIO ==> r.error == DeviceError && pager.Failed(old(pager.transfers))
      ensures r.Ok? ==> forall k | k in pages :: !pages[k].dirty
      ensures r.Ok? && old(InStep(pager)) ==> pager.data[..len] == Seen(pager)
    {
      var toSync := DirtyAll();
      if HasStray() {
        var k :| Stray(pages, k, EntrySize(), len);
        assert k in toSync;
      }
      r := SyncList(pager, toSync);
      if r.Ok? && InStep(pager) {
        CleanViewIsStore(pages, EntrySize(), pager.data, len);
      }
    }

    method DirtyAll() returns (toSync: seq<nat>)
      ensures forall k | k in pages && pages[k].dirty :: k in toSync
    {
      toSync := [];
      var rest := pages.Keys;
      while rest != {}
        invariant rest <= pages.Keys
        invariant forall k | k in pages && k !in rest && pages[k].dirty :: k in toSync
        decreases rest
      {
        var k :| k in rest;
        rest := rest - {k};
        if pages[k].dirty {
          toSync := toSync + [k];
        }
      }
    }

    /** Evict the clean entries that nobody references. */
    method Flush(pager: BlockStore)
      requires Valid(pager)
      modifies this`pages
      ensures Valid(pager) && Contents(pager) == old(Contents(pager))
      ensures pages == map k | k in old(pages) && (old(pages)[k].dirty || old(pages)[k].refs != 0) :: old(pages)[k]
    {
      var toRemove, rest := {}, pages.Keys;
      while rest != {}
        invariant rest <= pages.Keys
        invariant toRemove == set k | k in pages.Keys - rest && !pages[k].dirty && pages[k].refs == 0
        decreases rest
      {
        var k :| k in rest;
        rest := rest - {k};
        if !(pages[k].dirty || pages[k].writing || pages[k].reading) && pages[k].refs == 0 {
          toRemove := toRemove + {k};
        }
      }
      DropCleanKeepsView(pages, pages - toRemove, EntrySize(), pager.data, len);
      pages := pages - toRemove;
    }

    // -------------------------------------------------------------- changing the length

    /**
     * Change the length.  Shrinking trims the entry the new end falls in and evicts
     * the entries past it, except that an entry with live references is left behind.
     */
    method SetLen(newLen: nat)
      requires Geometry() && Shaped(pages, EntrySize())
      modifies this`pages, this`len
      ensures len == newLen
      ensures newLen >= old(len) ==> pages == old(pages)
      ensures newLen < old(len) ==> TruncatedTo(old(pages), pages, EntrySize(), newLen)
    {
      var oldLen := len;
      len := newLen;
      if newLen >= oldLen {
        return;
      }
      var size := EntrySize();
      ghost var before := pages;
      ZeroPartial(newLen);
      ghost var trimmed := pages;
      var firstInvalid := CeilDiv(newLen, size);
      var toRemove, rest := {}, pages.Keys;
      while rest != {}
        invariant rest <= pages.Keys
        invariant toRemove == set k | k in pages.Keys - rest && k >= firstInvalid && pages[k].refs == 0
        decreases rest
      {
        var k :| k in rest;
        rest := rest - {k};
        if k >= firstInvalid && pages[k].refs == 0 {
          toRemove := toRemove + {k};
        }
      }
      forall k: nat
        ensures k >= firstInvalid <==> Base(k, size) >= newLen
      {
        FirstInvalid(k, newLen, size);
      }
      pages := pages - toRemove;
    }

    /** Zero the part of the entry that the new end falls in. */
    method ZeroPartial(newLen: nat)
      requires Geometry() && Shaped(pages, EntrySize())
      modifies this`pages
      ensures pages.Keys == old(pages.Keys)
      ensures forall k | k in pages ::
                pages[k] == if Base(k, EntrySize()) < newLen
                            then Trimmed(old(pages)[k], Base(k, EntrySize()), newLen) else old(pages)[k]
    {
      PagesOfEntry();
      var size := PAGE_SIZE * Pow2(entryPagesExp);
      EntrySplit(newLen, size);
      var partial, zeroFrom := newLen / size, newLen % size;
      ghost var before := pages;
      if zeroFrom != 0 && partial in pages && !pages[partial].reading {
        var e := pages[partial];
        pages := pages[partial := e.(data := e.data[..zeroFrom] + seq(size - zeroFrom, _ => 0))];
        assert pages[partial].data == Trimmed(e, Base(partial, size), newLen).data;
      }
      forall k | k in pages && k != partial && Base(k, size) < newLen
        ensures before[k].data == Trimmed(before[k], Base(k, size), newLen).data
      {
        if k < partial {
          BaseOrder(k, partial, size);
        } else {
          BaseOrder(partial, k, size);
        }
      }
    }
  }

  lemma FirstInvalid(k: nat, len: nat, size: nat)
    requires size > 0
    ensures k >= CeilDiv(len, size) <==> Base(k, size) >= len
  {
    CeilDivCovers(len, size);
    if k >= CeilDiv(len, size) {
      MulOrder(CeilDiv(len, size), k, size);
    } else {
      MulOrder(k, CeilDiv(len, size) - 1, size);
      assert (CeilDiv(len, size) - 1) * size == CeilDiv(len, size) * size - size;
    }
  }

  /** Resize the store and, if that succeeds, the cache. */
  method ResizeBoth(cache: PageCache, pager: BlockStore, newLen: nat) returns (ok: bool)
    requires cache.Attached(pager) && Shaped(cache.pages, cache.EntrySize()) && newLen < U64_LIMIT
    modifies cache`pages, cache`len, pager`data, pager`transfers
    ensures pager.transfers == old(pager.transfers) + 1 && (ok <==> !pager.fails(old(pager.transfers)))
    ensures pager.Valid() && Min(old(cache.len), newLen) <= |pager.data|
    ensures !ok ==> cache.pages == old(cache.pages) && cache.len == old(cache.len)
    ensures forall i | 0 <= i < Min(old(cache.len), newLen) :: pager.data[i] == old(pager.data)[i]
    ensures ok ==>
      && cache.Attached(pager) && cache.len == newLen
      && (forall i | 0 <= i < newLen :: pager.data[i] == if i < old(cache.len) then old(pager.data)[i] else 0)
      && if newLen < old(cache.len) then TruncatedTo(old(cache.pages), cache.pages, cache.EntrySize(), newLen)
         else cache.pages == old(cache.pages)
  {
    ok := pager.Resize(cache.len, newLen);
    if ok {
      cache.SetLen(newLen);
    }
  }

  /**
   * A file resize.  What readers see is the old contents cut or extended with zeroes; the
   * cache stays coherent for later growth if and only if nothing is pinned past the new end.
   * If the file system fails, the cache is as before, and what is below both lengths reads
   * as before.
   */
  method ResizeFile(cache: PageCache, pager: BlockStore, newLen: nat) returns (ok: bool)
    requires cache.Valid(pager) && newLen < U64_LIMIT
    modifies cache`pages, cache`len, pager`data, pager`transfers
    ensures ok <==> !pager.fails(old(pager.transfers))
    ensures Shaped(cache.pages, cache.EntrySize()) && Min(old(cache.len), newLen) <= |pager.data|
    ensures !ok ==> cache.pages == old(cache.pages) && cache.len == old(cache.len)
    ensures !ok ==>
      var m := Min(cache.len, newLen);
      View(cache.pages, cache.EntrySize(), pager.data, m) == old(cache.Contents(pager))[..m]
    ensures ok ==>
      && cache.Usable(pager) && cache.InStep(pager) && cache.len == newLen
      && cache.Seen(pager) == Resized(old(cache.Contents(pager)), newLen)
      && (cache.Valid(pager) <==> Unpinned(old(cache.pages), cache.EntrySize(), newLen))
  {
    ghost var pages, size, store, oldLen := cache.pages, cache.EntrySize(), pager.data, cache.len;
    ok := ResizeBoth(cache, pager, newLen);
    if ok {
      ResizeView(pages, cache.pages, size, store, pager.data, oldLen, newLen);
    }
  }

  /**
   * Two resizes, down to `n` and up to `m`.  Readers see the first `n` bytes and zeroes after
   * them if and only if every entry still referenced past `n` is zero as far as `m`.
   */
  method ShrinkAndGrow(cache: PageCache, pager: BlockStore, n: nat, m: nat) returns (ok: bool)
    requires cache.Valid(pager) && n <= cache.len && n <= m < U64_LIMIT
    modifies cache`pages, cache`len, pager`data, pager`transfers
    ensures ok <==> !pager.fails(old(pager.transfers)) && !pager.fails(old(pager.transfers) + 1)
    ensures ok ==>
      && cache.Attached(pager) && Shaped(cache.pages, cache.EntrySize()) && cache.len == m
      && (View(cache.pages, cache.EntrySize(), pager.data, m) == Resized(old(cache.Contents(pager))[..n], m)
          <==> PinnedZero(old(cache.pages), cache.EntrySize(), n, m))
  {
    ghost var pages, size, store, oldLen := cache.pages, cache.EntrySize(), pager.data, cache.len;
    ok := ResizeBoth(cache, pager, n);
    if !ok {
      return;
    }
    ghost var after := cache.pages;
    if n == oldLen {
      WholeIsTruncated(pages, size, store, oldLen);
    }
    TruncateKeepsPrefix(pages, after, size, store, oldLen, n);
    ok := ResizeBoth(cache, pager, m);
    if ok {
      RegrowIff(pages, after, size, store, pager.data, oldLen, n, m);
    }
  }
}
