/**
 * The backing store behind a page cache: a byte array of whole blocks, as the
 * `Pager` contract describes it.  Transfers may fail; which ones, and what a
 * failed write leaves in the blocks it was meant to fill, is arbitrary.
 */
module BlockStores {
  import opened Common

  class BlockStore {
    const blockSize: nat
    /** Whether transfer number `n` fails. */
    const fails: nat -> bool
    /** What failed transfer number `n` leaves at byte `i` of its range. */
    const torn: (nat, nat) -> byte
    var transfers: nat
    var data: seq<byte>

    ghost predicate Valid()
      reads this
    {
      blockSize > 0 && |data| % blockSize == 0
    }

    /** A transfer has failed since there had been `n` of them. */
    ghost predicate Failed(n: nat)
      reads this
    {
      exists t | n <= t < transfers :: fails(t)
    }

    constructor (blockSize: nat, fails: nat -> bool, torn: (nat, nat) -> byte, blocks: nat)
      requires blockSize > 0
      ensures Valid() && this.blockSize == blockSize
      ensures |data| == blocks * blockSize && forall i | 0 <= i < |data| :: data[i] == 0
    {
      this.blockSize, this.fails, this.torn := blockSize, fails, torn;
      transfers := 0;
      MulNonNeg(blocks, blockSize);
      data := seq(blocks * blockSize, _ => 0);
      DivModUnique(blocks * blockSize, blockSize, blocks, 0);
    }

    method ReadBlocks(start: nat, count: nat) returns (ok: bool, bytes: seq<byte>)
      requires Valid() && 0 <= (start + count) * blockSize <= |data|
      modifies this`transfers
      ensures Valid()
      ensures 0 <= start * blockSize <= (start + count) * blockSize
      ensures transfers == old(transfers) + 1 && (ok <==> !fails(old(transfers)))
      ensures ok ==> bytes == data[start * blockSize..(start + count) * blockSize]
    {
      ok := !fails(transfers);
      transfers := transfers + 1;
      assert (start + count) * blockSize == start * blockSize + count * blockSize;
      MulNonNeg(count, blockSize);
      MulNonNeg(start, blockSize);
      bytes := data[start * blockSize..(start + count) * blockSize];
    }

    /** A failed write leaves arbitrary bytes in its own range and touches nothing else. */
    method WriteBlocks(start: nat, bytes: seq<byte>) returns (ok: bool)
      requires Valid() && 0 <= start * blockSize && start * blockSize + |bytes| <= |data|
      modifies this`transfers, this`data
      ensures Valid() && |data| == old(|data|)
      ensures transfers == old(transfers) + 1 && (ok <==> !fails(old(transfers)))
      ensures ok ==> data == Splice(old(data), start * blockSize, bytes)
      ensures forall i | 0 <= i < |data| && !(start * blockSize <= i < start * blockSize + |bytes|) ::
                data[i] == old(data)[i]
    {
      ok := !fails(transfers);
      var n := transfers;
      var written := if ok then bytes else seq(|bytes|, i requires 0 <= i => torn(n, i));
      data := Splice(data, start * blockSize, written);
      transfers := transfers + 1;
    }

    /**
     * The resize a file system performs before it tells the cache: enough whole blocks for
     * `newLen` bytes, with every byte from the old length on zero.  One that fails part way
     * keeps the bytes below both lengths; it leaves the old blocks or the new ones, and past
     * those bytes anything.
     */
    method Resize(oldLen: nat, newLen: nat) returns (ok: bool)
      requires Valid() && oldLen <= |data|
      modifies this`transfers, this`data
      ensures transfers == old(transfers) + 1 && (ok <==> !fails(old(transfers)))
      ensures Valid() && Min(oldLen, newLen) <= |data| && (ok ==> newLen <= |data|)
      ensures ok ==> forall i | 0 <= i < newLen :: data[i] == if i < oldLen then old(data)[i] else 0
      ensures forall i | 0 <= i < Min(oldLen, newLen) :: data[i] == old(data)[i]
    {
      ok := !fails(transfers);
      var n, before := transfers, data;
      transfers := transfers + 1;
      var blocks := CeilDiv(newLen, blockSize);
      CeilDivCovers(newLen, blockSize);
      DivModUnique(blocks * blockSize, blockSize, blocks, 0);
      if ok {
        data := seq(blocks * blockSize, i requires 0 <= i => if i < oldLen then before[i] else 0);
      } else {
        var size := if torn(n, 0) == 0 then |data| else blocks * blockSize;
        data := seq(size, i requires 0 <= i => if i < Min(oldLen, newLen) then before[i] else torn(n, i));
      }
    }
  }
}
