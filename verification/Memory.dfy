/**
 * Copying, moving and comparing memory, as in src/misc/string.rs: chunks of `unroll`
 * elements of `size` bytes at a time, then single elements, then single bytes.
 * Memory is one array, and a pointer is an index into it.
 */
module Memories {
  import opened Common
  import opened Bits

  /**
   * Bytes `lo` up to `hi` of the block at `src` have been copied to the block at `dest`, and
   * nothing else has changed.
   */
  ghost predicate Copied(before: seq<byte>, now: seq<byte>, dest: nat, src: nat, lo: int, hi: int)
    requires 0 <= lo <= hi && dest + hi <= |before| && src + hi <= |before|
  {
    && |now| == |before|
    && (forall a | dest + lo <= a < dest + hi :: now[a] == before[src + (a - dest)])
    && (forall a | 0 <= a < |now| && !(dest + lo <= a < dest + hi) :: now[a] == before[a])
  }

  /** Read `n` bytes, then write them: an element, or the elements of an unrolled chunk. */
  method MoveChunk(mem: array<byte>, dest: nat, src: nat, n: nat)
    requires dest + n <= mem.Length && src + n <= mem.Length
    modifies mem
    ensures Copied(old(mem[..]), mem[..], dest, src, 0, n)
  {
    var tmp := mem[src..src + n];
    forall i | 0 <= i < n {
      mem[dest + i] := tmp[i];
    }
  }

  /** Going up is safe if the destination starts below the source, or the blocks are apart. */
  lemma CopyUp(before: seq<byte>, mid: seq<byte>, after: seq<byte>, dest: nat, src: nat, len: nat, index: nat, n: nat)
    requires dest <= src || src + len <= dest
    requires dest + len <= |before| && src + len <= |before| && index + n <= len
    requires Copied(before, mid, dest, src, 0, index) && Copied(mid, after, dest + index, src + index, 0, n)
    ensures Copied(before, after, dest, src, 0, index + n)
  {
    forall a | dest + index <= a < dest + index + n
      ensures 0 <= a < |after| && after[a] == before[src + (a - dest)]
    {
      assert mid[src + (a - dest)] == before[src + (a - dest)];
      assert after[a] == mid[src + index + (a - (dest + index))];
    }
  }

  /** Going down is safe if the destination starts above the source. */
  lemma CopyDown(before: seq<byte>, mid: seq<byte>, after: seq<byte>, dest: nat, src: nat, len: nat, index: nat, n: nat)
    requires src <= dest && dest + len <= |before| && src + len <= |before| && index + n <= len
    requires Copied(before, mid, dest, src, index + n, len) && Copied(mid, after, dest + index, src + index, 0, n)
    ensures Copied(before, after, dest, src, index, len)
  {
    forall a | dest + index <= a < dest + index + n
      ensures 0 <= a < |after| && after[a] == before[src + (a - dest)]
    {
      assert mid[src + (a - dest)] == before[src + (a - dest)];
      assert after[a] == mid[src + index + (a - (dest + index))];
    }
  }

  /** Copy up from `from`, `n` bytes at a time, while as many are left. */
  method CopyUpBy(mem: array<byte>, dest: nat, src: nat, len: nat, from: nat, n: nat,
                  ghost before: seq<byte>) returns (index: nat)
    requires |before| == mem.Length && dest + len <= mem.Length && src + len <= mem.Length && n > 0 && from <= len
    requires dest <= src || src + len <= dest
    requires Copied(before, mem[..], dest, src, 0, from)
    modifies mem
    ensures index <= len < index + n && Copied(before, mem[..], dest, src, 0, index)
  {
    index := from;
    while index + n <= len
      invariant index <= len && Copied(before, mem[..], dest, src, 0, index)
    {
      ghost var mid := mem[..];
      MoveChunk(mem, dest + index, src + index, n);
      CopyUp(before, mid, mem[..], dest, src, len, index, n);
      index := index + n;
    }
  }

  method CopyForward(mem: array<byte>, dest: nat, src: nat, len: nat, exp: nat, unroll: nat)
    requires dest + len <= mem.Length && src + len <= mem.Length && unroll > 0
    requires dest <= src || src + len <= dest
    modifies mem
    ensures Copied(old(mem[..]), mem[..], dest, src, 0, len)
  {
    var size := Pow2(exp);
    MulGrows(unroll, size);
    var index := CopyUpBy(mem, dest, src, len, 0, unroll * size, mem[..]);
    if size > 1 {
      index := CopyUpBy(mem, dest, src, len, index, size, old(mem[..]));
    }
    index := CopyUpBy(mem, dest, src, len, index, 1, old(mem[..]));
  }

  lemma ModStep(m: nat, n: nat)
    requires n > 0
    ensures m >= n ==> (m - n) % n == m % n
    ensures m < n ==> m % n == m
  {
    DivMod(m, n);
    if m >= n {
      MulAdd(m / n - 1, 1, n);
      DivModUnique(m - n, n, m / n - 1, m % n);
    } else {
      DivModUnique(m, n, 0, m);
    }
  }

  method MoveDown(mem: array<byte>, dest: nat, src: nat, len: nat, index: nat, n: nat, ghost before: seq<byte>)
    requires |before| == mem.Length && dest + len <= mem.Length && src + len <= mem.Length && src <= dest
    requires index + n <= len && Copied(before, mem[..], dest, src, index + n, len)
    modifies mem
    ensures Copied(before, mem[..], dest, src, index, len)
  {
    ghost var mid := mem[..];
    MoveChunk(mem, dest + index, src + index, n);
    CopyDown(before, mid, mem[..], dest, src, len, index, n);
  }

  /** Copy down from `from` to `stop`, `n` bytes at a time. */
  method CopyDownTo(mem: array<byte>, dest: nat, src: nat, len: nat, from: nat, stop: nat, n: nat,
                    ghost before: seq<byte>)
    requires |before| == mem.Length && dest + len <= mem.Length && src + len <= mem.Length && src <= dest
    requires n > 0 && stop <= from <= len && (from - stop) % n == 0
    requires Copied(before, mem[..], dest, src, from, len)
    modifies mem
    ensures Copied(before, mem[..], dest, src, stop, len)
  {
    var index := from;
    while index > stop
      invariant stop <= index <= len && (index - stop) % n == 0
      invariant Copied(before, mem[..], dest, src, index, len)
    {
      ModStep(index - stop, n);
      index := index - n;
      MoveDown(mem, dest, src, len, index, n, before);
    }
  }

  /** Copy down from `from`, `n` bytes at a time, until nothing is left or fewer than `n` bytes are. */
  method CopyDownChunks(mem: array<byte>, dest: nat, src: nat, len: nat, from: nat, n: nat,
                        ghost before: seq<byte>) returns (ok: bool)
    requires |before| == mem.Length && dest + len <= mem.Length && src + len <= mem.Length && src <= dest
    requires n > 0 && from <= len && Copied(before, mem[..], dest, src, from, len)
    modifies mem
    ensures ok <==> from % n == 0
    ensures 0 <= from % n <= len && Copied(before, mem[..], dest, src, from % n, len)
  {
    var index := from;
    while index > 0
      invariant 0 <= index <= len && index % n == from % n
      invariant Copied(before, mem[..], dest, src, index, len)
    {
      ModStep(index, n);
      if index < n {
        return false;
      }
      index := index - n;
      MoveDown(mem, dest, src, len, index, n, before);
    }
    return true;
  }

  /** Rounding down twice, and what is left in between. */
  lemma RoundDownSteps(len: nat, size: nat, unroll: nat)
    requires size > 0 && unroll > 0
    ensures unroll * size > 0
    ensures var whole, chunks := len - len % size, len - len % (unroll * size);
            && 0 <= chunks <= whole <= len
            && (whole - chunks) % size == 0 && chunks % (unroll * size) == 0
  {
    MulGrows(unroll, size);
    var chunk := unroll * size;
    DivMod(len, size);
    DivMod(len, chunk);
    DivModTwoStage(len, size, unroll);
    assert size * unroll == chunk;
    var k := len / size % unroll;
    DivModUnique(k * size, size, k, 0);
    MulNonNeg(k, size);
    DivModUnique(len / chunk * chunk, chunk, len / chunk, 0);
  }

  /** Where the loops of the copy downwards stop. */
  lemma ReverseStops(len: nat, exp: nat, unrollExp: nat)
    ensures var size, chunk := Pow2(exp), Pow2(unrollExp) * Pow2(exp);
            var whole, chunks := AndNot(len, size - 1), AndNot(len, chunk - 1);
            && chunk > 0 && chunks <= whole <= len && (whole - chunks) % size == 0 && chunks % chunk == 0
            && if exp == 0 then size == 1 && whole == len && chunk == Pow2(unrollExp) else size > 1
  {
    RoundDownSteps(len, Pow2(exp), Pow2(unrollExp));
    Pow2Add(unrollExp, exp);
    MaskRoundsDown(len, exp);
    MaskRoundsDown(len, unrollExp + exp);
  }

  /**
   * The copy downwards.  With elements of one byte, the loop for single elements is
   * skipped, and the last loop steps below zero unless the length is a multiple of
   * the unrolling; `ok` says that it did not.
   */
  method CopyReverse(mem: array<byte>, dest: nat, src: nat, len: nat, exp: nat, unrollExp: nat) returns (ok: bool)
    requires dest + len <= mem.Length && src + len <= mem.Length && src <= dest
    modifies mem
    ensures ok <==> exp > 0 || len % Pow2(unrollExp) == 0
    ensures ok ==> Copied(old(mem[..]), mem[..], dest, src, 0, len)
  {
    var size, unroll := Pow2(exp), Pow2(unrollExp);
    ReverseStops(len, exp, unrollExp);
    var index := AndNot(len, size - 1);
    ModStep(len - index, 1);
    CopyDownTo(mem, dest, src, len, len, index, 1, mem[..]);
    if size > 1 {
      var stop := AndNot(len, unroll * size - 1);
      CopyDownTo(mem, dest, src, len, index, stop, size, old(mem[..]));
      index := stop;
    }
    ok := CopyDownChunks(mem, dest, src, len, index, unroll * size, old(mem[..]));
  }

  // ---------------------------------------------------------------- moving

  /** The element size for two addresses, as a power of two. */
  function ElementExp(dest: nat, src: nat, fastUnaligned: bool): nat {
    var align := Or(dest, src);
    if fastUnaligned || And(align, 7) == 0 then 3
    else if And(align, 3) == 0 then 2
    else if And(align, 1) == 0 then 1
    else 0
  }

  /** The blocks overlap so that only a copy downwards is safe. */
  predicate MustReverse(dest: nat, src: nat, len: nat) { src < dest < src + len }

  /**
   * Move `len` bytes.  For all overlaps, the destination gets what the source held and
   * nothing else changes, except in one case, where the copy downwards goes wrong.
   */
  method Memmove(mem: array<byte>, dest: nat, src: nat, len: nat, fastUnaligned: bool,
                 unrollExp: nat) returns (ok: bool)
    requires dest + len <= mem.Length && src + len <= mem.Length
    modifies mem
    ensures ok
       <==> !MustReverse(dest, src, len) || ElementExp(dest, src, fastUnaligned) > 0 || len % Pow2(unrollExp) == 0
    ensures ok ==> Copied(old(mem[..]), mem[..], dest, src, 0, len)
  {
    ok := true;
    var exp := ElementExp(dest, src, fastUnaligned);
    if dest > src && src + len > dest {
      ok := CopyReverse(mem, dest, src, len, exp, unrollExp);
    } else if dest != src {
      CopyForward(mem, dest, src, len, exp, Pow2(unrollExp));
    }
  }

  lemma {:induction false} OrMod(a: nat, b: nat)
    ensures Or(a, b) % 2 == 0 <==> a % 2 == 0 && b % 2 == 0
  {
  }

  /** The one-byte case arises only for an odd address on a machine where unaligned access is slow. */
  lemma OneByteElements(dest: nat, src: nat, fastUnaligned: bool)
    ensures ElementExp(dest, src, fastUnaligned) == 0 <==> !fastUnaligned && (dest % 2 == 1 || src % 2 == 1)
  {
    var align := Or(dest, src);
    OrMod(dest, src);
    assert And(align, 1) == align % 2;
    assert And(align, 7) == 0 ==> align % 2 == 0;
    assert And(align, 3) == 0 ==> align % 2 == 0;
  }

  /** Two bytes moved up by one, with slow unaligned access and chunks of sixteen: the move goes wrong. */
  method MoveUpByOne() returns (ok: bool)
    ensures !ok
  {
    var mem := new byte[3];
    OneByteElements(1, 0, false);
    assert Pow2(4) == 16;
    ok := Memmove(mem, 1, 0, 2, false, 4);
  }

  // ---------------------------------------------------------------- comparing

  /** Whether `n` bytes at two addresses are the same. */
  predicate Same(mem: seq<byte>, lhs: nat, rhs: nat, n: nat)
    requires lhs + n <= |mem| && rhs + n <= |mem|
  {
    mem[lhs..lhs + n] == mem[rhs..rhs + n]
  }

  lemma SameMore(mem: seq<byte>, lhs: nat, rhs: nat, index: nat, n: nat)
    requires lhs + index + n <= |mem| && rhs + index + n <= |mem|
    requires Same(mem, lhs, rhs, index) && Same(mem, lhs + index, rhs + index, n)
    ensures Same(mem, lhs, rhs, index + n)
  {
    assert mem[lhs..lhs + (index + n)] == mem[lhs..lhs + index] + mem[lhs + index..lhs + index + n];
    assert mem[rhs..rhs + (index + n)] == mem[rhs..rhs + index] + mem[rhs + index..rhs + index + n];
  }

  lemma SameByte(mem: seq<byte>, lhs: nat, rhs: nat, index: nat, len: nat)
    requires lhs + len <= |mem| && rhs + len <= |mem| && index < len && Same(mem, lhs, rhs, index)
    ensures if mem[lhs + index] == mem[rhs + index] then Same(mem, lhs, rhs, index + 1) else !Same(mem, lhs, rhs, len)
  {
    if mem[lhs + index] == mem[rhs + index] {
      assert Same(mem, lhs + index, rhs + index, 1);
      SameMore(mem, lhs, rhs, index, 1);
    } else {
      assert mem[lhs..lhs + len][index] != mem[rhs..rhs + len][index];
    }
  }

  /** Skip equal chunks of `n` bytes. */
  method SkipEqual(mem: seq<byte>, lhs: nat, rhs: nat, len: nat, from: nat, n: nat) returns (index: nat)
    requires lhs + len <= |mem| && rhs + len <= |mem| && n > 0 && from <= len && Same(mem, lhs, rhs, from)
    ensures index <= len && Same(mem, lhs, rhs, index)
  {
    index := from;
    while index + n <= len
      invariant index <= len && Same(mem, lhs, rhs, index)
    {
      if !Same(mem, lhs + index, rhs + index, n) {
        break;
      }
      SameMore(mem, lhs, rhs, index, n);
      index := index + n;
    }
  }

  /** Zero for equal blocks, and otherwise the difference of the first bytes that differ. */
  method Memcmp(mem: seq<byte>, lhs: nat, rhs: nat, len: nat, exp: nat, unroll: nat) returns (r: int)
    requires lhs + len <= |mem| && rhs + len <= |mem| && unroll > 0
    ensures r == 0 <==> Same(mem, lhs, rhs, len)
    ensures r != 0 ==> exists k: nat | k < len ::
              Same(mem, lhs, rhs, k) && r == mem[lhs + k] as int - mem[rhs + k] as int
  {
    var size := Pow2(exp);
    MulGrows(unroll, size);
    assert Same(mem, lhs, rhs, 0);
    var index := SkipEqual(mem, lhs, rhs, len, 0, unroll * size);
    if size > 1 {
      index := SkipEqual(mem, lhs, rhs, len, index, size);
    }
    while index < len
      invariant index <= len && Same(mem, lhs, rhs, index)
    {
      r := mem[lhs + index] as int - mem[rhs + index] as int;
      SameByte(mem, lhs, rhs, index, len);
      if r != 0 {
        return;
      }
      index := index + 1;
    }
    return 0;
  }
}
