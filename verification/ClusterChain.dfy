/**
 * File data on a FAT volume, as in src/filesystem/fatfs/cluster.rs: a chain of
 * clusters kept as runs, and reads and writes that go run by run.  The model of a
 * file is the sequence of its clusters; byte `p` of the file is byte
 * `Addr(p)` of the media.
 */
module ClusterChains {
  import opened Common

  /** A run: file clusters from `offset` on are the media clusters `first` up to `end`. */
  datatype Link = Link(offset: nat, first: nat, end: nat)

  // ---------------------------------------------------------------- runs and clusters

  function Size(l: Link): int { l.end - l.first }

  ghost predicate LinkOk(l: Link, clusters: seq<nat>) {
    && l.first < l.end && l.offset + Size(l) <= |clusters|
    && forall k | l.offset <= k < l.offset + Size(l) :: clusters[k] == l.first + (k - l.offset)
  }

  /** Where the run after run `i` starts. */
  function After(data: seq<Link>, i: int): int
    requires -1 <= i < |data|
  {
    if i < 0 then 0 else data[i].offset + Size(data[i])
  }

  predicate Joined(data: seq<Link>, i: int)
    requires 0 <= i < |data|
  {
    data[i].offset == After(data, i - 1)
  }

  /** The runs follow each other without gap and spell out the first `n` clusters. */
  ghost predicate TiledTo(data: seq<Link>, clusters: seq<nat>, n: int) {
    && 0 <= n <= |clusters|
    && (forall i {:trigger LinkOk(data[i], clusters)} | 0 <= i < |data| :: LinkOk(data[i], clusters))
    && (forall i {:trigger Joined(data, i)} | 0 <= i < |data| :: Joined(data, i))
    && After(data, |data| - 1) == n
  }

  ghost predicate Tiled(data: seq<Link>, clusters: seq<nat>) {
    TiledTo(data, clusters, |clusters|)
  }

  lemma {:induction false} TiledOrder(data: seq<Link>, clusters: seq<nat>, n: int, i: int, j: int)
    requires TiledTo(data, clusters, n) && 0 <= i < j < |data|
    ensures After(data, i) <= data[j].offset
    decreases j
  {
    assert Joined(data, j);
    if i < j - 1 {
      TiledOrder(data, clusters, n, i, j - 1);
      assert LinkOk(data[j - 1], clusters);
    }
  }

  lemma TiledDrop(data: seq<Link>, clusters: seq<nat>, n: int)
    requires TiledTo(data, clusters, n) && data != []
    ensures TiledTo(data[..|data| - 1], clusters, n - Size(data[|data| - 1]))
  {
    assert LinkOk(data[|data| - 1], clusters) && Joined(data, |data| - 1);
    TiledLow(data, data[..|data| - 1], clusters, n, |data| - 1);
  }

  /** Runs in common keep their place. */
  lemma TiledLow(data: seq<Link>, after: seq<Link>, clusters: seq<nat>, n: int, m: nat)
    requires TiledTo(data, clusters, n) && m <= |data| && m <= |after| && forall i | 0 <= i < m :: after[i] == data[i]
    ensures forall i {:trigger LinkOk(after[i], clusters)} | 0 <= i < m :: LinkOk(after[i], clusters)
    ensures forall i {:trigger Joined(after, i)} | 0 <= i < m :: Joined(after, i)
  {
    forall i | 0 <= i < m
      ensures LinkOk(after[i], clusters) && Joined(after, i)
    {
      assert LinkOk(data[i], clusters) && Joined(data, i);
    }
  }

  lemma TiledCut(data: seq<Link>, clusters: seq<nat>, n: int, amount: nat)
    requires TiledTo(data, clusters, n) && data != [] && amount < Size(data[|data| - 1])
    ensures var last := data[|data| - 1];
            TiledTo(data[|data| - 1 := last.(end := last.end - amount)], clusters, n - amount)
  {
    var k, last := |data| - 1, data[|data| - 1];
    var after := data[k := last.(end := last.end - amount)];
    assert LinkOk(data[k], clusters) && Joined(data, k);
    TiledLow(data, after, clusters, n, k);
    assert LinkOk(after[k], clusters) && Joined(after, k);
  }

  lemma TiledMore(data: seq<Link>, clusters: seq<nat>, cluster: nat)
    requires Tiled(data, clusters)
    ensures TiledTo(data, clusters + [cluster], |clusters|)
  {
    forall i {:trigger LinkOk(data[i], clusters + [cluster])} | 0 <= i < |data|
      ensures LinkOk(data[i], clusters + [cluster])
    {
      assert LinkOk(data[i], clusters);
    }
  }

  /** The last run takes in the next cluster. */
  lemma TiledGrow(data: seq<Link>, clusters: seq<nat>)
    requires clusters != [] && TiledTo(data, clusters, |clusters| - 1)
    requires data != [] && data[|data| - 1].end == clusters[|clusters| - 1]
    ensures var last := data[|data| - 1];
            Tiled(data[|data| - 1 := last.(end := last.end + 1)], clusters)
  {
    var k, last := |data| - 1, data[|data| - 1];
    var after := data[k := last.(end := last.end + 1)];
    assert LinkOk(data[k], clusters) && Joined(data, k);
    TiledLow(data, after, clusters, |clusters| - 1, k);
    assert LinkOk(after[k], clusters) && Joined(after, k);
  }

  /** A new run holds the next cluster. */
  lemma TiledAppend(data: seq<Link>, clusters: seq<nat>)
    requires clusters != [] && TiledTo(data, clusters, |clusters| - 1)
    ensures var c := clusters[|clusters| - 1];
            Tiled(data + [Link(After(data, |data| - 1), c, c + 1)], clusters)
  {
    var k, c := |data|, clusters[|clusters| - 1];
    var after := data + [Link(After(data, k - 1), c, c + 1)];
    TiledLow(data, after, clusters, |clusters| - 1, k);
    assert LinkOk(after[k], clusters) && Joined(after, k);
  }

  lemma TiledPrefix(data: seq<Link>, clusters: seq<nat>, n: int)
    requires TiledTo(data, clusters, n)
    ensures Tiled(data, clusters[..n])
  {
    forall i {:trigger LinkOk(data[i], clusters[..n])} | 0 <= i < |data|
      ensures LinkOk(data[i], clusters[..n])
    {
      assert LinkOk(data[i], clusters);
      assert After(data, i) <= n by {
        if i < |data| - 1 {
          TiledOrder(data, clusters, n, i, |data| - 1);
          assert LinkOk(data[|data| - 1], clusters);
        }
      }
    }
  }

  // ---------------------------------------------------------------- addresses

  /** The media address of byte `p` of a file. */
  function Addr(clusters: seq<nat>, size: nat, dataOffset: nat, p: nat): (a: int)
    requires size > 0 && p / size < |clusters|
  {
    dataOffset + clusters[p / size] * size + p % size
  }

  /** The media holds every cluster. */
  ghost predicate OnMedia(clusters: seq<nat>, size: nat, dataOffset: nat, capacity: nat) {
    forall i | 0 <= i < |clusters| :: dataOffset + clusters[i] * size + size <= capacity
  }

  /** How many bytes of a request at `offset` lie in the file. */
  function Served(clusters: seq<nat>, size: nat, offset: nat, count: nat): (n: nat)
    ensures n <= count
  {
    if |clusters| * size <= offset then 0 else Min(count, |clusters| * size - offset)
  }

  lemma BelowEnd(p: nat, n: nat, size: nat)
    requires size > 0
    ensures 0 <= p / size && (p / size < n <==> p < n * size)
  {
    DivMod(p, size);
    if p / size < n {
      MulOrder(p / size + 1, n, size);
      MulAdd(p / size, 1, size);
    } else {
      MulOrder(n, p / size, size);
    }
  }

  /** Within a run, media bytes follow each other as file bytes do. */
  lemma LinkAddr(l: Link, clusters: seq<nat>, size: nat, dataOffset: nat, p: nat)
    requires size > 0 && LinkOk(l, clusters) && l.offset * size <= p < (l.offset + Size(l)) * size
    ensures p / size < |clusters|
    ensures Addr(clusters, size, dataOffset, p) == dataOffset + l.first * size + (p - l.offset * size)
  {
    BelowEnd(p, l.offset + Size(l), size);
    BelowEnd(p, l.offset, size);
    var q := p / size;
    DivMod(p, size);
    MulAdd(l.first, q - l.offset, size);
    MulAdd(q - l.offset, l.offset, size);
  }

  ghost predicate Distinct(clusters: seq<nat>) {
    forall i, j | 0 <= i < j < |clusters| :: clusters[i] != clusters[j]
  }

  /** Media addresses tell clusters and offsets apart. */
  lemma AddrSplit(c: nat, r: nat, d: nat, s: nat, size: nat)
    requires r < size && s < size && c * size + r == d * size + s
    ensures c == d && r == s
  {
    DivModUnique(c * size + r, size, c, r);
    DivModUnique(c * size + r, size, d, s);
  }

  lemma AddrInjective(clusters: seq<nat>, size: nat, dataOffset: nat, p: nat, q: nat)
    requires size > 0 && p / size < |clusters| && q / size < |clusters| && Distinct(clusters)
    requires Addr(clusters, size, dataOffset, p) == Addr(clusters, size, dataOffset, q)
    ensures p == q
  {
    DivMod(p, size);
    DivMod(q, size);
    AddrSplit(clusters[p / size], p % size, clusters[q / size], q % size, size);
  }

  // ---------------------------------------------------------------- bytewise writing

  /** The media after the first `n` bytes of `w` are written one by one at `offset`. */
  ghost function Poked(bytes: seq<byte>, clusters: seq<nat>, size: nat, dataOffset: nat, offset: nat, w: seq<byte>,
                       n: nat): (r: seq<byte>)
    requires size > 0 && OnMedia(clusters, size, dataOffset, |bytes|)
    requires n <= |w| && n <= Served(clusters, size, offset, |w|)
    ensures |r| == |bytes|
  {
    if n == 0 then bytes
    else
      AddrInside(clusters, size, dataOffset, |bytes|, offset + n - 1);
      Poked(bytes, clusters, size, dataOffset, offset, w, n - 1)
      [Addr(clusters, size, dataOffset, offset + n - 1) := w[n - 1]]
  }

  lemma AddrInside(clusters: seq<nat>, size: nat, dataOffset: nat, capacity: nat, p: nat)
    requires size > 0 && OnMedia(clusters, size, dataOffset, capacity) && p < |clusters| * size
    ensures p / size < |clusters| && 0 <= Addr(clusters, size, dataOffset, p) < capacity
  {
    BelowEnd(p, |clusters|, size);
    MulNonNeg(clusters[p / size], size);
  }

  lemma SpliceGrow<T>(s: seq<T>, at: nat, w: seq<T>, n: nat, m: nat)
    requires m > 0 && n + m <= |w| && at + m <= |s|
    ensures Splice(s, at, w[n..n + m]) == Splice(s, at, w[n..n + m - 1])[at + m - 1 := w[n + m - 1]]
  {
    assert w[n..n + m] == w[n..n + m - 1] + [w[n + m - 1]];
  }

  /** A stretch inside a run lies in the file. */
  lemma RunServed(clusters: seq<nat>, size: nat, offset: nat, count: nat, l: Link, n: nat)
    requires LinkOk(l, clusters) && n <= count && offset + n <= (l.offset + Size(l)) * size
    ensures n <= Served(clusters, size, offset, count)
  {
    MulOrder(l.offset + Size(l), |clusters|, size);
  }

  /** The media address of the `m`-th byte of a stretch. */
  lemma PokeByte(clusters: seq<nat>, size: nat, dataOffset: nat, l: Link, p: nat, m: nat, at: int)
    requires size > 0 && LinkOk(l, clusters) && m > 0
    requires l.offset * size <= p && p + m <= (l.offset + Size(l)) * size
    requires at == dataOffset + l.first * size + (p - l.offset * size)
    ensures (p + m - 1) / size < |clusters| && Addr(clusters, size, dataOffset, p + m - 1) == at + m - 1
  {
    LinkAddr(l, clusters, size, dataOffset, p + m - 1);
  }

  /** One more byte of a stretch. */
  lemma PokeStep(bytes: seq<byte>, clusters: seq<nat>, size: nat, dataOffset: nat, offset: nat, w: seq<byte>,
                 n: nat, m: nat, at: nat, before: seq<byte>)
    requires size > 0 && OnMedia(clusters, size, dataOffset, |bytes|) && |before| == |bytes|
    requires m > 0 && n + m <= |w| && n + m <= Served(clusters, size, offset, |w|) && at + m <= |bytes|
    requires (offset + n + m - 1) / size < |clusters|
    requires Addr(clusters, size, dataOffset, offset + n + m - 1) == at + m - 1
    requires Poked(bytes, clusters, size, dataOffset, offset, w, n + m - 1) == Splice(before, at, w[n..n + m - 1])
    ensures Poked(bytes, clusters, size, dataOffset, offset, w, n + m) == Splice(before, at, w[n..n + m])
  {
    SpliceGrow(before, at, w, n, m);
  }

  /** Writing a stretch inside one run at once is writing it byte by byte. */
  lemma {:induction false} PokeRun(bytes: seq<byte>, clusters: seq<nat>, size: nat, dataOffset: nat, offset: nat,
                                   w: seq<byte>, l: Link, n: nat, m: nat)
    requires size > 0 && OnMedia(clusters, size, dataOffset, |bytes|) && LinkOk(l, clusters)
    requires n + m <= |w| && l.offset * size <= offset + n && offset + n + m <= (l.offset + Size(l)) * size
    ensures n + m <= Served(clusters, size, offset, |w|)
    ensures var at := dataOffset + l.first * size + (offset + n - l.offset * size);
            && 0 <= at && at + m <= |bytes|
            && Poked(bytes, clusters, size, dataOffset, offset, w, n + m)
            == Splice(Poked(bytes, clusters, size, dataOffset, offset, w, n), at, w[n..n + m])
    decreases m
  {
    RunInside(bytes, clusters, size, dataOffset, l, offset + n, m);
    RunServed(clusters, size, offset, |w|, l, n + m);
    var before := Poked(bytes, clusters, size, dataOffset, offset, w, n);
    var at := dataOffset + l.first * size + (offset + n - l.offset * size);
    if m == 0 {
      assert Splice(before, at, w[n..n]) == before;
    } else {
      PokeRun(bytes, clusters, size, dataOffset, offset, w, l, n, m - 1);
      PokeByte(clusters, size, dataOffset, l, offset + n, m, at);
      PokeStep(bytes, clusters, size, dataOffset, offset, w, n, m, at, before);
    }
  }

  /** Writing the first `k` bytes of such a stretch. */
  lemma TornRun(bytes: seq<byte>, clusters: seq<nat>, size: nat, dataOffset: nat, offset: nat, w: seq<byte>,
                l: Link, n: nat, m: nat, k: nat)
    requires size > 0 && OnMedia(clusters, size, dataOffset, |bytes|) && LinkOk(l, clusters) && k <= m
    requires n + m <= |w| && l.offset * size <= offset + n && offset + n + m <= (l.offset + Size(l)) * size
    ensures n + k <= Served(clusters, size, offset, |w|)
    ensures var at := dataOffset + l.first * size + (offset + n - l.offset * size);
            && 0 <= at && at + k <= |bytes|
            && Poked(bytes, clusters, size, dataOffset, offset, w, n + k)
            == Splice(Poked(bytes, clusters, size, dataOffset, offset, w, n), at, w[n..n + m][..k])
  {
    PokeRun(bytes, clusters, size, dataOffset, offset, w, l, n, k);
    assert w[n..n + m][..k] == w[n..n + k];
  }

  /** The media holds any stretch inside a run. */
  lemma RunInside(bytes: seq<byte>, clusters: seq<nat>, size: nat, dataOffset: nat, l: Link, p: nat, m: nat)
    requires size > 0 && OnMedia(clusters, size, dataOffset, |bytes|) && LinkOk(l, clusters)
    requires l.offset * size <= p && p + m <= (l.offset + Size(l)) * size
    ensures 0 <= dataOffset + l.first * size + (p - l.offset * size)
    ensures dataOffset + l.first * size + (p - l.offset * size) + m <= |bytes|
  {
    var last := l.offset + Size(l) - 1;
    assert clusters[last] == l.first + Size(l) - 1;
    MulNonNeg(l.first, size);
    MulAdd(l.first, Size(l) - 1, size);
    MulAdd(Size(l) - 1, 1, size);
    MulAdd(l.offset, Size(l), size);
  }

  // ---------------------------------------------------------------- what the bytewise write means

  /** A media byte outside the file is left alone. */
  lemma {:induction false} PokedElsewhere(bytes: seq<byte>, clusters: seq<nat>, size: nat, dataOffset: nat, offset: nat,
                                          w: seq<byte>, n: nat, a: nat)
    requires size > 0 && OnMedia(clusters, size, dataOffset, |bytes|) && a < |bytes|
    requires n <= |w| && n <= Served(clusters, size, offset, |w|)
    requires forall p: nat | p / size < |clusters| :: Addr(clusters, size, dataOffset, p) != a
    ensures Poked(bytes, clusters, size, dataOffset, offset, w, n)[a] == bytes[a]
  {
    if n > 0 {
      PokedElsewhere(bytes, clusters, size, dataOffset, offset, w, n - 1, a);
      AddrInside(clusters, size, dataOffset, |bytes|, offset + n - 1);
    }
  }

  /** With distinct clusters, a write leaves its data in the file and every other byte of it alone. */
  lemma {:induction false} PokedMeans(bytes: seq<byte>, clusters: seq<nat>, size: nat, dataOffset: nat,
                                      offset: nat, w: seq<byte>,
                                      n: nat)
    requires size > 0 && OnMedia(clusters, size, dataOffset, |bytes|) && Distinct(clusters)
    requires n <= |w| && n <= Served(clusters, size, offset, |w|)
    ensures forall p: nat | p < |clusters| * size ::
              && p / size < |clusters| && 0 <= Addr(clusters, size, dataOffset, p) < |bytes|
              && Poked(bytes, clusters, size, dataOffset, offset, w, n)[Addr(clusters, size, dataOffset, p)]
              == if offset <= p < offset + n then w[p - offset] else bytes[Addr(clusters, size, dataOffset, p)]
  {
    forall p: nat | p < |clusters| * size
      ensures p / size < |clusters| && 0 <= Addr(clusters, size, dataOffset, p) < |bytes|
    {
      AddrInside(clusters, size, dataOffset, |bytes|, p);
    }
    if n > 0 {
      PokedMeans(bytes, clusters, size, dataOffset, offset, w, n - 1);
      var q := offset + n - 1;
      forall p: nat
        | p < |clusters| * size && Addr(clusters, size, dataOffset, p) == Addr(clusters, size, dataOffset, q)
        ensures p == q
      {
        AddrInjective(clusters, size, dataOffset, p, q);
      }
    }
  }

  /** Byte `p` of a file. */
  ghost function ByteAt(bytes: seq<byte>, clusters: seq<nat>, size: nat, dataOffset: nat, p: nat): byte
    requires size > 0 && OnMedia(clusters, size, dataOffset, |bytes|) && p < |clusters| * size
  {
    AddrInside(clusters, size, dataOffset, |bytes|, p);
    bytes[Addr(clusters, size, dataOffset, p)]
  }

  /** The bytes of a file. */
  ghost function FileBytes(bytes: seq<byte>, clusters: seq<nat>, size: nat, dataOffset: nat): seq<byte>
    requires size > 0 && OnMedia(clusters, size, dataOffset, |bytes|)
  {
    MulNonNeg(|clusters|, size);
    seq(|clusters| * size, p requires 0 <= p < |clusters| * size => ByteAt(bytes, clusters, size, dataOffset, p))
  }

  /** A write to a file of distinct clusters overwrites the file's bytes at `offset`, as far as the file goes. */
  lemma WriteSplicesFile(bytes: seq<byte>, clusters: seq<nat>, size: nat, dataOffset: nat, offset: nat,
                         w: seq<byte>, n: nat)
    requires size > 0 && OnMedia(clusters, size, dataOffset, |bytes|) && Distinct(clusters)
    requires n <= |w| && n <= Served(clusters, size, offset, |w|)
    ensures Patched(FileBytes(bytes, clusters, size, dataOffset),
                    FileBytes(Poked(bytes, clusters, size, dataOffset, offset, w, n), clusters, size, dataOffset),
                    offset, w[..n])
  {
    PokedMeans(bytes, clusters, size, dataOffset, offset, w, n);
  }

  lemma AddrApart(clusters: seq<nat>, other: seq<nat>, size: nat, dataOffset: nat, p: nat, q: nat)
    requires size > 0 && p / size < |clusters| && q / size < |other|
    requires forall i, j | 0 <= i < |clusters| && 0 <= j < |other| :: clusters[i] != other[j]
    ensures Addr(clusters, size, dataOffset, p) != Addr(other, size, dataOffset, q)
  {
    DivMod(p, size);
    DivMod(q, size);
    if Addr(clusters, size, dataOffset, p) == Addr(other, size, dataOffset, q) {
      AddrSplit(clusters[p / size], p % size, other[q / size], q % size, size);
    }
  }

  /** A file that shares no cluster with the one written keeps its bytes. */
  lemma WriteKeepsOthers(bytes: seq<byte>, clusters: seq<nat>, other: seq<nat>, size: nat, dataOffset: nat, offset: nat,
                         w: seq<byte>, n: nat)
    requires size > 0 && OnMedia(clusters, size, dataOffset, |bytes|) && OnMedia(other, size, dataOffset, |bytes|)
    requires forall i, j | 0 <= i < |clusters| && 0 <= j < |other| :: clusters[i] != other[j]
    requires n <= |w| && n <= Served(clusters, size, offset, |w|)
    ensures FileBytes(Poked(bytes, clusters, size, dataOffset, offset, w, n), other, size, dataOffset)
         == FileBytes(bytes, other, size, dataOffset)
  {
    forall q: nat | q < |other| * size
      ensures q / size < |other| && 0 <= Addr(other, size, dataOffset, q) < |bytes|
      ensures Poked(bytes, clusters, size, dataOffset, offset, w, n)[Addr(other, size, dataOffset, q)]
           == bytes[Addr(other, size, dataOffset, q)]
    {
      AddrInside(other, size, dataOffset, |bytes|, q);
      forall p: nat | p / size < |clusters|
        ensures Addr(clusters, size, dataOffset, p) != Addr(other, size, dataOffset, q)
      {
        AddrApart(clusters, other, size, dataOffset, p, q);
      }
      PokedElsewhere(bytes, clusters, size, dataOffset, offset, w, n, Addr(other, size, dataOffset, q));
    }
  }

  // ---------------------------------------------------------------- going run by run

  /**
   * A request for `count` bytes at `offset` has been served up to `n` bytes when it
   * comes to a run that holds the file's bytes from `start` up to `end`.
   */
  ghost predicate Ready(start: int, end: int, total: int, offset: int, count: int, n: int) {
    && 0 <= start < end <= total && 0 <= n <= count
    && if start <= offset then n == 0 && (offset < end || total <= offset)
       else offset + n == Min(start, offset + count)
  }

  /** What is left to do once the runs up to `end` are done. */
  ghost predicate Reached(end: int, offset: int, count: int, n: int) {
    0 <= n && offset < end && offset + n == Min(end, offset + count)
  }

  /** One run's share of a request; an empty share means that the request is done. */
  lemma ReadyStep(start: int, end: int, total: int, offset: int, count: int, n: int)
    requires Ready(start, end, total, offset, count, n)
    ensures var a, b := Max(start, offset), Min(end, offset + count);
            if a >= b then n == (if total <= offset then 0 else Min(count, total - offset))
            else a == offset + n && n < count && Reached(end, offset, count, b - offset)
  {
  }

  lemma EmptyChain(data: seq<Link>, clusters: seq<nat>)
    requires Tiled(data, clusters)
    ensures data == [] <==> clusters == []
  {
    if data != [] {
      assert LinkOk(data[|data| - 1], clusters);
    }
  }

  lemma RunEnds(data: seq<Link>, clusters: seq<nat>, size: nat, i: int)
    requires Tiled(data, clusters) && 0 <= i < |data| && size > 0
    ensures 0 <= data[i].offset * size < After(data, i) * size <= |clusters| * size
    ensures i + 1 < |data| ==> data[i + 1].offset == After(data, i)
    ensures i + 1 == |data| ==> After(data, i) == |clusters|
  {
    assert LinkOk(data[i], clusters);
    assert i + 1 < |data| ==> Joined(data, i + 1);
    MulNonNeg(data[i].offset, size);
    MulAdd(data[i].offset, Size(data[i]), size);
    MulGrows(Size(data[i]), size);
    MulOrder(After(data, i), |clusters|, size);
  }

  /** A request has been served up to `n` bytes when it comes to run `i`, or to the end of the file. */
  ghost predicate Coming(data: seq<Link>, clusters: seq<nat>, size: nat, i: int, offset: nat, count: nat, n: int)
    requires 0 <= i <= |data|
  {
    if i < |data| then Ready(data[i].offset * size, After(data, i) * size, |clusters| * size, offset, count, n)
    else Reached(|clusters| * size, offset, count, n)
  }

  /** The share of run `i`: the request is done if it is empty, and otherwise goes on after it at the next run. */
  lemma ShareIs(data: seq<Link>, clusters: seq<nat>, size: nat, i: int, offset: nat, count: nat, n: nat)
    requires Tiled(data, clusters) && 0 <= i < |data| && size > 0 && Coming(data, clusters, size, i, offset, count, n)
    ensures LinkOk(data[i], clusters)
    ensures var a, b := Max(data[i].offset * size, offset), Min(After(data, i) * size, offset + count);
            if a >= b then n == Served(clusters, size, offset, count)
            else
              && a == offset + n && n < count && b - offset <= Served(clusters, size, offset, count)
              && Coming(data, clusters, size, i + 1, offset, count, b - offset)
  {
    assert LinkOk(data[i], clusters);
    RunEnds(data, clusters, size, i);
    ReadyStep(data[i].offset * size, After(data, i) * size, |clusters| * size, offset, count, n);
    if i + 1 < |data| {
      RunEnds(data, clusters, size, i + 1);
    }
  }

  /** The run found for the first cluster of a request is where the request starts. */
  lemma FirstRun(data: seq<Link>, clusters: seq<nat>, size: nat, offset: nat, count: nat, i: int)
    requires Tiled(data, clusters) && |clusters| < U32_LIMIT && size > 0 && 0 <= i < |data|
    requires var first := offset / size % U32_LIMIT;
             data[i].offset <= first && (i + 1 < |data| ==> first < data[i + 1].offset)
    ensures Ready(data[i].offset * size, After(data, i) * size, |clusters| * size, offset, count, 0)
  {
    RunEnds(data, clusters, size, i);
    DivMod(offset, size);
    BelowEnd(offset, data[i].offset, size);
    BelowEnd(offset, After(data, i), size);
    BelowEnd(offset, |clusters|, size);
  }

  /** A buffer whose first `n` bytes were read from the file at `offset`. */
  ghost predicate ReadTo(bytes: seq<byte>, clusters: seq<nat>, size: nat, dataOffset: nat, offset: nat,
                         before: seq<byte>, after: seq<byte>, n: int)
    requires size > 0 && OnMedia(clusters, size, dataOffset, |bytes|)
  {
    && |after| == |before| && 0 <= n <= |after| && n <= Served(clusters, size, offset, |after|)
    && forall j | 0 <= j < |after| ::
         after[j] == if j < n then ByteAt(bytes, clusters, size, dataOffset, offset + j) else before[j]
  }

  lemma ReadMore(bytes: seq<byte>, clusters: seq<nat>, size: nat, dataOffset: nat, offset: nat,
                 before: seq<byte>, was: seq<byte>, after: seq<byte>, l: Link, a: nat, b: nat)
    requires size > 0 && LinkOk(l, clusters) && OnMedia(clusters, size, dataOffset, |bytes|)
    requires offset <= a <= b <= offset + |was| && l.offset * size <= a && b <= (l.offset + Size(l)) * size
    requires ReadTo(bytes, clusters, size, dataOffset, offset, before, was, a - offset) && |after| == |was|
    requires var at := dataOffset + l.first * size - l.offset * size;
             forall j | 0 <= j < |after| :: after[j] ==
               if a <= offset + j < b && 0 <= at + offset + j < |bytes| then bytes[at + offset + j] else was[j]
    ensures ReadTo(bytes, clusters, size, dataOffset, offset, before, after, b - offset)
  {
    RunInside(bytes, clusters, size, dataOffset, l, a, b - a);
    MulOrder(l.offset + Size(l), |clusters|, size);
    forall j | 0 <= j < |after|
      ensures after[j] == if j < b - offset then ByteAt(bytes, clusters, size, dataOffset, offset + j) else before[j]
    {
      if a <= offset + j < b {
        LinkAddr(l, clusters, size, dataOffset, offset + j);
      }
    }
  }

  // ---------------------------------------------------------------- joining and indexing chains

  predicate Runs(data: seq<Link>) {
    forall i | 0 <= i < |data| :: data[i].first < data[i].end
  }

  /** The runs with one more cluster: a cluster that continues the last run joins it. */
  function Pushed(data: seq<Link>, cluster: nat): seq<Link> {
    var n := |data|;
    if n > 0 && data[n - 1].end == cluster then data[n - 1 := data[n - 1].(end := cluster + 1)]
    else data + [Link(Max(After(data, n - 1), 0), cluster, cluster + 1)]
  }

  /** A run starts with cluster `k` of the file. */
  predicate StartsRun(data: seq<Link>, k: nat) {
    exists i | 0 <= i < |data| :: data[i].offset == k
  }

  /** Whether the first run of `y` continues the last run of `x`. */
  predicate Continues(x: seq<Link>, y: seq<Link>) {
    x != [] && y != [] && x[|x| - 1].end == y[0].first
  }

  /** The runs after `extend`: a run that continues the last one is merged into it. */
  function Extended(x: seq<Link>, y: seq<Link>): seq<Link>
    requires Runs(x) && Runs(y) && (x != [] ==> y != [])
  {
    if x == [] then y
    else
      var k := |x| - 1;
      if Continues(x, y) then
        var grown := x[k := x[k].(end := y[0].end)];
        grown + Shifted(y[1..], After(grown, k))
      else x + Shifted(y, After(x, k))
  }

  function Shifted(y: seq<Link>, add: nat): (r: seq<Link>)
    ensures |r| == |y|
  {
    seq(|y|, i requires 0 <= i < |y| => y[i].(offset := y[i].offset + add))
  }

  lemma TiledSorted(data: seq<Link>, clusters: seq<nat>)
    requires Tiled(data, clusters)
    ensures forall i, j | 0 <= i < j < |data| :: data[i].offset < data[j].offset
  {
    forall i, j | 0 <= i < j < |data|
      ensures data[i].offset < data[j].offset
    {
      assert LinkOk(data[i], clusters);
      TiledOrder(data, clusters, |clusters|, i, j);
    }
  }

  lemma TiledRuns(data: seq<Link>, clusters: seq<nat>)
    requires Tiled(data, clusters)
    ensures Runs(data)
  {
    forall i | 0 <= i < |data|
      ensures data[i].first < data[i].end
    {
      assert LinkOk(data[i], clusters);
    }
  }

  /** Joining chains whose runs are not merged. */
  lemma AppendTiled(x: seq<Link>, cx: seq<nat>, y: seq<Link>, cy: seq<nat>)
    requires Tiled(x, cx) && Tiled(y, cy) && x != []
    ensures Tiled(x + Shifted(y, |cx|), cx + cy)
  {
    var after, clusters := x + Shifted(y, |cx|), cx + cy;
    forall i {:trigger LinkOk(after[i], clusters)} {:trigger Joined(after, i)} | 0 <= i < |after|
      ensures LinkOk(after[i], clusters) && Joined(after, i)
    {
      if i < |x| {
        assert LinkOk(x[i], cx) && Joined(x, i);
      } else {
        assert LinkOk(y[i - |x|], cy) && Joined(y, i - |x|);
      }
    }
  }

  /** Joining a chain of one run, merged into the last. */
  lemma MergeTiled(x: seq<Link>, cx: seq<nat>, y: seq<Link>, cy: seq<nat>)
    requires Tiled(x, cx) && Tiled(y, cy) && Continues(x, y) && |y| == 1
    ensures Tiled(x[|x| - 1 := x[|x| - 1].(end := y[0].end)], cx + cy)
  {
    var k := |x| - 1;
    var after, clusters := x[k := x[k].(end := y[0].end)], cx + cy;
    assert LinkOk(y[0], cy) && Joined(y, 0);
    forall i {:trigger LinkOk(after[i], clusters)} {:trigger Joined(after, i)} | 0 <= i < |after|
      ensures LinkOk(after[i], clusters) && Joined(after, i)
    {
      assert LinkOk(x[i], cx) && Joined(x, i);
    }
  }

  /** `extend` joins the two chains, unless it merges the first of several runs. */
  lemma ExtendIff(x: seq<Link>, cx: seq<nat>, y: seq<Link>, cy: seq<nat>)
    requires Tiled(x, cx) && Tiled(y, cy) && (x != [] ==> y != [])
    ensures Runs(x) && Runs(y)
    ensures Tiled(Extended(x, y), cx + cy) <==> !Continues(x, y) || |y| == 1
  {
    TiledRuns(x, cx);
    TiledRuns(y, cy);
    var after := Extended(x, y);
    if x == [] {
      assert cx + cy == cy;
    } else if !Continues(x, y) {
      AppendTiled(x, cx, y, cy);
    } else if |y| == 1 {
      MergeTiled(x, cx, y, cy);
      assert after == x[|x| - 1 := x[|x| - 1].(end := y[0].end)];
    } else {
      assert Joined(y, 0) && Joined(y, 1);
      assert after[|x|].offset == y[1].offset + After(after, |x| - 1);
      assert !Joined(after, |x|);
    }
  }

  /** Cluster 0 joined with clusters 1 and 5: the third cluster is recorded at offset 3 instead of 2. */
  lemma MergedOffsetWrong()
    ensures var x, y := [Link(0, 0, 1)], [Link(0, 1, 2), Link(1, 5, 6)];
            && Tiled(x, [0]) && Tiled(y, [1, 5]) && Runs(x) && Runs(y)
            && Extended(x, y) == [Link(0, 0, 2), Link(3, 5, 6)] && !Tiled(Extended(x, y), [0] + [1, 5])
  {
    var x, y := [Link(0, 0, 1)], [Link(0, 1, 2), Link(1, 5, 6)];
    assert Tiled(x, [0]) by { OneRun(0); }
    assert Tiled(y, [1, 5]) by { TwoRuns(1, 5); }
    ExtendIff(x, [0], y, [1, 5]);
    assert y[1..] == [Link(1, 5, 6)];
    assert Shifted([Link(1, 5, 6)], 2) == [Link(3, 5, 6)];
  }

  lemma OneRun(c: nat)
    ensures Tiled([Link(0, c, c + 1)], [c])
  {
    var data := [Link(0, c, c + 1)];
    assert LinkOk(data[0], [c]) && Joined(data, 0);
  }

  lemma TwoRuns(c: nat, d: nat)
    ensures Tiled([Link(0, c, c + 1), Link(1, d, d + 1)], [c, d])
  {
    var data := [Link(0, c, c + 1), Link(1, d, d + 1)];
    assert LinkOk(data[0], [c, d]) && Joined(data, 0);
    assert LinkOk(data[1], [c, d]) && Joined(data, 1);
  }

  // ---------------------------------------------------------------- media and chains

  /** A byte device; `fails` and `torn` decide which accesses fail, and how much of a failed write arrives. */
  class Media {
    const fails: nat -> bool
    const torn: nat -> nat
    var accesses: nat
    var bytes: seq<byte>

    /** An access has failed since there had been `n` of them. */
    ghost predicate Failed(n: nat)
      reads this
    {
      exists t | n <= t < accesses :: fails(t)
    }

    constructor (bytes: seq<byte>, fails: nat -> bool, torn: nat -> nat)
      ensures this.bytes == bytes && this.fails == fails && this.torn == torn && accesses == 0
    {
      this.bytes, this.fails, this.torn, accesses := bytes, fails, torn, 0;
    }

    /** The first `arrived` bytes arrive: all of them, unless the access fails. */
    method Write(at: nat, t: seq<byte>) returns (ok: bool, ghost arrived: nat)
      requires at + |t| <= |bytes|
      modifies this
      ensures accesses == old(accesses) + 1 && (ok <==> !fails(old(accesses)))
      ensures arrived <= |t| && (ok ==> arrived == |t|) && bytes == Splice(old(bytes), at, t[..arrived])
    {
      ok := !fails(accesses);
      var n := if ok then |t| else Min(torn(accesses), |t|);
      bytes, arrived := Splice(bytes, at, t[..n]), n;
      accesses := accesses + 1;
    }

    method Read(at: nat, n: nat) returns (ok: bool, t: seq<byte>)
      requires at + n <= |bytes|
      modifies this`accesses
      ensures accesses == old(accesses) + 1 && (ok <==> !fails(old(accesses)))
      ensures ok ==> t == bytes[at..at + n]
    {
      ok := !fails(accesses);
      t := if ok then bytes[at..at + n] else [];
      accesses := accesses + 1;
    }
  }

  /** How a transfer ends; an index before the first run panics. */
  datatype Transfer = Done | Failed | Panicked

  /** How the lookup of a cluster ends. */
  datatype Found = Got(cluster: Option<nat>) | Lost

  class ClusterChain {
    var data: seq<Link>
    var len: nat
    /** The clusters of the file, in order. */
    ghost var clusters: seq<nat>

    ghost predicate Valid()
      reads this
    {
      Tiled(data, clusters) && len == |clusters| < U32_LIMIT
    }

    constructor ()
      ensures Valid() && clusters == [] && data == []
    {
      data, len, clusters := [], 0, [];
    }

    method Push(cluster: nat)
      requires Valid() && len + 1 < U32_LIMIT
      modifies this
      ensures Valid() && clusters == old(clusters) + [cluster] && data == Pushed(old(data), cluster)
    {
      var n := |data|;
      TiledMore(data, clusters, cluster);
      if n > 0 && data[n - 1].end == cluster {
        TiledGrow(data, clusters + [cluster]);
        data := data[n - 1 := data[n - 1].(end := cluster + 1)];
      } else {
        TiledAppend(data, clusters + [cluster]);
        data := data + [Link(After(data, n - 1), cluster, cluster + 1)];
      }
      clusters := clusters + [cluster];
      len := len + 1;
    }

    /** Drop clusters from the end. */
    method Shorten(amount: nat)
      requires Valid() && amount <= len
      modifies this
      ensures Valid() && clusters == old(clusters)[..old(len) - amount]
    {
      len := len - amount;
      var remaining := amount;
      while remaining > 0 && data != []
        invariant 0 <= remaining && len == old(len) - amount && clusters == old(clusters)
        invariant TiledTo(data, clusters, len + remaining)
        decreases |data|, remaining
      {
        var last := data[|data| - 1];
        assert LinkOk(last, clusters);
        TiledDrop(data, clusters, len + remaining);
        if Size(last) <= remaining {
          remaining := remaining - Size(last);
          data := data[..|data| - 1];
        } else {
          TiledCut(data, clusters, len + remaining, remaining);
          data := data[|data| - 1 := last.(end := last.end - remaining)];
          remaining := 0;
        }
      }
      TiledPrefix(data, clusters, len);
      clusters := clusters[..len];
    }

    method Last() returns (r: Option<nat>)
      requires Valid()
      ensures r == if clusters == [] then None else Some(clusters[|clusters| - 1])
    {
      if len == 0 {
        return None;
      }
      assert LinkOk(data[|data| - 1], clusters);
      return Some(data[|data| - 1].end - 1);
    }

    /** The last run that starts at or before cluster `c` of the file. */
    method FindRun(c: nat) returns (i: nat)
      requires Valid() && data != []
      ensures i < |data| && data[i].offset <= c && (i + 1 < |data| ==> c < data[i + 1].offset)
    {
      var lo, hi := 0, |data|;
      assert Joined(data, 0);
      while lo + 1 < hi
        invariant 0 <= lo < hi <= |data| && data[lo].offset <= c && (hi < |data| ==> c < data[hi].offset)
      {
        var mid := (lo + hi) / 2;
        if data[mid].offset <= c {
          lo := mid;
        } else {
          hi := mid;
        }
      }
      i := lo;
    }

    /** The number of runs that start before cluster `c` of the file, by binary search. */
    method FirstFrom(c: nat) returns (i: nat)
      requires Valid()
      ensures i <= |data| && (forall j | 0 <= j < i :: data[j].offset < c)
      ensures forall j | i <= j < |data| :: c <= data[j].offset
    {
      TiledSorted(data, clusters);
      var lo, hi := 0, |data|;
      while lo < hi
        invariant 0 <= lo <= hi <= |data| && (forall j | 0 <= j < lo :: data[j].offset < c)
        invariant forall j | hi <= j < |data| :: c <= data[j].offset
      {
        var mid := (lo + hi) / 2;
        if data[mid].offset < c {
          lo := mid + 1;
        } else {
          hi := mid;
        }
      }
      i := lo;
    }

    /**
     * An iterator over `length` clusters from `offset` on.  The search for an offset inside a
     * run ends at the run after it, from where the offset is out of reach: the index is past
     * the end, or the difference of the offsets below zero.
     */
    method Range(offset: nat, length: nat) returns (r: Option<ClusterIter>)
      requires Valid()
      ensures r.Some? <==> offset + length <= |clusters| && StartsRun(data, offset)
      ensures r.Some? ==>
        && fresh(r.value) && r.value.Valid() && r.value.clusters == clusters
        && r.value.length == length && r.value.stop == offset + length
    {
      if offset + length > len {
        return None;
      }
      TiledSorted(data, clusters);
      var index := FirstFrom(offset);
      if index == |data| || data[index].offset > offset {
        return None;
      }
      var it := new ClusterIter(data, index, length, clusters);
      return Some(it);
    }

    /** The cluster `offset` clusters into the file; an offset inside a run panics. */
    method Get(offset: nat) returns (r: Found)
      requires Valid()
      ensures r == if clusters == [] then Got(None)
                   else if StartsRun(data, offset) && offset < |clusters| then Got(Some(clusters[offset]))
                   else Lost
    {
      if len == 0 {
        return Got(None);
      }
      var range := Range(offset, 1);
      if range.None? {
        return Lost;
      }
      var cluster := range.value.Next();
      return Got(cluster);
    }

    /** The file bytes of a request that lie in a run. */
    static method Share(l: Link, size: nat, offset: nat, count: nat) returns (a: int, b: int)
      ensures a == Max(l.offset * size, offset) && b == Min((l.offset + Size(l)) * size, offset + count)
    {
      var start := l.offset * size;
      var end := start + Size(l) * size;
      MulAdd(l.offset, Size(l), size);
      a, b := Max(start, offset), Min(end, offset + count);
    }

    /** Access the media for file bytes `a` up to `b` of a request, which lie in one run. */
    static method WriteRun(ghost clusters: seq<nat>, media: Media, size: nat, dataOffset: nat, offset: nat,
                           w: seq<byte>,
                           l: Link, a: nat, b: nat, ghost before: seq<byte>) returns (ok: bool, ghost n: nat)
      requires size > 0 && LinkOk(l, clusters) && OnMedia(clusters, size, dataOffset, |before|)
      requires offset <= a <= b <= offset + |w| && a - offset <= Served(clusters, size, offset, |w|)
      requires l.offset * size <= a && b <= (l.offset + Size(l)) * size
      requires media.bytes == Poked(before, clusters, size, dataOffset, offset, w, a - offset)
      modifies media
      ensures n <= b - offset && n <= Served(clusters, size, offset, |w|) && (ok ==> n == b - offset)
      ensures media.accesses == old(media.accesses) + 1 && (ok <==> !media.fails(old(media.accesses)))
      ensures media.bytes == Poked(before, clusters, size, dataOffset, offset, w, n)
    {
      RunInside(before, clusters, size, dataOffset, l, a, b - a);
      var dataStart := a - l.offset * size + l.first * size;
      ghost var arrived;
      ok, arrived := media.Write(dataStart + dataOffset, w[a - offset..b - offset]);
      TornRun(before, clusters, size, dataOffset, offset, w, l, a - offset, b - a, arrived);
      n := a - offset + arrived;
    }

    /** Write, run by run.  `n` is how much was written: all that lies in the file, unless the media fails. */
    method Write(media: Media, exp: nat, dataOffset: nat, offset: nat, w: seq<byte>) returns (r: Transfer, ghost n: nat)
      requires Valid() && OnMedia(clusters, Pow2(exp), dataOffset, |media.bytes|)
      modifies media
      ensures r == Panicked <==> clusters == []
      ensures n <= Served(clusters, Pow2(exp), offset, |w|)
      ensures r == Done ==> n == Served(clusters, Pow2(exp), offset, |w|)
      ensures media.bytes == Poked(old(media.bytes), clusters, Pow2(exp), dataOffset, offset, w, n)
      ensures r == Failed <==> media.Failed(old(media.accesses))
    {
      EmptyChain(data, clusters);
      if data == [] {
        return Panicked, 0;
      }
      var size := Pow2(exp);
      var i := FindRun(offset / size % U32_LIMIT);
      FirstRun(data, clusters, size, offset, |w|, i);
      var ok;
      ok, n := WriteFrom(data, clusters, media, size, dataOffset, offset, w, i);
      r := if ok then Done else Failed;
    }

    static method WriteFrom(data: seq<Link>, ghost clusters: seq<nat>, media: Media, size: nat, dataOffset: nat,
                            offset: nat, w: seq<byte>, first: nat) returns (ok: bool, ghost n: nat)
      requires Tiled(data, clusters) && size > 0 && OnMedia(clusters, size, dataOffset, |media.bytes|)
      requires first < |data| && Coming(data, clusters, size, first, offset, |w|, 0)
      modifies media
      ensures n <= Served(clusters, size, offset, |w|) && (ok ==> n == Served(clusters, size, offset, |w|))
      ensures media.bytes == Poked(old(media.bytes), clusters, size, dataOffset, offset, w, n)
      ensures ok <==> !media.Failed(old(media.accesses))
    {
      ghost var before := media.bytes;
      var i := first;
      n := 0;
      while i < |data|
        invariant i <= |data| && n <= Served(clusters, size, offset, |w|)
        invariant media.bytes == Poked(before, clusters, size, dataOffset, offset, w, n)
        invariant old(media.accesses) <= media.accesses && !media.Failed(old(media.accesses))
        invariant Coming(data, clusters, size, i, offset, |w|, n)
      {
        var a, b := Share(data[i], size, offset, |w|);
        ShareIs(data, clusters, size, i, offset, |w|, n);
        if a >= b {
          return true, n;
        }
        ok, n := WriteRun(clusters, media, size, dataOffset, offset, w, data[i], a, b, before);
        if !ok {
          return;
        }
        i := i + 1;
      }
      return true, n;
    }

    /** Read, run by run, into `rdata`; bytes past the end of the file are left as they were. */
    method Read(media: Media, exp: nat, dataOffset: nat, offset: nat, rdata: array<byte>) returns (r: Transfer)
      requires Valid() && OnMedia(clusters, Pow2(exp), dataOffset, |media.bytes|)
      modifies media`accesses, rdata
      ensures r == Panicked <==> clusters == []
      ensures r == Panicked ==> rdata[..] == old(rdata[..])
      ensures r == Done ==> ReadTo(media.bytes, clusters, Pow2(exp), dataOffset, offset, old(rdata[..]), rdata[..],
                                   Served(clusters, Pow2(exp), offset, rdata.Length))
      ensures r == Failed <==> media.Failed(old(media.accesses))
    {
      EmptyChain(data, clusters);
      if data == [] {
        return Panicked;
      }
      var size := Pow2(exp);
      var i := FindRun(offset / size % U32_LIMIT);
      FirstRun(data, clusters, size, offset, rdata.Length, i);
      var ok := ReadFrom(data, clusters, media, size, dataOffset, offset, rdata, i);
      r := if ok then Done else Failed;
    }

    static method ReadFrom(data: seq<Link>, ghost clusters: seq<nat>, media: Media, size: nat, dataOffset: nat,
                           offset: nat, rdata: array<byte>, first: nat) returns (ok: bool)
      requires Tiled(data, clusters) && size > 0 && OnMedia(clusters, size, dataOffset, |media.bytes|)
      requires first < |data| && Coming(data, clusters, size, first, offset, rdata.Length, 0)
      modifies media`accesses, rdata
      ensures ok ==> ReadTo(media.bytes, clusters, size, dataOffset, offset, old(rdata[..]), rdata[..],
                            Served(clusters, size, offset, rdata.Length))
      ensures ok <==> !media.Failed(old(media.accesses))
    {
      ghost var before := rdata[..];
      var i := first;
      ghost var n := 0;
      while i < |data|
        invariant i <= |data| && n <= Served(clusters, size, offset, rdata.Length)
        invariant ReadTo(media.bytes, clusters, size, dataOffset, offset, before, rdata[..], n)
        invariant old(media.accesses) <= media.accesses && !media.Failed(old(media.accesses))
        invariant Coming(data, clusters, size, i, offset, rdata.Length, n)
      {
        var a, b := Share(data[i], size, offset, rdata.Length);
        ShareIs(data, clusters, size, i, offset, rdata.Length, n);
        if a >= b {
          return true;
        }
        ok := ReadRun(clusters, media, size, dataOffset, offset, rdata, data[i], a, b, before);
        if !ok {
          return;
        }
        n := b - offset;
        i := i + 1;
      }
      return true;
    }

    static method ReadRun(ghost clusters: seq<nat>, media: Media, size: nat, dataOffset: nat, offset: nat,
                          rdata: array<byte>, l: Link, a: nat, b: nat, ghost before: seq<byte>) returns (ok: bool)
      requires size > 0 && LinkOk(l, clusters) && OnMedia(clusters, size, dataOffset, |media.bytes|)
      requires offset <= a <= b <= offset + rdata.Length && l.offset * size <= a && b <= (l.offset + Size(l)) * size
      requires ReadTo(media.bytes, clusters, size, dataOffset, offset, before, rdata[..], a - offset)
      modifies media`accesses, rdata
      ensures ok ==> ReadTo(media.bytes, clusters, size, dataOffset, offset, before, rdata[..], b - offset)
      ensures media.accesses == old(media.accesses) + 1 && (ok <==> !media.fails(old(media.accesses)))
    {
      RunInside(media.bytes, clusters, size, dataOffset, l, a, b - a);
      ghost var was := rdata[..];
      var dataStart := a - l.offset * size + l.first * size;
      var t;
      ok, t := media.Read(dataStart + dataOffset, b - a);
      if ok {
        forall j | 0 <= j < b - a {
          rdata[a - offset + j] := t[j];
        }
        ReadMore(media.bytes, clusters, size, dataOffset, offset, before, was, rdata[..], l, a, b);
      }
    }

    /**
     * Join another chain to this one.  Joining nothing to something indexes an empty vector; `ok`
     * says that it did not.
     */
    method Extend(other: ClusterChain) returns (ok: bool)
      requires Valid() && other.Valid() && other != this && len + other.len < U32_LIMIT
      modifies this
      ensures ok <==> old(clusters) == [] || other.clusters != []
      ensures !ok ==> unchanged(this)
      ensures Runs(old(data)) && Runs(other.data) && (ok ==> (old(data) != [] ==> other.data != []))
      ensures ok ==> data == Extended(old(data), other.data)
      ensures ok && (!Continues(old(data), other.data) || |other.data| == 1) ==>
                Valid() && clusters == old(clusters) + other.clusters
    {
      EmptyChain(data, clusters);
      EmptyChain(other.data, other.clusters);
      TiledRuns(data, clusters);
      TiledRuns(other.data, other.clusters);
      if data == [] {
        assert clusters + other.clusters == other.clusters;
        data, len, clusters := other.data, other.len, other.clusters;
        return true;
      }
      if other.data == [] {
        return false;
      }
      ExtendIff(data, clusters, other.data, other.clusters);
      var k := |data| - 1;
      var rest := other.data;
      if data[k].end == rest[0].first {
        data := data[k := data[k].(end := rest[0].end)];
        rest := rest[1..];
      }
      data := data + Shifted(rest, After(data, k));
      len, clusters := len + other.len, clusters + other.clusters;
      return true;
    }
  }

  /** A walk over the clusters of a chain. */
  class ClusterIter {
    const data: seq<Link>
    ghost const clusters: seq<nat>
    /** What is left of the current run. */
    var next: nat
    var end: nat
    var index: nat
    var length: nat

    /** Where in the file iteration ends. */
    ghost const stop: nat

    ghost predicate Valid()
      reads this
    {
      && Tiled(data, clusters) && length <= stop <= |clusters|
      && (data != [] ==>
            && index < |data| && data[index].first <= next <= end == data[index].end
            && data[index].offset + (next - data[index].first) == stop - length)
    }

    /** Over `length` clusters from the start of run `index` on. */
    constructor (data: seq<Link>, index: nat, length: nat, ghost clusters: seq<nat>)
      requires Tiled(data, clusters)
      requires if data == [] then length == 0 else index < |data| && data[index].offset + length <= |clusters|
      ensures Valid() && this.clusters == clusters && this.length == length
      ensures stop == length + if data == [] then 0 else data[index].offset
    {
      this.data, this.clusters, this.index, this.length := data, clusters, index, length;
      next, end, stop := 0, 0, length;
      if data != [] {
        assert LinkOk(data[index], clusters);
        next, end, stop := data[index].first, data[index].end, data[index].offset + length;
      }
    }

    /** The next cluster of the file, in order. */
    method Next() returns (r: Option<nat>)
      requires Valid()
      modifies this
      ensures Valid()
      ensures old(length) == 0 ==> r.None? && length == 0
      ensures old(length) > 0 ==> r == Some(clusters[stop - old(length)]) && length == old(length) - 1
    {
      if length == 0 {
        return None;
      }
      while next == end
        invariant Valid() && length == old(length)
        decreases |data| - index
      {
        RunEnds(data, clusters, 1, index);
        index := index + 1;
        assert LinkOk(data[index], clusters);
        next, end := data[index].first, data[index].end;
      }
      assert LinkOk(data[index], clusters);
      length := length - 1;
      next := next + 1;
      return Some(next - 1);
    }
  }

  /** Run an iterator to its end. */
  method Drain(iter: ClusterIter) returns (r: seq<nat>)
    requires iter.Valid()
    modifies iter
    ensures r == iter.clusters[iter.stop - old(iter.length)..iter.stop]
  {
    r := [];
    ghost var start := iter.stop - iter.length;
    while true
      invariant iter.Valid() && iter.length <= old(iter.length)
      invariant r == iter.clusters[start..iter.stop - iter.length]
      decreases iter.length
    {
      var x := iter.Next();
      if x.None? {
        return;
      }
      r := r + [x.value];
    }
  }

  /** Iterating a chain yields its clusters. */
  method Collect(chain: ClusterChain) returns (r: seq<nat>)
    requires chain.Valid()
    ensures r == chain.clusters
  {
    EmptyChain(chain.data, chain.clusters);
    assert chain.data != [] ==> Joined(chain.data, 0);
    var iter := new ClusterIter(chain.data, 0, chain.len, chain.clusters);
    r := Drain(iter);
  }

  /** Iterating a range yields exactly its clusters if a run starts there, and panics otherwise. */
  method CollectRange(chain: ClusterChain, k: nat, n: nat) returns (r: Option<seq<nat>>)
    requires chain.Valid()
    ensures r.Some? <==> k + n <= |chain.clusters| && StartsRun(chain.data, k)
    ensures r.Some? ==> r.value == chain.clusters[k..k + n]
  {
    var range := chain.Range(k, n);
    if range.None? {
      return None;
    }
    var iter := range.value;
    ghost var clusters := iter.clusters;
    assert clusters == chain.clusters && iter.stop == k + n && iter.length == n;
    var s := Drain(iter);
    assert s == clusters[k..k + n];
    return Some(s);
  }

  /** A file of the two clusters 5 and 6, cut to one: the search for what to free panics. */
  method CutInsideRun() returns (r: Option<seq<nat>>)
    ensures r == None
  {
    var chain := new ClusterChain();
    chain.Push(5);
    chain.Push(6);
    assert chain.data == [Link(0, 5, 7)];
    r := CollectRange(chain, 1, 1);
  }
}
