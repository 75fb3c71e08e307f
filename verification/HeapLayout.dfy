/** How a block list is laid out in memory: every block starts with a header that names the next one. */
module HeapLayout {
  import opened Bytes
  import opened HeapSpec

  /** The address of the block at position `i`, 0 past the end of the list. */
  ghost function AddrOf(bs: seq<Block>, i: int): int
    requires 0 <= i <= |bs|
  {
    if i < |bs| then bs[i].addr else 0
  }

  /** The words of `b`'s header: its size, its flag and the address of the next block. */
  ghost predicate HeaderIs(m: seq<byte>, b: Block, next: int) {
    && 0 <= b.addr <= |m| - HEADER
    && Word(m, b.addr) == b.size
    && Word(m, b.addr + 4) == (if b.used then 1 else 0)
    && Word(m, b.addr + 8) == next
  }

  ghost predicate HeaderAt(m: seq<byte>, bs: seq<Block>, i: int)
    requires 0 <= i < |bs|
  {
    HeaderIs(m, bs[i], AddrOf(bs, i + 1))
  }

  ghost predicate Threaded(m: seq<byte>, bs: seq<Block>) {
    forall i | 0 <= i < |bs| :: HeaderAt(m, bs, i)
  }

  /** The headers of `c`, the last of which names `next`. */
  ghost predicate ThreadedTo(m: seq<byte>, c: seq<Block>, next: int) {
    forall i | 0 <= i < |c| :: HeaderIs(m, c[i], if i + 1 < |c| then c[i + 1].addr else next)
  }

  ghost predicate SameOutside(m: seq<byte>, n: seq<byte>, lo: int, hi: int) {
    |m| == |n| && forall k | 0 <= k < |m| && !(lo <= k < hi) :: n[k] == m[k]
  }

  lemma WordKept(m: seq<byte>, n: seq<byte>, lo: int, hi: int, a: int)
    requires SameOutside(m, n, lo, hi) && 0 <= a <= |m| - 4
    requires a + 4 <= lo || hi <= a
    ensures Word(n, a) == Word(m, a)
  {
    NumberKept(m, n, a, a, 4);
  }

  lemma HeaderKept(m: seq<byte>, n: seq<byte>, lo: int, hi: int, b: Block, next: int)
    requires SameOutside(m, n, lo, hi) && HeaderIs(m, b, next)
    requires b.addr + HEADER <= lo || hi <= b.addr
    ensures HeaderIs(n, b, next)
  {
    WordKept(m, n, lo, hi, b.addr);
    WordKept(m, n, lo, hi, b.addr + 4);
    WordKept(m, n, lo, hi, b.addr + 8);
  }

  /** Where the blocks of a spliced list come from. */
  lemma SplicedAt(bs: seq<Block>, i: int, j: int, c: seq<Block>, k: int)
    requires 0 <= i < j <= |bs| && c != [] && c[0].addr == bs[i].addr
    requires 0 <= k < |Spliced(bs, i, j, c)|
    ensures var r := Spliced(bs, i, j, c);
            if i <= k < i + |c| then
              r[k] == c[k - i] && AddrOf(r, k + 1) == if k - i + 1 < |c| then c[k - i + 1].addr else AddrOf(bs, j)
            else
              var o := if k < i then k else k - |c| + j - i;
              r[k] == bs[o] && AddrOf(r, k + 1) == AddrOf(bs, o + 1)
  {
  }

  /** Rewriting a stretch of blocks, headers and all, leaves the list threaded. */
  lemma SpliceThreaded(m: seq<byte>, n: seq<byte>, bs: seq<Block>, i: int, j: int, c: seq<Block>)
    requires Tiled(bs) && Threaded(m, bs) && 0 <= i < j <= |bs|
    requires SameOutside(m, n, bs[i].addr, bs[j - 1].End())
    requires c != [] && c[0].addr == bs[i].addr
    requires ThreadedTo(n, c, AddrOf(bs, j))
    ensures Threaded(n, Spliced(bs, i, j, c))
  {
    var r := Spliced(bs, i, j, c);
    forall k | 0 <= k < |r|
      ensures HeaderAt(n, r, k)
    {
      SplicedAt(bs, i, j, c, k);
      if !(i <= k < i + |c|) {
        HeaderKeptAt(m, n, bs, i, j, if k < i then k else k - |c| + j - i);
      }
    }
  }

  lemma HeaderKeptAt(m: seq<byte>, n: seq<byte>, bs: seq<Block>, i: int, j: int, o: int)
    requires Tiled(bs) && Threaded(m, bs) && 0 <= i < j <= |bs|
    requires SameOutside(m, n, bs[i].addr, bs[j - 1].End())
    requires 0 <= o < i || j <= o < |bs|
    ensures HeaderIs(n, bs[o], AddrOf(bs, o + 1))
  {
    assert HeaderAt(m, bs, o);
    assert LinkAt(bs, o) && LinkAt(bs, j - 1);
    if o < i { Above(bs, o, i); } else { Above(bs, j - 1, o); }
    HeaderKept(m, n, bs[i].addr, bs[j - 1].End(), bs[o], AddrOf(bs, o + 1));
  }

  // ---------------------------------------------------------------- the edits alloc and free make

  /** One header rewritten: position `i`, or `i` and the position it absorbs, becomes `b`. */
  lemma OneWritten(m: seq<byte>, n: seq<byte>, bs: seq<Block>, i: int, j: int, b: Block)
    requires Tiled(bs) && Threaded(m, bs) && 0 <= i < j <= |bs|
    requires b.addr == bs[i].addr && b.End() == bs[j - 1].End() && b.size >= 0 && b.size % 4 == 0
    requires SameOutside(m, n, b.addr, b.addr + HEADER)
    requires HeaderIs(n, b, AddrOf(bs, j))
    ensures Tiled(Spliced(bs, i, j, [b])) && Threaded(n, Spliced(bs, i, j, [b]))
  {
    SpliceTiled(bs, i, j, [b]);
    SpliceThreaded(m, n, bs, i, j, [b]);
  }

  lemma JoinedCovers(bs: seq<Block>, i: int)
    requires Tiled(bs) && 0 <= i < |bs| - 1
    ensures var b := Joined(bs[i], bs[i + 1]);
            && b.addr == bs[i].addr && b.End() == bs[i + 1].End() <= MEMORY_END
            && MEMORY_START <= b.addr && b.size >= 0 && b.size % 4 == 0
    ensures 0 <= AddrOf(bs, i + 2) < MEMORY_END
  {
    InRegion(bs, i);
    InRegion(bs, i + 1);
    if i + 2 < |bs| { InRegion(bs, i + 2); }
  }

  function Halves(b: Block, size: int): seq<Block> {
    [Block(b.addr, size, false), Block(b.addr + HEADER + size, b.size - size - HEADER, false)]
  }

  /** A second header written inside a free block and linked behind the first. */
  lemma HalvesWritten(m: seq<byte>, m1: seq<byte>, n: seq<byte>, bs: seq<Block>, i: int, size: int)
    requires Tiled(bs) && Threaded(m, bs) && 0 <= i < |bs|
    requires size % 4 == 0 && 0 <= size <= bs[i].size - HEADER
    requires SameOutside(m, m1, bs[i].addr + HEADER, bs[i].End())
    requires HeaderIs(m1, Halves(bs[i], size)[1], AddrOf(bs, i + 1))
    requires SameOutside(m1, n, bs[i].addr, bs[i].addr + HEADER)
    requires HeaderIs(n, Halves(bs[i], size)[0], bs[i].addr + HEADER + size)
    ensures var r := Spliced(bs, i, i + 1, Halves(bs[i], size));
            Tiled(r) && Threaded(n, r)
  {
    var b, c := bs[i].addr, Halves(bs[i], size);
    assert LinkAt(bs, i);
    HalvesLinked(bs[i], size);
    SpliceTiled(bs, i, i + 1, c);
    HeaderKept(m1, n, b, b + HEADER, c[1], AddrOf(bs, i + 1));
    SpliceThreaded(m, n, bs, i, i + 1, c);
  }

  lemma HalvesLinked(b: Block, size: int)
    requires b.size % 4 == 0 && size % 4 == 0 && 0 <= size <= b.size - HEADER
    ensures Linked(Halves(b, size))
  {
  }

  // ---------------------------------------------------------------- what clients keep

  ghost predicate SameBytes(m: seq<byte>, n: seq<byte>, lo: int, hi: int) {
    |m| == |n| && forall k | 0 <= k < |m| && lo <= k < hi :: n[k] == m[k]
  }

  /** No byte below the heap and no payload byte of a live block differs. */
  ghost predicate LiveKept(m: seq<byte>, n: seq<byte>, bs: seq<Block>) {
    && SameBytes(m, n, 0, MEMORY_START)
    && forall b | b in bs && b.used :: SameBytes(m, n, b.Ptr(), b.End())
  }

  /** Headers and free blocks lie outside every live payload. */
  lemma Untouched(m: seq<byte>, n: seq<byte>, bs: seq<Block>, i: int, hi: int)
    requires Tiled(bs) && 0 <= i < |bs| && (hi == bs[i].Ptr() || (!bs[i].used && hi == bs[i].End()))
    requires SameOutside(m, n, bs[i].addr, hi)
    ensures LiveKept(m, n, bs)
  {
    InRegion(bs, i);
    forall b | b in bs && b.used
      ensures SameBytes(m, n, b.Ptr(), b.End())
    {
      if b != bs[i] { LiveDisjoint(bs, b, bs[i]); }
    }
  }

  /** A client that stays inside its own block disturbs neither the list nor another client. */
  lemma PayloadWritten(m: seq<byte>, n: seq<byte>, bs: seq<Block>, b: Block, lo: int, hi: int)
    requires Tiled(bs) && Threaded(m, bs) && b in bs && b.used
    requires b.Ptr() <= lo && hi <= b.End() && SameOutside(m, n, lo, hi)
    ensures Threaded(n, bs)
    ensures forall c | c in bs && c.used && c != b :: SameBytes(m, n, c.Ptr(), c.End())
    ensures SameBytes(m, n, 0, MEMORY_START)
  {
    var i :| 0 <= i < |bs| && bs[i] == b;
    InRegion(bs, i);
    forall k | 0 <= k < |bs|
      ensures HeaderAt(n, bs, k)
    {
      assert HeaderAt(m, bs, k) && LinkAt(bs, k) && LinkAt(bs, i);
      if k < i { Above(bs, k, i); } else if i < k { Above(bs, i, k); }
      HeaderKept(m, n, lo, hi, bs[k], AddrOf(bs, k + 1));
    }
    forall c | c in bs && c.used && c != b
      ensures SameBytes(m, n, c.Ptr(), c.End())
    {
      LiveDisjoint(bs, b, c);
    }
  }

  ghost predicate BlocksKept(m: seq<byte>, n: seq<byte>, owned: set<Block>) {
    SameBytes(m, n, 0, MEMORY_START) && forall b | b in owned :: SameBytes(m, n, b.Ptr(), b.End())
  }
}
