/**
 The block list of the kernel heap as a value: what one allocation and one release do to
 it, and what holds after any run of them.
 */
module HeapSpec {
  import opened Bytes

  const MEMORY_START := 0x1_0000
  const MEMORY_END := 0x10_0000
  const HEADER := 12        // three 32-bit words: size, used, next
  const SPLIT_SLACK := 16

  datatype Block = Block(addr: int, size: int, used: bool) {
    /** The address handed to the client. */
    function Ptr(): int { addr + HEADER }

    /** One past the last payload byte. */
    function End(): int { addr + HEADER + size }
  }

  // ---------------------------------------------------------------- invariant

  /** The block at `i` has a sensible size and the next one starts where it ends. */
  ghost predicate LinkAt(bs: seq<Block>, i: int)
    requires 0 <= i < |bs|
  {
    && bs[i].size >= 0
    && bs[i].size % 4 == 0
    && (i + 1 < |bs| ==> bs[i + 1].addr == bs[i].End())
  }

  ghost predicate Linked(bs: seq<Block>) {
    forall i | 0 <= i < |bs| :: LinkAt(bs, i)
  }

  /** The blocks lie end to end, without gap or overlap, from the first byte to the last. */
  ghost predicate Tiled(bs: seq<Block>) {
    && |bs| > 0
    && bs[0].addr == MEMORY_START
    && bs[|bs| - 1].End() == MEMORY_END
    && Linked(bs)
  }

  ghost predicate ApartAt(bs: seq<Block>, i: int)
    requires 0 <= i < |bs|
  {
    i + 1 < |bs| ==> bs[i].used || bs[i + 1].used
  }

  /** No two neighbours are both free. */
  ghost predicate Coalesced(bs: seq<Block>) {
    forall i | 0 <= i < |bs| :: ApartAt(bs, i)
  }

  ghost predicate Canonical(bs: seq<Block>) {
    Tiled(bs) && Coalesced(bs)
  }

  function UsedBytes(bs: seq<Block>): (n: int) {
    if bs == [] then 0
    else UsedBytes(bs[..|bs| - 1]) + (if bs[|bs| - 1].used then bs[|bs| - 1].size else 0)
  }

  ghost function UsedSet(bs: seq<Block>): set<Block> {
    set b | b in bs && b.used
  }

  const INITIAL: seq<Block> := [Block(MEMORY_START, MEMORY_END - MEMORY_START - HEADER, false)]

  /** A block lies wholly below every later one. */
  lemma {:induction false} Above(bs: seq<Block>, i: int, j: int)
    requires Linked(bs) && 0 <= i <= j < |bs|
    ensures bs[i].addr <= bs[j].addr
    ensures i < j ==> bs[i].End() <= bs[j].addr
    decreases j - i
  {
    if i < j {
      Above(bs, i, j - 1);
      assert LinkAt(bs, j - 1);
    }
  }

  /** Blocks are told apart by their addresses. */
  lemma SameAddress(bs: seq<Block>, i: int, j: int)
    requires Linked(bs) && 0 <= i < |bs| && 0 <= j < |bs|
    requires bs[i].addr == bs[j].addr
    ensures i == j
  {
    assert LinkAt(bs, i) && LinkAt(bs, j);
    if i < j { Above(bs, i, j); } else { Above(bs, j, i); }
  }

  lemma {:induction false} Aligned(bs: seq<Block>, i: int)
    requires Tiled(bs) && 0 <= i < |bs|
    ensures bs[i].addr % 4 == 0
  {
    if i > 0 {
      Aligned(bs, i - 1);
      assert LinkAt(bs, i - 1);
    }
  }

  /** Every block is 4-aligned and inside the region. */
  lemma InRegion(bs: seq<Block>, i: int)
    requires Tiled(bs) && 0 <= i < |bs|
    ensures MEMORY_START <= bs[i].addr && bs[i].addr % 4 == 0 && bs[i].End() <= MEMORY_END
    ensures 0 <= bs[i].size < MEMORY_END && bs[i].size % 4 == 0
    ensures i + 1 < |bs| ==> bs[i + 1].addr == bs[i].End()
  {
    Aligned(bs, i);
    Above(bs, 0, i);
    Above(bs, i, |bs| - 1);
    assert LinkAt(bs, i) && LinkAt(bs, |bs| - 1);
  }

  // ---------------------------------------------------------------- allocation

  /** The list with the blocks at positions `i` up to `j` replaced by `c`. */
  function Spliced(bs: seq<Block>, i: int, j: int, c: seq<Block>): seq<Block>
    requires 0 <= i <= j <= |bs|
  {
    bs[..i] + c + bs[j..]
  }

  /** Rounds a request up to a multiple of 4 in 32-bit arithmetic, wrapping above 0xFFFFFFFC. */
  function RoundUp(request: uint32): (size: uint32)
  {
    (request + 3) % WORD_LIMIT / 4 * 4
  }

  predicate Fits(b: Block, size: int) {
    !b.used && b.size >= size
  }

  /** The position of the best block for `size` bytes among the first `n`, -1 if none is large enough. */
  function BestAmong(bs: seq<Block>, n: int, size: int): (r: int)
    requires 0 <= n <= |bs|
    ensures -1 <= r < n
  {
    if n == 0 then -1
    else
      var r := BestAmong(bs, n - 1, size);
      if Fits(bs[n - 1], size) && (r < 0 || bs[n - 1].size < bs[r].size) then n - 1 else r
  }

  function BestFit(bs: seq<Block>, size: int): (r: int) {
    BestAmong(bs, |bs|, size)
  }

  /** The smallest sufficient free block, the first one among equals. */
  lemma {:induction false} BestFitIsBest(bs: seq<Block>, n: int, size: int)
    requires 0 <= n <= |bs|
    ensures var r := BestAmong(bs, n, size);
            if r < 0 then forall j | 0 <= j < n :: !Fits(bs[j], size) else IsBestFit(bs[..n], size, r)
  {
    if n > 0 {
      BestFitIsBest(bs, n - 1, size);
    }
  }

  ghost predicate IsBestFit(bs: seq<Block>, size: int, r: int) {
    && 0 <= r < |bs|
    && Fits(bs[r], size)
    && forall j | 0 <= j < |bs| && Fits(bs[j], size) ::
         bs[r].size <= bs[j].size && (bs[j].size == bs[r].size ==> r <= j)
  }

  /** The first free block that is large enough, -1 if there is none. */
  function FirstFit(bs: seq<Block>, size: int): (r: int)
    ensures if r < 0 then r == -1 && forall j | 0 <= j < |bs| :: !Fits(bs[j], size)
            else r < |bs| && Fits(bs[r], size) && forall j | 0 <= j < r :: !Fits(bs[j], size)
  {
    if bs == [] then -1
    else
      var n := |bs| - 1;
      assert forall j | 0 <= j < n :: bs[..n][j] == bs[j];
      var r := FirstFit(bs[..n], size);
      if r >= 0 then r else if Fits(bs[n], size) then n else -1
  }

  /** Best fit answers with the first fit exactly when no later block that is large enough is smaller. */
  lemma BestIsFirstIff(bs: seq<Block>, size: int)
    ensures var f := FirstFit(bs, size);
            BestFit(bs, size) == f <==> f < 0 || forall j | f < j < |bs| && Fits(bs[j], size) :: bs[f].size <= bs[j].size
  {
    BestFitIsBest(bs, |bs|, size);
    assert bs[..|bs|] == bs;
  }

  /** A free block put to use for `size` bytes; the tail is split off when it is worth it. */
  function Carve(b: Block, size: int): (bs: seq<Block>)
  {
    if b.size > size + HEADER + SPLIT_SLACK then
      [Block(b.addr, size, true), Block(b.addr + HEADER + size, b.size - size - HEADER, false)]
    else
      [b.(used := true)]
  }

  function AllocAt(bs: seq<Block>, i: int, size: int): seq<Block>
    requires 0 <= i < |bs|
  {
    Spliced(bs, i, i + 1, Carve(bs[i], size))
  }

  datatype Allocation = Allocation(blocks: seq<Block>, ptr: int)

  /** The block list after a request, and the address it answers with (0 for none). */
  function Alloc(bs: seq<Block>, request: uint32): Allocation
  {
    if request == 0 then Allocation(bs, 0)
    else
      var size := RoundUp(request);
      var i := BestFit(bs, size);
      if i < 0 then Allocation(bs, 0)
      else Allocation(AllocAt(bs, i, size), bs[i].Ptr())
  }

  // ---------------------------------------------------------------- release

  /** Two neighbours as one free block. */
  function Joined(b: Block, c: Block): Block {
    b.(size := b.size + c.size + HEADER)
  }

  function MergeNext(bs: seq<Block>, i: int): (r: seq<Block>)
    requires 0 <= i < |bs|
    ensures i < |r|
  {
    if i + 1 < |bs| && !bs[i + 1].used then
      Spliced(bs, i, i + 2, [Joined(bs[i], bs[i + 1])])
    else bs
  }

  function MergePrevious(bs: seq<Block>, i: int): seq<Block>
    requires 0 <= i < |bs|
  {
    if 0 < i && !bs[i - 1].used then
      Spliced(bs, i - 1, i + 1, [Joined(bs[i - 1], bs[i])])
    else bs
  }

  function FreeAt(bs: seq<Block>, i: int): seq<Block>
    requires 0 <= i < |bs|
  {
    MergePrevious(MergeNext(bs[i := bs[i].(used := false)], i), i)
  }

  /** The position of the live block whose payload starts at `ptr`, or -1. */
  function LiveIndex(bs: seq<Block>, ptr: int): (r: int)
    ensures -1 <= r < |bs|
    ensures r >= 0 ==> bs[r].used && bs[r].Ptr() == ptr
    ensures r == -1 <==> forall j | 0 <= j < |bs| :: !(bs[j].used && bs[j].Ptr() == ptr)
  {
    if bs == [] then -1
    else
      var n := |bs| - 1;
      assert forall j | 0 <= j < n :: bs[..n][j] == bs[j];
      if bs[n].used && bs[n].Ptr() == ptr then n else LiveIndex(bs[..n], ptr)
  }

  /** Releasing an address that is not live changes nothing. */
  function Free(bs: seq<Block>, ptr: int): seq<Block>
  {
    var i := LiveIndex(bs, ptr);
    if i < 0 then bs else FreeAt(bs, i)
  }

  // ---------------------------------------------------------------- replacing a stretch of blocks

  lemma Slice(bs: seq<Block>, lo: int, hi: int)
    requires 0 <= lo <= hi <= |bs|
    ensures Linked(bs) ==> Linked(bs[lo..hi])
    ensures Coalesced(bs) ==> Coalesced(bs[lo..hi])
  {
    if Linked(bs) {
      forall i | 0 <= i < hi - lo ensures LinkAt(bs[lo..hi], i) { assert LinkAt(bs, lo + i); }
    }
    if Coalesced(bs) {
      forall i | 0 <= i < hi - lo ensures ApartAt(bs[lo..hi], i) { assert ApartAt(bs, lo + i); }
    }
  }

  lemma ConcatLinked(a: seq<Block>, b: seq<Block>)
    requires Linked(a) && Linked(b)
    requires a != [] && b != [] ==> b[0].addr == a[|a| - 1].End()
    ensures Linked(a + b)
  {
    forall i | 0 <= i < |a + b| ensures LinkAt(a + b, i) {
      if i < |a| { assert LinkAt(a, i); } else { assert LinkAt(b, i - |a|); }
    }
  }

  lemma ConcatCoalesced(a: seq<Block>, b: seq<Block>)
    requires Coalesced(a) && Coalesced(b)
    requires a != [] && b != [] ==> a[|a| - 1].used || b[0].used
    ensures Coalesced(a + b)
  {
    forall i | 0 <= i < |a + b| ensures ApartAt(a + b, i) {
      if i < |a| { assert ApartAt(a, i); } else { assert ApartAt(b, i - |a|); }
    }
  }

  /** Replacing a stretch of blocks by others that cover the same bytes keeps the tiling. */
  lemma SpliceTiled(bs: seq<Block>, i: int, j: int, c: seq<Block>)
    requires Tiled(bs) && 0 <= i < j <= |bs|
    requires c != [] && Linked(c)
    requires c[0].addr == bs[i].addr && c[|c| - 1].End() == bs[j - 1].End()
    ensures Tiled(Spliced(bs, i, j, c))
  {
    Slice(bs, 0, i);
    Slice(bs, j, |bs|);
    if i > 0 { InRegion(bs, i - 1); }
    InRegion(bs, j - 1);
    assert bs[..i] == bs[0..i] && bs[j..] == bs[j..|bs|];
    ConcatLinked(bs[..i], c);
    ConcatLinked(bs[..i] + c, bs[j..]);
  }

  lemma SpliceCoalesced(bs: seq<Block>, i: int, j: int, c: seq<Block>)
    requires Coalesced(bs) && 0 <= i < j <= |bs|
    requires c != [] && Coalesced(c)
    requires 0 < i ==> bs[i - 1].used || c[0].used
    requires j < |bs| ==> c[|c| - 1].used || bs[j].used
    ensures Coalesced(Spliced(bs, i, j, c))
  {
    Slice(bs, 0, i);
    Slice(bs, j, |bs|);
    assert bs[..i] == bs[0..i] && bs[j..] == bs[j..|bs|];
    ConcatCoalesced(bs[..i], c);
    ConcatCoalesced(bs[..i] + c, bs[j..]);
  }

  lemma UsedConcat(a: seq<Block>, b: seq<Block>)
    ensures UsedSet(a + b) == UsedSet(a) + UsedSet(b)
  {
  }

  lemma SpliceUsed(bs: seq<Block>, i: int, j: int, c: seq<Block>)
    requires 0 <= i <= j <= |bs|
    ensures UsedSet(Spliced(bs, i, j, c)) == UsedSet(bs[..i]) + UsedSet(c) + UsedSet(bs[j..])
    ensures UsedSet(bs) == UsedSet(bs[..i]) + UsedSet(bs[i..j]) + UsedSet(bs[j..])
  {
    assert bs == bs[..i] + bs[i..j] + bs[j..];
    UsedConcat(bs[..i], c);
    UsedConcat(bs[..i] + c, bs[j..]);
    UsedConcat(bs[..i], bs[i..j]);
    UsedConcat(bs[..i] + bs[i..j], bs[j..]);
  }

  lemma {:induction false} UsedBytesConcat(a: seq<Block>, b: seq<Block>)
    ensures UsedBytes(a + b) == UsedBytes(a) + UsedBytes(b)
  {
    if b == [] {
      assert a + b == a;
    } else {
      var n := |b| - 1;
      assert (a + b)[..|a + b| - 1] == a + b[..n];
      UsedBytesConcat(a, b[..n]);
    }
  }

  lemma SpliceUsedBytes(bs: seq<Block>, i: int, j: int, c: seq<Block>)
    requires 0 <= i <= j <= |bs|
    ensures UsedBytes(Spliced(bs, i, j, c)) == UsedBytes(bs) - UsedBytes(bs[i..j]) + UsedBytes(c)
  {
    assert bs == bs[..i] + bs[i..j] + bs[j..];
    UsedBytesConcat(bs[..i] + bs[i..j], bs[j..]);
    UsedBytesConcat(bs[..i], bs[i..j]);
    UsedBytesConcat(bs[..i] + c, bs[j..]);
    UsedBytesConcat(bs[..i], c);
  }

  // ---------------------------------------------------------------- preservation

  lemma CarveCovers(b: Block, size: int)
    requires Fits(b, size) && size >= 0 && size % 4 == 0 && b.size % 4 == 0
    ensures var c := Carve(b, size);
            && c != [] && Linked(c) && Coalesced(c)
            && c[0].addr == b.addr && c[|c| - 1].End() == b.End()
            && c[0].used && c[0].size >= size
  {
  }

  lemma CarveUsed(b: Block, size: int)
    requires !b.used
    ensures var c := Carve(b, size);
            c != [] && UsedSet(c) == {c[0]} && UsedBytes(c) == c[0].size
  {
    var c := Carve(b, size);
    assert UsedBytes([c[0]]) == c[0].size by { assert [c[0]][..0] == []; }
    if |c| == 2 { assert c[..1] == [c[0]]; }
  }

  lemma AllocCanonical(bs: seq<Block>, i: int, size: int)
    requires Canonical(bs) && 0 <= i < |bs|
    requires Fits(bs[i], size) && size >= 0 && size % 4 == 0
    ensures Canonical(AllocAt(bs, i, size))
  {
    InRegion(bs, i);
    CarveCovers(bs[i], size);
    SpliceTiled(bs, i, i + 1, Carve(bs[i], size));
    assert ApartAt(bs, i);
    SpliceCoalesced(bs, i, i + 1, Carve(bs[i], size));
  }

  lemma AllocUsed(bs: seq<Block>, i: int, size: int)
    requires Tiled(bs) && 0 <= i < |bs|
    requires Fits(bs[i], size) && size >= 0 && size % 4 == 0
    ensures UsedSet(AllocAt(bs, i, size)) == UsedSet(bs) + {Carve(bs[i], size)[0]}
    ensures UsedBytes(AllocAt(bs, i, size)) == UsedBytes(bs) + Carve(bs[i], size)[0].size
  {
    InRegion(bs, i);
    CarveUsed(bs[i], size);
    SpliceUsed(bs, i, i + 1, Carve(bs[i], size));
    SpliceUsedBytes(bs, i, i + 1, Carve(bs[i], size));
    assert bs[i..i + 1] == [bs[i]];
  }

  /** The stretch of blocks a release turns into one, from `First` up to `Past`. */
  function First(bs: seq<Block>, i: int): (lo: int)
    requires 0 <= i < |bs|
    ensures 0 <= lo <= i
  {
    if 0 < i && !bs[i - 1].used then i - 1 else i
  }

  function Past(bs: seq<Block>, i: int): (hi: int)
    requires 0 <= i < |bs|
    ensures i < hi <= |bs|
  {
    if i + 1 < |bs| && !bs[i + 1].used then i + 2 else i + 1
  }

  /** One free block over the extent of the blocks from `lo` up to `hi`. */
  function Hole(bs: seq<Block>, lo: int, hi: int): Block
    requires 0 <= lo < hi <= |bs|
  {
    Block(bs[lo].addr, bs[hi - 1].End() - bs[lo].addr - HEADER, false)
  }

  /** The list with the released block and its free neighbours replaced by one free block. */
  function Holed(bs: seq<Block>, i: int): seq<Block>
    requires 0 <= i < |bs|
  {
    Spliced(bs, First(bs, i), Past(bs, i), [Hole(bs, First(bs, i), Past(bs, i))])
  }

  lemma MergeNextIsSplice(bs: seq<Block>, i: int)
    requires 0 <= i < |bs| && LinkAt(bs, i)
    ensures MergeNext(bs[i := bs[i].(used := false)], i) == Spliced(bs, i, Past(bs, i), [Hole(bs, i, Past(bs, i))])
  {
  }

  lemma MergePreviousIsSplice(bs: seq<Block>, i: int)
    requires 0 <= i < |bs| && (i > 0 ==> LinkAt(bs, i - 1))
    requires bs[i].addr + HEADER <= bs[Past(bs, i) - 1].End()
    ensures MergePrevious(Spliced(bs, i, Past(bs, i), [Hole(bs, i, Past(bs, i))]), i) == Holed(bs, i)
  {
    var n := Spliced(bs, i, Past(bs, i), [Hole(bs, i, Past(bs, i))]);
    assert n[..i] == bs[..i] && n[i + 1..] == bs[Past(bs, i)..];
    if i > 0 && !bs[i - 1].used {
      assert n[..i - 1] == bs[..i - 1];
    }
  }

  /** Both merges together put one free block in place of the released one and its free neighbours. */
  lemma FreeIsSplice(bs: seq<Block>, i: int)
    requires Linked(bs) && 0 <= i < |bs| && bs[i].used
    ensures FreeAt(bs, i) == Holed(bs, i)
  {
    if i > 0 { assert LinkAt(bs, i - 1); }
    assert LinkAt(bs, i) && LinkAt(bs, Past(bs, i) - 1);
    MergeNextIsSplice(bs, i);
    MergePreviousIsSplice(bs, i);
  }

  lemma HoleUsed(bs: seq<Block>, i: int)
    requires 0 <= i < |bs| && bs[i].used
    ensures var s := bs[First(bs, i)..Past(bs, i)];
            UsedSet(s) == {bs[i]} && UsedBytes(s) == bs[i].size
  {
    var lo, hi := First(bs, i), Past(bs, i);
    var p := if lo < i then [bs[lo]] else [];
    var q := if i + 1 < hi then [bs[i + 1]] else [];
    assert bs[lo..hi] == p + [bs[i]] + q;
    UsedBytesConcat(p + [bs[i]], q);
    UsedBytesConcat(p, [bs[i]]);
  }

  lemma HoledCanonical(bs: seq<Block>, i: int)
    requires Canonical(bs) && 0 <= i < |bs| && bs[i].used
    ensures Canonical(Holed(bs, i))
  {
    var lo, hi := First(bs, i), Past(bs, i);
    InRegion(bs, lo);
    InRegion(bs, hi - 1);
    Above(bs, lo, hi - 1);
    SpliceTiled(bs, lo, hi, [Hole(bs, lo, hi)]);
    if lo > 0 { assert ApartAt(bs, lo - 1); }
    assert ApartAt(bs, hi - 1);
    SpliceCoalesced(bs, lo, hi, [Hole(bs, lo, hi)]);
  }

  lemma HoledUsed(bs: seq<Block>, i: int)
    requires Linked(bs) && 0 <= i < |bs| && bs[i].used
    ensures UsedSet(Holed(bs, i)) == UsedSet(bs) - {bs[i]}
    ensures UsedBytes(Holed(bs, i)) == UsedBytes(bs) - bs[i].size
  {
    var lo, hi := First(bs, i), Past(bs, i);
    HoleUsed(bs, i);
    SpliceUsed(bs, lo, hi, [Hole(bs, lo, hi)]);
    SpliceUsedBytes(bs, lo, hi, [Hole(bs, lo, hi)]);
    OnlyOnce(bs, i);
    assert bs[i] !in bs[..lo] && bs[i] !in bs[hi..];
  }

  lemma FreeCanonical(bs: seq<Block>, i: int)
    requires Canonical(bs) && 0 <= i < |bs| && bs[i].used
    ensures Canonical(FreeAt(bs, i))
    ensures UsedSet(FreeAt(bs, i)) == UsedSet(bs) - {bs[i]}
    ensures UsedBytes(FreeAt(bs, i)) == UsedBytes(bs) - bs[i].size
  {
    FreeIsSplice(bs, i);
    HoledCanonical(bs, i);
    HoledUsed(bs, i);
  }

  /** No block occurs twice in a list. */
  lemma OnlyOnce(bs: seq<Block>, i: int)
    requires Linked(bs) && 0 <= i < |bs|
    ensures forall k | 0 <= k < |bs| && k != i :: bs[k] != bs[i]
  {
    forall k | 0 <= k < |bs| && k != i
      ensures bs[k] != bs[i]
    {
      if bs[k] == bs[i] { SameAddress(bs, i, k); }
    }
  }

  // ---------------------------------------------------------------- canonical form

  /** A tail of a canonical tiling. */
  ghost predicate Suffix(bs: seq<Block>) {
    Linked(bs) && Coalesced(bs) && (bs != [] ==> bs[|bs| - 1].End() == MEMORY_END)
  }

  /** A used block at the head of one list is at the head of the other. */
  lemma UsedAtHead(a: seq<Block>, b: seq<Block>)
    requires Suffix(a) && Suffix(b) && a != [] && b != []
    requires UsedSet(a) == UsedSet(b)
    requires a[0].addr == b[0].addr && a[0].used
    ensures b[0] == a[0]
  {
    assert a[0] in UsedSet(b);
    var k :| 0 <= k < |b| && b[k] == a[0];
    assert LinkAt(b, 0);
    Above(b, 0, k);
  }

  lemma UsedTail(a: seq<Block>)
    requires Suffix(a) && a != []
    ensures Suffix(a[1..])
    ensures UsedSet(a[1..]) == UsedSet(a) - {a[0]}
  {
    Slice(a, 1, |a|);
    assert a[1..] == a[1..|a|] && a == [a[0]] + a[1..];
    OnlyOnce(a, 0);
  }

  /** If both lists start with a free block, the second's is at least as long as the first's. */
  lemma FreeHeadLength(a: seq<Block>, b: seq<Block>)
    requires Suffix(a) && Suffix(b) && a != [] && b != []
    requires UsedSet(a) == UsedSet(b)
    requires a[0].addr == b[0].addr && !a[0].used && !b[0].used
    ensures a[0].size <= b[0].size
  {
    assert LinkAt(a, 0) && LinkAt(b, 0) && ApartAt(b, 0) && LinkAt(a, |a| - 1);
    if |b| > 1 {
      assert b[1] in UsedSet(a);
      var k :| 0 <= k < |a| && a[k] == b[1];
      Above(a, 0, k);
    } else {
      Above(a, 0, |a| - 1);
    }
  }

  /** Lists that end at the same place after equal heads have the same number of blocks left. */
  lemma BothEnd(a: seq<Block>, b: seq<Block>)
    requires Suffix(a) && Suffix(b) && a != [] && b != [] && a[0] == b[0]
    ensures |a| == 1 ==> |b| == 1
  {
    Above(b, 0, |b| - 1);
    assert LinkAt(b, |b| - 1);
  }

  lemma {:induction false} SuffixDetermined(a: seq<Block>, b: seq<Block>)
    requires Suffix(a) && Suffix(b)
    requires UsedSet(a) == UsedSet(b)
    requires a == [] <==> b == []
    requires a != [] ==> a[0].addr == b[0].addr
    ensures a == b
  {
    if a != [] {
      if a[0].used {
        UsedAtHead(a, b);
      } else if b[0].used {
        UsedAtHead(b, a);
      } else {
        FreeHeadLength(a, b);
        FreeHeadLength(b, a);
      }
      BothEnd(a, b);
      BothEnd(b, a);
      UsedTail(a);
      UsedTail(b);
      assert LinkAt(a, 0) && LinkAt(b, 0);
      SuffixDetermined(a[1..], b[1..]);
      assert a == [a[0]] + a[1..] && b == [b[0]] + b[1..];
    }
  }

  /** The live blocks determine the whole list: no history can be read off the heap. */
  lemma CanonicalForm(a: seq<Block>, b: seq<Block>)
    requires Canonical(a) && Canonical(b)
    requires UsedSet(a) == UsedSet(b)
    ensures a == b
  {
    SuffixDetermined(a, b);
  }

  // ---------------------------------------------------------------- one request, one release

  predicate Grants(bs: seq<Block>, request: uint32) {
    request != 0 && BestFit(bs, RoundUp(request)) >= 0
  }

  /** The live block a successful request creates. */
  function Grant(bs: seq<Block>, request: uint32): Block
    requires Grants(bs, request)
  {
    Carve(bs[BestFit(bs, RoundUp(request))], RoundUp(request))[0]
  }

  lemma AllocGrants(bs: seq<Block>, request: uint32)
    requires Canonical(bs) && Grants(bs, request)
    ensures var a, g := Alloc(bs, request), Grant(bs, request);
            && Canonical(a.blocks)
            && a.ptr == g.Ptr() >= MEMORY_START + HEADER
            && g.used && g in a.blocks && g !in UsedSet(bs) && g.End() <= MEMORY_END
            && g.size >= RoundUp(request)
            && UsedSet(a.blocks) == UsedSet(bs) + {g}
            && UsedBytes(a.blocks) == UsedBytes(bs) + g.size
  {
    var size := RoundUp(request);
    var i := BestFit(bs, size);
    BestFitIsBest(bs, |bs|, size);
    InRegion(bs, i);
    CarveCovers(bs[i], size);
    AllocCanonical(bs, i, size);
    AllocUsed(bs, i, size);
    assert AllocAt(bs, i, size)[i] == Grant(bs, request);
    InRegion(AllocAt(bs, i, size), i);
    GrantIsNew(bs, i, Grant(bs, request));
  }

  /**
   A granted block begins where the chosen one began; with more than 28 bytes to spare it has exactly the
   rounded size and the rest stays free behind a header of its own, otherwise it is the whole block.
   */
  lemma GrantIs(bs: seq<Block>, request: uint32)
    requires Grants(bs, request)
    ensures var i, size := BestFit(bs, RoundUp(request)), RoundUp(request);
            var b, g := bs[i], Grant(bs, request);
            && g.addr == b.addr && g.used && Alloc(bs, request).ptr == b.addr + 12
            && if b.size > size + 28 then
                 && g.size == size
                 && Alloc(bs, request).blocks == bs[..i] + [g, Block(b.addr + 12 + size, b.size - size - 12, false)] + bs[i + 1..]
               else
                 g.size == b.size && Alloc(bs, request).blocks == bs[i := g]
  {
    var i := BestFit(bs, RoundUp(request));
    var b, g := bs[i], Grant(bs, request);
    BestFitIsBest(bs, |bs|, RoundUp(request));
    if b.size <= RoundUp(request) + 28 { assert bs[i := g] == bs[..i] + [g] + bs[i + 1..]; }
  }

  lemma GrantIsNew(bs: seq<Block>, i: int, g: Block)
    requires Linked(bs) && 0 <= i < |bs| && !bs[i].used
    requires g.used && g.addr == bs[i].addr
    ensures g !in bs
  {
    forall k | 0 <= k < |bs|
      ensures bs[k] != g
    {
      if bs[k] == g { SameAddress(bs, i, k); }
    }
  }

  lemma AllocRefuses(bs: seq<Block>, request: uint32)
    requires Tiled(bs)
    ensures Alloc(bs, request).ptr == 0 <==> !Grants(bs, request)
    ensures !Grants(bs, request) ==> Alloc(bs, request).blocks == bs
  {
    if Grants(bs, request) { InRegion(bs, BestFit(bs, RoundUp(request))); }
  }

  /** `b` is the lowest-addressed among the smallest free blocks of at least `size` bytes. */
  ghost predicate Chosen(bs: seq<Block>, b: Block, size: int) {
    && b in bs
    && Fits(b, size)
    && forall c | c in bs && Fits(c, size) :: b.size < c.size || (b.size == c.size && b.addr <= c.addr)
  }

  /** `g` is what a client gets of `b`: its front, with too short a tail left on. */
  ghost predicate Granted(b: Block, g: Block, size: int) {
    && g.used
    && g.addr == b.addr
    && g.size == (if b.size <= size + HEADER + SPLIT_SLACK then b.size else size)
  }

  /**
   A non-zero request is refused only when no free block is large enough; otherwise it is
   answered from the lowest-addressed among the smallest sufficient free blocks.
   */
  lemma AllocBestFit(bs: seq<Block>, request: uint32)
    requires Tiled(bs) && request != 0
    ensures var size := RoundUp(request);
            if Alloc(bs, request).ptr == 0 then forall b | b in bs :: !Fits(b, size)
            else exists b | b in bs ::
              Chosen(bs, b, size) && Granted(b, Grant(bs, request), size)
  {
    AllocRefuses(bs, request);
    var size := RoundUp(request);
    var i := BestFit(bs, size);
    BestFitIsBest(bs, |bs|, size);
    if i >= 0 {
      forall c | c in bs && Fits(c, size)
        ensures bs[i].size < c.size || (bs[i].size == c.size && bs[i].addr <= c.addr)
      {
        var k :| 0 <= k < |bs| && bs[k] == c;
        if i <= k { Above(bs, i, k); }
      }
      assert Chosen(bs, bs[i], size) && Granted(bs[i], Grant(bs, request), size);
    }
  }

  /** A granted block holds the bytes asked for exactly when rounding the request does not wrap. */
  lemma UsableIff(request: uint32)
    requires request != 0
    ensures RoundUp(request) >= request <==> request <= 0xFFFF_FFFC
    ensures request <= 0xFFFF_FFFC ==> RoundUp(request) % 4 == 0 && RoundUp(request) < request + 4
    ensures request > 0xFFFF_FFFC ==> RoundUp(request) == 0
  {
    if request <= 0xFFFF_FFFC {
      assert (request + 3) % WORD_LIMIT == request + 3;
    } else {
      assert (request + 3) % WORD_LIMIT == request + 3 - WORD_LIMIT;
    }
  }

  /** The largest request wraps to zero and is answered with an empty block. */
  lemma UnusableRequest()
    ensures Alloc(INITIAL, 0xFFFF_FFFF).ptr == MEMORY_START + HEADER
    ensures Block(MEMORY_START, 0, true) in Alloc(INITIAL, 0xFFFF_FFFF).blocks
  {
    UsableIff(0xFFFF_FFFF);
    var b := INITIAL[0];
    assert BestFit(INITIAL, 0) == 0;
    assert Carve(b, 0)[0] == Block(MEMORY_START, 0, true);
    assert Alloc(INITIAL, 0xFFFF_FFFF).blocks[0] == Block(MEMORY_START, 0, true);
  }

  /** Distinct live blocks have disjoint payloads, hence distinct non-null addresses. */
  lemma LiveDisjoint(bs: seq<Block>, b: Block, c: Block)
    requires Linked(bs) && b in bs && c in bs && b != c
    ensures b.End() <= c.addr || c.End() <= b.addr
    ensures b.Ptr() != c.Ptr()
  {
    var i :| 0 <= i < |bs| && bs[i] == b;
    var k :| 0 <= k < |bs| && bs[k] == c;
    assert LinkAt(bs, i) && LinkAt(bs, k);
    if k < i { Above(bs, k, i); } else { Above(bs, i, k); }
  }

  lemma LiveFound(bs: seq<Block>, b: Block)
    requires Linked(bs) && b in bs && b.used
    ensures LiveIndex(bs, b.Ptr()) >= 0 && bs[LiveIndex(bs, b.Ptr())] == b
  {
    var c := bs[LiveIndex(bs, b.Ptr())];
    if c != b { LiveDisjoint(bs, b, c); }
  }

  lemma FreeLive(bs: seq<Block>, b: Block)
    requires Canonical(bs) && b in bs && b.used
    ensures Canonical(Free(bs, b.Ptr()))
    ensures UsedSet(Free(bs, b.Ptr())) == UsedSet(bs) - {b}
    ensures UsedBytes(Free(bs, b.Ptr())) == UsedBytes(bs) - b.size
  {
    LiveFound(bs, b);
    FreeCanonical(bs, LiveIndex(bs, b.Ptr()));
  }

  lemma NullNotLive(bs: seq<Block>)
    requires Tiled(bs)
    ensures LiveIndex(bs, 0) < 0 && Free(bs, 0) == bs
  {
    if LiveIndex(bs, 0) >= 0 { InRegion(bs, LiveIndex(bs, 0)); }
  }

  /** Releasing a block at once restores the list exactly, whether or not it had been split. */
  lemma FreeUndoesAlloc(bs: seq<Block>, request: uint32)
    requires Canonical(bs)
    ensures Free(Alloc(bs, request).blocks, Alloc(bs, request).ptr) == bs
  {
    AllocRefuses(bs, request);
    if Grants(bs, request) {
      var a, g := Alloc(bs, request), Grant(bs, request);
      AllocGrants(bs, request);
      FreeLive(a.blocks, g);
      CanonicalForm(Free(a.blocks, a.ptr), bs);
    } else {
      NullNotLive(bs);
    }
  }

  /** A second release of the same address changes nothing. */
  lemma FreeTwice(bs: seq<Block>, ptr: int)
    requires Canonical(bs)
    ensures Free(Free(bs, ptr), ptr) == Free(bs, ptr)
  {
    var i := LiveIndex(bs, ptr);
    if i >= 0 {
      FreeLive(bs, bs[i]);
      var r := Free(bs, ptr);
      var j := LiveIndex(r, ptr);
      if j >= 0 {
        assert r[j] in UsedSet(r);
        LiveDisjoint(bs, bs[i], r[j]);
      }
    }
  }

  // ---------------------------------------------------------------- runs

  datatype Operation = Request(size: uint32) | Release(ptr: int)

  /** A heap together with the addresses its clients were given and have not released. */
  datatype Ledger = Ledger(blocks: seq<Block>, owed: set<int>)

  function Step(l: Ledger, op: Operation): Ledger {
    match op
    case Request(size) =>
      var a := Alloc(l.blocks, size);
      Ledger(a.blocks, if a.ptr == 0 then l.owed else l.owed + {a.ptr})
    case Release(ptr) =>
      Ledger(Free(l.blocks, ptr), l.owed - {ptr})
  }

  function After(ops: seq<Operation>): Ledger {
    if ops == [] then Ledger(INITIAL, {})
    else Step(After(ops[..|ops| - 1]), ops[|ops| - 1])
  }

  ghost function LivePtrs(bs: seq<Block>): set<int> {
    set b | b in UsedSet(bs) :: b.Ptr()
  }

  /** Every reachable heap is canonical, and its live blocks are those still owed. */
  lemma {:induction false} RunKeeps(ops: seq<Operation>)
    ensures Canonical(After(ops).blocks)
    ensures After(ops).owed == LivePtrs(After(ops).blocks)
  {
    if ops != [] {
      RunKeeps(ops[..|ops| - 1]);
      StepKeeps(After(ops[..|ops| - 1]), ops[|ops| - 1]);
    }
  }

  lemma StepKeeps(l: Ledger, op: Operation)
    requires Canonical(l.blocks) && l.owed == LivePtrs(l.blocks)
    ensures Canonical(Step(l, op).blocks)
    ensures Step(l, op).owed == LivePtrs(Step(l, op).blocks)
  {
    match op
    case Request(size) =>
      AllocRefuses(l.blocks, size);
      if Grants(l.blocks, size) { AllocGrants(l.blocks, size); }
    case Release(ptr) =>
      ReleaseKeeps(l.blocks, ptr);
  }

  lemma ReleaseKeeps(bs: seq<Block>, ptr: int)
    requires Canonical(bs)
    ensures Canonical(Free(bs, ptr))
    ensures LivePtrs(Free(bs, ptr)) == LivePtrs(bs) - {ptr}
  {
    var i := LiveIndex(bs, ptr);
    if i >= 0 {
      FreeLive(bs, bs[i]);
      LivePtrsWithout(bs, bs[i]);
    } else {
      assert ptr !in LivePtrs(bs);
    }
  }

  lemma LivePtrsWithout(bs: seq<Block>, b: Block)
    requires Linked(bs) && b in bs && b.used
    ensures (set c | c in UsedSet(bs) - {b} :: c.Ptr()) == LivePtrs(bs) - {b.Ptr()}
  {
    forall c | c in UsedSet(bs) && c != b
      ensures c.Ptr() != b.Ptr()
    {
      LiveDisjoint(bs, b, c);
    }
  }

  /** However requests and releases are interleaved, once nothing is owed the heap is as at the start. */
  lemma EverythingReleased(ops: seq<Operation>)
    requires After(ops).owed == {}
    ensures After(ops).blocks == INITIAL
    ensures UsedBytes(After(ops).blocks) == 0
  {
    RunKeeps(ops);
    var bs := After(ops).blocks;
    forall b | b in bs
      ensures !b.used
    {
      assert b.used ==> b.Ptr() in LivePtrs(bs);
    }
    assert UsedSet(INITIAL) == {};
    CanonicalForm(bs, INITIAL);
  }

  // ---------------------------------------------------------------- two runs

  lemma AfterMore(ops: seq<Operation>, op: Operation)
    ensures After(ops + [op]) == Step(After(ops), op)
  {
    assert (ops + [op])[..|ops|] == ops;
  }

  lemma RequestLast(bs: seq<Block>, request: uint32)
    requires bs != [] && request != 0 && (forall j | 0 <= j < |bs| - 1 :: bs[j].used) && Fits(bs[|bs| - 1], RoundUp(request))
    ensures Alloc(bs, request) == Allocation(bs[..|bs| - 1] + Carve(bs[|bs| - 1], RoundUp(request)), bs[|bs| - 1].Ptr())
  {
    var n := |bs| - 1;
    BestFitIsBest(bs, |bs|, RoundUp(request));
    assert bs[..|bs|] == bs;
    assert BestFit(bs, RoundUp(request)) == n;
    assert bs[n + 1..] == [];
  }

  const LARGE: uint32 := 982900

  const GAP: seq<Block> := [
    Block(MEMORY_START, LARGE, false), Block(MEMORY_START + LARGE + HEADER, 4, true),
    Block(MEMORY_START + LARGE + HEADER + 4 + HEADER, 100, false)]

  lemma GapMade()
    ensures After([Request(LARGE)] + [Request(4)]).blocks == GAP[0 := GAP[0].(used := true)]
  {
    var one := [Block(MEMORY_START, LARGE, true), Block(MEMORY_START + LARGE + HEADER, 116, false)];
    AfterOne(Request(LARGE));
    RequestLast(INITIAL, LARGE);
    assert Alloc(INITIAL, LARGE).blocks == one;
    AfterMore([Request(LARGE)], Request(4));
    RequestLast(one, 4);
    hide After, Alloc;
  }

  lemma AfterOne(op: Operation)
    ensures After([op]) == Step(Ledger(INITIAL, {}), op)
  {
    assert [op][..0] == [];
  }

  lemma GapFits()
    ensures Free(GAP[0 := GAP[0].(used := true)], MEMORY_START + HEADER) == GAP
    ensures FirstFit(GAP, 8) == 0 && BestFit(GAP, 8) == 2 && Alloc(GAP, 8).ptr == GAP[2].Ptr()
  {
    var two := GAP[0 := GAP[0].(used := true)];
    assert GAP[0] == Block(MEMORY_START, LARGE, false) && GAP[1].used && GAP[2].size == 100 && !GAP[2].used;
    assert GAP[..3] == GAP && Fits(GAP[2], 8);
    assert Fits(GAP[0], 8);
    assert FreeAt(two, 0) == GAP;
    BestFitIsBest(GAP, 3, 8);
    assert GAP[..3] == GAP && Fits(GAP[2], 8) && Fits(GAP[0], 8) && !Fits(GAP[1], 8);
    hide BestAmong, LiveIndex, FreeAt;
  }

  /** A heap in which eight bytes are not taken from the first block that has them. */
  lemma NotFirstFit()
    ensures After([Request(LARGE), Request(4)] + [Release(MEMORY_START + HEADER)]).blocks == GAP
    ensures FirstFit(GAP, 8) == 0 && BestFit(GAP, 8) == 2 && Alloc(GAP, 8).ptr == GAP[2].Ptr()
  {
    GapMade();
    GapFits();
    AfterMore([Request(LARGE), Request(4)], Release(MEMORY_START + HEADER));
    assert [Request(LARGE)] + [Request(4)] == [Request(LARGE), Request(4)];
    hide After, Free, FirstFit, BestAmong, BestFit;
  }

  const P := MEMORY_START + HEADER
  const Q := P + 100 + HEADER

  const TWICE: seq<Operation> := [Request(100), Request(100), Release(P), Release(Q), Request(200)]

  lemma TwiceRequested()
    ensures After([Request(100)] + [Request(100)]).owed == {P, Q}
  {
    var one := [Block(MEMORY_START, 100, true), Block(MEMORY_START + 100 + HEADER, 982916, false)];
    AfterOne(Request(100));
    RequestLast(INITIAL, 100);
    assert Alloc(INITIAL, 100) == Allocation(one, P);
    AfterMore([Request(100)], Request(100));
    RequestLast(one, 100);
    hide After, Alloc;
  }

  lemma TwiceReleased()
    ensures After([Request(100), Request(100), Release(P)] + [Release(Q)]) == Ledger(INITIAL, {})
  {
    TwiceRequested();
    assert [Request(100)] + [Request(100)] == [Request(100), Request(100)];
    AfterMore([Request(100), Request(100)], Release(P));
    assert [Request(100), Request(100)] + [Release(P)] == [Request(100), Request(100), Release(P)];
    AfterMore([Request(100), Request(100), Release(P)], Release(Q));
    EverythingReleased([Request(100), Request(100), Release(P)] + [Release(Q)]);
    hide After, Free;
  }

  /** The flag word of a released block can lie in the payload of a later one, whose owner may write it. */
  lemma StaleFlagOwned()
    ensures var l := After(TWICE);
            && Q !in l.owed && LiveIndex(l.blocks, Q) < 0
            && exists b | b in UsedSet(l.blocks) :: b.Ptr() <= Q - HEADER + 4 && Q - HEADER + 8 <= b.End()
  {
    TwiceReleased();
    var front := [Request(100), Request(100), Release(P), Release(Q)];
    assert [Request(100), Request(100), Release(P)] + [Release(Q)] == front;
    AfterMore(front, Request(200));
    assert front + [Request(200)] == TWICE;
    RequestLast(INITIAL, 200);
    var b := Block(MEMORY_START, 200, true);
    assert Alloc(INITIAL, 200).blocks == [b, Block(MEMORY_START + 200 + HEADER, 982816, false)];
    hide After, Alloc;
    assert b in UsedSet(After(TWICE).blocks);
  }

  // ---------------------------------------------------------------- what memory_get_free reports

  ghost function FreeBytes(bs: seq<Block>): int {
    if bs == [] then 0
    else FreeBytes(bs[..|bs| - 1]) + (if bs[|bs| - 1].used then 0 else bs[|bs| - 1].size)
  }

  lemma {:induction false} BytesAddUp(bs: seq<Block>)
    requires Linked(bs) && bs != []
    ensures UsedBytes(bs) + FreeBytes(bs) + HEADER * |bs| == bs[|bs| - 1].End() - bs[0].addr
  {
    var n := |bs| - 1;
    var front := bs[..n];
    if n > 0 {
      Slice(bs, 0, n);
      assert front == bs[0..n];
      BytesAddUp(front);
      assert LinkAt(bs, n - 1);
    }
  }

  /** Total minus used overstates the bytes a client can still get by one header a block. */
  lemma ReportedFree(bs: seq<Block>)
    requires Tiled(bs)
    ensures MEMORY_END - MEMORY_START - UsedBytes(bs) == FreeBytes(bs) + HEADER * |bs|
  {
    BytesAddUp(bs);
  }
}
