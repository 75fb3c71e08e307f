/**
 The kernel heap over physical memory. The block headers are threaded through the bytes the
 heap manages; `blocks` is the list they spell out.
 */
module KernelHeap {
  import opened Bytes
  import S = HeapSpec
  import opened HeapSpec
  import opened HeapLayout

  const NONE_YET := 0xFFFF_FFFF

  class Heap {
    const mem: array<byte>     // indexed by physical address
    var head: int
    var total: int
    var usedBytes: int
    ghost var blocks: seq<Block>

    ghost predicate WellFormed()
      reads this, mem
    {
      && mem.Length == MEMORY_END
      && head == MEMORY_START
      && total == MEMORY_END - MEMORY_START
      && Tiled(blocks)
      && Threaded(mem[..], blocks)
    }

    ghost predicate Valid()
      reads this, mem
    {
      && WellFormed()
      && Coalesced(blocks)
      && usedBytes == UsedBytes(blocks)
    }

    constructor ()
      ensures fresh(mem) && mem.Length == MEMORY_END
    {
      mem := new byte[MEMORY_END];
    }

    method StoreWord(a: int, w: uint32)
      requires 0 <= a <= mem.Length - 4
      modifies mem
      ensures Word(mem[..], a) == w
      ensures SameOutside(old(mem[..]), mem[..], a, a + 4)
    {
      assert Limit(4) == WORD_LIMIT;
      var b := NumberBytes(w, 4);
      mem[a], mem[a + 1], mem[a + 2], mem[a + 3] := b[0], b[1], b[2], b[3];
      NumberRoundTrip(mem[..], a, w, 4);
    }

    method LoadWord(a: int) returns (w: uint32)
      requires 0 <= a <= mem.Length - 4
      ensures w == Word(mem[..], a)
    {
      w := Word(mem[..], a);
    }

    method Init()
      requires mem.Length == MEMORY_END
      modifies this, mem
      ensures Valid() && blocks == INITIAL
      ensures Word(mem[..], 0x10000) == 0xF0000 - 12 && Word(mem[..], 0x10004) == 0 && Word(mem[..], 0x10008) == 0
    {
      total := MEMORY_END - MEMORY_START;
      usedBytes := 0;
      head := MEMORY_START;
      StoreHeader(head, total - HEADER, 0, 0);
      blocks := INITIAL;
      assert HeaderAt(mem[..], blocks, 0);
    }

    /** The three header words of the block at position `i`. */
    method LoadHeader(a: int, ghost i: int) returns (size: uint32, used: uint32, next: uint32)
      requires WellFormed() && 0 <= i < |blocks| && a == blocks[i].addr
      ensures size == blocks[i].size && used == (if blocks[i].used then 1 else 0) && next == AddrOf(blocks, i + 1)
    {
      assert HeaderAt(mem[..], blocks, i);
      size := LoadWord(a);
      used := LoadWord(a + 4);
      next := LoadWord(a + 8);
    }

    /** The walk over the list that remembers the best block so far; its position is `r`. */
    method FindBest(size: uint32) returns (best: int, ghost r: int)
      requires WellFormed()
      ensures r == BestFit(blocks, size)
      ensures if r < 0 then best == 0 else best == blocks[r].addr != 0
    {
      var current := head;
      best := 0;
      var bestSize := NONE_YET;
      ghost var i := 0;
      r := -1;
      while current != 0
        invariant 0 <= i <= |blocks| && current == AddrOf(blocks, i)
        invariant r == BestAmong(blocks, i, size)
        invariant if r < 0 then best == 0 && bestSize == NONE_YET
                  else best == blocks[r].addr && bestSize == blocks[r].size
        decreases |blocks| - i
      {
        InRegion(blocks, i);
        var blockSize, used, next := LoadHeader(current, i);
        if used == 0 && blockSize >= size {
          if blockSize < bestSize {
            best, bestSize, r := current, blockSize, i;
          }
        }
        current := next;
        i := i + 1;
      }
      if i < |blocks| { InRegion(blocks, i); }
      if r >= 0 { InRegion(blocks, r); }
    }

    // -------------------------------------------------------------- edits of the threaded list

    method SetUsed(b: int, used: bool, ghost i: int)
      requires WellFormed() && 0 <= i < |blocks| && b == blocks[i].addr
      modifies this`blocks, mem
      ensures WellFormed()
      ensures blocks == Spliced(old(blocks), i, i + 1, [old(blocks)[i].(used := used)])
      ensures 0 <= b <= mem.Length - HEADER && Word(mem[..], b + 4) == if used then 1 else 0
      ensures SameOutside(old(mem[..]), mem[..], b, b + HEADER)
    {
      assert HeaderAt(mem[..], blocks, i) && LinkAt(blocks, i);
      ghost var m0 := mem[..];
      StoreWord(b + 4, if used then 1 else 0);
      WordKept(m0, mem[..], b + 4, b + 8, b);
      WordKept(m0, mem[..], b + 4, b + 8, b + 8);
      OneWritten(m0, mem[..], blocks, i, i + 1, blocks[i].(used := used));
      blocks := Spliced(blocks, i, i + 1, [blocks[i].(used := used)]);
    }

    /** Gives the header at `a` a new size and a new successor. */
    method Relink(a: int, size: uint32, next: uint32, ghost b: Block, ghost was: int)
      requires HeaderIs(mem[..], b, was) && a == b.addr
      modifies mem
      ensures HeaderIs(mem[..], b.(size := size), next)
      ensures SameOutside(old(mem[..]), mem[..], a, a + HEADER)
    {
      ghost var m0 := mem[..];
      StoreWord(a, size);
      ghost var m1 := mem[..];
      StoreWord(a + 8, next);
      WordKept(m0, m1, a, a + 4, a + 4);
      WordKept(m1, mem[..], a + 8, a + HEADER, a);
      WordKept(m1, mem[..], a + 8, a + HEADER, a + 4);
    }

    /** Lets the block at `a` swallow the one after it, at `n`. */
    method Absorb(a: int, n: int, ghost i: int)
      requires WellFormed() && 0 <= i < |blocks| - 1
      requires a == blocks[i].addr && n == blocks[i + 1].addr
      modifies this`blocks, mem
      ensures WellFormed()
      ensures blocks == Spliced(old(blocks), i, i + 2, [Joined(old(blocks)[i], old(blocks)[i + 1])])
      ensures SameOutside(old(mem[..]), mem[..], a, a + HEADER)
    {
      ghost var m0, b := mem[..], Joined(blocks[i], blocks[i + 1]);
      assert HeaderAt(m0, blocks, i);
      JoinedCovers(blocks, i);
      var size, _, _ := LoadHeader(a, i);
      var nSize, _, nNext := LoadHeader(n, i + 1);
      Relink(a, size + nSize + HEADER, nNext, blocks[i], AddrOf(blocks, i + 1));
      OneWritten(m0, mem[..], blocks, i, i + 2, b);
      blocks := Spliced(blocks, i, i + 2, [b]);
    }

    /** Cuts a free block at `best` after `size` payload bytes. */
    method Split(best: int, size: uint32, ghost i: int)
      requires WellFormed() && 0 <= i < |blocks| && best == blocks[i].addr
      requires size % 4 == 0 && size + HEADER <= blocks[i].size && !blocks[i].used
      modifies this`blocks, mem
      ensures WellFormed()
      ensures blocks == Spliced(old(blocks), i, i + 1, Halves(old(blocks)[i], size))
      ensures SameOutside(old(mem[..]), mem[..], best, old(blocks)[i].End())
    {
      ghost var m0, b := mem[..], blocks[i];
      assert HeaderAt(m0, blocks, i);
      InRegion(blocks, i);
      var bestSize, _, bestNext := LoadHeader(best, i);
      var n := best + HEADER + size;
      assert n + HEADER <= b.End();
      StoreHeader(n, bestSize - size - HEADER, 0, bestNext);
      ghost var m1 := mem[..];
      HeaderKept(m0, m1, n, n + HEADER, b, AddrOf(blocks, i + 1));
      Relink(best, size, n, b, AddrOf(blocks, i + 1));
      assert Halves(b, size)[0] == b.(size := size);
      assert Halves(b, size)[1] == Block(n, b.size - size - HEADER, false);
      hide Halves, SameOutside, HeaderIs, Tiled, Threaded;
      HalvesWritten(m0, m1, mem[..], blocks, i, size);
      blocks := Spliced(blocks, i, i + 1, Halves(b, size));
    }

    /** Writes all three words of a header. */
    method StoreHeader(a: int, size: uint32, used: uint32, next: uint32)
      requires 0 <= a <= mem.Length - HEADER && used <= 1
      modifies mem
      ensures HeaderIs(mem[..], Block(a, size, used == 1), next)
      ensures SameOutside(old(mem[..]), mem[..], a, a + HEADER)
    {
      StoreWord(a, size);
      ghost var m1 := mem[..];
      StoreWord(a + 4, used);
      ghost var m2 := mem[..];
      StoreWord(a + 8, next);
      WordKept(m1, m2, a + 4, a + 8, a);
      WordKept(m2, mem[..], a + 8, a + HEADER, a);
      WordKept(m2, mem[..], a + 8, a + HEADER, a + 4);
    }
  
    // -------------------------------------------------------------- the operations

    /** Puts the free block at `best` to use, splitting off its tail when that is worth it. */
    method Occupy(best: int, size: uint32, ghost r: int)
      requires WellFormed() && 0 <= r < |blocks| && best == blocks[r].addr
      requires size % 4 == 0 && Fits(blocks[r], size)
      modifies this`blocks, mem
      ensures WellFormed()
      ensures blocks == AllocAt(old(blocks), r, size)
      ensures LiveKept(old(mem[..]), mem[..], old(blocks))
    {
      ghost var m0, was := mem[..], blocks;
      var bestSize, _, _ := LoadHeader(best, r);
      if bestSize > size + HEADER + SPLIT_SLACK {
        Split(best, size, r);
      }
      ghost var m1 := mem[..];
      InRegion(was, r);
      Untouched(m0, m1, was, r, was[r].End());
      SetUsed(best, true, r);
      Untouched(m1, mem[..], was, r, was[r].Ptr());
    }

    /**
     Best-fit allocation. The new list and the answer are those of the specification; the
     clients' bytes stay as they are.
     */
    method Alloc(request: uint32) returns (ptr: int)
      requires Valid()
      modifies this, mem
      ensures Valid()
      ensures Allocation(blocks, ptr) == S.Alloc(old(blocks), request)
      ensures LiveKept(old(mem[..]), mem[..], old(blocks))
    {
      if request == 0 { return 0; }
      var size := RoundUp(request);
      var best, r := FindBest(size);
      if best == 0 { return 0; }
      BestFitIsBest(blocks, |blocks|, size);
      AllocGrants(blocks, request);
      InRegion(blocks, r);
      Occupy(best, size, r);
      assert blocks[r] == Grant(old(blocks), request);
      var granted, _, _ := LoadHeader(best, r);
      usedBytes := usedBytes + granted;
      ptr := best + HEADER;
    }

    /** Walks to the block whose successor is `block`; 0 if that is the head. */
    method FindPrevious(block: int, ghost i: int) returns (current: int)
      requires WellFormed() && 0 <= i < |blocks| && block == blocks[i].addr
      ensures current == if i == 0 then 0 else blocks[i - 1].addr
    {
      InRegion(blocks, i);
      current := head;
      ghost var j := 0;
      while current != 0
        invariant 0 <= j <= |blocks| && current == AddrOf(blocks, j)
        invariant i > 0 ==> j < i
        decreases |blocks| - j
      {
        var _, _, next := LoadHeader(current, j);
        if next == block {
          SameAddress(blocks, j + 1, i);
          break;
        }
        current := next;
        j := j + 1;
      }
      if j < |blocks| { InRegion(blocks, j); }
    }

    /** `ptr` is live, or its header still carries the flag a release left there. */
    ghost predicate Releasable(ptr: int)
      reads this, mem
    {
      && HEADER <= ptr <= mem.Length
      && (LiveIndex(blocks, ptr) >= 0 || Word(mem[..], ptr - HEADER + 4) == 0)
    }

    method MergeWithNext(block: int, ghost i: int)
      requires WellFormed() && 0 <= i < |blocks| && block == blocks[i].addr
      modifies this`blocks, mem
      ensures WellFormed()
      ensures blocks == MergeNext(old(blocks), i)
      ensures SameOutside(old(mem[..]), mem[..], block, block + HEADER)
    {
      var _, _, next := LoadHeader(block, i);
      if i + 1 < |blocks| { InRegion(blocks, i + 1); }
      if next != 0 {
        var _, nextUsed, _ := LoadHeader(next, i + 1);
        if nextUsed == 0 {
          Absorb(block, next, i);
        }
      }
    }

    method MergeWithPrevious(block: int, ghost i: int)
      requires WellFormed() && 0 <= i < |blocks| && block == blocks[i].addr && !blocks[i].used
      modifies this`blocks, mem
      ensures WellFormed()
      ensures blocks == MergePrevious(old(blocks), i)
      ensures if i == 0 then mem[..] == old(mem[..])
              else SameOutside(old(mem[..]), mem[..], old(blocks)[i - 1].addr, old(blocks)[i - 1].addr + HEADER)
      ensures 0 <= block <= mem.Length - HEADER && Word(mem[..], block + 4) == 0
    {
      ghost var m0, was := mem[..], blocks;
      assert HeaderAt(m0, was, i);
      var current := FindPrevious(block, i);
      if i > 0 {
        InRegion(blocks, i - 1);
        assert blocks[i].addr == blocks[i - 1].End();
      }
      if current != 0 {
        var _, currentUsed, _ := LoadHeader(current, i - 1);
        if currentUsed == 0 {
          Absorb(current, block, i - 1);
          WordKept(m0, mem[..], current, current + HEADER, block + 4);
        }
      }
    }

    /** Turns the live block at `block` into free space. */
    method Vacate(block: int, ghost i: int)
      requires WellFormed() && 0 <= i < |blocks| && block == blocks[i].addr && blocks[i].used
      modifies this`blocks, mem
      ensures WellFormed()
      ensures blocks == FreeAt(old(blocks), i)
      ensures LiveKept(old(mem[..]), mem[..], old(blocks))
      ensures 0 <= block <= mem.Length - HEADER && Word(mem[..], block + 4) == 0
    {
      ghost var m0, was := mem[..], blocks;
      SetUsed(block, false, i);
      assert blocks == was[i := was[i].(used := false)];
      ghost var m1 := mem[..];
      Untouched(m0, m1, was, i, was[i].Ptr());
      MergeWithNext(block, i);
      ghost var m2 := mem[..];
      Untouched(m1, m2, was, i, was[i].Ptr());
      MergeWithPrevious(block, i);
      if i > 0 { Untouched(m2, mem[..], was, i - 1, was[i - 1].Ptr()); }
    }

    /** Release, merging with a free successor and then with a free predecessor. */
    method Free(ptr: int)
      requires Valid()
      requires ptr == 0 || Releasable(ptr)
      modifies this, mem
      ensures Valid()
      ensures blocks == S.Free(old(blocks), ptr)
      ensures LiveIndex(old(blocks), ptr) < 0 ==> mem[..] == old(mem[..])
      ensures LiveKept(old(mem[..]), mem[..], old(blocks))
      ensures ptr == 0 || Releasable(ptr)
    {
      NullNotLive(blocks);
      if ptr == 0 { return; }
      var block := ptr - HEADER;
      ghost var i := LiveIndex(blocks, ptr);
      assert i >= 0 ==> HeaderAt(mem[..], blocks, i);
      var used := LoadWord(block + 4);
      if used == 0 { return; }
      FreeCanonical(blocks, i);
      var size, _, _ := LoadHeader(block, i);
      Vacate(block, i);
      usedBytes := usedBytes - size;
    }
  
    /** The bytes not counted as used: free payload plus all headers. */
    method GetFree() returns (n: int)
      requires Valid()
      ensures n == FreeBytes(blocks) + HEADER * |blocks|
    {
      ReportedFree(blocks);
      n := total - usedBytes;
    }

    // -------------------------------------------------------------- raw bytes

    /** A client writes a word into its own block `b`. */
    method Poke(a: int, w: uint32, ghost b: Block)
      requires Valid() && b in UsedSet(blocks)
      requires b.Ptr() <= a && a + 4 <= b.End()
      modifies mem
      ensures Valid()
      ensures 0 <= a <= mem.Length - 4 && Word(mem[..], a) == w
      ensures SameOutside(old(mem[..]), mem[..], a, a + 4)
      ensures BlocksKept(old(mem[..]), mem[..], UsedSet(blocks) - {b})
    {
      ghost var m := mem[..];
      LiveFound(blocks, b);
      InRegion(blocks, LiveIndex(blocks, b.Ptr()));
      StoreWord(a, w);
      PayloadWritten(m, mem[..], blocks, b, a, a + 4);
    }

    /** A client copies bytes it holds elsewhere into its own block `b`. */
    method PokeBytes(a: int, data: seq<byte>, ghost b: Block)
      requires Valid() && b in UsedSet(blocks)
      requires b.Ptr() <= a && a + |data| <= b.End()
      modifies mem
      ensures Valid()
      ensures 0 <= a <= mem.Length - |data| && mem[a..a + |data|] == data
      ensures SameOutside(old(mem[..]), mem[..], a, a + |data|)
      ensures BlocksKept(old(mem[..]), mem[..], UsedSet(blocks) - {b})
    {
      ghost var m := mem[..];
      LiveFound(blocks, b);
      InRegion(blocks, LiveIndex(blocks, b.Ptr()));
      StoreBytes(a, data);
      PayloadWritten(m, mem[..], blocks, b, a, a + |data|);
    }

    method MemorySet(dest: int, value: byte, size: nat)
      requires 0 <= dest && dest + size <= mem.Length
      modifies mem
      ensures forall k | dest <= k < dest + size :: mem[k] == value
      ensures SameOutside(old(mem[..]), mem[..], dest, dest + size)
    {
      for i := 0 to size
        invariant forall k | dest <= k < dest + i :: mem[k] == value
        invariant SameOutside(old(mem[..]), mem[..], dest, dest + i)
      {
        mem[dest + i] := value;
      }
    }

    /** Where the byte that ends up at offset `i` comes from when bytes are copied upwards one by one. */
    static function Origin(dest: int, src: int, i: nat): (r: int)
      ensures src <= r <= src + i && (src < dest ==> r < dest)
    {
      if src < dest <= src + i then Origin(dest, src, i - (dest - src)) else src + i
    }

    /**
     A byte-by-byte copy from low to high addresses. It repeats the bytes below `dest` when
     `dest` lies inside the source, and copies them faithfully otherwise.
     */
    method MemoryCopy(dest: int, src: int, size: nat)
      requires 0 <= dest && dest + size <= mem.Length
      requires 0 <= src && src + size <= mem.Length
      modifies mem
      ensures forall i | 0 <= i < size :: mem[dest + i] == old(mem[Origin(dest, src, i)])
      ensures SameOutside(old(mem[..]), mem[..], dest, dest + size)
    {
      for i := 0 to size
        invariant forall k | 0 <= k < i :: mem[dest + k] == old(mem[Origin(dest, src, k)])
        invariant SameOutside(old(mem[..]), mem[..], dest, dest + i)
      {
        ghost var k := i - (dest - src);
        assert src < dest <= src + i ==> mem[dest + k] == old(mem[Origin(dest, src, k)]);
        mem[dest + i] := mem[src + i];
      }
    }

    /** Copies bytes the caller holds outside the heap. */
    method StoreBytes(dest: int, data: seq<byte>)
      requires 0 <= dest && dest + |data| <= mem.Length
      modifies mem
      ensures mem[dest..dest + |data|] == data
      ensures SameOutside(old(mem[..]), mem[..], dest, dest + |data|)
    {
      for i := 0 to |data|
        invariant forall k | 0 <= k < i :: mem[dest + k] == data[k]
        invariant SameOutside(old(mem[..]), mem[..], dest, dest + i)
      {
        mem[dest + i] := data[i];
      }
    }
  }
}
