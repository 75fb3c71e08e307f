/** Loading the filesystem from a storage handle into the entry table and the heap. */
module KernelFileLoad {
  import opened Bytes
  import opened Wrappers
  import opened CStrings
  import opened FileTree
  import opened FileOps
  import H = HeapSpec
  import opened HeapLayout
  import opened StorageSpec
  import F = FileStoreSpec
  import opened FileStoreSpec
  import opened FileStoreRoundTrip
  import opened KernelHeap
  import opened KernelFileSystem
  import opened KernelFileTable
  import opened KernelStorage

  // ---------------------------------------------------------------- buffers during a load

  ghost predicate LiveAt(v: Volume, i: int)
    requires |v.tree.entries| == |v.bufs| == |v.held| == MAX_ENTRIES && 0 <= i < MAX_ENTRIES
  {
    Holds(v, i) ==>
      && v.held[i] in H.UsedSet(v.blocks)
      && v.tree.entries[i].data == v.held[i].Ptr()
      && v.held[i].size >= MAX_FILE_SIZE == |v.bufs[i]|
  }

  /** Every buffer lies in a live block and holds what it should. */
  ghost predicate Backed(m: seq<byte>, v: Volume) {
    && |v.tree.entries| == |v.bufs| == |v.held| == MAX_ENTRIES
    && AllInMemory(m, v)
    && forall i | 0 <= i < MAX_ENTRIES :: LiveAt(v, i)
  }

  lemma StillBacked(m: seq<byte>, n: seq<byte>, v: Volume)
    requires Backed(m, v) && BlocksKept(m, n, H.UsedSet(v.blocks))
    ensures Backed(n, v)
  {
    forall i | 0 <= i < MAX_ENTRIES ensures InMemory(n, v, i) {
      assert InMemory(m, v, i) && LiveAt(v, i);
      if Holds(v, i) {
        var a := v.tree.entries[i].data;
        assert SameBytes(m, n, v.held[i].Ptr(), v.held[i].End());
        assert n[a..a + MAX_FILE_SIZE] == m[a..a + MAX_FILE_SIZE];
      }
    }
  }

  lemma KeptBySet(m: seq<byte>, n: seq<byte>, bs: seq<H.Block>)
    requires LiveKept(m, n, bs)
    ensures BlocksKept(m, n, H.UsedSet(bs))
  {
  }

  lemma KeptTwice(m: seq<byte>, n: seq<byte>, o: seq<byte>, a: set<H.Block>, b: set<H.Block>)
    requires BlocksKept(m, n, a) && BlocksKept(n, o, b) && a <= b
    ensures BlocksKept(m, o, a)
  {
  }

  /** Slot `i` got a buffer of its own. */
  lemma GivenBacked(m: seq<byte>, v: Volume, r: Volume, i: nat, g: H.Block)
    requires i < MAX_ENTRIES && Backed(m, v) && |r.tree.entries| == |r.bufs| == |r.held| == MAX_ENTRIES
    requires r.tree.taken == v.tree.taken && g in H.UsedSet(r.blocks) && H.UsedSet(v.blocks) <= H.UsedSet(r.blocks)
    requires forall k | 0 <= k < MAX_ENTRIES && k != i ::
               r.tree.entries[k] == v.tree.entries[k] && r.bufs[k] == v.bufs[k] && r.held[k] == v.held[k]
    requires r.held[i] == g && r.tree.entries[i].data == g.Ptr() && g.size >= MAX_FILE_SIZE == |r.bufs[i]|
    requires var a := g.Ptr(); 0 <= a <= |m| - MAX_FILE_SIZE && m[a..a + MAX_FILE_SIZE] == r.bufs[i]
    ensures Backed(m, r)
  {
    forall k | 0 <= k < MAX_ENTRIES ensures InMemory(m, r, k) && LiveAt(r, k) {
      assert InMemory(m, v, k) && LiveAt(v, k);
    }
  }

  /** The size of slot `i` was cut to nothing. */
  lemma EmptiedBacked(m: seq<byte>, v: Volume, r: Volume, i: nat)
    requires i < MAX_ENTRIES && Backed(m, v)
    requires r == v.(tree := v.tree.(entries := v.tree.entries[i := v.tree.entries[i].(size := 0)]))
    ensures Backed(m, r)
  {
    forall k | 0 <= k < MAX_ENTRIES ensures InMemory(m, r, k) && LiveAt(r, k) {
      assert InMemory(m, v, k) && LiveAt(v, k);
    }
  }

  // ---------------------------------------------------------------- one content

  const NOTHING: seq<Option<Sector>> := seq(MAX_SECTORS, _ => None)

  /** The bytes of a content that `n` sectors give. */
  function Upto(size: nat, n: nat): nat {
    if size < SECTOR_SIZE * n then size else SECTOR_SIZE * n
  }

  lemma UptoCount(size: nat, n: nat)
    requires n <= SectorCount(size)
    ensures SectorCount(Upto(size, n)) == n
    ensures n == SectorCount(size) ==> Upto(size, n) == size
    ensures n < SectorCount(size) ==> SECTOR_SIZE * n < size && Upto(size, n) == SECTOR_SIZE * n
  {
  }

  /** One more sector copied behind those already there. */
  lemma FilledNext(m: seq<byte>, n: seq<byte>, at: nat, sectors: seq<Option<Sector>>, size: nat, s: nat, data: Sector)
    requires 0 < size <= MAX_FILE_SIZE && s < SectorCount(size) && s < |sectors| == MAX_SECTORS && at <= |m| - MAX_FILE_SIZE
    requires Part(m, at, sectors, size, s)
    requires var a, bytes := at + SECTOR_SIZE * s, Upto(size, s + 1) - SECTOR_SIZE * s;
             0 <= bytes <= SECTOR_SIZE && a + bytes <= |n| && n[a..a + bytes] == data[..bytes] && SameOutside(m, n, a, a + bytes)
    ensures |n| == |m| && Part(n, at, sectors[s := Some(data)], size, s + 1)
  {
    var next, lo, hi := sectors[s := Some(data)], SECTOR_SIZE * s, Upto(size, s + 1);
    UptoCount(size, s);
    UptoCount(size, s + 1);
    forall j | 0 <= j < MAX_FILE_SIZE ensures n[at + j] == FilledAt(next, hi, j) {
      if lo <= j < hi {
        assert n[at + j] == n[at + lo..at + hi][j - lo];
        assert j / SECTOR_SIZE == s && j % SECTOR_SIZE == j - lo;
      } else {
        assert n[at + j] == m[at + j] == m[at..at + MAX_FILE_SIZE][j] == FilledAt(sectors, Upto(size, s), j);
        if j < lo { InSectors(j, Upto(size, s)); }
      }
    }
  }

  /** The first `s` sectors are in the buffer at `at`, zeros behind them. */
  ghost predicate Part(m: seq<byte>, at: nat, sectors: seq<Option<Sector>>, size: nat, s: nat) {
    && AllRead(sectors, s) && SectorCount(Upto(size, s)) == s && at + MAX_FILE_SIZE <= |m|
    && m[at..at + MAX_FILE_SIZE] == Filled(sectors, Upto(size, s))
  }

  /** Sector `k` of a content is what a read of it may give. */
  ghost predicate ReadOne(st: Store, h: Handle, start: nat, sectors: seq<Option<Sector>>, k: nat)
    requires Formed(st)
  {
    k < |sectors| && Possible(st, h, (start + k) % WORD_LIMIT, sectors[k])
  }

  /** memory_set on a whole buffer. */
  method Clear(heap: Heap, data: nat, ghost g: H.Block, ghost size: nat)
    requires heap.Valid() && g in H.UsedSet(heap.blocks) && data == g.Ptr() && g.size >= MAX_FILE_SIZE
    modifies heap.mem
    ensures heap.Valid() && Part(heap.mem[..], data, NOTHING, size, 0)
    ensures BlocksKept(old(heap.mem[..]), heap.mem[..], H.UsedSet(heap.blocks) - {g})
  {
    ghost var m := heap.mem[..];
    H.LiveFound(heap.blocks, g);
    H.InRegion(heap.blocks, H.LiveIndex(heap.blocks, g.Ptr()));
    heap.MemorySet(data, 0, MAX_FILE_SIZE);
    PayloadWritten(m, heap.mem[..], heap.blocks, g, data, data + MAX_FILE_SIZE);
    forall j | 0 <= j < MAX_FILE_SIZE ensures heap.mem[..][data..data + MAX_FILE_SIZE][j] == FilledAt(NOTHING, 0, j) {}
  }

  /** One sector of a content: read, and as much of it as the size asks for copied to its place. */
  method ReadPiece(heap: Heap, store: SectorStore, h: Handle, data: nat, size: nat, s: nat, sector: uint32, ghost g: H.Block,
                   ghost sectors: seq<Option<Sector>>)
    returns (ok: bool, ghost o: Option<Sector>)
    requires heap.Valid() && store.Valid() && store.mirror != heap.mem
    requires g in H.UsedSet(heap.blocks) && data == g.Ptr() && g.size >= MAX_FILE_SIZE
    requires 0 < size <= MAX_FILE_SIZE && s < SectorCount(size) && s < |sectors| == MAX_SECTORS
    requires Part(heap.mem[..], data, sectors, size, s)
    modifies heap.mem, store.drive
    ensures heap.Valid() && store.Valid() && store.State() == old(store.State())
    ensures Possible(store.State(), h, sector, o) && ok == o.Some?
    ensures ok ==> Part(heap.mem[..], data, sectors[s := o], size, s + 1)
    ensures BlocksKept(old(heap.mem[..]), heap.mem[..], H.UsedSet(heap.blocks) - {g})
  {
    var buffer := new byte[SECTOR_SIZE](_ => 0);
    var result;
    ghost var a;
    result, a := store.ReadSector(h, sector, buffer, 0);
    o := Read(store.State(), h, sector, a);
    assert Possible(store.State(), h, sector, o);
    ok := result == 0;
    if ok {
      assert buffer[..] == o.value;
      UptoCount(size, s);
      UptoCount(size, s + 1);
      var bytesToCopy, offset := SECTOR_SIZE, SECTOR_SIZE * s;
      if offset + bytesToCopy > size { bytesToCopy := size - offset; }
      hide Part, Read, H.UsedSet;
      ghost var m := heap.mem[..];
      heap.PokeBytes(data + offset, buffer[..bytesToCopy], g);
      FilledNext(m, heap.mem[..], data, sectors, size, s, o.value);
    }
  }

  /** The sectors from `start` on, copied into a cleared buffer until one cannot be read. */
  method ReadContent(heap: Heap, store: SectorStore, h: Handle, data: nat, size: nat, start: uint32, ghost g: H.Block)
    returns (ok: bool, ghost sectors: seq<Option<Sector>>)
    requires heap.Valid() && store.Valid() && store.mirror != heap.mem
    requires g in H.UsedSet(heap.blocks) && data == g.Ptr() && g.size >= MAX_FILE_SIZE
    requires 0 < size <= MAX_FILE_SIZE && Part(heap.mem[..], data, NOTHING, size, 0)
    modifies heap.mem, store.drive
    ensures heap.Valid() && store.Valid() && store.State() == old(store.State())
    ensures |sectors| == MAX_SECTORS && ok == AllRead(sectors, SectorCount(size))
    ensures ok ==> Part(heap.mem[..], data, sectors, size, SectorCount(size))
    ensures BlocksKept(old(heap.mem[..]), heap.mem[..], H.UsedSet(heap.blocks) - {g})
    ensures forall k: nat | k < SectorCount(size) && AllRead(sectors, k) :: ReadOne(store.State(), h, start, sectors, k)
  {
    ghost var st, m, others := store.State(), heap.mem[..], H.UsedSet(heap.blocks) - {g};
    var sectorsNeeded := (size + SECTOR_SIZE - 1) / SECTOR_SIZE;
    InSectors(0, size);
    sectors := NOTHING;
    ok := true;
    hide Part, Possible, H.UsedSet;
    var s := 0;
    while s < sectorsNeeded && ok
      invariant s <= sectorsNeeded == SectorCount(size) && heap.Valid() && store.Valid() && store.State() == st
      invariant |sectors| == MAX_SECTORS && AllRead(sectors, s)
      invariant ok ==> Part(heap.mem[..], data, sectors, size, s)
      invariant !ok ==> s < sectorsNeeded && sectors[s].None? && ReadOne(st, h, start, sectors, s)
      invariant BlocksKept(m, heap.mem[..], others)
      invariant forall k | 0 <= k < s :: ReadOne(st, h, start, sectors, k)
      decreases sectorsNeeded - s, ok
    {
      ghost var o, was := None, sectors;
      ok, o := ReadPiece(heap, store, h, data, size, s, (start + s) % WORD_LIMIT, g, sectors);
      sectors := sectors[s := o];
      forall k | 0 <= k <= s ensures ReadOne(st, h, start, sectors, k) {
        assert k < s ==> ReadOne(st, h, start, was, k);
      }
      if ok { s := s + 1; }
    }
  }

  // ---------------------------------------------------------------- one slot

  /** The load state of a filesystem object. */
  ghost predicate Here(fs: FileSystem, l: Loading, cursor: uint32)
    reads fs, fs.entries, fs.heap, fs.heap.mem
  {
    && fs.entries.Length == MAX_ENTRIES && fs.heap.Valid()
    && Loading(fs.State(), cursor) == l && Backed(fs.heap.mem[..], l.volume)
  }

  lemma PartIsAll(m: seq<byte>, at: nat, sectors: seq<Option<Sector>>, size: nat)
    requires Part(m, at, sectors, size, SectorCount(size))
    ensures AllRead(sectors, SectorCount(size)) && at + MAX_FILE_SIZE <= |m| && m[at..at + MAX_FILE_SIZE] == Filled(sectors, size)
  {
    UptoCount(size, SectorCount(size));
  }

  lemma FewerKept(m: seq<byte>, n: seq<byte>, a: set<H.Block>, b: set<H.Block>)
    requires BlocksKept(m, n, a) && b <= a
    ensures BlocksKept(m, n, b)
  {
  }

  /** The buffer just taken for slot `i` is returned and the slot left empty. */
  method GiveBack(fs: FileSystem, data: int, i: nat, ghost v: Volume, ghost m: seq<byte>)
    requires fs.entries.Length == MAX_ENTRIES && fs.heap.Valid() && i < MAX_ENTRIES && data != 0
    requires H.Canonical(v.blocks) && H.Grants(v.blocks, MAX_FILE_SIZE) && Backed(m, v)
    requires H.Allocation(fs.heap.blocks, data) == H.Alloc(v.blocks, MAX_FILE_SIZE)
    requires fs.State() == v.(blocks := fs.heap.blocks)
    requires BlocksKept(m, fs.heap.mem[..], H.UsedSet(v.blocks))
    modifies fs.entries, fs.heap, fs.heap.mem
    ensures fs.heap.Valid()
    ensures fs.State() == v.(tree := v.tree.(entries := v.tree.entries[i := v.tree.entries[i].(size := 0)]))
    ensures Backed(fs.heap.mem[..], fs.State())
    ensures BlocksKept(m, fs.heap.mem[..], H.UsedSet(v.blocks))
  {
    ghost var g, n := H.Grant(v.blocks, MAX_FILE_SIZE), fs.heap.mem[..];
    H.AllocGrants(v.blocks, MAX_FILE_SIZE);
    H.FreeUndoesAlloc(v.blocks, MAX_FILE_SIZE);
    H.LiveFound(fs.heap.blocks, g);
    H.InRegion(fs.heap.blocks, H.LiveIndex(fs.heap.blocks, data));
    fs.heap.Free(data);
    KeptBySet(n, fs.heap.mem[..], H.Alloc(v.blocks, MAX_FILE_SIZE).blocks);
    KeptTwice(m, n, fs.heap.mem[..], H.UsedSet(v.blocks), H.UsedSet(fs.heap.blocks));
    StillBacked(m, fs.heap.mem[..], v);
    fs.entries[i] := fs.entries[i].(size := 0);
    EmptiedBacked(fs.heap.mem[..], v, fs.State(), i);
  }

  /** Slot `i` keeps the buffer just taken for it. */
  method KeepBuffer(fs: FileSystem, data: int, i: nat, ghost v: Volume, ghost g: H.Block, ghost buf: seq<byte>)
    requires fs.entries.Length == MAX_ENTRIES && i < MAX_ENTRIES && Backed(fs.heap.mem[..], v)
    requires fs.State() == v.(blocks := fs.heap.blocks)
    requires g in H.UsedSet(fs.heap.blocks) && H.UsedSet(v.blocks) <= H.UsedSet(fs.heap.blocks)
    requires data == g.Ptr() && g.size >= MAX_FILE_SIZE == |buf|
    requires 0 <= data <= fs.heap.mem.Length - MAX_FILE_SIZE && fs.heap.mem[data..data + MAX_FILE_SIZE] == buf
    modifies fs`bufs, fs`held, fs.entries
    ensures fs.State() == Volume(v.tree.(entries := v.tree.entries[i := v.tree.entries[i].(data := data)]), v.bufs[i := buf],
                                 fs.heap.blocks, v.held[i := g])
    ensures Backed(fs.heap.mem[..], fs.State())
  {
    fs.entries[i] := fs.entries[i].(data := data);
    fs.bufs := fs.bufs[i := buf];
    fs.held := fs.held[i := g];
    hide H.UsedSet;
    GivenBacked(fs.heap.mem[..], v, fs.State(), i, g);
  }

  lemma PossibleReads(st: Store, h: Handle, l: Loading, i: nat, sectors: seq<Option<Sector>>)
    requires Formed(st) && |l.volume.tree.entries| == MAX_ENTRIES && i < MAX_ENTRIES && HasContent(l.volume.tree.entries[i])
    requires var n := SectorCount(l.volume.tree.entries[i].size);
             forall k: nat | k < n && AllRead(sectors, k) :: ReadOne(st, h, l.cursor, sectors, k)
    ensures PossibleAt(st, h, l, i, sectors)
  {
    forall k: nat | k < Reads(l, i) && k < |sectors| && AllRead(sectors, k)
      ensures Possible(st, h, (l.cursor + k) % WORD_LIMIT, sectors[k])
    {
      assert ReadOne(st, h, l.cursor, sectors, k);
    }
  }

  /** The content of slot `i` into the buffer at `data`, which has just been taken. */
  method FillSlot(fs: FileSystem, store: SectorStore, h: Handle, i: nat, cursor: uint32, data: nat, ghost l: Loading)
    returns (next: uint32, ghost sectors: seq<Option<Sector>>)
    requires fs.entries.Length == MAX_ENTRIES && fs.heap.Valid() && i < MAX_ENTRIES && l.cursor == cursor
    requires HasContent(fs.entries[i]) && fs.entries[i].size <= MAX_FILE_SIZE
    requires H.Canonical(l.volume.blocks) && H.Grants(l.volume.blocks, MAX_FILE_SIZE) && Backed(fs.heap.mem[..], l.volume)
    requires fs.State() == l.volume.(blocks := fs.heap.blocks) && data != 0
    requires fs.heap.blocks == H.Alloc(l.volume.blocks, MAX_FILE_SIZE).blocks && data == H.Alloc(l.volume.blocks, MAX_FILE_SIZE).ptr
    requires store.Valid() && store.mirror != fs.heap.mem
    modifies fs`bufs, fs`held, fs.entries, fs.heap, fs.heap.mem, store.drive
    ensures |sectors| == MAX_SECTORS && Here(fs, FileStep(l, i, sectors), next)
    ensures store.Valid() && store.State() == old(store.State()) && PossibleAt(store.State(), h, l, i, sectors)
    ensures BlocksKept(old(fs.heap.mem[..]), fs.heap.mem[..], H.UsedSet(l.volume.blocks))
    ensures H.UsedSet(l.volume.blocks) <= H.UsedSet(fs.heap.blocks)
  {
    ghost var v, m, g := l.volume, fs.heap.mem[..], H.Grant(l.volume.blocks, MAX_FILE_SIZE);
    ghost var mine := H.UsedSet(v.blocks);
    H.AllocGrants(v.blocks, MAX_FILE_SIZE);
    H.UsableIff(MAX_FILE_SIZE);
    assert g in H.UsedSet(fs.heap.blocks) && mine <= H.UsedSet(fs.heap.blocks) - {g};
    hide H.Alloc, H.Grant, H.UsedSet, H.Grants, BlocksKept, Part, Filled, H.Canonical;
    var size, sectorsNeeded := fs.entries[i].size, (fs.entries[i].size + SECTOR_SIZE - 1) / SECTOR_SIZE;
    sectors := NOTHING;
    next := cursor;
    Clear(fs.heap, data, g, size);
    ghost var m1 := fs.heap.mem[..];
    FewerKept(m, m1, H.UsedSet(fs.heap.blocks) - {g}, mine);
    if (cursor + sectorsNeeded) % WORD_LIMIT > TOTAL_SECTORS {
      GiveBack(fs, data, i, v, m);
      return;
    }
    var ok;
    ok, sectors := ReadContent(fs.heap, store, h, data, size, cursor, g);
    next := (cursor + sectorsNeeded) % WORD_LIMIT;
    FewerKept(m1, fs.heap.mem[..], H.UsedSet(fs.heap.blocks) - {g}, mine);
    KeptTwice(m, m1, fs.heap.mem[..], mine, mine);
    PossibleReads(store.State(), h, l, i, sectors);
    hide PossibleAt;
    if ok {
      StillBacked(m, fs.heap.mem[..], v);
      PartIsAll(fs.heap.mem[..], data, sectors, size);
      KeepBuffer(fs, data, i, v, g, Filled(sectors, size));
    } else {
      GiveBack(fs, data, i, v, m);
    }
  }

  /** Reads the content of slot `i`, if it has one, into a buffer of its own. */
  method LoadContent(fs: FileSystem, store: SectorStore, h: Handle, i: nat, cursor: uint32, ghost l: Loading)
    returns (next: uint32, ghost sectors: seq<Option<Sector>>)
    requires Here(fs, l, cursor) && store.Valid() && store.mirror != fs.heap.mem && i < MAX_ENTRIES
    requires HasContent(fs.entries[i]) ==> fs.entries[i].size <= MAX_FILE_SIZE
    modifies fs`bufs, fs`held, fs.entries, fs.heap, fs.heap.mem, store.drive
    ensures |sectors| == MAX_SECTORS && Here(fs, FileStep(l, i, sectors), next)
    ensures store.Valid() && store.State() == old(store.State()) && PossibleAt(store.State(), h, l, i, sectors)
    ensures BlocksKept(old(fs.heap.mem[..]), fs.heap.mem[..], H.UsedSet(l.volume.blocks))
    ensures H.UsedSet(l.volume.blocks) <= H.UsedSet(fs.heap.blocks)
  {
    ghost var v, m := fs.State(), fs.heap.mem[..];
    hide H.Alloc, H.Grant, H.UsedSet;
    sectors := NOTHING;
    next := cursor;
    if !HasContent(fs.entries[i]) { return; }
    ghost var junk;
    var data;
    data, junk := fs.TakeBuffer(i);
    KeptBySet(m, fs.heap.mem[..], v.blocks);
    hide BlocksKept, LiveKept;
    StillBacked(m, fs.heap.mem[..], v);
    if data == 0 {
      fs.entries[i] := fs.entries[i].(size := 0);
      EmptiedBacked(fs.heap.mem[..], v, fs.State(), i);
      return;
    }
    ghost var m1 := fs.heap.mem[..];
    next, sectors := FillSlot(fs, store, h, i, cursor, data, l);
    KeptTwice(m, m1, fs.heap.mem[..], H.UsedSet(v.blocks), H.UsedSet(v.blocks));
  }

  // ---------------------------------------------------------------- the whole load

  method LoadContents(fs: FileSystem, store: SectorStore, h: Handle, start: uint32, ghost l: Loading) returns (ghost inc: Incoming)
    requires Here(fs, l, start) && store.Valid() && store.mirror != fs.heap.mem && 0 <= fs.nextEntry <= MAX_ENTRIES
    requires forall i | 0 <= i < fs.nextEntry :: HasContent(fs.entries[i]) ==> fs.entries[i].size <= MAX_FILE_SIZE
    modifies fs`bufs, fs`held, fs.entries, fs.heap, fs.heap.mem, store.drive
    ensures store.Valid() && store.State() == old(store.State()) && Shaped(inc)
    ensures fs.heap.Valid() && fs.entries.Length == MAX_ENTRIES && Backed(fs.heap.mem[..], fs.State())
    ensures fs.State() == FilesLoaded(l, inc, old(fs.nextEntry)).volume
    ensures forall i | 0 <= i < old(fs.nextEntry) :: PossibleAt(store.State(), h, FilesLoaded(l, inc, i), i, inc.files[i])
    ensures BlocksKept(old(fs.heap.mem[..]), fs.heap.mem[..], H.UsedSet(l.volume.blocks))
  {
    ghost var m, es, count := fs.heap.mem[..], fs.entries[..], fs.nextEntry;
    inc := Incoming(None, None, seq(MAX_ENTRIES, _ => NOTHING));
    var currentSector := start;
    var i := 0;
    hide PossibleAt, FileStep, BlocksKept, Backed;
    SameKept(m, H.UsedSet(l.volume.blocks));
    while i < fs.nextEntry
      invariant i <= fs.nextEntry == count && store.Valid() && store.State() == old(store.State()) && Shaped(inc)
      invariant Here(fs, FilesLoaded(l, inc, i), currentSector)
      invariant forall k | 0 <= k < i :: PossibleAt(store.State(), h, FilesLoaded(l, inc, k), k, inc.files[k])
      invariant BlocksKept(m, fs.heap.mem[..], H.UsedSet(l.volume.blocks)) && H.UsedSet(l.volume.blocks) <= H.UsedSet(fs.heap.blocks)
    {
      ghost var was, sectors, before := inc, NOTHING, fs.heap.mem[..];
      ghost var now := FilesLoaded(l, was, i);
      assert fs.entries[i] == now.volume.tree.entries[i] == es[i];
      currentSector, sectors := LoadContent(fs, store, h, i, currentSector, now);
      inc := inc.(files := inc.files[i := sectors]);
      KeptTwice(m, before, fs.heap.mem[..], H.UsedSet(l.volume.blocks), H.UsedSet(now.volume.blocks));
      forall k | 0 <= k <= i ensures FilesLoaded(l, inc, k) == FilesLoaded(l, was, k) { SameIncoming(l, was, inc, k); }
      i := i + 1;
    }
  }

  lemma SameKept(m: seq<byte>, a: set<H.Block>)
    ensures BlocksKept(m, m, a)
  {
  }

  lemma {:induction false} SameIncoming(l: Loading, a: Incoming, b: Incoming, n: nat)
    requires |l.volume.tree.entries| == |l.volume.bufs| == |l.volume.held| == MAX_ENTRIES && n <= MAX_ENTRIES && Shaped(a) && Shaped(b)
    requires forall i | 0 <= i < n :: a.files[i] == b.files[i]
    ensures FilesLoaded(l, a, n) == FilesLoaded(l, b, n)
  {
    if n > 0 { SameIncoming(l, a, b, n - 1); }
  }

  /** The files of one load apart from the rest of it. */
  lemma SameFiles(l: Loading, a: Incoming, b: Incoming)
    requires |l.volume.tree.entries| == |l.volume.bufs| == |l.volume.held| == MAX_ENTRIES && Shaped(a) && Shaped(b)
    requires a.files == b.files
    ensures forall n | 0 <= n <= MAX_ENTRIES :: FilesLoaded(l, a, n) == FilesLoaded(l, b, n)
  {
    forall n | 0 <= n <= MAX_ENTRIES ensures FilesLoaded(l, a, n) == FilesLoaded(l, b, n) { SameIncoming(l, a, b, n); }
  }

  const NO_FILES: seq<seq<Option<Sector>>> := seq(MAX_ENTRIES, _ => NOTHING)

  /** A volume whose table was just built holds no buffers. */
  lemma NewTableBacked(m: seq<byte>, v: Volume, table: Sector, count: nat)
    requires |v.bufs| == |v.held| == MAX_ENTRIES && count <= MAX_ENTRIES
    ensures var w := v.(tree := LoadedTree(v.tree, table, count));
            && Backed(m, w) && w.tree.taken == count
            && forall i | 0 <= i < count :: HasContent(w.tree.entries[i]) ==> w.tree.entries[i].size <= MAX_FILE_SIZE
  {
    LoadedBare(table, count);
    hide LoadedEntries, Listing, RootFrom;
  }

  lemma ClearedBacked(m: seq<byte>, v: Volume)
    requires |v.bufs| == |v.held| == MAX_ENTRIES
    ensures Backed(m, v.(tree := v.tree.(entries := Cleared(), kids := NoKids())))
  {
  }

  /** The sector at `sector` in a buffer of its own. */
  method FetchSector(store: SectorStore, h: Handle, sector: uint32) returns (buffer: array<byte>, r: int, ghost o: Option<Sector>)
    requires store.Valid()
    modifies store.drive
    ensures store.Valid() && store.State() == old(store.State())
    ensures fresh(buffer) && buffer.Length == SECTOR_SIZE
    ensures Possible(store.State(), h, sector, o) && (r == 0 <==> o.Some?) && (o.Some? ==> o.value == buffer[..])
  {
    buffer := new byte[SECTOR_SIZE](_ => 0);
    ghost var a;
    r, a := store.ReadSector(h, sector, buffer, 0);
    o := Read(store.State(), h, sector, a);
    assert o.Some? ==> buffer[..] == o.value;
  }

  lemma StartsBacked(fs: FileSystem)
    requires fs.Valid()
    ensures Backed(fs.heap.mem[..], fs.State())
  {
    forall i | 0 <= i < MAX_ENTRIES ensures LiveAt(fs.State(), i) { assert BufferAt(fs.State(), i); }
  }

  /** Clears the table and builds it again from the table sector. */
  method LoadTable(fs: FileSystem, store: SectorStore, h: Handle, total: nat) returns (r: int, ghost p: Option<Sector>)
    requires fs.entries.Length == MAX_ENTRIES && |fs.bufs| == |fs.held| == MAX_ENTRIES && store.Valid() && total <= MAX_ENTRIES
    modifies fs`root, fs`currentDir, fs`nextEntry, fs`kids, fs.entries, store.drive
    ensures store.Valid() && store.State() == old(store.State()) && Possible(store.State(), h, 1, p) && (r == 0 <==> p.Some?)
    ensures fs.Links() == if p.Some? then LoadedTree(old(fs.Links()), p.value, total)
                          else old(fs.Links()).(entries := Cleared(), kids := NoKids())
  {
    ghost var t := fs.Links();
    hide LoadedTree, Possible;
    ClearTable(fs);
    var sector;
    sector, r, p := FetchSector(store, h, 1);
    if r == 0 {
      BuildTree(fs, sector, total);
      LoadedTreeKeeps(t, Cleared(), sector[..], total);
    }
  }

  /** Everything behind the header. */
  method LoadRest(fs: FileSystem, store: SectorStore, h: Handle, total: nat, start: uint32, ghost o: Option<Sector>)
    returns (outcome: LoadOutcome, ghost inc: Incoming)
    requires fs.entries.Length == |fs.bufs| == |fs.held| == MAX_ENTRIES && fs.heap.Valid()
    requires store.Valid() && store.mirror != fs.heap.mem && total <= MAX_ENTRIES
    modifies fs, fs.entries, fs.heap, fs.heap.mem, store.drive
    ensures store.Valid() && store.State() == old(store.State())
    ensures Shaped(inc) && inc.header == o && BehindFromStore(store.State(), h, old(fs.State()), inc, total, start)
    ensures (fs.State(), outcome) == LoadBehind(old(fs.State()), inc, total, start)
    ensures fs.entries.Length == MAX_ENTRIES && fs.heap.Valid() && Backed(fs.heap.mem[..], fs.State())
    ensures BlocksKept(old(fs.heap.mem[..]), fs.heap.mem[..], old(H.UsedSet(fs.heap.blocks)))
  {
    ghost var v, m := fs.State(), fs.heap.mem[..];
    ghost var p, files;
    var r;
    hide Sound, BlocksKept, PossibleAt, FilesLoaded, LoadedTree, Possible, Backed, AllInMemory, H.UsedSet, Cleared, NoKids, H.Tiled, H.Coalesced;
    r, p := LoadTable(fs, store, h, total);
    inc := Incoming(o, p, NO_FILES);
    SameKept(m, H.UsedSet(v.blocks));
    ClearedBacked(m, v);
    if r != 0 { return Refused, inc; }
    ghost var l := Loading(v.(tree := LoadedTree(v.tree, p.value, total)), start);
    NewTableBacked(m, v, p.value, total);
    if fs.root == NIL { return Reinitialise, inc; }
    files := LoadContents(fs, store, h, start, l);
    inc := Incoming(o, p, files.files);
    SameFiles(l, files, inc);
    outcome := Loaded;
  }

  method Load(fs: FileSystem, store: SectorStore, h: Handle) returns (outcome: LoadOutcome, ghost inc: Incoming)
    requires fs.Valid() && store.Valid() && store.mirror != fs.heap.mem
    modifies fs, fs.entries, fs.heap, fs.heap.mem, store.drive
    ensures store.Valid() && store.State() == old(store.State())
    ensures Shaped(inc) && FromStore(store.State(), h, old(fs.State()), inc)
    ensures (fs.State(), outcome) == F.Load(old(fs.State()), inc)
    ensures fs.entries.Length == MAX_ENTRIES && fs.heap.Valid() && Backed(fs.heap.mem[..], fs.State())
    ensures BlocksKept(old(fs.heap.mem[..]), fs.heap.mem[..], old(H.UsedSet(fs.heap.blocks)))
  {
    ghost var o;
    var header, r;
    StartsBacked(fs);
    SameKept(fs.heap.mem[..], H.UsedSet(fs.heap.blocks));
    hide Sound, BlocksKept, Possible, Backed, AllInMemory, BehindFromStore, LoadBehind;
    header, r, o := FetchSector(store, h, 0);
    inc := Incoming(o, None, NO_FILES);
    if r != 0 { return Refused, inc; }
    if header[..8] != MAGIC { return Refused, inc; }
    var total := Word(header[..], 12);
    if total > MAX_ENTRIES || total == 0 { return Refused, inc; }
    outcome, inc := LoadRest(fs, store, h, total, Word(header[..], 16), o);
  }

  /** What a read of a sector returns, if it returns anything, when the handle's sector holds `data` wherever the handle may look. */
  lemma ReadsHeld(st: Store, h: Handle, s: nat, data: Sector, o: Option<Sector>)
    requires Formed(st) && s < TOTAL_SECTORS && Possible(st, h, s, o)
    requires st.disk[Address(h, s)] == data && (h.Vdisk? ==> st.mirror[s] == data)
    ensures o.Some? ==> o.value == data
  {
  }

  /**
   When the first two sectors are those of a saved volume, a load either cannot read one of them or ends in
   a filesystem ready for every operation and for saving, whatever happens to the contents.
   */
  method LoadSaved(fs: FileSystem, store: SectorStore, h: Handle, ghost v: Volume, ghost raw: seq<byte>, ghost header: Sector)
    returns (outcome: LoadOutcome, ghost inc: Incoming)
    requires fs.Valid() && store.Valid() && store.mirror != fs.heap.mem
    requires Savable(v) && TableImage(raw, v.tree.entries) && HeaderSaved(header, v.tree.taken)
    requires var st := store.State();
             && st.disk[Address(h, 0)] == header && st.disk[Address(h, 1)] == raw[..SECTOR_SIZE]
             && (h.Vdisk? ==> st.mirror[0] == header && st.mirror[1] == raw[..SECTOR_SIZE])
    modifies fs, fs.entries, fs.heap, fs.heap.mem, store.drive
    ensures Shaped(inc) && (outcome == Loaded <==> inc.header.Some? && inc.table.Some?) && outcome != Reinitialise
    ensures outcome == Loaded ==> fs.Valid() && Savable(fs.State())
    ensures BlocksKept(old(fs.heap.mem[..]), fs.heap.mem[..], old(H.UsedSet(fs.heap.blocks)))
  {
    ghost var u, st := fs.State(), store.State();
    outcome, inc := Load(fs, store, h);
    hide TableImage, Savable, F.Load, BlocksKept, Possible, PossibleAt;
    ReadsHeld(st, h, 0, header, inc.header);
    if inc.header.Some? { ReadsHeld(st, h, 1, raw[..SECTOR_SIZE], inc.table); }
    if inc.header.Some? && inc.table.Some? { TableReadSavable(v, raw, u, inc); }
  }

  /**
   Loading a volume `v` that was saved to the virtual disk leaves the filesystem ready for every operation,
   with what came back of `v` in it.
   */
  method Reload(fs: FileSystem, store: SectorStore, ghost v: Volume, ghost raw: seq<byte>) returns (outcome: LoadOutcome)
    requires fs.Valid() && store.Valid() && store.mirror != fs.heap.mem
    requires Savable(v) && TableImage(raw, v.tree.entries) && Saved(store.State().mirror, v, raw)
    requires Agree(store.State(), Cursor(v, v.tree.taken)) && Roomy(fs.heap.blocks, Contents(v, 0))
    modifies fs, fs.entries, fs.heap, fs.heap.mem, store.drive
    ensures outcome == Loaded && fs.Valid() && store.Valid() && store.State() == old(store.State())
    ensures CameBack(v, old(H.UsedSet(fs.heap.blocks)), fs.State())
    ensures BlocksKept(old(fs.heap.mem[..]), fs.heap.mem[..], old(H.UsedSet(fs.heap.blocks)))
  {
    ghost var u := fs.State();
    ghost var inc;
    outcome, inc := Load(fs, store, Vdisk);
    hide TableImage, Saved, Agree, Roomy, Contents, F.Load, FromStore, BlocksKept;
    VdiskRoundTrip(store.State(), v, raw, u, inc);
  }

  /** Of the old tree only the working directory can stay. */
  lemma LoadedTreeKeeps(t: Tree, es: seq<Entry>, table: Sector, count: nat)
    requires count <= MAX_ENTRIES
    ensures LoadedTree(t.(entries := es, kids := NoKids()), table, count) == LoadedTree(t, table, count)
  {
  }
}
