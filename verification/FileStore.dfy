/** Saving the filesystem to a storage handle and loading it back, over the heap and the drive. */
module KernelFileStore {
  import opened Bytes
  import opened Wrappers
  import opened CStrings
  import opened FileTree
  import opened FileOps
  import H = HeapSpec
  import opened HeapLayout
  import opened StorageSpec
  import F = FileStoreSpec
  import opened FileStoreSpec
  import opened FileStoreRoundTrip
  import opened KernelHeap
  import opened KernelFileSystem
  import opened KernelStorage

  // ---------------------------------------------------------------- sectors as last written

  /** What was last written through a handle, as long as every call succeeded. */
  ghost function Image(st: Store, h: Handle): (r: seq<Sector>)
    requires Formed(st)
    ensures |r| == TOTAL_SECTORS
  {
    if h.Hdd? then st.disk[..TOTAL_SECTORS] else st.mirror
  }

  /** The sectors below `n`, and those from `m` on, are the same. */
  ghost predicate SameBut(a: seq<Sector>, b: seq<Sector>, n: nat, m: nat) {
    |a| == |b| == TOTAL_SECTORS && forall s | 0 <= s < TOTAL_SECTORS && !(n <= s < m) :: a[s] == b[s]
  }

  lemma WrittenImage(st: Store, h: Handle, s: nat, data: Sector, a: Answers)
    requires Formed(st) && Writes(h, s, a)
    ensures var u := AfterWrite(st, h, s, data, a);
            && Image(u, h) == Image(st, h)[s := data]
            && (h.Vdisk? && Agree(st, s) && Reaches(a) ==> Agree(u, s + 1))
  {
  }

  /** The first `n` sectors of a content are in place. */
  ghost predicate FirstSaved(image: seq<Sector>, v: Volume, i: nat, n: nat)
    requires |v.tree.entries| == |v.bufs| == MAX_ENTRIES && i < MAX_ENTRIES
  {
    forall k: nat | k < n :: ContentSaved(image, v, i, k)
  }

  /** How far the content of slot `i` has been written, starting from `image`. */
  ghost predicate Writing(image: seq<Sector>, st: Store, h: Handle, v: Volume, i: nat, n: nat, agreed: bool)
    requires Formed(st) && |v.tree.entries| == |v.bufs| == MAX_ENTRIES && i < MAX_ENTRIES
  {
    && SameBut(image, Image(st, h), Cursor(v, i), Cursor(v, i) + n)
    && FirstSaved(Image(st, h), v, i, n)
    && (h.Vdisk? && agreed ==> Agree(st, Cursor(v, i) + n))
  }

  lemma WritingStart(st: Store, h: Handle, v: Volume, i: nat, agreed: bool)
    requires Formed(st) && |v.tree.entries| == |v.bufs| == MAX_ENTRIES && i < MAX_ENTRIES
    requires agreed ==> Agree(st, Cursor(v, i))
    ensures Writing(Image(st, h), st, h, v, i, 0, agreed)
  {
  }

  lemma WritingStep(image: seq<Sector>, st: Store, h: Handle, v: Volume, i: nat, n: nat, agreed: bool, data: Sector, a: Answers)
    requires Formed(st) && |v.tree.entries| == |v.bufs| == MAX_ENTRIES && i < MAX_ENTRIES
    requires Writing(image, st, h, v, i, n, agreed) && Writes(h, Cursor(v, i) + n, a)
    requires v.tree.entries[i].size <= |v.bufs[i]| && data == Content(v.bufs[i], v.tree.entries[i].size, n)
    ensures Writing(image, AfterWrite(st, h, Cursor(v, i) + n, data, a), h, v, i, n + 1, agreed && Reaches(a))
  {
    var s := Cursor(v, i) + n;
    var u := AfterWrite(st, h, s, data, a);
    WrittenImage(st, h, s, data, a);
    hide AfterWrite, Image, Content, Cursor, Agree, FirstSaved;
    OneMoreContent(Image(st, h), v, i, n, s, data, Image(u, h));
  }

  lemma OneMoreContent(image: seq<Sector>, v: Volume, i: nat, n: nat, s: nat, data: Sector, after: seq<Sector>)
    requires |v.tree.entries| == |v.bufs| == MAX_ENTRIES && i < MAX_ENTRIES && Cursor(v, i) + n == s < |image| && after == image[s := data]
    requires FirstSaved(image, v, i, n)
    requires v.tree.entries[i].size <= |v.bufs[i]| && data == Content(v.bufs[i], v.tree.entries[i].size, n)
    ensures FirstSaved(after, v, i, n + 1)
  {
    hide Content, Cursor;
    forall k: nat | k < n + 1 ensures ContentSaved(after, v, i, k) {
      if k < n { assert ContentSaved(image, v, i, k); }
    }
  }

  /** How far the volume has been written, starting from `image`. */
  ghost predicate Saving(image: seq<Sector>, st: Store, h: Handle, v: Volume, raw: seq<byte>, n: nat, agreed: bool)
    requires Formed(st) && |v.tree.entries| == |v.bufs| == MAX_ENTRIES && n <= MAX_ENTRIES && |raw| >= SECTOR_SIZE
  {
    && SameBut(image, Image(st, h), 0, Cursor(v, n))
    && HeaderSaved(Image(st, h)[0], v.tree.taken)
    && Image(st, h)[1] == raw[..SECTOR_SIZE]
    && ContentsSaved(Image(st, h), v, n)
    && (h.Vdisk? && agreed ==> Agree(st, Cursor(v, n)))
  }

  lemma SavingStart(st: Store, h: Handle, v: Volume, raw: seq<byte>, header: Sector, a: Answers, b: Answers)
    requires Formed(st) && |v.tree.entries| == |v.bufs| == MAX_ENTRIES && |raw| >= SECTOR_SIZE
    requires Writes(h, 0, a) && Writes(h, 1, b) && HeaderSaved(header, v.tree.taken)
    ensures var u := AfterWrite(AfterWrite(st, h, 0, header, a), h, 1, raw[..SECTOR_SIZE], b);
            Saving(Image(st, h), u, h, v, raw, 0, Reaches(a) && Reaches(b))
  {
    WrittenImage(st, h, 0, header, a);
    WrittenImage(AfterWrite(st, h, 0, header, a), h, 1, raw[..SECTOR_SIZE], b);
    hide AfterWrite, Image, HeaderSaved;
  }

  lemma SavingStep(image: seq<Sector>, st: Store, u: Store, h: Handle, v: Volume, raw: seq<byte>, n: nat, agreed: bool, now: bool)
    requires Formed(st) && Formed(u) && |v.tree.entries| == |v.bufs| == MAX_ENTRIES && n < MAX_ENTRIES && |raw| >= SECTOR_SIZE
    requires Saving(image, st, h, v, raw, n, agreed)
    requires Writing(Image(st, h), u, h, v, n, Needed(v, n), now)
    ensures Saving(image, u, h, v, raw, n + 1, now)
  {
    hide Image, HeaderSaved, Agree, ContentSaved, Needed;
    ContentsKept(Image(st, h), Image(u, h), v, n, Cursor(v, n + 1));
    ContentsNext(Image(u, h), v, n);
  }

  lemma ContentsKept(a: seq<Sector>, b: seq<Sector>, v: Volume, n: nat, m: nat)
    requires |v.tree.entries| == |v.bufs| == MAX_ENTRIES && n <= MAX_ENTRIES
    requires SameBut(a, b, Cursor(v, n), m) && ContentsSaved(a, v, n)
    ensures ContentsSaved(b, v, n)
  {
    forall i, k: nat | 0 <= i < n && k < Needed(v, i) ensures ContentSaved(b, v, i, k) {
      assert ContentSaved(a, v, i, k);
      CursorGrows(v, i + 1, n);
    }
  }

  lemma ContentsNext(a: seq<Sector>, v: Volume, n: nat)
    requires |v.tree.entries| == |v.bufs| == MAX_ENTRIES && n < MAX_ENTRIES
    requires ContentsSaved(a, v, n) && FirstSaved(a, v, n, Needed(v, n))
    ensures ContentsSaved(a, v, n + 1)
  {
  }

  lemma CursorStep(v: Volume, i: nat)
    requires Savable(v) && i < v.tree.taken
    ensures Cursor(v, i + 1) == Cursor(v, i) + Needed(v, i)
    ensures Stored(v.tree.entries[i]) ==> 0 <= v.tree.entries[i].size && Needed(v, i) == SectorCount(v.tree.entries[i].size)
    ensures !Stored(v.tree.entries[i]) ==> Needed(v, i) == 0
  {
    assert SizeAt(v, i);
  }

  lemma SavedSlot(image: seq<Sector>, st: Store, u: Store, h: Handle, v: Volume, raw: seq<byte>, n: nat, reached: bool, done: bool)
    returns (r: bool)
    requires Formed(st) && Formed(u) && |v.tree.entries| == |v.bufs| == MAX_ENTRIES && n < MAX_ENTRIES && |raw| >= SECTOR_SIZE
    requires Saving(image, st, h, v, raw, n, reached)
    requires Writing(Image(st, h), u, h, v, n, Needed(v, n), done && Agree(st, Cursor(v, n)))
    ensures r == (reached && done) && Saving(image, u, h, v, raw, n + 1, r)
  {
    r := reached && done;
    if h.Hdd? || !r || Agree(st, Cursor(v, n)) {
      SavingStep(image, st, u, h, v, raw, n, reached, r);
    }
  }

  lemma SavingEnd(image: seq<Sector>, st: Store, h: Handle, v: Volume, raw: seq<byte>, reached: bool)
    requires Formed(st) && Savable(v) && |raw| == TABLE_SIZE
    requires Saving(image, st, h, v, raw, v.tree.taken, reached)
    ensures Saved(Image(st, h), v, raw)
    ensures SameBut(image, Image(st, h), 0, Cursor(v, v.tree.taken))
    ensures h.Vdisk? && reached ==> Agree(st, Cursor(v, v.tree.taken))
  {
  }

  // ---------------------------------------------------------------- words in a buffer

  method PutWord(buffer: array<byte>, at: nat, w: uint32)
    requires at + 4 <= buffer.Length
    modifies buffer
    ensures Word(buffer[..], at) == w
    ensures forall k | 0 <= k < buffer.Length && !(at <= k < at + 4) :: buffer[k] == old(buffer[k])
  {
    buffer[at], buffer[at + 1] := w % 0x100, w / 0x100 % 0x100;
    buffer[at + 2], buffer[at + 3] := w / 0x1_0000 % 0x100, w / 0x100_0000 % 0x100;
    WordBytes(buffer[..], at, w);
  }

  lemma WordBytes(b: seq<byte>, at: nat, w: uint32)
    requires at + 4 <= |b|
    requires b[at] == w % 0x100 && b[at + 1] == w / 0x100 % 0x100
    requires b[at + 2] == w / 0x1_0000 % 0x100 && b[at + 3] == w / 0x100_0000 % 0x100
    ensures Word(b, at) == w
  {
    var x, y, z := w / 0x100, w / 0x1_0000, w / 0x100_0000;
    assert x / 0x100 == y && y / 0x100 == z && z % 0x100 == z;
    assert Number(b, at + 4, 0) == 0;
    assert Number(b, at + 3, 1) == z;
    assert Number(b, at + 2, 2) == y;
    assert Number(b, at + 1, 3) == x;
    assert Number(b, at, 4) == w;
  }

  lemma WordKeptAt(a: seq<byte>, b: seq<byte>, at: nat)
    requires |a| == |b| && at + 4 <= |a| && forall k | at <= k < at + 4 :: a[k] == b[k]
    ensures Word(a, at) == Word(b, at)
  {
    assert a[at..at + 4] == b[at..at + 4];
    NumberKept(a, b, at, at, 4);
  }

  // ---------------------------------------------------------------- saving

  /** The header at the front of a sector of which the rest is whatever lies behind it in memory. */
  method MakeHeader(taken: uint32) returns (header: array<byte>)
    ensures fresh(header) && header.Length == SECTOR_SIZE
    ensures HeaderSaved(header[..], taken)
  {
    header := new byte[SECTOR_SIZE];
    for i := 0 to 8
      invariant header[..i] == MAGIC[..i]
    {
      header[i] := MAGIC[i];
    }
    ghost var h0 := header[..];
    PutWord(header, 8, VERSION);
    ghost var h1 := header[..];
    PutWord(header, 12, taken);
    ghost var h2 := header[..];
    PutWord(header, 16, FIRST_DATA);
    WordKeptAt(h1, h2, 8);
    WordKeptAt(h2, header[..], 8);
    WordKeptAt(h2, header[..], 12);
    assert header[..8] == h0[..8];
  }

  /** Sector `k` of the content at an address of the heap. */
  method MakeContent(heap: Heap, data: nat, size: nat, k: nat, ghost buf: seq<byte>) returns (sector: array<byte>)
    requires SECTOR_SIZE * k < size <= |buf| && data + |buf| <= heap.mem.Length && heap.mem[data..data + |buf|] == buf
    ensures fresh(sector) && sector.Length == SECTOR_SIZE && sector[..] == Content(buf, size, k)
  {
    sector := new byte[SECTOR_SIZE](_ => 0);
    var bytesToCopy, offset := SECTOR_SIZE, SECTOR_SIZE * k;
    if offset + bytesToCopy > size { bytesToCopy := size - offset; }
    for j := 0 to bytesToCopy
      invariant forall i | 0 <= i < j :: sector[i] == buf[offset + i]
      invariant forall i | j <= i < SECTOR_SIZE :: sector[i] == 0
    {
      assert heap.mem[data + offset + j] == heap.mem[data..data + |buf|][offset + j];
      sector[j] := heap.mem[data + offset + j];
    }
  }

  /** Where the content of a stored slot lies and how many sectors it takes. */
  lemma ContentPlace(m: seq<byte>, v: Volume, i: nat)
    requires Savable(v) && AllInMemory(m, v) && i < v.tree.taken && Stored(v.tree.entries[i])
    ensures var e := v.tree.entries[i];
            && 0 <= e.size <= |v.bufs[i]| == MAX_FILE_SIZE
            && 0 <= e.data <= |m| - MAX_FILE_SIZE && m[e.data..e.data + MAX_FILE_SIZE] == v.bufs[i]
            && (e.size + SECTOR_SIZE - 1) / SECTOR_SIZE == Needed(v, i) && Cursor(v, i) + Needed(v, i) <= TOTAL_SECTORS
  {
    assert SizeAt(v, i) && BufferAt(v, i) && InMemory(m, v, i);
    CursorBound(v, i + 1);
  }

  /** Writes the content of slot `i`, `size` bytes at `data`, from sector `cursor` on. */
  method SaveContent(heap: Heap, store: SectorStore, h: Handle, data: nat, size: nat, cursor: uint32, ghost v: Volume, ghost i: nat)
    returns (r: int, ghost reached: bool)
    requires store.Valid() && store.mirror != heap.mem
    requires |v.tree.entries| == |v.bufs| == MAX_ENTRIES && i < MAX_ENTRIES && cursor == Cursor(v, i)
    requires size == v.tree.entries[i].size <= |v.bufs[i]| && data + |v.bufs[i]| <= heap.mem.Length
    requires heap.mem[data..data + |v.bufs[i]|] == v.bufs[i]
    requires SectorCount(size) == Needed(v, i) && Cursor(v, i) + Needed(v, i) <= TOTAL_SECTORS
    modifies store.drive, store.mirror
    ensures store.Valid() && r in {0, -1} && (h.Vdisk? ==> r == 0)
    ensures r == 0 ==> Writing(old(Image(store.State(), h)), store.State(), h, v, i, Needed(v, i),
                               reached && old(Agree(store.State(), cursor)))
  {
    ghost var image, agreed := Image(store.State(), h), Agree(store.State(), cursor);
    hide Agree, Image, AfterWrite, Content, Cursor, Writing, Needed;
    var sectorsNeeded := (size + SECTOR_SIZE - 1) / SECTOR_SIZE;
    reached := true;
    WritingStart(store.State(), h, v, i, agreed);
    var s := 0;
    while s < sectorsNeeded
      invariant s <= sectorsNeeded && store.Valid()
      invariant Writing(image, store.State(), h, v, i, s, reached && agreed)
    {
      var sector := MakeContent(heap, data, size, s, v.bufs[i]);
      ghost var st := store.State();
      ghost var a;
      r, a := store.WriteSector(h, cursor + s, sector, 0);
      if r != 0 { return -1, false; }
      assert sector[0..0 + SECTOR_SIZE] == sector[..];
      WritingStep(image, st, h, v, i, s, reached && agreed, sector[..], a);
      reached := reached && Reaches(a);
      s := s + 1;
    }
    r := 0;
  }

  method SaveTable(fs: FileSystem, store: SectorStore, h: Handle, table: array<byte>) returns (r: int, ghost reached: bool)
    requires fs.entries.Length == |fs.bufs| == MAX_ENTRIES && 0 <= fs.nextEntry <= MAX_ENTRIES
    requires store.Valid() && store.mirror != table && table.Length == TABLE_SIZE
    modifies store.drive, store.mirror
    ensures store.Valid() && r in {0, -1} && (h.Vdisk? ==> r == 0)
    ensures r == 0 ==> Saving(old(Image(store.State(), h)), store.State(), h, fs.State(), table[..], 0, reached)
  {
    ghost var v, st := fs.State(), store.State();
    ghost var a, b;
    reached := false;
    var header := MakeHeader(fs.nextEntry);
    assert header[0..0 + SECTOR_SIZE] == header[..];
    hide Saving, AfterWrite, Image, HeaderSaved, Sound, AllInMemory;
    r, a := store.WriteSector(h, 0, header, 0);
    if r != 0 { return; }
    r, b := store.WriteSector(h, 1, table, 0);
    if r != 0 { return; }
    SavingStart(st, h, v, table[..], header[..], a, b);
    reached := Reaches(a) && Reaches(b);
  }

  /** The contents, one slot after the other, behind the table. */
  method SaveContents(fs: FileSystem, store: SectorStore, h: Handle, ghost v: Volume, ghost image: seq<Sector>, ghost raw: seq<byte>,
                      ghost tables: bool)
    returns (r: int, ghost reached: bool)
    requires v == fs.State() && Savable(v) && AllInMemory(fs.heap.mem[..], v)
    requires store.Valid() && store.mirror != fs.heap.mem && |raw| >= SECTOR_SIZE
    requires Saving(image, store.State(), h, v, raw, 0, tables)
    modifies store.drive, store.mirror
    ensures store.Valid() && r in {0, -1} && (h.Vdisk? ==> r == 0)
    ensures r == 0 ==> Saving(image, store.State(), h, v, raw, v.tree.taken, reached)
  {
    reached := tables;
    Shapes(v);
    hide Saving, Writing, Image, Agree, Sound, AllInMemory, Cursor, Needed, Savable, FirstSaved;
    var currentSector := FIRST_DATA;
    var i := 0;
    CursorStart(v);
    while i < fs.nextEntry
      invariant i <= fs.nextEntry && store.Valid() && currentSector == Cursor(v, i)
      invariant Saving(image, store.State(), h, v, raw, i, reached)
    {
      ghost var was := store.State();
      CursorBound(v, i + 1);
      CursorStep(v, i);
      if Stored(fs.entries[i]) {
        ghost var done;
        ContentPlace(fs.heap.mem[..], v, i);
        r, done := SaveContent(fs.heap, store, h, fs.entries[i].data, fs.entries[i].size, currentSector, v, i);
        if r != 0 { return; }
        currentSector := currentSector + (fs.entries[i].size + SECTOR_SIZE - 1) / SECTOR_SIZE;
        reached := SavedSlot(image, was, store.State(), h, v, raw, i, reached, done);
      } else {
        WritingStart(was, h, v, i, Agree(was, Cursor(v, i)));
        reached := SavedSlot(image, was, was, h, v, raw, i, reached, true);
      }
      i := i + 1;
    }
    r := 0;
  }

  lemma Shapes(v: Volume)
    requires Savable(v)
    ensures |v.tree.entries| == |v.bufs| == MAX_ENTRIES && 0 <= v.tree.taken <= MAX_ENTRIES
  {
  }

  lemma CursorStart(v: Volume)
    requires |v.tree.entries| == MAX_ENTRIES
    ensures Cursor(v, 0) == FIRST_DATA
  {
  }

  /** `table` is the memory of the entry table. */
  method Save(fs: FileSystem, store: SectorStore, h: Handle, table: array<byte>) returns (r: int, ghost reached: bool)
    requires fs.Valid() && Savable(fs.State()) && store.Valid()
    requires store.mirror != fs.heap.mem && store.mirror != table && TableImage(table[..], fs.entries[..])
    modifies store.drive, store.mirror
    ensures store.Valid() && r in {0, -1} && (h.Vdisk? ==> r == 0)
    ensures r == 0 ==> Saved(Image(store.State(), h), fs.State(), table[..])
    ensures r == 0 ==> SameBut(old(Image(store.State(), h)), Image(store.State(), h), 0, Cursor(fs.State(), fs.nextEntry))
    ensures h.Vdisk? && reached ==> Agree(store.State(), Cursor(fs.State(), fs.nextEntry))
  {
    ghost var image := Image(store.State(), h);
    hide Saving, Image, Agree, Sound, AllInMemory, Cursor, ImageAt, HeaderSaved, ContentsSaved, SameBut, H.Tiled, H.Coalesced, Threaded;
    r, reached := SaveTable(fs, store, h, table);
    if r != 0 { return -1, false; }
    r, reached := SaveContents(fs, store, h, fs.State(), image, table[..], reached);
    if r != 0 { return -1, false; }
    SavingEnd(image, store.State(), h, fs.State(), table[..], reached);
  }
}
