/**
 The filesystem on sectors: what saving leaves in a sector image, what loading makes of the
 sectors it reads, and why loading a saved image gives the first entries back.
 */
module FileStoreSpec {
  import opened Bytes
  import opened Wrappers
  import opened CStrings
  import opened FileTree
  import opened FileTreeEdits
  import opened FileOps
  import H = HeapSpec
  import opened StorageSpec

  const ENTRY_SIZE := 60
  const NAME_SIZE := 32
  const TABLE_SIZE := MAX_ENTRIES * ENTRY_SIZE
  const IN_SECTOR := 8                  // entries that fit a sector whole
  const FIRST_DATA := 2
  const VERSION := 1
  const MAGIC: seq<byte> := [80, 73, 78, 69, 70, 83, 0, 0]

  // ---------------------------------------------------------------- entries as bytes

  function Signed(w: uint32): int {
    if w < 0x8000_0000 then w else w - 0x1_0000_0000
  }

  /** What the 60 bytes of an entry say; pointers mean nothing outside the run that wrote them. */
  function FieldsOf(w: seq<byte>): Entry
    requires |w| == ENTRY_SIZE
  {
    var name, used := Text(w[..NAME_SIZE], 0), Word(w, 56) != 0;
    assert forall c | c in name[..if |name| < MAX_FILENAME then |name| else MAX_FILENAME - 1] :: c in name;
    Entry(if used && |name| >= MAX_FILENAME then name[..MAX_FILENAME - 1] else name,
          Signed(Word(w, 32)), Signed(Word(w, 36)), 0, NIL, NIL, NIL, used)
  }

  function Bare(e: Entry): Entry {
    e.(data := 0, parent := NIL, children := NIL, next := NIL)
  }

  /** The bytes of the table represent its entries. */
  ghost predicate TableImage(raw: seq<byte>, entries: seq<Entry>)
    requires |entries| == MAX_ENTRIES
  {
    |raw| == TABLE_SIZE && forall i | 0 <= i < MAX_ENTRIES :: ImageAt(raw, entries[i], i)
  }

  ghost predicate ImageAt(raw: seq<byte>, e: Entry, i: nat)
    requires |raw| == TABLE_SIZE && i < MAX_ENTRIES
  {
    var w := raw[ENTRY_SIZE * i..ENTRY_SIZE * i + ENTRY_SIZE];
    FieldsOf(w) == Bare(e) && Text(w[..NAME_SIZE], 0) == e.name
  }

  /** Entry `i` as far as the table sector holds it; the rest of the table was cleared before. */
  function Window(table: Sector, i: nat): (w: seq<byte>)
    ensures |w| == ENTRY_SIZE
  {
    seq(ENTRY_SIZE, j requires 0 <= j < ENTRY_SIZE => if ENTRY_SIZE * i + j < SECTOR_SIZE then table[ENTRY_SIZE * i + j] else 0)
  }

  // ---------------------------------------------------------------- saving

  predicate Stored(e: Entry) {
    e.used && e.kind == FILE && e.data != 0
  }

  function SectorCount(size: nat): nat {
    (size + SECTOR_SIZE - 1) / SECTOR_SIZE
  }

  function Needed(v: Volume, i: nat): nat
    requires |v.tree.entries| == MAX_ENTRIES && i < MAX_ENTRIES
  {
    var e := v.tree.entries[i];
    if Stored(e) && e.size > 0 then SectorCount(e.size) else 0
  }

  /** The sector at which the content of slot `i` starts: all that come before it, added up. */
  function Cursor(v: Volume, i: nat): (r: nat)
    requires |v.tree.entries| == MAX_ENTRIES && i <= MAX_ENTRIES
    ensures r >= FIRST_DATA
  {
    if i == 0 then FIRST_DATA else Cursor(v, i - 1) + Needed(v, i - 1)
  }

  /** Sector `k` of a content: its bytes, then zeros. */
  function Content(buf: seq<byte>, size: int, k: nat): Sector
    requires size <= |buf|
  {
    seq(SECTOR_SIZE, j requires 0 <= j < SECTOR_SIZE => if SECTOR_SIZE * k + j < size then buf[SECTOR_SIZE * k + j] else 0)
  }

  ghost predicate HeaderSaved(s: Sector, taken: int) {
    s[..8] == MAGIC && Word(s, 8) == VERSION && Word(s, 12) == taken && Word(s, 16) == FIRST_DATA
  }

  ghost predicate ContentSaved(image: seq<Sector>, v: Volume, i: nat, k: nat)
    requires |v.tree.entries| == |v.bufs| == MAX_ENTRIES && i < MAX_ENTRIES
  {
    && v.tree.entries[i].size <= |v.bufs[i]|
    && Cursor(v, i) + k < |image|
    && image[Cursor(v, i) + k] == Content(v.bufs[i], v.tree.entries[i].size, k)
  }

  /** The contents of the first `n` slots are in the image. */
  ghost predicate ContentsSaved(image: seq<Sector>, v: Volume, n: nat)
    requires |v.tree.entries| == |v.bufs| == MAX_ENTRIES && n <= MAX_ENTRIES
  {
    forall i, k: nat | 0 <= i < n && k < Needed(v, i) :: ContentSaved(image, v, i, k)
  }

  /** An image that holds the volume, whose table occupies the bytes `raw` in memory. */
  ghost predicate Saved(image: seq<Sector>, v: Volume, raw: seq<byte>)
    requires |v.tree.entries| == |v.bufs| == MAX_ENTRIES && 0 <= v.tree.taken <= MAX_ENTRIES
  {
    && |image| == TOTAL_SECTORS && |raw| == TABLE_SIZE
    && HeaderSaved(image[0], v.tree.taken)
    && image[1] == raw[..SECTOR_SIZE]
    && ContentsSaved(image, v, v.tree.taken)
  }

  // ---------------------------------------------------------------- loading

  datatype LoadOutcome = Loaded | Refused | Reinitialise

  /** What the read calls of one load returned: header, table, and the sectors read for each slot. */
  datatype Incoming = Incoming(header: Option<Sector>, table: Option<Sector>, files: seq<seq<Option<Sector>>>)

  const MAX_SECTORS := 8

  ghost predicate Shaped(inc: Incoming) {
    |inc.files| == MAX_ENTRIES && forall i | 0 <= i < MAX_ENTRIES :: |inc.files[i]| == MAX_SECTORS
  }

  /** The first validation pass over a slot. */
  function Checked(e: Entry): Entry {
    if !e.used then e
    else
      e.(size := if e.size > MAX_FILE_SIZE then MAX_FILE_SIZE else e.size,
         used := e.kind == FILE || e.kind == DIRECTORY)
  }

  function LoadedEntry(table: Sector, count: int, i: nat): Entry {
    var e := FieldsOf(Window(table, i));
    if i < count then Checked(e) else e
  }

  function LoadedEntries(table: Sector, count: int): (es: seq<Entry>)
    ensures |es| == MAX_ENTRIES
  {
    seq(MAX_ENTRIES, i requires 0 <= i < MAX_ENTRIES => LoadedEntry(table, count, i))
  }

  predicate IsRoot(e: Entry) {
    e.used && e.kind == DIRECTORY && e.name == [SLASH]
  }

  /** The first root among the slots from `i` on. */
  function RootFrom(es: seq<Entry>, i: nat, count: nat): (r: int)
    requires i <= count <= |es|
    ensures r == NIL || (i <= r < count && IsRoot(es[r]))
    ensures forall j | i <= j < (if r == NIL then count else r) :: !IsRoot(es[j])
    decreases count - i
  {
    if i == count then NIL else if IsRoot(es[i]) then i else RootFrom(es, i + 1, count)
  }

  /** The used slots below `n` other than the root, in order. */
  function Listing(es: seq<Entry>, root: int, n: nat): (ks: seq<nat>)
    requires n <= |es|
    ensures forall j | 0 <= j < |ks| :: ks[j] < n && ks[j] != root && es[ks[j]].used
    ensures forall i | 0 <= i < n && i != root && es[i].used :: i in ks
    ensures forall j, l | 0 <= j < l < |ks| :: ks[j] < ks[l]
  {
    if n == 0 then []
    else if es[n - 1].used && n - 1 != root then Listing(es, root, n - 1) + [n - 1]
    else Listing(es, root, n - 1)
  }

  function UnderRootEntry(es: seq<Entry>, root: int, ks: seq<nat>, i: nat): Entry
    requires i < |es|
  {
    if i == root then es[i].(children := HeadOf(ks))
    else if i in ks then es[i].(parent := root, next := Following(ks, Position(ks, i)))
    else es[i]
  }

  /** The table with the listed slots as children of the root. */
  function UnderRoot(es: seq<Entry>, root: int, ks: seq<nat>): (r: seq<Entry>)
    ensures |r| == |es|
  {
    seq(|es|, i requires 0 <= i < |es| => UnderRootEntry(es, root, ks, i))
  }

  /** A volume being loaded, and the sector from which the next content is read. */
  datatype Loading = Loading(volume: Volume, cursor: uint32)

  predicate AllRead(sectors: seq<Option<Sector>>, n: nat) {
    n <= |sectors| && forall k | 0 <= k < n :: sectors[k].Some?
  }

  lemma InSectors(j: nat, size: nat)
    requires j < size
    ensures j / SECTOR_SIZE < SectorCount(size)
    ensures size <= MAX_FILE_SIZE ==> SectorCount(size) <= MAX_SECTORS
  {
  }

  /** The content buffer: the bytes read, then zeros. */
  function Filled(sectors: seq<Option<Sector>>, size: nat): (buf: seq<byte>)
    requires AllRead(sectors, SectorCount(size))
    ensures |buf| == MAX_FILE_SIZE
  {
    seq(MAX_FILE_SIZE, j requires 0 <= j < MAX_FILE_SIZE => FilledAt(sectors, size, j))
  }

  function FilledAt(sectors: seq<Option<Sector>>, size: nat, j: nat): byte
    requires AllRead(sectors, SectorCount(size))
  {
    if j < size then
      InSectors(j, size);
      sectors[j / SECTOR_SIZE].value[j % SECTOR_SIZE]
    else 0
  }

  /** A slot whose content is to be read. */
  predicate HasContent(e: Entry) {
    e.used && e.kind == FILE && e.size > 0
  }

  /** Reads the content of slot `i`. Sector numbers are 32 bits wide. */
  ghost function FileStep(l: Loading, i: nat, sectors: seq<Option<Sector>>): (r: Loading)
    requires |l.volume.tree.entries| == |l.volume.bufs| == |l.volume.held| == MAX_ENTRIES && i < MAX_ENTRIES
    ensures |r.volume.tree.entries| == |r.volume.bufs| == |r.volume.held| == MAX_ENTRIES
    ensures r.volume.tree == l.volume.tree.(entries := r.volume.tree.entries)
    ensures forall j | 0 <= j < MAX_ENTRIES && j != i :: r.volume.tree.entries[j] == l.volume.tree.entries[j]
  {
    var v := l.volume;
    var e := v.tree.entries[i];
    if !HasContent(e) then l
    else
      var n := SectorCount(e.size);
      var next := (l.cursor + n) % WORD_LIMIT;
      var empty := v.(tree := v.tree.(entries := v.tree.entries[i := e.(size := 0)]));
      if !H.Grants(v.blocks, MAX_FILE_SIZE) || next > TOTAL_SECTORS then Loading(empty, l.cursor)
      else if !AllRead(sectors, n) then Loading(empty, next)
      else
        var a := H.Alloc(v.blocks, MAX_FILE_SIZE);
        Loading(
          Volume(v.tree.(entries := v.tree.entries[i := e.(data := a.ptr)]), v.bufs[i := Filled(sectors, e.size)],
                 a.blocks, v.held[i := H.Grant(v.blocks, MAX_FILE_SIZE)]),
          next)
  }

  /** The contents of the first `n` slots have been read. */
  ghost function FilesLoaded(l: Loading, inc: Incoming, n: nat): (r: Loading)
    requires |l.volume.tree.entries| == |l.volume.bufs| == |l.volume.held| == MAX_ENTRIES && n <= MAX_ENTRIES && Shaped(inc)
    ensures |r.volume.tree.entries| == |r.volume.bufs| == |r.volume.held| == MAX_ENTRIES
    ensures r.volume.tree == l.volume.tree.(entries := r.volume.tree.entries)
    ensures forall j | n <= j < MAX_ENTRIES :: r.volume.tree.entries[j] == l.volume.tree.entries[j]
  {
    if n == 0 then l else FileStep(FilesLoaded(l, inc, n - 1), n - 1, inc.files[n - 1])
  }

  ghost predicate ValidHeader(s: Sector) {
    s[..8] == MAGIC && 0 < Word(s, 12) <= MAX_ENTRIES
  }

  function NoKids(): seq<seq<nat>> {
    seq(MAX_ENTRIES, _ => [])
  }

  function Cleared(): seq<Entry> {
    seq(MAX_ENTRIES, _ => BLANK)
  }

  /** The tree of a table sector: everything hangs on the root. */
  ghost function LoadedTree(t: Tree, table: Sector, count: nat): Tree
    requires count <= MAX_ENTRIES
  {
    var es := LoadedEntries(table, count);
    var root := RootFrom(es, 0, count);
    if root == NIL then Tree(es, NIL, t.cwd, count, NoKids())
    else
      var ks := Listing(es, root, count);
      Tree(UnderRoot(es, root, ks), root, root, count, NoKids()[root := ks])
  }

  /** Table and contents, behind a header that counts `count` entries. */
  ghost function LoadBehind(v: Volume, inc: Incoming, count: nat, start: uint32): (r: (Volume, LoadOutcome))
    requires |v.tree.entries| == |v.bufs| == |v.held| == MAX_ENTRIES && Shaped(inc) && count <= MAX_ENTRIES
    ensures |r.0.tree.entries| == |r.0.bufs| == |r.0.held| == MAX_ENTRIES
  {
    if inc.table == None then (v.(tree := v.tree.(entries := Cleared(), kids := NoKids())), Refused)
    else
      var w := v.(tree := LoadedTree(v.tree, inc.table.value, count));
      if w.tree.root == NIL then (w, Reinitialise) else (FilesLoaded(Loading(w, start), inc, count).volume, Loaded)
  }

  ghost function Load(v: Volume, inc: Incoming): (r: (Volume, LoadOutcome))
    requires |v.tree.entries| == |v.bufs| == |v.held| == MAX_ENTRIES && Shaped(inc)
    ensures |r.0.tree.entries| == |r.0.bufs| == |r.0.held| == MAX_ENTRIES
  {
    if inc.header == None || !ValidHeader(inc.header.value) then (v, Refused)
    else LoadBehind(v, inc, Word(inc.header.value, 12), Word(inc.header.value, 16))
  }
}
