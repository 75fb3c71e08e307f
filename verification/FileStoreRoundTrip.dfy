/** Loading a saved image: what comes back, where it goes, and what the heap and the drive must provide. */
module FileStoreRoundTrip {
  import opened Bytes
  import opened Wrappers
  import opened CStrings
  import opened FileTree
  import opened FileTreeEdits
  import opened FileOps
  import H = HeapSpec
  import Refinement = FileRefinement
  import Runs = FileRuns
  import opened StorageSpec
  import opened FileStoreSpec

  // ---------------------------------------------------------------- entries in memory

  /** An entry as memory holds it: whatever follows the name's NUL, and whatever the pointers are. */
  function EntryBytes(e: Entry, residue: seq<byte>, pointers: seq<byte>): (w: seq<byte>)
    requires |e.name| + 1 + |residue| == NAME_SIZE && |pointers| == 16
    requires 0 <= e.kind < 0x8000_0000 && 0 <= e.size < 0x8000_0000
    ensures |w| == ENTRY_SIZE
  {
    assert Limit(4) == WORD_LIMIT;
    e.name + [0] + residue + NumberBytes(e.kind, 4) + NumberBytes(e.size, 4) + pointers + NumberBytes(if e.used then 1 else 0, 4)
  }

  lemma EntryParts(name: seq<byte>, kind: seq<byte>, size: seq<byte>, pointers: seq<byte>, used: seq<byte>)
    requires |name| == NAME_SIZE && |kind| == |size| == |used| == 4 && |pointers| == 16
    ensures var w := name + kind + size + pointers + used;
            |w| == ENTRY_SIZE && w[..NAME_SIZE] == name && w[32..36] == kind && w[36..40] == size && w[56..60] == used
  {
  }

  /** Such bytes say what the entry says, pointers aside. */
  lemma EntryRoundTrip(e: Entry, residue: seq<byte>, pointers: seq<byte>)
    requires |e.name| + 1 + |residue| == NAME_SIZE && |pointers| == 16
    requires 0 <= e.kind < 0x8000_0000 && 0 <= e.size < 0x8000_0000
    ensures FieldsOf(EntryBytes(e, residue, pointers)) == Bare(e)
    ensures Text(EntryBytes(e, residue, pointers)[..NAME_SIZE], 0) == e.name
  {
    assert Limit(4) == WORD_LIMIT;
    var used := if e.used then 1 else 0;
    var w, k, s, u := EntryBytes(e, residue, pointers), NumberBytes(e.kind, 4), NumberBytes(e.size, 4), NumberBytes(used, 4);
    var field := e.name + [0] + residue;
    hide NumberBytes, Text, Number;
    EntryParts(field, k, s, pointers, u);
    assert field[0..0 + |e.name|] == e.name && field[|e.name|] == 0;
    TextIs(field, 0, e.name);
    NumberRoundTrip(w, 32, e.kind, 4);
    NumberRoundTrip(w, 36, e.size, 4);
    NumberRoundTrip(w, 56, used, 4);
  }

  /** What 60 bytes say when 32 of them hold no terminator: a used entry is cut to 31 bytes, an unused one keeps them all. */
  lemma UnterminatedName(w: seq<byte>)
    requires |w| == 60 && forall k | 0 <= k < 32 :: w[k] != 0
    ensures FieldsOf(w).name == if w[56] == w[57] == w[58] == w[59] == 0 then w[..32] else w[..31]
    ensures FieldsOf(w).used <==> !(w[56] == w[57] == w[58] == w[59] == 0)
  {
    WordIs(w, 56);
    var field := w[..NAME_SIZE];
    var t := Text(field, 0);
    TextBytes(field, 0);
    assert field[0..|t|] == t;
    assert forall k | 0 <= k < 32 :: field[k] == w[k];
    assert t == w[..32];
    assert t[..31] == w[..31];
  }

  /** A 32-bit number of the table is signed. */
  function SignedAt(w: seq<byte>, i: nat): int
    requires i + 4 <= |w|
  {
    w[i] as int + 256 * w[i + 1] as int + 65536 * w[i + 2] as int + 16777216 * (if w[i + 3] < 128 then w[i + 3] as int else w[i + 3] as int - 256)
  }

  /** What 60 bytes of the table say: name, kind, size and use at their places, no buffer and no links. */
  lemma FieldsAre(w: seq<byte>)
    requires |w| == 60
    ensures var e := FieldsOf(w);
            && e.kind == SignedAt(w, 32) && e.size == SignedAt(w, 36)
            && (e.used <==> w[56] != 0 || w[57] != 0 || w[58] != 0 || w[59] != 0)
            && e.data == 0 && e.parent == -1 && e.children == -1 && e.next == -1
            && (|Text(w[..32], 0)| < 32 ==> e.name == Text(w[..32], 0))
  {
    WordIs(w, 32);
    WordIs(w, 36);
    WordIs(w, 56);
    hide Word, Text;
  }

  /** The header of a saved image: "PINEFS", version 1, the number of slots, and 2 for the sector of the first content. */
  lemma HeaderIs(s: Sector, taken: int)
    ensures HeaderSaved(s, taken) <==>
            s[..8] == [80, 73, 78, 69, 70, 83, 0, 0] && Word(s, 8) == 1 && Word(s, 12) == taken && Word(s, 16) == 2
  {
  }

  /** Slot `i` of a table sector: its 60 bytes as far as the sector has them, zeros else, after the first pass. */
  ghost function SlotOf(table: Sector, count: nat, i: nat): Entry {
    var e := FieldsOf((table + seq(10000, _ => 0))[60 * (if i < 150 then i else 149)..60 * (if i < 150 then i else 149) + 60]);
    if i < count then Checked(e) else e
  }

  /**
   The tree of any table sector: its slots with nothing changed but links, all counted slots taken, and as
   root and working directory the first used directory called "/"; without one there is no root, nothing is
   linked and the load starts anew.
   */
  lemma LoadedTreeIs(t: Tree, table: Sector, count: nat)
    requires count <= MAX_ENTRIES
    ensures var r := LoadedTree(t, table, count);
            && |r.entries| == 150 && r.taken == count
            && (forall i | 0 <= i < 150 :: Bare(r.entries[i]) == Bare(SlotOf(table, count, i)))
            && (if r.root == -1 then
                  && (forall i | 0 <= i < count :: !(r.entries[i].used && r.entries[i].kind == 2 && r.entries[i].name == [47]))
                  && r.kids == seq(150, _ => []) && (forall i | 0 <= i < 150 :: r.entries[i] == SlotOf(table, count, i))
                else
                  && 0 <= r.root < count && r.cwd == r.root
                  && r.entries[r.root].used && r.entries[r.root].kind == 2 && r.entries[r.root].name == [47]
                  && forall i | 0 <= i < r.root :: !(r.entries[i].used && r.entries[i].kind == 2 && r.entries[i].name == [47]))
  {
    var es, r := LoadedEntries(table, count), LoadedTree(t, table, count);
    SlotsRead(table, count);
    var root := RootFrom(es, 0, count);
    if root == NIL {
      hide LoadedEntries, SlotOf, Checked, RootFrom;
    } else {
      var ks := Listing(es, root, count);
      assert r.entries == UnderRoot(es, root, ks);
      hide LoadedEntries, SlotOf, Listing, Checked, RootFrom, LoadedTree, UnderRoot;
      LinkedSame(es, root, ks);
    }
  }

  lemma SlotsRead(table: Sector, count: nat)
    ensures forall i | 0 <= i < MAX_ENTRIES :: LoadedEntries(table, count)[i] == SlotOf(table, count, i)
  {
    forall i | 0 <= i < MAX_ENTRIES ensures LoadedEntries(table, count)[i] == SlotOf(table, count, i) { WindowIs(table, i); }
  }

  /** Linking changes links only. */
  lemma LinkedSame(es: seq<Entry>, root: int, ks: seq<nat>)
    ensures |UnderRoot(es, root, ks)| == |es|
    ensures forall i | 0 <= i < |es| ::
              var e := UnderRoot(es, root, ks)[i];
              Bare(e) == Bare(es[i]) && e.used == es[i].used && e.kind == es[i].kind && e.name == es[i].name
  {
    hide UnderRootEntry;
    forall i | 0 <= i < |es|
      ensures var e := UnderRoot(es, root, ks)[i];
              Bare(e) == Bare(es[i]) && e.used == es[i].used && e.kind == es[i].kind && e.name == es[i].name
    {
      UnderRootBare(es, root, ks, i);
      assert UnderRoot(es, root, ks)[i] == UnderRootEntry(es, root, ks, i);
    }
  }

  lemma WindowIs(table: Sector, i: nat)
    requires i < MAX_ENTRIES
    ensures Window(table, i) == (table + seq(10000, _ => 0))[60 * i..60 * i + 60]
  {
  }

  /** The first pass over a slot: sizes above 4096 are clipped, other kinds than 1 and 2 dropped, unused slots left alone. */
  lemma CheckedIs(e: Entry)
    ensures var r := Checked(e);
            && r.name == e.name && r.kind == e.kind && r.data == e.data
            && r.size == (if e.used && e.size > 4096 then 4096 else e.size)
            && (r.used <==> e.used && (e.kind == 1 || e.kind == 2))
            && (!e.used ==> r == e)
  {
  }

  /** A load is refused exactly when header or table cannot be read, or the header does not begin with "PINEFS" or counts no entries or more than 150; only without the table does it change anything. */
  lemma RefusedIff(u: Volume, inc: Incoming)
    requires |u.tree.entries| == |u.bufs| == |u.held| == MAX_ENTRIES && Shaped(inc)
    ensures var bad := inc.header == None || inc.header.value[..8] != [80, 73, 78, 69, 70, 83, 0, 0]
                       || Word(inc.header.value, 12) == 0 || Word(inc.header.value, 12) > 150;
            && (Load(u, inc).1 == Refused <==> bad || inc.table == None)
            && (bad ==> Load(u, inc).0 == u)
            && (!bad && inc.table == None ==>
                  Load(u, inc).0 == u.(tree := u.tree.(entries := seq(150, _ => BLANK), kids := seq(150, _ => []))))
  {
    hide FilesLoaded, LoadedTree;
  }

  // ---------------------------------------------------------------- saved table, loaded table

  /** What every run keeps that loading relies on: the root in the first slot, and no file that has a size but no buffer. */
  ghost predicate Savable(v: Volume) {
    && Sound(v)
    && v.tree.root == 0 && v.tree.entries[0].name == [SLASH]
    && forall i | 0 <= i < v.tree.taken :: SizeAt(v, i)
  }

  ghost predicate SizeAt(v: Volume, i: int)
    requires |v.tree.entries| == MAX_ENTRIES && 0 <= i < MAX_ENTRIES
  {
    var e := v.tree.entries[i];
    e.used ==> 0 <= e.size < MAX_FILE_SIZE && (e.data == 0 ==> e.size == 0)
  }

  /** What loading a saved table gives in slot `i`. */
  function Restored(v: Volume, i: nat): Entry
    requires |v.tree.entries| == MAX_ENTRIES && i < MAX_ENTRIES
  {
    if i < IN_SECTOR then Bare(v.tree.entries[i]) else BLANK.(name := if i == IN_SECTOR then v.tree.entries[i].name else [])
  }

  function RestoredEntries(v: Volume): (es: seq<Entry>)
    requires |v.tree.entries| == MAX_ENTRIES
    ensures |es| == MAX_ENTRIES
  {
    seq(MAX_ENTRIES, i requires 0 <= i < MAX_ENTRIES => Restored(v, i))
  }

  lemma WindowInside(raw: seq<byte>, i: nat)
    requires |raw| == TABLE_SIZE && i < IN_SECTOR
    ensures Window(raw[..SECTOR_SIZE], i) == raw[ENTRY_SIZE * i..ENTRY_SIZE * i + ENTRY_SIZE]
  {
  }

  lemma ZeroWord(w: seq<byte>, at: nat)
    requires at + 4 <= |w| && w[at] == w[at + 1] == w[at + 2] == w[at + 3] == 0
    ensures Word(w, at) == 0
  {
    assert Number(w, at + 4, 0) == 0;
    assert Number(w, at + 3, 1) == 0;
    assert Number(w, at + 2, 2) == 0;
    assert Number(w, at + 1, 3) == 0;
    assert Number(w, at, 4) == 0;
  }

  /** Past the sector only the name of one more entry is left. */
  lemma WindowOutside(raw: seq<byte>, entries: seq<Entry>, i: nat)
    requires |entries| == MAX_ENTRIES && TableImage(raw, entries) && IN_SECTOR <= i < MAX_ENTRIES
    ensures FieldsOf(Window(raw[..SECTOR_SIZE], i)) == BLANK.(name := if i == IN_SECTOR then entries[i].name else [])
  {
    var w := Window(raw[..SECTOR_SIZE], i);
    ZeroWord(w, 32);
    ZeroWord(w, 36);
    ZeroWord(w, 56);
    if i == IN_SECTOR {
      assert ImageAt(raw, entries[i], i);
      assert w[..NAME_SIZE] == raw[ENTRY_SIZE * i..ENTRY_SIZE * i + ENTRY_SIZE][..NAME_SIZE];
    } else {
      assert w[..NAME_SIZE][0] == 0;
    }
  }

  lemma LoadedIsRestored(v: Volume, raw: seq<byte>)
    requires Savable(v) && TableImage(raw, v.tree.entries)
    ensures LoadedEntries(raw[..SECTOR_SIZE], v.tree.taken) == RestoredEntries(v)
  {
    forall i | 0 <= i < MAX_ENTRIES ensures LoadedEntry(raw[..SECTOR_SIZE], v.tree.taken, i) == Restored(v, i) {
      if i < IN_SECTOR {
        WindowInside(raw, i);
        assert ImageAt(raw, v.tree.entries[i], i);
        if i < v.tree.taken { assert SizeAt(v, i) && EntryAt(v.tree, i); }
      } else {
        WindowOutside(raw, v.tree.entries, i);
      }
    }
  }

  /** Slots without links, threaded below the root. */
  lemma UnderRootForest(es: seq<Entry>, count: nat)
    requires |es| == MAX_ENTRIES && 0 < count <= MAX_ENTRIES && IsRoot(es[0])
    requires forall i | 0 <= i < MAX_ENTRIES :: es[i].parent == es[i].children == es[i].next == NIL
    requires forall i | 0 <= i < count :: |es[i].name| < MAX_FILENAME && (es[i].used ==> es[i].kind in {FILE, DIRECTORY})
    ensures var ks := Listing(es, 0, count);
            var t := Tree(UnderRoot(es, 0, ks), 0, 0, count, NoKids()[0 := ks]);
            Forest(t) && Parented(t)
  {
    var ks := Listing(es, 0, count);
    var t := Tree(UnderRoot(es, 0, ks), 0, 0, count, NoKids()[0 := ks]);
    forall i | 0 <= i < MAX_ENTRIES ensures ListAt(t, i) {
      forall j | 0 <= j < |t.kids[i]| ensures ChildAt(t, i, j) {
        var c := ks[j];
        var p := Position(ks, c);
        assert ks[p] == ks[j] && p == j;
      }
    }
    forall i | 0 <= i < count ensures EntryAt(t, i) {}
    forall i | 0 <= i < count ensures ParentAt(t, i) {}
  }

  ghost predicate RestoredTree(v: Volume, u: Tree)
    requires |v.tree.entries| == MAX_ENTRIES && 0 <= v.tree.taken <= MAX_ENTRIES
  {
    && Forest(u) && Parented(u) && u.root == u.cwd == 0 && u.taken == v.tree.taken
    && (forall i | 0 <= i < MAX_ENTRIES :: Bare(u.entries[i]) == Restored(v, i) && u.entries[i].data == 0)
    && u.kids == NoKids()[0 := Listing(RestoredEntries(v), 0, v.tree.taken)]
  }

  lemma RestoredChecks(v: Volume)
    requires Savable(v)
    ensures var es := RestoredEntries(v);
            && IsRoot(es[0])
            && (forall i | 0 <= i < MAX_ENTRIES ::
                  es[i] == Restored(v, i) && es[i] == Bare(es[i]) && es[i].parent == es[i].children == es[i].next == NIL && es[i].data == 0)
            && (forall i | 0 <= i < v.tree.taken :: |es[i].name| < MAX_FILENAME && (es[i].used ==> es[i].kind in {FILE, DIRECTORY}))
  {
    var es := RestoredEntries(v);
    forall i | 0 <= i < v.tree.taken
      ensures |es[i].name| < MAX_FILENAME && (es[i].used ==> es[i].kind in {FILE, DIRECTORY})
    {
      assert EntryAt(v.tree, i);
    }
  }

  /** The tree below the root of the restored entries. */
  function RestoredLinks(v: Volume): Tree
    requires |v.tree.entries| == MAX_ENTRIES && 0 <= v.tree.taken <= MAX_ENTRIES
  {
    var es := RestoredEntries(v);
    var ks := Listing(es, 0, v.tree.taken);
    Tree(UnderRoot(es, 0, ks), 0, 0, v.tree.taken, NoKids()[0 := ks])
  }

  lemma FirstRoot(es: seq<Entry>, count: nat)
    requires 0 < count <= |es| && IsRoot(es[0])
    ensures RootFrom(es, 0, count) == 0
  {
  }

  lemma UnderRootBare(es: seq<Entry>, root: int, ks: seq<nat>, i: nat)
    requires i < |es|
    ensures Bare(UnderRootEntry(es, root, ks, i)) == Bare(es[i]) && UnderRootEntry(es, root, ks, i).data == es[i].data
  {
  }

  lemma LoadedLinks(v: Volume, raw: seq<byte>, t: Tree)
    requires Savable(v) && TableImage(raw, v.tree.entries)
    ensures LoadedTree(t, raw[..SECTOR_SIZE], v.tree.taken) == RestoredLinks(v)
  {
    LoadedIsRestored(v, raw);
    RestoredChecks(v);
    hide LoadedEntries, TableImage, Savable, RestoredEntries, Listing, UnderRoot;
    FirstRoot(RestoredEntries(v), v.tree.taken);
  }

  lemma RestoredFields(v: Volume)
    requires Savable(v)
    ensures var u := RestoredLinks(v);
            |u.entries| == MAX_ENTRIES &&
            forall i | 0 <= i < MAX_ENTRIES :: Bare(u.entries[i]) == Restored(v, i) && u.entries[i].data == 0
  {
    RestoredChecks(v);
    var es, ks := RestoredEntries(v), Listing(RestoredEntries(v), 0, v.tree.taken);
    hide RestoredEntries, Restored, Savable, Listing, UnderRootEntry;
    forall i | 0 <= i < MAX_ENTRIES ensures Bare(UnderRootEntry(es, 0, ks, i)) == es[i] && UnderRootEntry(es, 0, ks, i).data == 0 {
      UnderRootBare(es, 0, ks, i);
    }
  }

  lemma SavedTree(v: Volume, raw: seq<byte>, t: Tree)
    requires Savable(v) && TableImage(raw, v.tree.entries)
    ensures RestoredTree(v, LoadedTree(t, raw[..SECTOR_SIZE], v.tree.taken))
  {
    LoadedLinks(v, raw, t);
    RestoredFields(v);
    RestoredChecks(v);
    hide LoadedTree, TableImage, Savable, RestoredEntries, Restored, UnderRoot;
    UnderRootForest(RestoredEntries(v), v.tree.taken);
  }

  // ---------------------------------------------------------------- contents

  /** Room for `n` content buffers one after the other. */
  ghost predicate Roomy(blocks: seq<H.Block>, n: nat)
    decreases n
  {
    n == 0 || (H.Grants(blocks, MAX_FILE_SIZE) && Roomy(H.Alloc(blocks, MAX_FILE_SIZE).blocks, n - 1))
  }

  /** The slots from `i` on whose content comes back. */
  function Contents(v: Volume, i: nat): nat
    requires |v.tree.entries| == MAX_ENTRIES && 0 <= v.tree.taken <= MAX_ENTRIES
    decreases IN_SECTOR - i
  {
    if i >= IN_SECTOR then 0 else (if Back(v, i) then 1 else 0) + Contents(v, i + 1)
  }

  predicate Back(v: Volume, i: nat)
    requires |v.tree.entries| == MAX_ENTRIES && 0 <= v.tree.taken <= MAX_ENTRIES
  {
    i < v.tree.taken && i < IN_SECTOR && HasContent(v.tree.entries[i])
  }

  lemma {:induction false} CursorBound(v: Volume, i: nat)
    requires Savable(v) && i <= v.tree.taken
    ensures Cursor(v, i) <= FIRST_DATA + MAX_SECTORS * i
  {
    if i > 0 {
      CursorBound(v, i - 1);
      assert SizeAt(v, i - 1);
    }
  }

  lemma {:induction false} CursorGrows(v: Volume, i: nat, j: nat)
    requires |v.tree.entries| == MAX_ENTRIES && i <= j <= MAX_ENTRIES
    ensures Cursor(v, i) <= Cursor(v, j)
    decreases j
  {
    if i < j { CursorGrows(v, i, j - 1); }
  }

  /** The first `size` bytes of a buffer, and zeros behind them. */
  function Blanked(buf: seq<byte>, size: nat): (r: seq<byte>)
    requires size <= |buf| == MAX_FILE_SIZE
    ensures |r| == MAX_FILE_SIZE
  {
    buf[..size] + seq(MAX_FILE_SIZE - size, _ => 0)
  }

  /** Contents cut into sectors and put together again. */
  lemma FilledIsBlanked(sectors: seq<Option<Sector>>, buf: seq<byte>, size: nat)
    requires size <= |buf| == MAX_FILE_SIZE && AllRead(sectors, SectorCount(size))
    requires forall k | 0 <= k < SectorCount(size) :: sectors[k].value == Content(buf, size, k)
    ensures Filled(sectors, size) == Blanked(buf, size)
  {
    forall j | 0 <= j < MAX_FILE_SIZE ensures FilledAt(sectors, size, j) == Blanked(buf, size)[j] {
      if j < size {
        InSectors(j, size);
        assert SECTOR_SIZE * (j / SECTOR_SIZE) + j % SECTOR_SIZE == j;
        assert sectors[j / SECTOR_SIZE].value[j % SECTOR_SIZE] == Content(buf, size, j / SECTOR_SIZE)[j % SECTOR_SIZE];
      }
    }
  }

  /** How many sectors are asked for to fill slot `i`. */
  ghost function Reads(l: Loading, i: nat): nat
    requires |l.volume.tree.entries| == MAX_ENTRIES && i < MAX_ENTRIES
  {
    var e := l.volume.tree.entries[i];
    if HasContent(e) && H.Grants(l.volume.blocks, MAX_FILE_SIZE) && (l.cursor + SectorCount(e.size)) % WORD_LIMIT <= TOTAL_SECTORS
    then SectorCount(e.size) else 0
  }

  /** The reads for slot `i` return the sectors of the image, as far as they lie below `limit`. */
  ghost predicate ServedAt(l: Loading, image: seq<Sector>, limit: nat, i: nat, sectors: seq<Option<Sector>>)
    requires |l.volume.tree.entries| == MAX_ENTRIES && i < MAX_ENTRIES
  {
    forall k: nat | k < Reads(l, i) && k < |sectors| && l.cursor + k < limit && l.cursor + k < |image| :: sectors[k] == Some(image[l.cursor + k])
  }

  ghost predicate Served(l: Loading, inc: Incoming, image: seq<Sector>, limit: nat, n: nat)
    requires |l.volume.tree.entries| == |l.volume.bufs| == |l.volume.held| == MAX_ENTRIES && Shaped(inc)
    requires n <= MAX_ENTRIES
  {
    forall i | 0 <= i < n :: ServedAt(FilesLoaded(l, inc, i), image, limit, i, inc.files[i])
  }

  /** Slot `i` as it comes back from an image of `v`. */
  ghost predicate BackAt(v: Volume, w: Volume, i: nat)
    requires |v.tree.entries| == |v.bufs| == |w.tree.entries| == |w.bufs| == |w.held| == MAX_ENTRIES
    requires 0 <= v.tree.taken <= MAX_ENTRIES && i < MAX_ENTRIES
  {
    var e := w.tree.entries[i];
    && Bare(e) == Restored(v, i)
    && (if Back(v, i) then
          && 0 <= e.size < |v.bufs[i]| == MAX_FILE_SIZE
          && w.bufs[i] == Blanked(v.bufs[i], e.size)
          && e.data == w.held[i].Ptr() != 0 && w.held[i].size >= MAX_FILE_SIZE
        else e.data == 0)
  }

  ghost function NewBlocks(v: Volume, w: Volume, n: nat): set<H.Block>
    requires |v.tree.entries| == |w.held| == MAX_ENTRIES && 0 <= v.tree.taken <= MAX_ENTRIES && n <= MAX_ENTRIES
  {
    set i | 0 <= i < n && Back(v, i) :: w.held[i]
  }

  ghost predicate NewApart(v: Volume, w: Volume, i: nat, j: nat)
    requires |v.tree.entries| == |w.held| == MAX_ENTRIES && 0 <= v.tree.taken <= MAX_ENTRIES && i < MAX_ENTRIES && j < MAX_ENTRIES
  {
    Back(v, i) && Back(v, j) ==> w.held[i] != w.held[j]
  }

  /** Half way through loading an image of `v` into a heap that held `before`. */
  ghost predicate Midway(v: Volume, before: set<H.Block>, l: Loading, n: nat)
    requires |v.tree.entries| == |v.bufs| == MAX_ENTRIES && 0 <= v.tree.taken <= MAX_ENTRIES && n <= MAX_ENTRIES
  {
    var w := l.volume;
    && |w.tree.entries| == |w.bufs| == |w.held| == MAX_ENTRIES
    && l.cursor == Cursor(v, if n < IN_SECTOR then n else IN_SECTOR)
    && H.Canonical(w.blocks) && Roomy(w.blocks, Contents(v, n))
    && H.UsedSet(w.blocks) == before + NewBlocks(v, w, n)
    && (forall i | 0 <= i < n :: BackAt(v, w, i))
    && (forall i | n <= i < MAX_ENTRIES :: Bare(w.tree.entries[i]) == Restored(v, i) && w.tree.entries[i].data == 0)
    && (forall i, j | 0 <= i < j < n :: NewApart(v, w, i, j))
    && before !! NewBlocks(v, w, n)
  }

  lemma StepBack(v: Volume, before: set<H.Block>, l: Loading, n: nat, image: seq<Sector>, limit: nat, sectors: seq<Option<Sector>>)
    requires Savable(v) && n < v.tree.taken && Midway(v, before, l, n) && |sectors| == MAX_SECTORS
    requires |image| == TOTAL_SECTORS && limit == Cursor(v, v.tree.taken) && ContentsSaved(image, v, v.tree.taken)
    requires ServedAt(l, image, limit, n, sectors)
    ensures Midway(v, before, FileStep(l, n, sectors), n + 1)
  {
    var w, e := l.volume, l.volume.tree.entries[n];
    var r := FileStep(l, n, sectors);
    assert HasContent(e) == Back(v, n);
    assert SizeAt(v, n);
    if !Back(v, n) {
      NothingBack(v, before, l, n);
    } else {
      SectorsBack(v, l, n, image, limit, sectors);
      BufferBack(v, before, l, n, sectors);
    }
  }

  lemma NothingBack(v: Volume, before: set<H.Block>, l: Loading, n: nat)
    requires Savable(v) && n < v.tree.taken && Midway(v, before, l, n) && !Back(v, n)
    ensures Midway(v, before, l, n + 1)
  {
    assert SizeAt(v, n);
    assert NewBlocks(v, l.volume, n + 1) == NewBlocks(v, l.volume, n);
    forall i | 0 <= i < n ensures NewApart(v, l.volume, i, n) {}
  }

  /** The loader asks for the sectors that the saver wrote. */
  lemma ReadsSaved(v: Volume, l: Loading, n: nat)
    requires Savable(v) && Back(v, n)
    requires |l.volume.tree.entries| == MAX_ENTRIES && Bare(l.volume.tree.entries[n]) == Bare(v.tree.entries[n])
    requires l.cursor == Cursor(v, n) && H.Grants(l.volume.blocks, MAX_FILE_SIZE)
    ensures var size := v.tree.entries[n].size;
            && 0 < size < MAX_FILE_SIZE == |v.bufs[n]|
            && Reads(l, n) == Needed(v, n) == SectorCount(size) <= MAX_SECTORS
            && l.cursor + SectorCount(size) == Cursor(v, n + 1) <= Cursor(v, v.tree.taken) <= TOTAL_SECTORS
  {
    assert SizeAt(v, n) && BufferAt(v, n);
    InSectors(0, v.tree.entries[n].size);
    CursorBound(v, n + 1);
    CursorBound(v, v.tree.taken);
    CursorGrows(v, n + 1, v.tree.taken);
    hide H.Grants;
  }

  /** The sectors read for slot `n` are those its content was saved to. */
  lemma SectorsBack(v: Volume, l: Loading, n: nat, image: seq<Sector>, limit: nat, sectors: seq<Option<Sector>>)
    requires Savable(v) && Back(v, n) && |sectors| == MAX_SECTORS
    requires |l.volume.tree.entries| == MAX_ENTRIES && Bare(l.volume.tree.entries[n]) == Bare(v.tree.entries[n])
    requires l.cursor == Cursor(v, n) && H.Grants(l.volume.blocks, MAX_FILE_SIZE)
    requires |image| == TOTAL_SECTORS && limit == Cursor(v, v.tree.taken) && ContentsSaved(image, v, v.tree.taken)
    requires ServedAt(l, image, limit, n, sectors)
    ensures var size := v.tree.entries[n].size;
            && 0 < size < MAX_FILE_SIZE == |v.bufs[n]|
            && (l.cursor + SectorCount(size)) % WORD_LIMIT == Cursor(v, n + 1) <= TOTAL_SECTORS
            && AllRead(sectors, SectorCount(size)) && Filled(sectors, size) == Blanked(v.bufs[n], size)
  {
    var size := v.tree.entries[n].size;
    ReadsSaved(v, l, n);
    hide Sound, Filled, Blanked, Cursor, Content, H.Grants, Reads, Needed, SectorCount;
    forall k | 0 <= k < SectorCount(size) ensures sectors[k] == Some(Content(v.bufs[n], size, k)) {
      assert ContentSaved(image, v, n, k);
    }
    FilledIsBlanked(sectors, v.bufs[n], size);
  }

  /** Slots that are left alone stay as they were. */
  lemma KeptBack(v: Volume, before: set<H.Block>, l: Loading, r: Volume, n: nat)
    requires |v.tree.entries| == |v.bufs| == MAX_ENTRIES && 0 <= v.tree.taken <= MAX_ENTRIES && n < MAX_ENTRIES
    requires Midway(v, before, l, n) && Back(v, n)
    requires |r.tree.entries| == |r.bufs| == |r.held| == MAX_ENTRIES
    requires forall i | 0 <= i < MAX_ENTRIES && i != n ::
               r.tree.entries[i] == l.volume.tree.entries[i] && r.bufs[i] == l.volume.bufs[i] && r.held[i] == l.volume.held[i]
    requires r.held[n] !in H.UsedSet(l.volume.blocks)
    ensures forall i | 0 <= i < n :: BackAt(v, r, i)
    ensures forall i, j | 0 <= i < j < n + 1 :: NewApart(v, r, i, j)
    ensures NewBlocks(v, r, n + 1) == NewBlocks(v, l.volume, n) + {r.held[n]}
    ensures before !! NewBlocks(v, r, n + 1)
  {
    var w := l.volume;
    forall i | 0 <= i < n ensures BackAt(v, r, i) { assert BackAt(v, w, i); }
    forall i, j | 0 <= i < j < n + 1 ensures NewApart(v, r, i, j) {
      if j < n { assert NewApart(v, w, i, j); } else if Back(v, i) { assert w.held[i] in NewBlocks(v, w, n); }
    }
  }

  lemma BufferBack(v: Volume, before: set<H.Block>, l: Loading, n: nat, sectors: seq<Option<Sector>>)
    requires Savable(v) && Back(v, n) && Midway(v, before, l, n) && |sectors| == MAX_SECTORS
    requires var size := v.tree.entries[n].size;
             && 0 < size < MAX_FILE_SIZE == |v.bufs[n]|
             && (l.cursor + SectorCount(size)) % WORD_LIMIT == Cursor(v, n + 1) <= TOTAL_SECTORS
             && AllRead(sectors, SectorCount(size)) && Filled(sectors, size) == Blanked(v.bufs[n], size)
    ensures Midway(v, before, FileStep(l, n, sectors), n + 1)
  {
    var w, r := l.volume, FileStep(l, n, sectors).volume;
    assert Contents(v, n) == 1 + Contents(v, n + 1);
    H.AllocGrants(w.blocks, MAX_FILE_SIZE);
    H.UsableIff(MAX_FILE_SIZE);
    hide H.Grant, H.Alloc, H.Canonical, H.UsedSet, Filled, Blanked, Cursor, Contents, Roomy;
    assert r.held[n] == H.Grant(w.blocks, MAX_FILE_SIZE);
    assert BackAt(v, r, n);
    KeptBack(v, before, l, r, n);
    hide BackAt, NewApart, NewBlocks, Back;
    assert Roomy(r.blocks, Contents(v, n + 1));
  }

  // ---------------------------------------------------------------- the whole load

  lemma {:induction false} FilesBack(v: Volume, before: set<H.Block>, l: Loading, inc: Incoming, image: seq<Sector>, n: nat)
    requires Savable(v) && n <= v.tree.taken && Midway(v, before, l, 0) && Shaped(inc)
    requires |image| == TOTAL_SECTORS && ContentsSaved(image, v, v.tree.taken)
    requires Served(l, inc, image, Cursor(v, v.tree.taken), n)
    ensures Midway(v, before, FilesLoaded(l, inc, n), n)
  {
    if n > 0 {
      FilesBack(v, before, l, inc, image, n - 1);
      assert ServedAt(FilesLoaded(l, inc, n - 1), image, Cursor(v, v.tree.taken), n - 1, inc.files[n - 1]);
      hide Midway, Savable, ContentsSaved, FileStep;
      StepBack(v, before, FilesLoaded(l, inc, n - 1), n - 1, image, Cursor(v, v.tree.taken), inc.files[n - 1]);
    }
  }

  lemma {:induction false} FilesKeepLinks(l: Loading, inc: Incoming, n: nat)
    requires |l.volume.tree.entries| == |l.volume.bufs| == |l.volume.held| == MAX_ENTRIES && n <= MAX_ENTRIES && Shaped(inc)
    ensures var es, fs := l.volume.tree.entries, FilesLoaded(l, inc, n).volume.tree.entries;
            forall i | 0 <= i < MAX_ENTRIES :: fs[i] == es[i].(size := fs[i].size, data := fs[i].data)
  {
    if n > 0 { FilesKeepLinks(l, inc, n - 1); }
  }

  lemma LoadedSavable(v: Volume, before: set<H.Block>, t: Tree, l: Loading)
    requires Savable(v) && RestoredTree(v, t) && Midway(v, before, l, v.tree.taken)
    requires l.volume.tree == t.(entries := l.volume.tree.entries)
    requires var fs := l.volume.tree.entries;
             forall i | 0 <= i < MAX_ENTRIES :: fs[i] == t.entries[i].(size := fs[i].size, data := fs[i].data)
    ensures Savable(l.volume) && Foreign(l.volume) == before
    ensures forall i | 0 <= i < MAX_ENTRIES :: BackAt(v, l.volume, i)
  {
    var w := l.volume;
    assert ParentAt(t, 0);
    SameLinks(t, w.tree);
    forall i | 0 <= i < MAX_ENTRIES ensures BufferAt(w, i) {
      if i < v.tree.taken { assert BackAt(v, w, i); if Back(v, i) { assert SizeAt(v, i) && w.held[i] in NewBlocks(v, w, v.tree.taken); } }
    }
    forall i, j | 0 <= i < j < MAX_ENTRIES ensures BuffersApart(w, i, j) {
      if j < v.tree.taken { assert NewApart(v, w, i, j) && BackAt(v, w, i) && BackAt(v, w, j); }
    }
    forall i | 0 <= i < w.tree.taken ensures SizeAt(w, i) && (Holds(w, i) <==> Back(v, i)) {
      assert BackAt(v, w, i) && SizeAt(v, i) && BufferAt(v, i);
    }
    assert Owned(w) == NewBlocks(v, w, v.tree.taken);
    assert BackAt(v, w, 0);
  }

  /** What loading an image of `v` leaves. */
  ghost predicate CameBack(v: Volume, before: set<H.Block>, w: Volume) {
    && |v.tree.entries| == |v.bufs| == MAX_ENTRIES && 0 <= v.tree.taken <= MAX_ENTRIES
    && Savable(w)
    && w.tree.root == w.tree.cwd == 0 && w.tree.taken == v.tree.taken
    && w.tree.kids == NoKids()[0 := Listing(RestoredEntries(v), 0, v.tree.taken)]
    && (forall i | 0 <= i < MAX_ENTRIES :: BackAt(v, w, i))
    && Foreign(w) == before
  }

  lemma RestoredStart(v: Volume, t: Tree)
    requires Savable(v) && RestoredTree(v, t)
    ensures t.root == t.cwd == 0 && t.taken == v.tree.taken && |t.entries| == MAX_ENTRIES
    ensures t.kids == NoKids()[0 := Listing(RestoredEntries(v), 0, v.tree.taken)]
  {
  }

  lemma MidwayStart(v: Volume, u: Volume, t: Tree)
    requires Savable(v) && RestoredTree(v, t)
    requires |u.bufs| == |u.held| == MAX_ENTRIES && H.Canonical(u.blocks) && Roomy(u.blocks, Contents(v, 0))
    ensures Midway(v, H.UsedSet(u.blocks), Loading(u.(tree := t), FIRST_DATA), 0)
  {
    assert NewBlocks(v, u.(tree := t), 0) == {};
  }

  /** A saved image is accepted. */
  lemma SavedLoads(v: Volume, raw: seq<byte>, image: seq<Sector>, u: Volume, inc: Incoming)
    requires Savable(v) && TableImage(raw, v.tree.entries) && Saved(image, v, raw)
    requires |u.tree.entries| == |u.bufs| == |u.held| == MAX_ENTRIES
    requires Shaped(inc) && inc.header == Some(image[0]) && inc.table == Some(image[1])
    ensures var t := LoadedTree(u.tree, image[1], v.tree.taken);
            |t.entries| == MAX_ENTRIES &&
            Load(u, inc) == (FilesLoaded(Loading(u.(tree := t), FIRST_DATA), inc, v.tree.taken).volume, Loaded)
  {
    SavedTree(v, raw, u.tree);
    hide LoadedTree, TableImage, ContentsSaved, FilesLoaded;
  }

  /**
   Saving and loading again: when the reads return the saved sectors and the heap has room,
   the first eight entries come back with name, kind, size and content, the others unused,
   and everything that is used hangs on the root in slot order. Buffers held before stay
   allocated and belong to no file.
   */
  lemma SaveThenLoad(v: Volume, raw: seq<byte>, image: seq<Sector>, u: Volume, inc: Incoming)
    requires Savable(v) && TableImage(raw, v.tree.entries) && Saved(image, v, raw)
    requires |u.tree.entries| == |u.bufs| == |u.held| == MAX_ENTRIES && H.Canonical(u.blocks) && Roomy(u.blocks, Contents(v, 0))
    requires Shaped(inc) && inc.header == Some(image[0]) && inc.table == Some(image[1])
    requires Served(Loading(u.(tree := LoadedTree(u.tree, image[1], v.tree.taken)), FIRST_DATA), inc, image,
                    Cursor(v, v.tree.taken), v.tree.taken)
    ensures Load(u, inc).1 == Loaded && CameBack(v, H.UsedSet(u.blocks), Load(u, inc).0)
  {
    var t, before, n := LoadedTree(u.tree, image[1], v.tree.taken), H.UsedSet(u.blocks), v.tree.taken;
    var l := Loading(u.(tree := t), FIRST_DATA);
    hide Midway, Savable, RestoredTree, LoadedTree, ContentsSaved, FilesLoaded, TableImage, Served, Roomy, H.Canonical, Contents, BackAt;
    SavedTree(v, raw, u.tree);
    RestoredStart(v, t);
    MidwayStart(v, u, t);
    SavedLoads(v, raw, image, u, inc);
    FilesBack(v, before, l, inc, image, n);
    FilesKeepLinks(l, inc, n);
    LoadedSavable(v, before, t, FilesLoaded(l, inc, n));
  }

  // ---------------------------------------------------------------- one content, whatever is read

  /** The sectors of a content: as many as hold its bytes, and no more. */
  lemma SectorCountIs(size: nat)
    ensures 512 * SectorCount(size) >= size && (SectorCount(size) > 0 ==> 512 * (SectorCount(size) - 1) < size)
    ensures SectorCount(size) == 0 <==> size == 0
  {
  }

  /** A sector of a content is its place in the content followed by zeros. */
  lemma ContentIsPlace(buf: seq<byte>, size: nat, k: nat, zeros: nat)
    requires size <= |buf| && 512 * k + 512 <= size + zeros
    ensures Content(buf, size, k) == (buf[..size] + seq(zeros, _ => 0))[512 * k..512 * k + 512]
  {
  }

  /**
   What a load makes of a slot: an entry that is no file with a size is left alone; a file without memory or
   beyond the device is emptied and the sectors are not passed over; otherwise they are passed over, and
   the file comes back with them if all could be read and is emptied if one could not.
   */
  lemma StepCases(l: Loading, i: nat, sectors: seq<Option<Sector>>)
    requires |l.volume.tree.entries| == |l.volume.bufs| == |l.volume.held| == MAX_ENTRIES && i < MAX_ENTRIES
    ensures var v, e, r := l.volume, l.volume.tree.entries[i], FileStep(l, i, sectors);
            var n := SectorCount(if e.size > 0 then e.size else 0);
            var far := (l.cursor + n) % 0x1_0000_0000 > 2048;
            if !(e.used && e.kind == 1 && e.size > 0) then r == l
            else if !H.Grants(v.blocks, 4096) || far then
              r.cursor == l.cursor && r.volume == v.(tree := v.tree.(entries := v.tree.entries[i := e.(size := 0)]))
            else
              && r.cursor == (l.cursor + n) % 0x1_0000_0000
              && (!AllRead(sectors, n) ==> r.volume == v.(tree := v.tree.(entries := v.tree.entries[i := e.(size := 0)])))
              && (AllRead(sectors, n) ==>
                    && r.volume.tree.entries[i] == e.(data := H.Alloc(v.blocks, 4096).ptr)
                    && r.volume.held[i] == H.Grant(v.blocks, 4096) && r.volume.blocks == H.Alloc(v.blocks, 4096).blocks
                    && |r.volume.bufs[i]| == 4096
                    && (forall j | 0 <= j < 4096 && j < e.size ::
                          j / 512 < |sectors| && sectors[j / 512].Some? && r.volume.bufs[i][j] == sectors[j / 512].value[j % 512])
                    && (forall j | e.size <= j < 4096 :: r.volume.bufs[i][j] == 0))
  {
    hide H.Alloc, H.Grant, H.Grants;
    var e := l.volume.tree.entries[i];
    if e.size > 0 {
      forall j | 0 <= j < 4096 && j < e.size ensures j / 512 < SectorCount(e.size) { InSectors(j, e.size); }
    }
  }

  /** The sector from which the next content is read does not depend on what was read before. */
  lemma CursorKeepsCount(l: Loading, i: nat, a: seq<Option<Sector>>, b: seq<Option<Sector>>)
    requires |l.volume.tree.entries| == |l.volume.bufs| == |l.volume.held| == MAX_ENTRIES && i < MAX_ENTRIES
    ensures FileStep(l, i, a).cursor == FileStep(l, i, b).cursor
  {
    StepCases(l, i, a);
    StepCases(l, i, b);
    hide FileStep;
  }

  /**
   Half way through loading an image of `v` of which some contents could not be read. Without room the load
   can lose its way among the sectors, but only once there is no memory for any content any more.
   */
  ghost predicate OnCourse(v: Volume, l: Loading, n: nat, room: bool)
    requires |v.tree.entries| == |v.bufs| == MAX_ENTRIES && 0 <= v.tree.taken <= MAX_ENTRIES && n <= MAX_ENTRIES
  {
    var w := l.volume;
    && |w.tree.entries| == |w.bufs| == |w.held| == MAX_ENTRIES
    && (l.cursor == Cursor(v, if n < IN_SECTOR then n else IN_SECTOR) || !H.Grants(w.blocks, MAX_FILE_SIZE))
    && H.Canonical(w.blocks) && (room ==> Roomy(w.blocks, Contents(v, n)))
    && (forall i | n <= i < MAX_ENTRIES :: Bare(w.tree.entries[i]) == Restored(v, i) && w.tree.entries[i].data == 0)
  }

  lemma {:induction false} RoomyLess(blocks: seq<H.Block>, n: nat)
    requires Roomy(blocks, n + 1)
    ensures Roomy(blocks, n)
    decreases n
  {
    if n > 0 { RoomyLess(H.Alloc(blocks, MAX_FILE_SIZE).blocks, n - 1); }
  }

  /** Whatever is read for a slot, the load stays on course for the others. */
  lemma StepOnCourse(v: Volume, l: Loading, n: nat, sectors: seq<Option<Sector>>, room: bool)
    requires Savable(v) && n < v.tree.taken && OnCourse(v, l, n, room)
    ensures OnCourse(v, FileStep(l, n, sectors), n + 1, room)
  {
    var e := l.volume.tree.entries[n];
    assert HasContent(e) == Back(v, n) && SizeAt(v, n);
    if !Back(v, n) {
      hide H.Canonical, Sound, Roomy, H.Grants;
      assert FileStep(l, n, sectors) == l;
    } else if H.Grants(l.volume.blocks, MAX_FILE_SIZE) {
      GrantedOnCourse(v, l, n, sectors, room);
    } else {
      StepCases(l, n, sectors);
      hide H.Canonical, Sound, FileStep, Cursor, H.Grants;
    }
  }

  lemma GrantedOnCourse(v: Volume, l: Loading, n: nat, sectors: seq<Option<Sector>>, room: bool)
    requires Savable(v) && n < v.tree.taken && OnCourse(v, l, n, room) && Back(v, n) && H.Grants(l.volume.blocks, MAX_FILE_SIZE)
    ensures OnCourse(v, FileStep(l, n, sectors), n + 1, room)
  {
    var blocks, r := l.volume.blocks, FileStep(l, n, sectors);
    StepCases(l, n, sectors);
    assert Contents(v, n) == 1 + Contents(v, n + 1);
    ReadsSaved(v, l, n);
    if room { RoomyLess(blocks, Contents(v, n + 1)); }
    H.AllocGrants(blocks, MAX_FILE_SIZE);
    hide H.Grant, H.Alloc, H.Canonical, H.UsedSet, H.Grants, Sound, Contents, Cursor, FileStep, SectorCount, Needed, Reads, Restored;
    assert r.cursor == Cursor(v, n + 1);
    assert r.volume.blocks == blocks || r.volume.blocks == H.Alloc(blocks, MAX_FILE_SIZE).blocks;
  }

  lemma {:induction false} FilesOnCourse(v: Volume, l: Loading, inc: Incoming, n: nat, room: bool)
    requires Savable(v) && n <= v.tree.taken && OnCourse(v, l, 0, room) && Shaped(inc)
    ensures OnCourse(v, FilesLoaded(l, inc, n), n, room)
  {
    if n > 0 {
      FilesOnCourse(v, l, inc, n - 1, room);
      hide OnCourse, Savable, FileStep;
      StepOnCourse(v, FilesLoaded(l, inc, n - 1), n - 1, inc.files[n - 1], room);
    }
  }

  /** Later slots leave earlier ones alone. */
  lemma {:induction false} SlotStays(l: Loading, inc: Incoming, j: nat, n: nat)
    requires |l.volume.tree.entries| == |l.volume.bufs| == |l.volume.held| == MAX_ENTRIES && j < n <= MAX_ENTRIES && Shaped(inc)
    ensures var a, b := FilesLoaded(l, inc, j + 1).volume, FilesLoaded(l, inc, n).volume;
            b.tree.entries[j] == a.tree.entries[j] && b.bufs[j] == a.bufs[j] && b.held[j] == a.held[j]
    decreases n
  {
    if j + 1 < n { SlotStays(l, inc, j, n - 1); }
  }

  /** Slot `j` as one that could not be read. */
  ghost predicate EmptyAt(w: Volume, j: nat)
    requires |w.tree.entries| == MAX_ENTRIES && j < MAX_ENTRIES
  {
    w.tree.entries[j].size == 0 && w.tree.entries[j].data == 0
  }

  /** The sectors read for slot `j` are those of the image, as far as any were read. */
  ghost predicate OwnRead(v: Volume, image: seq<Sector>, l: Loading, j: nat, sectors: seq<Option<Sector>>)
    requires |v.tree.entries| == |l.volume.tree.entries| == MAX_ENTRIES && j < MAX_ENTRIES
  {
    forall k: nat | k < Reads(l, j) && k < |sectors| && Cursor(v, j) + k < |image| && AllRead(sectors, k + 1) ::
      sectors[k] == Some(image[Cursor(v, j) + k])
  }

  /**
   Of a saved image, a file among the first eight entries comes back with its content or comes back empty,
   whatever the reads of the other files returned and however little memory there is. With room in the heap
   it comes back exactly when its own sectors could be read.
   */
  lemma EachComesBack(v: Volume, raw: seq<byte>, image: seq<Sector>, u: Volume, inc: Incoming, j: nat, room: bool)
    requires Savable(v) && TableImage(raw, v.tree.entries) && Saved(image, v, raw)
    requires |u.tree.entries| == |u.bufs| == |u.held| == MAX_ENTRIES && H.Canonical(u.blocks)
    requires room ==> Roomy(u.blocks, Contents(v, 0))
    requires Shaped(inc) && inc.header == Some(image[0]) && inc.table == Some(image[1])
    requires j < MAX_ENTRIES && Back(v, j)
    requires OwnRead(v, image, FilesLoaded(Loading(u.(tree := LoadedTree(u.tree, image[1], v.tree.taken)), FIRST_DATA), inc, j), j, inc.files[j])
    ensures var w, e := Load(u, inc).0, v.tree.entries[j];
            && w.tree.entries[j].name == e.name && w.tree.entries[j].kind == e.kind && w.tree.entries[j].used
            && (BackAt(v, w, j) || EmptyAt(w, j))
            && (!AllRead(inc.files[j], SectorCount(e.size)) ==> EmptyAt(w, j))
            && (room && AllRead(inc.files[j], SectorCount(e.size)) ==> BackAt(v, w, j))
  {
    var t, n := LoadedTree(u.tree, image[1], v.tree.taken), v.tree.taken;
    var l := Loading(u.(tree := t), FIRST_DATA);
    SavedTree(v, raw, u.tree);
    SavedLoads(v, raw, image, u, inc);
    hide LoadedTree, TableImage, ContentsSaved, FilesLoaded, Savable, Roomy, Contents, H.Canonical, Load;
    CourseStart(v, u, t, room);
    FilesOnCourse(v, l, inc, j, room);
    SlotStays(l, inc, j, n);
    OneStepBack(v, FilesLoaded(l, inc, j), j, image, inc.files[j], room);
    assert FilesLoaded(l, inc, j + 1) == FileStep(FilesLoaded(l, inc, j), j, inc.files[j]) by { NextLoaded(l, inc, j); }
    hide FileStep, OnCourse, OwnRead, RestoredTree;
    SameBackAt(v, FilesLoaded(l, inc, j + 1).volume, FilesLoaded(l, inc, n).volume, j);
  }

  lemma NextLoaded(l: Loading, inc: Incoming, j: nat)
    requires |l.volume.tree.entries| == |l.volume.bufs| == |l.volume.held| == MAX_ENTRIES && j < MAX_ENTRIES && Shaped(inc)
    ensures FilesLoaded(l, inc, j + 1) == FileStep(FilesLoaded(l, inc, j), j, inc.files[j])
  {
  }

  lemma SameBackAt(v: Volume, a: Volume, b: Volume, j: nat)
    requires |v.tree.entries| == |v.bufs| == MAX_ENTRIES && 0 <= v.tree.taken <= MAX_ENTRIES && j < MAX_ENTRIES
    requires |a.tree.entries| == |a.bufs| == |a.held| == MAX_ENTRIES && |b.tree.entries| == |b.bufs| == |b.held| == MAX_ENTRIES
    requires b.tree.entries[j] == a.tree.entries[j] && b.bufs[j] == a.bufs[j] && b.held[j] == a.held[j]
    ensures BackAt(v, a, j) ==> BackAt(v, b, j)
  {
  }

  lemma CourseStart(v: Volume, u: Volume, t: Tree, room: bool)
    requires Savable(v) && RestoredTree(v, t)
    requires |u.bufs| == |u.held| == MAX_ENTRIES && H.Canonical(u.blocks) && (room ==> Roomy(u.blocks, Contents(v, 0)))
    ensures OnCourse(v, Loading(u.(tree := t), FIRST_DATA), 0, room)
  {
  }

  /** The step for a slot that was saved with a content. */
  lemma OneStepBack(v: Volume, l: Loading, j: nat, image: seq<Sector>, sectors: seq<Option<Sector>>, room: bool)
    requires Savable(v) && Back(v, j) && OnCourse(v, l, j, room)
    requires |image| == TOTAL_SECTORS && ContentsSaved(image, v, v.tree.taken) && OwnRead(v, image, l, j, sectors)
    ensures var w, e := FileStep(l, j, sectors).volume, v.tree.entries[j];
            && w.tree.entries[j].name == e.name && w.tree.entries[j].kind == e.kind && w.tree.entries[j].used
            && (BackAt(v, w, j) || EmptyAt(w, j))
            && (!AllRead(sectors, SectorCount(e.size)) ==> EmptyAt(w, j))
            && (room && AllRead(sectors, SectorCount(e.size)) ==> BackAt(v, w, j))
  {
    assert Contents(v, j) == 1 + Contents(v, j + 1);
    assert room ==> H.Grants(l.volume.blocks, MAX_FILE_SIZE);
    if H.Grants(l.volume.blocks, MAX_FILE_SIZE) {
      GrantedStepBack(v, l, j, image, sectors, room);
    } else {
      StepCases(l, j, sectors);
      hide Sound, H.Grants, FileStep, Cursor, Contents;
    }
  }

  lemma GrantedStepBack(v: Volume, l: Loading, j: nat, image: seq<Sector>, sectors: seq<Option<Sector>>, room: bool)
    requires Savable(v) && Back(v, j) && OnCourse(v, l, j, room) && H.Grants(l.volume.blocks, MAX_FILE_SIZE)
    requires |image| == TOTAL_SECTORS && ContentsSaved(image, v, v.tree.taken) && OwnRead(v, image, l, j, sectors)
    ensures var w, e := FileStep(l, j, sectors).volume, v.tree.entries[j];
            && w.tree.entries[j].name == e.name && w.tree.entries[j].kind == e.kind && w.tree.entries[j].used
            && if AllRead(sectors, SectorCount(e.size)) then BackAt(v, w, j) else EmptyAt(w, j)
  {
    var size := v.tree.entries[j].size;
    StepCases(l, j, sectors);
    ReadsSaved(v, l, j);
    H.AllocGrants(l.volume.blocks, MAX_FILE_SIZE);
    H.UsableIff(MAX_FILE_SIZE);
    hide Sound, Filled, Blanked, Cursor, Content, H.Grants, H.Alloc, H.Grant, H.Canonical, H.UsedSet, Roomy, Reads, Needed, SectorCount, FileStep, Contents;
    if AllRead(sectors, SectorCount(size)) {
      forall k | 0 <= k < SectorCount(size) ensures sectors[k] == Some(Content(v.bufs[j], size, k)) {
        assert AllRead(sectors, k + 1);
        assert ContentSaved(image, v, j, k);
      }
      FilledIsBlanked(sectors, v.bufs[j], size);
      StepFills(l, j, sectors);
    }
  }

  lemma StepFills(l: Loading, i: nat, sectors: seq<Option<Sector>>)
    requires |l.volume.tree.entries| == |l.volume.bufs| == |l.volume.held| == MAX_ENTRIES && i < MAX_ENTRIES
    requires Reads(l, i) > 0 && AllRead(sectors, SectorCount(l.volume.tree.entries[i].size))
    ensures HasContent(l.volume.tree.entries[i])
    ensures FileStep(l, i, sectors).volume.bufs[i] == Filled(sectors, l.volume.tree.entries[i].size)
  {
  }

  // ---------------------------------------------------------------- when contents do not come back

  /** A slot whose content has not been read yet. */
  ghost predicate Pending(w: Volume, i: int)
    requires |w.tree.entries| == MAX_ENTRIES && 0 <= i < MAX_ENTRIES
  {
    var e := w.tree.entries[i];
    e.data == 0 && (e.used ==> 0 <= e.size < MAX_FILE_SIZE && (e.kind == FILE || e.size == 0))
  }

  /** Half way through loading a saved table, whatever was read. */
  ghost predicate Underway(w: Volume, n: nat) {
    && Sound(w) && n <= w.tree.taken
    && w.tree.root == w.tree.cwd == 0 && w.tree.entries[0].name == [SLASH]
    && (forall i | 0 <= i < n :: SizeAt(w, i))
    && (forall i | n <= i < w.tree.taken :: Pending(w, i))
  }

  /** One entry's size and buffer change. */
  lemma SlotUnderway(v: Volume, w: Volume, n: nat)
    requires Underway(v, n) && n < v.tree.taken
    requires |w.tree.entries| == |w.bufs| == |w.held| == MAX_ENTRIES && w.tree == v.tree.(entries := w.tree.entries)
    requires forall i | 0 <= i < MAX_ENTRIES && i != n ::
               w.tree.entries[i] == v.tree.entries[i] && w.bufs[i] == v.bufs[i] && w.held[i] == v.held[i]
    requires w.tree.entries[n] == v.tree.entries[n].(size := w.tree.entries[n].size, data := w.tree.entries[n].data)
    requires H.Canonical(w.blocks) && H.UsedSet(v.blocks) <= H.UsedSet(w.blocks)
    requires BufferAt(w, n) && SizeAt(w, n) && (Holds(w, n) ==> w.held[n] !in H.UsedSet(v.blocks))
    ensures Underway(w, n + 1)
  {
    assert ParentAt(v.tree, 0);
    SameLinks(v.tree, w.tree);
    forall i | 0 <= i < MAX_ENTRIES ensures BufferAt(w, i) { assert BufferAt(v, i); }
    forall i, j | 0 <= i < j < MAX_ENTRIES ensures BuffersApart(w, i, j) {
      assert BuffersApart(v, i, j) && BufferAt(v, i) && BufferAt(v, j);
    }
    forall i | 0 <= i < n ensures SizeAt(w, i) { assert SizeAt(v, i); }
    forall i | n < i < w.tree.taken ensures Pending(w, i) { assert Pending(v, i); }
  }

  /** Reading one content keeps the volume sound, whether there is memory and the sectors can be read or not. */
  lemma StepUnderway(l: Loading, n: nat, sectors: seq<Option<Sector>>)
    requires Underway(l.volume, n) && n < l.volume.tree.taken
    ensures Underway(FileStep(l, n, sectors).volume, n + 1)
  {
    var v, w := l.volume, FileStep(l, n, sectors).volume;
    var e, f := v.tree.entries[n], w.tree.entries[n];
    assert Pending(v, n) && EntryAt(v.tree, n);
    H.AllocRefuses(v.blocks, MAX_FILE_SIZE);
    hide H.Alloc, H.Grant, Filled, SectorCount;
    assert f == e || f == e.(size := 0) || (HasContent(e) && f == e.(data := f.data) && f.data != 0);
    if f.data != 0 {
      assert H.Grants(v.blocks, MAX_FILE_SIZE) && w.held[n] == H.Grant(v.blocks, MAX_FILE_SIZE);
      H.AllocGrants(v.blocks, MAX_FILE_SIZE);
      H.UsableIff(MAX_FILE_SIZE);
    } else {
      assert !HasContent(f);
    }
    hide Sound, H.Canonical, H.UsedSet, FileStep;
    assert SizeAt(w, n);
    SlotUnderway(v, w, n);
  }

  lemma {:induction false} FilesUnderway(l: Loading, inc: Incoming, n: nat)
    requires Underway(l.volume, 0) && n <= l.volume.tree.taken && Shaped(inc)
    ensures Underway(FilesLoaded(l, inc, n).volume, n)
  {
    if n > 0 {
      FilesUnderway(l, inc, n - 1);
      hide FileStep, Underway;
      assert FilesLoaded(l, inc, n - 1).volume.tree.taken == l.volume.tree.taken;
      StepUnderway(FilesLoaded(l, inc, n - 1), n - 1, inc.files[n - 1]);
    }
  }

  lemma RestoredUnderway(v: Volume, u: Volume, t: Tree)
    requires Savable(v) && RestoredTree(v, t) && |u.bufs| == |u.held| == MAX_ENTRIES && H.Canonical(u.blocks)
    ensures Underway(u.(tree := t), 0)
  {
    var w := u.(tree := t);
    forall i | 0 <= i < w.tree.taken ensures Pending(w, i) {
      assert Bare(t.entries[i]) == Restored(v, i);
      assert SizeAt(v, i) && BufferAt(v, i) && EntryAt(v.tree, i);
    }
  }

  /**
   Once the header and the table of a saved volume have been read, the load ends in a volume that can be
   used and saved again, whichever contents are read and however little memory is left.
   */
  lemma TableReadSavable(v: Volume, raw: seq<byte>, u: Volume, inc: Incoming)
    requires Savable(v) && TableImage(raw, v.tree.entries) && Shaped(inc)
    requires |u.tree.entries| == |u.bufs| == |u.held| == MAX_ENTRIES && H.Canonical(u.blocks)
    requires inc.header.Some? && HeaderSaved(inc.header.value, v.tree.taken) && inc.table.Some? && inc.table.value == raw[..SECTOR_SIZE]
    ensures Load(u, inc).1 == Loaded && Savable(Load(u, inc).0)
  {
    var t, n := LoadedTree(u.tree, inc.table.value, v.tree.taken), v.tree.taken;
    SavedTree(v, raw, u.tree);
    hide LoadedTree, TableImage, FilesLoaded, Sound;
    RestoredUnderway(v, u, t);
    FilesUnderway(Loading(u.(tree := t), FIRST_DATA), inc, n);
  }

  // ---------------------------------------------------------------- after a load

  /** A slot other than the root's that comes back in use. */
  predicate Survives(v: Volume, i: nat)
    requires |v.tree.entries| == MAX_ENTRIES && i < MAX_ENTRIES
  {
    0 < i < v.tree.taken && i < IN_SECTOR && v.tree.entries[i].used
  }

  ghost predicate NamedApart(v: Volume, i: nat, j: nat)
    requires |v.tree.entries| == MAX_ENTRIES && i < MAX_ENTRIES && j < MAX_ENTRIES
  {
    Survives(v, i) && Survives(v, j) ==> v.tree.entries[i].name != v.tree.entries[j].name
  }

  ghost predicate NotEmptied(v: Volume, i: nat)
    requires |v.tree.entries| == MAX_ENTRIES && i < MAX_ENTRIES
  {
    Survives(v, i) && v.tree.entries[i].kind == FILE ==> v.tree.entries[i].size > 0
  }

  /** What survives is listed by the root, and nothing else is listed. */
  lemma ListedIffSurvives(v: Volume, before: set<H.Block>, w: Volume, i: nat)
    requires CameBack(v, before, w) && i < w.tree.taken
    ensures Listed(w.tree, i) <==> Survives(v, i)
    ensures Survives(v, i) ==> i in w.tree.kids[0]
    ensures w.tree.entries[i].kind == Restored(v, i).kind && w.tree.entries[i].name == Restored(v, i).name
    ensures Survives(v, i) ==> (w.tree.entries[i].data == 0 <==> !Back(v, i))
    ensures w.tree.entries[i].size == Restored(v, i).size
  {
    assert BackAt(v, w, i) && EntryAt(w.tree, i);
    var es := RestoredEntries(v);
    assert es[i] == Restored(v, i);
    assert es[i].used && i != 0 <==> Survives(v, i);
    KidsInTable(w.tree, 0);
    if Listed(w.tree, i) { assert w.tree.kids[w.tree.entries[i].parent] != []; }
  }

  /** A position on the root's list holds a slot that survives. */
  lemma KidSurvives(v: Volume, before: set<H.Block>, w: Volume, j: nat)
    requires CameBack(v, before, w) && j < |w.tree.kids[0]|
    ensures var c := w.tree.kids[0][j]; c < w.tree.taken && Survives(v, c) && w.tree.entries[c].name == v.tree.entries[c].name
  {
    KidsInTable(w.tree, 0);
    var c := w.tree.kids[0][j];
    assert c in w.tree.kids[0];
    ListedIffSurvives(v, before, w, c);
  }

  lemma UniqueAfterLoadIff(v: Volume, before: set<H.Block>, w: Volume)
    requires CameBack(v, before, w)
    ensures UniqueNames(w.tree) <==> forall i, j | 0 <= i < j < MAX_ENTRIES :: NamedApart(v, i, j)
  {
    var ks := w.tree.kids[0];
    if UniqueNames(w.tree) {
      forall i, j | 0 <= i < j < MAX_ENTRIES ensures NamedApart(v, i, j) {
        if Survives(v, i) && Survives(v, j) {
          ListedIffSurvives(v, before, w, i);
          ListedIffSurvives(v, before, w, j);
          ChildFound(w.tree, 0, i);
          ChildFound(w.tree, 0, j);
        }
      }
    }
    if forall i, j | 0 <= i < j < MAX_ENTRIES :: NamedApart(v, i, j) {
      forall k | 0 <= k < MAX_ENTRIES ensures UniqueNamesAt(w.tree, k) {
        KidsInTable(w.tree, k);
        forall j, l | 0 <= j < l < |w.tree.kids[k]| ensures NamesDiffer(w.tree, k, j, l) {
          assert k == 0;
          KidSurvives(v, before, w, j);
          KidSurvives(v, before, w, l);
          assert ks[j] < ks[l];
          assert NamedApart(v, ks[j], ks[l]);
        }
      }
    }
  }

  /** The loaded volume is fit for a session exactly when the names that come back differ and no file comes back empty. */
  lemma LoadedOrderlyIff(v: Volume, before: set<H.Block>, w: Volume)
    requires CameBack(v, before, w)
    ensures Refinement.Orderly(w) <==>
              && (forall i, j | 0 <= i < j < MAX_ENTRIES :: NamedApart(v, i, j))
              && (forall i | 0 <= i < MAX_ENTRIES :: NotEmptied(v, i))
  {
    UniqueAfterLoadIff(v, before, w);
    hide CameBack, UniqueNames, Savable;
    BackedAfterLoadIff(v, before, w);
  }

  lemma BackedAfterLoadIff(v: Volume, before: set<H.Block>, w: Volume)
    requires CameBack(v, before, w)
    ensures Sound(w) && Attached(w.tree, w.tree.cwd) && |v.tree.entries| == MAX_ENTRIES
    ensures (forall i | 0 <= i < w.tree.taken :: Refinement.BackedAt(w, i)) <==> (forall i | 0 <= i < MAX_ENTRIES :: NotEmptied(v, i))
  {
    forall i | 0 <= i < MAX_ENTRIES ensures NotEmptied(v, i) <==> i >= w.tree.taken || Refinement.BackedAt(w, i) {
      if i < w.tree.taken { ListedIffSurvives(v, before, w, i); }
    }
  }

  /** Writing to a file that came back empty follows a null pointer. */
  lemma EmptyFileFaultsIff(v: Volume, before: set<H.Block>, w: Volume, name: cstring, content: cstring, junk: seq<byte>)
    requires CameBack(v, before, w) && |junk| == MAX_FILE_SIZE
    requires Find(w.tree, name) != NIL && w.tree.entries[Find(w.tree, name)].kind == FILE
    ensures WriteFile(w, name, content, junk).outcome == Fault <==> w.tree.entries[Find(w.tree, name)].size == 0
  {
    var i := Find(w.tree, name);
    FoundFileListed(w.tree, name);
    ListedIffSurvives(v, before, w, i);
    Runs.WriteFaultIff(w, name, content, junk);
    assert SizeAt(w, i);
    hide WriteFile, CameBack;
  }

  // ---------------------------------------------------------------- over the drive

  ghost predicate Possible(st: Store, h: Handle, sector: nat, o: Option<Sector>)
    requires Formed(st)
  {
    exists a: Answers :: Read(st, h, sector, a) == o
  }

  /** The reads for slot `i` are answers the drive may give; after a failure nothing more is read. */
  ghost predicate PossibleAt(st: Store, h: Handle, l: Loading, i: nat, sectors: seq<Option<Sector>>)
    requires Formed(st) && |l.volume.tree.entries| == MAX_ENTRIES && i < MAX_ENTRIES
  {
    forall k: nat | k < Reads(l, i) && k < |sectors| && AllRead(sectors, k) ::
      Possible(st, h, (l.cursor + k) % WORD_LIMIT, sectors[k])
  }

  /** All that one load read are answers the drive may give. */
  ghost predicate FromStore(st: Store, h: Handle, u: Volume, inc: Incoming)
    requires Formed(st) && Shaped(inc) && |u.tree.entries| == |u.bufs| == |u.held| == MAX_ENTRIES
  {
    && Possible(st, h, 0, inc.header)
    && (inc.header.Some? && ValidHeader(inc.header.value) ==>
          BehindFromStore(st, h, u, inc, Word(inc.header.value, 12), Word(inc.header.value, 16)))
  }

  ghost predicate BehindFromStore(st: Store, h: Handle, u: Volume, inc: Incoming, count: nat, start: uint32)
    requires Formed(st) && Shaped(inc) && |u.tree.entries| == |u.bufs| == |u.held| == MAX_ENTRIES && count <= MAX_ENTRIES
  {
    && Possible(st, h, 1, inc.table)
    && (inc.table.Some? ==>
          var l := Loading(u.(tree := LoadedTree(u.tree, inc.table.value, count)), start);
          l.volume.tree.root != NIL ==>
            forall i | 0 <= i < count :: PossibleAt(st, h, FilesLoaded(l, inc, i), i, inc.files[i]))
  }

  /** Disk and mirror of the virtual disk agree below sector `limit`. */
  ghost predicate Agree(st: Store, limit: nat)
    requires Formed(st)
  {
    forall s | 0 <= s < limit && s < TOTAL_SECTORS :: st.disk[VDISK_START + s] == st.mirror[s]
  }

  lemma AgreedRead(st: Store, limit: nat, s: nat, o: Option<Sector>)
    requires Formed(st) && s < limit <= TOTAL_SECTORS && Agree(st, limit) && Possible(st, Vdisk, s, o)
    ensures o == Some(st.mirror[s])
  {
    assert st.disk[VDISK_START + s] == st.mirror[s];
  }

  lemma {:induction false} AgreedReads(st: Store, limit: nat, l: Loading, i: nat, sectors: seq<Option<Sector>>, n: nat)
    requires Formed(st) && |l.volume.tree.entries| == MAX_ENTRIES && i < MAX_ENTRIES && limit <= TOTAL_SECTORS
    requires Agree(st, limit) && PossibleAt(st, Vdisk, l, i, sectors)
    requires n <= Reads(l, i) && n <= |sectors| && l.cursor + n <= limit
    ensures AllRead(sectors, n)
    ensures forall k | 0 <= k < n :: sectors[k] == Some(st.mirror[l.cursor + k])
  {
    if n > 0 {
      AgreedReads(st, limit, l, i, sectors, n - 1);
      assert (l.cursor + n - 1) % WORD_LIMIT == l.cursor + n - 1;
      AgreedRead(st, limit, l.cursor + n - 1, sectors[n - 1]);
    }
  }

  lemma DriveServes(st: Store, limit: nat, l: Loading, i: nat, sectors: seq<Option<Sector>>)
    requires Formed(st) && |l.volume.tree.entries| == MAX_ENTRIES && i < MAX_ENTRIES && limit <= TOTAL_SECTORS
    requires Agree(st, limit) && PossibleAt(st, Vdisk, l, i, sectors)
    ensures ServedAt(l, st.mirror, limit, i, sectors)
  {
    forall k: nat | k < Reads(l, i) && k < |sectors| && l.cursor + k < limit
      ensures sectors[k] == Some(st.mirror[l.cursor + k])
    {
      AgreedReads(st, limit, l, i, sectors, k + 1);
    }
  }

  /** A volume saved to the virtual disk comes back however the drive answers the reads, if its writes reached the disk. */
  lemma VdiskRoundTrip(st: Store, v: Volume, raw: seq<byte>, u: Volume, inc: Incoming)
    requires Formed(st) && Savable(v) && TableImage(raw, v.tree.entries) && Saved(st.mirror, v, raw)
    requires Agree(st, Cursor(v, v.tree.taken))
    requires |u.tree.entries| == |u.bufs| == |u.held| == MAX_ENTRIES && H.Canonical(u.blocks) && Roomy(u.blocks, Contents(v, 0))
    requires Shaped(inc) && FromStore(st, Vdisk, u, inc)
    ensures Load(u, inc).1 == Loaded && CameBack(v, H.UsedSet(u.blocks), Load(u, inc).0)
  {
    var limit := Cursor(v, v.tree.taken);
    CursorBound(v, v.tree.taken);
    AgreedRead(st, limit, 0, inc.header);
    AgreedRead(st, limit, 1, inc.table);
    SavedTree(v, raw, u.tree);
    var l := Loading(u.(tree := LoadedTree(u.tree, st.mirror[1], v.tree.taken)), FIRST_DATA);
    hide LoadedTree, Savable, TableImage, ContentsSaved, Agree, PossibleAt, ServedAt, FilesLoaded;
    forall i | 0 <= i < v.tree.taken ensures ServedAt(FilesLoaded(l, inc, i), st.mirror, limit, i, inc.files[i]) {
      DriveServes(st, limit, FilesLoaded(l, inc, i), i, inc.files[i]);
    }
    SaveThenLoad(v, raw, st.mirror, u, inc);
  }

  /** The device holds an image below `limit`, wherever the handle may look for its sectors. */
  ghost predicate HoldsImage(st: Store, h: Handle, image: seq<Sector>, limit: nat)
    requires Formed(st)
  {
    forall s | 0 <= s < limit && s < |image| && s < TOTAL_SECTORS ::
      image[s] == st.disk[if h.Hdd? then s else s + 100] && (h.Vdisk? ==> image[s] == st.mirror[s])
  }

  lemma ReadsImage(st: Store, h: Handle, image: seq<Sector>, limit: nat, s: nat, o: Option<Sector>)
    requires Formed(st) && HoldsImage(st, h, image, limit) && s < limit && s < |image| && s < TOTAL_SECTORS && Possible(st, h, s, o)
    ensures o == None || o == Some(image[s])
  {
    assert image[s] == st.disk[if h.Hdd? then s else s + 100];
  }

  lemma DriveOwnRead(st: Store, h: Handle, v: Volume, image: seq<Sector>, l: Loading, j: nat, sectors: seq<Option<Sector>>)
    requires Formed(st) && Savable(v) && Back(v, j) && OnCourse(v, l, j, false) && |image| == TOTAL_SECTORS
    requires HoldsImage(st, h, image, Cursor(v, v.tree.taken)) && PossibleAt(st, h, l, j, sectors)
    ensures OwnRead(v, image, l, j, sectors)
  {
    if H.Grants(l.volume.blocks, MAX_FILE_SIZE) {
      ReadsSaved(v, l, j);
      var limit := Cursor(v, v.tree.taken);
      hide Savable, OnCourse, HoldsImage, Cursor, Needed, Reads, Possible;
      forall k: nat | k < Reads(l, j) && k < |sectors| && AllRead(sectors, k + 1)
        ensures sectors[k] == Some(image[Cursor(v, j) + k])
      {
        assert (l.cursor + k) % WORD_LIMIT == l.cursor + k;
        ReadsImage(st, h, image, limit, l.cursor + k, sectors[k]);
      }
    }
  }

  /**
   From a device that holds a saved image, through either handle: once header and table are read, each file
   among the first eight entries comes back with its content or empty; empty if the drive did not answer all
   reads of its own sectors, and with room in the heap only then.
   */
  lemma DriveEachComesBack(st: Store, h: Handle, v: Volume, raw: seq<byte>, image: seq<Sector>, u: Volume, inc: Incoming, j: nat, room: bool)
    requires Formed(st) && Savable(v) && TableImage(raw, v.tree.entries) && Saved(image, v, raw)
    requires HoldsImage(st, h, image, Cursor(v, v.tree.taken))
    requires |u.tree.entries| == |u.bufs| == |u.held| == MAX_ENTRIES && H.Canonical(u.blocks)
    requires room ==> Roomy(u.blocks, Contents(v, 0))
    requires Shaped(inc) && FromStore(st, h, u, inc) && inc.header.Some? && inc.table.Some?
    requires j < MAX_ENTRIES && Back(v, j)
    ensures Load(u, inc).1 == Loaded
    ensures var w, e := Load(u, inc).0, v.tree.entries[j];
            && w.tree.entries[j].name == e.name && w.tree.entries[j].kind == e.kind && w.tree.entries[j].used
            && (BackAt(v, w, j) || EmptyAt(w, j))
            && (!AllRead(inc.files[j], SectorCount(e.size)) ==> EmptyAt(w, j))
            && (room && AllRead(inc.files[j], SectorCount(e.size)) ==> BackAt(v, w, j))
  {
    var t, limit := LoadedTree(u.tree, image[1], v.tree.taken), Cursor(v, v.tree.taken);
    var l := Loading(u.(tree := t), FIRST_DATA);
    CursorBound(v, v.tree.taken);
    ReadsImage(st, h, image, limit, 0, inc.header);
    ReadsImage(st, h, image, limit, 1, inc.table);
    SavedTree(v, raw, u.tree);
    SavedLoads(v, raw, image, u, inc);
    CourseStart(v, u, t, false);
    hide LoadedTree, Savable, TableImage, ContentsSaved, PossibleAt, OwnRead, FilesLoaded, HoldsImage, OnCourse, Roomy, Contents, H.Canonical;
    FilesOnCourse(v, l, inc, j, false);
    DriveOwnRead(st, h, v, image, FilesLoaded(l, inc, j), j, inc.files[j]);
    EachComesBack(v, raw, image, u, inc, j, room);
  }

  // ---------------------------------------------------------------- every run can be saved

  lemma FreshSavable(blocks: seq<H.Block>)
    requires H.Canonical(blocks)
    ensures Savable(Fresh(blocks))
  {
    FreshSound(blocks);
  }

  lemma PerformSavable(v: Volume, op: Command)
    requires Savable(v) && WellFormed(op)
    ensures Savable(Perform(v, op).volume)
  {
    PerformSound(v, op);
    match op
    case MkDirOp(name) => MkDirSavable(v, name);
    case TouchOp(name, junk) => TouchSavable(v, name, junk);
    case WriteOp(name, content, junk) => WriteFileSavable(v, name, content, junk);
    case RmOp(name) =>
      if Rm(v, name).outcome == Done {
        FoundFileListed(v.tree, name);
        DetachedSavable(v, Rm(v, name).volume, Find(v.tree, name));
      }
    case RmDirOp(name) =>
      if RmDir(v, name).outcome == Done {
        FoundHung(v.tree, name);
        DetachedSavable(v, RmDir(v, name).volume, Find(v.tree, name));
      }
    case CpOp(src, dest, junk) =>
      if Find(v.tree, src) != NIL {
        WriteFileSavable(v, dest, Text(v.bufs[Find(v.tree, src)], 0), junk);
      }
    case CdOp(path) =>
      var w := Cd(v, path).volume;
      forall i | 0 <= i < w.tree.taken ensures SizeAt(w, i) { assert SizeAt(v, i); }
  }

  lemma MkDirSavable(v: Volume, name: cstring)
    requires Savable(v)
    ensures Savable(MkDir(v, name).volume)
  {
    var w := MkDir(v, name).volume;
    MkDirSound(v, name);
    TargetDirIsDirectory(v.tree, name);
    forall i | 0 <= i < w.tree.taken ensures SizeAt(w, i) { assert i < v.tree.taken ==> SizeAt(v, i); }
  }

  lemma TouchSavable(v: Volume, name: cstring, junk: seq<byte>)
    requires Savable(v) && |junk| == MAX_FILE_SIZE
    ensures Savable(Touch(v, name, junk).volume)
  {
    hide H.Alloc, H.Grant, Find;
    var w := Touch(v, name, junk).volume;
    TouchSound(v, name, junk);
    TargetDirIsDirectory(v.tree, name);
    forall i | 0 <= i < w.tree.taken ensures SizeAt(w, i) { assert i < v.tree.taken ==> SizeAt(v, i); }
  }

  lemma WriteSavable(v: Volume, i: int, content: cstring)
    requires Savable(v) && 0 <= i < v.tree.taken
    requires v.tree.entries[i].kind == FILE && v.tree.entries[i].data != 0 ==> Holds(v, i) && |v.bufs[i]| == MAX_FILE_SIZE
    ensures Savable(WriteAt(v, i, content).volume)
  {
    var w := WriteAt(v, i, content).volume;
    WriteSound(v, i, content);
    forall j | 0 <= j < w.tree.taken ensures SizeAt(w, j) { assert SizeAt(v, j); }
  }

  lemma WriteFileSavable(v: Volume, name: cstring, content: cstring, junk: seq<byte>)
    requires Savable(v) && |junk| == MAX_FILE_SIZE
    ensures Savable(WriteFile(v, name, content, junk).volume)
  {
    hide Find, WriteAt, Touch;
    var i := Find(v.tree, name);
    if i != NIL {
      FoundBuffer(v, name);
      WriteSavable(v, i, content);
    } else {
      var r := Touch(v, name, junk);
      TouchSavable(v, name, junk);
      if r.outcome == Done && Find(r.volume.tree, name) != NIL {
        FoundBuffer(r.volume, name);
        WriteSavable(r.volume, Find(r.volume.tree, name), content);
      }
    }
  }

  lemma DetachedSavable(v: Volume, w: Volume, i: int)
    requires Savable(v) && Sound(w) && 0 < i < v.tree.taken && v.tree.entries[i].parent >= 0
    requires w.tree == Detached(v.tree, i)
    ensures Savable(w)
  {
    DetachedForest(v.tree, i);
    forall j | 0 <= j < w.tree.taken ensures SizeAt(w, j) { assert SizeAt(v, j); }
  }

  /** Whatever is done to a fresh filesystem, it can be saved and loaded. */
  lemma {:induction false} RunSavable(v: Volume, ops: seq<Command>)
    requires Savable(v) && forall op | op in ops :: WellFormed(op)
    ensures Savable(Runs.After(v, ops))
    decreases |ops|
  {
    if ops != [] {
      var n := |ops| - 1;
      RunSavable(v, ops[..n]);
      hide Savable;
      PerformSavable(Runs.After(v, ops[..n]), ops[n]);
    }
  }
}
