/** Turning a table sector into the entry table: decoding, checking, and hanging everything on the root. */
module KernelFileTable {
  import opened Bytes
  import opened Wrappers
  import opened CStrings
  import opened FileTree
  import opened FileTreeEdits
  import opened FileOps
  import opened StorageSpec
  import opened FileStoreSpec
  import opened KernelFileSystem

  // ---------------------------------------------------------------- the table

  /** The entries laid over the table sector, with nothing behind it. */
  method DecodeTable(fs: FileSystem, sector: array<byte>)
    requires fs.entries.Length == MAX_ENTRIES && sector.Length == SECTOR_SIZE
    modifies fs.entries
    ensures forall i | 0 <= i < MAX_ENTRIES :: fs.entries[i] == FieldsOf(Window(sector[..], i))
  {
    hide FieldsOf, Window;
    for i := 0 to MAX_ENTRIES
      invariant forall j | 0 <= j < i :: fs.entries[j] == FieldsOf(Window(sector[..], j))
    {
      fs.entries[i] := FieldsOf(Window(sector[..], i));
    }
  }

  /** The first pass over the loaded slots. */
  method Validate(fs: FileSystem, count: nat, ghost table: Sector)
    requires fs.entries.Length == MAX_ENTRIES && count <= MAX_ENTRIES
    requires forall i | 0 <= i < MAX_ENTRIES :: fs.entries[i] == FieldsOf(Window(table, i))
    modifies fs.entries
    ensures fs.entries[..] == LoadedEntries(table, count)
  {
    hide FieldsOf, Window;
    var i := 0;
    while i < count
      invariant i <= count
      invariant forall j | 0 <= j < i :: fs.entries[j] == LoadedEntry(table, count, j)
      invariant forall j | i <= j < MAX_ENTRIES :: fs.entries[j] == FieldsOf(Window(table, j))
    {
      var e := fs.entries[i];
      if e.used {
        if e.size > MAX_FILE_SIZE { e := e.(size := MAX_FILE_SIZE); }
        if e.kind != FILE && e.kind != DIRECTORY { e := e.(used := false); }
      }
      fs.entries[i] := e;
      i := i + 1;
    }
  }

  method FindRoot(fs: FileSystem, count: nat) returns (root: int)
    requires count <= fs.entries.Length
    ensures root == RootFrom(fs.entries[..], 0, count)
  {
    root := NIL;
    var i := 0;
    while i < count && root == NIL
      invariant i <= count
      invariant RootFrom(fs.entries[..], 0, count) == if root != NIL then root else RootFrom(fs.entries[..], i, count)
      invariant root == NIL || 0 <= root < count
      decreases count - i, root == NIL
    {
      if fs.entries[i].used && fs.entries[i].kind == DIRECTORY && fs.entries[i].name == [SLASH] {
        root := i;
      } else {
        i := i + 1;
      }
    }
  }

  lemma UnderRootNone(es: seq<Entry>, root: nat)
    requires root < |es| && es[root].children == NIL
    ensures UnderRoot(es, root, []) == es
  {
  }

  lemma PositionAppend(ks: seq<nat>, c: nat, k: nat)
    requires k in ks + [c] && c !in ks
    ensures Position(ks + [c], k) == if k in ks then Position(ks, k) else |ks|
  {
    if ks != [] && ks[0] != k {
      assert (ks + [c])[1..] == ks[1..] + [c];
      PositionAppend(ks[1..], c, k);
    }
  }

  /** A list in slot order that does not hold the root. */
  ghost predicate Rising(ks: seq<nat>, root: nat) {
    root !in ks && forall j, l | 0 <= j < l < |ks| :: ks[j] < ks[l]
  }

  /** What one more slot at the end of the root's list changes in slot `k`. */
  function Appended(e: Entry, root: nat, ks: seq<nat>, c: nat, k: nat): Entry {
    if k == c then e.(parent := root)
    else if k == root then (if ks == [] then e.(children := c) else e)
    else if ks != [] && k == ks[|ks| - 1] then e.(next := c)
    else e
  }

  lemma UnderRootAppend(es: seq<Entry>, root: nat, ks: seq<nat>, c: nat, k: nat)
    requires root < |es| && c < |es| && k < |es| && c != root && c !in ks && Rising(ks, root) && es[c].next == NIL
    ensures UnderRootEntry(es, root, ks + [c], k) == Appended(UnderRootEntry(es, root, ks, k), root, ks, c, k)
  {
    var all := ks + [c];
    assert c in all && all[|ks|] == c;
    if k == root {
      assert HeadOf(all) == if ks == [] then c else ks[0];
    } else if k == c {
      PositionAppend(ks, c, c);
    } else if k in ks {
      PositionAppend(ks, c, k);
      var p := Position(ks, k);
      assert ks[p] == k;
      assert k == ks[|ks| - 1] <==> p == |ks| - 1;
    }
  }

  lemma UnderRootFields(es: seq<Entry>, root: nat, ks: seq<nat>, i: nat)
    requires root < |es| && i < |es|
    ensures var t := UnderRoot(es, root, ks); t[i].used == es[i].used && t[root].children == HeadOf(ks)
  {
  }

  lemma AppendedTable(es: seq<Entry>, root: nat, ks: seq<nat>, c: nat, now: seq<Entry>, later: seq<Entry>)
    requires root < |es| && c < |es| && c != root && c !in ks && Rising(ks, root) && es[c].next == NIL
    requires now == UnderRoot(es, root, ks) && |later| == |es|
    requires forall k | 0 <= k < |es| :: later[k] == Appended(now[k], root, ks, c, k)
    ensures later == UnderRoot(es, root, ks + [c])
  {
    hide UnderRootEntry, Appended;
    forall k | 0 <= k < |es| ensures later[k] == UnderRootEntry(es, root, ks + [c], k) {
      UnderRootAppend(es, root, ks, c, k);
      assert now[k] == UnderRootEntry(es, root, ks, k);
    }
  }

  method Append(fs: FileSystem, root: nat, c: nat, lastChild: int, ghost ks: seq<nat>)
    requires root < fs.entries.Length && c < fs.entries.Length && c != root && c !in ks && Rising(ks, root)
    requires (ks != [] ==> lastChild == ks[|ks| - 1]) && lastChild < fs.entries.Length
    requires fs.entries[root].children == HeadOf(ks)
    modifies fs.entries
    ensures forall k | 0 <= k < fs.entries.Length :: fs.entries[k] == Appended(old(fs.entries[k]), root, ks, c, k)
  {
    assert ks != [] ==> ks[|ks| - 1] in ks;
    fs.entries[c] := fs.entries[c].(parent := root);
    if fs.entries[root].children == NIL {
      fs.entries[root] := fs.entries[root].(children := c);
    } else {
      fs.entries[lastChild] := fs.entries[lastChild].(next := c);
    }
  }

  /** The slots below `i` hang on the root, `last` being the last of them. */
  ghost predicate Hanging(es: seq<Entry>, now: seq<Entry>, root: nat, i: nat, last: int)
    requires i <= |es|
  {
    var ks := Listing(es, root, i);
    && now == UnderRoot(es, root, ks)
    && last == if ks == [] then NIL else ks[|ks| - 1]
  }

  /** What the next slot brings about. */
  lemma HangingNext(es: seq<Entry>, now: seq<Entry>, root: nat, i: nat, last: int)
    requires root < |es| && i < |es| && Hanging(es, now, root, i, last)
    ensures |now| == |es| && now[i].used == es[i].used && now[root].children == HeadOf(Listing(es, root, i))
    ensures last < i && Rising(Listing(es, root, i), root) && i !in Listing(es, root, i)
    ensures !(es[i].used && i != root) ==> Hanging(es, now, root, i + 1, last)
  {
    UnderRootFields(es, root, Listing(es, root, i), i);
  }

  /** Every used slot becomes a child of the root, in slot order. */
  method ThreadTable(fs: FileSystem, root: nat, count: nat)
    requires root < count <= fs.entries.Length == MAX_ENTRIES
    requires forall i | 0 <= i < count :: fs.entries[i].children == fs.entries[i].next == NIL
    modifies fs.entries
    ensures fs.entries[..] == UnderRoot(old(fs.entries[..]), root, Listing(old(fs.entries[..]), root, count))
  {
    ghost var es := fs.entries[..];
    var lastChild := NIL;
    var i := 0;
    UnderRootNone(es, root);
    while i < count
      invariant i <= count && Hanging(es, fs.entries[..], root, i, lastChild)
    {
      lastChild := ThreadSlot(fs, root, i, lastChild, es);
      i := i + 1;
    }
  }

  method ThreadSlot(fs: FileSystem, root: nat, i: nat, lastChild: int, ghost es: seq<Entry>) returns (last: int)
    requires root < |es| && i < |es| == fs.entries.Length && es[i].next == NIL
    requires Hanging(es, fs.entries[..], root, i, lastChild)
    modifies fs.entries
    ensures Hanging(es, fs.entries[..], root, i + 1, last)
  {
    ghost var now := fs.entries[..];
    HangingNext(es, now, root, i, lastChild);
    hide UnderRoot, Appended, Hanging, Rising;
    last := lastChild;
    if fs.entries[i].used && i != root {
      Append(fs, root, i, lastChild, Listing(es, root, i));
      AppendedHangs(es, now, fs.entries[..], root, i, lastChild);
      last := i;
    }
  }

  lemma AppendedHangs(es: seq<Entry>, now: seq<Entry>, later: seq<Entry>, root: nat, i: nat, last: int)
    requires root < |es| && i < |es| && i != root && es[i].used && es[i].next == NIL && |later| == |es|
    requires Hanging(es, now, root, i, last)
    requires |now| == |es| && forall k | 0 <= k < |es| :: later[k] == Appended(now[k], root, Listing(es, root, i), i, k)
    ensures Hanging(es, later, root, i + 1, i)
  {
    HangingNext(es, now, root, i, last);
    AppendedTable(es, root, Listing(es, root, i), i, now, later);
  }

  /** memory_set over the whole table. */
  method ClearTable(fs: FileSystem)
    requires fs.entries.Length == MAX_ENTRIES
    modifies fs`kids, fs.entries
    ensures fs.entries[..] == Cleared() && fs.kids == NoKids()
  {
    for i := 0 to MAX_ENTRIES
      invariant forall j | 0 <= j < i :: fs.entries[j] == BLANK
    {
      fs.entries[i] := BLANK;
    }
    fs.kids := NoKids();
  }

  lemma LoadedBare(table: Sector, count: nat)
    ensures forall i | 0 <= i < MAX_ENTRIES ::
              var e := LoadedEntries(table, count)[i];
              e.children == e.next == NIL && e.data == 0 && (i < count && e.used ==> e.size <= MAX_FILE_SIZE)
  {
  }

  /** The tree of a table sector. */
  method BuildTree(fs: FileSystem, sector: array<byte>, count: nat)
    requires fs.entries.Length == MAX_ENTRIES && sector.Length == SECTOR_SIZE && count <= MAX_ENTRIES && fs.kids == NoKids()
    modifies fs`root, fs`currentDir, fs`nextEntry, fs`kids, fs.entries
    ensures fs.Links() == LoadedTree(old(fs.Links()), sector[..], count)
  {
    ghost var t, table := fs.Links(), sector[..];
    DecodeTable(fs, sector);
    fs.nextEntry := count;
    Validate(fs, count, table);
    ghost var es := fs.entries[..];
    LoadedBare(table, count);
    fs.root := FindRoot(fs, count);
    hide LoadedEntries, UnderRoot, Listing, RootFrom;
    if fs.root != NIL {
      fs.currentDir := fs.root;
      ThreadTable(fs, fs.root, count);
      fs.kids := NoKids()[fs.root := Listing(es, fs.root, count)];
    }
  }
}
