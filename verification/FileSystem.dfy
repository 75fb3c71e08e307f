/**
 The filesystem over the byte-level heap: the entry table is updated in place, lookups walk
 its links with strtok and strcmp, and content lives in heap buffers.
 */
module KernelFileSystem {
  import opened Bytes
  import opened CStrings
  import opened FileTree
  import opened FileTreeEdits
  import O = FileOps
  import opened FileOps
  import opened FileRuns
  import H = HeapSpec
  import opened HeapLayout
  import opened KernelHeap

  const MAX_PATH := 256

  // ---------------------------------------------------------------- content in memory

  /** The buffer of slot `i` is what the heap holds at the address in its entry. */
  ghost predicate InMemory(m: seq<byte>, v: Volume, i: int)
    requires |v.tree.entries| == |v.bufs| == MAX_ENTRIES && 0 <= i < MAX_ENTRIES
  {
    Holds(v, i) ==>
      var a := v.tree.entries[i].data;
      0 <= a <= |m| - MAX_FILE_SIZE && m[a..a + MAX_FILE_SIZE] == v.bufs[i]
  }

  ghost predicate AllInMemory(m: seq<byte>, v: Volume)
    requires |v.tree.entries| == |v.bufs| == MAX_ENTRIES
  {
    forall i | 0 <= i < MAX_ENTRIES :: InMemory(m, v, i)
  }

  /** Buffers of live blocks read the same wherever their bytes are kept. */
  lemma BufferKept(m: seq<byte>, n: seq<byte>, v: Volume, i: int)
    requires Sound(v) && 0 <= i < MAX_ENTRIES && InMemory(m, v, i)
    requires Holds(v, i) ==> SameBytes(m, n, v.held[i].Ptr(), v.held[i].End())
    ensures InMemory(n, v, i)
  {
    assert BufferAt(v, i);
    if Holds(v, i) {
      var a := v.tree.entries[i].data;
      assert n[a..a + MAX_FILE_SIZE] == m[a..a + MAX_FILE_SIZE];
    }
  }

  lemma BuffersKept(m: seq<byte>, n: seq<byte>, v: Volume)
    requires Sound(v) && LiveKept(m, n, v.blocks) && AllInMemory(m, v)
    ensures AllInMemory(n, v)
  {
    forall i | 0 <= i < MAX_ENTRIES ensures InMemory(n, v, i) {
      assert InMemory(m, v, i) && BufferAt(v, i);
      BufferKept(m, n, v, i);
    }
  }

  /** Tables that agree on what is held where. */
  lemma SameInMemory(m: seq<byte>, v: Volume, w: Volume)
    requires |v.tree.entries| == |v.bufs| == MAX_ENTRIES && AllInMemory(m, v)
    requires |w.tree.entries| == |w.bufs| == MAX_ENTRIES
    requires forall i | 0 <= i < MAX_ENTRIES && Holds(w, i) ::
               Holds(v, i) && w.tree.entries[i].data == v.tree.entries[i].data && w.bufs[i] == v.bufs[i]
    ensures AllInMemory(m, w)
  {
    forall i | 0 <= i < MAX_ENTRIES ensures InMemory(m, w, i) { assert InMemory(m, v, i); }
  }

  lemma AddedInMemory(m: seq<byte>, v: Volume, p: nat, name: cstring, kind: int)
    requires |v.bufs| == |v.held| == MAX_ENTRIES && Forest(v.tree) && AllInMemory(m, v) && p < v.tree.taken < MAX_ENTRIES
    ensures AllInMemory(m, v.(tree := Added(v.tree, p, name, kind, 0)))
  {
    SameInMemory(m, v, v.(tree := Added(v.tree, p, name, kind, 0)));
  }

  lemma TouchedInMemory(m: seq<byte>, v: Volume, name: cstring, junk: seq<byte>)
    requires Sound(v) && |junk| == MAX_FILE_SIZE && AllInMemory(m, v)
    requires var r := O.Touch(v, name, junk);
             r.outcome == Done ==>
               var a := r.volume.tree.entries[v.tree.taken].data;
               0 <= a <= |m| - MAX_FILE_SIZE && m[a..a + MAX_FILE_SIZE] == junk
    ensures AllInMemory(m, O.Touch(v, name, junk).volume)
  {
    hide H.Alloc, H.Grant;
    TargetDirIsDirectory(v.tree, name);
    var w := O.Touch(v, name, junk).volume;
    forall i | 0 <= i < MAX_ENTRIES ensures InMemory(m, w, i) { assert InMemory(m, v, i); }
  }

  lemma StoredBytes(m: seq<byte>, m1: seq<byte>, n: seq<byte>, a: int, buf: seq<byte>, content: cstring)
    requires |buf| == MAX_FILE_SIZE && 0 <= a <= |m| - MAX_FILE_SIZE && m[a..a + MAX_FILE_SIZE] == buf
    requires var l := |Cut(content)|;
             && SameOutside(m, m1, a, a + l) && m1[a..a + l] == Cut(content)
             && SameOutside(m1, n, a + l, a + l + 1) && n[a + l..a + l + 1] == [0]
    ensures n[a..a + MAX_FILE_SIZE] == Overwritten(buf, content)
  {
    var l := |Cut(content)|;
    assert n[a + l] == n[a + l..a + l + 1][0];
    forall k | 0 <= k < MAX_FILE_SIZE ensures n[a + k] == Overwritten(buf, content)[k] {
      if k < l { assert m1[a + k] == m1[a..a + l][k]; } else if k > l { assert m[a + k] == m[a..a + MAX_FILE_SIZE][k]; }
    }
  }

  lemma OthersInMemory(m: seq<byte>, n: seq<byte>, v: Volume, i: int)
    requires Sound(v) && 0 <= i < MAX_ENTRIES && Holds(v, i) && AllInMemory(m, v)
    requires BlocksKept(m, n, H.UsedSet(v.blocks) - {v.held[i]})
    ensures forall k | 0 <= k < MAX_ENTRIES && k != i :: InMemory(n, v, k)
  {
    forall k | 0 <= k < MAX_ENTRIES && k != i ensures InMemory(n, v, k) {
      assert InMemory(m, v, k) && BufferAt(v, k);
      if Holds(v, k) {
        assert if k < i then BuffersApart(v, k, i) else BuffersApart(v, i, k);
        BufferKept(m, n, v, k);
      }
    }
  }

  /** Only the first 4095 bytes of a text are ever copied, and those lie in its buffer, terminated there or not. */
  lemma SameCut(m: seq<byte>, a: nat, buf: seq<byte>)
    requires |buf| == MAX_FILE_SIZE && a <= |m| - MAX_FILE_SIZE && m[a..a + MAX_FILE_SIZE] == buf
    ensures Cut(Text(m, a)) == Cut(Text(buf, 0))
  {
    var s, t := Text(m, a), Text(buf, 0);
    TextBytes(m, a);
    TextBytes(buf, 0);
    assert forall k | 0 <= k < MAX_FILE_SIZE :: m[a + k] == buf[k] by {
      forall k | 0 <= k < MAX_FILE_SIZE ensures m[a + k] == buf[k] { assert m[a..a + MAX_FILE_SIZE][k] == buf[k]; }
    }
    if |t| < MAX_FILE_SIZE {
      assert m[a..a + |t|] == t;
      TextIs(m, a, t);
    } else {
      assert s[..MAX_FILE_SIZE - 1] == m[a..a + |s|][..MAX_FILE_SIZE - 1] == buf[..MAX_FILE_SIZE - 1];
    }
  }

  lemma CutWrittenAt(v: Volume, i: int, a: cstring, b: cstring)
    requires |v.tree.entries| == |v.bufs| == MAX_ENTRIES && 0 <= i < MAX_ENTRIES && Cut(a) == Cut(b)
    requires v.tree.entries[i].kind == FILE && v.tree.entries[i].data != 0 ==> |v.bufs[i]| == MAX_FILE_SIZE
    ensures WriteAt(v, i, a) == WriteAt(v, i, b)
  {
  }

  lemma CutWritten(v: Volume, name: cstring, a: cstring, b: cstring, junk: seq<byte>)
    requires Sound(v) && |junk| == MAX_FILE_SIZE && Cut(a) == Cut(b)
    ensures O.WriteFile(v, name, a, junk) == O.WriteFile(v, name, b, junk)
  {
    hide O.Touch, Find, WriteAt, Cut;
    var r := O.Touch(v, name, junk);
    if Find(v.tree, name) != NIL {
      FoundBuffer(v, name);
      CutWrittenAt(v, Find(v.tree, name), a, b);
    } else {
      TouchSound(v, name, junk);
      if r.outcome == Done && Find(r.volume.tree, name) != NIL {
        FoundBuffer(r.volume, name);
        CutWrittenAt(r.volume, Find(r.volume.tree, name), a, b);
      }
    }
  }

  class FileSystem {
    const heap: Heap
    const strtok: Tokenizer
    const entries: array<Entry>
    var root: int
    var currentDir: int
    var nextEntry: int
    ghost var kids: seq<seq<nat>>
    ghost var bufs: seq<seq<byte>>
    ghost var held: seq<H.Block>

    ghost function Links(): Tree
      reads this, entries
    {
      Tree(entries[..], root, currentDir, nextEntry, kids)
    }

    ghost function State(): Volume
      reads this, entries, heap
    {
      Volume(Links(), bufs, heap.blocks, held)
    }

    ghost predicate Valid()
      reads this, entries, heap, heap.mem
    {
      && entries.Length == MAX_ENTRIES
      && heap.Valid()
      && Sound(State())
      && AllInMemory(heap.mem[..], State())
    }

    /** An empty table, then the root directory in its first slot. */
    constructor (h: Heap)
      requires h.Valid()
      ensures heap == h && Valid()
      ensures State() == Fresh(heap.blocks)
      ensures fresh(strtok) && fresh(entries)
    {
      heap := h;
      strtok := new Tokenizer();
      entries := new Entry[MAX_ENTRIES](i => if i == 0 then ROOT else BLANK);
      root, currentDir, nextEntry := 0, 0, 1;
      kids := seq(MAX_ENTRIES, _ => []);
      bufs := seq(MAX_ENTRIES, _ => []);
      held := seq(MAX_ENTRIES, _ => NO_BLOCK);
      new;
      FreshSound(heap.blocks);
      assert entries[..] == Fresh(heap.blocks).tree.entries;
    }

    // -------------------------------------------------------------- lookup

    /** The first child of `dir` whose name is the string at offset `token` of `text`. */
    method FindChild(dir: int, text: array<byte>, token: nat) returns (found: int)
      requires entries.Length == MAX_ENTRIES && Forest(Links()) && 0 <= dir < nextEntry
      requires token < text.Length && token + |Text(text[..], token)| < text.Length
      ensures found == Child(Links(), dir, Text(text[..], token))
    {
      ghost var t, name := Links(), Text(text[..], token);
      ghost var ks := t.kids[dir];
      KidsInTable(t, dir);
      found := NIL;
      assert ListAt(t, dir);
      assert forall j | 0 <= j < |ks| :: ChildAt(t, dir, j);
      hide Forest, Text;
      var child := entries[dir].children;
      ghost var j := 0;
      while child != NIL
        invariant 0 <= j <= |ks| && child == HeadOf(ks[j..])
        invariant InTable(t.entries, ks[j..])
        invariant ChildIn(t.entries, ks, name) == ChildIn(t.entries, ks[j..], name)
        decreases |ks| - j
      {
        assert ChildAt(t, dir, j) && ks[j..][1..] == ks[j + 1..];
        var cmp := StrCmpAt(entries[child].name, text, token);
        if cmp == 0 {
          found := child;
          break;
        }
        child := entries[child].next;
        j := j + 1;
      }
    }

    /** What a path refers to, NIL for a null pointer. */
    method FindFile(path: cstring) returns (found: int)
      requires entries.Length == MAX_ENTRIES && Forest(Links())
      requires |Stripped(path)| < MAX_PATH
      modifies strtok
      ensures found == Find(Links(), path)
    {
      ghost var t := Links();
      var cmp := StrCmp(path, [SLASH]);
      if cmp == 0 { return root; }
      cmp := StrCmp(path, [DOT]);
      if cmp == 0 { return currentDir; }
      cmp := StrCmp(path, [DOT, DOT]);
      assert EntryAt(t, currentDir);
      if cmp == 0 { return if entries[currentDir].parent != NIL then entries[currentDir].parent else root; }
      var dir, rest := currentDir, Stripped(path);
      if At(path, 0) == SLASH {
        dir := root;
      }
      found := Walk(dir, rest);
    }

    /** path_copy: the path and its NUL in a buffer of its own. */
    method CopyPath(path: cstring) returns (copy: array<byte>)
      requires |path| < MAX_PATH
      ensures fresh(copy) && copy.Length == MAX_PATH && Text(copy[..], 0) == path
    {
      copy := new byte[MAX_PATH];
      for i := 0 to |path|
        invariant copy[..i] == path[..i]
      {
        copy[i] := path[i];
      }
      copy[|path|] := 0;
      TextIs(copy[..], 0, path);
    }

    method Walk(start: int, path: cstring) returns (found: int)
      requires entries.Length == MAX_ENTRIES && Forest(Links()) && 0 <= start < nextEntry
      requires |path| < MAX_PATH
      modifies strtok
      ensures found == Descend(Links(), start, Split(path, [SLASH]))
    {
      hide Split, Text, Forest;
      ghost var t, names := Links(), Split(path, [SLASH]);
      var copy := CopyPath(path);
      strtok.Begin(copy);
      found := start;
      var token := strtok.Next([SLASH]);
      assert names != [] ==> [names[0]] + names[1..] == names;
      while token != -1
        invariant strtok.Valid() && strtok.text == copy && -1 <= token < copy.Length
        invariant 0 <= found < nextEntry
        invariant token >= 0 ==> token + |Text(copy[..], token)| < copy.Length
        invariant var left := Split(strtok.Rest(), [SLASH]);
                  Descend(t, start, names) ==
                  Descend(t, found, if token == -1 then [] else ([Text(copy[..], token)] + left))
        decreases |strtok.Rest()| + (if token == -1 then 0 else 1)
      {
        ghost var left := Split(strtok.Rest(), [SLASH]);
        ghost var name: seq<byte> := Text(copy[..], token);
        assert ([name] + left)[0] == name && ([name] + left)[1..] == left;
        found := FindChild(found, copy, token);
        if found == NIL { return; }
        token := strtok.Next([SLASH]);
        assert left != [] ==> [left[0]] + left[1..] == left;
      }
    }
  
    // -------------------------------------------------------------- edits of the table

    /** Takes the next free slot; NIL when the table is full. */
    method CreateFile(name: cstring, kind: int) returns (c: int)
      requires entries.Length == MAX_ENTRIES && 0 <= nextEntry <= MAX_ENTRIES
      modifies this`nextEntry, entries
      ensures if old(nextEntry) >= MAX_ENTRIES then c == NIL && Links() == old(Links())
              else c == old(nextEntry) && Links() == Created(old(Links()), name, kind, 0)
    {
      if nextEntry >= MAX_ENTRIES { return NIL; }
      c := nextEntry;
      nextEntry := nextEntry + 1;
      entries[c] := Entry(Truncated(name), kind, 0, 0, NIL, NIL, NIL, true);
    }

    /** Makes `c` the first child of `p`. */
    method Link(c: nat, p: nat)
      requires entries.Length == |kids| == MAX_ENTRIES && c < MAX_ENTRIES && p < MAX_ENTRIES && c != p
      modifies this`kids, entries
      ensures Links() == Linked(old(Links()), c, p)
    {
      entries[c] := entries[c].(parent := p);
      entries[c] := entries[c].(next := entries[p].children);
      entries[p] := entries[p].(children := c);
      kids := kids[p := [c] + kids[p]];
    }

    /** Takes `i` off its parent's list, walking the siblings to find what names it. */
    method Bypass(i: nat)
      requires entries.Length == MAX_ENTRIES && Forest(Links()) && i < nextEntry && entries[i].parent >= 0
      modifies this`kids, entries
      ensures Unused(Links(), i) == Detached(old(Links()), i)
    {
      ghost var t := Links();
      assert EntryAt(t, i);
      var p := entries[i].parent;
      ghost var ks := t.kids[p];
      KidsInTable(t, p);
      assert ListAt(t, p);
      if entries[p].children == i {
        assert i in ks && Position(ks, i) == 0;
        entries[p] := entries[p].(children := entries[i].next);
        kids := kids[p := Dropped(ks, 0)];
      } else {
        var sibling, j := FindSibling(i, p);
        if sibling != NIL {
          PositionIs(ks, j + 1);
          entries[sibling] := entries[sibling].(next := entries[i].next);
          kids := kids[p := Dropped(ks, j + 1)];
        }
      }
    }

    /** The sibling before `i` on the list of `p`, NIL if `i` is not on it. */
    method FindSibling(i: nat, p: nat) returns (sibling: int, ghost j: nat)
      requires entries.Length == MAX_ENTRIES && Forest(Links()) && i < nextEntry && p < nextEntry
      requires entries[p].children != i
      ensures sibling == NIL <==> i !in kids[p]
      ensures sibling != NIL ==> j + 1 < |kids[p]| && kids[p][j] == sibling && kids[p][j + 1] == i
    {
      ghost var t, ks := Links(), kids[p];
      assert ListAt(t, p);
      sibling, j := entries[p].children, 0;
      while sibling != NIL
        invariant j <= |ks| && sibling == HeadOf(ks[j..])
        invariant forall l | 0 <= l <= j && l < |ks| :: ks[l] != i
        decreases |ks| - j
      {
        assert ChildAt(t, p, j);
        if entries[sibling].next == i { break; }
        sibling, j := entries[sibling].next, j + 1;
      }
    }

    lemma PositionIs(ks: seq<nat>, j: nat)
      requires j < |ks| && Distinct(ks)
      ensures Position(ks, ks[j]) == j
    {
      assert ks[Position(ks, ks[j])] == ks[j];
    }

    // -------------------------------------------------------------- directories

    method MkDir(name: cstring) returns (outcome: Outcome)
      requires Valid()
      requires |Stripped(Stripped(name))| < MAX_PATH
      modifies this, entries, strtok
      ensures Valid()
      ensures Result(State(), outcome) == O.MkDir(old(State()), name)
    {
      ghost var v, m := State(), heap.mem[..];
      MkDirSound(v, name);
      TargetDirIsDirectory(v.tree, name);
      hide Find, Sound, AllInMemory;
      var parent := if At(name, 0) == SLASH then root else currentDir;
      var n := Stripped(name);
      var existing := FindFile(n);
      if existing != NIL { return Failed; }
      var newDir := CreateFile(n, DIRECTORY);
      if newDir == NIL { return Failed; }
      Link(newDir, parent);
      outcome := Done;
      AddedInMemory(m, v, TargetDir(v.tree, name), n, DIRECTORY);
    }

    /** The directories that initialisation makes. */
    method MakeDefaults()
      requires Valid()
      modifies this, entries, strtok
      ensures Valid()
      ensures State() == After(old(State()), MkDirs(DEFAULTS))
    {
      ghost var v := State();
      hide O.MkDir, Sound, AllInMemory, After;
      AfterNone(v);
      ghost var none: seq<cstring> := [];
      assert none + [BIN] == [BIN] && [BIN] + [HOME] == [BIN, HOME] && [BIN, HOME] + [ETC] == [BIN, HOME, ETC];
      assert [BIN, HOME, ETC] + [TMP] == DEFAULTS;
      var _ := MkDir(BIN);
      AfterOneMore(v, none, BIN);
      var _ := MkDir(HOME);
      AfterOneMore(v, [BIN], HOME);
      var _ := MkDir(ETC);
      AfterOneMore(v, [BIN, HOME], ETC);
      var _ := MkDir(TMP);
      AfterOneMore(v, [BIN, HOME, ETC], TMP);
    }

    method Cd(path: cstring) returns (outcome: Outcome)
      requires Valid()
      requires |Stripped(path)| < MAX_PATH
      modifies this, strtok
      ensures Valid()
      ensures Result(State(), outcome) == O.Cd(old(State()), path)
    {
      ghost var v := State();
      CdSound(v, path);
      if path == [] {
        currentDir := root;
        outcome := Done;
      } else {
        var newDir := FindFile(path);
        if newDir == NIL { return Failed; }
        if entries[newDir].kind != DIRECTORY { return Failed; }
        currentDir := newDir;
        outcome := Done;
      }
      SameInMemory(heap.mem[..], v, State());
    }

    method RmDir(name: cstring) returns (outcome: Outcome)
      requires Valid()
      requires |Stripped(name)| < MAX_PATH
      modifies this, entries, strtok
      ensures Valid()
      ensures Result(State(), outcome) == O.RmDir(old(State()), name)
    {
      ghost var v := State();
      RmDirSound(v, name);
      var dir := FindFile(name);
      if dir == NIL { return Failed; }
      if entries[dir].kind != DIRECTORY { return Failed; }
      if dir == root { return Failed; }
      FoundHung(v.tree, name);
      assert ListAt(v.tree, dir);
      if entries[dir].children != NIL { return Failed; }
      Bypass(dir);
      entries[dir] := entries[dir].(used := false);
      outcome := Done;
      assert BufferAt(v, dir);
      DetachedForest(v.tree, dir);
      SameInMemory(heap.mem[..], v, State());
    }
  
    // -------------------------------------------------------------- files

    /** A block for the content of slot `c`, and what it happens to hold. */
    method TakeBuffer(c: int) returns (data: int, ghost junk: seq<byte>)
      requires heap.Valid()
      modifies heap, heap.mem
      ensures heap.Valid()
      ensures |junk| == MAX_FILE_SIZE
      ensures data == 0 <==> !H.Grants(old(heap.blocks), MAX_FILE_SIZE)
      ensures data == 0 ==> heap.blocks == old(heap.blocks)
      ensures data != 0 ==>
                && heap.blocks == H.Alloc(old(heap.blocks), MAX_FILE_SIZE).blocks
                && data == H.Alloc(old(heap.blocks), MAX_FILE_SIZE).ptr
                && 0 <= data <= heap.mem.Length - MAX_FILE_SIZE
                && heap.mem[data..data + MAX_FILE_SIZE] == junk
      ensures LiveKept(old(heap.mem[..]), heap.mem[..], old(heap.blocks))
    {
      H.AllocRefuses(heap.blocks, MAX_FILE_SIZE);
      H.UsableIff(MAX_FILE_SIZE);
      if H.Grants(heap.blocks, MAX_FILE_SIZE) { H.AllocGrants(heap.blocks, MAX_FILE_SIZE); }
      data := heap.Alloc(MAX_FILE_SIZE);
      junk := if data == 0 then seq(MAX_FILE_SIZE, _ => 0) else heap.mem[data..data + MAX_FILE_SIZE];
    }

    /** The second half of a touch: a buffer for the new slot, and a place on its parent's list. */
    method Furnish(newFile: nat, parent: nat, ghost v: Volume, ghost name: cstring) returns (outcome: Outcome, ghost junk: seq<byte>)
      requires entries.Length == MAX_ENTRIES && heap.Valid()
      requires Sound(v) && AllInMemory(heap.mem[..], v) && v.tree.taken < MAX_ENTRIES && Find(v.tree, Stripped(name)) == NIL
      requires State() == v.(tree := Created(v.tree, Stripped(name), FILE, 0))
      requires newFile == v.tree.taken && parent == TargetDir(v.tree, name)
      modifies this`kids, this`bufs, this`held, entries, heap, heap.mem
      ensures heap.Valid() && |junk| == MAX_FILE_SIZE
      ensures Result(State(), outcome) == O.Touch(v, name, junk)
      ensures AllInMemory(heap.mem[..], State())
      ensures LiveKept(old(heap.mem[..]), heap.mem[..], v.blocks)
    {
      hide H.Alloc, H.Grant, Find;
      ghost var m := heap.mem[..];
      TargetDirIsDirectory(v.tree, name);
      var data;
      data, junk := TakeBuffer(newFile);
      BuffersKept(m, heap.mem[..], v);
      entries[newFile] := entries[newFile].(data := data);
      if data == 0 {
        outcome := Failed;
      } else {
        assert Links() == Created(v.tree, Stripped(name), FILE, data);
        Link(newFile, parent);
        bufs := bufs[newFile := junk];
        held := held[newFile := H.Grant(v.blocks, MAX_FILE_SIZE)];
        outcome := Done;
      }
      TouchedInMemory(heap.mem[..], v, name, junk);
    }

    method Touch(name: cstring) returns (outcome: Outcome, ghost junk: seq<byte>)
      requires Valid()
      requires |Stripped(Stripped(name))| < MAX_PATH
      modifies this, entries, strtok, heap, heap.mem
      ensures Valid() && |junk| == MAX_FILE_SIZE
      ensures Result(State(), outcome) == O.Touch(old(State()), name, junk)
      ensures LiveKept(old(heap.mem[..]), heap.mem[..], old(heap.blocks))
    {
      ghost var v := State();
      junk := seq(MAX_FILE_SIZE, _ => 0);
      var parent := if At(name, 0) == SLASH then root else currentDir;
      var n := Stripped(name);
      var existing := FindFile(n);
      if existing != NIL { return Failed, junk; }
      var newFile := CreateFile(n, FILE);
      if newFile == NIL { return Failed, junk; }
      outcome, junk := Furnish(newFile, parent, v, name);
      TouchSound(v, name, junk);
    }

    /** The file's content pointer, 0 when there is none to read. */
    method ReadFile(name: cstring) returns (data: int)
      requires Valid()
      requires |Stripped(name)| < MAX_PATH
      modifies strtok
      ensures Valid() && State() == old(State())
      ensures var i := Find(Links(), name);
              && (data != 0 <==> i != NIL && entries[i].kind == FILE && entries[i].data != 0)
              && (data != 0 ==> 0 <= data <= heap.mem.Length - MAX_FILE_SIZE && heap.mem[data..data + MAX_FILE_SIZE] == bufs[i])
    {
      var file := FindFile(name);
      if file == NIL { return 0; }
      if entries[file].kind != FILE { return 0; }
      FoundBuffer(State(), name);
      assert InMemory(heap.mem[..], State(), file);
      data := entries[file].data;
    }

    /** The buffer of slot `i` gets the content and a NUL. */
    method StoreContent(i: nat, content: cstring)
      requires Valid() && i < MAX_ENTRIES && Holds(State(), i)
      modifies this`bufs, heap.mem
      ensures |old(bufs)[i]| == MAX_FILE_SIZE && bufs == old(bufs)[i := Overwritten(old(bufs)[i], content)]
      ensures heap.Valid()
      ensures AllInMemory(heap.mem[..], State())
      ensures BlocksKept(old(heap.mem[..]), heap.mem[..], H.UsedSet(heap.blocks) - {held[i]})
    {
      ghost var v, m, buf := State(), heap.mem[..], bufs[i];
      assert BufferAt(v, i) && InMemory(m, v, i);
      var a, cut := entries[i].data, Cut(content);
      heap.PokeBytes(a, cut, held[i]);
      ghost var m1 := heap.mem[..];
      heap.PokeBytes(a + |cut|, [0], held[i]);
      StoredBytes(m, m1, heap.mem[..], a, buf, content);
      bufs := bufs[i := Overwritten(buf, content)];
      OthersInMemory(m, heap.mem[..], v, i);
      forall k | 0 <= k < MAX_ENTRIES ensures InMemory(heap.mem[..], State(), k) {
        assert k != i ==> InMemory(heap.mem[..], v, k);
      }
    }

    /** Writes to the file in slot `file`. */
    method WriteTo(file: nat, content: cstring) returns (outcome: Outcome)
      requires Valid() && file < nextEntry
      requires entries[file].kind == FILE && entries[file].data != 0 ==> Holds(State(), file) && |bufs[file]| == MAX_FILE_SIZE
      modifies this`bufs, entries, heap.mem
      ensures Valid()
      ensures Result(State(), outcome) == WriteAt(old(State()), file, content)
      ensures BlocksKept(old(heap.mem[..]), heap.mem[..], Foreign(State()))
    {
      ghost var v := State();
      WriteSound(v, file, content);
      if entries[file].kind != FILE { return Failed; }
      if entries[file].data == 0 { return Fault; }
      StoreContent(file, content);
      ghost var w := State();
      entries[file] := entries[file].(size := |Cut(content)|);
      outcome := Done;
      assert held[file] in Owned(State()) by { assert Holds(State(), file); }
      SameInMemory(heap.mem[..], w, State());
    }
  
    /** Writes to a file, creating it first if there is none. */
    method WriteFile(name: cstring, content: cstring) returns (outcome: Outcome, ghost junk: seq<byte>)
      requires Valid()
      requires |Stripped(name)| < MAX_PATH && |Stripped(Stripped(name))| < MAX_PATH
      modifies this, entries, strtok, heap, heap.mem
      ensures Valid() && |junk| == MAX_FILE_SIZE
      ensures Result(State(), outcome) == O.WriteFile(old(State()), name, content, junk)
      ensures BlocksKept(old(heap.mem[..]), heap.mem[..], old(Foreign(State())))
    {
      hide O.Touch, Find, WriteAt;
      ghost var v := State();
      junk := seq(MAX_FILE_SIZE, _ => 0);
      var file := FindFile(name);
      if file == NIL {
        outcome, junk := Touch(name);
        TouchForeign(v, name, junk);
        if outcome != Done { return; }
        file := FindFile(name);
        if file == NIL { return Fault, junk; }
      }
      FoundBuffer(State(), name);
      WriteAtForeign(State(), file, content);
      outcome := WriteTo(file, content);
    }

    /** The entry in slot `i`, already off its list, is marked unused and its buffer given back. */
    method Drop(i: nat, ghost v: Volume)
      requires heap.Valid() && Sound(v) && heap.blocks == v.blocks && AllInMemory(heap.mem[..], v) && entries.Length == MAX_ENTRIES
      requires i < v.tree.taken && i != v.tree.root && v.tree.entries[i].parent >= 0 && (v.tree.entries[i].data != 0 ==> Holds(v, i))
      requires Unused(Links(), i) == Detached(v.tree, i) && bufs == v.bufs && held == v.held
      modifies entries, heap, heap.mem
      ensures heap.Valid() && heap.blocks == H.Free(v.blocks, v.tree.entries[i].data)
      ensures Links() == Detached(v.tree, i) && AllInMemory(heap.mem[..], State())
      ensures LiveKept(old(heap.mem[..]), heap.mem[..], v.blocks)
    {
      ghost var m := heap.mem[..];
      DetachedForest(v.tree, i);
      assert entries[i].data == Unused(Links(), i).entries[i].data;
      hide H.Free, Detached, LiveKept, AllInMemory, Forest, Parented;
      Discard(i, v);
      entries[i] := entries[i].(used := false);
      BuffersKept(m, heap.mem[..], v);
      SameInMemory(heap.mem[..], v, State());
    }

    method Rm(name: cstring) returns (outcome: Outcome)
      requires Valid()
      requires |Stripped(name)| < MAX_PATH
      modifies this, entries, strtok, heap, heap.mem
      ensures Valid()
      ensures Result(State(), outcome) == O.Rm(old(State()), name)
      ensures LiveKept(old(heap.mem[..]), heap.mem[..], old(heap.blocks))
    {
      ghost var v, m := State(), heap.mem[..];
      var file := FindFile(name);
      if file == NIL { return Failed; }
      if entries[file].kind != FILE { return Failed; }
      FoundFileListed(v.tree, name);
      assert BufferAt(v, file);
      RmSound(v, name);
      Bypass(file);
      hide H.Free, Find, Detached, LiveKept, AllInMemory, Forest, Parented;
      Drop(file, v);
      outcome := Done;
    }

    /** Gives the buffer of slot `i` back, if it has one. */
    method Discard(i: nat, ghost v: Volume)
      requires heap.Valid() && Sound(v) && heap.blocks == v.blocks && i < MAX_ENTRIES == entries.Length
      requires entries[i].data == v.tree.entries[i].data
      requires entries[i].data != 0 ==> Holds(v, i)
      modifies heap, heap.mem
      ensures heap.Valid()
      ensures heap.blocks == H.Free(v.blocks, v.tree.entries[i].data)
      ensures LiveKept(old(heap.mem[..]), heap.mem[..], v.blocks)
    {
      assert BufferAt(v, i);
      H.NullNotLive(v.blocks);
      if entries[i].data != 0 {
        H.LiveFound(v.blocks, v.held[i]);
        H.InRegion(v.blocks, H.LiveIndex(v.blocks, v.held[i].Ptr()));
        heap.Free(entries[i].data);
      }
    }

    /** The text at an address, up to its NUL or the end of memory. */
    method LoadText(a: nat) returns (s: cstring)
      requires a < heap.mem.Length
      ensures s == Text(heap.mem[..], a)
    {
      ghost var m := heap.mem[..];
      ghost var t := Text(m, a);
      TextBytes(m, a);
      assert forall k | 0 <= k < |t| :: m[a + k] == t[k] by { assert m[a..a + |t|] == t; }
      assert forall k | 0 <= k < |t| :: t[k] in t;
      var n := 0;
      while a + n < heap.mem.Length && heap.mem[a + n] != 0
        invariant n <= |t|
        decreases |t| - n
      {
        n := n + 1;
      }
      assert m[a..a + n] == t;
      s := heap.mem[a..a + n];
    }

    /** Writes the text of one file to another. */
    method Cp(src: cstring, dest: cstring) returns (outcome: Outcome, ghost junk: seq<byte>)
      requires Valid()
      requires |Stripped(src)| < MAX_PATH && |Stripped(dest)| < MAX_PATH && |Stripped(Stripped(dest))| < MAX_PATH
      modifies this, entries, strtok, heap, heap.mem
      ensures Valid() && |junk| == MAX_FILE_SIZE
      ensures Result(State(), outcome) == O.Cp(old(State()), src, dest, junk)
      ensures BlocksKept(old(heap.mem[..]), heap.mem[..], old(Foreign(State())))
    {
      junk := seq(MAX_FILE_SIZE, _ => 0);
      var srcFile := FindFile(src);
      if srcFile == NIL { return Failed, junk; }
      if entries[srcFile].kind != FILE { return Failed, junk; }
      var srcData := entries[srcFile].data;
      if srcData == 0 { return Failed, junk; }
      var destFile := FindFile(dest);
      if destFile != NIL && entries[destFile].kind == DIRECTORY { return Failed, junk; }
      FoundBuffer(State(), src);
      assert InMemory(heap.mem[..], State(), srcFile);
      var content := LoadText(srcData);
      ghost var v := State();
      outcome, junk := WriteFile(dest, content);
      SameCut(old(heap.mem[..]), srcData, v.bufs[srcFile]);
      CutWritten(v, dest, content, Text(v.bufs[srcFile], 0), junk);
    }
  }
}
