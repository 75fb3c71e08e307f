/** What a client sees after its files have been saved and loaded again. */
module FileReload {
  import opened Bytes
  import opened CStrings
  import opened FileTree
  import opened FileTreeEdits
  import opened FileOps
  import opened FileRefinement
  import opened FileMachine
  import opened FileRuns
  import H = HeapSpec
  import opened FileStoreSpec
  import opened FileStoreRoundTrip

  // ---------------------------------------------------------------- no entry goes astray

  /** A slot in use hangs in the tree, unless a touch without memory lost it. */
  ghost predicate TidyAt(t: Tree, i: int)
    requires Forest(t) && 0 <= i < t.taken
  {
    t.entries[i].used ==> Attached(t, i) || (t.entries[i].kind == FILE && t.entries[i].data == 0)
  }

  ghost predicate Tidy(t: Tree)
    requires Forest(t)
  {
    forall i | 0 <= i < t.taken :: TidyAt(t, i)
  }

  lemma AddedTidy(t: Tree, p: nat, name: cstring, kind: int, data: int)
    requires Forest(t) && Tidy(t) && p < t.taken < MAX_ENTRIES && Attached(t, p) && Forest(Added(t, p, name, kind, data))
    ensures Tidy(Added(t, p, name, kind, data))
  {
    var u, c := Added(t, p, name, kind, data), t.taken;
    FreshHasNoKids(t, c);
    forall i | 0 <= i < u.taken ensures TidyAt(u, i) {
      if i < c {
        assert TidyAt(t, i);
        if Attached(t, i) { AttachedSame(t, u, i); }
      } else {
        AttachedSame(t, u, p);
        assert u.kids[p][0] == c && EntryAt(u, c);
      }
    }
  }

  /** Trees with the same lists. */
  lemma SameListsTidy(t: Tree, u: Tree)
    requires Forest(t) && Forest(u) && Tidy(t) && t.kids == u.kids && t.taken <= u.taken && t.root == u.root
    requires forall i | 0 <= i < t.taken ::
               u.entries[i].used == t.entries[i].used && u.entries[i].kind == t.entries[i].kind && u.entries[i].data == t.entries[i].data
    requires forall i | t.taken <= i < u.taken :: u.entries[i].kind == FILE && u.entries[i].data == 0
    ensures Tidy(u)
  {
    forall i | 0 <= i < u.taken ensures TidyAt(u, i) {
      if i < t.taken {
        assert TidyAt(t, i);
        if Attached(t, i) { AttachedSame(t, u, i); }
      }
    }
  }

  lemma DetachedTidy(v: Volume, i: int)
    requires Sound(v) && Tidy(v.tree) && Attached(v.tree, i) && i != v.tree.root && v.tree.kids[i] == []
    ensures v.tree.entries[i].parent >= 0 && Forest(Detached(v.tree, i)) && Tidy(Detached(v.tree, i))
  {
    var t := v.tree;
    assert EntryAt(t, i);
    var u, p := Detached(t, i), t.entries[i].parent;
    var j := Position(t.kids[p], i);
    UnlinkedForest(t, p, j);
    DetachedForest(t, i);
    forall k | 0 <= k < u.taken ensures TidyAt(u, k) {
      assert TidyAt(t, k);
      if k != i && Attached(t, k) { UnlinkedAttached(t, p, j, k); }
    }
  }

  lemma TouchTidy(v: Volume, name: cstring, junk: seq<byte>)
    requires Orderly(v) && Tidy(v.tree) && |junk| == MAX_FILE_SIZE
    ensures Sound(Touch(v, name, junk).volume) && Tidy(Touch(v, name, junk).volume.tree)
  {
    hide H.Alloc, H.Grant, H.Grants, Find, UniqueNames;
    var r := Touch(v, name, junk);
    TouchSound(v, name, junk);
    TargetDirIsDirectory(v.tree, name);
    if r.outcome == Done {
      TargetAttached(v, name);
      AddedTidy(v.tree, TargetDir(v.tree, name), Stripped(name), FILE, r.volume.tree.entries[v.tree.taken].data);
    } else if r.volume != v {
      SameListsTidy(v.tree, r.volume.tree);
    }
  }

  lemma WriteFileTidy(v: Volume, name: cstring, content: cstring, junk: seq<byte>)
    requires Orderly(v) && Tidy(v.tree) && |junk| == MAX_FILE_SIZE
    ensures Sound(WriteFile(v, name, content, junk).volume) && Tidy(WriteFile(v, name, content, junk).volume.tree)
  {
    WriteFileSound(v, name, content, junk);
    hide Find, Touch, Orderly, Sound;
    if Find(v.tree, name) != NIL {
      FoundBuffer(v, name);
      SameListsTidy(v.tree, WriteFile(v, name, content, junk).volume.tree);
    } else {
      var r := Touch(v, name, junk);
      TouchTidy(v, name, junk);
      if r.outcome == Done && Find(r.volume.tree, name) != NIL {
        FoundBuffer(r.volume, name);
        SameListsTidy(r.volume.tree, WriteFile(v, name, content, junk).volume.tree);
      }
    }
  }

  lemma PerformTidy(v: Volume, op: Command)
    requires Orderly(v) && Tidy(v.tree) && WellFormed(op)
    ensures Sound(Perform(v, op).volume) && Tidy(Perform(v, op).volume.tree)
  {
    PerformSound(v, op);
    hide Find, Touch, WriteFile, UniqueNames;
    match op
    case MkDirOp(name) =>
      if MkDir(v, name).outcome == Done {
        TargetDirIsDirectory(v.tree, name);
        TargetAttached(v, name);
        AddedTidy(v.tree, TargetDir(v.tree, name), Stripped(name), DIRECTORY, 0);
      }
    case TouchOp(name, junk) => TouchTidy(v, name, junk);
    case WriteOp(name, content, junk) => WriteFileTidy(v, name, content, junk);
    case RmOp(name) => RmTidy(v, name);
    case RmDirOp(name) => RmDirTidy(v, name);
    case CpOp(src, dest, junk) =>
      if Cp(v, src, dest, junk).volume != v { WriteFileTidy(v, dest, Text(v.bufs[Find(v.tree, src)], 0), junk); }
    case CdOp(path) => SameListsTidy(v.tree, Cd(v, path).volume.tree);
  }

  lemma RmTidy(v: Volume, name: cstring)
    requires Orderly(v) && Tidy(v.tree) && Sound(Rm(v, name).volume)
    ensures Tidy(Rm(v, name).volume.tree)
  {
    var i := Find(v.tree, name);
    if Rm(v, name).outcome == Done {
      FindAttached(v.tree, name);
      assert ListAt(v.tree, i);
      DetachedTidy(v, i);
    }
  }

  lemma RmDirTidy(v: Volume, name: cstring)
    requires Orderly(v) && Tidy(v.tree) && Sound(RmDir(v, name).volume)
    ensures Tidy(RmDir(v, name).volume.tree)
  {
    if RmDir(v, name).outcome == Done {
      FindAttached(v.tree, name);
      DetachedTidy(v, Find(v.tree, name));
    }
  }

  /** In a guarded session no entry goes astray. */
  lemma {:induction false} RunTidy(v: Volume, ops: seq<Command>)
    requires Orderly(v) && Tidy(v.tree) && (forall op | op in ops :: WellFormed(op))
    requires Formed(MachineOf(v)) && GuardedRun(MachineOf(v), ops)
    ensures Tidy(After(v, ops).tree)
    decreases |ops|
  {
    if ops != [] {
      var n := |ops| - 1;
      RunTidy(v, ops[..n]);
      RunRefinesIff(v, ops[..n]);
      hide Perform, Guarded, Tidy;
      PerformTidy(After(v, ops[..n]), ops[n]);
    }
  }

  lemma FreshTidy(blocks: seq<H.Block>)
    requires H.Canonical(blocks)
    ensures Sound(Fresh(blocks)) && Tidy(Fresh(blocks).tree)
  {
    FreshSound(blocks);
  }

  // ---------------------------------------------------------------- the map of a loaded volume

  /** What is in the tree of a loaded volume: the root and what survives, one step below it. */
  lemma LoadedPath(v: Volume, before: set<H.Block>, w: Volume, i: nat)
    requires CameBack(v, before, w) && i < w.tree.taken
    ensures Attached(w.tree, i) <==> i == 0 || Survives(v, i)
    ensures Survives(v, i) ==> PathOf(w.tree, i) == [v.tree.entries[i].name]
    ensures PathOf(w.tree, 0) == []
  {
    ListedIffSurvives(v, before, w, i);
    assert EntryAt(w.tree, i) && EntryAt(w.tree, 0);
    if Survives(v, i) {
      KidsInTable(w.tree, 0);
      assert [] + [v.tree.entries[i].name] == [v.tree.entries[i].name];
    }
  }

  /** The object a surviving slot comes back as: what it was, its buffer zeroed behind the content. */
  lemma LoadedObject(v: Volume, before: set<H.Block>, w: Volume, i: nat)
    requires CameBack(v, before, w) && i < w.tree.taken && Survives(v, i)
    ensures var e := v.tree.entries[i];
            && (e.kind == DIRECTORY ==> ObjectAt(w, i) == Directory)
            && (e.kind != DIRECTORY ==> ObjectAt(w, i) == File(e.size, w.bufs[i], w.held[i]))
            && (e.kind == FILE && e.size > 0 ==>
                  e.size < |v.bufs[i]| == MAX_FILE_SIZE && w.bufs[i] == Blanked(v.bufs[i], e.size))
  {
    ListedIffSurvives(v, before, w, i);
    assert BackAt(v, w, i);
  }

  /** The map of a loaded volume whose names differ: the root, and each surviving slot under its name. */
  lemma LoadedMap(v: Volume, before: set<H.Block>, w: Volume, p: Path)
    requires CameBack(v, before, w) && UniqueNames(w.tree)
    ensures p in Files(w) <==> p == [] || exists i: nat | i < w.tree.taken :: Survives(v, i) && p == [v.tree.entries[i].name]
    ensures forall i: nat | i < w.tree.taken && Survives(v, i) && p == [v.tree.entries[i].name] ::
              Descend(w.tree, w.tree.root, p) == i && Files(w)[p] == ObjectAt(w, i)
  {
    var t := w.tree;
    forall i: nat | i < t.taken && Survives(v, i) && p == [v.tree.entries[i].name]
      ensures Descend(t, t.root, p) == i && Files(w)[p] == ObjectAt(w, i)
    {
      LoadedPath(v, before, w, i);
      DescendComplete(t, i);
    }
    if p in Files(w) {
      var i := Descend(t, t.root, p);
      DescendSound(t, t.root, p);
      LoadedPath(v, before, w, i);
      assert PathOf(t, t.root) + p == p;
    }
  }

  // ---------------------------------------------------------------- the same to the client

  /** The same to a client that reads sizes and texts. */
  predicate Alike(a: Object, b: Object) {
    match a
    case Directory => b == Directory
    case File(size, buffer, _) => b.File? && b.size == size && Text(b.buffer, 0) == Text(buffer, 0)
  }

  ghost predicate SameSeen(f: imap<Path, Object>, g: imap<Path, Object>) {
    forall p: Path :: SeenAt(f, g, p)
  }

  ghost predicate SeenAt(f: imap<Path, Object>, g: imap<Path, Object>, p: Path) {
    (p in f <==> p in g) && (p in f ==> Alike(f[p], g[p]))
  }

  /** The text of a buffer survives when it ends within the size. */
  lemma BlankedText(buf: seq<byte>, size: nat)
    requires size < |buf| == MAX_FILE_SIZE
    ensures Text(Blanked(buf, size), 0) == Text(buf, 0) <==> |Text(buf, 0)| <= size
  {
    var t, r := Text(buf, 0), Blanked(buf, size);
    TextBytes(buf, 0);
    assert r[size] == 0;
    if |t| <= size {
      assert r[0..|t|] == buf[0..|t|] == t && r[|t|] == 0;
      TextIs(r, 0, t);
    } else {
      var s: cstring := t[..size];
      assert r[0..size] == buf[0..|t|][..size] == s;
      TextIs(r, 0, s);
    }
  }

  /** The slot comes back as the client knew it, or is lost already and stays away. */
  ghost predicate ComesBack(v: Volume, i: nat)
    requires Sound(v) && i < v.tree.taken
  {
    var e := v.tree.entries[i];
    if i >= IN_SECTOR then !Attached(v.tree, i)
    else
      && Attached(v.tree, i) && e.parent == v.tree.root
      && (e.kind == FILE ==> e.size > 0 && |Text(v.bufs[i], 0)| <= e.size)
  }

  ghost predicate AllComeBack(v: Volume)
    requires Sound(v)
  {
    forall i: nat | 0 < i < v.tree.taken && v.tree.entries[i].used :: ComesBack(v, i)
  }

  lemma BackOrderly(v: Volume, before: set<H.Block>, w: Volume)
    requires Orderly(v) && Savable(v) && CameBack(v, before, w) && AllComeBack(v)
    ensures Orderly(w)
  {
    forall i, j | 0 <= i < j < MAX_ENTRIES ensures NamedApart(v, i, j) {
      if Survives(v, i) && Survives(v, j) {
        assert ComesBack(v, i) && ComesBack(v, j);
        ChildFound(v.tree, 0, i);
        ChildFound(v.tree, 0, j);
      }
    }
    forall i | 0 <= i < MAX_ENTRIES ensures NotEmptied(v, i) { if Survives(v, i) { assert ComesBack(v, i); } }
    LoadedOrderlyIff(v, before, w);
  }

  /** One step below the root. */
  lemma BelowRoot(v: Volume, i: nat)
    requires Sound(v) && i < v.tree.taken && Attached(v.tree, i) && i != v.tree.root
    ensures |PathOf(v.tree, i)| == 1 <==> v.tree.entries[i].parent == v.tree.root
    ensures v.tree.entries[i].parent == v.tree.root ==> PathOf(v.tree, i) == [v.tree.entries[i].name]
    ensures v.tree.entries[i].used
  {
    var t := v.tree;
    assert EntryAt(t, i) && EntryAt(t, t.root);
    var p := t.entries[i].parent;
    KidsInTable(t, p);
    RootPath(t, p);
  }

  lemma BackSeenAt(v: Volume, before: set<H.Block>, w: Volume, p: Path)
    requires Orderly(v) && Savable(v) && CameBack(v, before, w) && AllComeBack(v) && Orderly(w)
    ensures SeenAt(Files(v), Files(w), p)
  {
    LoadedMap(v, before, w, p);
    if p in Files(v) {
      var i := Descend(v.tree, v.tree.root, p);
      DescendSound(v.tree, v.tree.root, p);
      assert PathOf(v.tree, v.tree.root) + p == p;
      if i != v.tree.root {
        BelowRoot(v, i);
        assert ComesBack(v, i);
        assert Survives(v, i) && p == [v.tree.entries[i].name];
        SlotAlike(v, before, w, i);
      }
    } else if p in Files(w) {
      var i: nat :| i < w.tree.taken && Survives(v, i) && p == [v.tree.entries[i].name];
      assert ComesBack(v, i);
      BelowRoot(v, i);
      DescendComplete(v.tree, i);
    }
  }

  /** A surviving slot of non-zero size is alike exactly when its text ends within its size. */
  lemma SlotAlike(v: Volume, before: set<H.Block>, w: Volume, i: nat)
    requires Orderly(v) && CameBack(v, before, w) && i < w.tree.taken && Survives(v, i)
    requires v.tree.entries[i].kind == FILE ==> v.tree.entries[i].size > 0
    ensures Alike(ObjectAt(v, i), ObjectAt(w, i)) <==> (v.tree.entries[i].kind == FILE ==> |Text(v.bufs[i], 0)| <= v.tree.entries[i].size)
  {
    LoadedObject(v, before, w, i);
    assert EntryAt(v.tree, i);
    if v.tree.entries[i].kind == FILE { BlankedText(v.bufs[i], v.tree.entries[i].size); }
  }

  lemma SeenBack(v: Volume, before: set<H.Block>, w: Volume, i: nat)
    requires Orderly(v) && Savable(v) && Tidy(v.tree) && CameBack(v, before, w)
    requires Orderly(w) && SameSeen(Files(v), Files(w)) && 0 < i < v.tree.taken && v.tree.entries[i].used
    ensures ComesBack(v, i)
  {
    LoadedOrderlyIff(v, before, w);
    assert TidyAt(v.tree, i) && SizeAt(v, i) && NotEmptied(v, i);
    if Attached(v.tree, i) {
      var p := PathOf(v.tree, i);
      DescendComplete(v.tree, i);
      assert SeenAt(Files(v), Files(w), p);
      LoadedMap(v, before, w, p);
      BelowRoot(v, i);
      RootPath(v.tree, i);
      var s: nat :| s < w.tree.taken && Survives(v, s) && p == [v.tree.entries[s].name];
      SurvivorAttached(v, before, w, s);
      BelowRoot(v, s);
      DescendComplete(v.tree, s);
      assert s == i;
      SlotAlike(v, before, w, i);
    }
  }

  /** What survives was in the tree, and directly below the root. */
  lemma SurvivorAttached(v: Volume, before: set<H.Block>, w: Volume, s: nat)
    requires Orderly(v) && Savable(v) && Tidy(v.tree) && CameBack(v, before, w)
    requires Orderly(w) && SameSeen(Files(v), Files(w)) && s < w.tree.taken && Survives(v, s)
    ensures Attached(v.tree, s) && v.tree.entries[s].parent == v.tree.root
  {
    LoadedOrderlyIff(v, before, w);
    assert TidyAt(v.tree, s) && SizeAt(v, s) && NotEmptied(v, s);
    var p := PathOf(v.tree, s);
    DescendComplete(v.tree, s);
    assert SeenAt(Files(v), Files(w), p);
    LoadedMap(v, before, w, p);
    BelowRoot(v, s);
    RootPath(v.tree, s);
  }

  /**
   After saving and loading, a session can go on and its client sees the same paths, sizes and texts, exactly when
   every entry still in the tree has one of the first eight slots and hangs on the root, every such file is not
   empty and its text ends within its size, and no slot among them was lost.
   */
  lemma SameAfterReloadIff(v: Volume, before: set<H.Block>, w: Volume)
    requires Orderly(v) && Savable(v) && Tidy(v.tree) && CameBack(v, before, w)
    ensures Orderly(w) && SameSeen(Files(v), Files(w)) <==> AllComeBack(v)
  {
    if AllComeBack(v) {
      BackOrderly(v, before, w);
      forall p: Path ensures SeenAt(Files(v), Files(w), p) { BackSeenAt(v, before, w, p); }
    }
    if Orderly(w) && SameSeen(Files(v), Files(w)) {
      forall i: nat | 0 < i < v.tree.taken && v.tree.entries[i].used ensures ComesBack(v, i) { SeenBack(v, before, w, i); }
    }
  }

  /** Every guarded session that began with an empty filesystem ends in a volume of which this holds. */
  lemma SessionReloadIff(blocks: seq<H.Block>, ops: seq<Command>, before: set<H.Block>, w: Volume)
    requires H.Canonical(blocks) && forall op | op in ops :: WellFormed(op)
    requires Sound(Fresh(blocks)) && Formed(MachineOf(Fresh(blocks))) && GuardedRun(MachineOf(Fresh(blocks)), ops)
    requires CameBack(After(Fresh(blocks), ops), before, w)
    ensures Orderly(After(Fresh(blocks), ops))
    ensures Orderly(w) && SameSeen(Files(After(Fresh(blocks), ops)), Files(w)) <==> AllComeBack(After(Fresh(blocks), ops))
  {
    var v := Fresh(blocks);
    FreshOrderly(blocks);
    FreshTidy(blocks);
    FreshSavable(blocks);
    hide Orderly, Savable, CameBack, After, Fresh, Tidy, SameSeen, AllComeBack, GuardedRun;
    RunRefinesIff(v, ops);
    RunTidy(v, ops);
    RunSavable(v, ops);
    assert Refines(v, ops);
    SameAfterReloadIff(After(v, ops), before, w);
  }

  /** Whatever lies deeper than one step does not come back where it was. */
  lemma DeepIsMoved(v: Volume, p: Path)
    requires Orderly(v) && p in Files(v) && |p| > 1
    ensures !AllComeBack(v)
  {
    var i := Descend(v.tree, v.tree.root, p);
    DescendSound(v.tree, v.tree.root, p);
    assert PathOf(v.tree, v.tree.root) + p == p;
    RootPath(v.tree, i);
    BelowRoot(v, i);
    assert !ComesBack(v, i);
  }

  /** The invariants after changing directory, and after making one. */
  lemma CdKeeps(v: Volume, path: cstring)
    requires Orderly(v) && Savable(v) && Tidy(v.tree)
    ensures Sound(Cd(v, path).volume) && Savable(Cd(v, path).volume) && Tidy(Cd(v, path).volume.tree)
  {
    var op := CdOp(path);
    assert Perform(v, op) == Cd(v, path);
    hide Cd, Perform, Orderly, Savable, Tidy;
    PerformTidy(v, op);
    PerformSavable(v, op);
  }

  lemma MkDirKeeps(v: Volume, name: cstring)
    requires Orderly(v) && Savable(v) && Tidy(v.tree)
    ensures Sound(MkDir(v, name).volume) && Savable(MkDir(v, name).volume) && Tidy(MkDir(v, name).volume.tree)
  {
    var op := MkDirOp(name);
    assert Perform(v, op) == MkDir(v, name);
    hide MkDir, Perform, Orderly, Savable, Tidy;
    PerformTidy(v, op);
    PerformSavable(v, op);
  }

  /** From the start of the system: with a directory made in /home, the client does not see the same after a reload. */
  lemma HomeIsFlattened(v: Volume, before: set<H.Block>, w: Volume)
    requires Orderly(v) && ViewOf(v) == StartView() && v.tree.taken == 5 && Savable(v) && Tidy(v.tree)
    requires Orderly(Cd(v, HOME).volume) && Orderly(MkDir(Cd(v, HOME).volume, NEW).volume)
    requires CameBack(MkDir(Cd(v, HOME).volume, NEW).volume, before, w)
    ensures !(Orderly(w) && SameSeen(Files(MkDir(Cd(v, HOME).volume, NEW).volume), Files(w)))
  {
    assert Sound(v) && Sound(Cd(v, HOME).volume);
    hide Cd, MkDir, Orderly, Savable, Tidy, StartView, CameBack, SameSeen, AllComeBack;
    InHome(v);
    CdKeeps(v, HOME);
    var c := Cd(v, HOME).volume;
    NewInHome(c);
    MkDirKeeps(c, NEW);
    var u, p: Path := MkDir(c, NEW).volume, [HOME] + [NEW];
    assert |p| == 2;
    DeepIsMoved(u, p);
    SameAfterReloadIff(u, before, w);
  }
}
