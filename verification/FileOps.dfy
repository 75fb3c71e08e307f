/**
 The filesystem operations on values: the tree, the content buffers and the heap blocks that
 hold them, what a sequence of operations does to the map from paths to files, and what it
 keeps.
 */
module FileOps {
  import opened Bytes
  import opened CStrings
  import opened FileTree
  import opened FileTreeEdits
  import H = HeapSpec
  import opened HeapSpec

  const MAX_FILE_SIZE := 4096

  /** `bufs` and `held` give each slot's content buffer and the heap block it lies in. */
  datatype Volume = Volume(tree: Tree, bufs: seq<seq<byte>>, blocks: seq<Block>, held: seq<Block>)

  /** Fault stands for following a null pointer. */
  datatype Outcome = Done | Failed | Fault

  datatype Result = Result(volume: Volume, outcome: Outcome)

  // ---------------------------------------------------------------- invariant

  predicate Holds(v: Volume, i: int)
    requires |v.tree.entries| == MAX_ENTRIES && 0 <= i < MAX_ENTRIES
  {
    i < v.tree.taken && v.tree.entries[i].used && v.tree.entries[i].data != 0
  }

  ghost predicate BufferAt(v: Volume, i: int)
    requires |v.tree.entries| == |v.bufs| == |v.held| == MAX_ENTRIES && 0 <= i < MAX_ENTRIES
  {
    Holds(v, i) ==>
      && v.tree.entries[i].kind == FILE
      && v.held[i] in UsedSet(v.blocks)
      && v.tree.entries[i].data == v.held[i].Ptr()
      && v.held[i].size >= MAX_FILE_SIZE
      && |v.bufs[i]| == MAX_FILE_SIZE
      && 0 <= v.tree.entries[i].size < MAX_FILE_SIZE
  }

  ghost predicate BuffersApart(v: Volume, i: int, j: int)
    requires |v.tree.entries| == |v.held| == MAX_ENTRIES && 0 <= i < MAX_ENTRIES && 0 <= j < MAX_ENTRIES
  {
    Holds(v, i) && Holds(v, j) ==> v.held[i] != v.held[j]
  }

  /** The root, or an entry that names a parent. */
  ghost predicate Hung(t: Tree, i: int)
    requires |t.entries| == MAX_ENTRIES && 0 <= i < MAX_ENTRIES
  {
    i == t.root || t.entries[i].parent >= 0
  }

  /** Parents are directories that hang on something, and so do live directories and the working directory. */
  ghost predicate ParentAt(t: Tree, i: int)
    requires Forest(t) && 0 <= i < t.taken
  {
    assert EntryAt(t, i);
    && (t.entries[i].kind == DIRECTORY && (t.entries[i].used || i == t.cwd) ==> Hung(t, i))
    && (t.entries[i].parent >= 0 ==> t.entries[t.entries[i].parent].kind == DIRECTORY && Hung(t, t.entries[i].parent))
  }

  ghost predicate Parented(t: Tree)
    requires Forest(t)
  {
    forall i | 0 <= i < t.taken :: ParentAt(t, i)
  }

  /** The tree is well formed and every file that has a buffer has one of its own. */
  ghost predicate Sound(v: Volume) {
    && Forest(v.tree)
    && Parented(v.tree)
    && Canonical(v.blocks)
    && |v.bufs| == |v.held| == MAX_ENTRIES
    && (forall i | 0 <= i < MAX_ENTRIES :: BufferAt(v, i))
    && (forall i, j | 0 <= i < j < MAX_ENTRIES :: BuffersApart(v, i, j))
  }

  ghost function Owned(v: Volume): set<Block>
    requires |v.tree.entries| == |v.held| == MAX_ENTRIES
  {
    set i | 0 <= i < MAX_ENTRIES && Holds(v, i) :: v.held[i]
  }

  /** The live blocks that belong to other clients of the heap. */
  ghost function Foreign(v: Volume): set<Block>
    requires |v.tree.entries| == |v.held| == MAX_ENTRIES
  {
    UsedSet(v.blocks) - Owned(v)
  }

  // ---------------------------------------------------------------- the empty filesystem

  const BLANK := Entry([], 0, 0, 0, NIL, NIL, NIL, false)
  const ROOT := Entry([SLASH], DIRECTORY, 0, 0, NIL, NIL, NIL, true)
  const NO_BLOCK := Block(0, 0, false)

  /** A table with nothing but the root directory in it. */
  function Fresh(blocks: seq<Block>): Volume {
    Volume(Tree(seq(MAX_ENTRIES, i => if i == 0 then ROOT else BLANK), 0, 0, 1, seq(MAX_ENTRIES, _ => [])),
           seq(MAX_ENTRIES, _ => []), blocks, seq(MAX_ENTRIES, _ => NO_BLOCK))
  }

  lemma FreshSound(blocks: seq<Block>)
    requires Canonical(blocks)
    ensures Sound(Fresh(blocks)) && Owned(Fresh(blocks)) == {}
  {
  }

  // ---------------------------------------------------------------- operations

  function Stripped(name: cstring): cstring {
    if name != [] && name[0] == SLASH then
      assert forall i | 0 <= i < |name[1..]| :: name[1..][i] == name[i + 1];
      name[1..]
    else name
  }

  function TargetDir(t: Tree, name: cstring): int {
    if name != [] && name[0] == SLASH then t.root else t.cwd
  }

  ghost function MkDir(v: Volume, name: cstring): Result
    requires Forest(v.tree)
  {
    var t, n := v.tree, Stripped(name);
    if Find(t, n) != NIL || t.taken >= MAX_ENTRIES then Result(v, Failed)
    else Result(v.(tree := Added(t, TargetDir(t, name), n, DIRECTORY, 0)), Done)
  }

  /** `junk` is what the fresh buffer happens to hold. */
  ghost function Touch(v: Volume, name: cstring, junk: seq<byte>): Result
    requires Forest(v.tree) && |v.bufs| == |v.held| == MAX_ENTRIES
  {
    var t, n := v.tree, Stripped(name);
    if Find(t, n) != NIL || t.taken >= MAX_ENTRIES then Result(v, Failed)
    else if !Grants(v.blocks, MAX_FILE_SIZE) then Result(v.(tree := Created(t, n, FILE, 0)), Failed)
    else
      var a := H.Alloc(v.blocks, MAX_FILE_SIZE);
      Result(
        Volume(Added(t, TargetDir(t, name), n, FILE, a.ptr), v.bufs[t.taken := junk],
               a.blocks, v.held[t.taken := Grant(v.blocks, MAX_FILE_SIZE)]),
        Done)
  }

  function Cut(content: cstring): (r: cstring)
    ensures |r| < MAX_FILE_SIZE
  {
    if |content| < MAX_FILE_SIZE then content
    else
      assert 0 !in content[..MAX_FILE_SIZE - 1];
      content[..MAX_FILE_SIZE - 1]
  }

  /** The buffer after the content and its NUL have been copied to its front. */
  function Overwritten(buf: seq<byte>, content: cstring): seq<byte>
    requires |buf| == MAX_FILE_SIZE
  {
    Cut(content) + [0] + buf[|Cut(content)| + 1..]
  }

  function WriteAt(v: Volume, i: int, content: cstring): Result
    requires |v.tree.entries| == |v.bufs| == MAX_ENTRIES && 0 <= i < MAX_ENTRIES
    requires v.tree.entries[i].kind == FILE && v.tree.entries[i].data != 0 ==> |v.bufs[i]| == MAX_FILE_SIZE
  {
    var e := v.tree.entries[i];
    if e.kind != FILE then Result(v, Failed)
    else if e.data == 0 then Result(v, Fault)
    else
      Result(v.(tree := v.tree.(entries := v.tree.entries[i := e.(size := |Cut(content)|)]),
                bufs := v.bufs[i := Overwritten(v.bufs[i], content)]),
             Done)
  }

  ghost function Cd(v: Volume, path: cstring): Result
    requires Forest(v.tree)
  {
    if path == [] then Result(v.(tree := v.tree.(cwd := v.tree.root)), Done)
    else
      var i := Find(v.tree, path);
      if i == NIL || v.tree.entries[i].kind != DIRECTORY then Result(v, Failed)
      else Result(v.(tree := v.tree.(cwd := i)), Done)
  }

  /** The entry is taken off its parent's list, if it is on it, and marked unused. */
  ghost function Detached(t: Tree, i: int): Tree
    requires Forest(t) && 0 <= i < t.taken && t.entries[i].parent >= 0
  {
    assert EntryAt(t, i);
    var p := t.entries[i].parent;
    if i in t.kids[p] then
      UnlinkedDefined(t, p, Position(t.kids[p], i));
      Unlinked(t, p, Position(t.kids[p], i))
    else Unused(t, i)
  }

  ghost function Rm(v: Volume, name: cstring): Result
    requires Sound(v)
  {
    var i := Find(v.tree, name);
    if i == NIL || v.tree.entries[i].kind != FILE then Result(v, Failed)
    else
      FoundFileListed(v.tree, name);
      Result(v.(tree := Detached(v.tree, i), blocks := H.Free(v.blocks, v.tree.entries[i].data)), Done)
  }

  ghost function RmDir(v: Volume, name: cstring): Result
    requires Sound(v)
  {
    var i := Find(v.tree, name);
    if i == NIL || v.tree.entries[i].kind != DIRECTORY || i == v.tree.root || v.tree.kids[i] != [] then Result(v, Failed)
    else
      FoundHung(v.tree, name);
      Result(v.(tree := Detached(v.tree, i)), Done)
  }

  /** Writes to a file, creating it first if there is none. */
  ghost function WriteFile(v: Volume, name: cstring, content: cstring, junk: seq<byte>): Result
    requires Sound(v) && |junk| == MAX_FILE_SIZE
  {
    var i := Find(v.tree, name);
    if i != NIL then
      FoundBuffer(v, name);
      WriteAt(v, i, content)
    else
      var r := Touch(v, name, junk);
      TouchSound(v, name, junk);
      if r.outcome != Done then r
      else
        var j := Find(r.volume.tree, name);
        if j == NIL then Result(r.volume, Fault)
        else
          FoundBuffer(r.volume, name);
          WriteAt(r.volume, j, content)
  }

  /** Writes the text of one file to another. */
  ghost function Cp(v: Volume, src: cstring, dest: cstring, junk: seq<byte>): Result
    requires Sound(v) && |junk| == MAX_FILE_SIZE
  {
    var s, d := Find(v.tree, src), Find(v.tree, dest);
    if s == NIL || v.tree.entries[s].kind != FILE || v.tree.entries[s].data == 0 then Result(v, Failed)
    else if d != NIL && v.tree.entries[d].kind == DIRECTORY then Result(v, Failed)
    else WriteFile(v, dest, Text(v.bufs[s], 0), junk)
  }

  // ---------------------------------------------------------------- what lookups find

  lemma {:induction false} DescendListed(t: Tree, d: int, names: seq<seq<byte>>)
    requires Forest(t) && 0 <= d < t.taken && Descend(t, d, names) != NIL && names != []
    ensures Listed(t, Descend(t, d, names)) && t.entries[Descend(t, d, names)].used
    decreases |names|
  {
    var c := Child(t, d, names[0]);
    KidsInTable(t, d);
    if |names| > 1 { DescendListed(t, c, names[1..]); } else { assert names[1..] == []; }
  }

  /** What a path finds is listed by its parent, unless it is the root, the working directory or its parent. */
  lemma FoundListed(t: Tree, path: cstring)
    requires Forest(t) && Find(t, path) != NIL
    ensures var r := Find(t, path);
            r in {t.root, t.cwd, t.entries[t.cwd].parent} || (Listed(t, r) && t.entries[r].used)
  {
    if path !in {[SLASH], [DOT], [DOT, DOT]} {
      var d, s := TargetDir(t, path), Split(Stripped(path), [SLASH]);
      if s != [] { DescendListed(t, d, s); }
    }
  }

  lemma FoundHung(t: Tree, path: cstring)
    requires Forest(t) && Parented(t) && Find(t, path) != NIL
    ensures Hung(t, Find(t, path))
  {
    FoundListed(t, path);
    assert ParentAt(t, t.cwd) && EntryAt(t, t.cwd);
  }

  lemma FoundFileListed(t: Tree, path: cstring)
    requires Forest(t) && Parented(t) && Find(t, path) != NIL && t.entries[Find(t, path)].kind == FILE
    ensures Listed(t, Find(t, path)) && t.entries[Find(t, path)].used
  {
    FoundListed(t, path);
    assert ParentAt(t, t.cwd);
  }

  lemma FoundBuffer(v: Volume, path: cstring)
    requires Sound(v) && Find(v.tree, path) != NIL
    ensures var i := Find(v.tree, path);
            v.tree.entries[i].kind == FILE && v.tree.entries[i].data != 0 ==> Holds(v, i) && |v.bufs[i]| == MAX_FILE_SIZE
  {
    var i := Find(v.tree, path);
    if v.tree.entries[i].kind == FILE { FoundFileListed(v.tree, path); }
    assert BufferAt(v, i);
  }

  // ---------------------------------------------------------------- what every operation keeps

  lemma TargetDirIsDirectory(t: Tree, name: cstring)
    requires Forest(t)
    ensures 0 <= TargetDir(t, name) < t.taken && t.entries[TargetDir(t, name)].kind == DIRECTORY
  {
  }

  lemma AddedParented(t: Tree, p: nat, name: cstring, kind: int, data: int)
    requires Forest(t) && Parented(t) && p < t.taken < MAX_ENTRIES && t.entries[p].kind == DIRECTORY && p in {t.root, t.cwd}
    requires Forest(Added(t, p, name, kind, data))
    ensures Parented(Added(t, p, name, kind, data))
  {
    var u := Added(t, p, name, kind, data);
    assert ParentAt(t, t.cwd);
    forall i | 0 <= i < u.taken ensures ParentAt(u, i) {
      if i < t.taken { assert ParentAt(t, i) && EntryAt(t, i); }
    }
  }

  /** Slots and blocks of files that are already there, after one slot has been filled. */
  lemma OldBuffers(v: Volume, w: Volume)
    requires Sound(v) && v.tree.taken < MAX_ENTRIES
    requires |w.tree.entries| == |w.bufs| == |w.held| == MAX_ENTRIES && w.tree.taken == v.tree.taken + 1
    requires UsedSet(v.blocks) <= UsedSet(w.blocks)
    requires forall i | 0 <= i < v.tree.taken ::
               && w.bufs[i] == v.bufs[i] && w.held[i] == v.held[i]
               && w.tree.entries[i].kind == v.tree.entries[i].kind && w.tree.entries[i].size == v.tree.entries[i].size
               && w.tree.entries[i].data == v.tree.entries[i].data && w.tree.entries[i].used == v.tree.entries[i].used
    ensures forall i | 0 <= i < v.tree.taken :: BufferAt(w, i)
    ensures forall i, j | 0 <= i < j < v.tree.taken :: BuffersApart(w, i, j)
  {
    forall i | 0 <= i < v.tree.taken ensures BufferAt(w, i) { assert BufferAt(v, i); }
    forall i, j | 0 <= i < j < v.tree.taken ensures BuffersApart(w, i, j) { assert BuffersApart(v, i, j); }
  }

  lemma MkDirSound(v: Volume, name: cstring)
    requires Sound(v)
    ensures Sound(MkDir(v, name).volume)
  {
    if MkDir(v, name).outcome == Done {
      TargetDirIsDirectory(v.tree, name);
      AddedSound(v, TargetDir(v.tree, name), Stripped(name));
    }
  }

  lemma AddedSound(v: Volume, p: nat, name: cstring)
    requires Sound(v) && p < v.tree.taken < MAX_ENTRIES && v.tree.entries[p].kind == DIRECTORY && p in {v.tree.root, v.tree.cwd}
    ensures Sound(v.(tree := Added(v.tree, p, name, DIRECTORY, 0)))
  {
    AddedForest(v.tree, p, name, DIRECTORY, 0);
    AddedParented(v.tree, p, name, DIRECTORY, 0);
    OldBuffers(v, v.(tree := Added(v.tree, p, name, DIRECTORY, 0)));
  }

  /** After a successful touch the new slot holds the block just granted. */
  lemma TouchedBuffers(v: Volume, name: cstring, junk: seq<byte>)
    requires Sound(v) && |junk| == MAX_FILE_SIZE && Touch(v, name, junk).outcome == Done
    ensures var w := Touch(v, name, junk).volume;
            && Canonical(w.blocks)
            && (forall i | 0 <= i < MAX_ENTRIES :: BufferAt(w, i))
            && (forall i, j | 0 <= i < j < MAX_ENTRIES :: BuffersApart(w, i, j))
  {
    var w, c := Touch(v, name, junk).volume, v.tree.taken;
    TargetDirIsDirectory(v.tree, name);
    AllocGrants(v.blocks, MAX_FILE_SIZE);
    UsableIff(MAX_FILE_SIZE);
    OldBuffers(v, w);
    forall i | 0 <= i < c ensures BuffersApart(w, i, c) { assert BufferAt(v, i); }
  }

  lemma TouchSound(v: Volume, name: cstring, junk: seq<byte>)
    requires Sound(v) && |junk| == MAX_FILE_SIZE
    ensures Sound(Touch(v, name, junk).volume)
  {
    var r := Touch(v, name, junk);
    if r.outcome == Done {
      var p, data := TargetDir(v.tree, name), H.Alloc(v.blocks, MAX_FILE_SIZE).ptr;
      TargetDirIsDirectory(v.tree, name);
      AddedForest(v.tree, p, Stripped(name), FILE, data);
      AddedParented(v.tree, p, Stripped(name), FILE, data);
      TouchedBuffers(v, name, junk);
    } else if r.volume != v {
      CreatedForest(v.tree, Stripped(name), FILE, 0);
      OldBuffers(v, r.volume);
      forall i | 0 <= i < r.volume.tree.taken ensures ParentAt(r.volume.tree, i) {
        if i < v.tree.taken { assert ParentAt(v.tree, i) && EntryAt(v.tree, i); }
      }
    }
  }

  lemma WriteSound(v: Volume, i: int, content: cstring)
    requires Sound(v) && 0 <= i < v.tree.taken
    requires v.tree.entries[i].kind == FILE && v.tree.entries[i].data != 0 ==> Holds(v, i) && |v.bufs[i]| == MAX_FILE_SIZE
    ensures Sound(WriteAt(v, i, content).volume)
  {
    var w := WriteAt(v, i, content).volume;
    assert ParentAt(v.tree, v.tree.cwd);
    SameLinks(v.tree, w.tree);
    forall j | 0 <= j < MAX_ENTRIES ensures BufferAt(w, j) { assert BufferAt(v, j); }
    forall j, l | 0 <= j < l < MAX_ENTRIES ensures BuffersApart(w, j, l) { assert BuffersApart(v, j, l); }
  }

  /** Trees that differ in sizes, buffers and working directory only. */
  lemma SameLinks(t: Tree, u: Tree)
    requires Forest(t) && Parented(t)
    requires u.kids == t.kids && |u.entries| == MAX_ENTRIES && u.taken == t.taken && u.root == t.root
    requires 0 <= u.cwd < u.taken && u.entries[u.cwd].kind == DIRECTORY && Hung(t, u.cwd)
    requires forall i | 0 <= i < MAX_ENTRIES :: u.entries[i] == t.entries[i].(size := u.entries[i].size, data := u.entries[i].data)
    ensures Forest(u) && Parented(u)
  {
    forall i | 0 <= i < u.taken ensures EntryAt(u, i) { assert EntryAt(t, i); }
    forall i | 0 <= i < MAX_ENTRIES ensures ListAt(u, i) {
      assert ListAt(t, i);
      forall j | 0 <= j < |u.kids[i]| ensures ChildAt(u, i, j) { assert ChildAt(t, i, j); }
    }
    forall i | 0 <= i < u.taken ensures ParentAt(u, i) { assert ParentAt(t, i) && EntryAt(t, i); }
  }

  lemma CdSound(v: Volume, path: cstring)
    requires Sound(v)
    ensures Sound(Cd(v, path).volume)
  {
    var w := Cd(v, path).volume;
    assert ParentAt(v.tree, v.tree.cwd);
    if Find(v.tree, path) != NIL { FoundHung(v.tree, path); }
    SameLinks(v.tree, w.tree);
    forall j | 0 <= j < MAX_ENTRIES ensures BufferAt(w, j) { assert BufferAt(v, j); }
    forall j, l | 0 <= j < l < MAX_ENTRIES ensures BuffersApart(w, j, l) { assert BuffersApart(v, j, l); }
  }

  lemma DetachedForest(t: Tree, i: int)
    requires Forest(t) && Parented(t) && 0 <= i < t.taken && t.entries[i].parent >= 0
    requires i != t.root
    ensures Forest(Detached(t, i)) && Parented(Detached(t, i))
    ensures forall k | 0 <= k < MAX_ENTRIES ::
              Detached(t, i).entries[k] ==
              t.entries[k].(used := t.entries[k].used && k != i, next := Detached(t, i).entries[k].next,
                            children := Detached(t, i).entries[k].children)
  {
    assert EntryAt(t, i);
    var u, p := Detached(t, i), t.entries[i].parent;
    if i in t.kids[p] {
      UnlinkedForest(t, p, Position(t.kids[p], i));
    } else {
      UnusedForest(t, i);
    }
    hide Forest, Parented;
    SameParents(t, u);
  }

  lemma UnusedForest(t: Tree, i: int)
    requires Forest(t) && 0 <= i < t.taken && i != t.root && !Listed(t, i)
    ensures Forest(Unused(t, i))
  {
    var u := Unused(t, i);
    NotListed(t, i);
    forall k | 0 <= k < u.taken ensures EntryAt(u, k) { assert EntryAt(t, k); }
    forall k | 0 <= k < MAX_ENTRIES ensures ListAt(u, k) {
      assert ListAt(t, k);
      forall j | 0 <= j < |u.kids[k]| ensures ChildAt(u, k, j) { assert ChildAt(t, k, j) && t.kids[k][j] in t.kids[k]; }
    }
  }

  /** Trees that differ in lists and in what is in use only. */
  lemma SameParents(t: Tree, u: Tree)
    requires Forest(t) && Parented(t) && Forest(u)
    requires u.taken == t.taken && u.root == t.root && u.cwd == t.cwd
    requires forall k | 0 <= k < MAX_ENTRIES ::
               && u.entries[k].kind == t.entries[k].kind && u.entries[k].parent == t.entries[k].parent
               && (u.entries[k].used ==> t.entries[k].used)
    ensures Parented(u)
  {
    forall k | 0 <= k < u.taken ensures ParentAt(u, k) { assert ParentAt(t, k) && EntryAt(t, k); }
  }

  lemma NotListed(t: Tree, i: int)
    requires Forest(t) && 0 <= i < t.taken && !Listed(t, i)
    ensures forall k | 0 <= k < MAX_ENTRIES :: i !in t.kids[k]
  {
    forall k | 0 <= k < MAX_ENTRIES ensures i !in t.kids[k] { KidsInTable(t, k); }
  }

  lemma RmDirSound(v: Volume, name: cstring)
    requires Sound(v)
    ensures Sound(RmDir(v, name).volume)
  {
    var r, i := RmDir(v, name), Find(v.tree, name);
    if r.outcome == Done {
      FoundHung(v.tree, name);
      assert BufferAt(v, i);
      DetachedForest(v.tree, i);
      forall j | 0 <= j < MAX_ENTRIES ensures BufferAt(r.volume, j) { assert BufferAt(v, j); }
      forall j, l | 0 <= j < l < MAX_ENTRIES ensures BuffersApart(r.volume, j, l) { assert BuffersApart(v, j, l); }
    }
  }

  /** What giving the removed file's buffer back does to the heap. */
  lemma RmBlocks(v: Volume, name: cstring)
    requires Sound(v) && Rm(v, name).outcome == Done
    ensures var w, i := Rm(v, name).volume, Find(v.tree, name);
            && Canonical(w.blocks)
            && UsedSet(w.blocks) == if v.tree.entries[i].data == 0 then UsedSet(v.blocks) else UsedSet(v.blocks) - {v.held[i]}
  {
    var i := Find(v.tree, name);
    FoundFileListed(v.tree, name);
    assert BufferAt(v, i);
    if v.tree.entries[i].data == 0 {
      NullNotLive(v.blocks);
    } else {
      FreeLive(v.blocks, v.held[i]);
    }
  }

  lemma RmSound(v: Volume, name: cstring)
    requires Sound(v)
    ensures Sound(Rm(v, name).volume)
  {
    var r, i := Rm(v, name), Find(v.tree, name);
    if r.outcome == Done {
      FoundFileListed(v.tree, name);
      RmBlocks(v, name);
      DetachedForest(v.tree, i);
      forall j | 0 <= j < MAX_ENTRIES ensures BufferAt(r.volume, j) {
        assert BufferAt(v, j);
        if j < i { assert BuffersApart(v, j, i); } else if i < j { assert BuffersApart(v, i, j); }
      }
      forall j, l | 0 <= j < l < MAX_ENTRIES ensures BuffersApart(r.volume, j, l) { assert BuffersApart(v, j, l); }
    }
  }

  lemma WriteFileSound(v: Volume, name: cstring, content: cstring, junk: seq<byte>)
    requires Sound(v) && |junk| == MAX_FILE_SIZE
    ensures Sound(WriteFile(v, name, content, junk).volume)
  {
    var i := Find(v.tree, name);
    if i != NIL {
      FoundBuffer(v, name);
      WriteSound(v, i, content);
    } else {
      TouchSound(v, name, junk);
      var r := Touch(v, name, junk);
      if r.outcome == Done && Find(r.volume.tree, name) != NIL {
        FoundBuffer(r.volume, name);
        WriteSound(r.volume, Find(r.volume.tree, name), content);
      }
    }
  }

  // ---------------------------------------------------------------- sequences of operations

  datatype Command =
    | MkDirOp(name: cstring)
    | TouchOp(name: cstring, junk: seq<byte>)
    | WriteOp(name: cstring, content: cstring, junk: seq<byte>)
    | RmOp(name: cstring)
    | RmDirOp(name: cstring)
    | CpOp(src: cstring, dest: cstring, junk: seq<byte>)
    | CdOp(path: cstring)

  predicate WellFormed(op: Command) {
    (op.TouchOp? || op.WriteOp? || op.CpOp?) ==> |op.junk| == MAX_FILE_SIZE
  }

  ghost function Perform(v: Volume, op: Command): Result
    requires Sound(v) && WellFormed(op)
  {
    match op
    case MkDirOp(name) => MkDir(v, name)
    case TouchOp(name, junk) => Touch(v, name, junk)
    case WriteOp(name, content, junk) => WriteFile(v, name, content, junk)
    case RmOp(name) => Rm(v, name)
    case RmDirOp(name) => RmDir(v, name)
    case CpOp(src, dest, junk) => Cp(v, src, dest, junk)
    case CdOp(path) => Cd(v, path)
  }

  /** Whatever names are used, every operation keeps the links a forest and the buffers apart. */
  lemma PerformSound(v: Volume, op: Command)
    requires Sound(v) && WellFormed(op)
    ensures Sound(Perform(v, op).volume)
  {
    match op
    case MkDirOp(name) => MkDirSound(v, name);
    case TouchOp(name, junk) => TouchSound(v, name, junk);
    case WriteOp(name, content, junk) => WriteFileSound(v, name, content, junk);
    case RmOp(name) => RmSound(v, name);
    case RmDirOp(name) => RmDirSound(v, name);
    case CpOp(src, dest, junk) =>
      if Find(v.tree, src) != NIL {
        WriteFileSound(v, dest, Text(v.bufs[Find(v.tree, src)], 0), junk);
      }
    case CdOp(path) => CdSound(v, path);
  }
}
