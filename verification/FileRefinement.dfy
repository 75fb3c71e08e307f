/**
 The filesystem as a map from paths to directories and file contents: lookups read the map,
 every successful operation changes it at one path, every failure leaves it alone.
 */
module FileRefinement {
  import opened Bytes
  import opened CStrings
  import opened FileTree
  import opened FileTreeEdits
  import opened FileOps
  import opened HeapSpec

  type Path = seq<seq<byte>>

  /** `home` is the heap block that holds a file's buffer. */
  datatype Object = Directory | File(size: int, buffer: seq<byte>, home: Block)

  /** What a client can observe: the objects by path, and the path of the working directory. */
  datatype View = View(files: imap<Path, Object>, cwd: Path)

  ghost function ObjectAt(v: Volume, i: int): Object
    requires Sound(v) && 0 <= i < v.tree.taken
  {
    if v.tree.entries[i].kind == DIRECTORY then Directory else File(v.tree.entries[i].size, v.bufs[i], v.held[i])
  }

  ghost function Files(v: Volume): imap<Path, Object>
    requires Sound(v)
  {
    imap p: Path | Descend(v.tree, v.tree.root, p) != NIL :: ObjectAt(v, Descend(v.tree, v.tree.root, p))
  }

  ghost function ViewOf(v: Volume): View
    requires Sound(v)
  {
    View(Files(v), PathOf(v.tree, v.tree.cwd))
  }

  /** The invariant of a session that names its files plainly: no duplicate names, a live working directory, no file without a buffer. */
  ghost predicate Orderly(v: Volume) {
    && Sound(v)
    && UniqueNames(v.tree)
    && Attached(v.tree, v.tree.cwd)
    && forall i | 0 <= i < v.tree.taken :: BackedAt(v, i)
  }

  ghost predicate BackedAt(v: Volume, i: int)
    requires Sound(v) && 0 <= i < v.tree.taken
  {
    Listed(v.tree, i) && v.tree.entries[i].kind == FILE ==> v.tree.entries[i].data != 0
  }

  lemma FreshOrderly(blocks: seq<Block>)
    requires Canonical(blocks)
    ensures Sound(Fresh(blocks)) && Orderly(Fresh(blocks))
    ensures ViewOf(Fresh(blocks)) == View(imap[[] := Directory], [])
  {
    var v := Fresh(blocks);
    FreshSound(blocks);
    forall i | 0 <= i < MAX_ENTRIES ensures UniqueNamesAt(v.tree, i) {}
    forall p: Path | p != [] ensures Descend(v.tree, 0, p) == NIL { assert Child(v.tree, 0, p[0]) == NIL; }
  }

  // ---------------------------------------------------------------- lookups

  /** The absolute path a path string means. */
  ghost function Resolve(cwd: Path, path: cstring): Path {
    if path == [SLASH] then []
    else if path == [DOT] then cwd
    else if path == [DOT, DOT] then (if cwd == [] then [] else cwd[..|cwd| - 1])
    else if path != [] && path[0] == SLASH then Split(path[1..], [SLASH])
    else cwd + Split(path, [SLASH])
  }

  /** Lookup is descent from the root along the path meant. */
  lemma FindIsDescent(t: Tree, path: cstring)
    requires Forest(t) && UniqueNames(t) && Attached(t, t.cwd)
    ensures Find(t, path) == Descend(t, t.root, Resolve(PathOf(t, t.cwd), path))
  {
    DescendComplete(t, t.cwd);
    assert EntryAt(t, t.cwd);
    if path == [SLASH] || path == [DOT] {
    } else if path == [DOT, DOT] {
      if t.cwd != t.root {
        DescendComplete(t, t.entries[t.cwd].parent);
        assert PathOf(t, t.cwd)[..|PathOf(t, t.cwd)| - 1] == PathOf(t, t.entries[t.cwd].parent);
      }
    } else if path == [] || path[0] != SLASH {
      DescendFurther(t, t.root, PathOf(t, t.cwd), Split(path, [SLASH]));
    }
  }

  /** A path string finds the object the map holds at the path it means, and nothing where the map has nothing. */
  lemma LookupReadsMap(v: Volume, path: cstring)
    requires Sound(v) && UniqueNames(v.tree) && Attached(v.tree, v.tree.cwd)
    ensures var i, p := Find(v.tree, path), Resolve(ViewOf(v).cwd, path);
            && (i == NIL <==> p !in Files(v))
            && (i != NIL ==> Files(v)[p] == ObjectAt(v, i) && Attached(v.tree, i) && PathOf(v.tree, i) == p)
  {
    FindIsDescent(v.tree, path);
    var p := Resolve(ViewOf(v).cwd, path);
    if Find(v.tree, path) != NIL {
      DescendSound(v.tree, v.tree.root, p);
      assert PathOf(v.tree, v.tree.root) + p == p;
    }
  }

  /** Printing the path of an entry and looking it up again finds that entry. */
  lemma AbsolutePathFindsEntry(t: Tree, i: int)
    requires Forest(t) && UniqueNames(t) && Attached(t, i)
    requires forall n | n in PathOf(t, i) :: Component(n)
    ensures 0 !in Join(PathOf(t, i))
    ensures var path: cstring := if i == t.root then [SLASH] else Join(PathOf(t, i));
            Find(t, path) == i
  {
    var names := PathOf(t, i);
    NamesHaveNoNul(t, i);
    DescendComplete(t, i);
    if i != t.root {
      assert EntryAt(t, i);
      assert names != [];
      SplitJoin(names);
      var s := Join(names);
      assert s[0] == SLASH;
      SplitSkip(s, [SLASH]);
      assert Component(names[0]) && |s| > 1;
    }
  }

  lemma {:induction false} NamesHaveNoNul(t: Tree, i: int)
    requires Forest(t) && 0 <= i < t.taken
    ensures 0 !in Join(PathOf(t, i))
    decreases i
  {
    assert EntryAt(t, i);
    if i != t.root && t.entries[i].parent != NIL {
      NamesHaveNoNul(t, t.entries[i].parent);
      JoinAppend(PathOf(t, t.entries[i].parent), t.entries[i].name);
    }
  }

  lemma {:induction false} JoinAppend(names: seq<seq<byte>>, n: seq<byte>)
    ensures Join(names + [n]) == Join(names) + [SLASH] + n
  {
    if names == [] {
      assert Join([n]) == [SLASH] + n + Join([]);
    } else {
      assert (names + [n])[1..] == names[1..] + [n];
      JoinAppend(names[1..], n);
    }
  }

  // ---------------------------------------------------------------- additions

  /** A name that is one component of at most 31 bytes, behind at most one slash. */
  predicate OneShort(name: cstring) {
    Split(Stripped(name), [SLASH]) == [Truncated(Stripped(name))]
  }

  /** A name that stands for itself. */
  predicate Simple(name: seq<byte>) {
    Component(name) && |name| < MAX_FILENAME && name != [DOT] && name != [DOT, DOT]
  }

  /**
   Such a name has, behind at most one slash, between one and 31 bytes and no slash; or 31 such bytes and
   nothing but slashes behind them.
   */
  lemma OneShortIff(name: cstring)
    ensures var n := if name != [] && name[0] == 47 then name[1..] else name;
            OneShort(name) <==>
              if |n| < 32 then n != [] && 47 !in n
              else 47 !in n[..31] && forall i | 31 <= i < |n| :: n[i] == 47
  {
    var n := Stripped(name);
    if |n| < 32 {
      if OneShort(name) {
        SplitComponents(n);
        assert n in Split(n, [SLASH]);
      } else if n != [] && SLASH !in n {
        SplitComponent(n);
      }
    } else {
      LongOneShort(n);
    }
  }

  lemma LongOneShort(n: seq<byte>)
    requires |n| >= 32
    ensures Split(n, [SLASH]) == [n[..31]] <==> SLASH !in n[..31] && forall i | 31 <= i < |n| :: n[i] == SLASH
  {
    hide Split;
    BehindThirtyOne(n);
    if Split(n, [SLASH]) == [n[..31]] { FirstOfThirtyOne(n); }
    if SLASH !in n[..31] && n[31] == SLASH {
      assert n == n[..31] + [SLASH] + n[32..];
      ComponentThenSlashes(n[..31], n[32..]);
    }
  }

  lemma FirstOfThirtyOne(n: seq<byte>)
    requires |n| >= 32 && Split(n, [SLASH]) == [n[..31]]
    ensures SLASH !in n[..31] && n[31] == SLASH
  {
    hide Split;
    var a := n[..31];
    SplitComponents(n);
    assert Split(n, [SLASH])[0] == a;
    assert Component(a);
    assert n[0] == a[0] && a[0] in a;
    SplitFirst(n, [SLASH], 31);
  }

  lemma BehindThirtyOne(n: seq<byte>)
    requires |n| >= 32
    ensures (forall i | 31 <= i < |n| :: n[i] == SLASH) <==> n[31] == SLASH && forall i | 0 <= i < |n[32..]| :: n[32..][i] == SLASH
  {
    if forall i | 0 <= i < |n[32..]| :: n[32..][i] == SLASH {
      forall i | 32 <= i < |n| ensures n[i] == SLASH { assert n[32..][i - 32] == SLASH; }
    }
  }

  lemma ComponentThenSlashes(a: seq<byte>, b: seq<byte>)
    requires Component(a)
    ensures Split(a + [SLASH] + b, [SLASH]) == [a] <==> forall i | 0 <= i < |b| :: b[i] == SLASH
  {
    SplitConcat(a, SLASH, b, [SLASH]);
    SplitComponent(a);
    SplitEmptyIff(b, [SLASH]);
    hide Split, Component;
    if Split(b, [SLASH]) != [] { assert |[a] + Split(b, [SLASH])| > 1; }
  }

  /** What a name that was not found when it was checked means: a path below the directory it would be created in. */
  lemma FreshMeans(t: Tree, name: cstring)
    requires Forest(t) && Find(t, Stripped(name)) == NIL
    ensures Resolve(PathOf(t, t.cwd), name) == PathOf(t, TargetDir(t, name)) + Split(Stripped(name), [SLASH])
    ensures Split(Stripped(name), [SLASH]) != []
  {
    var n := Stripped(name);
    assert EntryAt(t, t.cwd);
    assert n != [] by { assert Split([], [SLASH]) == []; }
    hide Split, Descend;
    if n[0] == SLASH { SplitSkip(n, [SLASH]); }
    if name[0] == SLASH {
      assert PathOf(t, t.root) + Split(n, [SLASH]) == Split(n, [SLASH]);
    }
  }

  /** Both directories a creation can go to are in the tree. */
  lemma TargetAttached(v: Volume, name: cstring)
    requires Orderly(v)
    ensures Attached(v.tree, TargetDir(v.tree, name))
  {
  }

  lemma FreeChild(v: Volume, name: cstring)
    requires Orderly(v) && OneShort(name) && Find(v.tree, Stripped(name)) == NIL && Resolve(ViewOf(v).cwd, name) !in Files(v)
    ensures Child(v.tree, TargetDir(v.tree, name), Truncated(Stripped(name))) == NIL
    ensures Resolve(ViewOf(v).cwd, name) == PathOf(v.tree, TargetDir(v.tree, name)) + [Truncated(Stripped(name))]
  {
    var t, d, x := v.tree, TargetDir(v.tree, name), Truncated(Stripped(name));
    FreshMeans(t, name);
    TargetAttached(v, name);
    DescendComplete(t, d);
    DescendFurther(t, t.root, PathOf(t, d), [x]);
    DescendOne(t, d, x);
  }

  /** Adding an entry under a free path of one short component puts exactly that path into the map. */
  lemma AddedFiles(v: Volume, w: Volume, name: cstring, kind: int, data: int)
    requires Orderly(v) && OneShort(name) && Find(v.tree, Stripped(name)) == NIL && Resolve(ViewOf(v).cwd, name) !in Files(v)
    requires v.tree.taken < MAX_ENTRIES && kind in {FILE, DIRECTORY}
    requires w.tree == Added(v.tree, TargetDir(v.tree, name), Stripped(name), kind, data)
    requires Sound(w) && forall i | 0 <= i < v.tree.taken :: w.bufs[i] == v.bufs[i] && w.held[i] == v.held[i]
    ensures Files(w) == Files(v)[Resolve(ViewOf(v).cwd, name) := ObjectAt(w, v.tree.taken)]
  {
    FreeChild(v, name);
    TargetAttached(v, name);
    TargetDirIsDirectory(v.tree, name);
    AddedEveryPath(v.tree, TargetDir(v.tree, name), Stripped(name), kind, data);
    hide Descend, PathOf, Resolve, Find, UniqueNames, Orderly, Files;
    FilesWith(v, w, Resolve(PathOf(v.tree, v.tree.cwd), name));
  }

  lemma FilesWith(v: Volume, w: Volume, p: Path)
    requires Sound(v) && Sound(w) && w.tree.taken == v.tree.taken + 1
    requires forall q: Path ::
               Descend(w.tree, w.tree.root, q) == if q == p then v.tree.taken else Descend(v.tree, v.tree.root, q)
    requires forall k | 0 <= k < v.tree.taken ::
               && w.tree.entries[k].kind == v.tree.entries[k].kind && w.tree.entries[k].size == v.tree.entries[k].size
               && w.bufs[k] == v.bufs[k] && w.held[k] == v.held[k]
    ensures Files(w) == Files(v)[p := ObjectAt(w, v.tree.taken)]
  {
  }

  /**
   Adding an entry under any name: with the first 31 bytes free in the directory, exactly the directory's
   path with these bytes behind it comes into the map.
   */
  lemma AddedUnder(v: Volume, w: Volume, d: nat, n: cstring, kind: int, data: int)
    requires Orderly(v) && Attached(v.tree, d) && v.tree.entries[d].kind == DIRECTORY
    requires v.tree.taken < MAX_ENTRIES && kind in {FILE, DIRECTORY}
    requires w.tree == Added(v.tree, d, n, kind, data)
    requires Sound(w) && forall i | 0 <= i < v.tree.taken :: w.bufs[i] == v.bufs[i] && w.held[i] == v.held[i]
    ensures var p := PathOf(v.tree, d) + [n[..if |n| < 32 then |n| else 31]];
            && PathOf(w.tree, v.tree.taken) == p
            && (p !in Files(v) ==> UniqueNames(w.tree) && Files(w) == Files(v)[p := ObjectAt(w, v.tree.taken)])
  {
    var t, x := v.tree, n[..if |n| < 32 then |n| else 31];
    AddedEntry(t, d, n, kind, data);
    PathSame(t, w.tree, d);
    assert EntryAt(w.tree, t.taken);
    DescendComplete(t, d);
    DescendFurther(t, t.root, PathOf(t, d), [x]);
    DescendOne(t, d, x);
    if PathOf(t, d) + [x] !in Files(v) {
      assert x == Truncated(n);
      AddedUniqueIff(t, d, n, kind, data);
      AddedEveryPath(t, d, n, kind, data);
      hide Descend, PathOf, UniqueNames, Orderly, Files;
      FilesWith(v, w, PathOf(t, d) + [x]);
    }
  }

  lemma AddedOrderly(v: Volume, w: Volume, name: cstring, kind: int, data: int)
    requires Orderly(v) && OneShort(name) && Find(v.tree, Stripped(name)) == NIL && Resolve(ViewOf(v).cwd, name) !in Files(v)
    requires v.tree.taken < MAX_ENTRIES && kind in {FILE, DIRECTORY} && (kind == FILE ==> data != 0)
    requires w.tree == Added(v.tree, TargetDir(v.tree, name), Stripped(name), kind, data)
    requires Sound(w)
    ensures Orderly(w) && ViewOf(w).cwd == ViewOf(v).cwd
  {
    var t, u := v.tree, w.tree;
    FreeChild(v, name);
    TargetDirIsDirectory(t, name);
    AddedUniqueIff(t, TargetDir(t, name), Stripped(name), kind, data);
    AttachedSame(t, u, t.cwd);
    PathSame(t, u, t.cwd);
    AddedBacked(v, w, name, kind, data);
  }

  lemma AddedEveryPath(t: Tree, p: nat, n: cstring, kind: int, data: int)
    requires Forest(t) && UniqueNames(t) && Attached(t, p) && p < t.taken < MAX_ENTRIES && kind in {FILE, DIRECTORY}
    requires t.entries[p].kind == DIRECTORY
    requires Child(t, p, Truncated(n)) == NIL && Forest(Added(t, p, n, kind, data))
    ensures var u := Added(t, p, n, kind, data);
            forall q: Path :: Descend(u, u.root, q) ==
              if q == PathOf(t, p) + [Truncated(n)] then t.taken else Descend(t, t.root, q)
  {
    var u := Added(t, p, n, kind, data);
    forall q: Path
      ensures Descend(u, u.root, q) == if q == PathOf(t, p) + [Truncated(n)] then t.taken else Descend(t, t.root, q)
    {
      AddedPaths(t, p, n, kind, data, q);
    }
  }

  lemma AddedBacked(v: Volume, w: Volume, name: cstring, kind: int, data: int)
    requires Orderly(v) && Sound(w) && v.tree.taken < MAX_ENTRIES && (kind == FILE ==> data != 0)
    requires w.tree == Added(v.tree, TargetDir(v.tree, name), Stripped(name), kind, data)
    ensures forall i | 0 <= i < w.tree.taken :: BackedAt(w, i)
  {
    forall i | 0 <= i < w.tree.taken ensures BackedAt(w, i) {
      if i < v.tree.taken { assert BackedAt(v, i) && EntryAt(v.tree, i) && EntryAt(w.tree, i); }
    }
  }

  /** Below a directory the new entry is not in, nothing changes. */
  lemma {:induction false} AddedElsewhere(t: Tree, p: nat, name: cstring, kind: int, data: int, d: int, names: seq<seq<byte>>)
    requires Forest(t) && p < t.taken < MAX_ENTRIES && Forest(Added(t, p, name, kind, data)) && p < d < t.taken
    ensures Descend(Added(t, p, name, kind, data), d, names) == Descend(t, d, names)
    decreases |names|
  {
    if names != [] {
      AddedChild(t, p, name, kind, data, d, names[0]);
      var c := Child(t, d, names[0]);
      if c != NIL { AddedElsewhere(t, p, name, kind, data, c, names[1..]); }
    }
  }

  /** A created entry is found under the name it was created with exactly when that name is one short component. */
  lemma CreatedFoundIff(t: Tree, name: cstring, kind: int, data: int)
    requires Forest(t) && t.taken < MAX_ENTRIES && Find(t, name) == NIL
    requires Forest(Added(t, TargetDir(t, name), Stripped(name), kind, data))
    ensures var u, n := Added(t, TargetDir(t, name), Stripped(name), kind, data), Stripped(name);
            && Find(u, name) == Descend(u, TargetDir(t, name), Split(n, [SLASH]))
            && (Find(u, name) != NIL <==> OneShort(name))
            && (Find(u, name) != NIL ==> Find(u, name) == t.taken)
  {
    var p, n := TargetDir(t, name), Stripped(name);
    var u, ns := Added(t, p, n, kind, data), Split(n, [SLASH]);
    assert EntryAt(t, t.cwd);
    assert Find(t, name) == Descend(t, p, ns) && Find(u, name) == Descend(u, p, ns);
    AddedChild(t, p, n, kind, data, p, ns[0]);
    var k := Child(t, p, ns[0]);
    if ns[0] == Truncated(n) {
      if |ns| > 1 {
        AddedChild(t, p, n, kind, data, p, ns[1]);
        assert ns[1..][0] == ns[1];
        assert Descend(u, t.taken, ns[1..]) == NIL;
      } else {
        assert ns == [Truncated(n)];
        DescendOne(u, p, Truncated(n));
      }
    } else if k != NIL {
      AddedElsewhere(t, p, n, kind, data, k, ns[1..]);
    }
  }

  /** The way to the directory added to stays as it was. */
  lemma {:induction false} AddedBelow(t: Tree, p: nat, name: cstring, kind: int, data: int, i: int)
    requires Forest(t) && UniqueNames(t) && p < t.taken < MAX_ENTRIES && Forest(Added(t, p, name, kind, data))
    requires Attached(t, i) && i <= p
    ensures var u := Added(t, p, name, kind, data); u.root == t.root && Descend(u, u.root, PathOf(t, i)) == i
    decreases i
  {
    var u := Added(t, p, name, kind, data);
    assert EntryAt(t, i);
    if i != t.root {
      var d, x := t.entries[i].parent, t.entries[i].name;
      AddedBelow(t, p, name, kind, data, d);
      ChildFound(t, d, i);
      AddedChild(t, p, name, kind, data, d, x);
      DescendFurther(u, u.root, PathOf(t, d), [x]);
      DescendOne(u, d, x);
    }
  }

  /** A creation under any other name leaves the path it was meant for as free as it was. */
  lemma AddedMissesPath(v: Volume, w: Volume, name: cstring, kind: int, data: int)
    requires Orderly(v) && !OneShort(name) && Find(v.tree, Stripped(name)) == NIL && Resolve(ViewOf(v).cwd, name) !in Files(v)
    requires v.tree.taken < MAX_ENTRIES && Sound(w)
    requires w.tree == Added(v.tree, TargetDir(v.tree, name), Stripped(name), kind, data)
    ensures Resolve(ViewOf(v).cwd, name) !in Files(w)
  {
    var t, u, d, ns := v.tree, w.tree, TargetDir(v.tree, name), Split(Stripped(name), [SLASH]);
    LookupReadsMap(v, name);
    FreshMeans(t, name);
    TargetAttached(v, name);
    AddedBelow(t, d, Stripped(name), kind, data, d);
    CreatedFoundIff(t, name, kind, data);
    DescendFurther(u, u.root, PathOf(t, d), ns);
  }

  /** The slot a failed touch uses up hangs nowhere. */
  lemma OrphanInvisible(v: Volume, w: Volume, name: cstring)
    requires Orderly(v) && Sound(w) && v.tree.taken < MAX_ENTRIES
    requires w == v.(tree := Created(v.tree, Stripped(name), FILE, 0))
    ensures Orderly(w) && ViewOf(w) == ViewOf(v)
  {
    var t, u := v.tree, w.tree;
    FreshHasNoKids(t, t.taken);
    AttachedSame(t, u, t.cwd);
    PathSame(t, u, t.cwd);
    forall i | 0 <= i < MAX_ENTRIES ensures UniqueNamesAt(u, i) {
      assert UniqueNamesAt(t, i);
      KidsInTable(t, i);
      forall j, l | 0 <= j < l < |u.kids[i]| ensures NamesDiffer(u, i, j, l) { assert NamesDiffer(t, i, j, l); }
    }
    forall i | 0 <= i < u.taken ensures BackedAt(w, i) {
      if i < t.taken { assert BackedAt(v, i) && EntryAt(t, i) && EntryAt(u, i); } else { assert EntryAt(u, i); }
    }
    forall q: Path ensures Descend(u, u.root, q) == Descend(t, t.root, q) { DescendSame(t, u, t.root, q); }
  }

  // ---------------------------------------------------------------- writes and removals

  /** Writing to an entry that a path leads to changes that path's object only. */
  lemma WriteRefines(v: Volume, i: int, content: cstring)
    requires Orderly(v) && Attached(v.tree, i) && v.tree.entries[i].kind == FILE
    ensures |v.bufs[i]| == MAX_FILE_SIZE
    ensures var r, p := WriteAt(v, i, content), PathOf(v.tree, i);
            && r.outcome == Done && Orderly(r.volume)
            && ViewOf(r.volume) == View(Files(v)[p := File(|Cut(content)|, Overwritten(v.bufs[i], content), v.held[i])], ViewOf(v).cwd)
  {
    assert BackedAt(v, i) && EntryAt(v.tree, i) && BufferAt(v, i);
    KidsInTable(v.tree, v.tree.entries[i].parent);
    WriteSound(v, i, content);
    var w := WriteAt(v, i, content).volume;
    hide Descend, Attached, PathOf;
    SameNames(v, w);
    SamePaths(v.tree, w.tree);
    OnlyPath(v.tree, i);
    hide Files, UniqueNames, BackedAt;
    FilesChanged(v, w, i, PathOf(v.tree, i));
  }

  lemma FilesChanged(v: Volume, w: Volume, i: int, p: Path)
    requires Sound(v) && Sound(w) && w.tree.taken == v.tree.taken && 0 <= i < v.tree.taken
    requires forall q: Path :: Descend(w.tree, w.tree.root, q) == Descend(v.tree, v.tree.root, q)
    requires forall q: Path :: Descend(v.tree, v.tree.root, q) == i <==> q == p
    requires forall k | 0 <= k < v.tree.taken && k != i :: ObjectAt(w, k) == ObjectAt(v, k)
    ensures Files(w) == Files(v)[p := ObjectAt(w, i)]
  {
  }

  lemma SamePaths(t: Tree, u: Tree)
    requires Forest(t) && Forest(u) && t.kids == u.kids && t.taken == u.taken && t.root == u.root
    requires forall i | 0 <= i < t.taken :: u.entries[i].name == t.entries[i].name
    ensures forall q: Path :: Descend(u, u.root, q) == Descend(t, t.root, q)
  {
    forall q: Path ensures Descend(u, u.root, q) == Descend(t, t.root, q) { DescendSame(t, u, t.root, q); }
  }

  /** An attached entry is reached by its own path and no other. */
  lemma OnlyPath(t: Tree, i: int)
    requires Forest(t) && UniqueNames(t) && Attached(t, i)
    ensures forall q: Path :: Descend(t, t.root, q) == i <==> q == PathOf(t, i)
  {
    DescendComplete(t, i);
    forall q: Path | Descend(t, t.root, q) == i ensures q == PathOf(t, i) {
      DescendSound(t, t.root, q);
      assert PathOf(t, t.root) + q == q;
    }
  }

  lemma SameNames(v: Volume, w: Volume)
    requires Orderly(v) && Sound(w)
    requires w.tree.kids == v.tree.kids && w.tree.taken == v.tree.taken && w.tree.root == v.tree.root
    requires forall i | 0 <= i < MAX_ENTRIES :: w.tree.entries[i] == v.tree.entries[i].(size := w.tree.entries[i].size)
    requires Attached(v.tree, w.tree.cwd)
    ensures Orderly(w) && PathOf(w.tree, w.tree.cwd) == PathOf(v.tree, w.tree.cwd)
  {
    AttachedSame(v.tree, w.tree, w.tree.cwd);
    PathSame(v.tree, w.tree, w.tree.cwd);
    forall i | 0 <= i < MAX_ENTRIES ensures UniqueNamesAt(w.tree, i) {
      assert UniqueNamesAt(v.tree, i);
      KidsInTable(v.tree, i);
      forall j, l | 0 <= j < l < |w.tree.kids[i]| ensures NamesDiffer(w.tree, i, j, l) { assert NamesDiffer(v.tree, i, j, l); }
    }
    forall i | 0 <= i < w.tree.taken ensures BackedAt(w, i) { assert BackedAt(v, i) && EntryAt(v.tree, i) && EntryAt(w.tree, i); }
  }

  /** Taking an entry without children off its list keeps a session orderly. */
  lemma DetachedOrderly(v: Volume, w: Volume, i: int)
    requires Orderly(v) && Attached(v.tree, i) && i != v.tree.root && i != v.tree.cwd && v.tree.kids[i] == []
    requires Sound(w) && w.bufs == v.bufs && Listed(v.tree, i) && w.tree == Detached(v.tree, i)
    ensures Orderly(w) && ViewOf(w).cwd == ViewOf(v).cwd
  {
    var t, u := v.tree, w.tree;
    assert EntryAt(t, i);
    var p := t.entries[i].parent;
    var j := Position(t.kids[p], i);
    UnlinkedForest(t, p, j);
    UnlinkedUnique(t, p, j);
    DetachedForest(t, i);
    UnlinkedAttached(t, p, j, t.cwd);
    PathSame(t, u, t.cwd);
    DetachedBacked(v, w, i);
  }

  /** It takes the entry's path out of the map. */
  lemma DetachedFiles(v: Volume, w: Volume, i: int)
    requires Orderly(v) && Attached(v.tree, i) && i != v.tree.root && v.tree.kids[i] == []
    requires Sound(w) && w.bufs == v.bufs && w.held == v.held && Listed(v.tree, i) && w.tree == Detached(v.tree, i)
    ensures Files(w) == Files(v) - {PathOf(v.tree, i)}
  {
    var t := v.tree;
    assert EntryAt(t, i);
    UnlinkedForest(t, t.entries[i].parent, Position(t.kids[t.entries[i].parent], i));
    DetachedForest(t, i);
    hide Descend, PathOf, Attached;
    UnlinkedEveryPath(t, t.entries[i].parent, Position(t.kids[t.entries[i].parent], i));
    hide Unlinked, Detached, UniqueNames, Orderly, Files;
    FilesWithout(v, w, PathOf(t, i));
  }

  lemma FilesWithout(v: Volume, w: Volume, gone: Path)
    requires Sound(v) && Sound(w) && w.bufs == v.bufs && w.held == v.held && w.tree.taken == v.tree.taken
    requires forall q: Path ::
               Descend(w.tree, w.tree.root, q) == if q == gone then NIL else Descend(v.tree, v.tree.root, q)
    requires forall k | 0 <= k < MAX_ENTRIES ::
               w.tree.entries[k].kind == v.tree.entries[k].kind && w.tree.entries[k].size == v.tree.entries[k].size
    ensures Files(w) == Files(v) - {gone}
  {
  }

  lemma UnlinkedEveryPath(t: Tree, p: nat, j: nat)
    requires Forest(t) && UniqueNames(t) && p < MAX_ENTRIES && j < |t.kids[p]| && Attached(t, t.kids[p][j])
    requires t.kids[p][j] < MAX_ENTRIES && t.kids[t.kids[p][j]] == []
    requires p < t.kids[p][j] < MAX_ENTRIES && (j > 0 ==> p < t.kids[p][j - 1] < MAX_ENTRIES)
    requires Forest(Unlinked(t, p, j))
    ensures var u, c := Unlinked(t, p, j), t.kids[p][j];
            forall q: Path :: Descend(u, u.root, q) == if q == PathOf(t, c) then NIL else Descend(t, t.root, q)
  {
    var u, c := Unlinked(t, p, j), t.kids[p][j];
    forall q: Path
      ensures Descend(u, u.root, q) == if q == PathOf(t, c) then NIL else Descend(t, t.root, q)
    {
      UnlinkedPaths(t, p, j, q);
    }
  }

  lemma DetachedBacked(v: Volume, w: Volume, i: int)
    requires Orderly(v) && 0 <= i < v.tree.taken && i != v.tree.root
    requires Sound(w) && Listed(v.tree, i) && w.tree == Detached(v.tree, i)
    ensures forall k | 0 <= k < w.tree.taken :: BackedAt(w, k)
  {
    var t, u := v.tree, w.tree;
    assert EntryAt(t, i);
    var p := t.entries[i].parent;
    DetachedForest(t, i);
    forall k | 0 <= k < u.taken ensures BackedAt(w, k) {
      assert BackedAt(v, k) && EntryAt(t, k) && EntryAt(u, k);
      if Listed(u, k) {
        var q := u.entries[k].parent;
        var ks := u.kids[q];
        assert q != p ==> ks == t.kids[q];
        assert q == p ==> forall l | 0 <= l < |ks| :: ks[l] == t.kids[p][if l < Position(t.kids[p], i) then l else l + 1];
        assert Listed(t, k);
      }
    }
  }

  lemma RmRefines(v: Volume, name: cstring)
    requires Orderly(v)
    ensures var r, p := Rm(v, name), Resolve(ViewOf(v).cwd, name);
            && Orderly(r.volume)
            && (r.outcome == Done <==> p in Files(v) && Files(v)[p].File?)
            && (r.outcome == Done ==> ViewOf(r.volume) == View(Files(v) - {p}, ViewOf(v).cwd))
            && (r.outcome != Done ==> r.outcome == Failed && r.volume == v)
  {
    var r, i := Rm(v, name), Find(v.tree, name);
    LookupReadsMap(v, name);
    RmSound(v, name);
    if r.outcome == Done {
      FoundFileListed(v.tree, name);
      assert ListAt(v.tree, i) && EntryAt(v.tree, i);
      DetachedFiles(v, r.volume, i);
      DetachedOrderly(v, r.volume, i);
    } else if i != NIL {
      assert EntryAt(v.tree, i);
    }
  }

  /** A directory is empty just when the map has nothing one step below its path. */
  lemma EmptyInMap(v: Volume, i: int)
    requires Orderly(v) && Attached(v.tree, i)
    ensures v.tree.kids[i] == [] <==> forall x: seq<byte> :: PathOf(v.tree, i) + [x] !in Files(v)
  {
    var t := v.tree;
    DescendComplete(t, i);
    if t.kids[i] == [] {
      forall x: seq<byte> ensures PathOf(t, i) + [x] !in Files(v) {
        DescendFurther(t, t.root, PathOf(t, i), [x]);
        assert Child(t, i, x) == NIL;
      }
    } else {
      var c := t.kids[i][0];
      ChildFound(t, i, c);
      DescendFurther(t, t.root, PathOf(t, i), [t.entries[c].name]);
      assert PathOf(t, i) + [t.entries[c].name] in Files(v);
    }
  }

  /** rmdir succeeds exactly on an empty directory other than the root; only its path leaves the map. */
  lemma RmDirRefines(v: Volume, name: cstring)
    requires Orderly(v)
    ensures var r, p := RmDir(v, name), Resolve(ViewOf(v).cwd, name);
            && (r.outcome == Done <==> p in Files(v) && p != [] && Files(v)[p] == Directory && forall x :: p + [x] !in Files(v))
            && (r.outcome == Done && Find(v.tree, name) != v.tree.cwd ==>
                  Orderly(r.volume) && ViewOf(r.volume) == View(Files(v) - {p}, ViewOf(v).cwd))
            && (r.outcome != Done ==> r.outcome == Failed && r.volume == v)
  {
    var r, i := RmDir(v, name), Find(v.tree, name);
    LookupReadsMap(v, name);
    RmDirSound(v, name);
    if i != NIL {
      EmptyInMap(v, i);
      RootPath(v.tree, i);
      if r.outcome == Done && i != v.tree.cwd {
        DetachedFiles(v, r.volume, i);
        DetachedOrderly(v, r.volume, i);
      }
    }
  }

  lemma RootPath(t: Tree, i: int)
    requires Forest(t) && Attached(t, i)
    ensures PathOf(t, i) == [] <==> i == t.root
  {
    assert EntryAt(t, i);
  }

  lemma CdRefines(v: Volume, path: cstring)
    requires Orderly(v)
    ensures var r, p := Cd(v, path), if path == [] then [] else Resolve(ViewOf(v).cwd, path);
            && Orderly(r.volume)
            && (r.outcome == Done <==> p in Files(v) && Files(v)[p] == Directory)
            && (r.outcome == Done ==> ViewOf(r.volume) == View(Files(v), p))
            && (r.outcome != Done ==> r.outcome == Failed && r.volume == v)
  {
    var r := Cd(v, path);
    LookupReadsMap(v, path);
    CdSound(v, path);
    if path != [] && Find(v.tree, path) != NIL { assert EntryAt(v.tree, Find(v.tree, path)); }
    assert Attached(v.tree, v.tree.root) && Descend(v.tree, v.tree.root, []) == v.tree.root;
    hide Descend, PathOf, Attached, Resolve, Find;
    SameNames(v, r.volume);
    SamePaths(v.tree, r.volume.tree);
  }

  // ---------------------------------------------------------------- reading back

  /** Reading a buffer after a write yields what was written, cut to 4095 bytes; behind its terminator the buffer is as it was. */
  lemma ReadBack(buf: seq<byte>, content: cstring)
    requires |buf| == MAX_FILE_SIZE
    ensures |Overwritten(buf, content)| == MAX_FILE_SIZE
    ensures Text(Overwritten(buf, content), 0) == content[..if |content| < MAX_FILE_SIZE then |content| else MAX_FILE_SIZE - 1]
    ensures |Cut(content)| == if |content| < 4096 then |content| else 4095
    ensures forall k | (if |content| < 4096 then |content| else 4095) < k < 4096 :: Overwritten(buf, content)[k] == buf[k]
  {
    TextIs(Overwritten(buf, content), 0, Cut(content));
  }
}
