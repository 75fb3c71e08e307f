/** Whole sessions on the filesystem: exactly which ones do to the files what the machine does, and what the heap has after them. */
module FileRuns {
  import opened Bytes
  import opened CStrings
  import opened FileTree
  import opened FileTreeEdits
  import opened FileOps
  import opened FileRefinement
  import opened FileMachine
  import H = HeapSpec

  // ---------------------------------------------------------------- refinement over runs

  ghost function After(v: Volume, ops: seq<Command>): (w: Volume)
    requires Sound(v) && forall op | op in ops :: WellFormed(op)
    ensures Sound(w)
  {
    if ops == [] then v
    else
      var n := |ops| - 1;
      var u := After(v, ops[..n]);
      PerformSound(u, ops[n]);
      Perform(u, ops[n]).volume
  }

  ghost function Outcomes(v: Volume, ops: seq<Command>): (r: seq<Outcome>)
    requires Sound(v) && forall op | op in ops :: WellFormed(op)
    ensures |r| == |ops|
  {
    if ops == [] then []
    else
      var n := |ops| - 1;
      Outcomes(v, ops[..n]) + [Perform(After(v, ops[..n]), ops[n]).outcome]
  }

  ghost function MachineAfter(m: Machine, ops: seq<Command>): (r: Machine)
    requires Formed(m) && forall op | op in ops :: WellFormed(op)
    ensures Formed(r)
  {
    if ops == [] then m
    else
      var n := |ops| - 1;
      Effect(MachineAfter(m, ops[..n]), ops[n])
  }

  /** The answers the machine gives: it decides from the map, the slots and the heap which operations succeed. */
  ghost function Expected(m: Machine, ops: seq<Command>): (r: seq<Outcome>)
    requires Formed(m) && forall op | op in ops :: WellFormed(op)
    ensures |r| == |ops|
  {
    if ops == [] then []
    else
      var n := |ops| - 1;
      Expected(m, ops[..n]) + [if Enabled(MachineAfter(m, ops[..n]), ops[n]) then Done else Failed]
  }

  ghost predicate GuardedRun(m: Machine, ops: seq<Command>)
    requires Formed(m) && forall op | op in ops :: WellFormed(op)
  {
    ops != [] ==>
      var n := |ops| - 1;
      GuardedRun(m, ops[..n]) && Guarded(MachineAfter(m, ops[..n]), ops[n])
  }

  /** The volume has answered and stands as the machine. */
  ghost predicate Refines(v: Volume, ops: seq<Command>)
    requires Orderly(v) && forall op | op in ops :: WellFormed(op)
  {
    OrderlyFormed(v);
    && Orderly(After(v, ops))
    && MachineOf(After(v, ops)) == MachineAfter(MachineOf(v), ops)
    && Outcomes(v, ops) == Expected(MachineOf(v), ops)
  }

  /** At every moment of the session. */
  ghost predicate RefinesThroughout(v: Volume, ops: seq<Command>)
    requires Orderly(v) && forall op | op in ops :: WellFormed(op)
  {
    Refines(v, ops) && (ops != [] ==> RefinesThroughout(v, ops[..|ops| - 1]))
  }

  lemma SameEnds<T>(a: seq<T>, x: T, b: seq<T>, y: T)
    requires a == b
    ensures a + [x] == b + [y] <==> x == y
  {
    assert (a + [x])[|a|] == x && (b + [y])[|b|] == y;
  }

  /** One more operation. */
  lemma StepRefinesIff(v: Volume, ops: seq<Command>, op: Command)
    requires Orderly(v) && (forall o | o in ops :: WellFormed(o)) && WellFormed(op) && Refines(v, ops)
    ensures Formed(MachineOf(v))
    ensures Refines(v, ops + [op]) <==> Guarded(MachineAfter(MachineOf(v), ops), op)
  {
    OrderlyFormed(v);
    var u, m, more := After(v, ops), MachineAfter(MachineOf(v), ops), ops + [op];
    assert more[..|ops|] == ops && more[|ops|] == op;
    PerformConformsIff(u, op);
    var r := Perform(u, op);
    assert After(v, more) == r.volume;
    assert MachineAfter(MachineOf(v), more) == Effect(m, op);
    assert Outcomes(v, more) == Outcomes(v, ops) + [r.outcome];
    var expected := if Enabled(m, op) then Done else Failed;
    assert Expected(MachineOf(v), more) == Expected(MachineOf(v), ops) + [expected];
    SameEnds(Outcomes(v, ops), r.outcome, Expected(MachineOf(v), ops), expected);
    hide Perform, Effect, Enabled, Guarded, Formed, Outcomes, Expected, After, MachineAfter, ViewOf;
  }

  lemma RefinesAtStart(v: Volume)
    requires Orderly(v)
    ensures Refines(v, []) && Formed(MachineOf(v)) && GuardedRun(MachineOf(v), [])
  {
    OrderlyFormed(v);
  }

  /** In every state of a session the files are what the machine says, and every answer is, exactly when each operation is guarded. */
  lemma {:induction false} RunRefinesIff(v: Volume, ops: seq<Command>)
    requires Orderly(v) && forall op | op in ops :: WellFormed(op)
    ensures Formed(MachineOf(v))
    ensures RefinesThroughout(v, ops) <==> GuardedRun(MachineOf(v), ops)
    decreases |ops|
  {
    hide Refines, Guarded, Orderly, Formed, MachineOf, MachineAfter, After, Outcomes, Expected, WellFormed;
    RefinesAtStart(v);
    if ops != [] {
      var front, op := ops[..|ops| - 1], ops[|ops| - 1];
      RunRefinesIff(v, front);
      if RefinesThroughout(v, front) {
        assert front + [op] == ops;
        StepRefinesIff(v, front, op);
      }
    }
  }

  lemma {:induction false} ExpectedNoFault(m: Machine, ops: seq<Command>)
    requires Formed(m) && forall op | op in ops :: WellFormed(op)
    ensures Fault !in Expected(m, ops)
    decreases |ops|
  {
    hide Enabled, Formed, Effect;
    if ops != [] { ExpectedNoFault(m, ops[..|ops| - 1]); }
  }

  /** No operation of a guarded session follows a null pointer. */
  lemma GuardedNoFault(v: Volume, ops: seq<Command>)
    requires Orderly(v) && (forall op | op in ops :: WellFormed(op)) && Formed(MachineOf(v)) && GuardedRun(MachineOf(v), ops)
    ensures Fault !in Outcomes(v, ops)
  {
    RunRefinesIff(v, ops);
    ExpectedNoFault(MachineOf(v), ops);
    hide Orderly, Formed, MachineOf, GuardedRun, Outcomes, Expected;
  }

  // ---------------------------------------------------------------- what is not named stays

  /** Every operation is about some other path, or only changes directory. */
  ghost predicate Elsewhere(m: Machine, ops: seq<Command>, p: Path)
    requires Formed(m) && forall op | op in ops :: WellFormed(op)
  {
    ops != [] ==>
      var n := |ops| - 1;
      Elsewhere(m, ops[..n], p) && (ops[n].CdOp? || Subject(MachineAfter(m, ops[..n]).view, ops[n]) != p)
  }

  ghost predicate SameAt(f: imap<Path, Object>, g: imap<Path, Object>, p: Path) {
    (p in f <==> p in g) && (p in f ==> f[p] == g[p])
  }

  lemma EffectElsewhere(m: Machine, op: Command, p: Path)
    requires Formed(m) && WellFormed(op) && (op.CdOp? || Subject(m.view, op) != p)
    ensures SameAt(m.view.files, Effect(m, op).view.files, p)
  {
    hide Resolve, Creates, H.Grants, H.Grant, H.Alloc, Text, Overwritten;
  }

  lemma {:induction false} RunElsewhere(m: Machine, ops: seq<Command>, p: Path)
    requires Formed(m) && (forall op | op in ops :: WellFormed(op)) && Elsewhere(m, ops, p)
    ensures SameAt(m.view.files, MachineAfter(m, ops).view.files, p)
    decreases |ops|
  {
    hide Effect, Formed;
    if ops != [] {
      var n := |ops| - 1;
      RunElsewhere(m, ops[..n], p);
      EffectElsewhere(MachineAfter(m, ops[..n]), ops[n], p);
    }
  }

  /** However long a guarded session goes on about other paths, the object at `p` stays as it is. */
  lemma UntouchedStays(v: Volume, ops: seq<Command>, p: Path)
    requires Orderly(v) && (forall op | op in ops :: WellFormed(op)) && Formed(MachineOf(v))
    requires GuardedRun(MachineOf(v), ops) && Elsewhere(MachineOf(v), ops, p)
    ensures Orderly(After(v, ops)) && SameAt(Files(v), Files(After(v, ops)), p)
  {
    RunRefinesIff(v, ops);
    RunElsewhere(MachineOf(v), ops, p);
  }

  /** A read returns the last successful write to the path, cut to 4095 bytes, and the size is its length. */
  lemma ReadReturnsLastWrite(v: Volume, name: cstring, content: cstring, junk: seq<byte>, ops: seq<Command>)
    requires Orderly(v) && |junk| == MAX_FILE_SIZE && Formed(MachineOf(v)) && forall op | op in ops :: WellFormed(op)
    requires var m, op := MachineOf(v), WriteOp(name, content, junk);
             && Guarded(m, op) && Enabled(m, op)
             && GuardedRun(Effect(m, op), ops) && Elsewhere(Effect(m, op), ops, Resolve(m.view.cwd, name))
    ensures Sound(WriteFile(v, name, content, junk).volume)
    ensures var w, p := After(WriteFile(v, name, content, junk).volume, ops), Resolve(ViewOf(v).cwd, name);
            && p in Files(w) && Files(w)[p].File?
            && Files(w)[p].size == (if |content| < MAX_FILE_SIZE then |content| else MAX_FILE_SIZE - 1)
            && |Files(w)[p].buffer| == MAX_FILE_SIZE
            && Text(Files(w)[p].buffer, 0) == content[..if |content| < MAX_FILE_SIZE then |content| else MAX_FILE_SIZE - 1]
  {
    var m, op, p := MachineOf(v), WriteOp(name, content, junk), Resolve(ViewOf(v).cwd, name);
    PerformConformsIff(v, op);
    assert Perform(v, op) == WriteFile(v, name, content, junk);
    ReadBack(if p in m.view.files then m.view.files[p].buffer else junk, content);
    hide WriteFile, Resolve, Orderly, Text, Guarded, GuardedRun, Elsewhere;
    UntouchedStays(Perform(v, op).volume, ops, p);
  }

  // ---------------------------------------------------------------- null pointers

  /**
   Writing follows a null pointer exactly when it finds a file without a buffer, or finds nothing and
   creates an entry that it then cannot find.
   */
  lemma WriteFaultIff(v: Volume, name: cstring, content: cstring, junk: seq<byte>)
    requires Sound(v) && |junk| == MAX_FILE_SIZE
    ensures WriteFile(v, name, content, junk).outcome == Fault <==>
              var t, i := v.tree, Find(v.tree, name);
              if i != NIL then t.entries[i].kind == FILE && t.entries[i].data == 0
              else
                && Find(t, Stripped(name)) == NIL && t.taken < MAX_ENTRIES && H.Grants(v.blocks, MAX_FILE_SIZE)
                && !OneShort(name)
  {
    hide H.Grants, H.Grant, H.Alloc, OneShort, Truncated;
    if Find(v.tree, name) != NIL {
      FoundBuffer(v, name);
    } else {
      var r := Touch(v, name, junk);
      TouchSound(v, name, junk);
      if r.outcome == Done {
        var data := r.volume.tree.entries[v.tree.taken].data;
        TargetDirIsDirectory(v.tree, name);
        H.AllocRefuses(v.blocks, MAX_FILE_SIZE);
        CreatedFoundIff(v.tree, name, FILE, data);
      }
    }
  }

  // ---------------------------------------------------------------- heap blocks

  /** One more slot has taken a block. */
  lemma OwnedGrows(v: Volume, w: Volume, c: int)
    requires |v.tree.entries| == |v.held| == |w.tree.entries| == |w.held| == MAX_ENTRIES && 0 <= c < MAX_ENTRIES
    requires forall i | 0 <= i < MAX_ENTRIES && i != c :: (Holds(w, i) <==> Holds(v, i)) && w.held[i] == v.held[i]
    requires !Holds(v, c) && Holds(w, c)
    ensures Owned(w) == Owned(v) + {w.held[c]}
  {
    forall b | b in Owned(v) ensures b in Owned(w) { var i :| 0 <= i < MAX_ENTRIES && Holds(v, i) && v.held[i] == b; assert Holds(w, i); }
    forall b | b in Owned(w) && b != w.held[c] ensures b in Owned(v) {
      var i :| 0 <= i < MAX_ENTRIES && Holds(w, i) && w.held[i] == b;
      assert Holds(v, i);
    }
  }

  lemma TouchForeign(v: Volume, name: cstring, junk: seq<byte>)
    requires Sound(v) && |junk| == MAX_FILE_SIZE && Sound(Touch(v, name, junk).volume)
    ensures Foreign(Touch(v, name, junk).volume) == Foreign(v)
  {
    var r := Touch(v, name, junk);
    TargetDirIsDirectory(v.tree, name);
    if r.outcome == Done {
      FilledSlotForeign(v, TargetDir(v.tree, name), Stripped(name), junk);
    } else if r.volume != v {
      EmptySlotForeign(v, Stripped(name));
    }
  }

  lemma EmptySlotForeign(v: Volume, name: cstring)
    requires Sound(v) && v.tree.taken < MAX_ENTRIES
    ensures Foreign(v.(tree := Created(v.tree, name, FILE, 0))) == Foreign(v)
  {
    SameOwned(v, v.(tree := Created(v.tree, name, FILE, 0)));
  }

  lemma FilledSlotForeign(v: Volume, p: nat, name: cstring, junk: seq<byte>)
    requires Sound(v) && p < v.tree.taken < MAX_ENTRIES && H.Grants(v.blocks, MAX_FILE_SIZE)
    ensures var a, c := H.Alloc(v.blocks, MAX_FILE_SIZE), v.tree.taken;
            var t := Added(v.tree, p, name, FILE, a.ptr);
            |t.entries| == MAX_ENTRIES &&
            Foreign(Volume(t, v.bufs[c := junk], a.blocks, v.held[c := H.Grant(v.blocks, MAX_FILE_SIZE)])) == Foreign(v)
  {
    var a, c, g := H.Alloc(v.blocks, MAX_FILE_SIZE), v.tree.taken, H.Grant(v.blocks, MAX_FILE_SIZE);
    H.AllocGrants(v.blocks, MAX_FILE_SIZE);
    var w := Volume(Added(v.tree, p, name, FILE, a.ptr), v.bufs[c := junk], a.blocks, v.held[c := g]);
    hide H.Alloc, H.Grant, H.Grants, H.UsedSet;
    OwnedGrows(v, w, c);
    forall b | b in Owned(v) ensures b in H.UsedSet(v.blocks) {
      var i :| 0 <= i < MAX_ENTRIES && Holds(v, i) && v.held[i] == b;
      assert BufferAt(v, i);
    }
  }

  lemma SameOwned(v: Volume, w: Volume)
    requires |v.tree.entries| == |v.held| == |w.tree.entries| == MAX_ENTRIES && w.held == v.held
    requires forall i | 0 <= i < MAX_ENTRIES :: Holds(w, i) <==> Holds(v, i)
    ensures Owned(w) == Owned(v)
    ensures w.blocks == v.blocks ==> Foreign(w) == Foreign(v)
  {
    forall b | b in Owned(v) ensures b in Owned(w) { var i :| 0 <= i < MAX_ENTRIES && Holds(v, i) && v.held[i] == b; assert Holds(w, i); }
    forall b | b in Owned(w) ensures b in Owned(v) { var i :| 0 <= i < MAX_ENTRIES && Holds(w, i) && w.held[i] == b; assert Holds(v, i); }
  }

  lemma RmForeign(v: Volume, name: cstring)
    requires Sound(v) && Sound(Rm(v, name).volume)
    ensures Foreign(Rm(v, name).volume) == Foreign(v)
  {
    var r, i := Rm(v, name), Find(v.tree, name);
    if r.outcome == Done {
      var w := r.volume;
      FoundFileListed(v.tree, name);
      RmBlocks(v, name);
      DetachedForest(v.tree, i);
      forall k | 0 <= k < MAX_ENTRIES ensures Holds(w, k) <==> Holds(v, k) && k != i {}
      if Holds(v, i) {
        forall b | b in Owned(v) ensures b in Owned(w) <==> b != v.held[i] {
          OwnedOnce(v, w, i, b);
        }
      }
      forall b | b in Owned(w) ensures b in Owned(v) { var k :| 0 <= k < MAX_ENTRIES && Holds(w, k) && w.held[k] == b; assert Holds(v, k); }
      if !Holds(v, i) { SameOwned(v, w); }
    }
  }

  lemma OwnedOnce(v: Volume, w: Volume, i: int, b: H.Block)
    requires Sound(v) && |w.tree.entries| == |w.held| == MAX_ENTRIES && w.held == v.held
    requires 0 <= i < MAX_ENTRIES && Holds(v, i) && b in Owned(v)
    requires forall k | 0 <= k < MAX_ENTRIES :: Holds(w, k) <==> Holds(v, k) && k != i
    ensures b in Owned(w) <==> b != v.held[i]
  {
    var k :| 0 <= k < MAX_ENTRIES && Holds(v, k) && v.held[k] == b;
    forall l | 0 <= l < MAX_ENTRIES && Holds(v, l) && l != i ensures v.held[l] != v.held[i] {
      assert if l < i then BuffersApart(v, l, i) else BuffersApart(v, i, l);
    }
    if k != i { assert Holds(w, k); }
  }

  lemma WriteFileForeign(v: Volume, name: cstring, content: cstring, junk: seq<byte>)
    requires Sound(v) && |junk| == MAX_FILE_SIZE && Sound(WriteFile(v, name, content, junk).volume)
    ensures Foreign(WriteFile(v, name, content, junk).volume) == Foreign(v)
  {
    hide WriteAt, Touch, Find, Foreign;
    var i := Find(v.tree, name);
    if i != NIL {
      FoundBuffer(v, name);
      WriteAtForeign(v, i, content);
    } else {
      var r := Touch(v, name, junk);
      TouchSound(v, name, junk);
      TouchForeign(v, name, junk);
      var j := Find(r.volume.tree, name);
      if r.outcome == Done && j != NIL {
        FoundBuffer(r.volume, name);
        WriteAtForeign(r.volume, j, content);
      }
    }
  }

  lemma WriteAtForeign(v: Volume, i: int, content: cstring)
    requires |v.tree.entries| == |v.bufs| == |v.held| == MAX_ENTRIES && 0 <= i < MAX_ENTRIES
    requires v.tree.entries[i].kind == FILE && v.tree.entries[i].data != 0 ==> |v.bufs[i]| == MAX_FILE_SIZE
    ensures Foreign(WriteAt(v, i, content).volume) == Foreign(v)
  {
    SameOwned(v, WriteAt(v, i, content).volume);
  }

  /** The filesystem owns one block for each file and touches no other client's. */
  lemma PerformForeign(v: Volume, op: Command)
    requires Sound(v) && WellFormed(op)
    ensures Sound(Perform(v, op).volume)
    ensures Foreign(Perform(v, op).volume) == Foreign(v)
  {
    PerformSound(v, op);
    hide MkDir, Touch, WriteFile, Rm, RmDir, Cp, Foreign;
    match op
    case MkDirOp(name) => MkDirForeign(v, name);
    case TouchOp(name, junk) => TouchForeign(v, name, junk);
    case WriteOp(name, content, junk) => WriteFileForeign(v, name, content, junk);
    case RmOp(name) => RmForeign(v, name);
    case RmDirOp(name) => RmDirForeign(v, name);
    case CpOp(src, dest, junk) => CpForeign(v, src, dest, junk);
    case CdOp(path) => SameOwned(v, Cd(v, path).volume);
  }

  lemma MkDirForeign(v: Volume, name: cstring)
    requires Sound(v)
    ensures Foreign(MkDir(v, name).volume) == Foreign(v)
  {
    if MkDir(v, name).outcome == Done {
      TargetDirIsDirectory(v.tree, name);
      SameOwned(v, MkDir(v, name).volume);
    }
  }

  lemma CpForeign(v: Volume, src: cstring, dest: cstring, junk: seq<byte>)
    requires Sound(v) && |junk| == MAX_FILE_SIZE && Sound(Cp(v, src, dest, junk).volume)
    ensures Foreign(Cp(v, src, dest, junk).volume) == Foreign(v)
  {
    hide WriteFile, Find, Foreign;
    if Cp(v, src, dest, junk).volume != v {
      WriteFileForeign(v, dest, Text(v.bufs[Find(v.tree, src)], 0), junk);
    }
  }

  lemma RmDirForeign(v: Volume, name: cstring)
    requires Sound(v) && Sound(RmDir(v, name).volume)
    ensures Foreign(RmDir(v, name).volume) == Foreign(v)
  {
    var r, i := RmDir(v, name), Find(v.tree, name);
    if r.outcome == Done {
      FoundHung(v.tree, name);
      assert BufferAt(v, i);
      DetachedForest(v.tree, i);
      SameOwned(v, r.volume);
    }
  }

  lemma {:induction false} RunForeign(v: Volume, ops: seq<Command>)
    requires Sound(v) && forall op | op in ops :: WellFormed(op)
    ensures Foreign(After(v, ops)) == Foreign(v)
    decreases |ops|
  {
    hide Perform;
    if ops != [] {
      var n := |ops| - 1;
      RunForeign(v, ops[..n]);
      PerformForeign(After(v, ops[..n]), ops[n]);
    }
  }

  /** A session that ends with no buffer held leaves the heap as it found it. */
  lemma BuffersGivenBack(v: Volume, ops: seq<Command>)
    requires Sound(v) && (forall op | op in ops :: WellFormed(op))
    requires Owned(v) == {} && Owned(After(v, ops)) == {}
    ensures After(v, ops).blocks == v.blocks
  {
    hide Perform;
    RunForeign(v, ops);
    var w := After(v, ops);
    assert Foreign(w) == H.UsedSet(w.blocks) && Foreign(v) == H.UsedSet(v.blocks);
    H.CanonicalForm(After(v, ops).blocks, v.blocks);
  }

  // ---------------------------------------------------------------- the directories made at the start

  function MkDirs(names: seq<cstring>): (ops: seq<Command>)
    ensures |ops| == |names| && forall op | op in ops :: WellFormed(op)
  {
    seq(|names|, i requires 0 <= i < |names| => MkDirOp(names[i]))
  }

  ghost function Grown(files: imap<Path, Object>, cwd: Path, names: seq<cstring>): imap<Path, Object> {
    if names == [] then files else Grown(files, cwd, names[..|names| - 1])[cwd + [names[|names| - 1]] := Directory]
  }

  lemma {:induction false} GrownHas(files: imap<Path, Object>, cwd: Path, names: seq<cstring>, x: cstring)
    requires x !in names
    ensures cwd + [x] in Grown(files, cwd, names) <==> cwd + [x] in files
    decreases |names|
  {
    if names != [] {
      var n := |names| - 1;
      GrownHas(files, cwd, names[..n], x);
      assert (cwd + [x])[|cwd|] == x && (cwd + [names[n]])[|cwd|] == names[n] && names[n] in names;
    }
  }

  /** Directories of these names have been made in the working directory of `v`, and nothing else. */
  ghost predicate Made(v: Volume, w: Volume, names: seq<cstring>)
    requires Sound(v)
  {
    && Orderly(w)
    && MachineOf(w) == Machine(View(Grown(Files(v), ViewOf(v).cwd, names), ViewOf(v).cwd), v.tree.taken + |names|, v.blocks)
  }

  lemma MadeMore(v: Volume, u: Volume, names: seq<cstring>, x: cstring)
    requires Sound(v) && Made(v, u, names) && x !in names && Simple(x)
    requires ViewOf(v).cwd + [x] !in Files(v) && v.tree.taken + |names| < MAX_ENTRIES
    ensures Made(v, MkDir(u, x).volume, names + [x])
  {
    hide MkDir, Orderly, Simple, Files, Sound;
    GrownHas(Files(v), ViewOf(v).cwd, names, x);
    SimpleMade(u, x);
    assert (names + [x])[..|names|] == names;
  }

  /** New directories of different simple names all come to be, as long as the table has room. */
  lemma {:induction false} MkDirsSucceed(v: Volume, names: seq<cstring>)
    requires Orderly(v) && v.tree.taken + |names| <= MAX_ENTRIES
    requires forall n | n in names :: Simple(n) && ViewOf(v).cwd + [n] !in Files(v)
    requires forall i, j | 0 <= i < j < |names| :: names[i] != names[j]
    ensures Made(v, After(v, MkDirs(names)), names)
    decreases |names|
  {
    assert Sound(v);
    hide MkDir, Orderly, Simple, Files, Sound, Made, After, MkDirs, Grown;
    if names == [] {
      MadeNone(v);
    } else {
      var n := |names| - 1;
      var front, x := names[..n], names[n];
      assert front + [x] == names;
      MkDirsSucceed(v, front);
      AfterOneMore(v, front, x);
      MadeMore(v, After(v, MkDirs(front)), front, x);
    }
  }

  lemma MadeNone(v: Volume)
    requires Orderly(v)
    ensures Made(v, After(v, MkDirs([])), [])
  {
    AfterNone(v);
  }

  lemma AfterNone(v: Volume)
    requires Sound(v)
    ensures After(v, MkDirs([])) == v
  {
  }

  lemma AfterOneMore(v: Volume, names: seq<cstring>, x: cstring)
    requires Sound(v)
    ensures Sound(After(v, MkDirs(names))) && After(v, MkDirs(names + [x])) == MkDir(After(v, MkDirs(names)), x).volume
  {
    assert MkDirs(names + [x])[..|names|] == MkDirs(names);
  }

  const BIN: cstring := [98, 105, 110]
  const HOME: cstring := [104, 111, 109, 101]
  const ETC: cstring := [101, 116, 99]
  const TMP: cstring := [116, 109, 112]

  const DEFAULTS: seq<cstring> := [BIN, HOME, ETC, TMP]

  lemma DefaultsSimple()
    ensures forall n | n in DEFAULTS :: Simple(n)
    ensures forall i, j | 0 <= i < j < |DEFAULTS| :: DEFAULTS[i] != DEFAULTS[j]
  {
    assert BIN[0] == 98 && HOME[0] == 104 && ETC[0] == 101 && TMP[0] == 116;
  }

  lemma GrownDefaults(files: imap<Path, Object>)
    ensures Grown(files, [], DEFAULTS) ==
            files[[BIN] := Directory][[HOME] := Directory][[ETC] := Directory][[TMP] := Directory]
  {
    var three, two, one := DEFAULTS[..3], DEFAULTS[..2], DEFAULTS[..1];
    assert three[..2] == two && two[..1] == one && one[..0] == [];
    var root: Path := [];
    assert forall n: cstring :: root + [n] == [n];
    assert Grown(files, [], one) == files[[BIN] := Directory];
    assert Grown(files, [], two) == files[[BIN] := Directory][[HOME] := Directory];
    assert Grown(files, [], three) == files[[BIN] := Directory][[HOME] := Directory][[ETC] := Directory];
  }

  ghost function StartView(): View {
    View(imap[[] := Directory][[BIN] := Directory][[HOME] := Directory][[ETC] := Directory][[TMP] := Directory], [])
  }

  /** The start of every session: four empty directories below the root. */
  lemma InitialDirectories(blocks: seq<H.Block>)
    requires H.Canonical(blocks)
    ensures Sound(Fresh(blocks))
    ensures var w := After(Fresh(blocks), MkDirs(DEFAULTS));
            && Orderly(w) && w.tree.taken == 5 && w.blocks == blocks
            && ViewOf(w) == StartView()
  {
    FreshOrderly(blocks);
    DefaultsSimple();
    GrownDefaults(imap[[] := Directory]);
    hide Simple, Orderly, Grown, After, Files;
    MkDirsSucceed(Fresh(blocks), DEFAULTS);
  }

  // ---------------------------------------------------------------- what goes wrong from there

  const VERSION: cstring := [118, 101, 114, 115, 105, 111, 110]

  const ETC_VERSION: cstring := [SLASH] + ETC + [SLASH] + VERSION

  lemma EtcVersionFaults(v: Volume, content: cstring, junk: seq<byte>)
    requires Orderly(v) && ViewOf(v) == StartView() && v.tree.taken == 5
    requires H.Grants(v.blocks, MAX_FILE_SIZE) && |junk| == MAX_FILE_SIZE
    ensures WriteFile(v, ETC_VERSION, content, junk).outcome == Fault
  {
    EtcVersionMeans();
    LookupReadsMap(v, ETC_VERSION);
    LookupReadsMap(v, Stripped(ETC_VERSION));
    WriteFaultIff(v, ETC_VERSION, content, junk);
    var p: Path := [ETC, VERSION];
    assert |p| == 2 && p !in StartView().files;
    hide Resolve, Find, Orderly, OneShort, WriteFile, Stripped, Files, H.Grants;
  }

  /** The first write of all: "/etc/version" is created as an entry called "etc/version", which no path finds. */
  lemma FirstWriteFaults(blocks: seq<H.Block>, content: cstring, junk: seq<byte>)
    requires H.Canonical(blocks) && H.Grants(blocks, MAX_FILE_SIZE) && |junk| == MAX_FILE_SIZE
    ensures Sound(Fresh(blocks))
    ensures WriteFile(After(Fresh(blocks), MkDirs(DEFAULTS)), ETC_VERSION, content, junk).outcome == Fault
  {
    InitialDirectories(blocks);
    hide After, MkDirs, WriteFile, Orderly, H.Grants;
    EtcVersionFaults(After(Fresh(blocks), MkDirs(DEFAULTS)), content, junk);
  }

  const NEW: cstring := [110]

  /** Once in /home, "/bin" can be made again. */
  lemma SecondBin(v: Volume)
    requires Orderly(v) && ViewOf(v) == StartView() && v.tree.taken == 5
    ensures Cd(v, HOME).outcome == Done && Orderly(Cd(v, HOME).volume)
    ensures var r := MkDir(Cd(v, HOME).volume, Absolute(BIN));
            r.outcome == Done && Sound(r.volume) && !UniqueNames(r.volume.tree)
  {
    var at: Path := [HOME];
    assert |at + [BIN]| == 2 && at + [BIN] !in StartView().files;
    assert [BIN] in StartView().files;
    assert Simple(BIN) by { DefaultsSimple(); }
    hide Cd, MkDir, Orderly, Simple, StartView;
    InHome(v);
    AbsoluteDuplicate(Cd(v, HOME).volume, BIN);
  }

  lemma InHome(v: Volume)
    requires Orderly(v) && ViewOf(v) == StartView() && v.tree.taken == 5
    ensures var r := Cd(v, HOME);
            && r.outcome == Done && Orderly(r.volume) && r.volume.tree.taken == 5
            && ViewOf(r.volume) == View(StartView().files, [HOME])
  {
    var root: Path := [];
    assert root + [HOME] == [HOME] && HOME != [];
    assert IsDirectory(StartView(), [HOME]);
    assert Cd(v, HOME).volume.tree.taken == v.tree.taken;
    assert Simple(HOME) by { DefaultsSimple(); }
    hide Orderly, Simple, Resolve, StartView, Cd;
    SimpleMeans([], HOME);
    CdRefines(v, HOME);
  }

  /** Once in /home, "." can be removed, and the working directory is in the tree no more. */
  lemma CwdRemoved(v: Volume)
    requires Orderly(v) && ViewOf(v) == StartView() && v.tree.taken == 5
    ensures Cd(v, HOME).outcome == Done && Orderly(Cd(v, HOME).volume)
    ensures var r := RmDir(Cd(v, HOME).volume, [DOT]);
            r.outcome == Done && Sound(r.volume) && !Attached(r.volume.tree, r.volume.tree.cwd)
  {
    var at: Path := [HOME];
    forall x: seq<byte> ensures at + [x] !in StartView().files { assert |at + [x]| == 2; }
    hide Cd, RmDir, Orderly, StartView, Attached;
    InHome(v);
    DotRemoved(Cd(v, HOME).volume);
  }

  /** And with an n in /home, "/n" cannot be made although nothing is there. */
  lemma RefusedThoughFree(v: Volume)
    requires Orderly(v) && ViewOf(v) == StartView() && v.tree.taken == 5
    ensures Cd(v, HOME).outcome == Done && Orderly(Cd(v, HOME).volume)
    ensures var u := MkDir(Cd(v, HOME).volume, NEW);
            && u.outcome == Done && Orderly(u.volume) && [NEW] !in Files(u.volume) && u.volume.tree.taken == 6
            && MkDir(u.volume, Absolute(NEW)) == Result(u.volume, Failed)
  {
    InHome(v);
    NewInHome(Cd(v, HOME).volume);
    hide Cd, MkDir, Orderly, Simple;
    AbsoluteRefused(MkDir(Cd(v, HOME).volume, NEW).volume, NEW);
  }

  lemma NewInHome(w: Volume)
    requires Orderly(w) && ViewOf(w) == View(StartView().files, [HOME]) && w.tree.taken == 5
    ensures Simple(NEW)
    ensures var u := MkDir(w, NEW);
            && u.outcome == Done && Orderly(u.volume) && u.volume.tree.taken == 6 && ViewOf(u.volume).cwd == [HOME]
            && [NEW] !in Files(u.volume) && [HOME] + [NEW] in Files(u.volume)
  {
    assert NEW[0] == 110 && |NEW| == 1;
    assert Simple(NEW);
    var at: Path := [HOME];
    assert |at + [NEW]| == 2 && |at| == 1 && |[NEW]| == 1;
    assert at + [NEW] !in StartView().files;
    assert [NEW] !in StartView().files by { assert NEW[0] != HOME[0] && NEW[0] != BIN[0] && NEW[0] != ETC[0] && NEW[0] != TMP[0]; }
    hide Orderly, Simple, MkDir, StartView;
    SimpleMade(w, NEW);
  }

  lemma EtcVersionMeans()
    ensures var name := ETC_VERSION;
            && Resolve([], name) == [ETC, VERSION] && Resolve([], Stripped(name)) == [ETC, VERSION]
            && !OneShort(name)
  {
    assert Component(ETC) && Component(VERSION);
    assert ETC[0] == 101;
    TwoComponents(ETC, VERSION, ETC_VERSION);
  }

  /** A path of two components, and the same without its leading slash. */
  lemma TwoComponents(a: seq<byte>, b: seq<byte>, name: cstring)
    requires Component(a) && Component(b) && name == [SLASH] + a + [SLASH] + b
    ensures Resolve([], name) == [a, b] && Resolve([], Stripped(name)) == [a, b]
    ensures !OneShort(name)
  {
    hide Split, Resolve, Stripped, OneShort;
    SplitTwo(a, b, name);
    assert name[1] == a[0] && a[0] in a;
    LongPath(name, [a, b]);
  }

  lemma LongPath(name: cstring, ns: Path)
    requires |name| >= 4 && name[0] == SLASH && name[1] != SLASH && Split(name[1..], [SLASH]) == ns && |ns| == 2
    ensures Resolve([], name) == ns && Resolve([], Stripped(name)) == ns && !OneShort(name)
  {
    hide Split;
    var none: Path := [];
    assert none + ns == ns;
    assert Stripped(name) == name[1..];
  }

  lemma SplitTwo(a: seq<byte>, b: seq<byte>, name: seq<byte>)
    requires Component(a) && Component(b) && name == [SLASH] + a + [SLASH] + b
    ensures Split(name[1..], [SLASH]) == [a, b]
  {
    JoinTwo(a, b);
    var ns := [a, b];
    assert forall n | n in ns :: Component(n);
    hide Split, Join, Component;
    SplitJoin(ns);
    SplitSkip(name, [SLASH]);
  }

  lemma JoinTwo(a: seq<byte>, b: seq<byte>)
    ensures Join([a, b]) == [SLASH] + a + [SLASH] + b
  {
    var ns := [a, b];
    assert ns[1..] == [b] && [b][1..] == [];
    assert Join([b]) == [SLASH] + b + Join([]);
    assert [SLASH] + b + [] == [SLASH] + b;
    assert Join(ns) == [SLASH] + a + Join([b]);
  }
}
