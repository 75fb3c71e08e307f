/**
 What a client may expect of the filesystem: a machine on the map from paths to objects, the number of
 table slots taken and the heap. For each operation, exactly when the links in the table keep to it.
 */
module FileMachine {
  import opened Bytes
  import opened CStrings
  import opened FileTree
  import opened FileTreeEdits
  import opened FileOps
  import opened FileRefinement
  import H = HeapSpec
  import opened HeapSpec

  datatype Machine = Machine(view: View, taken: int, blocks: seq<Block>)

  ghost function MachineOf(v: Volume): Machine
    requires Sound(v)
  {
    Machine(ViewOf(v), v.tree.taken, v.blocks)
  }

  /** Every file has a full buffer. */
  ghost predicate Formed(m: Machine) {
    forall p | p in m.view.files && m.view.files[p].File? :: |m.view.files[p].buffer| == MAX_FILE_SIZE
  }

  lemma OrderlyFormed(v: Volume)
    requires Orderly(v)
    ensures Formed(MachineOf(v))
  {
    forall p | p in Files(v) && Files(v)[p].File? ensures |Files(v)[p].buffer| == MAX_FILE_SIZE {
      var t := v.tree;
      var i := Descend(t, t.root, p);
      DescendSound(t, t.root, p);
      assert EntryAt(t, i) && BackedAt(v, i) && BufferAt(v, i);
      KidsInTable(t, t.entries[i].parent);
    }
  }

  // ---------------------------------------------------------------- the machine

  predicate HasSlot(m: Machine) {
    m.taken < MAX_ENTRIES
  }

  predicate HasMemory(m: Machine) {
    Grants(m.blocks, MAX_FILE_SIZE)
  }

  /** The path an operation is about. */
  ghost function Subject(a: View, op: Command): Path {
    match op
    case MkDirOp(name) => Resolve(a.cwd, name)
    case TouchOp(name, _) => Resolve(a.cwd, name)
    case WriteOp(name, _, _) => Resolve(a.cwd, name)
    case RmOp(name) => Resolve(a.cwd, name)
    case RmDirOp(name) => Resolve(a.cwd, name)
    case CpOp(_, dest, _) => Resolve(a.cwd, dest)
    case CdOp(path) => if path == [] then [] else Resolve(a.cwd, path)
  }

  ghost predicate IsFile(a: View, p: Path) {
    p in a.files && a.files[p].File?
  }

  ghost predicate IsDirectory(a: View, p: Path) {
    p in a.files && a.files[p] == Directory
  }

  /** Nothing is at `p`, and there is a directory it would go into. */
  ghost predicate Creatable(a: View, p: Path) {
    p !in a.files && p != [] && IsDirectory(a, p[..|p| - 1])
  }

  /** What the map must look like for an operation to succeed. */
  ghost predicate Allows(a: View, op: Command) {
    var p := Subject(a, op);
    match op
    case MkDirOp(_) => Creatable(a, p)
    case TouchOp(_, _) => Creatable(a, p)
    case WriteOp(_, _, _) => IsFile(a, p) || Creatable(a, p)
    case RmOp(_) => IsFile(a, p)
    case RmDirOp(_) => p != [] && IsDirectory(a, p) && forall x :: p + [x] !in a.files
    case CpOp(src, _, _) => IsFile(a, Resolve(a.cwd, src)) && (IsFile(a, p) || Creatable(a, p))
    case CdOp(_) => IsDirectory(a, p)
  }

  ghost predicate Creates(a: View, op: Command) {
    Allows(a, op) && (op.MkDirOp? || op.TouchOp? || op.WriteOp? || op.CpOp?) && Subject(a, op) !in a.files
  }

  /** An operation succeeds when the map allows it and what it creates finds a slot and memory. */
  ghost predicate Enabled(m: Machine, op: Command) {
    Allows(m.view, op) && (Creates(m.view, op) ==> HasSlot(m) && (op.MkDirOp? || HasMemory(m)))
  }

  function WithObject(m: Machine, p: Path, o: Object): Machine {
    m.(view := View(m.view.files[p := o], m.view.cwd))
  }

  function WithoutObject(m: Machine, p: Path): Machine {
    m.(view := View(m.view.files - {p}, m.view.cwd))
  }

  /** A new file in a slot and a heap block of its own. */
  function WithNewFile(m: Machine, p: Path, size: int, buffer: seq<byte>): Machine
    requires HasMemory(m)
  {
    Machine(View(m.view.files[p := File(size, buffer, Grant(m.blocks, MAX_FILE_SIZE))], m.view.cwd),
            m.taken + 1, H.Alloc(m.blocks, MAX_FILE_SIZE).blocks)
  }

  function WithContent(m: Machine, p: Path, content: cstring, junk: seq<byte>): Machine
    requires Formed(m) && |junk| == MAX_FILE_SIZE
    requires if p in m.view.files then m.view.files[p].File? else HasMemory(m)
  {
    if p in m.view.files then
      var o := m.view.files[p];
      WithObject(m, p, File(|Cut(content)|, Overwritten(o.buffer, content), o.home))
    else WithNewFile(m, p, |Cut(content)|, Overwritten(junk, content))
  }

  ghost function Changed(m: Machine, op: Command): Machine
    requires Formed(m) && WellFormed(op) && Enabled(m, op)
  {
    var p := Subject(m.view, op);
    match op
    case MkDirOp(_) => WithObject(m, p, Directory).(taken := m.taken + 1)
    case TouchOp(_, junk) => WithNewFile(m, p, 0, junk)
    case WriteOp(_, content, junk) => WithContent(m, p, content, junk)
    case RmOp(_) => WithoutObject(m, p).(blocks := H.Free(m.blocks, m.view.files[p].home.Ptr()))
    case RmDirOp(_) => WithoutObject(m, p)
    case CpOp(src, _, junk) => WithContent(m, p, Text(m.view.files[Resolve(m.view.cwd, src)].buffer, 0), junk)
    case CdOp(_) => m.(view := View(m.view.files, p))
  }

  /** A failed operation changes nothing, but a file for which there is no memory still costs its slot. */
  ghost function Effect(m: Machine, op: Command): (r: Machine)
    requires Formed(m) && WellFormed(op)
    ensures Formed(r)
  {
    if Enabled(m, op) then Changed(m, op)
    else if Creates(m.view, op) && !op.MkDirOp? && HasSlot(m) then m.(taken := m.taken + 1)
    else m
  }

  /** The volume does what the machine does, and stays orderly. */
  ghost predicate Conforms(v: Volume, op: Command)
    requires Orderly(v) && WellFormed(op)
  {
    OrderlyFormed(v);
    var r := Perform(v, op);
    && Orderly(r.volume)
    && r.outcome == (if Enabled(MachineOf(v), op) then Done else Failed)
    && MachineOf(r.volume) == Effect(MachineOf(v), op)
  }

  // ---------------------------------------------------------------- the names that may be used

  /**
   A creation looks for the name without its leading slash, from the working directory, and makes an entry
   of the whole name: so the one must be found just when the other may not be made, and what is made must be
   one short component.
   */
  ghost predicate GuardedCreation(m: Machine, name: cstring, memory: bool) {
    var found := Resolve(m.view.cwd, Stripped(name)) in m.view.files;
    HasSlot(m) ==>
      && (found <==> !Creatable(m.view, Resolve(m.view.cwd, name)))
      && (!found && memory ==> OneShort(name))
  }

  /** What a caller has to see to, and can see in the map: nothing else is asked. */
  ghost predicate Guarded(m: Machine, op: Command) {
    match op
    case MkDirOp(name) => GuardedCreation(m, name, true)
    case TouchOp(name, _) => GuardedCreation(m, name, HasMemory(m))
    case WriteOp(name, _, _) => Subject(m.view, op) in m.view.files || GuardedCreation(m, name, HasMemory(m))
    case RmOp(_) => true
    case RmDirOp(_) => Allows(m.view, op) ==> Subject(m.view, op) != m.view.cwd
    case CpOp(src, dest, _) =>
      || !IsFile(m.view, Resolve(m.view.cwd, src))
      || Subject(m.view, op) in m.view.files
      || GuardedCreation(m, dest, HasMemory(m))
    case CdOp(_) => true
  }

  lemma SimpleMeans(cwd: Path, name: cstring)
    requires Simple(name)
    ensures Stripped(name) == name && Resolve(cwd, name) == cwd + [name] && OneShort(name)
  {
    SplitComponent(name);
    assert name[0] in name;
  }

  /** A simple name in the working directory is always safe to create. */
  lemma SimpleGuarded(v: Volume, name: cstring, memory: bool)
    requires Orderly(v) && Simple(name)
    ensures GuardedCreation(MachineOf(v), name, memory)
  {
    var cwd := ViewOf(v).cwd;
    SimpleMeans(cwd, name);
    DescendComplete(v.tree, v.tree.cwd);
    assert (cwd + [name])[..|cwd|] == cwd;
    hide Simple, Stripped, OneShort, Resolve, Orderly, PathOf;
  }

  // ---------------------------------------------------------------- creations

  lemma CreationCases(v: Volume, name: cstring)
    requires Orderly(v)
    ensures var p, free := Resolve(ViewOf(v).cwd, name), Find(v.tree, Stripped(name)) == NIL;
            && (free <==> Resolve(ViewOf(v).cwd, Stripped(name)) !in Files(v))
            && (free && OneShort(name) && p !in Files(v) ==> Creatable(ViewOf(v), p))
  {
    LookupReadsMap(v, Stripped(name));
    var p := Resolve(ViewOf(v).cwd, name);
    if Find(v.tree, Stripped(name)) == NIL && OneShort(name) && p !in Files(v) {
      FreeChild(v, name);
      var d := TargetDir(v.tree, name);
      TargetDirIsDirectory(v.tree, name);
      TargetAttached(v, name);
      DescendComplete(v.tree, d);
      assert p[..|p| - 1] == PathOf(v.tree, d);
    }
  }

  lemma MkDirExpected(m: Machine, name: cstring)
    requires Formed(m)
    ensures var p, op := Resolve(m.view.cwd, name), MkDirOp(name);
            && (Enabled(m, op) <==> Creatable(m.view, p) && HasSlot(m))
            && (Guarded(m, op) <==> GuardedCreation(m, name, true))
            && Effect(m, op) == if Enabled(m, op) then WithObject(m, p, Directory).(taken := m.taken + 1) else m
  {
    hide Resolve, Grants, GuardedCreation;
  }

  /** What a mkdir does, by the path it makes an entry of. */
  lemma MkDirCases(v: Volume, name: cstring)
    requires Orderly(v)
    ensures var r, m, p := MkDir(v, name), MachineOf(v), Resolve(ViewOf(v).cwd, name);
            && Sound(r.volume)
            && (r.outcome == Done <==> Find(v.tree, Stripped(name)) == NIL && HasSlot(m))
            && (r.outcome != Done ==> r.outcome == Failed && r.volume == v)
            && (r.outcome == Done ==> r.volume.tree.taken == m.taken + 1)
            && (r.outcome == Done && p !in Files(v) && OneShort(name) ==>
                  Orderly(r.volume) && MachineOf(r.volume) == WithObject(m, p, Directory).(taken := m.taken + 1))
            && (r.outcome == Done && p !in Files(v) && !OneShort(name) ==> p !in Files(r.volume))
  {
    var r, p := MkDir(v, name), Resolve(ViewOf(v).cwd, name);
    MkDirSound(v, name);
    if r.outcome == Done { TargetDirIsDirectory(v.tree, name); }
    hide Find, Resolve, Files, Orderly, OneShort;
    if r.outcome == Done && p !in Files(v) {
      if OneShort(name) {
        AddedFiles(v, r.volume, name, DIRECTORY, 0);
        AddedOrderly(v, r.volume, name, DIRECTORY, 0);
      } else {
        AddedMissesPath(v, r.volume, name, DIRECTORY, 0);
      }
    }
  }

  lemma MkDirConformsIff(v: Volume, name: cstring)
    requires Orderly(v)
    ensures Conforms(v, MkDirOp(name)) <==> Guarded(MachineOf(v), MkDirOp(name))
  {
    CreationCases(v, name);
    OrderlyFormed(v);
    MkDirCases(v, name);
    MkDirExpected(MachineOf(v), name);
    hide Find, Resolve, Files, Orderly, OneShort, Creatable, Enabled, Effect, Formed, Guarded, MkDir, Stripped, Sound;
  }

  /** What a touch does, by the path it makes an entry of. */
  lemma TouchCases(v: Volume, name: cstring, junk: seq<byte>)
    requires Orderly(v) && |junk| == MAX_FILE_SIZE
    ensures var r, m, p := Touch(v, name, junk), MachineOf(v), Resolve(ViewOf(v).cwd, name);
            && Sound(r.volume)
            && (r.outcome == Done <==> Find(v.tree, Stripped(name)) == NIL && HasSlot(m) && HasMemory(m))
            && (r.outcome != Done ==> r.outcome == Failed && Orderly(r.volume))
            && (r.outcome != Done ==>
                  MachineOf(r.volume) ==
                    if Find(v.tree, Stripped(name)) == NIL && HasSlot(m) then m.(taken := m.taken + 1) else m)
            && (r.outcome == Done ==> r.volume.tree.taken == m.taken + 1)
  {
    var r := Touch(v, name, junk);
    TouchSound(v, name, junk);
    if r.outcome == Done {
      TargetDirIsDirectory(v.tree, name);
    } else if r.volume != v {
      OrphanInvisible(v, r.volume, name);
    }
  }

  lemma TouchedVolume(v: Volume, name: cstring, junk: seq<byte>)
    requires Orderly(v) && |junk| == MAX_FILE_SIZE
    requires Touch(v, name, junk).outcome == Done && Sound(Touch(v, name, junk).volume)
    ensures var w, c := Touch(v, name, junk).volume, v.tree.taken;
            && c < MAX_ENTRIES && HasMemory(MachineOf(v)) && w.tree.taken == c + 1
            && 0 <= TargetDir(v.tree, name) < c && w.tree.entries[c].data != 0
            && w.tree == Added(v.tree, TargetDir(v.tree, name), Stripped(name), FILE, w.tree.entries[c].data)
            && w.blocks == H.Alloc(v.blocks, MAX_FILE_SIZE).blocks
            && (forall i | 0 <= i < c :: w.bufs[i] == v.bufs[i] && w.held[i] == v.held[i])
            && ObjectAt(w, c) == File(0, junk, Grant(v.blocks, MAX_FILE_SIZE))
  {
    AllocRefuses(v.blocks, MAX_FILE_SIZE);
    TargetDirIsDirectory(v.tree, name);
    hide Find, Orderly, Grants, Grant, H.Alloc;
  }

  lemma TouchedMachine(v: Volume, name: cstring, junk: seq<byte>)
    requires Orderly(v) && |junk| == MAX_FILE_SIZE && Resolve(ViewOf(v).cwd, name) !in Files(v)
    requires Touch(v, name, junk).outcome == Done && Sound(Touch(v, name, junk).volume)
    ensures var w, m, p := Touch(v, name, junk).volume, MachineOf(v), Resolve(ViewOf(v).cwd, name);
            && HasMemory(m)
            && (OneShort(name) ==> Orderly(w) && MachineOf(w) == WithNewFile(m, p, 0, junk))
            && (!OneShort(name) ==> p !in Files(w))
  {
    var w := Touch(v, name, junk).volume;
    TouchedVolume(v, name, junk);
    assert Find(v.tree, Stripped(name)) == NIL;
    var data := w.tree.entries[v.tree.taken].data;
    hide Touch, Added, Find, Resolve, Files, Orderly, OneShort, Grants, Grant, H.Alloc, ObjectAt, TargetDir, Stripped;
    if OneShort(name) {
      AddedFiles(v, w, name, FILE, data);
      AddedOrderly(v, w, name, FILE, data);
    } else {
      AddedMissesPath(v, w, name, FILE, data);
    }
  }

  lemma TouchExpected(m: Machine, name: cstring, junk: seq<byte>)
    requires Formed(m) && |junk| == MAX_FILE_SIZE
    ensures var p, op := Resolve(m.view.cwd, name), TouchOp(name, junk);
            && (Enabled(m, op) <==> Creatable(m.view, p) && HasSlot(m) && HasMemory(m))
            && (Guarded(m, op) <==> GuardedCreation(m, name, HasMemory(m)))
            && Effect(m, op) ==
                 if Enabled(m, op) then WithNewFile(m, p, 0, junk)
                 else if Creatable(m.view, p) && HasSlot(m) then m.(taken := m.taken + 1) else m
  {
    hide Resolve, Grants, Grant, H.Alloc, GuardedCreation;
  }

  lemma TouchConformsIff(v: Volume, name: cstring, junk: seq<byte>)
    requires Orderly(v) && |junk| == MAX_FILE_SIZE
    ensures Conforms(v, TouchOp(name, junk)) <==> Guarded(MachineOf(v), TouchOp(name, junk))
  {
    CreationCases(v, name);
    TouchCases(v, name, junk);
    OrderlyFormed(v);
    TouchExpected(MachineOf(v), name, junk);
    var p := Resolve(ViewOf(v).cwd, name);
    hide Find, Resolve, Files, Orderly, OneShort, Grants, Grant, H.Alloc, Touch, Enabled, Effect, Formed, Guarded, Creatable, Stripped, Sound;
    if Touch(v, name, junk).outcome == Done && p !in Files(v) { TouchedMachine(v, name, junk); }
  }

  // ---------------------------------------------------------------- writes

  lemma OverwriteConforms(v: Volume, name: cstring, content: cstring, junk: seq<byte>)
    requires Orderly(v) && |junk| == MAX_FILE_SIZE && Find(v.tree, name) != NIL
    ensures Conforms(v, WriteOp(name, content, junk))
  {
    var i := Find(v.tree, name);
    LookupReadsMap(v, name);
    OrderlyFormed(v);
    assert EntryAt(v.tree, i);
    if v.tree.entries[i].kind == FILE { WriteRefines(v, i, content); }
  }

  /** Writing to a path where nothing is does what a touch does, and then writes. */
  lemma CreatedThenWritten(v: Volume, name: cstring, content: cstring, junk: seq<byte>)
    requires Orderly(v) && |junk| == MAX_FILE_SIZE && Find(v.tree, name) == NIL
    requires Resolve(ViewOf(v).cwd, name) !in Files(v) && Touch(v, name, junk).outcome == Done
    requires Sound(Touch(v, name, junk).volume)
    ensures var r, m, p := WriteFile(v, name, content, junk), MachineOf(v), Resolve(ViewOf(v).cwd, name);
            if OneShort(name) then
              && r.outcome == Done && Orderly(r.volume) && HasMemory(m)
              && MachineOf(r.volume) == WithNewFile(m, p, |Cut(content)|, Overwritten(junk, content))
            else r.outcome == Fault
  {
    var w, p := Touch(v, name, junk).volume, Resolve(ViewOf(v).cwd, name);
    var data := w.tree.entries[v.tree.taken].data;
    TargetDirIsDirectory(v.tree, name);
    CreatedFoundIff(v.tree, name, FILE, data);
    TouchedMachine(v, name, junk);
    if OneShort(name) {
      LookupReadsMap(w, name);
      WriteRefines(w, v.tree.taken, content);
      WrittenMachine(v, w, v.tree.taken, p, content, junk);
    }
  }

  lemma WrittenMachine(v: Volume, w: Volume, i: int, p: Path, content: cstring, junk: seq<byte>)
    requires Orderly(v) && Orderly(w) && |junk| == MAX_FILE_SIZE && HasMemory(MachineOf(v)) && 0 <= i < w.tree.taken
    requires MachineOf(w) == WithNewFile(MachineOf(v), p, 0, junk) && Files(w)[p] == ObjectAt(w, i)
    requires w.tree.entries[i].kind == FILE && w.tree.entries[i].data != 0 && |w.bufs[i]| == MAX_FILE_SIZE
    requires Sound(WriteAt(w, i, content).volume)
    requires ViewOf(WriteAt(w, i, content).volume) == View(Files(w)[p := File(|Cut(content)|, Overwritten(w.bufs[i], content), w.held[i])], ViewOf(w).cwd)
    ensures MachineOf(WriteAt(w, i, content).volume) == WithNewFile(MachineOf(v), p, |Cut(content)|, Overwritten(junk, content))
  {
    hide Orderly, Files, Sound, Grants, Grant, H.Alloc;
  }

  lemma CreationExpected(m: Machine, name: cstring, content: cstring, junk: seq<byte>)
    requires Formed(m) && |junk| == MAX_FILE_SIZE && Resolve(m.view.cwd, name) !in m.view.files
    ensures var p, op := Resolve(m.view.cwd, name), WriteOp(name, content, junk);
            && (Enabled(m, op) <==> Creatable(m.view, p) && HasSlot(m) && HasMemory(m))
            && (Guarded(m, op) <==> GuardedCreation(m, name, HasMemory(m)))
            && Effect(m, op) ==
                 if Enabled(m, op) then WithNewFile(m, p, |Cut(content)|, Overwritten(junk, content))
                 else if Creatable(m.view, p) && HasSlot(m) then m.(taken := m.taken + 1) else m
  {
    hide Resolve, Grants, Grant, H.Alloc;
  }

  lemma CreateConformsIff(v: Volume, name: cstring, content: cstring, junk: seq<byte>)
    requires Orderly(v) && |junk| == MAX_FILE_SIZE && Find(v.tree, name) == NIL && Resolve(ViewOf(v).cwd, name) !in Files(v)
    ensures Conforms(v, WriteOp(name, content, junk)) <==> Guarded(MachineOf(v), WriteOp(name, content, junk))
  {
    CreationCases(v, name);
    TouchCases(v, name, junk);
    OrderlyFormed(v);
    CreationExpected(MachineOf(v), name, content, junk);
    hide Find, Resolve, Files, Orderly, OneShort, Grants, Grant, H.Alloc, Touch, Enabled, Effect, Formed, Guarded, Creatable, WriteAt, Stripped;
    if Touch(v, name, junk).outcome == Done { CreatedThenWritten(v, name, content, junk); }
  }

  lemma WriteFileConformsIff(v: Volume, name: cstring, content: cstring, junk: seq<byte>)
    requires Orderly(v) && |junk| == MAX_FILE_SIZE
    ensures Conforms(v, WriteOp(name, content, junk)) <==> Guarded(MachineOf(v), WriteOp(name, content, junk))
  {
    LookupReadsMap(v, name);
    if Find(v.tree, name) != NIL { OverwriteConforms(v, name, content, junk); } else { CreateConformsIff(v, name, content, junk); }
  }

  lemma CpIsWrite(v: Volume, src: cstring, dest: cstring, junk: seq<byte>)
    requires Sound(v) && |junk| == MAX_FILE_SIZE && Find(v.tree, src) != NIL
    requires v.tree.entries[Find(v.tree, src)].kind == FILE && v.tree.entries[Find(v.tree, src)].data != 0
    ensures Cp(v, src, dest, junk) == WriteFile(v, dest, Text(v.bufs[Find(v.tree, src)], 0), junk)
  {
  }

  lemma CpExpected(m: Machine, src: cstring, dest: cstring, junk: seq<byte>)
    requires Formed(m) && |junk| == MAX_FILE_SIZE
    ensures var op, from := CpOp(src, dest, junk), Resolve(m.view.cwd, src);
            if IsFile(m.view, from) then
              var same := WriteOp(dest, Text(m.view.files[from].buffer, 0), junk);
              && (Enabled(m, op) <==> Enabled(m, same)) && (Guarded(m, op) <==> Guarded(m, same))
              && Effect(m, op) == Effect(m, same)
            else !Enabled(m, op) && Guarded(m, op) && Effect(m, op) == m
  {
    hide Resolve, Grants, Grant, H.Alloc, Text, GuardedCreation;
  }

  lemma CpConformsIff(v: Volume, src: cstring, dest: cstring, junk: seq<byte>)
    requires Orderly(v) && |junk| == MAX_FILE_SIZE
    ensures Conforms(v, CpOp(src, dest, junk)) <==> Guarded(MachineOf(v), CpOp(src, dest, junk))
  {
    var s := Find(v.tree, src);
    LookupReadsMap(v, src);
    OrderlyFormed(v);
    CpExpected(MachineOf(v), src, dest, junk);
    if s != NIL { assert EntryAt(v.tree, s); }
    if s != NIL && v.tree.entries[s].kind == FILE {
      FoundFileListed(v.tree, src);
      assert BackedAt(v, s);
      CpIsWrite(v, src, dest, junk);
      WriteFileConformsIff(v, dest, Text(v.bufs[s], 0), junk);
    }
    hide Find, Resolve, Files, Orderly, OneShort, Text, WriteFile, Enabled, Effect, Guarded, Formed;
  }

  // ---------------------------------------------------------------- removals

  lemma RmExpected(m: Machine, name: cstring)
    requires Formed(m)
    ensures var p, op := Resolve(m.view.cwd, name), RmOp(name);
            && (Enabled(m, op) <==> IsFile(m.view, p))
            && Effect(m, op) ==
                 if Enabled(m, op) then WithoutObject(m, p).(blocks := H.Free(m.blocks, m.view.files[p].home.Ptr())) else m
  {
    hide Resolve, Grants, H.Free;
  }

  /** The block given back is the one that the map has for the file. */
  lemma RmGivesBack(v: Volume, name: cstring)
    requires Orderly(v) && Rm(v, name).outcome == Done
    ensures var r, p := Rm(v, name), Resolve(ViewOf(v).cwd, name);
            && IsFile(ViewOf(v), p)
            && r.volume.tree.taken == v.tree.taken && r.volume.blocks == H.Free(v.blocks, Files(v)[p].home.Ptr())
  {
    var i := Find(v.tree, name);
    LookupReadsMap(v, name);
    FoundFileListed(v.tree, name);
    assert BackedAt(v, i) && BufferAt(v, i) && EntryAt(v.tree, i);
    hide Find, Resolve, Files, H.Free, Attached, PathOf;
  }

  lemma RmConforms(v: Volume, name: cstring)
    requires Orderly(v)
    ensures Conforms(v, RmOp(name))
  {
    RmRefines(v, name);
    OrderlyFormed(v);
    RmExpected(MachineOf(v), name);
    if Rm(v, name).outcome == Done { RmGivesBack(v, name); }
    hide Find, Resolve, Files, Orderly, Rm, Enabled, Effect, Formed, H.Free;
  }

  /** A successful rmdir leaves the working directory in the tree exactly when it removed another one. */
  lemma RmDirKeepsCwdIff(v: Volume, name: cstring)
    requires Orderly(v) && RmDir(v, name).outcome == Done && Sound(RmDir(v, name).volume)
    ensures var t := RmDir(v, name).volume.tree;
            Attached(t, t.cwd) <==> Find(v.tree, name) != v.tree.cwd
  {
    var t, i := v.tree, Find(v.tree, name);
    FindAttached(t, name);
    assert EntryAt(t, i) && ParentAt(t, i);
    var p := t.entries[i].parent;
    UnlinkedForest(t, p, Position(t.kids[p], i));
    UnlinkedAttached(t, p, Position(t.kids[p], i), t.cwd);
  }

  /** An empty working directory other than the root is removed by the name ".", and is in the tree no more. */
  lemma DotRemoved(v: Volume)
    requires Orderly(v) && ViewOf(v).cwd != [] && forall x: seq<byte> :: ViewOf(v).cwd + [x] !in Files(v)
    ensures var r := RmDir(v, [DOT]);
            r.outcome == Done && Sound(r.volume) && !Attached(r.volume.tree, r.volume.tree.cwd)
  {
    LookupReadsMap(v, [DOT]);
    RmDirRefines(v, [DOT]);
    RmDirSound(v, [DOT]);
    RmDirKeepsCwdIff(v, [DOT]);
    hide RmDir, Attached, Files, Orderly;
  }

  lemma RmDirExpected(m: Machine, name: cstring)
    requires Formed(m)
    ensures var p, op := Resolve(m.view.cwd, name), RmDirOp(name);
            && (Enabled(m, op) <==> p in m.view.files && p != [] && m.view.files[p] == Directory && forall x :: p + [x] !in m.view.files)
            && (Guarded(m, op) <==> (Enabled(m, op) ==> p != m.view.cwd))
            && Effect(m, op) == if Enabled(m, op) then WithoutObject(m, p) else m
  {
    hide Resolve, Grants;
  }

  /** The path of the working directory finds it and nothing else does. */
  lemma FindsCwdIff(v: Volume, name: cstring)
    requires Orderly(v)
    ensures Find(v.tree, name) == v.tree.cwd <==> Resolve(ViewOf(v).cwd, name) == ViewOf(v).cwd
  {
    FindIsDescent(v.tree, name);
    OnlyPath(v.tree, v.tree.cwd);
  }

  lemma RmDirConformsIff(v: Volume, name: cstring)
    requires Orderly(v)
    ensures Conforms(v, RmDirOp(name)) <==> Guarded(MachineOf(v), RmDirOp(name))
  {
    var r := RmDir(v, name);
    RmDirRefines(v, name);
    FindsCwdIff(v, name);
    OrderlyFormed(v);
    RmDirExpected(MachineOf(v), name);
    if r.outcome == Done {
      RmDirSound(v, name);
      RmDirKeepsCwdIff(v, name);
      assert r.volume.tree.taken == v.tree.taken && r.volume.blocks == v.blocks;
    }
    hide Find, Resolve, Files, Enabled, Effect, Formed, Guarded, RmDir, Attached, UniqueNames, Sound;
  }

  lemma CdExpected(m: Machine, path: cstring)
    requires Formed(m)
    ensures var p, op := if path == [] then [] else Resolve(m.view.cwd, path), CdOp(path);
            && (Enabled(m, op) <==> IsDirectory(m.view, p))
            && Effect(m, op) == if Enabled(m, op) then m.(view := View(m.view.files, p)) else m
  {
    hide Resolve, Grants;
  }

  lemma CdConforms(v: Volume, path: cstring)
    requires Orderly(v)
    ensures Conforms(v, CdOp(path))
  {
    CdRefines(v, path);
    OrderlyFormed(v);
    CdExpected(MachineOf(v), path);
    assert Cd(v, path).volume.tree.taken == v.tree.taken && Cd(v, path).volume.blocks == v.blocks;
    hide Find, Resolve, Files, Orderly, Cd, Enabled, Effect, Formed;
  }

  /** An operation does to the volume what the machine does, outcome included, exactly when it is guarded. */
  lemma PerformConformsIff(v: Volume, op: Command)
    requires Orderly(v) && WellFormed(op)
    ensures Conforms(v, op) <==> Guarded(MachineOf(v), op)
  {
    match op
    case MkDirOp(name) => MkDirConformsIff(v, name);
    case TouchOp(name, junk) => TouchConformsIff(v, name, junk);
    case WriteOp(name, content, junk) => WriteFileConformsIff(v, name, content, junk);
    case RmOp(name) => RmConforms(v, name);
    case RmDirOp(name) => RmDirConformsIff(v, name);
    case CpOp(src, dest, junk) => CpConformsIff(v, src, dest, junk);
    case CdOp(path) => CdConforms(v, path);
  }

  /** Making a directory of a new simple name succeeds as long as a slot is left. */
  lemma SimpleMade(v: Volume, name: cstring)
    requires Orderly(v) && Simple(name) && v.tree.taken < MAX_ENTRIES && ViewOf(v).cwd + [name] !in Files(v)
    ensures var r := MkDir(v, name);
            && r.outcome == Done && Orderly(r.volume)
            && MachineOf(r.volume) == Machine(View(Files(v)[ViewOf(v).cwd + [name] := Directory], ViewOf(v).cwd), v.tree.taken + 1, v.blocks)
  {
    SimpleMeans(ViewOf(v).cwd, name);
    SimpleGuarded(v, name, true);
    MkDirConformsIff(v, name);
    OrderlyFormed(v);
    MkDirExpected(MachineOf(v), name);
    hide Resolve, Stripped, OneShort, Simple, Creatable, Effect, Enabled, Guarded, Formed, MkDir, Orderly, Files;
  }

  // ---------------------------------------------------------------- where a creation puts its entry

  /** The path of the entry that a creation of `name` makes: in the root behind a slash, else in the working directory, under its first 31 bytes. */
  ghost function MadePath(a: View, name: cstring): Path {
    var n := if name != [] && name[0] == 47 then name[1..] else name;
    (if name != [] && name[0] == 47 then [] else a.cwd) + [n[..if |n| < 32 then |n| else 31]]
  }

  /** A mkdir that succeeds makes its directory there, whatever the name; nothing else changes unless something was there already. */
  lemma DirectoryMade(v: Volume, name: cstring)
    requires Orderly(v) && MkDir(v, name).outcome == Done
    ensures var w, p := MkDir(v, name).volume, MadePath(ViewOf(v), name);
            && Sound(w) && w.tree.taken == v.tree.taken + 1 && PathOf(w.tree, v.tree.taken) == p
            && (p !in Files(v) ==> UniqueNames(w.tree) && Files(w) == Files(v)[p := Directory])
            && w.bufs == v.bufs && w.blocks == v.blocks && w.tree.cwd == v.tree.cwd
  {
    var w, d := MkDir(v, name).volume, TargetDir(v.tree, name);
    MkDirSound(v, name);
    TargetDirIsDirectory(v.tree, name);
    TargetAttached(v, name);
    TargetPath(v, name);
    AddedEntry(v.tree, d, Stripped(name), DIRECTORY, 0);
    hide Orderly, Files, PathOf, Find, UniqueNames, Attached, Added;
    AddedUnder(v, w, d, Stripped(name), DIRECTORY, 0);
  }

  lemma TargetPath(v: Volume, name: cstring)
    requires Orderly(v)
    ensures 0 <= TargetDir(v.tree, name) < v.tree.taken
    ensures MadePath(ViewOf(v), name) ==
            PathOf(v.tree, TargetDir(v.tree, name)) + [Stripped(name)[..if |Stripped(name)| < 32 then |Stripped(name)| else 31]]
  {
    assert EntryAt(v.tree, v.tree.root);
  }

  /** So does a touch, with an empty file in a buffer of 4096 bytes. */
  lemma FileMade(v: Volume, name: cstring, junk: seq<byte>)
    requires Orderly(v) && |junk| == MAX_FILE_SIZE && Touch(v, name, junk).outcome == Done
    ensures var w, p := Touch(v, name, junk).volume, MadePath(ViewOf(v), name);
            && Sound(w) && w.tree.taken == v.tree.taken + 1 && PathOf(w.tree, v.tree.taken) == p
            && Grants(v.blocks, 4096) && w.blocks == H.Alloc(v.blocks, 4096).blocks && w.tree.cwd == v.tree.cwd
            && (p !in Files(v) ==> UniqueNames(w.tree) && Files(w) == Files(v)[p := File(0, junk, Grant(v.blocks, 4096))])
  {
    var w, d := Touch(v, name, junk).volume, TargetDir(v.tree, name);
    TouchSound(v, name, junk);
    TouchedVolume(v, name, junk);
    TargetDirIsDirectory(v.tree, name);
    TargetAttached(v, name);
    TargetPath(v, name);
    var data := w.tree.entries[v.tree.taken].data;
    AddedEntry(v.tree, d, Stripped(name), FILE, data);
    hide Orderly, Files, PathOf, Find, UniqueNames, Attached, Added, Touch, Grants, Grant, H.Alloc;
    AddedUnder(v, w, d, Stripped(name), FILE, data);
  }

  // ---------------------------------------------------------------- names that begin with a slash

  function Absolute(x: cstring): cstring {
    [SLASH] + x
  }

  lemma AbsoluteMeans(cwd: Path, x: cstring)
    requires Simple(x)
    ensures Stripped(Absolute(x)) == x && Resolve(cwd, Absolute(x)) == [x] && Truncated(x) == x && OneShort(Absolute(x))
  {
    SplitComponent(x);
    assert Absolute(x)[1..] == x && x[0] in x;
  }

  /** From another directory "/x" is made a second time when the working directory has no x. */
  lemma AbsoluteDuplicate(v: Volume, x: cstring)
    requires Orderly(v) && Simple(x) && [x] in Files(v) && ViewOf(v).cwd + [x] !in Files(v) && v.tree.taken < MAX_ENTRIES
    ensures var r := MkDir(v, Absolute(x));
            && r.outcome == Done && Sound(r.volume) && !UniqueNames(r.volume.tree)
            && !Conforms(v, MkDirOp(Absolute(x)))
  {
    var t, root: Path := v.tree, [];
    AbsoluteMeans(ViewOf(v).cwd, x);
    SimpleMeans(ViewOf(v).cwd, x);
    CreationCases(v, Absolute(x));
    MkDirSound(v, Absolute(x));
    DescendOne(t, t.root, x);
    AddedUniqueIff(t, t.root, x, DIRECTORY, 0);
    hide Descend, Orderly, Simple, Resolve, Stripped;
  }

  /** And refused although nothing is at "/x" when the working directory has an x. */
  lemma AbsoluteRefused(v: Volume, x: cstring)
    requires Orderly(v) && Simple(x) && [x] !in Files(v) && ViewOf(v).cwd + [x] in Files(v) && v.tree.taken < MAX_ENTRIES
    ensures MkDir(v, Absolute(x)) == Result(v, Failed) && !Conforms(v, MkDirOp(Absolute(x)))
  {
    AbsoluteMeans(ViewOf(v).cwd, x);
    SimpleMeans(ViewOf(v).cwd, x);
    CreationCases(v, Absolute(x));
    MkDirConformsIff(v, Absolute(x));
    assert Descend(v.tree, v.tree.root, []) == v.tree.root;
    assert [x][..0] == [];
    hide Simple, Stripped, Find, Resolve;
  }
}
