/** The scheduler and the filesystem as objects over one heap in memory. */
module KernelSystem {
  import opened Bytes
  import opened CStrings
  import opened FileTree
  import H = HeapSpec
  import P = SchedulerSpec
  import L = SchedulerLayout
  import F = FileOps
  import R = FileRuns
  import opened HeapLayout
  import opened SharedHeap
  import opened KernelHeap
  import opened KernelScheduler
  import opened KernelFileSystem

  /** Buffers survive whatever leaves their blocks alone. */
  lemma BuffersSurvive(m: seq<byte>, n: seq<byte>, v: F.Volume, others: set<H.Block>)
    requires F.Sound(v) && AllInMemory(m, v) && F.Owned(v) <= others && BlocksKept(m, n, others)
    ensures AllInMemory(n, v)
  {
    forall i | 0 <= i < MAX_ENTRIES ensures InMemory(n, v, i) {
      assert InMemory(m, v, i) && F.BufferAt(v, i);
      if F.Holds(v, i) {
        assert v.held[i] in F.Owned(v);
        BufferKept(m, n, v, i);
      }
    }
  }

  /** So do process structures. */
  lemma RecordsSurvive(m: seq<byte>, n: seq<byte>, k: P.Kernel, others: set<H.Block>)
    requires P.WellOwned(k) && L.Chained(m, k.procs) && P.Owned(k.procs) <= others && BlocksKept(m, n, others)
    ensures L.Chained(n, k.procs)
  {
    forall i | 0 <= i < |k.procs| ensures L.RecordAt(n, k.procs, i) {
      assert L.RecordAt(m, k.procs, i) && P.OwnsAt(k, i) && k.procs[i] in k.procs;
      assert k.procs[i].node in P.Owned(k.procs);
      L.RecordKept(m, n, k.procs[i], L.PtrAt(k.procs, i + 1));
    }
  }

  class Clients {
    const processes: Scheduler
    const files: FileSystem

    ghost function State(): System
      reads processes, processes.heap, files, files.entries, files.heap
    {
      System(processes.State(), files.State())
    }

    ghost predicate Valid()
      reads processes, processes.heap, processes.heap.mem, files, files.entries, files.heap, files.heap.mem
    {
      && processes.heap == files.heap
      && processes.Valid() && files.Valid()
      && Shared(State())
    }

    constructor (h: Heap)
      requires h.Valid()
      ensures Valid() && State() == Boot(h.blocks) && processes.heap == h
    {
      processes := new Scheduler(h);
      files := new FileSystem(h);
      new;
      BootShares(h.blocks);
    }

    /** After the scheduler has done `op`, the files are as they were. */
    twostate lemma FilesUndisturbed(op: P.Operation)
      requires old(Valid()) && processes.Valid() && files.entries.Length == MAX_ENTRIES
      requires processes.State() == P.Step(old(processes.State()), op)
      requires files.State() == old(files.State()).(blocks := files.heap.blocks)
      requires BlocksKept(old(files.heap.mem[..]), files.heap.mem[..], old(P.Others(processes.State())))
      ensures Valid() && State() == Step(old(State()), Scheduling(op))
    {
      var s, m, n := old(State()), old(files.heap.mem[..]), files.heap.mem[..];
      SchedulingShares(s, op);
      OwnedInUse(s.volume);
      hide P.Step, F.Sound, H.UsedSet, P.Owned, F.Owned;
      BuffersSurvive(m, n, s.volume, P.Others(s.kernel));
      SameInMemory(n, s.volume, files.State());
    }

    /** After the filesystem has done `command`, the processes are as they were. */
    twostate lemma ProcessesUndisturbed(command: F.Command)
      requires old(Valid()) && files.Valid() && F.WellFormed(command)
      requires files.State() == F.Perform(old(files.State()), command).volume
      requires processes.State() == old(processes.State()).(blocks := processes.heap.blocks)
      requires processes.processList == old(processes.processList) && processes.currentProcess == old(processes.currentProcess)
      requires processes.nextPid == old(processes.nextPid)
      requires BlocksKept(old(files.heap.mem[..]), files.heap.mem[..], old(F.Foreign(files.State())))
      ensures Valid() && State() == Step(old(State()), Filing(command))
    {
      var s, m, n := old(State()), old(files.heap.mem[..]), files.heap.mem[..];
      FilingShares(s, command);
      P.OwnedLive(s.kernel);
      hide F.Perform, F.Sound, H.UsedSet, P.Owned, F.Owned;
      RecordsSurvive(m, n, s.kernel, F.Foreign(s.volume));
    }

    method CreateProcess(entry: uint32, stackSize: uint32) returns (process: int)
      requires Valid()
      modifies processes, processes.heap, processes.heap.mem
      ensures Valid() && State() == Step(old(State()), Scheduling(P.CreateOp(stackSize, entry)))
    {
      process := processes.Create(entry, stackSize);
      FilesUndisturbed(P.CreateOp(stackSize, entry));
    }

    method ExitProcess()
      requires Valid()
      modifies processes, processes.heap, processes.heap.mem
      ensures Valid() && State() == Step(old(State()), Scheduling(P.ExitOp))
    {
      processes.Exit();
      FilesUndisturbed(P.ExitOp);
    }

    method WriteFile(name: cstring, content: cstring) returns (outcome: F.Outcome, ghost junk: seq<byte>)
      requires Valid()
      requires |F.Stripped(name)| < MAX_PATH && |F.Stripped(F.Stripped(name))| < MAX_PATH
      modifies files, files.entries, files.strtok, files.heap, files.heap.mem
      ensures |junk| == F.MAX_FILE_SIZE
      ensures Valid() && State() == Step(old(State()), Filing(F.WriteOp(name, content, junk)))
    {
      outcome, junk := files.WriteFile(name, content);
      ProcessesUndisturbed(F.WriteOp(name, content, junk));
    }

    method RemoveFile(name: cstring) returns (outcome: F.Outcome)
      requires Valid()
      requires |F.Stripped(name)| < MAX_PATH
      modifies files, files.entries, files.strtok, files.heap, files.heap.mem
      ensures Valid() && State() == Step(old(State()), Filing(F.RmOp(name)))
    {
      ghost var v, m := files.State(), files.heap.mem[..];
      outcome := files.Rm(name);
      LiveIsForeign(m, files.heap.mem[..], v);
      ProcessesUndisturbed(F.RmOp(name));
    }
  }

  lemma LiveIsForeign(m: seq<byte>, n: seq<byte>, v: F.Volume)
    requires |v.tree.entries| == |v.held| == MAX_ENTRIES && LiveKept(m, n, v.blocks)
    ensures BlocksKept(m, n, F.Foreign(v))
  {
  }
}
