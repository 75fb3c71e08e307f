/**
 The scheduler over the byte-level heap: its list is threaded through heap blocks, and every
 operation does to heap, list and current process what the specification says.
 */
module KernelScheduler {
  import opened Arithmetic
  import opened Bytes
  import opened HeapSpec
  import opened HeapLayout
  import opened KernelHeap
  import H = HeapSpec
  import S = SchedulerSpec
  import opened SchedulerSpec
  import opened SchedulerLayout

  class Scheduler {
    const heap: Heap
    var currentProcess: int
    var processList: int
    var nextPid: uint32
    ghost var procs: seq<Process>
    ghost var current: int
    ghost var serial: nat

    ghost function State(): Kernel
      reads this, heap
    {
      Kernel(heap.blocks, procs, current, serial)
    }

    ghost predicate Valid()
      reads this, heap, heap.mem
    {
      && heap.Valid()
      && WellOwned(State())
      && serial > 0
      && Chained(heap.mem[..], procs)
      && processList == PtrAt(procs, 0)
      && currentProcess == (if current < 0 then 0 else procs[current].Ptr())
      && nextPid == serial % WORD_LIMIT
    }

    constructor (h: Heap)
      requires h.Valid()
      ensures heap == h && Valid()
      ensures State() == Boot(heap.blocks)
    {
      heap := h;
      currentProcess, processList, nextPid := 0, 0, 1;
      procs, current, serial := [], -1, 1;
    }

    // -------------------------------------------------------------- reading the list

    method LoadProcess(a: int, ghost i: int) returns (state: uint32, next: uint32)
      requires heap.mem.Length == MEMORY_END
      requires 0 <= i < |procs| && a == procs[i].Ptr() && RecordAt(heap.mem[..], procs, i)
      ensures state == procs[i].state && next == PtrAt(procs, i + 1)
    {
      state := heap.LoadWord(a + 4);
      next := heap.LoadWord(a + 20);
    }

    lemma PtrIsPositive(i: int)
      requires WellOwned(State()) && 0 <= i < |procs|
      ensures MEMORY_START < procs[i].Ptr() && procs[i].Ptr() + PROCESS_SIZE <= MEMORY_END
    {
      assert OwnsAt(State(), i);
      var k := LiveIndex(heap.blocks, procs[i].Ptr());
      LiveFound(heap.blocks, procs[i].node);
      InRegion(heap.blocks, k);
    }

    lemma PtrsDiffer(i: int, j: int)
      requires WellOwned(State()) && 0 <= i < |procs| && 0 <= j < |procs| && i != j
      ensures procs[i].Ptr() != procs[j].Ptr()
    {
      assert OwnsAt(State(), i) && OwnsAt(State(), j);
      assert if i < j then DisjointAt(procs, i, j) else DisjointAt(procs, j, i);
      LiveDisjoint(heap.blocks, procs[i].node, procs[j].node);
    }

    /** Walks from `from` to the first ready process; 0 if there is none. */
    method FindReady(from: int, ghost start: int) returns (next: int, ghost n: int)
      requires Valid() && 0 <= start <= |procs| && from == PtrAt(procs, start)
      ensures n == NextReady(procs, start) && next == PtrAt(procs, n)
      ensures next != 0 <==> n < |procs|
    {
      next, n := from, start;
      while next != 0
        invariant start <= n <= |procs| && next == PtrAt(procs, n)
        invariant NextReady(procs, start) == NextReady(procs, n)
        decreases |procs| - n
      {
        assert RecordAt(heap.mem[..], procs, n);
        var state, after := LoadProcess(next, n);
        if state == READY { break; }
        next, n := after, n + 1;
      }
      if n < |procs| { PtrIsPositive(n); }
    }

    // -------------------------------------------------------------- writing the list

    method SetState(a: int, state: uint32, ghost i: int)
      requires Valid() && 0 <= i < |procs| && a == procs[i].Ptr()
      modifies this`procs, heap.mem
      ensures Valid()
      ensures procs == WithState(old(procs), i, state)
      ensures BlocksKept(old(heap.mem[..]), heap.mem[..], Others(State())) && Others(State()) == old(Others(State()))
    {
      ghost var m, k := heap.mem[..], State();
      assert OwnsAt(k, i) && RecordAt(m, procs, i);
      OwnedArePlaced(k);
      heap.Poke(a + 4, state, procs[i].node);
      StateWritten(m, heap.mem[..], heap.blocks, procs, i, state);
      procs := WithState(procs, i, state);
      StatesKeep(k, State());
    }
  
    // -------------------------------------------------------------- the operations

    /** Starts `process`; a null pointer or a process that is not ready is ignored. */
    method Start(process: int, ghost i: int)
      requires Valid()
      requires process == 0 || (0 <= i < |procs| && process == procs[i].Ptr())
      modifies this, heap.mem
      ensures Valid()
      ensures State() == if process == 0 then old(State()) else S.Start(old(State()), i)
      ensures BlocksKept(old(heap.mem[..]), heap.mem[..], old(Others(State())))
    {
      if process == 0 { return; }
      PtrIsPositive(i);
      assert RecordAt(heap.mem[..], procs, i);
      var state, _ := LoadProcess(process, i);
      if state != READY { return; }
      SetState(process, RUNNING, i);
      currentProcess, current := process, i;
      StatesKeep(old(State()), State());
    }

    method Yield()
      requires Valid()
      modifies this, heap.mem
      ensures Valid()
      ensures State() == S.Yield(old(State()))
      ensures BlocksKept(old(heap.mem[..]), heap.mem[..], old(Others(State())))
    {
      if current >= 0 { PtrIsPositive(current); }
      if currentProcess == 0 { return; }
      assert RecordAt(heap.mem[..], procs, current);
      var _, after := LoadProcess(currentProcess, current);
      var next, n := FindReady(after, current + 1);
      if next == 0 {
        next, n := FindReady(processList, 0);
      }
      if n < |procs| && n != current { PtrsDiffer(n, current); }
      if next != 0 && next != currentProcess {
        SwitchTo(next, n);
      }
    }

    method SwitchTo(next: int, ghost n: int)
      requires Valid() && 0 <= current && 0 <= n < |procs| && next == procs[n].Ptr()
      modifies this, heap.mem
      ensures Valid()
      ensures State() == old(State()).(
                procs := WithState(WithState(old(procs), old(current), READY), n, RUNNING), current := n)
      ensures BlocksKept(old(heap.mem[..]), heap.mem[..], old(Others(State())))
    {
      SetState(currentProcess, READY, current);
      SetState(next, RUNNING, n);
      currentProcess, current := next, n;
      StatesKeep(old(State()), State());
    }

    method Schedule()
      requires Valid()
      modifies this, heap.mem
      ensures Valid()
      ensures State() == S.Schedule(old(State()))
      ensures BlocksKept(old(heap.mem[..]), heap.mem[..], old(Others(State())))
    {
      var running := false;
      if current >= 0 { PtrIsPositive(current); }
      if currentProcess != 0 {
        assert RecordAt(heap.mem[..], procs, current);
        var state, _ := LoadProcess(currentProcess, current);
        running := state == RUNNING;
      }
      if !running {
        var next, n := FindReady(processList, 0);
        if next != 0 {
          SetState(next, RUNNING, n);
          currentProcess, current := next, n;
          StatesKeep(old(State()), State());
        }
      }
    }

    /** Fills in a structure that is not in the list yet. */
    method StoreRecord(a: int, state: uint32, stack: uint32, stackSize: uint32, entry: uint32, ghost p: Process)
      requires heap.Valid() && p.node in UsedSet(heap.blocks) && p.node.size >= PROCESS_SIZE
      requires a == p.Ptr() && nextPid == p.Pid()
      requires state == p.state && stack == p.stack.Ptr() && stackSize == p.stackSize && entry == p.entry
      modifies heap.mem
      ensures heap.Valid()
      ensures RecordIs(heap.mem[..], p, 0)
      ensures BlocksKept(old(heap.mem[..]), heap.mem[..], UsedSet(heap.blocks) - {p.node})
    {
      heap.Poke(a, nextPid, p.node);
      ghost var m1 := heap.mem[..];
      heap.Poke(a + 4, state, p.node);
      ghost var m2 := heap.mem[..];
      heap.Poke(a + 8, stack, p.node);
      ghost var m3 := heap.mem[..];
      heap.Poke(a + 12, stackSize, p.node);
      ghost var m4 := heap.mem[..];
      heap.Poke(a + 16, entry, p.node);
      ghost var m5 := heap.mem[..];
      heap.Poke(a + 20, 0, p.node);
      WordKept(m1, heap.mem[..], a + 4, a + 24, a);
      WordKept(m2, heap.mem[..], a + 8, a + 24, a + 4);
      WordKept(m3, heap.mem[..], a + 12, a + 24, a + 8);
      WordKept(m4, heap.mem[..], a + 16, a + 24, a + 12);
      WordKept(m5, heap.mem[..], a + 20, a + 24, a + 16);
    }
  
    /** Walks to the end of a non-empty list. */
    method FindLast() returns (last: int)
      requires WellOwned(State()) && procs != [] && processList == procs[0].Ptr()
      requires heap.mem.Length == MEMORY_END && Chained(heap.mem[..], procs)
      ensures last == procs[|procs| - 1].Ptr()
    {
      last := processList;
      ghost var i := 0;
      while true
        invariant 0 <= i < |procs| && last == procs[i].Ptr()
        decreases |procs| - i
      {
        assert RecordAt(heap.mem[..], procs, i);
        if i + 1 < |procs| { PtrIsPositive(i + 1); }
        var _, next := LoadProcess(last, i);
        if next == 0 { break; }
        last, i := next, i + 1;
      }
    }

    /** Makes the last structure of a non-empty list name `process`. */
    method LinkLast(process: int, ghost p: Process)
      requires heap.Valid() && WellOwned(State()) && procs != []
      requires Chained(heap.mem[..], procs) && processList == procs[0].Ptr()
      requires p.node in Others(State()) && p.node.size >= PROCESS_SIZE
      requires process == p.Ptr() && RecordIs(heap.mem[..], p, 0)
      modifies heap.mem
      ensures heap.Valid()
      ensures Chained(heap.mem[..], procs + [p])
      ensures BlocksKept(old(heap.mem[..]), heap.mem[..], Others(State()))
    {
      ghost var m, l := heap.mem[..], procs[|procs| - 1];
      OwnedArePlaced(State());
      assert NodeAt(heap.blocks, procs, |procs| - 1) && RecordAt(m, procs, |procs| - 1);
      var last := FindLast();
      heap.Poke(last + 20, process, l.node);
      Appended(m, heap.mem[..], heap.blocks, procs, p);
    }

    /** Links a filled-in structure in behind the last one. */
    method Append(process: int, ghost p: Process)
      requires heap.Valid() && WellOwned(State())
      requires Chained(heap.mem[..], procs) && processList == PtrAt(procs, 0)
      requires p.node in Others(State()) && p.node.size >= PROCESS_SIZE
      requires process == p.Ptr() && RecordIs(heap.mem[..], p, 0)
      modifies this`processList, this`procs, heap.mem
      ensures heap.Valid()
      ensures procs == old(procs) + [p] && Chained(heap.mem[..], procs) && processList == PtrAt(procs, 0)
      ensures BlocksKept(old(heap.mem[..]), heap.mem[..], old(Others(State())))
    {
      hide WellOwned, UsedSet, Owned;
      if procs != [] { PtrIsPositive(0); }
      if processList == 0 {
        processList := process;
        assert procs + [p] == [p];
      } else {
        LinkLast(process, p);
      }
      procs := procs + [p];
    }

    /** Takes a block from the heap on behalf of a process being created. */
    method Take(request: uint32) returns (ptr: int)
      requires Valid()
      modifies heap, heap.mem
      ensures Valid()
      ensures procs == old(procs)
      ensures Allocation(heap.blocks, ptr) == H.Alloc(old(heap.blocks), request)
      ensures ptr == 0 <==> !Grants(old(heap.blocks), request)
      ensures ptr == 0 ==> heap.blocks == old(heap.blocks)
      ensures 0 <= ptr <= MEMORY_END
      ensures ptr != 0 ==>
                var g := Grant(old(heap.blocks), request);
                && ptr == g.Ptr() && g in UsedSet(heap.blocks) && g !in Owned(procs)
                && g !in old(UsedSet(heap.blocks))
                && Others(State()) == old(Others(State())) + {g}
      ensures BlocksKept(old(heap.mem[..]), heap.mem[..], old(UsedSet(heap.blocks)))
    {
      hide H.Alloc, H.BestFit, H.Grants, H.Grant, H.RoundUp;
      ghost var m, k := heap.mem[..], State();
      AllocRefuses(heap.blocks, request);
      OwnedArePlaced(k);
      if Grants(heap.blocks, request) {
        AllocGrants(heap.blocks, request);
        GrantKeepsOwned(k, request);
      }
      ptr := heap.Alloc(request);
      ChainKept(m, heap.mem[..], k.blocks, procs);
    }

    /** Releases a block that belongs to no listed process. */
    method GiveBack(ptr: int, ghost b: Block)
      requires Valid() && b in Others(State()) && ptr == b.Ptr()
      modifies heap, heap.mem
      ensures Valid()
      ensures heap.blocks == H.Free(old(heap.blocks), ptr)
      ensures Others(State()) == old(Others(State())) - {b}
      ensures BlocksKept(old(heap.mem[..]), heap.mem[..], old(UsedSet(heap.blocks)))
    {
      ghost var m, k := heap.mem[..], State();
      ReleaseKeepsOwned(k, b);
      OwnedArePlaced(k);
      LiveFound(heap.blocks, b);
      InRegion(heap.blocks, LiveIndex(heap.blocks, ptr));
      heap.Free(ptr);
      ChainKept(m, heap.mem[..], k.blocks, procs);
    }

    lemma KeptByStore(m: seq<byte>, n: seq<byte>, p: Process)
      requires WellOwned(State()) && Chained(m, procs) && p.node in Others(State())
      requires BlocksKept(m, n, UsedSet(heap.blocks) - {p.node})
      ensures Chained(n, procs)
    {
      forall i | 0 <= i < |procs|
        ensures RecordAt(n, procs, i)
      {
        assert OwnsAt(State(), i) && RecordAt(m, procs, i) && procs[i] in procs;
        RecordKept(m, n, procs[i], PtrAt(procs, i + 1));
      }
    }

    /** Fills in a structure without disturbing the list. */
    method Fill(process: int, stack: uint32, stackSize: uint32, entry: uint32, ghost p: Process)
      requires Valid()
      requires process == p.Ptr() && stack == p.stack.Ptr()
      requires p.serial == serial && p.state == READY && p.stackSize == stackSize && p.entry == entry
      requires p.node in Others(State()) && p.node.size >= PROCESS_SIZE
      modifies heap.mem
      ensures Valid()
      ensures RecordIs(heap.mem[..], p, 0)
      ensures BlocksKept(old(heap.mem[..]), heap.mem[..], UsedSet(heap.blocks) - {p.node})
    {
      ghost var m := heap.mem[..];
      StoreRecord(process, READY, stack, stackSize, entry, p);
      KeptByStore(m, heap.mem[..], p);
    }

    method AdvancePid()
      requires nextPid == serial % WORD_LIMIT
      modifies this`nextPid, this`serial
      ensures serial == old(serial) + 1 && nextPid == serial % WORD_LIMIT
    {
      ModStep(serial, WORD_LIMIT);
      nextPid := (nextPid + 1) % WORD_LIMIT;
      serial := serial + 1;
    }

    /** Lists a process whose two blocks are already taken. */
    method Enlist(process: int, stack: uint32, stackSize: uint32, entry: uint32, ghost p: Process, ghost k: Kernel)
      requires Valid() && WellOwned(k)
      requires k.procs == procs && k.current == current && k.serial == serial
      requires Grants(k.blocks, PROCESS_SIZE) && Grants(H.Alloc(k.blocks, PROCESS_SIZE).blocks, stackSize)
      requires Created(k, stackSize, entry) == Kernel(heap.blocks, procs + [p], current, serial + 1)
      requires process == p.Ptr() && stack == p.stack.Ptr()
      requires p.serial == serial && p.state == READY && p.stackSize == stackSize && p.entry == entry
      requires p.node in Others(State()) && p.node.size >= PROCESS_SIZE
      modifies this, heap.mem
      ensures Valid()
      ensures State() == Created(k, stackSize, entry)
      ensures BlocksKept(old(heap.mem[..]), heap.mem[..], old(Others(State())) - {p.node})
    {
      hide H.Alloc, Grants, Created, Placed, Chained, RecordIs;
      CreatedKeeps(k, stackSize, entry);
      hide WellOwned;
      Fill(process, stack, stackSize, entry, p);
      Append(process, p);
      AdvancePid();
    }

    /** Creates a ready process at the end of the list; 0 when the heap cannot serve it. */
    method Create(entry: uint32, stackSize: uint32) returns (process: int)
      requires Valid()
      modifies this, heap, heap.mem
      ensures Valid()
      ensures State() == S.Create(old(State()), stackSize, entry)
      ensures process == if procs == old(procs) then 0 else procs[|procs| - 1].Ptr()
      ensures BlocksKept(old(heap.mem[..]), heap.mem[..], old(Others(State())))
    {
      hide H.Alloc, H.Free, Grants, Grant, RoundUp;
      ghost var k := State();
      process := Take(PROCESS_SIZE);
      if process == 0 {
        FailedCreate(k, stackSize, entry);
        return;
      }
      ghost var node, mid := Grant(k.blocks, PROCESS_SIZE), heap.blocks;
      UsableIff(PROCESS_SIZE);
      AllocGrants(k.blocks, PROCESS_SIZE);
      var stack := Take(stackSize);
      if stack == 0 {
        GiveBack(process, node);
        FailedCreate(k, stackSize, entry);
        return 0;
      }
      ghost var p := Process(node, Grant(mid, stackSize), serial, READY, stackSize, entry);
      Enlist(process, stack, stackSize, entry, p, k);
    }
  
    lemma ElsewhereKept(m: seq<byte>, n: seq<byte>, i: int)
      requires Placed(heap.blocks, procs) && 0 <= i < |procs| && Chained(m, procs)
      requires SameOutside(m, n, procs[i].Ptr() + 8, procs[i].Ptr() + 12)
      ensures ChainedBut(n, procs, i) && NextIs(n, procs[i].Ptr(), PtrAt(procs, i + 1))
    {
      var a := procs[i].Ptr();
      assert RecordAt(m, procs, i);
      NumberKept(m, n, a + 20, a + 20, 4);
      forall j | 0 <= j < |procs| && j != i ensures RecordAt(n, procs, j) {
        RecordElsewhere(m, n, heap.blocks, procs, i, j, a + 8, a + 12);
      }
    }

    /** A word of the structure in block `b` is cleared. */
    method ClearStack(process: int, ghost i: int)
      requires heap.Valid() && Placed(heap.blocks, procs) && Chained(heap.mem[..], procs)
      requires 0 <= i < |procs| && process == procs[i].Ptr()
      modifies heap.mem
      ensures heap.Valid()
      ensures ChainedBut(heap.mem[..], procs, i) && NextIs(heap.mem[..], process, PtrAt(procs, i + 1))
      ensures BlocksKept(old(heap.mem[..]), heap.mem[..], UsedSet(heap.blocks) - {procs[i].node})
    {
      ghost var m := heap.mem[..];
      assert NodeAt(heap.blocks, procs, i);
      heap.Poke(process + 8, 0, procs[i].node);
      ElsewhereKept(m, heap.mem[..], i);
    }

    /** Gives the stack of the current process back and clears the pointer to it. */
    method ReleaseStack()
      requires Valid() && 0 <= current
      modifies heap, heap.mem
      ensures heap.Valid()
      ensures heap.blocks == H.Free(old(heap.blocks), procs[current].stack.Ptr())
      ensures UsedSet(heap.blocks) == old(UsedSet(heap.blocks)) - {procs[current].stack}
      ensures Placed(heap.blocks, procs) && ChainedBut(heap.mem[..], procs, current)
      ensures NextIs(heap.mem[..], currentProcess, PtrAt(procs, current + 1))
      ensures BlocksKept(old(heap.mem[..]), heap.mem[..], old(Others(State())))
    {
      hide H.Free;
      ghost var m, k, i := heap.mem[..], State(), current;
      ghost var p := procs[i];
      assert OwnsAt(k, i) && RecordAt(m, procs, i) && p in procs;
      OwnedArePlaced(k);
      StackIsNoNode(k, i);
      LiveFound(heap.blocks, p.stack);
      InRegion(heap.blocks, LiveIndex(heap.blocks, p.stack.Ptr()));
      FreeLive(heap.blocks, p.stack);
      hide WellOwned, Others, BlocksKept;
      var stack := heap.LoadWord(currentProcess + 8);
      if stack != 0 {
        heap.Free(stack);
        PlacedWithout(k.blocks, heap.blocks, procs, i);
        ChainKept(m, heap.mem[..], k.blocks, procs);
        ghost var m1 := heap.mem[..];
        ClearStack(currentProcess, i);
        OthersKept(m, m1, heap.mem[..], k, UsedSet(heap.blocks), i);
      }
    }

    /** Neither giving a stack back nor clearing its pointer touches another client's block. */
    lemma OthersKept(m: seq<byte>, m1: seq<byte>, n: seq<byte>, k: Kernel, left: set<Block>, i: int)
      requires 0 <= i < |k.procs| && left == UsedSet(k.blocks) - {k.procs[i].stack}
      requires LiveKept(m, m1, k.blocks) && BlocksKept(m1, n, left - {k.procs[i].node})
      ensures BlocksKept(m, n, Others(k))
    {
      var p := k.procs[i];
      assert p in k.procs;
      forall b | b in Others(k) ensures b in k.blocks && b.used && b in left - {p.node} {
        assert b != p.node && b != p.stack;
      }
    }

    /** Walks to the structure that names `process`. */
    method FindBefore(process: int, ghost i: int) returns (prev: int)
      requires heap.mem.Length == MEMORY_END && Placed(heap.blocks, procs)
      requires 0 < i < |procs| && process == procs[i].Ptr() && processList == procs[0].Ptr()
      requires ChainedBut(heap.mem[..], procs, i)
      ensures prev == procs[i - 1].Ptr()
    {
      prev := processList;
      ghost var j := 0;
      while true
        invariant 0 <= j < i && prev == procs[j].Ptr()
        decreases i - j
      {
        assert RecordAt(heap.mem[..], procs, j);
        PlacedPtrs(heap.blocks, procs, j + 1, i);
        var _, next := LoadProcess(prev, j);
        if next == process { break; }
        prev, j := next, j + 1;
      }
    }

    /** Takes the process at position `i` out of the list. */
    method Unlink(process: int, ghost i: int)
      requires heap.Valid() && Placed(heap.blocks, procs)
      requires 0 <= i < |procs| && process == procs[i].Ptr() && processList == procs[0].Ptr()
      requires ChainedBut(heap.mem[..], procs, i) && NextIs(heap.mem[..], process, PtrAt(procs, i + 1))
      modifies this`processList, heap.mem
      ensures heap.Valid()
      ensures Chained(heap.mem[..], Without(procs, i)) && processList == PtrAt(Without(procs, i), 0)
      ensures BlocksKept(old(heap.mem[..]), heap.mem[..], UsedSet(heap.blocks) - Nodes(procs))
    {
      ghost var m := heap.mem[..];
      PlacedPtrs(heap.blocks, procs, 0, i);
      var next := heap.LoadWord(process + 20);
      if processList == process {
        processList := next;
        assert heap.mem[..] == m;
      } else {
        ghost var l := procs[i - 1];
        PlacedPtrs(heap.blocks, procs, i - 1, i);
        assert NodeAt(heap.blocks, procs, i - 1) && l in procs;
        var prev := FindBefore(process, i);
        heap.Poke(prev + 20, next, l.node);
      }
      Unlinked(m, heap.mem[..], heap.blocks, procs, i);
    }
  
    /** Gives back both blocks of the current process and takes it out of the list. */
    method Detach(process: int)
      requires Valid() && 0 <= current && process == currentProcess
      modifies this`processList, this`procs, heap, heap.mem
      ensures heap.Valid()
      ensures Removed(old(State())) == Kernel(heap.blocks, procs, -1, serial)
      ensures Chained(heap.mem[..], procs) && processList == PtrAt(procs, 0)
      ensures BlocksKept(old(heap.mem[..]), heap.mem[..], old(Others(State())))
    {
      hide H.Free;
      ghost var k, i, p := State(), current, procs[current];
      assert OwnsAt(k, i) && p in procs;
      hide WellOwned;
      ReleaseStack();
      ghost var mid := heap.blocks;
      OthersElsewhere(k, mid, i);
      Unlink(process, i);
      PlacedWithout(mid, mid, procs, i);
      assert NodeAt(mid, procs, i);
      LiveFound(mid, p.node);
      InRegion(mid, LiveIndex(mid, process));
      hide Placed, BlocksKept;
      FreeNode(process, k, i);
      procs := Without(procs, i);
    }

    method FreeNode(process: int, ghost k: Kernel, ghost i: int)
      requires heap.Valid() && heap.Releasable(process) && 0 <= i < |procs|
      requires Placed(heap.blocks, Without(procs, i)) && Chained(heap.mem[..], Without(procs, i))
      requires Others(k) <= UsedSet(heap.blocks)
      modifies heap, heap.mem
      ensures heap.Valid()
      ensures heap.blocks == H.Free(old(heap.blocks), process)
      ensures Chained(heap.mem[..], Without(procs, i))
      ensures BlocksKept(old(heap.mem[..]), heap.mem[..], Others(k))
    {
      hide H.Free;
      ghost var n, bs := heap.mem[..], heap.blocks;
      heap.Free(process);
      ChainKept(n, heap.mem[..], bs, Without(procs, i));
    }

    /** The first half of an exit: everything up to forgetting the current process. */
    method Remove()
      requires Valid() && 0 <= current
      modifies this, heap, heap.mem
      ensures Valid()
      ensures State() == Removed(old(State()))
      ensures BlocksKept(old(heap.mem[..]), heap.mem[..], old(Others(State())))
    {
      hide H.Free;
      ghost var k := State();
      SetState(currentProcess, TERMINATED, current);
      assert Without(procs, current) == Without(k.procs, current);
      RemovedKeeps(State());
      Detach(currentProcess);
      currentProcess, current := 0, -1;
    }

    /** Ends the current process and schedules another one. */
    method Exit()
      requires Valid()
      modifies this, heap, heap.mem
      ensures Valid()
      ensures State() == S.Exit(old(State()))
      ensures BlocksKept(old(heap.mem[..]), heap.mem[..], old(Others(State())))
    {
      if current >= 0 { PtrIsPositive(current); }
      if currentProcess == 0 { return; }
      RemovedKeeps(State());
      Remove();
      Schedule();
    }

    method CountProcesses() returns (count: int)
      requires Valid()
      ensures count == |procs|
    {
      count := 0;
      var a := processList;
      while a != 0
        invariant 0 <= count <= |procs| && a == PtrAt(procs, count)
        decreases |procs| - count
      {
        assert RecordAt(heap.mem[..], procs, count);
        var _, next := LoadProcess(a, count);
        a := next;
        count := count + 1;
      }
      if count < |procs| { PtrIsPositive(count); }
    }

    method CountReady() returns (count: int)
      requires Valid()
      ensures count == |set i | 0 <= i < |procs| && procs[i].state == READY|
    {
      count := 0;
      var a := processList;
      ghost var n := 0;
      ghost var ready: set<int> := {};
      while a != 0
        invariant 0 <= n <= |procs| && a == PtrAt(procs, n)
        invariant ready == set i | 0 <= i < n && procs[i].state == READY
        invariant count == |ready|
        decreases |procs| - n
      {
        assert RecordAt(heap.mem[..], procs, n);
        var state, next := LoadProcess(a, n);
        if state == READY {
          count := count + 1;
          ready := ready + {n};
        }
        a := next;
        n := n + 1;
      }
      if n < |procs| { PtrIsPositive(n); }
    }
  }
}
