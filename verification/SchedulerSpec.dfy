/**
 The process list as a value: creation and exit with the heap blocks they take and give
 back, the round-robin scheduler, and what holds over any run.
 */
module SchedulerSpec {
  import opened Arithmetic
  import opened Bytes
  import H = HeapSpec
  import opened HeapSpec

  const READY := 0
  const RUNNING := 1
  const TERMINATED := 3
  const PROCESS_SIZE := 24  // six 32-bit words: pid, state, stack, stack_size, entry_point, next

  /** A listed process. `serial` counts creations from 1; the pid is what 32 bits keep of it. */
  datatype Process = Process(node: Block, stack: Block, serial: nat, state: uint32, stackSize: uint32, entry: uint32) {
    function Ptr(): int { node.Ptr() }

    function Pid(): uint32 { serial % WORD_LIMIT }
  }

  /** The heap, the process list, the position of the current process (-1 for none), the next serial. */
  datatype Kernel = Kernel(blocks: seq<Block>, procs: seq<Process>, current: int, serial: nat)

  // ---------------------------------------------------------------- invariants

  ghost predicate OwnsAt(k: Kernel, i: int)
    requires 0 <= i < |k.procs|
  {
    var p := k.procs[i];
    && p.node in UsedSet(k.blocks) && p.stack in UsedSet(k.blocks)
    && p.node != p.stack
    && p.node.size >= PROCESS_SIZE
  }

  ghost predicate DisjointAt(ps: seq<Process>, i: int, j: int)
    requires 0 <= i < |ps| && 0 <= j < |ps|
  {
    ps[i].node != ps[j].node && ps[i].node != ps[j].stack && ps[i].stack != ps[j].node && ps[i].stack != ps[j].stack
  }

  /** Every process owns two live blocks of its own; serials rise along the list. */
  ghost predicate WellOwned(k: Kernel) {
    && Canonical(k.blocks)
    && -1 <= k.current < |k.procs|
    && (forall i | 0 <= i < |k.procs| :: OwnsAt(k, i))
    && (forall i, j | 0 <= i < j < |k.procs| :: DisjointAt(k.procs, i, j))
    && (forall i, j | 0 <= i < j < |k.procs| :: SerialsRise(k.procs, i, j))
    && (forall i | 0 <= i < |k.procs| :: 0 < k.procs[i].serial < k.serial)
  }

  ghost predicate SerialsRise(ps: seq<Process>, i: int, j: int)
    requires 0 <= i < |ps| && 0 <= j < |ps|
  {
    ps[i].serial < ps[j].serial
  }

  ghost function Owned(ps: seq<Process>): set<Block> {
    (set p | p in ps :: p.node) + (set p | p in ps :: p.stack)
  }

  /** The live blocks that belong to other clients of the heap. */
  ghost function Others(k: Kernel): set<Block> {
    UsedSet(k.blocks) - Owned(k.procs)
  }

  /** The running process, if any, is the current one; everything else is ready. */
  ghost predicate Safe(k: Kernel) {
    && -1 <= k.current < |k.procs|
    && forall i | 0 <= i < |k.procs| :: k.procs[i].state == if i == k.current then RUNNING else READY
  }

  // ---------------------------------------------------------------- operations

  function WithState(ps: seq<Process>, i: int, state: uint32): seq<Process>
    requires 0 <= i < |ps|
  {
    ps[i := ps[i].(state := state)]
  }

  function Created(k: Kernel, stackSize: uint32, entry: uint32): Kernel
    requires Grants(k.blocks, PROCESS_SIZE) && Grants(H.Alloc(k.blocks, PROCESS_SIZE).blocks, stackSize)
  {
    var a := H.Alloc(k.blocks, PROCESS_SIZE);
    var b := H.Alloc(a.blocks, stackSize);
    var p := Process(Grant(k.blocks, PROCESS_SIZE), Grant(a.blocks, stackSize), k.serial, READY, stackSize, entry);
    Kernel(b.blocks, k.procs + [p], k.current, k.serial + 1)
  }

  /** When the stack cannot be had, the process structure is released again. */
  function Create(k: Kernel, stackSize: uint32, entry: uint32): Kernel {
    var a := H.Alloc(k.blocks, PROCESS_SIZE);
    if !Grants(k.blocks, PROCESS_SIZE) then k
    else if !Grants(a.blocks, stackSize) then k.(blocks := H.Free(a.blocks, a.ptr))
    else Created(k, stackSize, entry)
  }

  function Start(k: Kernel, i: int): Kernel
    requires 0 <= i < |k.procs|
  {
    if k.procs[i].state != READY then k
    else k.(procs := WithState(k.procs, i, RUNNING), current := i)
  }

  /** The first ready position from `from` on, the length of the list if there is none. */
  function NextReady(ps: seq<Process>, from: int): (r: int)
    requires 0 <= from <= |ps|
    ensures from <= r <= |ps|
    decreases |ps| - from
  {
    if from == |ps| || ps[from].state == READY then from else NextReady(ps, from + 1)
  }

  function Successor(ps: seq<Process>, current: int): (r: int)
    requires 0 <= current < |ps|
    ensures 0 <= r <= |ps|
  {
    var n := NextReady(ps, current + 1);
    if n == |ps| then NextReady(ps, 0) else n
  }

  function Yield(k: Kernel): Kernel
    requires -1 <= k.current < |k.procs|
  {
    if k.current < 0 then k
    else
      var n := Successor(k.procs, k.current);
      if n < |k.procs| && n != k.current then
        k.(procs := WithState(WithState(k.procs, k.current, READY), n, RUNNING), current := n)
      else k
  }

  function Schedule(k: Kernel): Kernel
    requires -1 <= k.current < |k.procs|
  {
    if k.current >= 0 && k.procs[k.current].state == RUNNING then k
    else
      var n := NextReady(k.procs, 0);
      if n < |k.procs| then k.(procs := WithState(k.procs, n, RUNNING), current := n) else k
  }

  function Without(ps: seq<Process>, i: int): seq<Process>
    requires 0 <= i < |ps|
  {
    ps[..i] + ps[i + 1..]
  }

  /** The current process gives back its stack, then its structure. */
  function Removed(k: Kernel): Kernel
    requires 0 <= k.current < |k.procs|
  {
    var p := k.procs[k.current];
    Kernel(H.Free(H.Free(k.blocks, p.stack.Ptr()), p.Ptr()), Without(k.procs, k.current), -1, k.serial)
  }

  function Exit(k: Kernel): Kernel
    requires -1 <= k.current < |k.procs|
  {
    if k.current < 0 then k else Schedule(Removed(k))
  }

  // ---------------------------------------------------------------- ownership

  /** A creation that fails for want of a stack leaves the heap exactly as it was. */
  lemma FailedCreate(k: Kernel, stackSize: uint32, entry: uint32)
    requires Canonical(k.blocks)
    requires !Grants(k.blocks, PROCESS_SIZE) || !Grants(H.Alloc(k.blocks, PROCESS_SIZE).blocks, stackSize)
    ensures Create(k, stackSize, entry) == k
  {
    FreeUndoesAlloc(k.blocks, PROCESS_SIZE);
  }

  lemma OwnedAppend(ps: seq<Process>, p: Process)
    ensures Owned(ps + [p]) == Owned(ps) + {p.node, p.stack}
  {
  }

  lemma CreatedKeeps(k: Kernel, stackSize: uint32, entry: uint32)
    requires WellOwned(k) && k.serial > 0
    requires Grants(k.blocks, PROCESS_SIZE) && Grants(H.Alloc(k.blocks, PROCESS_SIZE).blocks, stackSize)
    ensures WellOwned(Created(k, stackSize, entry))
    ensures Others(Created(k, stackSize, entry)) == Others(k)
  {
    var a := H.Alloc(k.blocks, PROCESS_SIZE);
    AllocGrants(k.blocks, PROCESS_SIZE);
    AllocGrants(a.blocks, stackSize);
    UsableIff(PROCESS_SIZE);
    var r := Created(k, stackSize, entry);
    var n := |k.procs|;
    var p := r.procs[n];
    assert p.node in UsedSet(a.blocks);
    forall i | 0 <= i < |r.procs|
      ensures OwnsAt(r, i)
    {
      if i < n { assert OwnsAt(k, i); }
    }
    forall i, j | 0 <= i < j < |r.procs|
      ensures DisjointAt(r.procs, i, j) && SerialsRise(r.procs, i, j)
    {
      assert OwnsAt(k, i);
      if j < n { assert DisjointAt(k.procs, i, j) && SerialsRise(k.procs, i, j); }
    }
    OwnedAppend(k.procs, p);
    OwnedLive(k);
  }

  lemma OwnedLive(k: Kernel)
    requires forall i | 0 <= i < |k.procs| :: OwnsAt(k, i)
    ensures Owned(k.procs) <= UsedSet(k.blocks)
  {
    forall p | p in k.procs
      ensures p.node in UsedSet(k.blocks) && p.stack in UsedSet(k.blocks)
    {
      var i :| 0 <= i < |k.procs| && k.procs[i] == p;
      assert OwnsAt(k, i);
    }
  }

  /** A block granted to someone else takes nothing away from the listed processes. */
  lemma GrantKeepsOwned(k: Kernel, request: uint32)
    requires WellOwned(k) && Grants(k.blocks, request)
    ensures var l := k.(blocks := H.Alloc(k.blocks, request).blocks);
            WellOwned(l) && Others(l) == Others(k) + {Grant(k.blocks, request)}
    ensures Grant(k.blocks, request) !in Owned(k.procs)
  {
    AllocGrants(k.blocks, request);
    var l := k.(blocks := H.Alloc(k.blocks, request).blocks);
    forall i | 0 <= i < |k.procs| ensures OwnsAt(l, i) { assert OwnsAt(k, i); }
    OwnedLive(k);
  }

  lemma ReleaseKeepsOwned(k: Kernel, b: Block)
    requires WellOwned(k) && b in Others(k)
    ensures var l := k.(blocks := H.Free(k.blocks, b.Ptr()));
            WellOwned(l) && Others(l) == Others(k) - {b}
  {
    FreeLive(k.blocks, b);
    var l := k.(blocks := H.Free(k.blocks, b.Ptr()));
    forall i | 0 <= i < |k.procs| ensures OwnsAt(l, i) {
      assert OwnsAt(k, i) && k.procs[i] in k.procs;
    }
  }

  lemma OwnedWithout(ps: seq<Process>, i: int)
    requires 0 <= i < |ps| && ps[i].node != ps[i].stack
    requires forall j, l | 0 <= j < l < |ps| :: DisjointAt(ps, j, l)
    ensures Owned(Without(ps, i)) == Owned(ps) - {ps[i].node, ps[i].stack}
  {
    var r := Without(ps, i);
    assert ps == ps[..i] + [ps[i]] + ps[i + 1..];
    forall q | q in r
      ensures q in ps && q.node !in {ps[i].node, ps[i].stack} && q.stack !in {ps[i].node, ps[i].stack}
    {
      var j :| 0 <= j < |r| && r[j] == q;
      assert if j < i then q == ps[j] && DisjointAt(ps, j, i) else q == ps[j + 1] && DisjointAt(ps, i, j + 1);
    }
    forall q | q in ps && q != ps[i]
      ensures q in r
    {
    }
  }

  lemma StackIsNoNode(k: Kernel, i: int)
    requires WellOwned(k) && 0 <= i < |k.procs|
    ensures forall p | p in k.procs :: p.node != k.procs[i].stack
  {
    forall p | p in k.procs ensures p.node != k.procs[i].stack {
      var j :| 0 <= j < |k.procs| && k.procs[j] == p;
      assert OwnsAt(k, i);
      if j < i { assert DisjointAt(k.procs, j, i); }
      if i < j { assert DisjointAt(k.procs, i, j); }
    }
  }

  lemma RemovedBlocks(k: Kernel)
    requires WellOwned(k) && 0 <= k.current
    ensures Canonical(Removed(k).blocks)
    ensures var p := k.procs[k.current];
            UsedSet(Removed(k).blocks) == UsedSet(k.blocks) - {p.node, p.stack}
  {
    var p := k.procs[k.current];
    assert OwnsAt(k, k.current);
    FreeLive(k.blocks, p.stack);
    assert p.node in UsedSet(H.Free(k.blocks, p.stack.Ptr()));
    FreeLive(H.Free(k.blocks, p.stack.Ptr()), p.node);
  }

  lemma RemovedOwns(k: Kernel, r: Kernel, i: int)
    requires WellOwned(k) && 0 <= k.current && 0 <= i < |k.procs| - 1
    requires r.procs == Without(k.procs, k.current)
    requires var p := k.procs[k.current];
             UsedSet(r.blocks) == UsedSet(k.blocks) - {p.node, p.stack}
    ensures OwnsAt(r, i)
  {
    var j := if i < k.current then i else i + 1;
    assert r.procs[i] == k.procs[j] && OwnsAt(k, j);
    assert if j < k.current then DisjointAt(k.procs, j, k.current) else DisjointAt(k.procs, k.current, j);
  }

  lemma RemovedPairs(k: Kernel, i: int, j: int)
    requires WellOwned(k) && 0 <= k.current && 0 <= i < j < |k.procs| - 1
    ensures DisjointAt(Removed(k).procs, i, j) && SerialsRise(Removed(k).procs, i, j)
  {
    var l, m := if i < k.current then i else i + 1, if j < k.current then j else j + 1;
    assert Removed(k).procs[i] == k.procs[l] && Removed(k).procs[j] == k.procs[m];
    assert DisjointAt(k.procs, l, m) && SerialsRise(k.procs, l, m);
  }

  lemma RemovedKeeps(k: Kernel)
    requires WellOwned(k) && 0 <= k.current
    ensures WellOwned(Removed(k))
    ensures Others(Removed(k)) == Others(k)
  {
    var r := Removed(k);
    RemovedBlocks(k);
    forall i | 0 <= i < |r.procs| ensures OwnsAt(r, i) { RemovedOwns(k, r, i); }
    forall i, j | 0 <= i < j < |r.procs|
      ensures DisjointAt(r.procs, i, j) && SerialsRise(r.procs, i, j)
    {
      RemovedPairs(k, i, j);
    }
    assert OwnsAt(k, k.current);
    OwnedWithout(k.procs, k.current);
    OwnedLive(k);
  }

  /** `l` differs from `k` in process states and the current position only. */
  ghost predicate OnlyStates(k: Kernel, l: Kernel) {
    && l.blocks == k.blocks && l.serial == k.serial && |l.procs| == |k.procs|
    && -1 <= l.current < |l.procs|
    && forall i | 0 <= i < |k.procs| :: l.procs[i] == k.procs[i].(state := l.procs[i].state)
  }

  lemma StatesKeep(k: Kernel, l: Kernel)
    requires WellOwned(k) && OnlyStates(k, l)
    ensures WellOwned(l) && Others(l) == Others(k)
  {
    forall i | 0 <= i < |l.procs|
      ensures OwnsAt(l, i)
    {
      assert OwnsAt(k, i);
    }
    forall i, j | 0 <= i < j < |l.procs|
      ensures DisjointAt(l.procs, i, j) && SerialsRise(l.procs, i, j)
    {
      assert DisjointAt(k.procs, i, j) && SerialsRise(k.procs, i, j);
    }
    SameOwned(k.procs, l.procs);
  }

  lemma SameOwned(ps: seq<Process>, qs: seq<Process>)
    requires |ps| == |qs|
    requires forall i | 0 <= i < |ps| :: ps[i].node == qs[i].node && ps[i].stack == qs[i].stack
    ensures Owned(ps) == Owned(qs)
  {
    forall p | p in ps ensures p.node in Owned(qs) && p.stack in Owned(qs) {
      var i :| 0 <= i < |ps| && ps[i] == p;
      assert qs[i] in qs;
    }
    forall q | q in qs ensures q.node in Owned(ps) && q.stack in Owned(ps) {
      var i :| 0 <= i < |qs| && qs[i] == q;
      assert ps[i] in ps;
    }
  }

  // ---------------------------------------------------------------- runs

  datatype Operation =
    | CreateOp(stackSize: uint32, entry: uint32)
    | StartOp(position: nat)
    | YieldOp
    | ScheduleOp
    | ExitOp

  /** Starting a process that is not listed stands for passing a null pointer. */
  function Step(k: Kernel, op: Operation): (r: Kernel)
    requires -1 <= k.current < |k.procs|
    ensures -1 <= r.current < |r.procs|
  {
    match op
    case CreateOp(stackSize, entry) => Create(k, stackSize, entry)
    case StartOp(i) => if i < |k.procs| then Start(k, i) else k
    case YieldOp => Yield(k)
    case ScheduleOp => Schedule(k)
    case ExitOp => Exit(k)
  }

  function Boot(blocks: seq<Block>): Kernel {
    Kernel(blocks, [], -1, 1)
  }

  function After(blocks: seq<Block>, ops: seq<Operation>): (r: Kernel)
    ensures -1 <= r.current < |r.procs|
  {
    if ops == [] then Boot(blocks)
    else Step(After(blocks, ops[..|ops| - 1]), ops[|ops| - 1])
  }

  lemma OnlyStatesChange(k: Kernel, i: int)
    requires -1 <= k.current < |k.procs|
    ensures OnlyStates(k, Yield(k))
    ensures OnlyStates(k, Schedule(k))
    ensures 0 <= i < |k.procs| ==> OnlyStates(k, Start(k, i))
  {
  }

  lemma StepOwns(k: Kernel, op: Operation)
    requires WellOwned(k) && k.serial > 0
    ensures WellOwned(Step(k, op)) && Step(k, op).serial > 0
    ensures Others(Step(k, op)) == Others(k)
  {
    match op
    case CreateOp(n, e) =>
      if Grants(k.blocks, PROCESS_SIZE) && Grants(H.Alloc(k.blocks, PROCESS_SIZE).blocks, n) {
        CreatedKeeps(k, n, e);
      } else {
        FailedCreate(k, n, e);
      }
    case StartOp(i) => OnlyStatesChange(k, i); StatesKeep(k, Step(k, op));
    case YieldOp => OnlyStatesChange(k, 0); StatesKeep(k, Step(k, op));
    case ScheduleOp => OnlyStatesChange(k, 0); StatesKeep(k, Step(k, op));
    case ExitOp =>
      if k.current >= 0 {
        RemovedKeeps(k);
        OnlyStatesChange(Removed(k), 0);
        StatesKeep(Removed(k), Schedule(Removed(k)));
      }
  }

  /**
   Over any run, a live block of the heap either was live before the first creation or is the
   structure or the stack of exactly one listed process.
   */
  lemma {:induction false} RunOwns(blocks: seq<Block>, ops: seq<Operation>)
    requires Canonical(blocks)
    ensures WellOwned(After(blocks, ops)) && After(blocks, ops).serial > 0
    ensures Others(After(blocks, ops)) == UsedSet(blocks)
  {
    if ops == [] {
      assert Owned([]) == {};
    } else {
      RunOwns(blocks, ops[..|ops| - 1]);
      StepOwns(After(blocks, ops[..|ops| - 1]), ops[|ops| - 1]);
    }
  }

  /** Once every process has exited, the heap is what it was before the first creation. */
  lemma AllExited(blocks: seq<Block>, ops: seq<Operation>)
    requires Canonical(blocks) && After(blocks, ops).procs == []
    ensures After(blocks, ops).blocks == blocks
  {
    RunOwns(blocks, ops);
    assert Owned([]) == {};
    CanonicalForm(After(blocks, ops).blocks, blocks);
  }

  // ---------------------------------------------------------------- process identifiers

  ghost predicate PidLess(ps: seq<Process>, i: int, j: int)
    requires 0 <= i < |ps| && 0 <= j < |ps|
  {
    ps[i].Pid() < ps[j].Pid()
  }

  ghost predicate Rising(ps: seq<Process>) {
    forall i, j | 0 <= i < j < |ps| :: PidLess(ps, i, j)
  }

  /** As long as the counter has not wrapped, pids rise strictly along the list. */
  lemma PidsRise(k: Kernel)
    requires WellOwned(k) && k.serial <= WORD_LIMIT
    ensures Rising(k.procs)
  {
    forall i, j | 0 <= i < j < |k.procs| ensures PidLess(k.procs, i, j) { assert SerialsRise(k.procs, i, j); }
  }

  /** The creation succeeds and the next pid is no larger than the last one listed. */
  ghost predicate FallsBack(k: Kernel, op: Operation) {
    && op.CreateOp?
    && Grants(k.blocks, PROCESS_SIZE) && Grants(H.Alloc(k.blocks, PROCESS_SIZE).blocks, op.stackSize)
    && k.procs != [] && k.serial % WORD_LIMIT <= k.procs[|k.procs| - 1].Pid()
  }

  /** A step keeps pids rising along the list unless it is a creation that falls back. */
  lemma StepRisesIff(k: Kernel, op: Operation)
    requires WellOwned(k) && Rising(k.procs)
    ensures Rising(Step(k, op).procs) <==> !FallsBack(k, op)
  {
    match op
    case CreateOp(n, e) =>
      if Grants(k.blocks, PROCESS_SIZE) && Grants(H.Alloc(k.blocks, PROCESS_SIZE).blocks, n) {
        AppendRisesIff(k.procs, Created(k, n, e).procs[|k.procs|]);
      } else {
        FailedCreate(k, n, e);
      }
    case StartOp(i) => OnlyStatesChange(k, i); SamePidsRise(k.procs, Step(k, op).procs);
    case YieldOp => OnlyStatesChange(k, 0); SamePidsRise(k.procs, Step(k, op).procs);
    case ScheduleOp => OnlyStatesChange(k, 0); SamePidsRise(k.procs, Step(k, op).procs);
    case ExitOp =>
      if k.current >= 0 {
        WithoutRises(k.procs, k.current);
        OnlyStatesChange(Removed(k), 0);
        SamePidsRise(Removed(k).procs, Step(k, op).procs);
      }
  }

  lemma AppendRisesIff(ps: seq<Process>, p: Process)
    requires Rising(ps)
    ensures Rising(ps + [p]) <==> ps == [] || ps[|ps| - 1].Pid() < p.Pid()
  {
    var n, qs := |ps|, ps + [p];
    if Rising(qs) && n > 0 { assert PidLess(qs, n - 1, n); }
    if n == 0 || ps[n - 1].Pid() < p.Pid() {
      forall i, j | 0 <= i < j < |qs| ensures PidLess(qs, i, j) {
        assert i < j < n ==> PidLess(ps, i, j);
        assert i < n - 1 ==> PidLess(ps, i, n - 1);
      }
    }
  }

  lemma SamePidsRise(ps: seq<Process>, qs: seq<Process>)
    requires Rising(ps) && |qs| == |ps| && forall i | 0 <= i < |ps| :: qs[i].serial == ps[i].serial
    ensures Rising(qs)
  {
    forall i, j | 0 <= i < j < |qs| ensures PidLess(qs, i, j) { assert PidLess(ps, i, j); }
  }

  lemma WithoutRises(ps: seq<Process>, c: int)
    requires Rising(ps) && 0 <= c < |ps|
    ensures Rising(Without(ps, c))
  {
    var qs := Without(ps, c);
    forall i, j | 0 <= i < j < |qs| ensures PidLess(qs, i, j) {
      assert PidLess(ps, if i < c then i else i + 1, if j < c then j else j + 1);
    }
  }

  ghost predicate RisingThroughout(blocks: seq<Block>, ops: seq<Operation>) {
    Rising(After(blocks, ops).procs) && (ops != [] ==> RisingThroughout(blocks, ops[..|ops| - 1]))
  }

  ghost predicate NeverFallsBack(blocks: seq<Block>, ops: seq<Operation>) {
    ops != [] ==>
      var n := |ops| - 1;
      NeverFallsBack(blocks, ops[..n]) && !FallsBack(After(blocks, ops[..n]), ops[n])
  }

  /** In every state of a run pids rise along the list exactly when no creation of the run fell back. */
  lemma {:induction false} RunRisesIff(blocks: seq<Block>, ops: seq<Operation>)
    requires Canonical(blocks)
    ensures RisingThroughout(blocks, ops) <==> NeverFallsBack(blocks, ops)
    decreases |ops|
  {
    if ops != [] {
      var n := |ops| - 1;
      RunRisesIff(blocks, ops[..n]);
      RunOwns(blocks, ops[..n]);
      if RisingThroughout(blocks, ops[..n]) {
        assert Rising(After(blocks, ops[..n]).procs);
        StepRisesIff(After(blocks, ops[..n]), ops[n]);
      }
    }
  }

  /** Processes that are created, run and exit one after the other. */
  function Churn(op: Operation, n: nat): seq<Operation> {
    if n == 0 then [] else Churn(op, n - 1) + [op, StartOp(0), ExitOp]
  }

  lemma AfterMore(blocks: seq<Block>, ops: seq<Operation>, op: Operation)
    ensures After(blocks, ops + [op]) == Step(After(blocks, ops), op)
  {
    assert (ops + [op])[..|ops|] == ops;
  }

  lemma ChurnOnce(blocks: seq<Block>, op: Operation, serial: nat)
    requires op.CreateOp? && Create(Boot(blocks), op.stackSize, op.entry).procs != []
    ensures var k := Step(Step(Step(Boot(blocks).(serial := serial), op), StartOp(0)), ExitOp);
            k.procs == [] && k.current == -1 && k.serial == serial + 1
  {
    var k := Step(Boot(blocks).(serial := serial), op);
    assert |k.procs| == 1 && k.procs[0].state == READY;
    var l := Step(k, StartOp(0));
    assert |l.procs| == 1 && l.current == 0;
    assert Removed(l).procs == [];
  }

  /** They leave nothing behind but the counter. */
  lemma {:induction false} ChurnLeaves(blocks: seq<Block>, op: Operation, n: nat)
    requires Canonical(blocks) && op.CreateOp? && Create(Boot(blocks), op.stackSize, op.entry).procs != []
    ensures After(blocks, Churn(op, n)) == Boot(blocks).(serial := n + 1)
    decreases n
  {
    hide Step, Create, Canonical;
    if n > 0 {
      var c := Churn(op, n - 1);
      ChurnLeaves(blocks, op, n - 1);
      AfterMore(blocks, c, op);
      AfterMore(blocks, c + [op], StartOp(0));
      AfterMore(blocks, c + [op] + [StartOp(0)], ExitOp);
      assert c + [op] + [StartOp(0)] + [ExitOp] == Churn(op, n);
      ChurnOnce(blocks, op, n);
      AllExited(blocks, Churn(op, n));
    }
  }

  lemma CreateTwice(blocks: seq<Block>, op: Operation, serial: nat)
    requires op.CreateOp? && |Step(Step(Boot(blocks), op), op).procs| == 2
    ensures Create(Boot(blocks), op.stackSize, op.entry).procs != []
    ensures var ps := Step(Step(Boot(blocks).(serial := serial), op), op).procs;
            |ps| == 2 && ps[0].serial == serial && ps[1].serial == serial + 1
  {
    var k, l := Step(Boot(blocks), op), Step(Boot(blocks).(serial := serial), op);
    assert |k.procs| == 1 && l.blocks == k.blocks && |l.procs| == 1;
  }

  lemma ChurnThenTwo(blocks: seq<Block>, op: Operation, n: nat)
    requires Canonical(blocks) && op.CreateOp? && |After(blocks, [op, op]).procs| == 2
    ensures After(blocks, Churn(op, n) + [op, op]) == Step(Step(Boot(blocks).(serial := n + 1), op), op)
    ensures |Step(Step(Boot(blocks), op), op).procs| == 2
  {
    var c := Churn(op, n);
    assert After(blocks, []) == Boot(blocks);
    AfterMore(blocks, [], op);
    AfterMore(blocks, [op], op);
    assert [] + [op] == [op] && [op] + [op] == [op, op];
    CreateTwice(blocks, op, n + 1);
    ChurnLeaves(blocks, op, n);
    AfterMore(blocks, c, op);
    AfterMore(blocks, c + [op], op);
    assert c + [op] + [op] == c + [op, op];
    hide Step, Canonical, Create, Churn, After;
  }

  /** After 2^32 - 2 of them, two that live together have the largest pid and then 0. */
  lemma PidsFallBack(blocks: seq<Block>, op: Operation, n: nat)
    requires Canonical(blocks) && op.CreateOp? && |After(blocks, [op, op]).procs| == 2 && n == WORD_LIMIT - 2
    ensures var ps := After(blocks, Churn(op, n) + [op, op]).procs;
            |ps| == 2 && ps[0].Pid() == WORD_LIMIT - 1 && ps[1].Pid() == 0 && !Rising(ps)
  {
    ChurnThenTwo(blocks, op, n);
    CreateTwice(blocks, op, n + 1);
    hide Step, Canonical, Create, Churn, After;
    var ps := After(blocks, Churn(op, n) + [op, op]).procs;
    assert ps[0].Pid() == WORD_LIMIT - 1 && ps[1].Pid() == 0;
    assert !PidLess(ps, 0, 1);
  }

  // ---------------------------------------------------------------- safety

  lemma {:induction false} NextReadyFinds(ps: seq<Process>, from: int)
    requires 0 <= from <= |ps|
    ensures forall i | from <= i < NextReady(ps, from) :: ps[i].state != READY
    ensures NextReady(ps, from) < |ps| ==> ps[NextReady(ps, from)].state == READY
    decreases |ps| - from
  {
    if from < |ps| && ps[from].state != READY {
      NextReadyFinds(ps, from + 1);
    }
  }

  /** Starting keeps the kernel safe exactly when nothing runs or the target is not ready anyway. */
  lemma StartSafeIff(k: Kernel, i: int)
    requires Safe(k) && 0 <= i < |k.procs|
    ensures Safe(Start(k, i)) <==> k.current < 0 || k.procs[i].state != READY
  {
    var r := Start(k, i);
    if k.current >= 0 && k.procs[i].state == READY {
      assert r.procs[k.current].state == RUNNING && k.current != i;
    }
  }

  lemma StartedBoth(k: Kernel)
    requires |k.procs| == 2 && k.procs[0].state == READY && k.procs[1].state == READY && -1 <= k.current < 2
    ensures var r := Step(Step(k, StartOp(0)), StartOp(1));
            && |r.procs| == 2 && r.procs[0].state == RUNNING && r.procs[1].state == RUNNING && r.current == 1
            && !Safe(r)
  {
    StartRuns(k, 0);
    StartRuns(Start(k, 0), 1);
  }

  lemma TwoReady(blocks: seq<Block>, op: Operation)
    requires op.CreateOp? && |After(blocks, [op, op]).procs| == 2
    ensures var k := After(blocks, [op, op]); k.procs[0].state == READY && k.procs[1].state == READY && k.current == -1
  {
    assert After(blocks, []) == Boot(blocks);
    hide After, Step;
    AfterMore(blocks, [], op);
    AfterMore(blocks, [op], op);
    assert [] + [op] == [op] && [op] + [op] == [op, op];
    CreatedReady(Boot(blocks), op);
    CreatedReady(After(blocks, [op]), op);
  }

  /** Two processes started one after the other both run. */
  lemma TwoRunning(blocks: seq<Block>, op: Operation)
    requires op.CreateOp? && |After(blocks, [op, op]).procs| == 2
    ensures var k := After(blocks, [op, op] + [StartOp(0)] + [StartOp(1)]);
            && |k.procs| == 2 && k.procs[0].state == RUNNING && k.procs[1].state == RUNNING && k.current == 1
            && !Safe(k)
  {
    TwoReady(blocks, op);
    hide After, Step, Safe;
    AfterMore(blocks, [op, op], StartOp(0));
    AfterMore(blocks, [op, op] + [StartOp(0)], StartOp(1));
    StartedBoth(After(blocks, [op, op]));
  }

  lemma CreatedReady(k: Kernel, op: Operation)
    requires op.CreateOp? && -1 <= k.current < |k.procs| && forall p | p in k.procs :: p.state == READY
    ensures forall p | p in Step(k, op).procs :: p.state == READY
    ensures Step(k, op).current == k.current
  {
  }

  lemma ScheduleSafe(k: Kernel)
    requires Safe(k)
    ensures Safe(Schedule(k))
    ensures var r := Schedule(k);
            r.current >= 0 || forall i | 0 <= i < |r.procs| :: r.procs[i].state != READY
  {
    NextReadyFinds(k.procs, 0);
  }

  lemma ExitSafe(k: Kernel)
    requires Safe(k)
    ensures Safe(Exit(k))
    ensures var r := Exit(k);
            0 <= k.current ==> r.current >= 0 || forall i | 0 <= i < |r.procs| :: r.procs[i].state != READY
  {
    if k.current >= 0 {
      var r := Removed(k);
      forall i | 0 <= i < |r.procs|
        ensures r.procs[i].state == READY
      {
        assert r.procs[i] == k.procs[if i < k.current then i else i + 1];
      }
      ScheduleSafe(r);
    }
  }

  /** Every start in the run happened with nothing running, or was one the code ignores. */
  ghost predicate StartsGuarded(blocks: seq<Block>, ops: seq<Operation>) {
    forall n | 0 <= n < |ops| :: StartGuardedAt(blocks, ops, n)
  }

  ghost predicate StartGuardedAt(blocks: seq<Block>, ops: seq<Operation>, n: int)
    requires 0 <= n < |ops|
  {
    var k := After(blocks, ops[..n]);
    ops[n].StartOp? && ops[n].position < |k.procs| ==>
      k.current < 0 || k.procs[ops[n].position].state != READY
  }

  ghost predicate SafeThroughout(blocks: seq<Block>, ops: seq<Operation>) {
    forall n | 0 <= n <= |ops| :: SafeAt(blocks, ops, n)
  }

  ghost predicate SafeAt(blocks: seq<Block>, ops: seq<Operation>, n: int)
    requires 0 <= n <= |ops|
  {
    Safe(After(blocks, ops[..n]))
  }

  lemma StepSafeIff(k: Kernel, op: Operation)
    requires Safe(k)
    ensures Safe(Step(k, op)) <==>
            (op.StartOp? && op.position < |k.procs| ==> k.current < 0 || k.procs[op.position].state != READY)
  {
    match op
    case CreateOp(_, _) =>
    case StartOp(i) => if i < |k.procs| { StartSafeIff(k, i); }
    case YieldOp => NextReadyFinds(k.procs, 0);
      if k.current >= 0 { NextReadyFinds(k.procs, k.current + 1); }
    case ScheduleOp => ScheduleSafe(k);
    case ExitOp => ExitSafe(k);
  }

  lemma {:induction false} SafeUpTo(blocks: seq<Block>, ops: seq<Operation>, n: int)
    requires 0 <= n <= |ops|
    requires StartsGuarded(blocks, ops)
    ensures SafeAt(blocks, ops, n)
  {
    if n == 0 {
      assert ops[..0] == [];
    } else {
      SafeUpTo(blocks, ops, n - 1);
      assert StartGuardedAt(blocks, ops, n - 1);
      StepOfRun(blocks, ops, n - 1);
      StepSafeIff(After(blocks, ops[..n - 1]), ops[n - 1]);
    }
  }

  lemma StepOfRun(blocks: seq<Block>, ops: seq<Operation>, n: int)
    requires 0 <= n < |ops|
    ensures After(blocks, ops[..n + 1]) == Step(After(blocks, ops[..n]), ops[n])
  {
    assert ops[..n + 1][..n] == ops[..n];
  }

  /**
   At most one process runs and it is the current one, in every state of a run, exactly when
   no start of a ready process happened while another was running.
   */
  lemma RunSafeIff(blocks: seq<Block>, ops: seq<Operation>)
    ensures SafeThroughout(blocks, ops) <==> StartsGuarded(blocks, ops)
  {
    if StartsGuarded(blocks, ops) {
      forall n | 0 <= n <= |ops| ensures SafeAt(blocks, ops, n) { SafeUpTo(blocks, ops, n); }
    }
    if SafeThroughout(blocks, ops) {
      forall n | 0 <= n < |ops|
        ensures StartGuardedAt(blocks, ops, n)
      {
        assert SafeAt(blocks, ops, n) && SafeAt(blocks, ops, n + 1);
        StepOfRun(blocks, ops, n);
        StepSafeIff(After(blocks, ops[..n]), ops[n]);
      }
    }
  }

  // ---------------------------------------------------------------- who runs next

  /** `i` is the first ready process of the list. */
  ghost predicate FirstReady(ps: seq<Process>, i: int) {
    0 <= i < |ps| && ps[i].state == 0 && forall j | 0 <= j < i :: ps[j].state != 0
  }

  ghost predicate NoneReady(ps: seq<Process>) {
    forall j | 0 <= j < |ps| :: ps[j].state != 0
  }

  /** A schedule while the current process runs changes nothing; otherwise the first ready process of the list runs, if there is one, and nothing else changes. */
  lemma ScheduleRunsFirst(k: Kernel)
    requires -1 <= k.current < |k.procs|
    ensures var r := Schedule(k);
            if (k.current >= 0 && k.procs[k.current].state == 1) || NoneReady(k.procs) then r == k
            else FirstReady(k.procs, r.current) && r == k.(procs := k.procs[r.current := k.procs[r.current].(state := 1)], current := r.current)
  {
    NextReadyFinds(k.procs, 0);
  }

  /** After an exit the list is that of the others in their order, and the first ready one of them runs; without a current process nothing happens. */
  lemma ExitRunsFirst(k: Kernel)
    requires WellOwned(k)
    ensures var r := Exit(k);
            if k.current < 0 then r == k
            else
              var p, rest := k.procs[k.current], k.procs[..k.current] + k.procs[k.current + 1..];
              && UsedSet(r.blocks) == UsedSet(k.blocks) - {p.node, p.stack} && r.serial == k.serial
              && (if NoneReady(rest) then r.procs == rest && r.current == -1
                  else FirstReady(rest, r.current) && r.procs == rest[r.current := rest[r.current].(state := 1)])
  {
    if k.current >= 0 {
      RemovedBlocks(k);
      ScheduleRunsFirst(Removed(k));
    }
  }

  /** `n` is the first ready process behind position `c`, or, if there is none, the first one in front of it. */
  ghost predicate ReadyBehind(ps: seq<Process>, c: int, n: int) {
    && 0 <= c < |ps| && 0 <= n < |ps| && n != c && ps[n].state == 0
    && (if c < n then forall j | c < j < n :: ps[j].state != 0
        else forall j | 0 <= j < |ps| && (c < j || j < n) :: ps[j].state != 0)
  }

  /** A yield passes the processor to the next ready process round the list, wherever it stands, and makes the one that yields ready; if no other is ready nothing changes. */
  lemma YieldRunsNext(k: Kernel)
    requires -1 <= k.current < |k.procs|
    ensures var r, c := Yield(k), k.current;
            if c < 0 || forall j | 0 <= j < |k.procs| && j != c :: k.procs[j].state != 0 then r == k
            else
              && ReadyBehind(k.procs, c, r.current)
              && r == k.(procs := k.procs[c := k.procs[c].(state := 0)][r.current := k.procs[r.current].(state := 1)], current := r.current)
  {
    if k.current >= 0 {
      NextReadyFinds(k.procs, 0);
      NextReadyFinds(k.procs, k.current + 1);
    }
  }

  /** A start runs a ready process and makes it the current one; it does nothing to any other. */
  lemma StartRuns(k: Kernel, i: int)
    requires 0 <= i < |k.procs|
    ensures Start(k, i) ==
            if k.procs[i].state == 0 then k.(procs := k.procs[i := k.procs[i].(state := 1)], current := i) else k
  {
  }

  /**
   A creation that succeeds puts a ready process with the next pid, counted from 1, at the end of the list,
   its structure in the first of two blocks of 24 bytes and of its stack size, and runs nothing.
   */
  lemma CreateAppends(k: Kernel, stackSize: uint32, entry: uint32)
    requires Canonical(k.blocks) && k.serial > 0
    ensures var r, a := Create(k, stackSize, entry), H.Alloc(k.blocks, 24);
            if Grants(k.blocks, 24) && Grants(a.blocks, stackSize) then
              && |r.procs| == |k.procs| + 1 && r.procs[..|k.procs|] == k.procs && r.current == k.current
              && r.blocks == H.Alloc(a.blocks, stackSize).blocks
              && var p := r.procs[|k.procs|];
                 && p.node == Grant(k.blocks, 24) && p.stack == Grant(a.blocks, stackSize)
                 && p.Pid() == k.serial % 0x1_0000_0000 && p.state == 0 && p.stackSize == stackSize && p.entry == entry
                 && r.serial == k.serial + 1 && Boot(k.blocks).serial == 1
            else r == k
  {
    if !(Grants(k.blocks, 24) && Grants(H.Alloc(k.blocks, 24).blocks, stackSize)) { FailedCreate(k, stackSize, entry); }
  }

  // ---------------------------------------------------------------- round robin

  function Yields(k: Kernel, n: nat): (r: Kernel)
    requires -1 <= k.current < |k.procs|
    ensures -1 <= r.current < |r.procs|
  {
    if n == 0 then k else Yield(Yields(k, n - 1))
  }

  lemma SuccessorIsNext(k: Kernel)
    requires Safe(k) && 0 <= k.current && 1 < |k.procs|
    ensures Successor(k.procs, k.current) == if k.current + 1 < |k.procs| then k.current + 1 else 0
  {
    if k.current + 1 < |k.procs| {
      assert k.procs[k.current + 1].state == READY;
    } else {
      assert k.procs[0].state == READY;
    }
  }

  lemma YieldMovesOn(k: Kernel)
    requires Safe(k) && 0 <= k.current
    ensures Safe(Yield(k)) && OnlyStates(k, Yield(k))
    ensures Yield(k).current == (k.current + 1) % |k.procs|
  {
    var n := |k.procs|;
    if n == 1 {
      NextReadyFinds(k.procs, 0);
      ModIs(1, 1, 1, 0);
    } else {
      SuccessorIsNext(k);
      if k.current + 1 < n { SmallMod(k.current + 1, n); } else { ModIs(n, n, 1, 0); }
    }
  }

  /** With no creation or exit in between, `n` yields move the running position on by `n`. */
  lemma {:induction false} RoundRobin(k: Kernel, n: nat)
    requires Safe(k) && 0 <= k.current
    ensures var r := Yields(k, n);
            Safe(r) && OnlyStates(k, r) && r.current == (k.current + n) % |k.procs|
  {
    if n == 0 {
      SmallMod(k.current, |k.procs|);
    } else {
      RoundRobin(k, n - 1);
      YieldMovesOn(Yields(k, n - 1));
      ModStep(k.current + n - 1, |k.procs|);
    }
  }

  lemma Reached(k: Kernel, start: nat, i: int) returns (n: nat)
    requires Safe(k) && 0 <= k.current && 0 <= i < |k.procs|
    ensures start < n <= start + |k.procs| && Yields(k, n).current == i
  {
    var d := ModReached(k.current + start, i, |k.procs|);
    n := start + d;
    RoundRobin(k, n);
    assert k.current + n == (k.current + start) + d;
  }

  lemma ReachedOnce(k: Kernel, n: nat, m: nat)
    requires Safe(k) && 0 <= k.current
    requires n < m < n + |k.procs|
    ensures Yields(k, n).current != Yields(k, m).current
  {
    RoundRobin(k, n);
    RoundRobin(k, m);
    ModApart(k.current + n, m - n, |k.procs|);
    assert k.current + m == (k.current + n) + (m - n);
  }

  /** Any |procs| yields in a row bring each process to run exactly once. */
  lemma FairWindow(k: Kernel, start: nat, i: int)
    requires Safe(k) && 0 <= k.current && 0 <= i < |k.procs|
    ensures exists n: nat | start < n <= start + |k.procs| :: Yields(k, n).current == i
    ensures forall n: nat, m: nat | start < n < m <= start + |k.procs| ::
              !(Yields(k, n).current == i && Yields(k, m).current == i)
  {
    var n := Reached(k, start, i);
    forall n: nat, m: nat | start < n < m <= start + |k.procs|
      ensures Yields(k, n).current != Yields(k, m).current
    {
      ReachedOnce(k, n, m);
    }
  }
}
