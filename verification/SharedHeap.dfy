/**
 Processes and files on one heap: neither client disturbs the other, however their operations
 interleave, and once both have let go of everything the heap is what it was.
 */
module SharedHeap {
  import opened Bytes
  import opened CStrings
  import opened FileTree
  import H = HeapSpec
  import P = SchedulerSpec
  import F = FileOps
  import R = FileRuns

  /** The scheduler's and the filesystem's view of one heap. */
  datatype System = System(kernel: P.Kernel, volume: F.Volume)

  datatype Event = Scheduling(op: P.Operation) | Filing(command: F.Command)

  ghost predicate Shared(s: System) {
    && P.WellOwned(s.kernel) && s.kernel.serial > 0
    && F.Sound(s.volume)
    && s.volume.blocks == s.kernel.blocks
    && P.Owned(s.kernel.procs) !! F.Owned(s.volume)
  }

  /** The live blocks of neither. */
  ghost function Rest(s: System): set<H.Block>
    requires |s.volume.tree.entries| == |s.volume.held| == MAX_ENTRIES
  {
    H.UsedSet(s.kernel.blocks) - P.Owned(s.kernel.procs) - F.Owned(s.volume)
  }

  predicate Proper(e: Event) {
    e.Filing? ==> F.WellFormed(e.command)
  }

  ghost function Step(s: System, e: Event): System
    requires Shared(s) && Proper(e)
  {
    match e
    case Scheduling(op) =>
      var k := P.Step(s.kernel, op);
      System(k, s.volume.(blocks := k.blocks))
    case Filing(command) =>
      var v := F.Perform(s.volume, command).volume;
      System(s.kernel.(blocks := v.blocks), v)
  }

  // ---------------------------------------------------------------- one client's step, seen by the other

  lemma OwnedInUse(v: F.Volume)
    requires F.Sound(v)
    ensures F.Owned(v) <= H.UsedSet(v.blocks)
  {
    forall b | b in F.Owned(v) ensures b in H.UsedSet(v.blocks) {
      var i :| 0 <= i < MAX_ENTRIES && F.Holds(v, i) && v.held[i] == b;
      assert F.BufferAt(v, i);
    }
  }

  /** The buffers stay where they are when the rest of the heap changes around them. */
  lemma VolumeMoves(v: F.Volume, blocks: seq<H.Block>)
    requires F.Sound(v) && H.Canonical(blocks) && F.Owned(v) <= H.UsedSet(blocks)
    ensures F.Sound(v.(blocks := blocks)) && F.Owned(v.(blocks := blocks)) == F.Owned(v)
  {
    var w := v.(blocks := blocks);
    forall i | 0 <= i < MAX_ENTRIES ensures F.BufferAt(w, i) {
      assert F.BufferAt(v, i);
      if F.Holds(v, i) { assert v.held[i] in F.Owned(v); }
    }
    forall i, j | 0 <= i < j < MAX_ENTRIES ensures F.BuffersApart(w, i, j) { assert F.BuffersApart(v, i, j); }
    forall i | 0 <= i < MAX_ENTRIES ensures F.Holds(w, i) == F.Holds(v, i) {}
    R.SameOwned(v, w);
  }

  lemma ProcessesMove(k: P.Kernel, blocks: seq<H.Block>)
    requires P.WellOwned(k) && H.Canonical(blocks) && P.Owned(k.procs) <= H.UsedSet(blocks)
    ensures P.WellOwned(k.(blocks := blocks))
  {
    var l := k.(blocks := blocks);
    forall i | 0 <= i < |l.procs| ensures P.OwnsAt(l, i) {
      assert P.OwnsAt(k, i) && k.procs[i] in k.procs;
    }
  }

  /** A client that changes only what it owns leaves the other's blocks in use and its own apart. */
  lemma SetsShare<T>(used: set<T>, later: set<T>, mine: set<T>, mineLater: set<T>, other: set<T>)
    requires mine !! other && other <= used && mineLater <= later && later - mineLater == used - mine
    ensures other <= later && mineLater !! other
    ensures later - mineLater - other == used - mine - other
    ensures later - other - mineLater == used - other - mine
  {
    forall x | x in other ensures x in later && x !in mineLater {
      assert x in used - mine;
    }
    assert used - mine - other == used - other - mine;
    assert later - mineLater - other == later - other - mineLater;
  }

  lemma SchedulingShares(s: System, op: P.Operation)
    requires Shared(s)
    ensures Shared(Step(s, Scheduling(op))) && Rest(Step(s, Scheduling(op))) == Rest(s)
  {
    var k := P.Step(s.kernel, op);
    P.StepOwns(s.kernel, op);
    OwnedInUse(s.volume);
    P.OwnedLive(k);
    hide P.Step, H.UsedSet, P.Owned, F.Owned, F.Sound;
    SetsShare(H.UsedSet(s.kernel.blocks), H.UsedSet(k.blocks), P.Owned(s.kernel.procs), P.Owned(k.procs), F.Owned(s.volume));
    VolumeMoves(s.volume, k.blocks);
  }

  lemma FilingShares(s: System, command: F.Command)
    requires Shared(s) && F.WellFormed(command)
    ensures Shared(Step(s, Filing(command))) && Rest(Step(s, Filing(command))) == Rest(s)
  {
    var w := F.Perform(s.volume, command).volume;
    R.PerformForeign(s.volume, command);
    P.OwnedLive(s.kernel);
    OwnedInUse(w);
    hide F.Perform, H.UsedSet, P.Owned, F.Owned, F.Sound;
    SetsShare(H.UsedSet(s.kernel.blocks), H.UsedSet(w.blocks), F.Owned(s.volume), F.Owned(w), P.Owned(s.kernel.procs));
    ProcessesMove(s.kernel, w.blocks);
  }

  lemma StepShares(s: System, e: Event)
    requires Shared(s) && Proper(e)
    ensures Shared(Step(s, e)) && Rest(Step(s, e)) == Rest(s)
  {
    match e
    case Scheduling(op) => SchedulingShares(s, op);
    case Filing(command) => FilingShares(s, command);
  }

  // ---------------------------------------------------------------- runs

  ghost function After(s: System, es: seq<Event>): (r: System)
    requires Shared(s) && forall e | e in es :: Proper(e)
    ensures Shared(r) && Rest(r) == Rest(s)
  {
    if es == [] then s
    else
      var t := After(s, es[..|es| - 1]);
      StepShares(t, es[|es| - 1]);
      Step(t, es[|es| - 1])
  }

  function Boot(blocks: seq<H.Block>): System {
    System(P.Boot(blocks), F.Fresh(blocks))
  }

  lemma BootShares(blocks: seq<H.Block>)
    requires H.Canonical(blocks)
    ensures Shared(Boot(blocks)) && Rest(Boot(blocks)) == H.UsedSet(blocks)
  {
    F.FreshSound(blocks);
    assert P.Owned([]) == {};
  }

  /**
   However creations, exits and file operations interleave, every live block belongs to one
   listed process, to one file, or was live at the start; and once the last process has
   exited and the last file is gone, the heap is exactly what it was.
   */
  lemma EverythingReturned(blocks: seq<H.Block>, es: seq<Event>)
    requires H.Canonical(blocks) && forall e | e in es :: Proper(e)
    ensures Shared(Boot(blocks))
    ensures var s := After(Boot(blocks), es);
            && H.UsedSet(s.kernel.blocks) == P.Owned(s.kernel.procs) + F.Owned(s.volume) + H.UsedSet(blocks)
            && (s.kernel.procs == [] && F.Owned(s.volume) == {} ==> s.kernel.blocks == blocks)
  {
    BootShares(blocks);
    var s := After(Boot(blocks), es);
    P.OwnedLive(s.kernel);
    OwnedInUse(s.volume);
    if s.kernel.procs == [] && F.Owned(s.volume) == {} {
      assert P.Owned([]) == {};
      H.CanonicalForm(s.kernel.blocks, blocks);
    }
  }
}
