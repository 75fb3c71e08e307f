/** The process list as it lies in memory: structures in heap blocks, each naming the next one. */
module SchedulerLayout {
  import opened Bytes
  import opened HeapSpec
  import opened HeapLayout
  import S = SchedulerSpec
  import opened SchedulerSpec

  ghost function PtrAt(ps: seq<Process>, i: int): int
    requires 0 <= i <= |ps|
  {
    if i < |ps| then ps[i].Ptr() else 0
  }

  ghost predicate RecordIs(m: seq<byte>, p: Process, next: int) {
    && 0 <= p.Ptr() <= |m| - PROCESS_SIZE
    && Word(m, p.Ptr()) == p.Pid()
    && Word(m, p.Ptr() + 4) == p.state
    && Word(m, p.Ptr() + 8) == p.stack.Ptr()
    && Word(m, p.Ptr() + 12) == p.stackSize
    && Word(m, p.Ptr() + 16) == p.entry
    && Word(m, p.Ptr() + 20) == next
  }

  /** The structure at `a` names `next` as its successor. */
  ghost predicate NextIs(m: seq<byte>, a: int, next: int) {
    0 <= a <= |m| - PROCESS_SIZE && Word(m, a + 20) == next
  }

  ghost predicate RecordAt(m: seq<byte>, ps: seq<Process>, i: int)
    requires 0 <= i < |ps|
  {
    RecordIs(m, ps[i], PtrAt(ps, i + 1))
  }

  ghost predicate Chained(m: seq<byte>, ps: seq<Process>) {
    forall i | 0 <= i < |ps| :: RecordAt(m, ps, i)
  }

  lemma RecordKept(m: seq<byte>, n: seq<byte>, p: Process, next: int)
    requires RecordIs(m, p, next)
    requires SameBytes(m, n, p.Ptr(), p.Ptr() + PROCESS_SIZE)
    ensures RecordIs(n, p, next)
  {
    var a := p.Ptr();
    NumberKept(m, n, a, a, 4);
    NumberKept(m, n, a + 4, a + 4, 4);
    NumberKept(m, n, a + 8, a + 8, 4);
    NumberKept(m, n, a + 12, a + 12, 4);
    NumberKept(m, n, a + 16, a + 16, 4);
    NumberKept(m, n, a + 20, a + 20, 4);
  }

  // ---------------------------------------------------------------- where the structures are

  ghost predicate NodeAt(bs: seq<Block>, ps: seq<Process>, i: int)
    requires 0 <= i < |ps|
  {
    ps[i].node in UsedSet(bs) && ps[i].node.size >= PROCESS_SIZE
  }

  ghost predicate NodesApart(ps: seq<Process>, i: int, j: int)
    requires 0 <= i < |ps| && 0 <= j < |ps|
  {
    ps[i].node != ps[j].node
  }

  /** The structures lie in distinct live blocks. */
  ghost predicate Placed(bs: seq<Block>, ps: seq<Process>) {
    && Tiled(bs)
    && (forall i | 0 <= i < |ps| :: NodeAt(bs, ps, i))
    && (forall i, j | 0 <= i < j < |ps| :: NodesApart(ps, i, j))
  }

  lemma OwnedArePlaced(k: Kernel)
    requires WellOwned(k)
    ensures Placed(k.blocks, k.procs)
  {
    forall i | 0 <= i < |k.procs| ensures NodeAt(k.blocks, k.procs, i) { assert OwnsAt(k, i); }
    forall i, j | 0 <= i < j < |k.procs| ensures NodesApart(k.procs, i, j) { assert DisjointAt(k.procs, i, j); }
  }

  lemma PlacedWithout(bs: seq<Block>, cs: seq<Block>, ps: seq<Process>, i: int)
    requires Placed(bs, ps) && 0 <= i < |ps| && Tiled(cs)
    requires forall b | b in UsedSet(bs) && b !in UsedSet(cs) :: b !in Nodes(ps)
    ensures Placed(cs, Without(ps, i)) && Placed(cs, ps)
  {
    var qs := Without(ps, i);
    forall j | 0 <= j < |ps| ensures NodeAt(cs, ps, j) { assert NodeAt(bs, ps, j) && ps[j].node in Nodes(ps); }
    forall j | 0 <= j < |qs| ensures NodeAt(cs, qs, j) { assert NodeAt(cs, ps, if j < i then j else j + 1); }
    forall j, l | 0 <= j < l < |qs| ensures NodesApart(qs, j, l) {
      assert NodesApart(ps, if j < i then j else j + 1, if l < i then l else l + 1);
    }
  }

  ghost function Nodes(ps: seq<Process>): set<Block> {
    set p | p in ps :: p.node
  }

  /** Structures have distinct, non-null addresses, and room for all six words. */
  lemma PlacedPtrs(bs: seq<Block>, ps: seq<Process>, i: int, j: int)
    requires Placed(bs, ps) && 0 <= i < |ps| && 0 <= j < |ps|
    ensures MEMORY_START < ps[i].Ptr() && ps[i].Ptr() + PROCESS_SIZE <= MEMORY_END
    ensures i != j ==> ps[i].Ptr() != ps[j].Ptr()
  {
    assert NodeAt(bs, ps, i) && NodeAt(bs, ps, j);
    LiveFound(bs, ps[i].node);
    InRegion(bs, LiveIndex(bs, ps[i].Ptr()));
    if i != j {
      assert if i < j then NodesApart(ps, i, j) else NodesApart(ps, j, i);
      LiveDisjoint(bs, ps[i].node, ps[j].node);
    }
  }

  lemma OthersElsewhere(k: Kernel, bs: seq<Block>, i: int)
    requires 0 <= i < |k.procs|
    requires UsedSet(bs) == UsedSet(k.blocks) - {k.procs[i].stack}
    ensures Others(k) <= UsedSet(bs) - Nodes(k.procs)
  {
    assert k.procs[i] in k.procs;
  }

  // ---------------------------------------------------------------- what writes do to the list

  /** The heap operations leave the whole list readable. */
  lemma ChainKept(m: seq<byte>, n: seq<byte>, bs: seq<Block>, ps: seq<Process>)
    requires Placed(bs, ps) && Chained(m, ps) && LiveKept(m, n, bs)
    ensures Chained(n, ps)
  {
    forall i | 0 <= i < |ps|
      ensures RecordAt(n, ps, i)
    {
      assert NodeAt(bs, ps, i) && RecordAt(m, ps, i);
      RecordKept(m, n, ps[i], PtrAt(ps, i + 1));
    }
  }

  /** A write inside one process structure leaves the others as they are. */
  lemma RecordElsewhere(m: seq<byte>, n: seq<byte>, bs: seq<Block>, ps: seq<Process>, i: int, j: int, lo: int, hi: int)
    requires Placed(bs, ps) && 0 <= i < |ps| && 0 <= j < |ps| && i != j
    requires RecordAt(m, ps, j)
    requires ps[i].Ptr() <= lo && hi <= ps[i].Ptr() + PROCESS_SIZE && SameOutside(m, n, lo, hi)
    ensures RecordAt(n, ps, j)
  {
    assert NodeAt(bs, ps, i) && NodeAt(bs, ps, j);
    assert if i < j then NodesApart(ps, i, j) else NodesApart(ps, j, i);
    LiveDisjoint(bs, ps[i].node, ps[j].node);
    RecordKept(m, n, ps[j], PtrAt(ps, j + 1));
  }

  lemma StateWritten(m: seq<byte>, n: seq<byte>, bs: seq<Block>, ps: seq<Process>, i: int, state: uint32)
    requires Placed(bs, ps) && Chained(m, ps) && 0 <= i < |ps|
    requires RecordAt(m, ps, i)
    requires SameOutside(m, n, ps[i].Ptr() + 4, ps[i].Ptr() + 8)
    requires Word(n, ps[i].Ptr() + 4) == state
    ensures Chained(n, WithState(ps, i, state))
  {
    var a, qs := ps[i].Ptr(), WithState(ps, i, state);
    forall j | 0 <= j < |qs|
      ensures RecordAt(n, qs, j)
    {
      assert RecordAt(m, ps, j);
      assert PtrAt(qs, j + 1) == PtrAt(ps, j + 1);
      if j == i {
        FieldsKept(m, n, ps[i], PtrAt(ps, i + 1), 4);
      } else {
        RecordElsewhere(m, n, bs, ps, i, j, a + 4, a + 8);
      }
    }
  }

  /** The fields of a structure other than the one at offset `f`. */
  lemma FieldsKept(m: seq<byte>, n: seq<byte>, p: Process, next: int, f: int)
    requires RecordIs(m, p, next)
    requires f in {4, 20} && SameOutside(m, n, p.Ptr() + f, p.Ptr() + f + 4)
    ensures f == 4 ==> RecordIs(n, p.(state := Word(n, p.Ptr() + 4)), next)
    ensures f == 20 ==> RecordIs(n, p, Word(n, p.Ptr() + 20))
  {
    var a := p.Ptr();
    NumberKept(m, n, a, a, 4);
    if f != 4 { NumberKept(m, n, a + 4, a + 4, 4); }
    NumberKept(m, n, a + 8, a + 8, 4);
    NumberKept(m, n, a + 12, a + 12, 4);
    NumberKept(m, n, a + 16, a + 16, 4);
    if f != 20 { NumberKept(m, n, a + 20, a + 20, 4); }
  }

  /** The last structure is made to name a new one. */
  lemma Appended(m: seq<byte>, n: seq<byte>, bs: seq<Block>, ps: seq<Process>, p: Process)
    requires Placed(bs, ps) && Chained(m, ps) && ps != []
    requires p.node in UsedSet(bs) && p.node.size >= PROCESS_SIZE && p.node !in Nodes(ps)
    requires RecordIs(m, p, 0)
    requires var a := ps[|ps| - 1].Ptr();
             0 <= a <= |m| - PROCESS_SIZE && SameOutside(m, n, a + 20, a + 24) && Word(n, a + 20) == p.Ptr()
    ensures Chained(n, ps + [p])
  {
    var l, qs := |ps| - 1, ps + [p];
    var a := ps[l].Ptr();
    assert NodeAt(bs, ps, l) && ps[l].node in Nodes(ps);
    LiveDisjoint(bs, ps[l].node, p.node);
    RecordKept(m, n, p, 0);
    forall j | 0 <= j < |qs|
      ensures RecordAt(n, qs, j)
    {
      if j < l {
        assert RecordAt(m, ps, j) && PtrAt(qs, j + 1) == PtrAt(ps, j + 1);
        RecordElsewhere(m, n, bs, ps, l, j, a + 20, a + 24);
      } else if j == l {
        assert RecordAt(m, ps, l);
        FieldsKept(m, n, ps[l], 0, 20);
      }
    }
  }

  /** All structures but the one at `i` are in order. */
  ghost predicate ChainedBut(m: seq<byte>, ps: seq<Process>, i: int) {
    forall j | 0 <= j < |ps| && j != i :: RecordAt(m, ps, j)
  }

  /** The structure before position `i`, if any, is made to name the one after it. */
  lemma Unlinked(m: seq<byte>, n: seq<byte>, bs: seq<Block>, ps: seq<Process>, i: int)
    requires Placed(bs, ps) && ChainedBut(m, ps, i) && 0 <= i < |ps|
    requires i == 0 ==> n == m
    requires i > 0 ==>
               var a := ps[i - 1].Ptr();
               0 <= a <= |m| - PROCESS_SIZE && SameOutside(m, n, a + 20, a + 24) && Word(n, a + 20) == PtrAt(ps, i + 1)
    ensures Chained(n, Without(ps, i))
  {
    var qs := Without(ps, i);
    forall j | 0 <= j < |qs|
      ensures RecordAt(n, qs, j)
    {
      var o := if j < i then j else j + 1;
      assert RecordAt(m, ps, o);
      if j == i - 1 {
        FieldsKept(m, n, ps[j], PtrAt(ps, i), 20);
        assert PtrAt(qs, j + 1) == PtrAt(ps, i + 1);
      } else {
        assert PtrAt(qs, j + 1) == PtrAt(ps, o + 1);
        if i > 0 { RecordElsewhere(m, n, bs, ps, i - 1, o, ps[i - 1].Ptr() + 20, ps[i - 1].Ptr() + 24); }
      }
    }
  }
}
