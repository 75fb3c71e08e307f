/**
 The directory tree in the entry table: links between table slots, path lookup, and what
 linking and unlinking an entry do to every path.
 */
module FileTree {
  import opened Bytes
  import opened CStrings

  const MAX_ENTRIES := 150
  const MAX_FILENAME := 32
  const NIL := -1
  const FILE := 1
  const DIRECTORY := 2

  /** A slot of the entry table. Links are slot numbers, NIL for a null pointer. */
  datatype Entry = Entry(
    name: cstring, kind: int, size: int, data: int,
    parent: int, children: int, next: int, used: bool)

  /** The table with its root, working directory and number of slots taken; `kids` spells out the child lists. */
  datatype Tree = Tree(entries: seq<Entry>, root: int, cwd: int, taken: int, kids: seq<seq<nat>>)

  // ---------------------------------------------------------------- invariant

  function HeadOf(ks: seq<nat>): int {
    if ks == [] then NIL else ks[0]
  }

  function Following(ks: seq<nat>, j: int): int
    requires 0 <= j < |ks|
  {
    if j + 1 < |ks| then ks[j + 1] else NIL
  }

  /** The child at position `j` of the list of `i` is a used entry that names `i` as its parent. */
  ghost predicate ChildAt(t: Tree, i: int, j: int)
    requires |t.entries| == |t.kids| == MAX_ENTRIES && 0 <= i < MAX_ENTRIES && 0 <= j < |t.kids[i]|
  {
    var c := t.kids[i][j];
    && i < c < t.taken <= MAX_ENTRIES
    && t.entries[c].parent == i
    && t.entries[c].used
    && t.entries[c].next == Following(t.kids[i], j)
  }

  ghost predicate Distinct(ks: seq<nat>) {
    forall j, l | 0 <= j < l < |ks| :: ks[j] != ks[l]
  }

  /** The child list of `i` is threaded through the table and holds no entry twice; files have none. */
  ghost predicate ListAt(t: Tree, i: int)
    requires |t.entries| == |t.kids| == MAX_ENTRIES && 0 <= i < MAX_ENTRIES
  {
    && t.entries[i].children == HeadOf(t.kids[i])
    && (t.kids[i] != [] ==> t.entries[i].kind == DIRECTORY && i < t.taken)
    && Distinct(t.kids[i])
    && (forall j | 0 <= j < |t.kids[i]| :: ChildAt(t, i, j))
  }

  ghost predicate EntryAt(t: Tree, i: int)
    requires |t.entries| == MAX_ENTRIES && 0 <= i < t.taken <= MAX_ENTRIES
  {
    && (t.entries[i].used || t.entries[i].parent >= 0 ==> t.entries[i].kind in {FILE, DIRECTORY})
    && NIL <= t.entries[i].parent < i
    && |t.entries[i].name| < MAX_FILENAME
  }

  /** Parent, first-child and sibling links form rooted trees: parents have smaller slot numbers. */
  ghost predicate Forest(t: Tree) {
    && |t.entries| == |t.kids| == MAX_ENTRIES
    && 0 <= t.root < t.taken <= MAX_ENTRIES
    && 0 <= t.cwd < t.taken
    && t.entries[t.root].kind == DIRECTORY && t.entries[t.root].used && t.entries[t.root].parent == NIL
    && t.entries[t.cwd].kind == DIRECTORY
    && (forall i | 0 <= i < t.taken :: EntryAt(t, i))
    && (forall i | 0 <= i < MAX_ENTRIES :: ListAt(t, i))
  }

  /** `i` is on the child list of the entry it names as its parent. */
  ghost predicate Listed(t: Tree, i: int)
    requires Forest(t) && 0 <= i < t.taken
  {
    assert EntryAt(t, i);
    t.entries[i].parent >= 0 && i in t.kids[t.entries[i].parent]
  }

  /** `i` hangs on the root by a chain of child lists. */
  ghost predicate Attached(t: Tree, i: int)
    requires Forest(t)
    decreases i
  {
    && 0 <= i < t.taken
    && (i == t.root || (Listed(t, i) && (assert EntryAt(t, i); Attached(t, t.entries[i].parent))))
  }

  /** No directory lists two entries of the same name. */
  ghost predicate UniqueNames(t: Tree)
    requires Forest(t)
  {
    forall i | 0 <= i < MAX_ENTRIES :: UniqueNamesAt(t, i)
  }

  ghost predicate UniqueNamesAt(t: Tree, i: int)
    requires Forest(t) && 0 <= i < MAX_ENTRIES
  {
    KidsInTable(t, i);
    forall j, l | 0 <= j < l < |t.kids[i]| :: NamesDiffer(t, i, j, l)
  }

  ghost predicate NamesDiffer(t: Tree, i: int, j: int, l: int)
    requires Forest(t) && 0 <= i < MAX_ENTRIES && 0 <= j < |t.kids[i]| && 0 <= l < |t.kids[i]|
  {
    KidsInTable(t, i);
    t.entries[t.kids[i][j]].name != t.entries[t.kids[i][l]].name
  }

  // ---------------------------------------------------------------- lookup

  ghost predicate InTable(entries: seq<Entry>, ks: seq<nat>) {
    forall j | 0 <= j < |ks| :: ks[j] < |entries|
  }

  /** The first of the children `ks` that is called `name`. */
  ghost function ChildIn(entries: seq<Entry>, ks: seq<nat>, name: seq<byte>): (r: int)
    requires InTable(entries, ks)
    ensures r == NIL || r in ks
  {
    if ks == [] then NIL
    else if entries[ks[0]].name == name then ks[0]
    else ChildIn(entries, ks[1..], name)
  }

  lemma KidsInTable(t: Tree, d: int)
    requires Forest(t) && 0 <= d < MAX_ENTRIES
    ensures InTable(t.entries, t.kids[d])
    ensures forall k | k in t.kids[d] :: d < k < t.taken && t.entries[k].parent == d && t.entries[k].used
  {
    assert ListAt(t, d);
    forall j | 0 <= j < |t.kids[d]|
      ensures d < t.kids[d][j] < t.taken && t.entries[t.kids[d][j]].parent == d && t.entries[t.kids[d][j]].used
    {
      assert ChildAt(t, d, j);
    }
  }

  ghost function Child(t: Tree, d: int, name: seq<byte>): (r: int)
    requires Forest(t) && 0 <= d < MAX_ENTRIES
    ensures r == NIL || (r in t.kids[d] && d < r < t.taken)
  {
    KidsInTable(t, d);
    ChildIn(t.entries, t.kids[d], name)
  }

  /** Of several children of one name the first on the list is found. */
  lemma {:induction false} FirstChildIn(entries: seq<Entry>, ks: seq<nat>, name: seq<byte>)
    requires InTable(entries, ks)
    ensures var r := ChildIn(entries, ks, name);
            if forall j | 0 <= j < |ks| :: entries[ks[j]].name != name then r == -1
            else exists j | 0 <= j < |ks| :: r == ks[j] && entries[ks[j]].name == name && forall l | 0 <= l < j :: entries[ks[l]].name != name
    decreases |ks|
  {
    if ks != [] && entries[ks[0]].name != name {
      var rest := ks[1..];
      FirstChildIn(entries, rest, name);
      assert forall j | 0 < j < |ks| :: ks[j] == rest[j - 1];
      if exists j | 0 <= j < |rest| :: entries[rest[j]].name == name {
        var j :| 0 <= j < |rest| && ChildIn(entries, rest, name) == rest[j] && entries[rest[j]].name == name
                 && forall l | 0 <= l < j :: entries[rest[l]].name != name;
        assert ks[j + 1] == rest[j];
      }
    }
  }

  /** The entry a list of components leads to from `d`, NIL if one of them is missing. */
  ghost function Descend(t: Tree, d: int, names: seq<seq<byte>>): (r: int)
    requires Forest(t) && 0 <= d < t.taken
    ensures NIL <= r < t.taken
    decreases |names|
  {
    if names == [] then d
    else
      var c := Child(t, d, names[0]);
      if c == NIL then NIL else Descend(t, c, names[1..])
  }

  lemma DescendOne(t: Tree, d: int, name: seq<byte>)
    requires Forest(t) && 0 <= d < t.taken
    ensures Descend(t, d, [name]) == Child(t, d, name)
  {
    var names := [name];
    assert names[0] == name && names[1..] == [];
  }

  /** What a path refers to: the three special names, or a descent from the root or the working directory. */
  ghost function Find(t: Tree, path: cstring): (r: int)
    requires Forest(t)
    ensures NIL <= r < t.taken
  {
    if path == [SLASH] then t.root
    else if path == [DOT] then t.cwd
    else if path == [DOT, DOT] then
      assert EntryAt(t, t.cwd); if t.entries[t.cwd].parent != NIL then t.entries[t.cwd].parent else t.root
    else if path != [] && path[0] == SLASH then Descend(t, t.root, Split(path[1..], [SLASH]))
    else Descend(t, t.cwd, Split(path, [SLASH]))
  }

  /** The names from the root down to `i`. */
  ghost function PathOf(t: Tree, i: int): seq<seq<byte>>
    requires Forest(t) && 0 <= i < t.taken
    decreases i
  {
    assert EntryAt(t, i);
    if i == t.root || t.entries[i].parent == NIL then [] else PathOf(t, t.entries[i].parent) + [t.entries[i].name]
  }

  lemma {:induction false} ChildInName(entries: seq<Entry>, ks: seq<nat>, name: seq<byte>)
    requires InTable(entries, ks)
    ensures var r := ChildIn(entries, ks, name);
            if r == NIL then forall j | 0 <= j < |ks| :: entries[ks[j]].name != name
            else r in ks && entries[r].name == name
    decreases |ks|
  {
    if ks != [] {
      ChildInName(entries, ks[1..], name);
      forall j | 0 < j < |ks| && ChildIn(entries, ks, name) == NIL
        ensures entries[ks[j]].name != name
      {
        assert ks[j] == ks[1..][j - 1];
      }
    }
  }

  /** A child found in an attached directory is attached, one name further down. */
  lemma ChildIsBelow(t: Tree, d: int, name: seq<byte>)
    requires Forest(t) && Attached(t, d) && Child(t, d, name) != NIL
    ensures var c := Child(t, d, name);
            && Attached(t, c) && t.entries[c].parent == d && t.entries[c].name == name
            && PathOf(t, c) == PathOf(t, d) + [name]
  {
    var c := Child(t, d, name);
    KidsInTable(t, d);
    ChildInName(t.entries, t.kids[d], name);
    assert EntryAt(t, c) && c != t.root;
  }

  /** A descent ends at an attached entry whose path is the path of its start and the names walked. */
  lemma {:induction false} DescendSound(t: Tree, d: int, names: seq<seq<byte>>)
    requires Forest(t) && Attached(t, d) && Descend(t, d, names) != NIL
    ensures var r := Descend(t, d, names);
            Attached(t, r) && PathOf(t, r) == PathOf(t, d) + names
    decreases |names|
  {
    if names == [] {
      assert PathOf(t, d) + [] == PathOf(t, d);
    } else {
      var c := Child(t, d, names[0]);
      ChildIsBelow(t, d, names[0]);
      DescendSound(t, c, names[1..]);
      assert PathOf(t, d) + [names[0]] + names[1..] == PathOf(t, d) + names;
    }
  }

  /** With the working directory in the tree, so is everything a path leads to. */
  lemma FindAttached(t: Tree, path: cstring)
    requires Forest(t) && Attached(t, t.cwd) && Find(t, path) != NIL
    ensures Attached(t, Find(t, path))
  {
    assert EntryAt(t, t.cwd) && Attached(t, t.root);
    if path in {[SLASH], [DOT], [DOT, DOT]} {
    } else if path != [] && path[0] == SLASH {
      DescendSound(t, t.root, Split(path[1..], [SLASH]));
    } else {
      DescendSound(t, t.cwd, Split(path, [SLASH]));
    }
  }

  lemma {:induction false} DescendFurther(t: Tree, d: int, names: seq<seq<byte>>, more: seq<seq<byte>>)
    requires Forest(t) && 0 <= d < t.taken && Descend(t, d, names) != NIL
    ensures Descend(t, d, names + more) == Descend(t, Descend(t, d, names), more)
    decreases |names|
  {
    if names == [] {
      assert names + more == more;
    } else {
      DescendFurther(t, Child(t, d, names[0]), names[1..], more);
      assert (names + more)[0] == names[0] && (names + more)[1..] == names[1..] + more;
    }
  }

  lemma {:induction false} FirstOfItsName(entries: seq<Entry>, ks: seq<nat>, j: int)
    requires InTable(entries, ks)
    requires 0 <= j < |ks| && forall l | 0 <= l < j :: entries[ks[l]].name != entries[ks[j]].name
    ensures ChildIn(entries, ks, entries[ks[j]].name) == ks[j]
    decreases |ks|
  {
    if j > 0 {
      forall l | 0 <= l < j - 1 ensures entries[ks[1..][l]].name != entries[ks[1..][j - 1]].name {
        assert ks[1..][l] == ks[l + 1];
      }
      FirstOfItsName(entries, ks[1..], j - 1);
    }
  }

  /** In a directory without duplicate names every child is found under its own name. */
  lemma ChildFound(t: Tree, d: int, c: int)
    requires Forest(t) && UniqueNames(t) && 0 <= d < MAX_ENTRIES && c in t.kids[d]
    ensures 0 <= c < t.taken && Child(t, d, t.entries[c].name) == c
  {
    KidsInTable(t, d);
    var j :| 0 <= j < |t.kids[d]| && t.kids[d][j] == c;
    assert UniqueNamesAt(t, d);
    forall l | 0 <= l < j ensures t.entries[t.kids[d][l]].name != t.entries[c].name {
      assert NamesDiffer(t, d, l, j);
    }
    FirstOfItsName(t.entries, t.kids[d], j);
  }

  /** Looking up the path of an attached entry finds that entry. */
  lemma {:induction false} DescendComplete(t: Tree, i: int)
    requires Forest(t) && UniqueNames(t) && Attached(t, i)
    ensures Descend(t, t.root, PathOf(t, i)) == i
    decreases i
  {
    assert EntryAt(t, i);
    if i != t.root {
      var p, n := t.entries[i].parent, t.entries[i].name;
      DescendComplete(t, p);
      ChildFound(t, p, i);
      DescendFurther(t, t.root, PathOf(t, p), [n]);
    }
  }
}
