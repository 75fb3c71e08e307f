/** What adding an entry to a directory, and taking one out, do to the tree and to every path. */
module FileTreeEdits {
  import opened Bytes
  import opened CStrings
  import opened FileTree

  /** A name as it is stored: its first 31 bytes. */
  function Truncated(name: cstring): (r: cstring)
    ensures |r| < MAX_FILENAME
    ensures |name| < MAX_FILENAME ==> r == name
  {
    if |name| < MAX_FILENAME then name
    else
      assert 0 !in name[..MAX_FILENAME - 1];
      name[..MAX_FILENAME - 1]
  }

  // ---------------------------------------------------------------- adding

  /** The next free slot is filled in; nothing refers to it yet. */
  function Created(t: Tree, name: cstring, kind: int, data: int): Tree
    requires |t.entries| == MAX_ENTRIES && 0 <= t.taken < MAX_ENTRIES
  {
    t.(entries := t.entries[t.taken := Entry(Truncated(name), kind, 0, data, NIL, NIL, NIL, true)], taken := t.taken + 1)
  }

  /** The entry `c` becomes the first child of `p`. */
  function Linked(t: Tree, c: nat, p: nat): Tree
    requires |t.entries| == |t.kids| == MAX_ENTRIES && p < MAX_ENTRIES && c < MAX_ENTRIES && c != p
  {
    var es := t.entries[c := t.entries[c].(parent := p, next := t.entries[p].children)];
    t.(entries := es[p := es[p].(children := c)], kids := t.kids[p := [c] + t.kids[p]])
  }

  function Added(t: Tree, p: nat, name: cstring, kind: int, data: int): Tree
    requires |t.entries| == |t.kids| == MAX_ENTRIES && p < t.taken < MAX_ENTRIES
  {
    Linked(Created(t, name, kind, data), t.taken, p)
  }

  /**
   The entry made of a name: its first 31 bytes, size 0 and no children, in front of what the directory
   listed before; nothing else changes but the directory's link to its first child.
   */
  lemma AddedEntry(t: Tree, p: nat, name: cstring, kind: int, data: int)
    requires |t.entries| == |t.kids| == MAX_ENTRIES && p < t.taken < MAX_ENTRIES
    ensures var u, c := Added(t, p, name, kind, data), t.taken;
            && u.entries[c].name == name[..if |name| < 32 then |name| else 31]
            && u.entries[c].kind == kind && u.entries[c].size == 0 && u.entries[c].data == data && u.entries[c].used
            && u.entries[c].parent == p && u.entries[c].children == -1 && u.entries[c].next == t.entries[p].children
            && u.entries[p] == t.entries[p].(children := c) && u.kids == t.kids[p := [c] + t.kids[p]]
            && (forall i | 0 <= i < MAX_ENTRIES && i != p && i != c :: u.entries[i] == t.entries[i])
            && u.taken == t.taken + 1 && u.root == t.root && u.cwd == t.cwd
  {
    if |name| < 32 { assert name[..|name|] == name; }
  }

  /** Slots not handed out yet have no children. */
  lemma FreshHasNoKids(t: Tree, c: int)
    requires Forest(t) && t.taken <= c < MAX_ENTRIES
    ensures t.kids[c] == []
    ensures forall i | 0 <= i < MAX_ENTRIES :: c !in t.kids[i]
  {
    assert ListAt(t, c);
    forall i | 0 <= i < MAX_ENTRIES ensures c !in t.kids[i] { KidsInTable(t, i); }
  }

  lemma CreatedForest(t: Tree, name: cstring, kind: int, data: int)
    requires Forest(t) && t.taken < MAX_ENTRIES && kind in {FILE, DIRECTORY}
    ensures Forest(Created(t, name, kind, data))
  {
    var u := Created(t, name, kind, data);
    FreshHasNoKids(t, t.taken);
    forall i | 0 <= i < u.taken ensures EntryAt(u, i) {
      if i < t.taken { assert EntryAt(t, i); }
    }
    forall i | 0 <= i < MAX_ENTRIES ensures ListAt(u, i) {
      assert ListAt(t, i);
      forall j | 0 <= j < |u.kids[i]| ensures ChildAt(u, i, j) { assert ChildAt(t, i, j); }
    }
  }

  /** Linking in an entry that is on no list. */
  lemma LinkedForest(t: Tree, c: nat, p: nat)
    requires Forest(t) && p < c < t.taken
    requires t.entries[p].kind == DIRECTORY && t.entries[c].used && c != t.root
    requires t.kids[c] == [] && forall i | 0 <= i < MAX_ENTRIES :: c !in t.kids[i]
    ensures Forest(Linked(t, c, p))
  {
    var u := Linked(t, c, p);
    forall i | 0 <= i < u.taken ensures EntryAt(u, i) { assert EntryAt(t, i); }
    forall i | 0 <= i < MAX_ENTRIES ensures ListAt(u, i) { LinkedList(t, c, p, i); }
  }

  lemma LinkedList(t: Tree, c: nat, p: nat, i: int)
    requires Forest(t) && p < c < t.taken && 0 <= i < MAX_ENTRIES
    requires t.entries[p].kind == DIRECTORY && t.entries[c].used
    requires t.kids[c] == [] && forall k | 0 <= k < MAX_ENTRIES :: c !in t.kids[k]
    ensures ListAt(Linked(t, c, p), i)
  {
    var u := Linked(t, c, p);
    assert ListAt(t, i);
    forall j | 0 <= j < |u.kids[i]| ensures ChildAt(u, i, j) {
      var o := if i == p then j - 1 else j;
      if o >= 0 {
        assert ChildAt(t, i, o) && t.kids[i][o] in t.kids[i];
      }
    }
  }

  lemma AddedForest(t: Tree, p: nat, name: cstring, kind: int, data: int)
    requires Forest(t) && p < t.taken < MAX_ENTRIES && kind in {FILE, DIRECTORY} && t.entries[p].kind == DIRECTORY
    ensures Forest(Added(t, p, name, kind, data))
  {
    CreatedForest(t, name, kind, data);
    FreshHasNoKids(t, t.taken);
    LinkedForest(Created(t, name, kind, data), t.taken, p);
  }

  /** Trees that agree on child lists and names agree on lookups. */
  lemma {:induction false} DescendSame(t: Tree, u: Tree, d: int, names: seq<seq<byte>>)
    requires Forest(t) && Forest(u) && t.kids == u.kids && t.taken <= u.taken && 0 <= d < t.taken
    requires forall i | 0 <= i < t.taken :: u.entries[i].name == t.entries[i].name
    ensures Descend(u, d, names) == Descend(t, d, names)
    decreases |names|
  {
    if names != [] {
      KidsInTable(t, d);
      ChildInSame(t.entries, u.entries, t.kids[d], names[0]);
      var c := Child(t, d, names[0]);
      if c != NIL { DescendSame(t, u, c, names[1..]); }
    }
  }

  lemma {:induction false} ChildInSame(es: seq<Entry>, fs: seq<Entry>, ks: seq<nat>, name: seq<byte>)
    requires InTable(es, ks) && InTable(fs, ks)
    requires forall j | 0 <= j < |ks| :: es[ks[j]].name == fs[ks[j]].name
    ensures ChildIn(es, ks, name) == ChildIn(fs, ks, name)
    decreases |ks|
  {
    if ks != [] {
      forall j | 0 <= j < |ks[1..]| ensures es[ks[1..][j]].name == fs[ks[1..][j]].name {
        assert ks[1..][j] == ks[j + 1];
      }
      ChildInSame(es, fs, ks[1..], name);
    }
  }

  lemma {:induction false} AttachedSame(t: Tree, u: Tree, i: int)
    requires Forest(t) && Forest(u) && t.taken <= u.taken && t.root == u.root && Attached(t, i)
    requires forall d, c | 0 <= d < MAX_ENTRIES && c in t.kids[d] :: c in u.kids[d]
    ensures Attached(u, i)
    decreases i
  {
    assert EntryAt(t, i) && EntryAt(u, i);
    if i != t.root {
      var p := t.entries[i].parent;
      AttachedSame(t, u, p);
      KidsInTable(u, p);
    }
  }

  lemma {:induction false} PathSame(t: Tree, u: Tree, i: int)
    requires Forest(t) && Forest(u) && 0 <= i < t.taken <= u.taken && t.root == u.root
    requires forall k | 0 <= k < t.taken :: u.entries[k].name == t.entries[k].name && u.entries[k].parent == t.entries[k].parent
    ensures PathOf(u, i) == PathOf(t, i)
    decreases i
  {
    assert EntryAt(t, i) && EntryAt(u, i);
    if i != t.root && t.entries[i].parent != NIL {
      PathSame(t, u, t.entries[i].parent);
    }
  }

  /** One lookup step after an addition. */
  lemma AddedChild(t: Tree, p: nat, name: cstring, kind: int, data: int, d: int, x: seq<byte>)
    requires Forest(t) && p < t.taken < MAX_ENTRIES && Forest(Added(t, p, name, kind, data)) && 0 <= d < t.taken
    ensures var u := Added(t, p, name, kind, data);
            && Child(u, d, x) == (if d == p && x == Truncated(name) then t.taken else Child(t, d, x))
            && Child(u, t.taken, x) == NIL
  {
    var u := Added(t, p, name, kind, data);
    FreshHasNoKids(t, t.taken);
    KidsInTable(t, d);
    KidsInTable(u, d);
    ChildInSame(t.entries, u.entries, t.kids[d], x);
    if d == p {
      assert u.kids[d][1..] == t.kids[d];
    }
  }

  /** Any lookup after an addition finds what it found before, or the new entry where there was nothing. */
  lemma {:induction false} AddedDescend(t: Tree, p: nat, name: cstring, kind: int, data: int, d: int, names: seq<seq<byte>>)
    requires Forest(t) && p < t.taken < MAX_ENTRIES && Forest(Added(t, p, name, kind, data)) && 0 <= d < t.taken
    requires Child(t, p, Truncated(name)) == NIL
    ensures var u := Added(t, p, name, kind, data);
            Descend(u, d, names) == Descend(t, d, names) || (Descend(t, d, names) == NIL && Descend(u, d, names) == t.taken)
    decreases |names|
  {
    if names != [] {
      AddedChild(t, p, name, kind, data, d, names[0]);
      var c := Child(t, d, names[0]);
      if d == p && names[0] == Truncated(name) {
        if |names| > 1 { AddedChild(t, p, name, kind, data, d, names[1]); }
      } else if c != NIL {
        AddedDescend(t, p, name, kind, data, c, names[1..]);
      }
    }
  }

  /** The new entry is reached from the root through its directory. */
  lemma AddedReached(t: Tree, p: nat, name: cstring, kind: int, data: int)
    requires Forest(t) && UniqueNames(t) && Attached(t, p) && p < t.taken < MAX_ENTRIES
    requires Child(t, p, Truncated(name)) == NIL && Forest(Added(t, p, name, kind, data))
    ensures var u := Added(t, p, name, kind, data);
            Descend(u, u.root, PathOf(t, p) + [Truncated(name)]) == t.taken
  {
    var u, n := Added(t, p, name, kind, data), Truncated(name);
    DescendComplete(t, p);
    AddedDescend(t, p, name, kind, data, t.root, PathOf(t, p));
    AddedChild(t, p, name, kind, data, p, n);
    DescendFurther(u, u.root, PathOf(t, p), [n]);
  }

  /** It is reached by no other path. */
  lemma AddedReachedBy(t: Tree, p: nat, name: cstring, kind: int, data: int, path: seq<seq<byte>>)
    requires Forest(t) && Attached(t, p) && p < t.taken < MAX_ENTRIES && Forest(Added(t, p, name, kind, data))
    requires var u := Added(t, p, name, kind, data); Descend(u, u.root, path) == t.taken
    ensures path == PathOf(t, p) + [Truncated(name)]
  {
    var u, n := Added(t, p, name, kind, data), Truncated(name);
    AttachedSame(t, u, p);
    PathSame(t, u, p);
    AddedChild(t, p, name, kind, data, p, n);
    DescendSound(u, u.root, path);
    ChildIsBelow(u, p, n);
    assert PathOf(u, u.root) + path == path;
  }

  /** After an addition exactly one path leads somewhere else: the new entry's own. */
  lemma AddedPaths(t: Tree, p: nat, name: cstring, kind: int, data: int, path: seq<seq<byte>>)
    requires Forest(t) && UniqueNames(t) && Attached(t, p) && p < t.taken < MAX_ENTRIES
    requires kind in {FILE, DIRECTORY} && t.entries[p].kind == DIRECTORY
    requires Child(t, p, Truncated(name)) == NIL
    ensures var u := Added(t, p, name, kind, data);
            && Forest(u)
            && Descend(u, u.root, path) ==
               if path == PathOf(t, p) + [Truncated(name)] then t.taken else Descend(t, t.root, path)
  {
    AddedForest(t, p, name, kind, data);
    var u := Added(t, p, name, kind, data);
    AddedDescend(t, p, name, kind, data, t.root, path);
    AddedReached(t, p, name, kind, data);
    if Descend(u, u.root, path) == t.taken {
      AddedReachedBy(t, p, name, kind, data, path);
    }
  }

  /** Sibling names stay distinct exactly when the stored name was not taken in the directory added to. */
  lemma AddedUniqueIff(t: Tree, p: nat, name: cstring, kind: int, data: int)
    requires Forest(t) && p < t.taken < MAX_ENTRIES && Forest(Added(t, p, name, kind, data))
    requires UniqueNames(t)
    ensures UniqueNames(Added(t, p, name, kind, data)) <==> Child(t, p, Truncated(name)) == NIL
  {
    var u, c, n := Added(t, p, name, kind, data), t.taken, Truncated(name);
    KidsInTable(t, p);
    ChildInName(t.entries, t.kids[p], n);
    var o := Child(t, p, n);
    if o != NIL {
      var j :| 0 <= j < |t.kids[p]| && t.kids[p][j] == o;
      assert u.kids[p][0] == c && u.kids[p][j + 1] == o;
      assert !NamesDiffer(u, p, 0, j + 1);
      assert !UniqueNamesAt(u, p);
    } else {
      forall i | 0 <= i < MAX_ENTRIES ensures UniqueNamesAt(u, i) {
        assert UniqueNamesAt(t, i);
        KidsInTable(t, i);
        forall j, l | 0 <= j < l < |u.kids[i]| ensures NamesDiffer(u, i, j, l) {
          var s := if i == p then 1 else 0;
          if j >= s { assert NamesDiffer(t, i, j - s, l - s); }
        }
      }
    }
  }

  // ---------------------------------------------------------------- taking out

  /** The position of `c` in a child list. */
  function Position(ks: seq<nat>, c: nat): (j: nat)
    requires c in ks
    ensures j < |ks| && ks[j] == c
  {
    if ks[0] == c then 0 else 1 + Position(ks[1..], c)
  }

  function Dropped(ks: seq<nat>, j: nat): seq<nat>
    requires j < |ks|
  {
    ks[..j] + ks[j + 1..]
  }

  /** The list of `p` bypasses the entry at position `j`. */
  function Bypassed(t: Tree, p: nat, j: nat): Tree
    requires |t.entries| == |t.kids| == MAX_ENTRIES && p < MAX_ENTRIES && j < |t.kids[p]|
    requires t.kids[p][j] < MAX_ENTRIES && (j > 0 ==> t.kids[p][j - 1] < MAX_ENTRIES)
  {
    var after := t.entries[t.kids[p][j]].next;
    var es :=
      if j == 0 then t.entries[p := t.entries[p].(children := after)]
      else var b := t.kids[p][j - 1]; t.entries[b := t.entries[b].(next := after)];
    t.(entries := es, kids := t.kids[p := Dropped(t.kids[p], j)])
  }

  function Unused(t: Tree, c: nat): Tree
    requires c < |t.entries|
  {
    t.(entries := t.entries[c := t.entries[c].(used := false)])
  }

  /** The entry at position `j` of the list of `p` is bypassed and marked unused. */
  function Unlinked(t: Tree, p: nat, j: nat): Tree
    requires |t.entries| == |t.kids| == MAX_ENTRIES && p < MAX_ENTRIES && j < |t.kids[p]|
    requires t.kids[p][j] < MAX_ENTRIES && (j > 0 ==> t.kids[p][j - 1] < MAX_ENTRIES)
  {
    Unused(Bypassed(t, p, j), t.kids[p][j])
  }

  lemma UnlinkedDefined(t: Tree, p: nat, j: nat)
    requires Forest(t) && p < MAX_ENTRIES && j < |t.kids[p]|
    ensures p < t.kids[p][j] < MAX_ENTRIES && (j > 0 ==> p < t.kids[p][j - 1] < MAX_ENTRIES)
  {
    KidsInTable(t, p);
    assert t.kids[p][j] in t.kids[p] && (j > 0 ==> t.kids[p][j - 1] in t.kids[p]);
  }

  /** An entry stands on one list only. */
  lemma OnOneList(t: Tree, p: nat, j: nat, i: int)
    requires Forest(t) && p < MAX_ENTRIES && j < |t.kids[p]| && 0 <= i < MAX_ENTRIES && i != p
    ensures t.kids[p][j] !in t.kids[i]
  {
    KidsInTable(t, p);
    KidsInTable(t, i);
  }

  lemma UnlinkedList(t: Tree, p: nat, j: nat, i: int)
    requires Forest(t) && p < MAX_ENTRIES && j < |t.kids[p]| && 0 <= i < MAX_ENTRIES
    requires p < t.kids[p][j] < MAX_ENTRIES && (j > 0 ==> p < t.kids[p][j - 1] < MAX_ENTRIES)
    ensures ListAt(Unlinked(t, p, j), i)
  {
    var u, c := Unlinked(t, p, j), t.kids[p][j];
    assert ListAt(t, i) && ListAt(t, p) && ChildAt(t, p, j);
    if i != p { OnOneList(t, p, j, i); if j > 0 { OnOneList(t, p, j - 1, i); } }
    forall l | 0 <= l < |u.kids[i]| ensures ChildAt(u, i, l) {
      var o := if i == p && l >= j then l + 1 else l;
      assert ChildAt(t, i, o) && u.kids[i][l] == t.kids[i][o];
      assert i != p ==> t.kids[i][o] in t.kids[i];
    }
  }

  lemma UnlinkedForest(t: Tree, p: nat, j: nat)
    requires Forest(t) && p < MAX_ENTRIES && j < |t.kids[p]|
    ensures p < t.kids[p][j] < MAX_ENTRIES && (j > 0 ==> p < t.kids[p][j - 1] < MAX_ENTRIES)
    ensures Forest(Unlinked(t, p, j))
  {
    UnlinkedDefined(t, p, j);
    var u := Unlinked(t, p, j);
    assert ChildAt(t, p, j) by { assert ListAt(t, p); }
    forall i | 0 <= i < u.taken ensures EntryAt(u, i) { assert EntryAt(t, i); }
    forall i | 0 <= i < MAX_ENTRIES ensures ListAt(u, i) { UnlinkedList(t, p, j, i); }
  }

  lemma UnlinkedUnique(t: Tree, p: nat, j: nat)
    requires Forest(t) && UniqueNames(t) && p < MAX_ENTRIES && j < |t.kids[p]|
    requires p < t.kids[p][j] < MAX_ENTRIES && (j > 0 ==> p < t.kids[p][j - 1] < MAX_ENTRIES)
    requires Forest(Unlinked(t, p, j))
    ensures UniqueNames(Unlinked(t, p, j))
  {
    var u := Unlinked(t, p, j);
    forall i | 0 <= i < MAX_ENTRIES ensures UniqueNamesAt(u, i) {
      UnlinkedNames(t, p, j, i);
    }
  }

  lemma UnlinkedNames(t: Tree, p: nat, j: nat, i: nat)
    requires Forest(t) && UniqueNames(t) && p < MAX_ENTRIES && j < |t.kids[p]| && i < MAX_ENTRIES
    requires p < t.kids[p][j] < MAX_ENTRIES && (j > 0 ==> p < t.kids[p][j - 1] < MAX_ENTRIES)
    requires Forest(Unlinked(t, p, j))
    ensures UniqueNamesAt(Unlinked(t, p, j), i)
  {
    var u := Unlinked(t, p, j);
    assert UniqueNamesAt(t, i);
    KidsInTable(t, i);
    forall l, m | 0 <= l < m < |u.kids[i]| ensures NamesDiffer(u, i, l, m) {
      assert NamesDiffer(t, i, if i == p && l >= j then l + 1 else l, if i == p && m >= j then m + 1 else m);
    }
  }

  lemma {:induction false} ChildInDropped(es: seq<Entry>, ks: seq<nat>, j: nat, x: seq<byte>)
    requires InTable(es, ks) && j < |ks|
    requires forall l, m | 0 <= l < m < |ks| :: es[ks[l]].name != es[ks[m]].name
    ensures InTable(es, Dropped(ks, j))
    ensures ChildIn(es, Dropped(ks, j), x) == if x == es[ks[j]].name then NIL else ChildIn(es, ks, x)
    decreases |ks|
  {
    var r := Dropped(ks, j);
    forall l | 0 <= l < |r| ensures r[l] < |es| && es[r[l]].name != es[ks[j]].name {
      assert r[l] == ks[if l < j then l else l + 1];
    }
    if j == 0 {
      assert r == ks[1..];
      ChildInName(es, r, x);
    } else {
      assert r[0] == ks[0] && r[1..] == Dropped(ks[1..], j - 1);
      ChildInDropped(es, ks[1..], j - 1, x);
    }
  }

  /** One lookup step after a removal. */
  lemma UnlinkedChild(t: Tree, p: nat, j: nat, d: int, x: seq<byte>)
    requires Forest(t) && UniqueNames(t) && p < MAX_ENTRIES && j < |t.kids[p]|
    requires p < t.kids[p][j] < MAX_ENTRIES && (j > 0 ==> p < t.kids[p][j - 1] < MAX_ENTRIES)
    requires Forest(Unlinked(t, p, j)) && 0 <= d < t.taken
    ensures var u, c := Unlinked(t, p, j), t.kids[p][j];
            Child(u, d, x) == if Child(t, d, x) == c then NIL else Child(t, d, x)
  {
    var u, c := Unlinked(t, p, j), t.kids[p][j];
    KidsInTable(t, d);
    KidsInTable(u, d);
    if d == p {
      assert UniqueNamesAt(t, p);
      forall l, m | 0 <= l < m < |t.kids[p]| ensures t.entries[t.kids[p][l]].name != t.entries[t.kids[p][m]].name {
        assert NamesDiffer(t, p, l, m);
      }
      ChildInDropped(t.entries, t.kids[p], j, x);
      ChildInSame(t.entries, u.entries, u.kids[p], x);
      ChildInName(t.entries, t.kids[p], x);
      ChildFound(t, p, c);
    } else {
      OnOneList(t, p, j, d);
      ChildInSame(t.entries, u.entries, t.kids[d], x);
    }
  }

  lemma {:induction false} UnlinkedDescend(t: Tree, p: nat, j: nat, d: int, names: seq<seq<byte>>)
    requires Forest(t) && UniqueNames(t) && p < MAX_ENTRIES && j < |t.kids[p]|
    requires p < t.kids[p][j] < MAX_ENTRIES && (j > 0 ==> p < t.kids[p][j - 1] < MAX_ENTRIES)
    requires Forest(Unlinked(t, p, j)) && 0 <= d < t.taken && d != t.kids[p][j] && t.kids[t.kids[p][j]] == []
    ensures var u, c := Unlinked(t, p, j), t.kids[p][j];
            Descend(u, d, names) == if Descend(t, d, names) == c then NIL else Descend(t, d, names)
    decreases |names|
  {
    if names != [] {
      var c := t.kids[p][j];
      UnlinkedChild(t, p, j, d, names[0]);
      var k := Child(t, d, names[0]);
      if k == c {
        if |names| > 1 { assert Child(t, c, names[1]) == NIL; }
      } else if k != NIL {
        UnlinkedDescend(t, p, j, k, names[1..]);
      }
    }
  }

  /** After a removal exactly one path leads nowhere any more: the removed entry's own. */
  lemma UnlinkedPaths(t: Tree, p: nat, j: nat, path: seq<seq<byte>>)
    requires Forest(t) && UniqueNames(t) && p < MAX_ENTRIES && j < |t.kids[p]| && Attached(t, t.kids[p][j])
    requires t.kids[p][j] < MAX_ENTRIES && t.kids[t.kids[p][j]] == []
    ensures p < t.kids[p][j] < MAX_ENTRIES && (j > 0 ==> p < t.kids[p][j - 1] < MAX_ENTRIES)
    ensures var u, c := Unlinked(t, p, j), t.kids[p][j];
            && Forest(u) && UniqueNames(u)
            && Descend(u, u.root, path) == if path == PathOf(t, c) then NIL else Descend(t, t.root, path)
  {
    var c := t.kids[p][j];
    UnlinkedForest(t, p, j);
    UnlinkedUnique(t, p, j);
    KidsInTable(t, p);
    UnlinkedDescend(t, p, j, t.root, path);
    DescendComplete(t, c);
    if Descend(t, t.root, path) == c {
      DescendSound(t, t.root, path);
      assert PathOf(t, t.root) + path == path;
    }
  }

  /** Everything else stays in the tree. */
  lemma {:induction false} UnlinkedAttached(t: Tree, p: nat, j: nat, i: int)
    requires Forest(t) && p < MAX_ENTRIES && j < |t.kids[p]| && Attached(t, i)
    requires p < t.kids[p][j] < MAX_ENTRIES && (j > 0 ==> p < t.kids[p][j - 1] < MAX_ENTRIES)
    requires Forest(Unlinked(t, p, j)) && t.kids[t.kids[p][j]] == []
    ensures Attached(Unlinked(t, p, j), i) <==> i != t.kids[p][j]
    decreases i
  {
    var u, c := Unlinked(t, p, j), t.kids[p][j];
    assert EntryAt(t, i) && EntryAt(u, i);
    KidsInTable(t, p);
    if i == t.root {
    } else if i == c {
      assert ListAt(t, p);
      assert forall l | 0 <= l < |u.kids[p]| :: u.kids[p][l] == t.kids[p][if l < j then l else l + 1];
      assert c !in u.kids[p];
    } else {
      var q := t.entries[i].parent;
      assert q != c;
      UnlinkedAttached(t, p, j, q);
      if q == p {
        var l :| 0 <= l < |t.kids[p]| && t.kids[p][l] == i;
        assert u.kids[p][if l < j then l else l - 1] == i;
      }
    }
  }
}
