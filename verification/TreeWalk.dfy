/** Path resolution: `fat_find_dir_entry_from_path` as a walk through directories. */
module TreeWalk {
  import opened CText
  import opened DirEntries
  import opened Directory
  import opened FileTree
  import opened Catalogs
  import opened PathNames
  import opened Errno

  datatype Found = Found(e: DirEntry) | Missing(code: int)

  /** The entry `fat_init` makes up for the root directory. */
  function RootEntry(rootEntries: nat): (e: DirEntry)
    requires rootEntries < 0x10000
    ensures e.Valid() && e.IsDir() && e.start == 0
  {
    DirEntry(Padded("~", NAME_SIZE), ATTR_DIRECTORY, Zeros(14), 0, rootEntries * ENTRY_SIZE)
  }

  /** `fat_find_dir_entry(name, curr)`: whatever `curr` is, its bytes are searched as slots. */
  ghost function Lookup(b: Bytes, curr: DirEntry, name: Text): (r: Found)
  {
    if curr.start !in b then
      Missing(-ENOENT)
    else
      var s := Slots(b[curr.start]);
      var k := Find(s, name, false, 0);
      if k < |s| then Found(s[k]) else Missing(-ENOENT)
  }

  /** The look-up of the last component of a path. */
  ghost function LastLookup(b: Bytes, curr: DirEntry, name: Text): Found {
    if |name| > NAME_SIZE then Missing(-EINVAL) else Lookup(b, curr, name)
  }

  /** The loop of `fat_find_dir_entry_from_path` from component `i` on. The last component is looked
      up without a check that `curr` is a directory. */
  ghost function ResolveFrom(b: Bytes, cs: seq<Text>, i: nat, curr: DirEntry): Found
    requires i <= |cs|
    decreases |cs| - i
  {
    if i == |cs| then
      Found(curr)
    else if |cs[i]| > NAME_SIZE then
      Missing(-EINVAL)
    else if i == |cs| - 1 then
      Lookup(b, curr, cs[i])
    else if !curr.IsDir() then
      Missing(-ENOENT)
    else
      match Lookup(b, curr, cs[i])
      case Found(e) => ResolveFrom(b, cs, i + 1, e)
      case Missing(code) => Missing(code)
  }

  ghost function Resolve(b: Bytes, root: DirEntry, cs: seq<Text>): Found {
    ResolveFrom(b, cs, 0, root)
  }

  /** A whole path: three spellings of the root, and otherwise nothing or "~" before the first slash. */
  ghost function ResolveSpelled(b: Bytes, root: DirEntry, head: Text, cs: seq<Text>, tail: Text): Found {
    if cs == [] && tail == ['/'] && (head == [] || head == "~" || head == ".") then Found(root)
    else if |head| > NAME_SIZE then Missing(-EINVAL)
    else if head != [] && head != "~" then Missing(-ENOENT)
    else Resolve(b, root, cs)
  }

  /** The directory reached by descending through directories only, as a reference for the loop above. */
  ghost function Descend(b: Bytes, root: DirEntry, cs: seq<Text>): Found {
    if cs == [] then
      if root.IsDir() then Found(root) else Missing(-ENOENT)
    else
      match Descend(b, root, cs[..|cs| - 1])
      case Missing(code) => Missing(code)
      case Found(d) =>
        if |cs[|cs| - 1]| > NAME_SIZE then Missing(-EINVAL)
        else
          match Lookup(b, d, cs[|cs| - 1])
          case Missing(code) => Missing(code)
          case Found(e) => if e.IsDir() then Found(e) else Missing(-ENOENT)
  }

  lemma {:induction false} DescendDir(b: Bytes, root: DirEntry, cs: seq<Text>)
    ensures Descend(b, root, cs).Found? ==> Descend(b, root, cs).e.IsDir()
  {
  }

  /** As long as the way leads through directories, the loop is where the descent is; else it has failed
      by the time it looks for the next component but one. */
  lemma {:induction false} ResolveAfter(b: Bytes, root: DirEntry, cs: seq<Text>, n: nat)
    requires n < |cs| && root.IsDir()
    ensures Descend(b, root, cs[..n]).Found? ==>
      Resolve(b, root, cs) == ResolveFrom(b, cs, n, Descend(b, root, cs[..n]).e)
    ensures Descend(b, root, cs[..n]).Missing? && n < |cs| - 1 ==> Resolve(b, root, cs).Missing?
  {
    if n > 0 {
      ResolveAfter(b, root, cs, n - 1);
      var front := cs[..n - 1];
      assert cs[..n][..n - 1] == front && cs[..n][n - 1] == cs[n - 1];
      DescendDir(b, root, front);
      if Descend(b, root, front).Found? {
        var d := Descend(b, root, front).e;
        assert ResolveFrom(b, cs, n - 1, d).Missing? || Lookup(b, d, cs[n - 1]).Found?;
      }
    }
  }

  /** Resolving a path is looking up its base name in the directory its parent path descends to. */
  lemma {:induction false} ResolveIsLookup(b: Bytes, root: DirEntry, cs: seq<Text>)
    requires cs != [] && root.IsDir()
    requires Descend(b, root, cs[..|cs| - 1]).Found?
    ensures Resolve(b, root, cs) == LastLookup(b, Descend(b, root, cs[..|cs| - 1]).e, cs[|cs| - 1])
  {
    ResolveAfter(b, root, cs, |cs| - 1);
  }

  /** A path whose parent path does not descend through directories resolves to nothing, unless the
      parent path resolves to a file: then the bytes of that file are searched as if they were slots. */
  lemma {:induction false} ResolveInFile(b: Bytes, root: DirEntry, cs: seq<Text>)
    requires cs != [] && root.IsDir()
    requires Descend(b, root, cs[..|cs| - 1]).Missing? && Resolve(b, root, cs).Found?
    ensures |cs| > 1 && Descend(b, root, cs[..|cs| - 2]).Found?
    ensures var up := Resolve(b, root, cs[..|cs| - 1]);
            up.Found? && !up.e.IsDir() && Resolve(b, root, cs) == Lookup(b, up.e, cs[|cs| - 1])
  {
    var front := cs[..|cs| - 1];
    assert front != [];
    assert front[..|front| - 1] == cs[..|cs| - 2];
    ResolveAfter(b, root, cs, |cs| - 2);
    ResolveIsLookup(b, root, front);
    DescendDir(b, root, cs[..|cs| - 2]);
  }

  /** What spelling a path in other ways comes to: a tilde before the first slash and a slash at the end make no
      difference, three spellings lead to the root, and a path that begins otherwise leads nowhere. */
  lemma {:induction false} Spellings(b: Bytes, root: DirEntry, head: Text, cs: seq<Text>, tail: Text)
    requires root.IsDir()
    ensures cs == [] && tail == "/" && head in {"", "~", "."} ==> ResolveSpelled(b, root, head, cs, tail) == Found(root)
    ensures cs != [] && head in {"", "~"} ==> ResolveSpelled(b, root, head, cs, tail) == Resolve(b, root, cs)
    ensures head !in {"", "~", "."} || (head == "." && cs != []) ==>
              ResolveSpelled(b, root, head, cs, tail) == Missing(if |head| > NAME_SIZE then -EINVAL else -ENOENT)
  {
    assert "" == [];
  }

  /** A component of the path that the loop comes to is too long. */
  ghost predicate TooLong(b: Bytes, root: DirEntry, cs: seq<Text>) {
    exists i :: 0 <= i < |cs| && |cs[i]| > NAME_SIZE && Reached(b, root, cs, i)
  }

  /** The components before `i` are found, all but the last of them directories. */
  ghost predicate Reached(b: Bytes, root: DirEntry, cs: seq<Text>, i: nat)
    requires i <= |cs|
  {
    i == 0 || (Descend(b, root, cs[..i - 1]).Found? && LastLookup(b, Descend(b, root, cs[..i - 1]).e, cs[i - 1]).Found?)
  }

  lemma {:induction false} ReachedFrom(b: Bytes, root: DirEntry, cs: seq<Text>, i: nat, curr: DirEntry)
    requires i < |cs| && root.IsDir()
    requires if i == 0 then curr == root
             else Descend(b, root, cs[..i - 1]).Found? && LastLookup(b, Descend(b, root, cs[..i - 1]).e, cs[i - 1]) == Found(curr)
    ensures ResolveFrom(b, cs, i, curr) == Missing(-EINVAL) ==> TooLong(b, root, cs)
    ensures ResolveFrom(b, cs, i, curr).Missing? ==> ResolveFrom(b, cs, i, curr).code in {-EINVAL, -ENOENT}
    decreases |cs| - i
  {
    hide Lookup;
    assert Reached(b, root, cs, i);
    LookupCode(b, curr, cs[i]);
    if |cs[i]| <= NAME_SIZE && i < |cs| - 1 && curr.IsDir() && Lookup(b, curr, cs[i]).Found? {
      if i > 0 {
        assert cs[..i][..i - 1] == cs[..i - 1];
      }
      assert Descend(b, root, cs[..i]) == Found(curr);
      ReachedFrom(b, root, cs, i + 1, Lookup(b, curr, cs[i]).e);
    }
  }

  lemma {:induction false} LookupCode(b: Bytes, curr: DirEntry, name: Text)
    ensures Lookup(b, curr, name).Missing? ==> Lookup(b, curr, name).code == -ENOENT
  {
  }

  /** Why a path does not resolve: -EINVAL exactly if the loop comes to a component longer than a name can be, and else
      -ENOENT. */
  lemma {:induction false} PathCodes(b: Bytes, root: DirEntry, cs: seq<Text>)
    requires root.IsDir()
    ensures Resolve(b, root, cs) == Missing(-EINVAL) <==> TooLong(b, root, cs)
    ensures Resolve(b, root, cs).Missing? && !TooLong(b, root, cs) ==> Resolve(b, root, cs).code == -ENOENT
  {
    hide Lookup;
    if cs != [] {
      ReachedFrom(b, root, cs, 0, root);
      forall i | 0 <= i < |cs| && |cs[i]| > NAME_SIZE && Reached(b, root, cs, i)
        ensures Resolve(b, root, cs) == Missing(-EINVAL)
      {
        if i > 0 {
          ResolveAfter(b, root, cs, i - 1);
          DescendDir(b, root, cs[..i - 1]);
        }
      }
    }
  }

  /** If the loop finds a directory through directories, descending finds the same. */
  lemma {:induction false} DescendIsResolve(b: Bytes, root: DirEntry, cs: seq<Text>)
    requires root.IsDir()
    ensures Descend(b, root, cs).Found? ==> Resolve(b, root, cs) == Descend(b, root, cs)
  {
    if cs != [] && Descend(b, root, cs).Found? {
      ResolveIsLookup(b, root, cs);
    }
  }

  /** A path whose parent path resolves to a directory inside a file does not resolve. */
  lemma {:induction false} ResolveBelowFile(b: Bytes, root: DirEntry, cs: seq<Text>)
    requires cs != [] && root.IsDir()
    requires Resolve(b, root, cs[..|cs| - 1]).Found? && Resolve(b, root, cs[..|cs| - 1]).e.IsDir()
    requires Descend(b, root, cs[..|cs| - 1]).Missing?
    ensures Resolve(b, root, cs) == Missing(-ENOENT)
  {
    hide Lookup, IsDot;
    var front := cs[..|cs| - 1];
    assert front != [];
    var n := |front| - 1;
    assert front[..n] == cs[..n];
    if Descend(b, root, front[..n]).Found? {
      ResolveIsLookup(b, root, front);
    } else {
      ResolveInFile(b, root, front);
      assert front[..n][..n - 1] == cs[..n - 1] == front[..n - 1];
      ResolveAfter(b, root, cs, n - 1);
      ResolveIsLookup(b, root, front[..n]);
      ResolveAfter(b, root, front, n - 1);
      var f := Resolve(b, root, front[..n]).e;
      assert Resolve(b, root, cs) == ResolveFrom(b, cs, n, f);
    }
  }

  /** When resolving a path is looking up its base name in what its parent path resolves to: if every
      component before it leads into a directory, or the look-up fails all the same. */
  lemma {:induction false} ResolveIsParentLookup(b: Bytes, root: DirEntry, cs: seq<Text>)
    requires cs != [] && root.IsDir()
    requires Resolve(b, root, cs[..|cs| - 1]).Found? && Resolve(b, root, cs[..|cs| - 1]).e.IsDir()
    ensures var found := LastLookup(b, Resolve(b, root, cs[..|cs| - 1]).e, cs[|cs| - 1]);
            Resolve(b, root, cs) == found <==> Descend(b, root, cs[..|cs| - 1]).Found? || found == Missing(-ENOENT)
  {
    if Descend(b, root, cs[..|cs| - 1]).Found? {
      ResolveIsLookup(b, root, cs);
      DescendIsResolve(b, root, cs[..|cs| - 1]);
    } else {
      ResolveBelowFile(b, root, cs);
    }
  }

  /** That the parent path resolves to a directory is not enough: a file `f` whose bytes look like the
      slot of a directory `x` makes /f/x resolve to it, yet /f/x/y does not resolve. */
  lemma {:induction false} ResolveThroughFile() returns (b: Bytes, root: DirEntry)
    ensures root.IsDir()
    ensures var up := Resolve(b, root, ["f", "x"]);
            && up.Found? && up.e.IsDir() && Lookup(b, up.e, "y").Found?
            && Resolve(b, root, ["f", "x", "y"]).Missing?
  {
    hide Encode, Slots, Padded, CStr;
    root := RootEntry(0);
    var f := DirEntry(Padded("f", NAME_SIZE), 0, Zeros(14), 2, ENTRY_SIZE);
    var x := DirEntry(Padded("x", NAME_SIZE), ATTR_DIRECTORY, Zeros(14), 3, 1);
    var y := DirEntry(Padded("y", NAME_SIZE), 0, Zeros(14), 4, 0);
    b := map[0 := Encode(f), 2 := Encode(x), 3 := Encode(y)];
    OneSlot(f, "f");
    OneSlot(x, "x");
    OneSlot(y, "y");
    assert Lookup(b, root, "f") == Found(f);
    assert Lookup(b, f, "x") == Found(x);
    assert Lookup(b, x, "y") == Found(y);
    assert ResolveFrom(b, ["f", "x"], 1, f) == Found(x);
    assert ResolveFrom(b, ["f", "x", "y"], 1, f).Missing?;
  }

  lemma {:induction false} OneSlot(e: DirEntry, name: Text)
    requires e.Valid() && |name| <= NAME_SIZE && NUL !in name && e.name == Padded(name, NAME_SIZE)
    ensures Slots(Encode(e)) == [e] && Find([e], name, false, 0) == 0
  {
    CStrPadded(name, NAME_SIZE);
    DecodeEncode(e);
    assert Encode(e)[ENTRY_SIZE * 0..ENTRY_SIZE * 1] == Encode(e);
    assert Slot(Encode(e), 0) == e;
  }

  // --- walks inside the tree ---------------------------------------------------------------

  /** `curr` names a node, and a directory only if that node is one. */
  ghost predicate Stands(nodes: Nodes, curr: DirEntry) {
    curr.start in nodes && (curr.IsDir() ==> nodes[curr.start].isDir)
  }

  /** Whatever a directory of the tree holds under a name stands for a node. */
  lemma {:induction false} LookupStands(nodes: Nodes, b: Bytes, curr: DirEntry, name: Text)
    requires b.Keys == nodes.Keys && TreeOk(nodes, DirsIn(nodes, b))
    requires Stands(nodes, curr) && curr.IsDir() && name != []
    ensures Lookup(b, curr, name).Found? ==> Stands(nodes, Lookup(b, curr, name).e)
  {
    var ds, d := DirsIn(nodes, b), curr.start;
    var k := Find(ds[d], name, false, 0);
    if k < |ds[d]| {
      assert Names1(nodes, ds, d, k);
      assert DirOk(ds[d], d, nodes[d].parent);
      if Live(ds[d][k]) {
        assert Hangs(nodes, ds, ds[d][k].start);
      } else {
        assert d != 0 && Hangs(nodes, ds, d);
        assert nodes[nodes[d].parent].isDir;
      }
    }
  }

  /** The dot slots are the first two; the root has none. */
  lemma {:induction false} FindDots(s: Dir, d: nat, parent: nat)
    requires DirOk(s, d, parent)
    ensures Find(s, DOT, false, 0) == if d == 0 then |s| else 0
    ensures Find(s, DOTDOT, false, 0) == if d == 0 then |s| else 1
  {
    if d == 0 {
      assert forall k :: 0 <= k < |s| ==> !IsDot(s[k]);
    } else {
      FindAt(s, DOT, false, 0);
      FindAt(s, DOTDOT, false, 1);
    }
  }

  /** Where an entry is kept: a slot of a directory, or nowhere, as the entry made up for the root. */
  datatype Spot = NoSpot | Spot(dir: nat, slot: nat)

  /** The slot the last component of a path is found in. */
  ghost function SpotOf(b: Bytes, root: DirEntry, cs: seq<Text>): Spot {
    if cs == [] then NoSpot
    else
      match Descend(b, root, cs[..|cs| - 1])
      case Missing(_) => NoSpot
      case Found(d) => if d.start in b then Spot(d.start, Find(Slots(b[d.start]), cs[|cs| - 1], false, 0)) else NoSpot
  }

  /** The slot that names directory `p`. */
  ghost function NameSpot(nodes: Nodes, p: nat): Spot
    requires p in nodes
  {
    if p == 0 then NoSpot else Spot(nodes[p].parent, nodes[p].slot)
  }

  /** Spot `s` holds `e` under `name`: a dot slot for the directory it is in or for its parent, or else the
      one slot that names a node. */
  ghost predicate Placed(nodes: Nodes, ds: Dirs, s: Spot, e: DirEntry, name: Text) {
    && s.Spot? && s.dir in nodes && s.dir in ds && s.slot < |ds[s.dir]|
    && ds[s.dir][s.slot] == e && e.Name() == name
    && s.slot == Find(ds[s.dir], name, false, 0)
    && if name == DOT then s.dir != 0 && s.slot == 0 && e.start == s.dir && e.IsDir()
       else if name == DOTDOT then s.dir != 0 && s.slot == 1 && e.start == nodes[s.dir].parent && e.IsDir()
       else e.start != 0 && e.start in nodes && Hangs(nodes, ds, e.start) && s == NameSpot(nodes, e.start)
  }

  /** Whatever a directory of the tree holds under a name is placed there. */
  lemma {:induction false} LookupPlaced(nodes: Nodes, b: Bytes, curr: DirEntry, name: Text)
    requires b.Keys == nodes.Keys && TreeOk(nodes, DirsIn(nodes, b))
    requires Stands(nodes, curr) && curr.IsDir() && name != []
    requires Lookup(b, curr, name).Found?
    ensures Placed(nodes, DirsIn(nodes, b), Spot(curr.start, Find(Slots(b[curr.start]), name, false, 0)),
                   Lookup(b, curr, name).e, name)
  {
    var ds, d := DirsIn(nodes, b), curr.start;
    var k := Find(ds[d], name, false, 0);
    assert Names1(nodes, ds, d, k);
    assert DirOk(ds[d], d, nodes[d].parent);
    FindDots(ds[d], d, nodes[d].parent);
    if name != DOT && name != DOTDOT {
      assert Hangs(nodes, ds, ds[d][k].start);
    }
  }

  /** The path does not end in a dot component. */
  predicate Named(cs: seq<Text>) {
    cs != [] ==> cs[|cs| - 1] != DOT && cs[|cs| - 1] != DOTDOT
  }

  /** The directory a path descends to is one of the tree, and the entry found is placed in the directory its
      parent path descends to. */
  lemma {:induction false} DescendNode(nodes: Nodes, b: Bytes, root: DirEntry, cs: seq<Text>)
    requires b.Keys == nodes.Keys && TreeOk(nodes, DirsIn(nodes, b))
    requires Components(cs) && root.IsDir() && root.start == 0
    requires Descend(b, root, cs).Found?
    ensures var (d, ds) := (Descend(b, root, cs).e, DirsIn(nodes, b));
            && d.start in ds && d.IsDir()
            && (cs == [] ==> d == root)
            && (cs != [] ==>
                  && Descend(b, root, cs[..|cs| - 1]).Found?
                  && SpotOf(b, root, cs).Spot? && SpotOf(b, root, cs).dir == Descend(b, root, cs[..|cs| - 1]).e.start
                  && Placed(nodes, ds, SpotOf(b, root, cs), d, cs[|cs| - 1]))
  {
    if cs != [] {
      var front := cs[..|cs| - 1];
      assert Component(cs[|cs| - 1]);
      DescendNode(nodes, b, root, front);
      LookupStands(nodes, b, Descend(b, root, front).e, cs[|cs| - 1]);
      LookupPlaced(nodes, b, Descend(b, root, front).e, cs[|cs| - 1]);
    }
  }

  /** What the path resolves to, if anything, is found in a directory: no regular file stands before the last
      component. */
  ghost predicate OffFiles(b: Bytes, root: DirEntry, cs: seq<Text>) {
    cs != [] && Resolve(b, root, cs).Found? ==>
      Resolve(b, root, cs[..|cs| - 1]).Found? && Resolve(b, root, cs[..|cs| - 1]).e.IsDir()
  }

  /** That is to say, it is found by descending. */
  lemma {:induction false} OffFilesDescends(b: Bytes, root: DirEntry, cs: seq<Text>)
    requires root.IsDir() && cs != [] && Resolve(b, root, cs).Found?
    ensures OffFiles(b, root, cs) <==> Descend(b, root, cs[..|cs| - 1]).Found?
  {
    if Descend(b, root, cs[..|cs| - 1]).Missing? {
      ResolveInFile(b, root, cs);
    } else {
      DescendIsResolve(b, root, cs[..|cs| - 1]);
      DescendDir(b, root, cs[..|cs| - 1]);
    }
  }

  /** Off files, what resolves resolves by a lookup in a directory the parent path descends to. */
  lemma {:induction false} ResolveOffFiles(b: Bytes, root: DirEntry, cs: seq<Text>)
    requires root.IsDir() && OffFiles(b, root, cs) && Resolve(b, root, cs).Found?
    ensures cs != [] ==> Descend(b, root, cs[..|cs| - 1]).Found?
    ensures Resolve(b, root, cs).e.IsDir() ==> Descend(b, root, cs) == Resolve(b, root, cs)
  {
    if cs != [] {
      OffFilesDescends(b, root, cs);
      ResolveIsLookup(b, root, cs);
    }
  }
}
