/** fat.c: what creating, deleting and renaming answer, and which names there are afterwards, told by the names in the
    directories alone. */
module FileAnswers {
  import opened CText
  import opened DirEntries
  import opened Directory
  import opened Volumes
  import opened ChainGrowth
  import opened FileTree
  import opened Catalogs
  import opened Images
  import opened PathNames
  import opened Errno
  import opened TreeWalk
  import opened FileEffects
  import opened VolumeOrder
  import opened FileOps
  import opened DeleteSteps
  import opened FileRemoval
  import opened FileRenaming
  import opened RoundTrips

  /** The names in directory `p`. */
  ghost function NamesIn(b: Bytes, p: nat): set<Text>
    requires p in b
  {
    Names(Slots(b[p]))
  }

  lemma {:induction false} NamesInNames(b: Bytes, p: nat)
    requires p in b
    ensures NamesIn(b, p) == Names(Slots(b[p])) == AsMap(Slots(b[p])).Keys
  {
  }

  /** A path from the root that ends in `name`, in the directory `front` leads to. */
  ghost predicate LeadsInto(v: Vol, g: Catalog, root: DirEntry, front: seq<Text>, name: Text) {
    && Inv(v, g) && v.bpc < 0x20000 && Components(front + [name]) && root.IsDir() && root.start == 0
    && Descend(BytesOf(v, g), root, front).Found? && LegalName(name) && |name| <= NAME_SIZE
  }

  /** What is known of the path and its directory. */
  lemma {:induction false} IntoFacts(v: Vol, g: Catalog, root: DirEntry, front: seq<Text>, name: Text)
    requires LeadsInto(v, g, root, front, name)
    ensures v.Valid() && ChainsOk(v.table, g) && Components(front) && ImageOk(g.nodes, BytesOf(v, g))
    ensures Descend(BytesOf(v, g), root, front).Found? && LegalName(name)
    ensures var (b, cs) := (BytesOf(v, g), front + [name]);
            && Upper(cs) == front == cs[..|cs| - 1] && LastOf(cs) == name == cs[|cs| - 1] && Named(cs) && name != []
            && b.Keys == g.nodes.Keys && TreeOk(g.nodes, DirsIn(g.nodes, b))
            && Resolve(b, root, front) == Descend(b, root, front) && Descend(b, root, front).e.IsDir()
            && OffFiles(b, root, front) && OffFiles(b, root, cs)
            && var p := Descend(b, root, front).e.start;
               && p in b && g.nodes[p].isDir && NamesIn(b, p) == Names(Slots(b[p]))
               && Resolve(b, root, cs) == (if name in NamesIn(b, p) then Found(AsMap(Slots(b[p]))[name]) else Missing(-ENOENT))
  {
    hide Resolve, Descend, ChainsOk, ImageOk, Slots, Find, TreeOk, AsMap, LegalName, Names, NamesIn;
    var b, cs := BytesOf(v, g), front + [name];
    InvWalks(v, g);
    InvImage(v, g);
    OkHasTree(g.nodes, b);
    assert front == cs[..|front|] == Upper(cs);
    assert Component(cs[|front|]);
    assert forall i :: 0 <= i < |front| ==> Component(cs[i]) && front[i] == cs[i];
    LegalIsNamed(name);
    DescendNode(g.nodes, b, root, front);
    DescendDir(b, root, front);
    DescendIsResolve(b, root, front);
    if front != [] {
      DescendIsResolve(b, root, front[..|front| - 1]);
      DescendDir(b, root, front[..|front| - 1]);
    }
    ResolveIsLookup(b, root, cs);
    var p := Descend(b, root, front).e.start;
    NamesInNames(b, p);
    FindIsLookup(Slots(b[p]), name);
    assert AsMap(Slots(b[p])).Keys == Names(Slots(b[p]));
  }

  // --- creating ----------------------------------------------------------------------------

  /** Room for a new node in directory `p`: an empty slot and a free cluster, or two free clusters. */
  ghost predicate Roomy(v: Vol, b: Bytes, p: nat)
    requires p in b
  {
    |FreeSet(v.table)| >= 2 || (|FreeSet(v.table)| == 1 && exists j :: 0 <= j < |Slots(b[p])| && Slots(b[p])[j].Empty())
  }

  lemma {:induction false} RoomyIsRoom(v: Vol, b: Bytes, p: nat)
    requires p in b && FreeSet(v.table) != {}
    ensures Roomy(v, b, p) <==> !NoRoom(v, b, p)
  {
    var s := Slots(b[p]);
    assert Find(s, [], false, 0) < |s| ==> s[Find(s, [], false, 0)].Empty();
    assert |FreeSet(v.table)| == 0 ==> FreeSet(v.table) == {};
  }

  /** The size noted somewhere changes no name. */
  lemma {:induction false} NotedNames(b: Bytes, s: Spot, delta: int, p: nat)
    requires SpotIn(b, s) && p in b
    ensures NamesIn(Noted(b, s, delta), p) == NamesIn(b, p)
    ensures |Slots(Noted(b, s, delta)[p])| == |Slots(b[p])|
    ensures forall k :: 0 <= k < |Slots(b[p])| ==> SameButSize(Slots(b[p])[k], Slots(Noted(b, s, delta)[p])[k])
  {
    hide Splice, Encode, Slots, Decode, CStr;
    if s.Spot? && s.dir == p {
      var e := Slot(b[p], s.slot);
      SlotIsIn(b[p], s.slot);
      SlotsSplice(b[p], s.slot, Tallied(e, delta));
      var x, y := Slots(b[p]), Slots(Noted(b, s, delta)[p]);
      SameNames(x, y);
    }
  }

  lemma {:induction false} SameNames(x: Dir, y: Dir)
    requires |x| == |y| && forall k :: 0 <= k < |x| ==> SameButSize(x[k], y[k])
    ensures Names(x) == Names(y) && (UniqueNames(x) <==> UniqueNames(y))
  {
    hide CStr;
    assert forall k :: 0 <= k < |x| ==> x[k].Name() == y[k].Name();
    forall n | n in Names(x)
      ensures n in Names(y)
    {
      var k :| 0 <= k < |x| && !x[k].Empty() && x[k].Name() == n;
      assert y[k].Name() == n;
    }
    forall n | n in Names(y)
      ensures n in Names(x)
    {
      var k :| 0 <= k < |y| && !y[k].Empty() && y[k].Name() == n;
      assert x[k].Name() == n;
    }
  }

  /** What a creation answers. It fails with -EEXIST exactly if the directory has the name, with -EIO exactly if it has not
      but there is no room, and else succeeds: then the directory has exactly one name more, for a node that was
      not there. */
  lemma {:induction false} CreateAnswers(v: Vol, g: Catalog, root: DirEntry, front: seq<Text>, name: Text,
                                         isDirectory: bool, code: int, k: Catalog, bs: Bytes)
    requires LeadsInto(v, g, root, front, name) && |name| < NAME_SIZE && v.Valid() && FreeSet(v.table) != {}
    requires CreateOutcome(v, g, root, front + [name], false, isDirectory, code, k, bs)
    ensures ChainsOk(v.table, g) && Descend(BytesOf(v, g), root, front).e.start in BytesOf(v, g)
    ensures var (b, p) := (BytesOf(v, g), Descend(BytesOf(v, g), root, front).e.start);
            && (code == -EEXIST <==> name in NamesIn(b, p))
            && (code == -EIO <==> name !in NamesIn(b, p) && !Roomy(v, b, p))
            && (code == 0 <==> name !in NamesIn(b, p) && Roomy(v, b, p))
            && (code != 0 ==> k == g && bs == b)
            && (code == 0 ==> p in bs && NamesIn(bs, p) == NamesIn(b, p) + {name} && NewUnder(g.nodes, k.nodes, bs, p, name, isDirectory))
  {
    hide *;
    IntoFacts(v, g, root, front, name);
    var b, p := BytesOf(v, g), Descend(BytesOf(v, g), root, front).e.start;
    RoomyIsRoom(v, b, p);
    CreateCases(v, g, root, front, name, isDirectory, code, k, bs);
    if code == 0 {
      var n: nat :| Created(g.nodes, b, SpotOf(b, root, front), p, name, isDirectory, n, k.nodes, bs);
      CreatedNames(g.nodes, b, SpotOf(b, root, front), p, name, isDirectory, n, k.nodes, bs);
    }
  }

  /** The entry of `name` in directory `p` leads to a node that is new. */
  ghost predicate NewUnder(nodes: Nodes, ms: Nodes, bs: Bytes, p: nat, name: Text, isDirectory: bool)
    requires p in bs
  {
    && name in AsMap(Slots(bs[p]))
    && var e := AsMap(Slots(bs[p]))[name];
       e.IsDir() == isDirectory && e.start !in nodes && e.start in ms && e.size == if isDirectory then 2 else 0
  }

  lemma {:induction false} CreateCases(v: Vol, g: Catalog, root: DirEntry, front: seq<Text>, name: Text,
                                       isDirectory: bool, code: int, k: Catalog, bs: Bytes)
    requires LeadsInto(v, g, root, front, name) && v.Valid()
    requires CreateOutcome(v, g, root, front + [name], false, isDirectory, code, k, bs)
    ensures ChainsOk(v.table, g) && Descend(BytesOf(v, g), root, front).e.start in BytesOf(v, g)
    ensures var (b, p) := (BytesOf(v, g), Descend(BytesOf(v, g), root, front).e.start);
            && (code == -EEXIST <==> name in NamesIn(b, p))
            && (code == -EIO <==> name !in NamesIn(b, p) && NoRoom(v, b, p))
            && (code == 0 <==> name !in NamesIn(b, p) && !NoRoom(v, b, p))
            && (code != 0 ==> k == g && bs == b)
            && (code == 0 ==> exists n: nat :: Created(g.nodes, b, SpotOf(b, root, front), p, name, isDirectory, n, k.nodes, bs))
  {
    hide Resolve, Descend, ChainsOk, ImageOk, Slots, Find, TreeOk, AsMap, LegalName, Names, NamesIn, NoRoom, Created, SpotOf,
         OffFiles;
    IntoFacts(v, g, root, front, name);
    var b, p := BytesOf(v, g), Descend(BytesOf(v, g), root, front).e.start;
    NamesInNames(b, p);
    FindIsLookup(Slots(b[p]), name);
  }

  lemma {:induction false} CreatedNames(nodes: Nodes, b: Bytes, s: Spot, p: nat, name: Text, isDirectory: bool, n: nat,
                                        ms: Nodes, bs: Bytes)
    requires Created(nodes, b, s, p, name, isDirectory, n, ms, bs) && LegalName(name) && p in b
    ensures p in bs && NamesIn(bs, p) == NamesIn(b, p) + {name} && NewUnder(nodes, ms, bs, p, name, isDirectory)
  {
    hide Slots, Names, AsMap, NamesIn, FreshDir, Noted, ChainKept, LegalName, CStr;
    NewEntryName(name, isDirectory, n);
    NotedNames(b, s, 1, p);
    GainedIn(nodes, Noted(b, s, 1), ms, bs, p, NewEntry(name, isDirectory, n));
    NamesInNames(Noted(b, s, 1), p);
    NamesInNames(bs, p);
  }

  /** What else a creation answers: -EINVAL without a legal name at the end, and else what resolving the parent path
      answers, or -ENOENT if that leads to a file. */
  lemma {:induction false} CreateFails(v: Vol, g: Catalog, root: DirEntry, cs: seq<Text>, slash: bool, isDirectory: bool,
                                       code: int, k: Catalog, bs: Bytes)
    requires Inv(v, g) && v.Valid() && ChainsOk(v.table, g) && root.IsDir() && root.start == 0 && Components(cs)
    requires CreateOutcome(v, g, root, cs, slash, isDirectory, code, k, bs)
    requires cs != [] && !slash ==> OffFiles(BytesOf(v, g), root, Upper(cs))
    ensures var b := BytesOf(v, g);
            && (cs == [] || slash || !LegalName(LastOf(cs)) ==> code == -EINVAL)
            && (cs != [] && !slash && LegalName(LastOf(cs)) && Descend(b, root, Upper(cs)).Missing? ==>
                  code == if TooLong(b, root, Upper(cs)) then -EINVAL else -ENOENT)
            && (cs == [] || slash || !LegalName(LastOf(cs)) || Descend(b, root, Upper(cs)).Missing? ==> k == g && bs == b)
  {
    hide Resolve, Descend, ChainsOk, ImageOk, Lookup, LegalName, NoRoom, Created, SpotOf, OffFiles, TooLong;
    var b, front := BytesOf(v, g), Upper(cs);
    PathCodes(b, root, front);
    DescendIsResolve(b, root, front);
    ResolveOffDescends(b, root, cs, slash);
  }

  lemma {:induction false} ResolveOffDescends(b: Bytes, root: DirEntry, cs: seq<Text>, slash: bool)
    requires root.IsDir() && (cs != [] && !slash ==> OffFiles(b, root, Upper(cs)))
    ensures cs != [] && !slash && Resolve(b, root, Upper(cs)).Found? && Resolve(b, root, Upper(cs)).e.IsDir() ==>
              Descend(b, root, Upper(cs)).Found?
    ensures Resolve(b, root, Upper(cs)).Found? ==> !TooLong(b, root, Upper(cs))
  {
    hide Resolve, Descend, Lookup;
    PathCodes(b, root, Upper(cs));
    if cs != [] && !slash && Resolve(b, root, Upper(cs)).Found? {
      ResolveOffFiles(b, root, Upper(cs));
    }
  }

  // --- deleting ----------------------------------------------------------------------------

  /** What a deletion answers. A name that is not there is -ENOENT. A file is deleted as a file, and a directory is
      -EISDIR then; a directory is deleted as one exactly if it has no names but the dots. As a directory, a regular file
      is refused for its attribute or its size. Afterwards the directory has exactly that name less. */
  lemma {:induction false} DeleteAnswers(v: Vol, g: Catalog, root: DirEntry, front: seq<Text>, name: Text,
                                         isDirectory: bool, code: int, k: Catalog, w: Vol)
    requires LeadsInto(v, g, root, front, name) && v.Valid() && ChainsOk(v.table, g)
    requires DeleteOutcome(v, g, root, front + [name], false, isDirectory, code, k, w)
    ensures Descend(BytesOf(v, g), root, front).e.start in BytesOf(v, g)
    ensures var (b, p) := (BytesOf(v, g), Descend(BytesOf(v, g), root, front).e.start);
            && (name !in NamesIn(b, p) ==> code == -ENOENT)
            && (name in NamesIn(b, p) ==>
                  var e := AsMap(Slots(b[p]))[name];
                  && e.start in b
                  && code == (if !isDirectory then if e.IsDir() then -EISDIR else 0
                              else if e.IsDir() then if NamesIn(b, e.start) == {DOT, DOTDOT} then 0 else -EINVAL
                              else if e.attr == 0 then -ENOENT else if e.size == 2 then 0 else -EINVAL)
                  && (code == 0 ==> e.start !in k.nodes && e.start in g.nodes && e.start != p))
            && (code != 0 ==> k == g && w == v)
            && (code == 0 ==> WalkReady(w, k) && p in BytesOf(w, k) && NamesIn(BytesOf(w, k), p) == NamesIn(b, p) - {name})
  {
    hide *;
    IntoFacts(v, g, root, front, name);
    var b, p := BytesOf(v, g), Descend(BytesOf(v, g), root, front).e.start;
    DeleteCases(v, g, root, front, name, isDirectory, code, k, w);
    if name in NamesIn(b, p) {
      NameLeads(v, g, root, front, name);
    }
    if code == 0 {
      DeletedNames(v, g, root, front, name, k, w);
    }
  }

  /** What the name of a directory entry leads to. */
  lemma {:induction false} NameLeads(v: Vol, g: Catalog, root: DirEntry, front: seq<Text>, name: Text)
    requires LeadsInto(v, g, root, front, name) && v.Valid() && ChainsOk(v.table, g)
    requires Descend(BytesOf(v, g), root, front).e.start in BytesOf(v, g)
    requires name in NamesIn(BytesOf(v, g), Descend(BytesOf(v, g), root, front).e.start)
    ensures var (b, p) := (BytesOf(v, g), Descend(BytesOf(v, g), root, front).e.start);
            && name in AsMap(Slots(b[p]))
            && var e := AsMap(Slots(b[p]))[name];
               && e.start in b && e.start in g.nodes && e.start != p && g.nodes[e.start].parent == p && e.Valid()
               && g.nodes[e.start].slot < |Slots(b[p])| && Slots(b[p])[g.nodes[e.start].slot] == e && e.Name() == name
               && (e.IsDir() ==> (e.size == 2 <==> NamesIn(b, e.start) == {DOT, DOTDOT}))
  {
    hide Resolve, Descend, ChainsOk, ImageOk, Find, TreeOk, AsMap, LegalName, Names, NamesIn, SpotOf, ParentIs, Placed, Kept;
    IntoFacts(v, g, root, front, name);
    var b, cs := BytesOf(v, g), front + [name];
    var e := AsMap(Slots(b[Descend(b, root, front).e.start]))[name];
    SlotOfMap(Slots(b[Descend(b, root, front).e.start]), name);
    TargetFound(v, g, root, cs, 0);
    TargetNode(g.nodes, b, root, cs, e, 0);
    NodeHangs(g.nodes, DirsIn(g.nodes, b), e.start);
    if e.IsDir() {
      OnlyDots(g.nodes, b, e.start);
    }
  }

  lemma {:induction false} NodeHangs(nodes: Nodes, ds: Dirs, h: nat)
    requires TreeOk(nodes, ds) && h in nodes && h != 0
    ensures Hangs(nodes, ds, h) && nodes[h].parent != h && nodes[h].isDir == EntryOf(nodes, ds, h).IsDir()
  {
    hide DirsOk, CStr;
    assert Hangs(nodes, ds, h);
  }

  lemma {:induction false} SlotOfMap(s: Dir, name: Text)
    requires name in AsMap(s) && name != []
    ensures AsMap(s)[name] in s
  {
    FindIsLookup(s, name);
  }

  /** The size of a directory that holds nothing but the dots. */
  lemma {:induction false} OnlyDots(nodes: Nodes, b: Bytes, h: nat)
    requires ImageOk(nodes, b) && h in nodes && h != 0 && nodes[h].isDir && Hangs(nodes, DirsIn(nodes, b), h)
    ensures EntryOf(nodes, DirsIn(nodes, b), h).size == 2 <==> NamesIn(b, h) == {DOT, DOTDOT}
  {
    hide Slots, CStr, LinkedUp, UniqueNames, FilesOk, LegalName;
    var ds := DirsIn(nodes, b);
    EmptyDirIsLeaf(nodes, ds, h);
    var s := ds[h];
    assert DirOk(s, h, nodes[h].parent);
    assert s[0].Name() in NamesIn(b, h) && s[1].Name() in NamesIn(b, h);
    forall j | 0 <= j < |s|
      ensures Live(s[j]) ==> s[j].Name() in NamesIn(b, h) && s[j].Name() !in {DOT, DOTDOT}
    {
    }
    assert (forall j :: 0 <= j < |s| ==> !Live(s[j])) ==> NamesIn(b, h) == {DOT, DOTDOT};
  }

  lemma {:induction false} DeleteCases(v: Vol, g: Catalog, root: DirEntry, front: seq<Text>, name: Text,
                                       isDirectory: bool, code: int, k: Catalog, w: Vol)
    requires LeadsInto(v, g, root, front, name) && v.Valid() && ChainsOk(v.table, g)
    requires DeleteOutcome(v, g, root, front + [name], false, isDirectory, code, k, w)
    ensures var (b, p) := (BytesOf(v, g), Descend(BytesOf(v, g), root, front).e.start);
            && p in b
            && (name !in NamesIn(b, p) ==> code == -ENOENT)
            && (name in NamesIn(b, p) ==>
                  && name in AsMap(Slots(b[p]))
                  && var e := AsMap(Slots(b[p]))[name];
                     code == if isDirectory then if e.attr == 0 then -ENOENT else if e.size != 2 then -EINVAL else 0
                             else if e.IsDir() then -EISDIR else 0)
            && (code != 0 ==> k == g && w == v)
            && (code == 0 ==>
                  && name in NamesIn(b, p) && WalkReady(w, k)
                  && Deleted(g.nodes, b, SpotOf(b, root, front), AsMap(Slots(b[p]))[name].start, k.nodes, BytesOf(w, k)))
            && (name in NamesIn(b, p) && AsMap(Slots(b[p]))[name].IsDir() ==> AsMap(Slots(b[p]))[name].attr != 0)
  {
    hide Resolve, Descend, ChainsOk, ImageOk, Slots, Find, TreeOk, AsMap, LegalName, Names, NamesIn, SpotOf, Deleted, Executed,
         OffFiles;
    IntoFacts(v, g, root, front, name);
    NamesInNames(BytesOf(v, g), Descend(BytesOf(v, g), root, front).e.start);
  }

  lemma {:induction false} DeletedNames(v: Vol, g: Catalog, root: DirEntry, front: seq<Text>, name: Text, k: Catalog,
                                        w: Vol)
    requires LeadsInto(v, g, root, front, name) && v.Valid() && ChainsOk(v.table, g) && WalkReady(w, k)
    requires var (b, p) := (BytesOf(v, g), Descend(BytesOf(v, g), root, front).e.start);
             && p in b && name in NamesIn(b, p) && name in AsMap(Slots(b[p]))
             && Deleted(g.nodes, b, SpotOf(b, root, front), AsMap(Slots(b[p]))[name].start, k.nodes, BytesOf(w, k))
    ensures var (b, p) := (BytesOf(v, g), Descend(BytesOf(v, g), root, front).e.start);
            && p in BytesOf(w, k) && NamesIn(BytesOf(w, k), p) == NamesIn(b, p) - {name}
            && AsMap(Slots(b[p]))[name].start !in k.nodes
  {
    hide Resolve, Descend, ChainsOk, ImageOk, Find, TreeOk, AsMap, LegalName, Names, NamesIn, SpotOf, Slots, Splice, Encode, Noted;
    var b, p := BytesOf(v, g), Descend(BytesOf(v, g), root, front).e.start;
    var h, s := AsMap(Slots(b[p]))[name].start, SpotOf(b, root, front);
    NameLeads(v, g, root, front, name);
    IntoFacts(v, g, root, front, name);
    NotedNames(b, s, -1, p);
    EncodeNoEntry();
    SlotsSplice(Noted(b, s, -1)[p], g.nodes[h].slot, NO_ENTRY);
    UniqueIn(g.nodes, DirsIn(g.nodes, b), p);
    NameTakenOut(b, Noted(b, s, -1), p, g.nodes[h].slot, name, BytesOf(w, k));
  }

  lemma {:induction false} NameTakenOut(b: Bytes, n: Bytes, p: nat, slot: nat, name: Text, bs: Bytes)
    requires p in b && p in n && p in bs && slot < |Slots(b[p])| == |Slots(n[p])| && UniqueNames(Slots(b[p]))
    requires forall k :: 0 <= k < |Slots(b[p])| ==> SameButSize(Slots(b[p])[k], Slots(n[p])[k])
    requires Slots(b[p])[slot].Name() == name != [] && Slots(bs[p]) == Slots(n[p])[slot := NO_ENTRY]
    ensures NamesIn(bs, p) == NamesIn(b, p) - {name}
  {
    hide Slots, CStr, AsMap, UniqueNames, Names, SameButSize;
    EmptyEntry();
    SameNames(Slots(b[p]), Slots(n[p]));
    PutSlot(Slots(n[p]), slot, NO_ENTRY);
    SameName(Slots(b[p])[slot], Slots(n[p])[slot]);
    assert AsMap(Slots(bs[p])).Keys == AsMap(Slots(n[p])).Keys - {name};
  }

  lemma {:induction false} SameName(e: DirEntry, x: DirEntry)
    requires SameButSize(e, x)
    ensures e.Name() == x.Name()
  {
  }

  // --- renaming ----------------------------------------------------------------------------

  /** What renaming answers, regular files and directories alike: -ENOENT exactly if the name is not there, -EINVAL exactly
      if the new one is none, -EEXIST exactly if it is in use, and else success: then the directory has the new name
      instead of the old one, for the same entry. */
  lemma {:induction false} RenameAnswers(v: Vol, g: Catalog, root: DirEntry, front: seq<Text>, name: Text, renamed: Text,
                                         code: int, bs: Bytes)
    requires LeadsInto(v, g, root, front, name)
    requires RenameOutcome(v, g, root, front + [name], false, renamed, code, bs)
    ensures v.Valid() && ChainsOk(v.table, g) && Descend(BytesOf(v, g), root, front).e.start in BytesOf(v, g)
    ensures var (b, p) := (BytesOf(v, g), Descend(BytesOf(v, g), root, front).e.start);
            && code == (if name !in NamesIn(b, p) then -ENOENT
                        else if |renamed| > NAME_SIZE || !LegalName(renamed) then -EINVAL
                        else if renamed in NamesIn(b, p) then -EEXIST
                        else 0)
            && (code != 0 ==> bs == b)
            && (code == 0 ==>
                  && bs.Keys == b.Keys && (forall d :: d in b && d != p ==> bs[d] == b[d])
                  && AsMap(Slots(bs[p]))
                     == AsMap(Slots(b[p])) - {name} + map[renamed := AsMap(Slots(b[p]))[name].(name := Padded(renamed, NAME_SIZE))])
  {
    hide *;
    IntoFacts(v, g, root, front, name);
    var b, p := BytesOf(v, g), Descend(BytesOf(v, g), root, front).e.start;
    NamesInNames(b, p);
    if name in NamesIn(b, p) {
      NameLeads(v, g, root, front, name);
      SlotIsNumber(g, AsMap(Slots(b[p]))[name].start);
      OldNameFound(g.nodes, b, p, AsMap(Slots(b[p]))[name], g.nodes[AsMap(Slots(b[p]))[name].start].slot);
    }
    RenameCases(v, g, root, front, name, renamed, code, bs);
    if code == 0 {
      var e := AsMap(Slots(b[p]))[name];
      RenamedNames(b, p, g.nodes[e.start].slot, e, renamed, bs);
    }
  }

  lemma {:induction false} OldNameFound(nodes: Nodes, b: Bytes, p: nat, e: DirEntry, slot: nat)
    requires b.Keys == nodes.Keys && TreeOk(nodes, DirsIn(nodes, b)) && p in b && nodes[p].isDir
    requires slot < |Slots(b[p])| && Slots(b[p])[slot] == e && e.Name() != []
    ensures Find(Slots(b[p]), e.Name(), true, 0) == slot && UniqueNames(Slots(b[p]))
  {
    hide Slots, CStr, LinkedUp;
    var s := Slots(b[p]);
    assert DirOk(DirsIn(nodes, b)[p], p, nodes[p].parent);
    FindUnique(s, slot, true);
  }

  lemma {:induction false} RenameCases(v: Vol, g: Catalog, root: DirEntry, front: seq<Text>, name: Text, renamed: Text,
                                       code: int, bs: Bytes)
    requires LeadsInto(v, g, root, front, name) && v.Valid() && ChainsOk(v.table, g)
    requires RenameOutcome(v, g, root, front + [name], false, renamed, code, bs)
    requires var (b, p) := (BytesOf(v, g), Descend(BytesOf(v, g), root, front).e.start);
             && p in b && (name in NamesIn(b, p) ==>
                  && name in AsMap(Slots(b[p]))
                  && Find(Slots(b[p]), AsMap(Slots(b[p]))[name].Name(), true, 0)
                     == SlotNumber(g, AsMap(Slots(b[p]))[name].start) < |Slots(b[p])|)
    ensures var (b, p) := (BytesOf(v, g), Descend(BytesOf(v, g), root, front).e.start);
            && code == (if name !in NamesIn(b, p) then -ENOENT
                        else if |renamed| > NAME_SIZE || !LegalName(renamed) then -EINVAL
                        else if renamed in NamesIn(b, p) then -EEXIST
                        else 0)
            && (code != 0 ==> bs == b)
            && (code == 0 ==>
                  && name in NamesIn(b, p) && LegalName(renamed) && renamed !in NamesIn(b, p)
                  && var e := AsMap(Slots(b[p]))[name];
                  Renamed(b, Spot(p, SlotNumber(g, e.start)), e, renamed, bs))
  {
    hide Resolve, Descend, ChainsOk, ImageOk, Slots, Find, TreeOk, AsMap, LegalName, Names, NamesIn, Renamed, SlotNumber;
    IntoFacts(v, g, root, front, name);
    var b, p := BytesOf(v, g), Descend(BytesOf(v, g), root, front).e.start;
    NoName();
    NamesInNames(b, p);
    if renamed != [] {
      FindIsLookup(Slots(b[p]), renamed);
    }
  }

  lemma {:induction false} SlotIsNumber(g: Catalog, h: nat)
    requires h in g.nodes
    ensures SlotNumber(g, h) == g.nodes[h].slot
  {
  }

  ghost function SlotNumber(g: Catalog, h: nat): nat {
    if h in g.nodes then g.nodes[h].slot else 0
  }

  lemma {:induction false} RenamedNames(b: Bytes, p: nat, slot: nat, e: DirEntry, renamed: Text, bs: Bytes)
    requires Renamed(b, Spot(p, slot), e, renamed, bs) && p in b && UniqueNames(Slots(b[p])) && LegalName(renamed)
    requires slot < |Slots(b[p])| && Slots(b[p])[slot] == e && renamed !in NamesIn(b, p)
    ensures bs.Keys == b.Keys && (forall d :: d in b && d != p ==> bs[d] == b[d])
    ensures AsMap(Slots(bs[p])) == AsMap(Slots(b[p])) - {e.Name()} + map[renamed := e.(name := Padded(renamed, NAME_SIZE))]
  {
    hide Slots, AsMap, UniqueNames, Encode, Splice, LegalName, Padded, CStr, Names;
    NoName();
    LegalHasNoNul(renamed);
    CStrPadded(renamed, NAME_SIZE);
    var x := e.(name := Padded(renamed, NAME_SIZE));
    SlotsSplice(b[p], slot, x);
    PutSlot(Slots(b[p]), slot, x);
  }
}
