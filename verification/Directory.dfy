/** A directory as the sequence of its slots, and as a finite map from names to entries. */
module Directory {
  import opened CText
  import opened DirEntries

  type Dir = seq<DirEntry>

  /** How a slot is compared with a name: `strncmp(dir[k].name, name, 11)`, or, where `exact`,
      `strcmp(dir[k].name, name)`. An 11-character name has no NUL of its own, so `strcmp`
      reads on into the attribute byte. */
  predicate Matches(e: DirEntry, name: seq<Byte>, exact: bool) {
    e.Name() == name && (exact && |name| == NAME_SIZE ==> e.attr == 0)
  }

  /** The first matching slot from `k` on, or |s|. */
  function Find(s: Dir, name: seq<Byte>, exact: bool, k: nat): (r: nat)
    requires k <= |s|
    ensures k <= r <= |s|
    ensures r < |s| ==> Matches(s[r], name, exact)
    ensures forall j :: k <= j < r ==> !Matches(s[j], name, exact)
    decreases |s| - k
  {
    if k == |s| || Matches(s[k], name, exact) then k else Find(s, name, exact, k + 1)
  }

  ghost predicate UniqueNames(s: Dir) {
    forall j, k :: 0 <= j < |s| && 0 <= k < |s| && !s[j].Empty() && s[j].Name() == s[k].Name() ==> j == k
  }

  ghost predicate ShortNames(s: Dir) {
    forall k :: 0 <= k < |s| ==> |s[k].Name()| < NAME_SIZE
  }

  ghost function Names(s: Dir): set<seq<Byte>> {
    set k | 0 <= k < |s| && !s[k].Empty() :: s[k].Name()
  }

  ghost function AsMap(s: Dir): (m: map<seq<Byte>, DirEntry>)
    ensures m.Keys == Names(s)
  {
    map n | n in Names(s) :: s[Find(s, n, false, 0)]
  }

  lemma {:induction false} FindAt(s: Dir, name: seq<Byte>, exact: bool, k: nat)
    requires k < |s| && Matches(s[k], name, exact)
    requires forall j :: 0 <= j < k ==> !Matches(s[j], name, exact)
    ensures Find(s, name, exact, 0) == k
  {
  }

  /** Scanning a stretch `z` of the directory that begins at slot `at`, then going on behind it. */
  lemma {:induction false} FindStretch(s: Dir, z: Dir, name: seq<Byte>, exact: bool, at: nat, k: nat)
    requires k <= |z| && at + |z| <= |s|
    requires forall j :: 0 <= j < |z| ==> s[at + j] == z[j]
    ensures var r := Find(z, name, exact, k);
            Find(s, name, exact, at + k) == if r < |z| then at + r else Find(s, name, exact, at + |z|)
    decreases |z| - k
  {
    if k < |z| && !Matches(z[k], name, exact) {
      assert s[at + k] == z[k];
      FindStretch(s, z, name, exact, at, k + 1);
    } else if k < |z| {
      assert s[at + k] == z[k];
    }
  }

  lemma {:induction false} FindUnique(s: Dir, k: nat, exact: bool)
    requires UniqueNames(s) && k < |s| && !s[k].Empty()
    requires Matches(s[k], s[k].Name(), exact)
    ensures Find(s, s[k].Name(), exact, 0) == k
  {
  }

  /** With short names `strcmp` and `strncmp` look up alike. */
  lemma {:induction false} FindShort(s: Dir, name: seq<Byte>, k: nat)
    requires k <= |s| && ShortNames(s)
    ensures Find(s, name, true, k) == Find(s, name, false, k)
    decreases |s| - k
  {
    if k < |s| {
      FindShort(s, name, k + 1);
    }
  }

  /** find: the slot scan is the lookup in the map. */
  lemma {:induction false} FindIsLookup(s: Dir, name: seq<Byte>)
    requires name != []
    ensures Find(s, name, false, 0) < |s| <==> name in AsMap(s)
    ensures name in AsMap(s) ==> s[Find(s, name, false, 0)] == AsMap(s)[name]
  {
  }

  lemma {:induction false} MapAt(s: Dir, k: nat)
    requires UniqueNames(s) && k < |s| && !s[k].Empty()
    ensures s[k].Name() in AsMap(s) && AsMap(s)[s[k].Name()] == s[k]
  {
    FindUnique(s, k, false);
  }

  lemma {:induction false} MapsEqual(s: Dir, m: map<seq<Byte>, DirEntry>)
    requires UniqueNames(s)
    requires forall k :: 0 <= k < |s| && !s[k].Empty() ==> s[k].Name() in m && m[s[k].Name()] == s[k]
    requires forall n :: n in m ==> exists k :: 0 <= k < |s| && !s[k].Empty() && s[k].Name() == n
    ensures AsMap(s) == m
  {
    forall n | n in AsMap(s)
      ensures n in m && AsMap(s)[n] == m[n]
    {
      var k :| 0 <= k < |s| && !s[k].Empty() && s[k].Name() == n;
      MapAt(s, k);
    }
    assert AsMap(s).Keys == m.Keys;
  }

  /** Overwriting slot `k`: every operation on a directory that does not extend it is one of these. */
  lemma {:induction false} PutSlot(s: Dir, k: nat, e: DirEntry)
    requires UniqueNames(s) && k < |s|
    requires !e.Empty() && e.Name() != s[k].Name() ==> e.Name() !in Names(s)
    ensures UniqueNames(s[k := e])
    ensures AsMap(s[k := e]) == (AsMap(s) - {s[k].Name()}) + (if e.Empty() then map[] else map[e.Name() := e])
  {
    hide CStr;
    var u := s[k := e];
    var rest := AsMap(s) - {s[k].Name()};
    var m := rest + (if e.Empty() then map[] else map[e.Name() := e]);
    forall i, j | 0 <= i < |u| && 0 <= j < |u| && !u[i].Empty() && u[i].Name() == u[j].Name()
      ensures i == j
    {
      assert i != k ==> u[i].Name() in Names(s);
      assert j != k ==> u[j].Name() in Names(s);
    }
    forall j | 0 <= j < |u| && !u[j].Empty()
      ensures u[j].Name() in m && m[u[j].Name()] == u[j]
    {
      if j != k {
        MapAt(s, j);
        assert u[j].Name() in rest;
      }
    }
    forall n | n in m
      ensures exists j :: 0 <= j < |u| && !u[j].Empty() && u[j].Name() == n
    {
      if n in rest && (e.Empty() || n != e.Name()) {
        var j :| 0 <= j < |s| && !s[j].Empty() && s[j].Name() == n;
        assert u[j] == s[j];
      } else {
        assert u[k] == e;
      }
    }
    MapsEqual(u, m);
  }

  /** add: the map gains the new name. */
  lemma {:induction false} PutEmpty(s: Dir, k: nat, e: DirEntry)
    requires UniqueNames(s) && k < |s| && s[k].Empty() && !e.Empty() && e.Name() !in Names(s)
    ensures UniqueNames(s[k := e]) && AsMap(s[k := e]) == AsMap(s)[e.Name() := e]
  {
    hide AsMap, UniqueNames, CStr;
    PutSlot(s, k, e);
    assert [] !in Names(s);
  }

  /** A zeroed cluster of slots added at the end holds no name. */
  lemma {:induction false} AppendEmpty(s: Dir, z: Dir)
    requires UniqueNames(s) && forall k :: 0 <= k < |z| ==> z[k].Empty()
    ensures UniqueNames(s + z) && AsMap(s + z) == AsMap(s) && Names(s + z) == Names(s)
  {
    var u := s + z;
    forall j | |s| <= j < |u|
      ensures u[j].Empty()
    {
      assert u[j] == z[j - |s|];
    }
    forall k | 0 <= k < |s| && !s[k].Empty()
      ensures u[k] == s[k]
    {
    }
    forall k | 0 <= k < |u| && !u[k].Empty()
      ensures u[k].Name() in AsMap(s) && AsMap(s)[u[k].Name()] == u[k]
    {
      MapAt(s, k);
    }
    forall n | n in AsMap(s)
      ensures exists k :: 0 <= k < |u| && !u[k].Empty() && u[k].Name() == n
    {
      var k :| 0 <= k < |s| && !s[k].Empty() && s[k].Name() == n;
      assert u[k] == s[k];
    }
    MapsEqual(u, AsMap(s));
    assert AsMap(u).Keys == AsMap(s).Keys;
  }

  // --- counting ----------------------------------------------------------------------------

  /** The number of slots in use. */
  function Used(s: Dir): (n: nat)
    ensures n <= |s|
  {
    if s == [] then 0 else Used(s[..|s| - 1]) + (if s[|s| - 1].Empty() then 0 else 1)
  }

  lemma {:induction false} UsedAppend(s: Dir, z: Dir)
    ensures Used(s + z) == Used(s) + Used(z)
  {
    if z == [] {
      assert s + z == s;
    } else {
      UsedAppend(s, z[..|z| - 1]);
      assert (s + z)[..|s + z| - 1] == s + z[..|z| - 1];
    }
  }

  lemma {:induction false} UsedPut(s: Dir, k: nat, e: DirEntry)
    requires k < |s|
    ensures Used(s[k := e]) == Used(s) - (if s[k].Empty() then 0 else 1) + (if e.Empty() then 0 else 1)
  {
    var n := |s| - 1;
    if k == n {
      assert s[k := e][..n] == s[..n];
    } else {
      UsedPut(s[..n], k, e);
      assert s[k := e][..n] == s[..n][k := e];
    }
  }

  lemma {:induction false} UsedNone(s: Dir)
    requires forall k :: 0 <= k < |s| ==> s[k].Empty()
    ensures Used(s) == 0
  {
    if s != [] {
      UsedNone(s[..|s| - 1]);
    }
  }

  lemma {:induction false} UsedAll(s: Dir)
    requires Used(s) == 0
    ensures forall k :: 0 <= k < |s| ==> s[k].Empty()
  {
    if s != [] {
      UsedAll(s[..|s| - 1]);
      assert forall k :: 0 <= k < |s| - 1 ==> s[k] == s[..|s| - 1][k];
    }
  }

  /** Two slots in use, which are the first two: then all the others are empty. */
  lemma {:induction false} UsedFirstTwo(s: Dir)
    requires |s| >= 2 && !s[0].Empty() && !s[1].Empty()
    ensures Used(s) == 2 <==> forall k :: 2 <= k < |s| ==> s[k].Empty()
  {
    var a, z := s[..2], s[2..];
    assert s == a + z && a == [s[0]] + [s[1]];
    UsedAppend(a, z);
    UsedAppend([s[0]], [s[1]]);
    assert [s[0]][..0] == [] && [s[1]][..0] == [];
    if Used(z) == 0 {
      UsedAll(z);
      assert forall k :: 2 <= k < |s| ==> s[k] == z[k - 2];
    }
    if forall k :: 2 <= k < |s| ==> s[k].Empty() {
      UsedNone(z);
    }
  }
}
