/** Growing a chain cluster by cluster: what `fat_allocate_space` does to the volume. */
module ChainGrowth {
  import opened CText
  import opened DirEntries
  import opened Directory
  import opened FatTable
  import opened Volumes

  /** The slots of the directory stored on a chain. */
  ghost function DirOn(v: Vol, ch: seq<nat>): (s: Dir)
    requires v.Valid() && v.Holds(ch)
    ensures |s| == Start(|ch|, v.bpc) / ENTRY_SIZE
  {
    Slots(Content(v, ch))
  }

  lemma {:induction false} StartScaled(i: nat, m: nat)
    ensures Start(i, ENTRY_SIZE * m) == ENTRY_SIZE * Start(i, m)
  {
    if i > 0 {
      StartScaled(i - 1, m);
    }
  }

  lemma {:induction false} DirLength(v: Vol, ch: seq<nat>, epc: nat)
    requires v.Valid() && v.Holds(ch) && v.bpc == ENTRY_SIZE * epc
    ensures |DirOn(v, ch)| == Start(|ch|, epc)
  {
    StartScaled(|ch|, epc);
  }

  /** Slot j of the i-th cluster is slot i * entries-per-cluster + j of the directory. */
  lemma {:induction false} SlotOfCluster(v: Vol, ch: seq<nat>, i: nat, j: nat, epc: nat)
    requires v.Valid() && v.Holds(ch) && i < |ch| && v.bpc == ENTRY_SIZE * epc && j < epc
    ensures ENTRY_SIZE * (Start(i, epc) + j) == Start(i, v.bpc) + ENTRY_SIZE * j
    ensures Start(i, epc) + j < |DirOn(v, ch)| == Start(|ch|, epc)
    ensures DirOn(v, ch)[Start(i, epc) + j] == Slot(v.data[ch[i]], j)
  {
    hide Content, Start, Decode;
    StartScaled(i, epc);
    StartScaled(|ch|, epc);
    StartMonotone(i, |ch|, epc);
    ContentCluster(v, ch, i);
    SliceOfSlice(Content(v, ch), Start(i, v.bpc), v.bpc, ENTRY_SIZE * j, ENTRY_SIZE);
  }

  lemma {:induction false} SliceOfSlice(s: seq<Byte>, at: nat, m: nat, o: nat, n: nat)
    requires at + m <= |s| && o + n <= m
    ensures s[at..at + m][o..o + n] == s[at + o..at + o + n]
  {
    var x, y, z := s[at..at + m], s[at..at + m][o..o + n], s[at + o..at + o + n];
    forall i | 0 <= i < n
      ensures y[i] == z[i]
    {
      assert y[i] == x[o + i];
    }
    assert y == z;
  }

  /** Slot `k` of the directory on `ch` is slot `j` of the i-th cluster `c`, whose bytes are `dir`. */
  ghost predicate LocatedAt(v: Vol, ch: seq<nat>, k: nat, i: nat, c: nat, j: nat, dir: seq<Byte>)
    requires v.Valid() && v.Holds(ch)
  {
    && i < |ch| && ch[i] == c && dir == v.data[c]
    && ENTRY_SIZE * (j + 1) <= |dir|
    && ENTRY_SIZE * k == Start(i, v.bpc) + ENTRY_SIZE * j
    && k < |DirOn(v, ch)|
    && DirOn(v, ch)[k] == Slot(dir, j)
  }

  /** The first slot of the last cluster. */
  lemma {:induction false} FirstOfLast(v: Vol, d: seq<nat>, dir: seq<Byte>, epc: nat)
    requires v.Valid() && v.Holds(d) && d != [] && dir == v.data[Last(d)] && v.bpc == ENTRY_SIZE * epc && epc > 0
    ensures LocatedAt(v, d, Start(|d| - 1, epc), |d| - 1, Last(d), 0, dir)
  {
    SlotOfCluster(v, d, |d| - 1, 0, epc);
  }

  /** A directory's bytes end where the first slot of one more cluster would be. */
  lemma {:induction false} FullLength(v: Vol, ch: seq<nat>, epc: nat)
    requires v.Valid() && v.Holds(ch) && v.bpc == ENTRY_SIZE * epc
    ensures ENTRY_SIZE * Start(|ch|, epc) == |Content(v, ch)|
  {
    StartScaled(|ch|, epc);
  }

  lemma {:induction false} LocatedFrame(v: Vol, w: Vol, ch: seq<nat>, k: nat, i: nat, c: nat, j: nat, dir: seq<Byte>)
    requires v.Valid() && w.Valid() && w.bpc == v.bpc && w.data == v.data
    requires v.Holds(ch) && LocatedAt(v, ch, k, i, c, j, dir)
    ensures LocatedAt(w, ch, k, i, c, j, dir)
  {
    ContentFrame(v, w, ch);
  }

  lemma {:induction false} StretchOfCluster(v: Vol, ch: seq<nat>, i: nat, epc: nat)
    requires v.Valid() && v.Holds(ch) && i < |ch| && v.bpc == ENTRY_SIZE * epc
    ensures Start(i, epc) + epc <= |DirOn(v, ch)| && |Slots(v.data[ch[i]])| == epc
    ensures forall j :: 0 <= j < epc ==> DirOn(v, ch)[Start(i, epc) + j] == Slots(v.data[ch[i]])[j]
  {
    StartMonotone(i, |ch|, epc);
    DirLength(v, ch, epc);
    forall j | 0 <= j < epc
      ensures DirOn(v, ch)[Start(i, epc) + j] == Slots(v.data[ch[i]])[j]
    {
      SlotOfCluster(v, ch, i, j, epc);
    }
  }

  /** The scan of the directory from its i-th cluster on is the scan of that cluster, and then of the rest. */
  lemma {:induction false} FindCluster(v: Vol, ch: seq<nat>, i: nat, epc: nat, name: seq<Byte>, exact: bool)
    requires v.Valid() && v.Holds(ch) && i < |ch| && v.bpc == ENTRY_SIZE * epc
    ensures Start(i, epc) + epc == Start(i + 1, epc) <= |DirOn(v, ch)|
    ensures |Slots(v.data[ch[i]])| == epc
    ensures var r := Find(Slots(v.data[ch[i]]), name, exact, 0);
            Find(DirOn(v, ch), name, exact, Start(i, epc))
            == if r < epc then Start(i, epc) + r else Find(DirOn(v, ch), name, exact, Start(i + 1, epc))
  {
    hide Content, Slots, Find, DirOn, Matches;
    StretchOfCluster(v, ch, i, epc);
    FindStretch(DirOn(v, ch), Slots(v.data[ch[i]]), name, exact, Start(i, epc), 0);
  }

  /** The result of `fat_allocate_space(k, head)`: whether it found all the clusters it wanted, the
      volume and the chain it leaves. */
  ghost function GrownBy(v: Vol, ch: seq<nat>, k: nat): (r: (bool, Vol, seq<nat>))
    requires v.Valid() && IsChain(v.table, ch) && |v.table| > 0 && v.table[0] != FREE
    ensures r.1.Valid() && r.1.bpc == v.bpc && |r.1.data| == |v.data|
    ensures IsChain(r.1.table, r.2) && r.1.table[0] != FREE
    decreases k
  {
    var n := FirstFree(v.table, 0);
    if k == 0 then
      (true, v, ch)
    else if n == |v.table| then
      (false, v, ch)
    else
      GrownBy(Grown(v, ch, n), ch + [n], k - 1)
  }

  ghost function FreeSet(t: Table): set<nat> {
    set i | 0 <= i < |t| && t[i] == FREE
  }

  lemma {:induction false} AnyFree(t: Table)
    ensures FirstFree(t, 0) < |t| <==> FreeSet(t) != {}
  {
    assert FirstFree(t, 0) < |t| ==> FirstFree(t, 0) in FreeSet(t);
    assert forall i :: i in FreeSet(t) ==> t[i] == FREE;
  }

  /** The clusters growth added to `ch`. */
  ghost predicate Adds(v: Vol, w: Vol, ch: seq<nat>, d: seq<nat>)
    requires |w.table| == |v.table| == |v.data| == |w.data| && ch != []
  {
    && |ch| <= |d| && d[..|ch|] == ch
    && (forall c :: c in d[|ch|..] ==> c < |v.table| && v.table[c] == FREE)
    && (forall c :: 0 <= c < |v.table| && c !in d[|ch|..] ==> w.data[c] == v.data[c])
    && (forall c :: 0 <= c < |v.table| && c !in d[|ch|..] && c != Last(ch) ==> w.table[c] == v.table[c])
  }

  lemma {:induction false} AddsOneMore(v: Vol, w: Vol, ch: seq<nat>, d: seq<nat>, n: nat)
    requires v.Valid() && IsChain(v.table, ch) && n < |v.table| && n != 0 && v.table[n] == FREE
    requires |w.table| == |v.table| == |w.data|
    requires Adds(Grown(v, ch, n), w, ch + [n], d)
    ensures Adds(v, w, ch, d) && d[|ch|..] == [n] + d[|ch| + 1..]
  {
    var u, e := Grown(v, ch, n), ch + [n];
    assert d[..|ch|] == d[..|e|][..|ch|] == ch;
    assert d[|ch|] == d[..|e|][|ch|] == n;
    assert d[|ch|..] == [n] + d[|e|..];
    forall c | 0 <= c < |v.table| && c !in d[|ch|..]
      ensures w.data[c] == v.data[c] && (c != Last(ch) ==> w.table[c] == v.table[c])
    {
      assert c != n && c !in d[|e|..];
    }
    forall c | c in d[|e|..]
      ensures v.table[c] == FREE
    {
      assert u.table[c] == FREE && c != n;
      ChainInUse(u.table, e);
      assert Last(ch) in e;
    }
  }

  /** Growth adds clusters that were free, linked behind the old chain. It succeeds exactly when
      there are `k` free clusters; if not, it takes all there are. */
  lemma {:induction false} GrowthAdds(v: Vol, ch: seq<nat>, k: nat)
    requires v.Valid() && IsChain(v.table, ch) && |v.table| > 0 && v.table[0] != FREE
    ensures var (ok, w, d) := GrownBy(v, ch, k);
            && ok == (k <= |FreeSet(v.table)|)
            && |d| == |ch| + (if ok then k else |FreeSet(v.table)|)
            && Adds(v, w, ch, d)
    decreases k
  {
    var n := FirstFree(v.table, 0);
    if k == 0 {
      assert ch[|ch|..] == [];
    } else if n == |v.table| {
      assert FreeSet(v.table) == {};
      assert ch[|ch|..] == [];
    } else {
      var u, e := Grown(v, ch, n), ch + [n];
      FreeSetShrinks(v, ch, n);
      GrowthAdds(u, e, k - 1);
      var (ok, w, d) := GrownBy(u, e, k - 1);
      AddsOneMore(v, w, ch, d, n);
    }
  }

  lemma {:induction false} FreeSetShrinks(v: Vol, ch: seq<nat>, n: nat)
    requires v.Valid() && IsChain(v.table, ch) && n < |v.table| && n != 0 && v.table[n] == FREE
    ensures |FreeSet(Grown(v, ch, n).table)| == |FreeSet(v.table)| - 1
  {
    ChainInUse(v.table, ch);
    assert Last(ch) in ch;
    assert FreeSet(Grown(v, ch, n).table) == FreeSet(v.table) - {n};
  }

  /** A grown chain reads as the old bytes followed by zeros. */
  lemma {:induction false} GrowthReadsZero(v: Vol, ch: seq<nat>, k: nat)
    requires v.Valid() && IsChain(v.table, ch) && |v.table| > 0 && v.table[0] != FREE
    ensures var (ok, w, d) := GrownBy(v, ch, k);
            |ch| <= |d| && Content(w, d) == Content(v, ch) + Zeros(Start(|d| - |ch|, v.bpc))
    decreases k
  {
    var n := FirstFree(v.table, 0);
    if k > 0 && n < |v.table| {
      var u, e := Grown(v, ch, n), ch + [n];
      var (ok, w, d) := GrownBy(u, e, k - 1);
      var bytes, added := Content(v, ch), |d| - |e|;
      assert Content(u, e) == bytes + Zeros(v.bpc) by {
        GrownContent(v, ch, n);
      }
      GrowthReadsZero(u, e, k - 1);
      assert Start(added + 1, v.bpc) == Start(added, v.bpc) + v.bpc;
      AppendZeros(bytes, v.bpc, Start(added, v.bpc));
    }
  }

  lemma {:induction false} AppendZeros(c: seq<Byte>, m: nat, n: nat)
    ensures c + Zeros(m) + Zeros(n) == c + Zeros(n + m)
  {
  }

  // --- what the directory operations do ----------------------------------------------------

  /** `fat_add_dir_entry` on the directory stored on `ch`. */
  ghost predicate Added(v: Vol, w: Vol, ch: seq<nat>, d: seq<nat>, e: DirEntry, ok: bool)
    requires v.Valid() && IsChain(v.table, ch) && e.Valid() && |v.table| > 0 && v.table[0] != FREE
  {
    var s := DirOn(v, ch);
    var k, n := Find(s, [], false, 0), FirstFree(v.table, 0);
    if k < |s| then
      ok && d == ch && Patched(v, w, ch, ENTRY_SIZE * k, Encode(e))
    else if n == |v.table| then
      !ok && d == ch && w == v
    else
      ok && d == ch + [n] && Patched(Grown(v, ch, n), w, d, |Content(v, ch)|, Encode(e))
  }

  /** The entry found names a cluster of the volume. */
  ghost predicate Removable(v: Vol, ch: seq<nat>, name: seq<Byte>)
    requires v.Valid() && IsChain(v.table, ch)
  {
    var s := DirOn(v, ch);
    var k := Find(s, name, false, 0);
    k < |s| ==> s[k].start < |v.table|
  }

  /** `fat_remove_dir_entry(name, dir, true)`. */
  ghost predicate Removed(v: Vol, w: Vol, ch: seq<nat>, name: seq<Byte>, ok: bool)
    requires v.Valid() && IsChain(v.table, ch) && Removable(v, ch, name)
  {
    var s := DirOn(v, ch);
    var k := Find(s, name, false, 0);
    if k < |s| then
      ok && Patched(Freed(v, s[k].start), w, ch, ENTRY_SIZE * k, Zeros(ENTRY_SIZE))
    else
      !ok && w == v
  }
}
