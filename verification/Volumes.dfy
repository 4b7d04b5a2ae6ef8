/** The volume as a value: the FAT and the bytes of every cluster. A chain of clusters
    scattered over the disk reads as one string of bytes. */
module Volumes {
  import opened CText
  import opened FatTable

  /** `bpc` is bytes_per_sector * sectors_per_cluster. */
  datatype Vol = Vol(bpc: nat, table: Table, data: seq<seq<Byte>>) {
    ghost predicate Valid() {
      && bpc > 0 && bpc % 512 == 0
      && LinksInRange(table)
      && |data| == |table|
      && forall c :: 0 <= c < |data| ==> |data[c]| == bpc
    }

    ghost predicate Holds(ch: seq<nat>) {
      forall i :: 0 <= i < |ch| ==> ch[i] < |data|
    }
  }

  /** The bytes of the first `n` clusters of a chain. */
  ghost function Upto(v: Vol, ch: seq<nat>, n: nat): (b: seq<Byte>)
    requires v.Valid() && v.Holds(ch) && n <= |ch|
    ensures |b| == Start(n, v.bpc)
  {
    if n == 0 then [] else Upto(v, ch, n - 1) + v.data[ch[n - 1]]
  }

  /** The bytes of a chain, one cluster after the other. */
  ghost function Content(v: Vol, ch: seq<nat>): (b: seq<Byte>)
    requires v.Valid() && v.Holds(ch)
    ensures |b| == Start(|ch|, v.bpc)
  {
    Upto(v, ch, |ch|)
  }

  lemma {:induction false} UptoFrame(v: Vol, w: Vol, ch: seq<nat>, d: seq<nat>, n: nat)
    requires v.Valid() && w.Valid() && v.bpc == w.bpc
    requires v.Holds(ch) && w.Holds(d) && n <= |ch| && n <= |d|
    requires forall i :: 0 <= i < n ==> w.data[d[i]] == v.data[ch[i]]
    ensures Upto(w, d, n) == Upto(v, ch, n)
  {
    if n > 0 {
      UptoFrame(v, w, ch, d, n - 1);
    }
  }

  lemma {:induction false} ContentFrame(v: Vol, w: Vol, ch: seq<nat>)
    requires v.Valid() && w.Valid() && v.bpc == w.bpc
    requires v.Holds(ch) && w.Holds(ch)
    requires forall c :: c in ch ==> w.data[c] == v.data[c]
    ensures Content(w, ch) == Content(v, ch)
  {
    forall i | 0 <= i < |ch|
      ensures w.data[ch[i]] == v.data[ch[i]]
    {
      assert ch[i] in ch;
    }
    UptoFrame(v, w, ch, ch, |ch|);
  }

  lemma {:induction false} UptoIsPrefix(v: Vol, ch: seq<nat>, n: nat, m: nat)
    requires v.Valid() && v.Holds(ch) && n <= m <= |ch|
    ensures Upto(v, ch, n) <= Upto(v, ch, m)
  {
    if n < m {
      UptoIsPrefix(v, ch, n, m - 1);
    }
  }

  lemma {:induction false} SliceOfSum(a: seq<Byte>, b: seq<Byte>, at: nat, n: nat)
    ensures at + n <= |a| ==> (a + b)[at..at + n] == a[at..at + n]
    ensures (a + b)[|a|..|a| + |b|] == b
  {
  }

  lemma {:induction false} UptoLast(v: Vol, ch: seq<nat>, n: nat)
    requires v.Valid() && v.Holds(ch) && 0 < n <= |ch|
    ensures ch[n - 1] < |v.data| && |v.data[ch[n - 1]]| == v.bpc
    ensures Upto(v, ch, n) == Upto(v, ch, n - 1) + v.data[ch[n - 1]]
    ensures Start(n, v.bpc) == Start(n - 1, v.bpc) + v.bpc
  {
  }

  lemma {:induction false} UptoCluster(v: Vol, ch: seq<nat>, i: nat, n: nat)
    requires v.Valid() && v.Holds(ch) && i < n <= |ch|
    ensures ch[i] < |v.data| && Start(i, v.bpc) + v.bpc <= Start(n, v.bpc)
    ensures Upto(v, ch, n)[Start(i, v.bpc)..Start(i, v.bpc) + v.bpc] == v.data[ch[i]]
  {
    hide *;
    UptoLast(v, ch, n);
    SliceOfSum(Upto(v, ch, n - 1), v.data[ch[n - 1]], Start(i, v.bpc), v.bpc);
    if i < n - 1 {
      UptoCluster(v, ch, i, n - 1);
    }
  }

  /** Cluster i of the chain holds bytes i * bpc up to (i + 1) * bpc. */
  lemma {:induction false} ContentCluster(v: Vol, ch: seq<nat>, i: nat)
    requires v.Valid() && v.Holds(ch) && i < |ch|
    ensures Start(i, v.bpc) + v.bpc <= |Content(v, ch)|
    ensures Content(v, ch)[Start(i, v.bpc)..Start(i, v.bpc) + v.bpc] == v.data[ch[i]]
  {
    UptoCluster(v, ch, i, |ch|);
  }

  /** Bytes `b` copied into cluster number `i` of the chain at offset `o`. */
  ghost function PutInCluster(v: Vol, c: nat, o: nat, b: seq<Byte>): (w: Vol)
    requires v.Valid() && c < |v.data| && o + |b| <= v.bpc
    ensures w.Valid() && w.bpc == v.bpc && w.table == v.table
  {
    v.(data := v.data[c := Splice(v.data[c], o, b)])
  }

  lemma {:induction false} SpliceLeft(a: seq<Byte>, d: seq<Byte>, at: nat, b: seq<Byte>)
    requires at + |b| <= |a|
    ensures Splice(a, at, b) + d == Splice(a + d, at, b)
  {
  }

  lemma {:induction false} SpliceRight(a: seq<Byte>, d: seq<Byte>, at: nat, b: seq<Byte>)
    requires at + |b| <= |d|
    ensures a + Splice(d, at, b) == Splice(a + d, |a| + at, b)
  {
  }

  lemma {:induction false} PutChanges(v: Vol, ch: seq<nat>, i: nat, o: nat, b: seq<Byte>)
    requires v.Valid() && v.Holds(ch) && Distinct(ch) && i < |ch| && o + |b| <= v.bpc
    ensures ch[i] < |v.data| && |v.data[ch[i]]| == v.bpc
    ensures var w := PutInCluster(v, ch[i], o, b);
            && w.Holds(ch) && w.data[ch[i]] == Splice(v.data[ch[i]], o, b)
            && forall j :: 0 <= j < |ch| && j != i ==> ch[j] < |v.data| && w.data[ch[j]] == v.data[ch[j]]
  {
  }

  lemma {:induction false} UptoPut(v: Vol, ch: seq<nat>, i: nat, o: nat, b: seq<Byte>, n: nat)
    requires v.Valid() && v.Holds(ch) && Distinct(ch) && i < n <= |ch|
    requires o + |b| <= v.bpc
    ensures Start(i, v.bpc) + o + |b| <= Start(n, v.bpc)
    ensures Upto(PutInCluster(v, ch[i], o, b), ch, n) == Splice(Upto(v, ch, n), Start(i, v.bpc) + o, b)
  {
    hide *;
    PutChanges(v, ch, i, o, b);
    var w := PutInCluster(v, ch[i], o, b);
    StartMonotone(i, n, v.bpc);
    UptoLast(v, ch, n);
    UptoLast(w, ch, n);
    if i == n - 1 {
      UptoFrame(v, w, ch, ch, n - 1);
      SpliceRight(Upto(v, ch, n - 1), v.data[ch[i]], o, b);
    } else {
      UptoPut(v, ch, i, o, b, n - 1);
      SpliceLeft(Upto(v, ch, n - 1), v.data[ch[n - 1]], Start(i, v.bpc) + o, b);
    }
  }

  lemma {:induction false} ContentPut(v: Vol, ch: seq<nat>, i: nat, o: nat, b: seq<Byte>)
    requires v.Valid() && v.Holds(ch) && Distinct(ch) && i < |ch|
    requires o + |b| <= v.bpc
    ensures Start(i, v.bpc) + o + |b| <= |Content(v, ch)|
    ensures Content(PutInCluster(v, ch[i], o, b), ch) == Splice(Content(v, ch), Start(i, v.bpc) + o, b)
  {
    UptoPut(v, ch, i, o, b, |ch|);
  }

  /** `w` is `v` with `b` copied over bytes `at` and following of chain `ch`, and nothing else changed. */
  ghost predicate Patched(v: Vol, w: Vol, ch: seq<nat>, at: nat, b: seq<Byte>)
    requires v.Valid() && v.Holds(ch)
  {
    && w.Valid() && w.bpc == v.bpc && w.table == v.table
    && (forall c :: 0 <= c < |v.data| && c !in ch ==> w.data[c] == v.data[c])
    && at + |b| <= |Content(v, ch)|
    && Content(w, ch) == Splice(Content(v, ch), at, b)
  }

  lemma {:induction false} PatchedNothing(v: Vol, ch: seq<nat>, at: nat)
    requires v.Valid() && v.Holds(ch) && at <= |Content(v, ch)|
    ensures Patched(v, v, ch, at, [])
  {
  }

  lemma {:induction false} PatchedCluster(v: Vol, ch: seq<nat>, i: nat, o: nat, b: seq<Byte>)
    requires v.Valid() && v.Holds(ch) && Distinct(ch) && i < |ch|
    requires o + |b| <= v.bpc
    ensures Patched(v, PutInCluster(v, ch[i], o, b), ch, Start(i, v.bpc) + o, b)
  {
    ContentPut(v, ch, i, o, b);
  }

  /** Two patches side by side make one. */
  lemma {:induction false} PatchedTwice(v: Vol, w: Vol, x: Vol, ch: seq<nat>, at: nat, b: seq<Byte>, c: seq<Byte>)
    requires v.Valid() && v.Holds(ch)
    requires Patched(v, w, ch, at, b) && Patched(w, x, ch, at + |b|, c)
    ensures Patched(v, x, ch, at, b + c)
  {
    SpliceTwice(Content(v, ch), at, b, c);
  }

  /** A patch determines the volume it leads to. */
  lemma {:induction false} PatchedUnique(v: Vol, w: Vol, x: Vol, ch: seq<nat>, at: nat, b: seq<Byte>)
    requires v.Valid() && v.Holds(ch)
    requires Patched(v, w, ch, at, b) && Patched(v, x, ch, at, b)
    ensures w == x
  {
    forall c | 0 <= c < |v.data|
      ensures w.data[c] == x.data[c]
    {
      if c in ch {
        var i :| 0 <= i < |ch| && ch[i] == c;
        ContentCluster(w, ch, i);
        ContentCluster(x, ch, i);
      }
    }
    assert w.data == x.data;
  }

  // --- growing and freeing -----------------------------------------------------------------

  /** `fat_update_chain(ch[0], n)`: the free cluster `n`, zeroed, becomes the end of the chain. */
  ghost function Grown(v: Vol, ch: seq<nat>, n: nat): (w: Vol)
    requires v.Valid() && IsChain(v.table, ch)
    requires n < |v.table| && n != 0 && v.table[n] == FREE
    ensures w.Valid() && w.bpc == v.bpc && |w.data| == |v.data|
    ensures n !in ch && IsChain(w.table, ch + [n])
  {
    ChainExtend(v.table, ch, n);
    v.(table := Linked(v.table, Last(ch), n), data := v.data[n := Zeros(v.bpc)])
  }

  lemma {:induction false} GrownContent(v: Vol, ch: seq<nat>, n: nat)
    requires v.Valid() && IsChain(v.table, ch)
    requires n < |v.table| && n != 0 && v.table[n] == FREE
    ensures Content(Grown(v, ch, n), ch + [n]) == Content(v, ch) + Zeros(v.bpc)
  {
    var w, d := Grown(v, ch, n), ch + [n];
    UptoFrame(v, w, ch, d, |ch|);
    assert Content(w, d) == Upto(w, d, |ch|) + w.data[d[|ch|]];
  }

  /** `fat_update_chain(n, n)` on a free entry: a zeroed chain of one cluster. */
  ghost function Started(v: Vol, n: nat): (w: Vol)
    requires v.Valid() && n < |v.table| && v.table[n] == FREE
    ensures w.Valid() && w.bpc == v.bpc && |w.data| == |v.data|
    ensures IsChain(w.table, [n])
  {
    ChainStart(v.table, n);
    v.(table := v.table[n := CHAIN_END], data := v.data[n := Zeros(v.bpc)])
  }

  lemma {:induction false} StartedContent(v: Vol, n: nat)
    requires v.Valid() && n < |v.table| && v.table[n] == FREE
    ensures Content(Started(v, n), [n]) == Zeros(v.bpc)
  {
    var w := Started(v, n);
    assert Content(w, [n]) == Upto(w, [n], 0) + w.data[n];
  }

  ghost function Freed(v: Vol, head: nat): (w: Vol)
    requires v.Valid() && head < |v.table|
    ensures w.Valid() && w.data == v.data && w.bpc == v.bpc
  {
    v.(table := FreeFrom(v.table, head))
  }
}
