/** Cluster chains inside the FAT. */
module FatTable {

  const FREE: nat := 0
  const CHAIN_END: nat := 0xFFF8

  type Table = seq<nat>

  /** `IS_END_OF_CLUSTER_CHAIN`. */
  predicate IsEnd(w: nat) { 0xFFF8 <= w <= 0xFFFF }

  /** Every entry is free, an end mark, or the index of another entry. */
  predicate LinksInRange(t: Table)
  {
    && |t| < 0xFFF7
    && forall i :: 0 <= i < |t| ==> t[i] == FREE || IsEnd(t[i]) || t[i] < |t|
  }

  /** The i-th cluster of `ch` points to the next one, the last one to an end mark. */
  ghost predicate LinkAt(t: Table, ch: seq<nat>, i: nat)
    requires i < |ch| && ch[i] < |t|
  {
    if i == |ch| - 1 then IsEnd(t[ch[i]]) else t[ch[i]] == ch[i + 1] && ch[i + 1] != FREE
  }

  /** `ch` lists the clusters met from `ch[0]` up to the end mark. */
  ghost predicate IsChain(t: Table, ch: seq<nat>)
  {
    && |ch| > 0
    && (forall i :: 0 <= i < |ch| ==> ch[i] < |t|)
    && (forall i :: 0 <= i < |ch| ==> LinkAt(t, ch, i))
  }

  /** `ch` lists the clusters met from `ch[0]` up to an end mark or a free entry, where the walk through a directory
      ends as well. */
  ghost predicate Walked(t: Table, ch: seq<nat>) {
    && |ch| > 0
    && (forall i :: 0 <= i < |ch| ==> ch[i] < |t|)
    && (forall i {:trigger LinkAt(t, ch, i)} :: 0 <= i < |ch| ==>
          LinkAt(t, ch, i) || (i == |ch| - 1 && t[ch[i]] == FREE))
  }

  lemma {:induction false} ChainIsWalked(t: Table, ch: seq<nat>)
    requires IsChain(t, ch)
    ensures Walked(t, ch)
  {
  }

  function Last(ch: seq<nat>): nat
    requires ch != []
  {
    ch[|ch| - 1]
  }

  ghost predicate Distinct(ch: seq<nat>)
  {
    forall i, j :: 0 <= i < j < |ch| ==> ch[i] != ch[j]
  }

  lemma {:induction false} NoRepeat(t: Table, ch: seq<nat>, i: nat, j: nat)
    requires LinksInRange(t) && Walked(t, ch)
    requires i < j < |ch|
    ensures ch[i] != ch[j]
    decreases |ch| - j
  {
    assert LinkAt(t, ch, i);
    assert LinkAt(t, ch, j) || t[ch[j]] == FREE;
    if j + 1 < |ch| {
      NoRepeat(t, ch, i + 1, j + 1);
    }
  }

  lemma {:induction false} WalkDistinct(t: Table, ch: seq<nat>)
    requires LinksInRange(t) && Walked(t, ch)
    ensures Distinct(ch)
  {
    forall i, j | 0 <= i < j < |ch|
      ensures ch[i] != ch[j]
    {
      NoRepeat(t, ch, i, j);
    }
  }

  /** A walk that reaches an end mark never met the same cluster twice. */
  lemma {:induction false} ChainDistinct(t: Table, ch: seq<nat>)
    requires LinksInRange(t) && IsChain(t, ch)
    ensures Distinct(ch)
  {
    WalkDistinct(t, ch);
  }

  lemma {:induction false} ChainPrefix(t: Table, a: seq<nat>, b: seq<nat>, i: nat)
    requires LinksInRange(t) && IsChain(t, a) && IsChain(t, b)
    requires a[0] == b[0] && i < |a|
    ensures i < |b| && a[i] == b[i]
  {
    if i > 0 {
      ChainPrefix(t, a, b, i - 1);
      assert LinkAt(t, a, i - 1) && LinkAt(t, b, i - 1);
    }
  }

  /** The table determines the chain of a head. */
  lemma {:induction false} ChainUnique(t: Table, a: seq<nat>, b: seq<nat>)
    requires LinksInRange(t) && IsChain(t, a) && IsChain(t, b)
    requires a[0] == b[0]
    ensures a == b
  {
    ChainPrefix(t, a, b, |a| - 1);
    ChainPrefix(t, b, a, |b| - 1);
    forall i | 0 <= i < |a|
      ensures a[i] == b[i]
    {
      ChainPrefix(t, a, b, i);
    }
  }

  lemma {:induction false} ChainFrame(t: Table, u: Table, ch: seq<nat>)
    requires IsChain(t, ch) && |u| == |t|
    requires forall c :: c in ch ==> u[c] == t[c]
    ensures IsChain(u, ch)
  {
    forall i | 0 <= i < |ch|
      ensures LinkAt(u, ch, i)
    {
      assert LinkAt(t, ch, i) && ch[i] in ch;
    }
  }

  /** Only the head of a chain can be cluster 0, whose number is the code of a free entry. */
  lemma {:induction false} ChainNotRoot(t: Table, ch: seq<nat>)
    requires IsChain(t, ch) && ch[0] != 0
    ensures forall i :: 0 <= i < |ch| ==> ch[i] != 0
  {
    forall i | 0 <= i < |ch|
      ensures ch[i] != 0
    {
      if i > 0 {
        assert LinkAt(t, ch, i - 1);
      }
    }
  }

  /** The clusters of a chain are in use. */
  lemma {:induction false} ChainInUse(t: Table, ch: seq<nat>)
    requires IsChain(t, ch)
    ensures forall c :: c in ch ==> c < |t| && t[c] != FREE
  {
    forall c | c in ch
      ensures c < |t| && t[c] != FREE
    {
      var i :| 0 <= i < |ch| && ch[i] == c;
      assert LinkAt(t, ch, i);
    }
  }

  // --- extending a chain -------------------------------------------------------------------

  /** `fat_update_chain` on the table: `last` now points to `n`, which ends the chain. */
  function Linked(t: Table, last: nat, n: nat): (r: Table)
    requires last < |t| && n < |t|
    ensures |r| == |t|
  {
    t[last := n][n := CHAIN_END]
  }

  lemma {:induction false} ChainExtend(t: Table, ch: seq<nat>, n: nat)
    requires LinksInRange(t) && IsChain(t, ch)
    requires n < |t| && n != 0 && t[n] == FREE
    ensures n !in ch
    ensures IsChain(Linked(t, Last(ch), n), ch + [n])
    ensures LinksInRange(Linked(t, Last(ch), n))
  {
    ChainInUse(t, ch);
    var u, d := Linked(t, Last(ch), n), ch + [n];
    forall i | 0 <= i < |d|
      ensures d[i] < |u| && LinkAt(u, d, i)
    {
      if i < |ch| - 1 {
        NoRepeat(t, ch, i, |ch| - 1);
        assert LinkAt(t, ch, i) && d[i] == ch[i] && d[i] in ch;
      }
    }
  }

  /** The new head of a one-cluster chain: `fat_update_chain(n, n)` on a free entry. */
  lemma {:induction false} ChainStart(t: Table, n: nat)
    requires LinksInRange(t) && n < |t| && t[n] == FREE
    ensures Linked(t, n, n) == t[n := CHAIN_END]
    ensures IsChain(t[n := CHAIN_END], [n])
    ensures LinksInRange(t[n := CHAIN_END])
  {
  }

  // --- freeing a chain ---------------------------------------------------------------------

  ghost function InUse(t: Table): set<nat>
  {
    set i | 0 <= i < |t| && t[i] != FREE
  }

  lemma {:induction false} InUseShrinks(t: Table, i: nat)
    requires i < |t| && t[i] != FREE
    ensures InUse(t[i := FREE]) == InUse(t) - {i}
    ensures |InUse(t[i := FREE])| < |InUse(t)|
  {
  }

  /** `fat_free_chain`: follow the links from `i`, freeing each entry met. It stops on every table,
      a cyclic one included, because each step frees an entry in use. */
  ghost function FreeFrom(t: Table, i: nat): (r: Table)
    requires LinksInRange(t) && i < |t|
    ensures |r| == |t| && LinksInRange(r)
    ensures r[i] == FREE
    ensures forall k :: 0 <= k < |t| ==> r[k] == t[k] || r[k] == FREE
    decreases |InUse(t)|
  {
    if t[i] == FREE || IsEnd(t[i]) then
      t[i := FREE]
    else
      InUseShrinks(t, i);
      FreeFrom(t[i := FREE], t[i])
  }

  ghost function Cleared(t: Table, ch: seq<nat>): (r: Table)
    ensures |r| == |t|
    ensures forall k :: 0 <= k < |t| ==> r[k] == if k in ch then FREE else t[k]
  {
    seq(|t|, k requires 0 <= k < |t| => if k in ch then FREE else t[k])
  }

  /** Freeing the head leaves the rest of the chain in place. */
  lemma {:induction false} ChainTail(t: Table, ch: seq<nat>)
    requires LinksInRange(t) && IsChain(t, ch) && |ch| > 1
    ensures t[ch[0]] == ch[1] && ch[0] !in ch[1..]
    ensures IsChain(t[ch[0] := FREE], ch[1..])
  {
    var u, rest := t[ch[0] := FREE], ch[1..];
    assert LinkAt(t, ch, 0);
    forall i | 0 <= i < |rest|
      ensures rest[i] == ch[i + 1] != ch[0] && rest[i] < |u| && LinkAt(u, rest, i)
    {
      NoRepeat(t, ch, 0, i + 1);
      assert LinkAt(t, ch, i + 1);
    }
  }

  /** On a well-formed chain, exactly the chain is freed. */
  lemma {:induction false} FreeFromChain(t: Table, ch: seq<nat>)
    requires LinksInRange(t) && IsChain(t, ch)
    ensures FreeFrom(t, ch[0]) == Cleared(t, ch)
    decreases |ch|
  {
    assert LinkAt(t, ch, 0);
    if |ch| > 1 {
      var u, rest := t[ch[0] := FREE], ch[1..];
      ChainTail(t, ch);
      FreeFromChain(u, rest);
      assert forall c :: c in ch <==> c == ch[0] || c in rest by {
        assert ch == [ch[0]] + rest;
      }
      assert Cleared(u, rest) == Cleared(t, ch);
    }
  }

  // --- a chain of which some entries are free now -------------------------------------------

  /** How many clusters of `ch` a walk meets, from the i-th on: up to the first whose entry is free. */
  function Reach(t: Table, ch: seq<nat>, i: nat): (n: nat)
    requires i <= |ch| && forall j :: 0 <= j < |ch| ==> ch[j] < |t|
    ensures i <= n <= |ch| && (i < |ch| ==> n > i)
    ensures forall j :: i <= j < n - 1 ==> t[ch[j]] != FREE
    ensures i < n < |ch| ==> t[ch[n - 1]] == FREE
    decreases |ch| - i
  {
    if i == |ch| then i else if t[ch[i]] == FREE then i + 1 else Reach(t, ch, i + 1)
  }

  /** The clusters of `ch` a walk meets. */
  function Seen(t: Table, ch: seq<nat>): seq<nat>
    requires forall j :: 0 <= j < |ch| ==> ch[j] < |t|
  {
    ch[..Reach(t, ch, 0)]
  }

  /** Entries were freed, and no other was changed. */
  ghost predicate SomeFreed(t: Table, u: Table) {
    |u| == |t| && forall k :: 0 <= k < |t| ==> u[k] == t[k] || u[k] == FREE
  }

  lemma {:induction false} SeenIsWalked(t: Table, u: Table, ch: seq<nat>)
    requires IsChain(t, ch) && SomeFreed(t, u)
    ensures Walked(u, Seen(u, ch)) && Seen(u, ch)[0] == ch[0]
  {
    var n, d := Reach(u, ch, 0), Seen(u, ch);
    forall i | 0 <= i < |d|
      ensures LinkAt(u, d, i) || (i == |d| - 1 && u[d[i]] == FREE)
    {
      assert LinkAt(t, ch, i) && d[i] == ch[i];
    }
  }

  lemma {:induction false} SeenWhole(t: Table, ch: seq<nat>)
    requires IsChain(t, ch)
    ensures Seen(t, ch) == ch
  {
    ChainInUse(t, ch);
    forall i | 0 <= i < |ch|
      ensures t[ch[i]] != FREE
    {
      assert ch[i] in ch;
    }
  }

  /** Once an entry of a chain is free, no chain begins where it began. */
  lemma {:induction false} CutChain(t: Table, u: Table, ch: seq<nat>, c: nat, a: seq<nat>)
    requires LinksInRange(t) && IsChain(t, ch) && SomeFreed(t, u) && c in ch && u[c] == FREE
    requires |a| > 0 && a[0] == ch[0]
    ensures !IsChain(u, a)
  {
    if IsChain(u, a) {
      var n: nat :| n < |ch| && ch[n] == c;
      FollowCut(t, u, ch, a, n);
    }
  }

  lemma {:induction false} FollowCut(t: Table, u: Table, ch: seq<nat>, a: seq<nat>, i: nat)
    requires LinksInRange(t) && IsChain(t, ch) && SomeFreed(t, u) && IsChain(u, a) && a[0] == ch[0] && i < |ch|
    ensures i < |a| && a[i] == ch[i] && u[ch[i]] != FREE
  {
    if i > 0 {
      FollowCut(t, u, ch, a, i - 1);
      assert LinkAt(t, ch, i - 1) && LinkAt(u, a, i - 1);
    }
    assert LinkAt(u, a, i);
  }

  // --- looking for a free entry ------------------------------------------------------------

  /** The first free entry from `i` on, or |t|. */
  function FirstFree(t: Table, i: nat): (n: nat)
    requires i <= |t|
    ensures i <= n <= |t|
    ensures n < |t| ==> t[n] == FREE
    ensures forall k :: i <= k < n ==> t[k] != FREE
    decreases |t| - i
  {
    if i == |t| || t[i] == FREE then i else FirstFree(t, i + 1)
  }
}
