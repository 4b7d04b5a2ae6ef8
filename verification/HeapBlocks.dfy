/** The block list of the kernel heap over raw memory: headers at addresses, linked both ways. */
module HeapBlocks {

  const PAGE_SIZE: nat := 4096
  const HEAP_START: nat := 0xC180_0000
  const KERNEL_HEAP_END: nat := 0xFFFF_F000
  /** sizeof(heap_entry) on i386: a padded bool and two pointers. */
  const HEADER: nat := 12
  const MIN_BLOCK_SIZE: nat := 4
  const NULL: nat := 0

  datatype Entry = Entry(isFree: bool, next: nat, prev: nat)

  type Memory = map<nat, Entry>

  /** The header at an address; memory never written holds something. */
  function At(m: Memory, a: nat): Entry {
    if a in m then m[a] else Entry(false, NULL, NULL)
  }

  function SetFree(m: Memory, a: nat, f: bool): Memory { m[a := At(m, a).(isFree := f)] }

  function SetNext(m: Memory, a: nat, x: nat): Memory { m[a := At(m, a).(next := x)] }

  function SetPrev(m: Memory, a: nat, x: nat): Memory { m[a := At(m, a).(prev := x)] }

  /** `ALIGN(size, 4)`. */
  function Align4(size: nat): (r: nat)
    ensures size <= r < size + 4 && r % 4 == 0
  {
    (size + 3) / 4 * 4
  }

  /** The address at index `i`, or NULL past either end. */
  function Nth(blocks: seq<nat>, i: int): nat {
    if 0 <= i < |blocks| then blocks[i] else NULL
  }

  ghost predicate Linked(m: Memory, blocks: seq<nat>, i: nat)
    requires i < |blocks|
  {
    At(m, blocks[i]).next == Nth(blocks, i + 1) && At(m, blocks[i]).prev == Nth(blocks, i - 1)
  }

  /** Block `i` ends where the next begins, is aligned and has room for something. */
  ghost predicate Placed(blocks: seq<nat>, i: nat)
    requires i < |blocks|
  {
    blocks[i] % 4 == 0 && (i + 1 < |blocks| ==> blocks[i] + HEADER + MIN_BLOCK_SIZE <= blocks[i + 1])
  }

  /** The blocks tile the heap from its start to the sentinel, which is the last header of the heap. */
  ghost predicate Tiles(m: Memory, blocks: seq<nat>, end: nat) {
    && |blocks| >= 2 && blocks[0] == HEAP_START && blocks[|blocks| - 1] == end - HEADER
    && end % PAGE_SIZE == 0 && end <= KERNEL_HEAP_END
    && !At(m, blocks[|blocks| - 1]).isFree
    && (forall i {:trigger Linked(m, blocks, i)} :: 0 <= i < |blocks| ==> Linked(m, blocks, i))
    && (forall i {:trigger Placed(blocks, i)} :: 0 <= i < |blocks| ==> Placed(blocks, i))
  }

  /** `BLOCK_SIZE`. */
  function SizeOf(blocks: seq<nat>, i: nat): int
    requires i + 1 < |blocks|
  {
    blocks[i + 1] - blocks[i] - HEADER
  }

  ghost predicate Ascending(blocks: seq<nat>) {
    forall i {:trigger Placed(blocks, i)} :: 0 <= i < |blocks| ==> Placed(blocks, i)
  }

  lemma {:induction false} Apart(blocks: seq<nat>, i: nat, j: nat)
    requires Ascending(blocks) && i < j < |blocks|
    ensures blocks[i] + HEADER + MIN_BLOCK_SIZE <= blocks[j]
  {
    assert Placed(blocks, j - 1);
    if i < j - 1 {
      Apart(blocks, i, j - 1);
    }
  }

  lemma {:induction false} UpTo(blocks: seq<nat>, i: nat, j: nat)
    requires Ascending(blocks) && i <= j < |blocks|
    ensures blocks[i] <= blocks[j]
  {
    if i < j {
      Apart(blocks, i, j);
    }
  }

  // --- searching ---------------------------------------------------------------------------

  /** Block `i` could take `n` bytes. */
  ghost predicate Fits(m: Memory, blocks: seq<nat>, i: nat, n: nat) {
    i + 1 < |blocks| && At(m, blocks[i]).isFree && SizeOf(blocks, i) >= n
  }

  /** None of the first `k` blocks could. */
  ghost predicate NoFit(m: Memory, blocks: seq<nat>, k: nat, n: nat) {
    forall j {:trigger Fits(m, blocks, j, n)} :: 0 <= j < k ==> !Fits(m, blocks, j, n)
  }

  /** The first `k` blocks are free where they were. */
  ghost predicate SameFree(m: Memory, w: Memory, blocks: seq<nat>, k: nat) {
    forall i :: 0 <= i < k && i < |blocks| ==> At(w, blocks[i]).isFree == At(m, blocks[i]).isFree
  }

  lemma {:induction false} NoFitSame(m: Memory, blocks: seq<nat>, w: Memory, bs: seq<nat>, k: nat, n: nat)
    requires NoFit(m, blocks, k, n) && k < |blocks| && k < |bs|
    requires forall i :: 0 <= i <= k ==> bs[i] == blocks[i]
    requires SameFree(m, w, blocks, k)
    ensures NoFit(w, bs, k, n)
  {
    forall j | 0 <= j < k
      ensures !Fits(w, bs, j, n)
    {
      assert !Fits(m, blocks, j, n);
    }
  }

  // --- handed-out payloads -----------------------------------------------------------------

  /** Payload `p` of at least `n` bytes is the rest of block `i`, which is not free. */
  ghost predicate HeldBy(m: Memory, blocks: seq<nat>, p: nat, n: nat, i: nat) {
    i + 1 < |blocks| && blocks[i] + HEADER == p && !At(m, blocks[i]).isFree && n <= SizeOf(blocks, i)
  }

  ghost predicate Held(m: Memory, blocks: seq<nat>, p: nat, n: nat) {
    exists i: nat :: HeldBy(m, blocks, p, n, i)
  }

  ghost predicate Owed(m: Memory, blocks: seq<nat>, live: map<nat, nat>, i: nat)
    requires i < |blocks|
  {
    !At(m, blocks[i]).isFree ==> blocks[i] + HEADER in live
  }

  /** `live` maps every payload handed out to the size asked for: each is held by a block, and every block
      that is not free holds one. */
  ghost predicate Accounted(m: Memory, blocks: seq<nat>, live: map<nat, nat>) {
    && (forall p {:trigger Held(m, blocks, p, live[p])} :: p in live ==> Held(m, blocks, p, live[p]))
    && (forall i {:trigger Owed(m, blocks, live, i)} :: 0 <= i < |blocks| - 1 ==> Owed(m, blocks, live, i))
  }

  lemma {:induction false} HeldInside(m: Memory, blocks: seq<nat>, end: nat, p: nat, n: nat, i: nat)
    requires Tiles(m, blocks, end) && HeldBy(m, blocks, p, n, i)
    ensures p % 4 == 0 && HEAP_START + HEADER <= p && p + n <= blocks[i + 1] <= end - HEADER
  {
    assert Placed(blocks, i);
    UpTo(blocks, 0, i);
    UpTo(blocks, i + 1, |blocks| - 1);
  }

  /** Payloads handed out are aligned, inside the heap, and never overlap. */
  lemma {:induction false} LiveDisjoint(m: Memory, blocks: seq<nat>, end: nat, live: map<nat, nat>, p: nat, q: nat)
    requires Tiles(m, blocks, end) && Accounted(m, blocks, live) && p in live && q in live && p < q
    ensures p % 4 == 0 && HEAP_START + HEADER <= p && p + live[p] + HEADER <= q && q + live[q] + HEADER <= end
  {
    hide Tiles, Placed;
    assert Held(m, blocks, p, live[p]) && Held(m, blocks, q, live[q]);
    var i: nat :| HeldBy(m, blocks, p, live[p], i);
    var j: nat :| HeldBy(m, blocks, q, live[q], j);
    HeldInside(m, blocks, end, p, live[p], i);
    HeldInside(m, blocks, end, q, live[q], j);
    assert Ascending(blocks) by {
      TilesAscend(m, blocks, end);
    }
    if i < j {
      UpTo(blocks, i + 1, j);
    } else {
      UpTo(blocks, j, i);
    }
  }

  lemma {:induction false} TilesAscend(m: Memory, blocks: seq<nat>, end: nat)
    requires Tiles(m, blocks, end)
    ensures Ascending(blocks)
  {
  }

  // --- growing by a page -------------------------------------------------------------------

  /** `curr` now reaches up to `last`, the new sentinel. */
  function Terminated(m: Memory, curr: nat, last: nat): Memory {
    SetFree(SetPrev(SetNext(SetNext(m, curr, last), last, NULL), last, curr), last, false)
  }

  lemma {:induction false} TerminatedAt(m: Memory, curr: nat, last: nat, a: nat)
    requires curr != last
    ensures At(Terminated(m, curr, last), a)
         == if a == last then Entry(false, NULL, curr) else if a == curr then At(m, a).(next := last) else At(m, a)
  {
  }

  /** The last block is free: it takes the new page, and its old sentinel is gone. */
  function GrownOver(blocks: seq<nat>, end: nat): seq<nat>
    requires |blocks| >= 2 && end >= HEADER
  {
    blocks[..|blocks| - 1] + [end + PAGE_SIZE - HEADER]
  }

  /** The sentinel becomes a block that takes the new page. */
  function GrownBehind(blocks: seq<nat>, end: nat): seq<nat>
    requires end >= HEADER
  {
    blocks + [end + PAGE_SIZE - HEADER]
  }

  lemma {:induction false} EndBounds(m: Memory, blocks: seq<nat>, end: nat)
    requires Tiles(m, blocks, end)
    ensures end >= HEADER && (forall i :: 0 <= i < |blocks| ==> blocks[i] + HEADER <= end && HEAP_START <= blocks[i])
    ensures Ascending(blocks)
  {
    forall i | 0 <= i < |blocks|
      ensures blocks[i] + HEADER <= end && HEAP_START <= blocks[i]
    {
      UpTo(blocks, i, |blocks| - 1);
      UpTo(blocks, 0, i);
    }
  }

  lemma {:induction false} SentinelAligned(end: nat)
    requires end % PAGE_SIZE == 0
    ensures (end - HEADER) % 4 == 0 && (end + PAGE_SIZE - HEADER) % 4 == 0
  {
  }

  lemma {:induction false} GrowOverAt(m: Memory, blocks: seq<nat>, end: nat, i: nat)
    requires Tiles(m, blocks, end) && i < |blocks|
    ensures var (w, bs) := (Terminated(m, blocks[|blocks| - 2], end + PAGE_SIZE - HEADER), GrownOver(blocks, end));
            && Linked(w, bs, i) && Placed(bs, i)
            && (i < |blocks| - 1 ==> At(w, bs[i]).isFree == At(m, blocks[i]).isFree)
            && (i == |blocks| - 1 ==> !At(w, bs[i]).isFree)
  {
    hide Terminated;
    var n, p, last := |blocks|, blocks[|blocks| - 2], end + PAGE_SIZE - HEADER;
    TilesAscend(m, blocks, end);
    SentinelAligned(end);
    Apart(blocks, n - 2, n - 1);
    var bs := GrownOver(blocks, end);
    TerminatedAt(m, p, last, bs[i]);
    if i < n - 1 {
      assert Linked(m, blocks, i) && Placed(blocks, i);
      UpTo(blocks, i, n - 2);
      if i < n - 2 {
        Apart(blocks, i, n - 2);
      }
    }
  }

  lemma {:induction false} GrowOver(m: Memory, blocks: seq<nat>, end: nat, live: map<nat, nat>)
    requires Tiles(m, blocks, end) && Accounted(m, blocks, live) && end + PAGE_SIZE <= KERNEL_HEAP_END
    requires At(m, blocks[|blocks| - 2]).isFree
    ensures var (w, bs) := (Terminated(m, blocks[|blocks| - 2], end + PAGE_SIZE - HEADER), GrownOver(blocks, end));
            Tiles(w, bs, end + PAGE_SIZE) && Accounted(w, bs, live) && SameFree(m, w, blocks, |blocks| - 1)
  {
    hide Linked, Placed, Terminated, At, Accounted;
    var w, bs := Terminated(m, blocks[|blocks| - 2], end + PAGE_SIZE - HEADER), GrownOver(blocks, end);
    forall i | 0 <= i < |bs|
      ensures Linked(w, bs, i) && Placed(bs, i)
      ensures i < |bs| - 1 ==> At(w, bs[i]).isFree == At(m, blocks[i]).isFree
      ensures i == |bs| - 1 ==> !At(w, bs[i]).isFree
    {
      GrowOverAt(m, blocks, end, i);
    }
    AccountedGrown(m, blocks, w, bs, |blocks| - 2, live);
  }

  /** Blocks below `k` are as they were, those from `k` on are free. */
  lemma {:induction false} AccountedGrown(m: Memory, blocks: seq<nat>, w: Memory, bs: seq<nat>, k: nat,
                                          live: map<nat, nat>)
    requires Accounted(m, blocks, live) && k <= |blocks| - 1 && k <= |bs| - 1
    requires forall i :: 0 <= i <= k && i < |blocks| - 1 && i < |bs| - 1 ==> bs[i] == blocks[i]
    requires bs[k] == blocks[k]
    requires forall i :: 0 <= i < k ==> At(w, bs[i]).isFree == At(m, blocks[i]).isFree
    requires forall i :: k <= i < |blocks| - 1 ==> At(m, blocks[i]).isFree
    requires forall i :: k <= i < |bs| - 1 ==> At(w, bs[i]).isFree
    ensures Accounted(w, bs, live)
  {
    forall p | p in live
      ensures Held(w, bs, p, live[p])
    {
      assert Held(m, blocks, p, live[p]);
      var i: nat :| HeldBy(m, blocks, p, live[p], i);
      assert i < k;
      assert HeldBy(w, bs, p, live[p], i);
    }
    forall i | 0 <= i < |bs| - 1
      ensures Owed(w, bs, live, i)
    {
      assert i < k ==> Owed(m, blocks, live, i);
    }
  }

  lemma {:induction false} GrowBehindAt(m: Memory, blocks: seq<nat>, end: nat, i: nat)
    requires Tiles(m, blocks, end) && i <= |blocks|
    ensures end >= HEADER
    ensures var s := blocks[|blocks| - 1];
            var (w, bs) := (Terminated(SetFree(m, s, true), s, end + PAGE_SIZE - HEADER), GrownBehind(blocks, end));
            && Linked(w, bs, i) && Placed(bs, i)
            && (i < |blocks| - 1 ==> At(w, bs[i]).isFree == At(m, blocks[i]).isFree)
            && (i == |blocks| - 1 ==> At(w, bs[i]).isFree)
            && (i == |blocks| ==> !At(w, bs[i]).isFree)
  {
    hide Terminated;
    var n, s, last := |blocks|, blocks[|blocks| - 1], end + PAGE_SIZE - HEADER;
    TilesAscend(m, blocks, end);
    SentinelAligned(end);
    UpTo(blocks, 0, n - 1);
    var bs := GrownBehind(blocks, end);
    TerminatedAt(SetFree(m, s, true), s, last, bs[i]);
    if i < n {
      assert Linked(m, blocks, i) && Placed(blocks, i);
      if i < n - 1 {
        Apart(blocks, i, n - 1);
      }
    } else {
      assert Placed(blocks, n - 1);
    }
  }

  lemma {:induction false} GrowBehind(m: Memory, blocks: seq<nat>, end: nat, live: map<nat, nat>)
    requires Tiles(m, blocks, end) && Accounted(m, blocks, live) && end + PAGE_SIZE <= KERNEL_HEAP_END
    ensures var s := blocks[|blocks| - 1];
            var (w, bs) := (Terminated(SetFree(m, s, true), s, end + PAGE_SIZE - HEADER), GrownBehind(blocks, end));
            && end >= HEADER && Tiles(w, bs, end + PAGE_SIZE) && Accounted(w, bs, live) && At(w, s).isFree
            && SameFree(m, w, blocks, |blocks| - 1)
  {
    hide Linked, Placed, Terminated, At, Accounted, SetFree;
    GrowBehindAt(m, blocks, end, 0);
    var s := blocks[|blocks| - 1];
    var w, bs := Terminated(SetFree(m, s, true), s, end + PAGE_SIZE - HEADER), GrownBehind(blocks, end);
    forall i | 0 <= i < |bs|
      ensures Linked(w, bs, i) && Placed(bs, i)
      ensures i < |blocks| - 1 ==> At(w, bs[i]).isFree == At(m, blocks[i]).isFree
      ensures i == |blocks| - 1 ==> At(w, bs[i]).isFree
      ensures i == |blocks| ==> !At(w, bs[i]).isFree
    {
      GrowBehindAt(m, blocks, end, i);
    }
    AccountedGrown(m, blocks, w, bs, |blocks| - 1, live);
  }

  lemma {:induction false} AlignedSum(a: nat, n: nat)
    requires a % 4 == 0 && n % 4 == 0
    ensures (a + n + HEADER) % 4 == 0
  {
  }

  // --- splitting and taking a block --------------------------------------------------------

  /** Block `curr`, which reaches up to `e`, ends at `x`, where a free block begins. */
  function SplitAt(m: Memory, curr: nat, x: nat, e: nat): Memory {
    SetPrev(SetFree(SetPrev(SetNext(SetNext(m, curr, x), x, e), x, curr), x, true), e, x)
  }

  lemma {:induction false} SplitAtAt(m: Memory, curr: nat, x: nat, e: nat, a: nat)
    requires curr < x < e
    ensures At(SplitAt(m, curr, x, e), a)
         == if a == x then Entry(true, e, curr)
            else if a == curr then At(m, a).(next := x)
            else if a == e then At(m, a).(prev := x)
            else At(m, a)
  {
  }

  function Inserted(blocks: seq<nat>, i: nat, x: nat): (bs: seq<nat>)
    requires i < |blocks|
    ensures |bs| == |blocks| + 1
    ensures forall k :: 0 <= k < |bs| ==> bs[k] == if k <= i then blocks[k] else if k == i + 1 then x else blocks[k - 1]
  {
    blocks[..i + 1] + [x] + blocks[i + 1..]
  }

  lemma {:induction false} SplitTilesAt(m: Memory, blocks: seq<nat>, end: nat, i: nat, x: nat, k: nat)
    requires Tiles(m, blocks, end) && i < |blocks| - 1 && x % 4 == 0 && k < |blocks| + 1
    requires blocks[i] + HEADER + MIN_BLOCK_SIZE <= x && x + HEADER + MIN_BLOCK_SIZE <= blocks[i + 1]
    ensures var (w, bs) := (SplitAt(m, blocks[i], x, blocks[i + 1]), Inserted(blocks, i, x));
            && Linked(w, bs, k) && Placed(bs, k)
            && At(w, bs[k]).isFree == (k == i + 1 || At(m, bs[k]).isFree)
  {
    hide SplitAt;
    var o := if k <= i then k else k - 1;
    assert Linked(m, blocks, o) && Placed(blocks, o);
    TilesAscend(m, blocks, end);
    if o < i {
      Apart(blocks, o, i);
    } else if o > i + 1 {
      Apart(blocks, i + 1, o);
    }
    SplitAtAt(m, blocks[i], x, blocks[i + 1], Inserted(blocks, i, x)[k]);
  }

  lemma {:induction false} SplitTiles(m: Memory, blocks: seq<nat>, end: nat, i: nat, x: nat)
    requires Tiles(m, blocks, end) && i < |blocks| - 1 && x % 4 == 0
    requires blocks[i] + HEADER + MIN_BLOCK_SIZE <= x && x + HEADER + MIN_BLOCK_SIZE <= blocks[i + 1]
    ensures Tiles(SplitAt(m, blocks[i], x, blocks[i + 1]), Inserted(blocks, i, x), end)
    ensures forall k :: 0 <= k < |blocks| ==>
              At(SplitAt(m, blocks[i], x, blocks[i + 1]), blocks[k]).isFree == At(m, blocks[k]).isFree
    ensures At(SplitAt(m, blocks[i], x, blocks[i + 1]), x).isFree
  {
    hide SplitAt, Linked, Placed, At;
    var w, bs := SplitAt(m, blocks[i], x, blocks[i + 1]), Inserted(blocks, i, x);
    forall k | 0 <= k < |bs|
      ensures Linked(w, bs, k) && Placed(bs, k)
      ensures At(w, bs[k]).isFree == (k == i + 1 || At(m, bs[k]).isFree)
    {
      SplitTilesAt(m, blocks, end, i, x, k);
    }
    assert bs[i + 1] == x;
    forall k | 0 <= k < |blocks|
      ensures At(w, blocks[k]).isFree == At(m, blocks[k]).isFree
    {
      assert bs[if k <= i then k else k + 1] == blocks[k];
    }
  }

  lemma {:induction false} SplitAccounted(m: Memory, blocks: seq<nat>, end: nat, i: nat, x: nat, live: map<nat, nat>)
    requires Tiles(m, blocks, end) && Accounted(m, blocks, live) && i < |blocks| - 1 && x % 4 == 0
    requires blocks[i] + HEADER + MIN_BLOCK_SIZE <= x && x + HEADER + MIN_BLOCK_SIZE <= blocks[i + 1]
    requires At(m, blocks[i]).isFree
    ensures Accounted(SplitAt(m, blocks[i], x, blocks[i + 1]), Inserted(blocks, i, x), live)
  {
    var w, bs := SplitAt(m, blocks[i], x, blocks[i + 1]), Inserted(blocks, i, x);
    SplitTiles(m, blocks, end, i, x);
    forall p | p in live
      ensures Held(w, bs, p, live[p])
    {
      assert Held(m, blocks, p, live[p]);
      var j: nat :| HeldBy(m, blocks, p, live[p], j);
      assert j != i;
      assert HeldBy(w, bs, p, live[p], if j < i then j else j + 1);
    }
    forall k | 0 <= k < |bs| - 1
      ensures Owed(w, bs, live, k)
    {
      assert k <= i ==> Owed(m, blocks, live, k);
      assert k > i + 1 ==> Owed(m, blocks, live, k - 1);
    }
  }

  lemma {:induction false} TakeAt(m: Memory, blocks: seq<nat>, end: nat, i: nat, k: nat)
    requires Tiles(m, blocks, end) && i < |blocks| && k < |blocks|
    ensures var w := SetFree(m, blocks[i], false);
            && Linked(w, blocks, k) && Placed(blocks, k)
            && (if k == i then !At(w, blocks[k]).isFree else blocks[k] != blocks[i] && At(w, blocks[k]) == At(m, blocks[k]))
  {
    TilesAscend(m, blocks, end);
    assert Linked(m, blocks, k) && Placed(blocks, k);
    if k < i {
      Apart(blocks, k, i);
    } else if i < k {
      Apart(blocks, i, k);
    }
  }

  /** A free block is handed out for `n` bytes. */
  lemma {:induction false} Take(m: Memory, blocks: seq<nat>, end: nat, i: nat, live: map<nat, nat>, n: nat)
    requires Tiles(m, blocks, end) && Accounted(m, blocks, live) && i < |blocks| - 1
    requires At(m, blocks[i]).isFree && n <= SizeOf(blocks, i)
    ensures blocks[i] + HEADER !in live
    ensures Tiles(SetFree(m, blocks[i], false), blocks, end)
    ensures Accounted(SetFree(m, blocks[i], false), blocks, live[blocks[i] + HEADER := n])
  {
    hide Linked, Placed, At, SetFree;
    var w, p := SetFree(m, blocks[i], false), blocks[i] + HEADER;
    var more := live[p := n];
    forall k | 0 <= k < |blocks|
      ensures Linked(w, blocks, k) && Placed(blocks, k)
      ensures if k == i then !At(w, blocks[k]).isFree else blocks[k] != blocks[i] && At(w, blocks[k]) == At(m, blocks[k])
    {
      TakeAt(m, blocks, end, i, k);
    }
    assert p in live ==> Held(m, blocks, p, live[p]);
    forall q | q in more
      ensures Held(w, blocks, q, more[q])
    {
      if q == p {
        assert HeldBy(w, blocks, p, n, i);
      } else {
        assert Held(m, blocks, q, live[q]);
        var j: nat :| HeldBy(m, blocks, q, live[q], j);
        assert HeldBy(w, blocks, q, live[q], j);
      }
    }
    forall k | 0 <= k < |blocks| - 1
      ensures Owed(w, blocks, more, k)
    {
      assert Owed(m, blocks, live, k);
    }
  }

  // --- whole pages -------------------------------------------------------------------------

  /** `kmalloc_pages` once the pages are there: the old sentinel `s`, behind block `q`, becomes the block handed
      out, and `x` the free block between it and the new sentinel. The new sentinel's next field is not stored. */
  function WithPages(m: Memory, q: nat, s: nat, x: nat, last: nat): Memory {
    var named := SetPrev(SetNext(SetFree(m, s, false), q, s), s, q);
    var handed := SetFree(SetNext(named, s, x), x, true);
    var ended := SetPrev(SetFree(handed, last, false), last, x);
    SetPrev(SetNext(ended, x, last), x, s)
  }

  lemma {:induction false} WithPagesAt(m: Memory, q: nat, s: nat, x: nat, last: nat, a: nat)
    requires q < s < x < last
    ensures At(WithPages(m, q, s, x, last), a)
         == if a == s then Entry(false, x, q)
            else if a == q then At(m, a).(next := s)
            else if a == x then Entry(true, last, s)
            else if a == last then Entry(false, At(m, a).next, x)
            else At(m, a)
  {
  }

  /** How many blocks stay in front: a free last block is discarded. */
  function Kept(m: Memory, blocks: seq<nat>): (k: nat)
    requires |blocks| >= 2
    ensures |blocks| - 2 <= k <= |blocks| - 1
  {
    if At(m, blocks[|blocks| - 2]).isFree then |blocks| - 2 else |blocks| - 1
  }

  function PagesBlocks(blocks: seq<nat>, keep: nat, s: nat, x: nat, last: nat): (bs: seq<nat>)
    requires keep <= |blocks|
    ensures |bs| == keep + 3
  {
    blocks[..keep] + [s, x, last]
  }

  /** The heap has a block to put the pages behind, and they lie where the heap ended. */
  ghost predicate Pageable(m: Memory, blocks: seq<nat>, end: nat, keep: nat, pages: nat, s: nat, x: nat, last: nat) {
    && Tiles(m, blocks, end) && keep == Kept(m, blocks) && keep >= 1 && pages >= 1
    && s == end - HEADER && x == end + pages * PAGE_SIZE && last == x + PAGE_SIZE - HEADER
    && last + HEADER <= KERNEL_HEAP_END
  }

  lemma {:induction false} PagesAligned(end: nat, pages: nat)
    requires end % PAGE_SIZE == 0
    ensures (end + pages * PAGE_SIZE) % PAGE_SIZE == 0
  {
  }

  lemma {:induction false} PageIsAligned(a: nat)
    requires a % PAGE_SIZE == 0
    ensures a % 4 == 0 && (a >= HEADER ==> (a - HEADER) % 4 == 0) && (a + PAGE_SIZE) % PAGE_SIZE == 0
  {
  }

  lemma {:induction false} PageAddresses(end: nat, pages: nat, s: nat, x: nat, last: nat)
    requires end % PAGE_SIZE == 0 && s == end - HEADER && x == end + pages * PAGE_SIZE && last == x + PAGE_SIZE - HEADER
    ensures s % 4 == 0 && x % 4 == 0 && last % 4 == 0
    ensures (last + HEADER) % PAGE_SIZE == 0 && (s + HEADER) % PAGE_SIZE == 0
  {
    PagesAligned(end, pages);
    PageIsAligned(end);
    PageIsAligned(x);
    PageIsAligned(x + PAGE_SIZE);
  }

  lemma {:induction false} PageableEnds(m: Memory, blocks: seq<nat>, end: nat, keep: nat, pages: nat, s: nat, x: nat,
                                        last: nat)
    requires Pageable(m, blocks, end, keep, pages, s, x, last)
    ensures Tiles(m, blocks, end) && 1 <= keep < |blocks| && s == blocks[|blocks| - 1] && end % PAGE_SIZE == 0
    ensures s == end - HEADER && x == end + pages * PAGE_SIZE && last == x + PAGE_SIZE - HEADER
    ensures s + HEADER + MIN_BLOCK_SIZE <= x && x + HEADER + MIN_BLOCK_SIZE <= last
  {
    hide Linked, Placed, At;
  }

  lemma {:induction false} PageableOrder(m: Memory, blocks: seq<nat>, end: nat, keep: nat, pages: nat, s: nat, x: nat,
                                         last: nat)
    requires Pageable(m, blocks, end, keep, pages, s, x, last)
    ensures blocks[keep - 1] + HEADER + MIN_BLOCK_SIZE <= blocks[keep] <= s && s + HEADER + MIN_BLOCK_SIZE <= x
    ensures x + HEADER + MIN_BLOCK_SIZE <= last && s == blocks[|blocks| - 1]
    ensures s % 4 == 0 && x % 4 == 0 && last % 4 == 0
    ensures (last + HEADER) % PAGE_SIZE == 0 && (s + HEADER) % PAGE_SIZE == 0
    ensures Ascending(blocks)
  {
    hide *;
    PageableEnds(m, blocks, end, keep, pages, s, x, last);
    TilesAscend(m, blocks, end);
    Apart(blocks, keep - 1, keep);
    UpTo(blocks, keep, |blocks| - 1);
    PageAddresses(end, pages, s, x, last);
  }

  lemma {:induction false} PagesTilesAt(m: Memory, blocks: seq<nat>, end: nat, keep: nat, pages: nat, s: nat, x: nat,
                                        last: nat, i: nat)
    requires Pageable(m, blocks, end, keep, pages, s, x, last) && i < keep + 3
    ensures var (w, bs) := (WithPages(m, blocks[keep - 1], s, x, last), PagesBlocks(blocks, keep, s, x, last));
            && (Linked(w, bs, i) <==> i < keep + 2 || At(m, last).next == NULL) && Placed(bs, i)
            && At(w, bs[i]).isFree == if i < keep then At(m, blocks[i]).isFree else i == keep + 1
  {
    hide WithPages;
    PageableOrder(m, blocks, end, keep, pages, s, x, last);
    var bs := PagesBlocks(blocks, keep, s, x, last);
    WithPagesAt(m, blocks[keep - 1], s, x, last, bs[i]);
    if i < keep {
      assert Linked(m, blocks, i) && Placed(blocks, i);
      if i < keep - 1 {
        Apart(blocks, i, keep - 1);
      }
    }
  }

  /** The list stays well formed exactly if the memory of the last new page reads NULL where the next field
      of the sentinel is. */
  lemma {:induction false} PagesTiles(m: Memory, blocks: seq<nat>, end: nat, keep: nat, pages: nat, s: nat, x: nat,
                                      last: nat)
    requires Pageable(m, blocks, end, keep, pages, s, x, last)
    ensures Tiles(WithPages(m, blocks[keep - 1], s, x, last), PagesBlocks(blocks, keep, s, x, last), last + HEADER)
       <==> At(m, last).next == NULL
  {
    hide WithPages, Linked, Placed, At;
    PageableOrder(m, blocks, end, keep, pages, s, x, last);
    var w, bs := WithPages(m, blocks[keep - 1], s, x, last), PagesBlocks(blocks, keep, s, x, last);
    forall i | 0 <= i < |bs|
      ensures Linked(w, bs, i) <==> i < keep + 2 || At(m, last).next == NULL
      ensures Placed(bs, i) && (i >= keep ==> At(w, bs[i]).isFree == (i == keep + 1))
    {
      PagesTilesAt(m, blocks, end, keep, pages, s, x, last, i);
    }
    assert !Linked(w, bs, keep + 2) || At(m, last).next == NULL;
  }

  /** The block handed out is exactly the pages, and every other payload is kept. */
  lemma {:induction false} PagesAccounted(m: Memory, blocks: seq<nat>, end: nat, keep: nat, pages: nat, s: nat, x: nat,
                                          last: nat, live: map<nat, nat>)
    requires Pageable(m, blocks, end, keep, pages, s, x, last) && Accounted(m, blocks, live)
    ensures s + HEADER !in live && (s + HEADER) % PAGE_SIZE == 0
    ensures Accounted(WithPages(m, blocks[keep - 1], s, x, last), PagesBlocks(blocks, keep, s, x, last),
                      live[s + HEADER := pages * PAGE_SIZE])
  {
    hide WithPages, Linked, Placed, At, Tiles;
    PageableOrder(m, blocks, end, keep, pages, s, x, last);
    var w, bs, more := WithPages(m, blocks[keep - 1], s, x, last), PagesBlocks(blocks, keep, s, x, last),
                       live[s + HEADER := pages * PAGE_SIZE];
    forall i | 0 <= i < |bs|
      ensures At(w, bs[i]).isFree == if i < keep then At(m, blocks[i]).isFree else i == keep + 1
    {
      PagesTilesAt(m, blocks, end, keep, pages, s, x, last, i);
    }
    forall p | p in live
      ensures Held(w, bs, p, live[p]) && p != s + HEADER
    {
      assert Held(m, blocks, p, live[p]);
      var j: nat :| HeldBy(m, blocks, p, live[p], j);
      assert j < keep;
      UpTo(blocks, j, keep - 1);
      assert HeldBy(w, bs, p, live[p], j);
    }
    assert HeldBy(w, bs, s + HEADER, pages * PAGE_SIZE, keep);
    forall q | q in more
      ensures Held(w, bs, q, more[q])
    {
    }
    forall k | 0 <= k < |bs| - 1
      ensures Owed(w, bs, more, k)
    {
      assert k < keep ==> Owed(m, blocks, live, k);
    }
  }

  /** With the one block of a fresh heap still free there is no block to put the pages behind: the code stores
      through a null pointer, and the block handed out has lost its predecessor. */
  lemma {:induction false} PagesOnFreshHeap(m: Memory, blocks: seq<nat>, end: nat, x: nat, last: nat)
    requires Tiles(m, blocks, end) && |blocks| == 2 && At(m, blocks[0]).isFree && blocks[1] < x < last
    ensures At(m, At(m, blocks[1]).prev).prev == NULL
    ensures var w := WithPages(m, NULL, blocks[1], x, last);
            && At(w, HEAP_START).next == blocks[1] && At(w, blocks[1]).prev != HEAP_START
            && forall bs: seq<nat>, e: nat :: !Tiles(w, bs, e)
  {
    hide WithPages;
    assert Linked(m, blocks, 0) && Linked(m, blocks, 1) && Placed(blocks, 0);
    var w := WithPages(m, NULL, blocks[1], x, last);
    WithPagesAt(m, NULL, blocks[1], x, last, HEAP_START);
    WithPagesAt(m, NULL, blocks[1], x, last, blocks[1]);
    forall bs: seq<nat>, e: nat
      ensures !Tiles(w, bs, e)
    {
      if |bs| >= 2 && bs[0] == HEAP_START {
        assert Linked(w, bs, 0) ==> bs[1] == blocks[1];
        assert !(Linked(w, bs, 0) && Linked(w, bs, 1));
      }
    }
  }

  /** Some list of blocks tiles the heap. */
  ghost predicate Orderly(m: Memory, end: nat) {
    exists bs: seq<nat> :: Tiles(m, bs, end)
  }

  lemma {:induction false} AList(m: Memory, end: nat) returns (bs: seq<nat>)
    requires Orderly(m, end)
    ensures Tiles(m, bs, end)
  {
    bs :| Tiles(m, bs, end);
  }

  /** The block the pages are put behind, or NULL. */
  function Behind(m: Memory, blocks: seq<nat>): nat
    requires |blocks| >= 2
  {
    if Kept(m, blocks) == 0 then NULL else blocks[Kept(m, blocks) - 1]
  }

  /** Any list that tiles the heap begins with the blocks the code has linked. */
  lemma {:induction false} ListIsForced(m: Memory, blocks: seq<nat>, end: nat, keep: nat, pages: nat, s: nat, x: nat,
                                        last: nat, bs: seq<nat>, i: nat)
    requires Pageable(m, blocks, end, keep, pages, s, x, last) && i < keep + 3
    requires Tiles(WithPages(m, blocks[keep - 1], s, x, last), bs, last + HEADER)
    ensures i < |bs| && bs[i] == PagesBlocks(blocks, keep, s, x, last)[i]
  {
    hide WithPages, Placed;
    var w, ps := WithPages(m, blocks[keep - 1], s, x, last), PagesBlocks(blocks, keep, s, x, last);
    PageableOrder(m, blocks, end, keep, pages, s, x, last);
    if i > 0 {
      ListIsForced(m, blocks, end, keep, pages, s, x, last, bs, i - 1);
      PagesTilesAt(m, blocks, end, keep, pages, s, x, last, i - 1);
      PagesTilesAt(m, blocks, end, keep, pages, s, x, last, 0);
      assert Linked(w, ps, i - 1) && Linked(w, bs, i - 1);
      HeapAddresses(m, blocks, end, keep, pages, s, x, last, i);
    }
  }

  lemma {:induction false} HeapAddresses(m: Memory, blocks: seq<nat>, end: nat, keep: nat, pages: nat, s: nat, x: nat,
                                         last: nat, i: nat)
    requires Pageable(m, blocks, end, keep, pages, s, x, last) && i < keep + 3
    ensures PagesBlocks(blocks, keep, s, x, last)[i] != NULL
  {
    hide Linked, Placed;
    PageableOrder(m, blocks, end, keep, pages, s, x, last);
    UpTo(blocks, 0, if i < keep then i else keep - 1);
  }

  /** After `kmalloc_pages` some list of blocks tiles the heap if and only if there was a block to put the pages
      behind and the memory where the next field of the new sentinel is reads NULL. */
  lemma {:induction false} PagesWellFormed(m: Memory, blocks: seq<nat>, end: nat, pages: nat, s: nat, x: nat, last: nat)
    requires Tiles(m, blocks, end) && pages >= 1 && s == end - HEADER && x == end + pages * PAGE_SIZE
    requires last == x + PAGE_SIZE - HEADER && last + HEADER <= KERNEL_HEAP_END
    ensures Orderly(WithPages(m, Behind(m, blocks), s, x, last), last + HEADER) <==>
            Kept(m, blocks) >= 1 && At(m, last).next == NULL
  {
    hide WithPages, Linked, Placed, At;
    var keep, w := Kept(m, blocks), WithPages(m, Behind(m, blocks), s, x, last);
    if keep == 0 {
      SentinelOrder(m, blocks, end, pages, s, x, last);
      PagesOnFreshHeap(m, blocks, end, x, last);
    } else {
      PagesTiles(m, blocks, end, keep, pages, s, x, last);
      if Orderly(w, last + HEADER) {
        var bs := AList(w, last + HEADER);
        ListEnds(m, blocks, end, keep, pages, s, x, last, bs);
      }
    }
  }

  lemma {:induction false} SentinelOrder(m: Memory, blocks: seq<nat>, end: nat, pages: nat, s: nat, x: nat, last: nat)
    requires Tiles(m, blocks, end) && pages >= 1 && s == end - HEADER && x == end + pages * PAGE_SIZE
    requires last == x + PAGE_SIZE - HEADER && Kept(m, blocks) == 0
    ensures |blocks| == 2 && blocks[1] == s && s < x < last && At(m, blocks[0]).isFree
  {
    hide Linked, Placed;
  }

  lemma {:induction false} ListEnds(m: Memory, blocks: seq<nat>, end: nat, keep: nat, pages: nat, s: nat, x: nat,
                                    last: nat, bs: seq<nat>)
    requires Pageable(m, blocks, end, keep, pages, s, x, last)
    requires Tiles(WithPages(m, blocks[keep - 1], s, x, last), bs, last + HEADER)
    ensures At(m, last).next == NULL
  {
    hide WithPages;
    var w := WithPages(m, blocks[keep - 1], s, x, last);
    PageableOrder(m, blocks, end, keep, pages, s, x, last);
    ListIsForced(m, blocks, end, keep, pages, s, x, last, bs, keep + 2);
    TilesAscend(w, bs, last + HEADER);
    if keep + 2 < |bs| - 1 {
      Apart(bs, keep + 2, |bs| - 1);
    }
    assert Linked(w, bs, keep + 2);
    WithPagesAt(m, blocks[keep - 1], s, x, last, last);
  }
}
