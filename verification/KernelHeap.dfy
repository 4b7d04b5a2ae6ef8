/** heap.c: the kernel heap, grown page by page. */
module KernelHeap {
  import opened HeapBlocks

  class Heap {
    /** The headers in memory; what has never been written holds anything. */
    var mem: Memory
    /** `curr_heap_end` and `last_entry`. */
    var end: nat
    var lastEntry: nat
    /** The blocks in address order, and every payload handed out with the size asked for. */
    ghost var blocks: seq<nat>
    ghost var live: map<nat, nat>

    ghost predicate Valid()
      reads this
    {
      Tiles(mem, blocks, end) && Accounted(mem, blocks, live) && lastEntry == end - HEADER
    }

    /** The heap before `heap_init`: no page yet, arbitrary memory. */
    constructor (memory: Memory)
      ensures mem == memory && end == HEAP_START && blocks == [] && live == map[]
    {
      mem, end, lastEntry, blocks, live := memory, HEAP_START, NULL, [], map[];
    }

    /** `allocate_heap_page`. Whether a page can be had is decided elsewhere: `grants` answers for the virtual page. */
    method AllocateHeapPage(grants: nat -> bool) returns (ok: bool)
      modifies this`end
      ensures end == if ok then old(end) + PAGE_SIZE else old(end)
      ensures ok <==> old(end) < KERNEL_HEAP_END && grants(old(end) / PAGE_SIZE)
    {
      if end >= KERNEL_HEAP_END {
        return false;
      }
      ok := grants(end / PAGE_SIZE);
      if ok {
        end := end + PAGE_SIZE;
      }
    }

    /** `heap_init`. */
    method HeapInit(grants: nat -> bool) returns (ok: bool)
      requires end == HEAP_START && live == map[]
      modifies this
      ensures live == map[] && (ok <==> grants(HEAP_START / PAGE_SIZE))
      ensures ok ==> Valid() && blocks == [HEAP_START, HEAP_START + PAGE_SIZE - HEADER] && At(mem, HEAP_START).isFree
    {
      ok := AllocateHeapPage(grants);
      if !ok {
        return false;
      }
      var first := HEAP_START;
      lastEntry := end - HEADER;
      mem := SetNext(mem, lastEntry, NULL);
      mem := SetPrev(mem, lastEntry, first);
      mem := SetFree(mem, lastEntry, false);
      mem := SetNext(mem, first, lastEntry);
      mem := SetPrev(mem, first, NULL);
      mem := SetFree(mem, first, true);
      blocks := [HEAP_START, HEAP_START + PAGE_SIZE - HEADER];
      assert Linked(mem, blocks, 0) && Linked(mem, blocks, 1) && Placed(blocks, 0) && Placed(blocks, 1);
    }

    /** The new page is added at the sentinel, where the search stands: the block before it grows if it is
        free, else the sentinel becomes a block. */
    method UsePage(curr: nat, ghost i: nat, ghost was: nat, ghost n: nat) returns (next: nat, ghost k: nat)
      requires Tiles(mem, blocks, was) && Accounted(mem, blocks, live) && i == |blocks| - 1 && blocks[i] == curr
      requires end == was + PAGE_SIZE <= KERNEL_HEAP_END && NoFit(mem, blocks, i, n)
      modifies this`mem, this`lastEntry, this`blocks
      ensures Valid() && k < |blocks| && blocks[k] == next && NoFit(mem, blocks, k, n) && k + 1 < |blocks|
      ensures At(mem, next).isFree && next + HEADER + n > was - HEADER
    {
      hide Accounted, SetFree, SetNext, SetPrev;
      ghost var bs, m := blocks, mem;
      assert Linked(m, bs, i) && Linked(m, bs, i - 1);
      EndBounds(m, bs, was);
      k := i;
      var prev := At(mem, curr).prev;
      next := curr;
      if prev != NULL && At(mem, prev).isFree {
        next, k := prev, i - 1;
        assert !Fits(m, bs, k, n);
        GrowOver(m, bs, was, live);
        blocks := GrownOver(bs, was);
      } else {
        GrowBehind(m, bs, was, live);
        mem := SetFree(mem, curr, true);
        blocks := GrownBehind(bs, was);
      }
      lastEntry := end - HEADER;
      mem := SetNext(mem, next, lastEntry);
      mem := SetNext(mem, lastEntry, NULL);
      mem := SetPrev(mem, lastEntry, next);
      mem := SetFree(mem, lastEntry, false);
      NoFitSame(m, bs, mem, blocks, k, n);
    }

    /** The block the search found is split if what is left makes a block, and handed out. */
    method TakeBlock(curr: nat, n: nat, ghost i: nat)
      requires Valid() && i + 1 < |blocks| && blocks[i] == curr && Fits(mem, blocks, i, n) && n % 4 == 0 && n >= MIN_BLOCK_SIZE
      modifies this`mem, this`blocks, this`live
      ensures Valid() && live == old(live)[curr + HEADER := n] && curr + HEADER !in old(live)
      ensures i + 1 < |blocks| && blocks[..i + 1] == old(blocks[..i + 1])
      ensures n <= SizeOf(blocks, i) < n + HEADER + MIN_BLOCK_SIZE
      ensures SameFree(old(mem), mem, old(blocks), i)
    {
      hide Accounted, SetFree, SetNext, SetPrev, At;
      ghost var bs, m := blocks, mem;
      assert Linked(m, bs, i) && Placed(bs, i);
      if At(mem, curr).next - curr - HEADER >= n + HEADER + MIN_BLOCK_SIZE {
        var currEnd := At(mem, curr).next;
        var rest := curr + n + HEADER;
        AlignedSum(curr, n);
        SplitTiles(m, bs, end, i, rest);
        SplitAccounted(m, bs, end, i, rest, live);
        blocks := Inserted(bs, i, rest);
        mem := SetNext(mem, curr, rest);
        mem := SetNext(mem, rest, currEnd);
        mem := SetPrev(mem, rest, curr);
        mem := SetFree(mem, rest, true);
        mem := SetPrev(mem, currEnd, rest);
        assert mem == SplitAt(m, curr, rest, currEnd);
      }
      assert forall k :: 0 <= k <= i ==> blocks[k] == bs[k] && At(mem, blocks[k]).isFree == At(m, bs[k]).isFree;
      ghost var w := mem;
      Take(w, blocks, end, i, live, n);
      mem := SetFree(mem, curr, false);
      TakeBefore(w, blocks, end, i);
      live := live[curr + HEADER := n];
    }

    static lemma {:induction false} TakeBefore(m: Memory, blocks: seq<nat>, end: nat, i: nat)
      requires Tiles(m, blocks, end) && i < |blocks|
      ensures SameFree(m, SetFree(m, blocks[i], false), blocks, i)
    {
      forall k | 0 <= k < i
        ensures At(SetFree(m, blocks[i], false), blocks[k]).isFree == At(m, blocks[k]).isFree
      {
        TakeAt(m, blocks, end, i, k);
      }
    }

    /** The search at the sentinel: a page more, or the end of it. */
    method Grow(curr: nat, ghost i: nat, wanted: nat, grants: nat -> bool) returns (ok: bool, next: nat, ghost k: nat)
      requires Valid() && i < |blocks| && blocks[i] == curr && NoFit(mem, blocks, i, wanted)
      requires At(mem, curr).next == NULL || At(mem, curr).next >= end
      modifies this`mem, this`end, this`lastEntry, this`blocks
      ensures Valid() && k < |blocks| && blocks[k] == next && NoFit(mem, blocks, k, wanted)
      ensures ok <==> old(end) < KERNEL_HEAP_END && grants(old(end) / PAGE_SIZE)
      ensures old(NoFit(mem, blocks, |blocks| - 1, wanted))
      ensures !ok ==> mem == old(mem) && end == old(end) && blocks == old(blocks)
      ensures ok ==> end == old(end) + PAGE_SIZE && next + HEADER + wanted > old(end) - HEADER
    {
      hide Accounted;
      assert Linked(mem, blocks, i);
      EndBounds(mem, blocks, end);
      ghost var was := end;
      next, k := curr, i;
      ok := AllocateHeapPage(grants);
      if ok {
        PageFits(was);
        next, k := UsePage(curr, i, was, wanted);
      }
    }

    /** The search is over. */
    static lemma {:induction false} Found(m: Memory, blocks: seq<nat>, end: nat, i: nat, n: nat)
      requires Tiles(m, blocks, end) && i < |blocks| && At(m, blocks[i]).isFree && At(m, blocks[i]).next != NULL
      requires At(m, blocks[i]).next - blocks[i] - HEADER >= n
      ensures Fits(m, blocks, i, n)
    {
      assert Linked(m, blocks, i);
    }

    /** The search goes on to the next block. */
    static lemma {:induction false} NextBlock(m: Memory, blocks: seq<nat>, end: nat, i: nat, n: nat)
      requires Tiles(m, blocks, end) && i < |blocks| && NoFit(m, blocks, i, n) && At(m, blocks[i]).next != NULL
      requires !At(m, blocks[i]).isFree || At(m, blocks[i]).next - blocks[i] - HEADER < n
      ensures i + 1 < |blocks| && blocks[i + 1] == At(m, blocks[i]).next > blocks[i] && NoFit(m, blocks, i + 1, n)
    {
      assert Linked(m, blocks, i) && Placed(blocks, i) && !Fits(m, blocks, i, n);
    }

    /** The pages from `a` up to `b` can all be had. */
    static ghost predicate Granted(grants: nat -> bool, a: nat, b: nat) {
      forall p :: a <= p < b ==> grants(p)
    }

    /** `kmalloc`: first fit. If a block fits nothing grows, and it is the first that does; else the heap grows page by
        page until one does, and no further. It gives up only where the next page cannot be had. */
    method Kmalloc(size: nat, grants: nat -> bool) returns (r: nat, ghost i: nat)
      requires Valid()
      modifies this
      ensures Valid()
      ensures size == 0 || size > KERNEL_HEAP_END - HEAP_START ==>
                r == NULL && mem == old(mem) && end == old(end) && blocks == old(blocks)
      ensures r == NULL ==> live == old(live)
      ensures r == NULL && 0 < size <= KERNEL_HEAP_END - HEAP_START ==>
                (end >= KERNEL_HEAP_END || !grants(end / PAGE_SIZE)) && NoFit(mem, blocks, |blocks| - 1, Align4(size))
      ensures end >= old(end) && Granted(grants, old(end) / PAGE_SIZE, end / PAGE_SIZE)
      ensures r != NULL && end > old(end) ==> r + Align4(size) > end - PAGE_SIZE - HEADER
      ensures r != NULL ==> r !in old(live) && live == old(live)[r := Align4(size)]
      ensures r != NULL ==> i + 1 < |blocks| && r == blocks[i] + HEADER && NoFit(mem, blocks, i, Align4(size))
      ensures r != NULL ==> Align4(size) <= SizeOf(blocks, i) < Align4(size) + HEADER + MIN_BLOCK_SIZE
      ensures 0 < size <= KERNEL_HEAP_END - HEAP_START && !old(NoFit(mem, blocks, |blocks| - 1, Align4(size))) ==>
                r != NULL && end == old(end) && i + 1 < |old(blocks)| && Fits(old(mem), old(blocks), i, Align4(size))
                && NoFit(old(mem), old(blocks), i, Align4(size)) && r == old(blocks)[i] + HEADER
    {
      hide Accounted, SetFree, SetNext, SetPrev, SameFree, Align4, Linked, Placed;
      i := 0;
      if size == 0 || size > KERNEL_HEAP_END - HEAP_START {
        return NULL, 0;
      }
      var curr := HEAP_START;
      var wanted := Align4(size);
      ghost var grown, o := false, |blocks| - 1;
      while !At(mem, curr).isFree || At(mem, curr).next == NULL || At(mem, curr).next - curr - HEADER < wanted
        invariant Valid() && i < |blocks| && blocks[i] == curr && NoFit(mem, blocks, i, wanted) && live == old(live)
        invariant !grown ==> mem == old(mem) && blocks == old(blocks) && end == old(end)
        invariant grown ==> old(NoFit(mem, blocks, |blocks| - 1, wanted))
        invariant grown ==> curr + HEADER + wanted > end - PAGE_SIZE - HEADER
        invariant end >= old(end) && (grown <==> end > old(end))
        invariant Granted(grants, old(end) / PAGE_SIZE, end / PAGE_SIZE)
        decreases KERNEL_HEAP_END - end, |blocks| - i
      {
        if At(mem, curr).next == NULL || At(mem, curr).next >= end {
          var ok;
          ok, curr, i := Grow(curr, i, wanted, grants);
          if !ok {
            return NULL, i;
          }
          grown := true;
        } else {
          NextBlock(mem, blocks, end, i, wanted);
          curr, i := At(mem, curr).next, i + 1;
        }
      }
      Found(mem, blocks, end, i, wanted);
      ghost var m, bs := mem, blocks;
      TakeBlock(curr, wanted, i);
      r := curr + HEADER;
      assert forall j :: 0 <= j <= i ==> blocks[j] == blocks[..i + 1][j] == bs[j];
      NoFitSame(m, bs, mem, blocks, i, wanted);
    }

    static lemma {:induction false} PageFits(end: nat)
      requires end % PAGE_SIZE == 0 && end < KERNEL_HEAP_END
      ensures end + PAGE_SIZE <= KERNEL_HEAP_END
    {
    }

    /** What the search for a predecessor finds: the block before the sentinel, or the one before that, which may be
        none. */
    static lemma {:induction false} Predecessor(m: Memory, blocks: seq<nat>, end: nat, s: nat)
      requires Tiles(m, blocks, end) && s == end - HEADER
      ensures var p := At(SetFree(m, s, false), s).prev;
              && p == blocks[|blocks| - 2] && At(SetFree(m, s, false), p) == At(m, p)
              && (At(m, p).isFree ==> At(m, p).prev == Behind(m, blocks))
              && (!At(m, p).isFree ==> p == Behind(m, blocks))
    {
      var n := |blocks|;
      assert Linked(m, blocks, n - 1) && Linked(m, blocks, n - 2) && Placed(blocks, n - 2);
    }

    /** The stores of `kmalloc_pages` once the pages are there. */
    method StorePages(pages: nat, ghost was: nat) returns (r: nat)
      requires Tiles(mem, blocks, was) && lastEntry == was - HEADER && pages >= 1
      requires end == was + (pages + 1) * PAGE_SIZE <= KERNEL_HEAP_END
      modifies this`mem, this`lastEntry
      ensures r == was && lastEntry == end - HEADER
      ensures mem == WithPages(old(mem), Behind(old(mem), blocks), was - HEADER, was + pages * PAGE_SIZE, end - HEADER)
    {
      hide At, SetFree, SetNext, SetPrev, Linked, Placed;
      ghost var m := mem;
      var returned := end - (pages + 1) * PAGE_SIZE - HEADER;
      Predecessor(m, blocks, was, returned);
      mem := SetFree(mem, returned, false);
      var before := At(mem, lastEntry).prev;
      if At(mem, before).isFree {
        before := At(mem, before).prev;
      }
      mem := SetNext(mem, before, returned);
      mem := SetPrev(mem, returned, before);
      var next := returned + pages * PAGE_SIZE + HEADER;
      mem := SetNext(mem, returned, next);
      mem := SetFree(mem, next, true);
      lastEntry := end - HEADER;
      mem := SetFree(mem, lastEntry, false);
      mem := SetPrev(mem, lastEntry, next);
      mem := SetNext(mem, next, lastEntry);
      mem := SetPrev(mem, next, returned);
      r := returned + HEADER;
    }

    /** The pages in the account of blocks and payloads, where there is a list to put them in. */
    ghost method Account(pages: nat, was: nat, m: Memory, keep: nat)
      requires Tiles(m, blocks, was) && Accounted(m, blocks, live) && pages >= 1 && keep == Kept(m, blocks)
      requires end == was + (pages + 1) * PAGE_SIZE <= KERNEL_HEAP_END && lastEntry == end - HEADER
      requires mem == WithPages(m, Behind(m, blocks), was - HEADER, was + pages * PAGE_SIZE, end - HEADER)
      modifies this`blocks, this`live
      ensures Orderly(mem, end) <==> keep >= 1 && At(m, end - HEADER).next == NULL
      ensures Orderly(mem, end) ==> Valid() && was % PAGE_SIZE == 0 && was !in old(live)
      ensures Orderly(mem, end) ==> live == old(live)[was := pages * PAGE_SIZE]
      ensures Orderly(mem, end) ==>
        keep <= |old(blocks)| && blocks == PagesBlocks(old(blocks), keep, was - HEADER, was + pages * PAGE_SIZE, end - HEADER)
    {
      hide At, Accounted, Linked, Placed, WithPages, Orderly;
      var s, x, last := was - HEADER, was + pages * PAGE_SIZE, end - HEADER;
      PagesWellFormed(m, blocks, was, pages, s, x, last);
      if Orderly(mem, end) {
        PagesTiles(m, blocks, was, keep, pages, s, x, last);
        PagesAccounted(m, blocks, was, keep, pages, s, x, last, live);
        blocks := PagesBlocks(blocks, keep, s, x, last);
        live := live[was := pages * PAGE_SIZE];
      }
    }

    /** `kmalloc_pages`: `pages` whole pages where the heap ended, or nothing at all. The heap is left in order if and
        only if there was a block before the last free one and the memory where the next field of the new
        sentinel is reads NULL; else no list of blocks tiles it any more. */
    method KmallocPages(pages: nat, grants: nat -> bool) returns (r: nat)
      requires Valid()
      modifies this
      ensures r == NULL ==> Valid() && mem == old(mem) && end == old(end) && blocks == old(blocks) && live == old(live)
      ensures r != NULL ==> r == old(end) && r % PAGE_SIZE == 0 && end == r + (pages + 1) * PAGE_SIZE && 1 <= pages
      ensures r != NULL ==>
        mem == WithPages(old(mem), Behind(old(mem), old(blocks)), r - HEADER, r + pages * PAGE_SIZE, end - HEADER)
      ensures r != NULL ==>
        (Orderly(mem, end) <==> Kept(old(mem), old(blocks)) >= 1 && At(old(mem), end - HEADER).next == NULL)
      ensures r != NULL && Orderly(mem, end) ==> Valid() && r !in old(live)
      ensures r != NULL && Orderly(mem, end) ==> live == old(live)[r := pages * PAGE_SIZE]
      ensures r != NULL && Orderly(mem, end) ==>
        blocks == PagesBlocks(old(blocks), Kept(old(mem), old(blocks)), r - HEADER, r + pages * PAGE_SIZE, end - HEADER)
      ensures r == NULL <==> pages == 0 || old(end) + (pages + 1) * PAGE_SIZE > KERNEL_HEAP_END
                             || !Granted(grants, old(end) / PAGE_SIZE, old(end) / PAGE_SIZE + pages + 1)
    {
      hide Orderly, WithPages, Accounted, Linked, Placed;
      EndBounds(mem, blocks, end);
      if pages == 0 || pages > (KERNEL_HEAP_END - HEAP_START) / PAGE_SIZE {
        return NULL;
      }
      ghost var was, m, bs := end, mem, blocks;
      for i := 0 to pages + 1
        invariant end == was + i * PAGE_SIZE && end <= KERNEL_HEAP_END && end % PAGE_SIZE == 0
        invariant mem == m && blocks == bs && live == old(live) && lastEntry == was - HEADER
        invariant Granted(grants, was / PAGE_SIZE, was / PAGE_SIZE + i)
      {
        ghost var before := end;
        var ok := AllocateHeapPage(grants);
        if !ok {
          for j := 0 to i
            invariant end == was + (i - j) * PAGE_SIZE
            invariant mem == m && blocks == bs && live == old(live) && lastEntry == was - HEADER
          {
            end := end - PAGE_SIZE;
          }
          return NULL;
        }
        PageFits(before);
      }
      r := StorePages(pages, was);
      Account(pages, was, m, Kept(m, bs));
    }
  }
}
