/** Whole runs of the kernel heap: what every reachable block list satisfies, and what a run that
    releases everything leaves behind. */
module HeapRuns {
  import opened Basics
  import opened Word32
  import opened Memory
  import opened HeapLayout
  import opened KernelHeap

  /** The block list right after kheap_init. */
  function Initial(lo: nat): seq<Block> { [Block(lo, KHEAP_HEAP_SIZE - HEADER_SIZE, true)] }

  /** One step: nothing happened, a request was served, or a live block was released.  A krealloc
      that moves takes two steps; see DoRealloc. */
  ghost predicate StepTo(bs: seq<Block>, cs: seq<Block>) {
    || bs == cs
    || (exists i: nat, size: nat, align: bool :: Served(bs, cs, i, size, align))
    || (exists i: nat :: i < |bs| && !bs[i].free && cs == Release(bs, i))
  }

  ghost predicate IsRun(run: seq<seq<Block>>, lo: nat) {
    && |run| > 0 && run[0] == Initial(lo)
    && forall i :: 0 < i < |run| ==> StepTo(run[i - 1], run[i])
  }

  lemma StepKeepsLayout(bs: seq<Block>, cs: seq<Block>, lo: nat, hi: nat)
    requires Layout(bs, lo, hi) && StepTo(bs, cs)
    ensures Layout(cs, lo, hi)
  {
    if bs != cs {
      if i: nat, size: nat, align: bool :| Served(bs, cs, i, size, align) {
        ServedLayout(bs, cs, lo, hi, i, size, align);
      } else {
        var i: nat :| i < |bs| && !bs[i].free && cs == Release(bs, i);
        ReleaseKeepsLayout(bs, lo, hi, i);
      }
    }
  }

  /** Every block list of every run tiles the heap without free neighbours, so that the total the
      `memory` command prints never changes. */
  lemma {:induction false} RunKeepsLayout(run: seq<seq<Block>>, lo: nat, k: nat)
    requires IsRun(run, lo) && k < |run|
    ensures Layout(run[k], lo, lo + KHEAP_HEAP_SIZE)
    ensures TotalBytes(run[k]) == KHEAP_HEAP_SIZE
  {
    if k > 0 {
      RunKeepsLayout(run, lo, k - 1);
      StepKeepsLayout(run[k - 1], run[k], lo, lo + KHEAP_HEAP_SIZE);
    }
    TotalIsRange(run[k], lo, lo + KHEAP_HEAP_SIZE);
  }

  /** Two runs that leave the same live blocks leave the same block list, whatever happened
      before; in particular the order of releases does not matter. */
  lemma RunsForgetHistory(r1: seq<seq<Block>>, r2: seq<seq<Block>>, lo: nat)
    requires IsRun(r1, lo) && IsRun(r2, lo)
    requires Live(r1[|r1| - 1]) == Live(r2[|r2| - 1])
    ensures r1[|r1| - 1] == r2[|r2| - 1]
  {
    RunKeepsLayout(r1, lo, |r1| - 1);
    RunKeepsLayout(r2, lo, |r2| - 1);
    LiveDeterminesLayout(r1[|r1| - 1], r2[|r2| - 1], lo, lo + KHEAP_HEAP_SIZE);
  }

  /** A run without live blocks at its end is back at the initial block list. */
  lemma RunEndsInitial(run: seq<seq<Block>>, lo: nat)
    requires IsRun(run, lo) && Live(run[|run| - 1]) == {}
    ensures run[|run| - 1] == Initial(lo)
  {
    RunKeepsLayout(run, lo, |run| - 1);
    NothingLive(run[|run| - 1], lo, lo + KHEAP_HEAP_SIZE);
  }

  /** Payloads of live blocks share no byte with each other or with any header. */
  lemma LivePayloadsDisjoint(run: seq<seq<Block>>, lo: nat, k: nat, i: nat, j: nat)
    requires IsRun(run, lo) && k < |run| && i < |run[k]| && j < |run[k]| && i != j
    ensures var b, c := run[k][i], run[k][j];
            b.End() <= c.addr || c.End() <= b.addr
    ensures lo <= run[k][i].addr && run[k][i].End() <= lo + KHEAP_HEAP_SIZE
  {
    RunKeepsLayout(run, lo, k);
    InRange(run[k], lo, lo + KHEAP_HEAP_SIZE, i);
    if i < j {
      Ordered(run[k], lo, lo + KHEAP_HEAP_SIZE, i, j);
    } else {
      Ordered(run[k], lo, lo + KHEAP_HEAP_SIZE, j, i);
    }
  }

  /** Releasing all live pointers, in whatever order, leaves one free block. */
  method FreeAll(h: Heap, ps: seq<word>)
    requires h.Valid()
    requires forall i :: 0 <= i < |ps| ==> h.IsLive(ps[i])
    requires forall i, j :: 0 <= i < j < |ps| ==> ps[i] != ps[j]
    requires forall b :: b in Live(h.blocks) ==> b.Payload() in ps
    modifies h
    ensures h.Valid() && h.base == old(h.base)
    ensures h.blocks == Initial(h.base)
  {
    hide Live, Tiles, Coalesced, NonEmpty, Release, LiveKept, ForwardLinked, BackLinkedBut;
    for n := 0 to |ps|
      invariant h.Valid() && h.base == old(h.base)
      invariant forall i :: n <= i < |ps| ==> h.IsLive(ps[i])
      invariant forall b :: b in Live(h.blocks) ==> b.Payload() in ps[n..]
    {
      assert h.IsLive(ps[n]);
      ghost var bs := h.blocks;
      LiveInHeap(bs, h.base, h.base + KHEAP_HEAP_SIZE, ps[n]);
      var o;
      ghost var k;
      o, k := h.KFree(ps[n]);
      OneFewer(bs, h.blocks, h.base, h.base + KHEAP_HEAP_SIZE, ps, n, k);
    }
    assert ps[|ps|..] == [];
    assert forall b :: b !in Live(h.blocks);
    NothingLive(h.blocks, h.base, h.base + KHEAP_HEAP_SIZE);
  }

  /** After the release of ps[n] the pointers behind it are still the live ones. */
  lemma OneFewer(bs: seq<Block>, cs: seq<Block>, lo: nat, hi: nat, ps: seq<word>, n: nat, k: nat)
    requires Tiles(bs, lo, hi) && n < |ps| && k < |bs| && bs[k].Payload() == ps[n]
    requires Live(cs) == Live(bs) - {bs[k]}
    requires forall i :: n <= i < |ps| ==> PointsToLive(bs, ps[i])
    requires forall i, j :: 0 <= i < j < |ps| ==> ps[i] != ps[j]
    requires forall b :: b in Live(bs) ==> b.Payload() in ps[n..]
    ensures forall i :: n + 1 <= i < |ps| ==> PointsToLive(cs, ps[i])
    ensures forall b :: b in Live(cs) ==> b.Payload() in ps[n + 1..]
  {
    hide Tiles, Live;
    forall i | n + 1 <= i < |ps| ensures PointsToLive(cs, ps[i]) {
      var l :| 0 <= l < |bs| && bs[l].Payload() == ps[i] && !bs[l].free;
      assert ps[n] != ps[i];
      IndexLive(bs, l);
      var m := LiveIndex(cs, bs[l]);
    }
    forall b | b in Live(cs) ensures b.Payload() in ps[n + 1..] {
      var l := LiveIndex(bs, b);
      OnlyAt(bs, lo, hi, k);
      assert l != k && b.Payload() != ps[n] && b.Payload() in ps[n..];
      assert ps[n..] == [ps[n]] + ps[n + 1..];
    }
  }

  /** Releasing what an unaligned kmalloc just returned restores the block list. */
  method MallocThenFree(h: Heap, size: word) returns (p: word)
    requires h.Valid() && NoWrap(h.blocks, size, false)
    modifies h
    ensures h.Valid() && h.blocks == old(h.blocks)
  {
    hide Allocate, Release, Live, Tiles, Coalesced, Refused, Candidates, Fitting, NoWrap, FirstSmallest, LiveKept, NonEmpty;
    hide ForwardLinked, BackLinkedBut, PointsToLive;
    ghost var bs, lo, hi := h.blocks, h.base as nat, h.base + KHEAP_HEAP_SIZE;
    ghost var i, k;
    p, i := h.KMallocHeap(size, false, false);
    if p == NULL {
      return;
    }
    ghost var cs := h.blocks;
    FreshPointer(cs, lo, hi, i);
    assert cs[i].Payload() == p;
    var o;
    o, k := h.KFree(p);
    AllocateThenRelease(bs, lo, hi, i, size);
  }

  lemma FreshPointer(cs: seq<Block>, lo: nat, hi: nat, i: nat)
    requires Tiles(cs, lo, hi) && NonEmpty(Live(cs)) && i < |cs| && cs[i] in Live(cs)
    ensures lo <= cs[i].Payload() < hi && PointsToLive(cs, cs[i].Payload())
    ensures forall k :: 0 <= k < |cs| && cs[k].Payload() == cs[i].Payload() ==> k == i
  {
    LiveNotFree(cs, i);
    SoleLive(cs, lo, hi, i);
    OnlyAt(cs, lo, hi, i);
  }

  // ----- concrete calls are steps -----

  ghost predicate EndsIn(run: seq<seq<Block>>, lo: nat, bs: seq<Block>) {
    IsRun(run, lo) && run[|run| - 1] == bs
  }

  lemma Extend(run: seq<seq<Block>>, lo: nat, bs: seq<Block>, cs: seq<Block>)
    requires EndsIn(run, lo, bs) && StepTo(bs, cs)
    ensures EndsIn(run + [cs], lo, cs)
  {
    hide StepTo;
    var r := run + [cs];
    forall i | 0 < i < |r| ensures StepTo(r[i - 1], r[i]) {
      if i < |run| { assert StepTo(run[i - 1], run[i]); }
    }
  }

  method DoMalloc(h: Heap, size: word, align: bool, zero: bool, ghost run: seq<seq<Block>>)
    returns (p: word, ghost run': seq<seq<Block>>)
    requires h.Valid() && SafeRequest(h.blocks, size, align) && EndsIn(run, h.base, h.blocks)
    modifies h`mem, h`tail, h`blocks
    ensures h.Valid() && EndsIn(run', h.base, h.blocks)
  {
    hide Served, EndsIn, Refused, Candidates, Fitting, NoWrap, Live;
    ghost var bs, i := h.blocks, 0;
    p, i := h.KMallocHeap(size, align, zero);
    assert StepTo(bs, h.blocks);
    Extend(run, h.base, bs, h.blocks);
    run' := run + [h.blocks];
  }

  method DoFree(h: Heap, p: word, ghost run: seq<seq<Block>>) returns (o: Outcome<()>, ghost run': seq<seq<Block>>)
    requires h.Valid() && h.NotForged(p) && EndsIn(run, h.base, h.blocks)
    modifies h`mem, h`tail, h`blocks
    ensures h.Valid() && EndsIn(run', h.base, h.blocks)
  {
    hide Served, EndsIn, Release, Live;
    ghost var bs, i := h.blocks, 0;
    o, i := h.KFree(p);
    assert StepTo(bs, h.blocks);
    Extend(run, h.base, bs, h.blocks);
    run' := run + [h.blocks];
  }

  /** A krealloc is no step, one step (of kmalloc), or two: a served request and a release. */
  method DoRealloc(h: Heap, p: word, size: word, align: bool, zero: bool, ghost run: seq<seq<Block>>)
    returns (o: Outcome<word>, ghost run': seq<seq<Block>>)
    requires h.Valid() && SafeRequest(h.blocks, size, align) && h.NotForged(p) && EndsIn(run, h.base, h.blocks)
    modifies h`mem, h`tail, h`blocks
    ensures h.Valid() && EndsIn(run', h.base, h.blocks)
  {
    hide EndsIn, Release, Live, Refused, SafeRequest, Served;
    ghost var bs, b, c := h.blocks, Block(0, 0, false), Block(0, 0, false);
    LiveInHeap(bs, h.base, h.base + KHEAP_HEAP_SIZE, p);
    o, b, c := h.KRealloc(p, size, align, zero);
    run' := run;
    if Moved(bs, h.blocks, b, size, align) && b in Live(bs) {
      ghost var cs: seq<Block>, i: nat, k: nat :|
        Served(bs, cs, i, size, align) && k < |cs| && cs[k] == b && h.blocks == Release(cs, k);
      assert StepTo(bs, cs);
      Extend(run, h.base, bs, cs);
      assert !b.free by { ghost var l := LiveIndex(bs, b); }
      assert StepTo(cs, h.blocks);
      Extend(run + [cs], h.base, cs, h.blocks);
      run' := run + [cs] + [h.blocks];
    } else if HandedOut(old(h.mem), h.mem, bs, h.blocks, c, size, align) {
      assert StepTo(bs, h.blocks);
      Extend(run, h.base, bs, h.blocks);
      run' := run + [h.blocks];
    }
  }

  // ----- krealloc of a released pointer -----

  /** No search sum can wrap for a request of this size, whatever the block list is. */
  lemma SmallNeverWraps(bs: seq<Block>, lo: nat, size: nat)
    requires Tiles(bs, lo, lo + KHEAP_HEAP_SIZE) && lo + KHEAP_HEAP_SIZE + SEARCH_OFFSET + size <= WORD
    ensures NoWrap(bs, size, false)
  {
    forall i | 0 <= i < |bs| ensures bs[i].addr + SEARCH_OFFSET + size < WORD {
      InRange(bs, lo, lo + KHEAP_HEAP_SIZE, i);
    }
  }

  /** Whether a release of block i merges it into the block before. */
  predicate MergesBack(bs: seq<Block>, i: nat) { 0 < i <= |bs| && bs[i - 1].free }

  /** A released block stays in the list, as a free block that is at least as large, exactly when it
      is not merged into the block before. */
  lemma ReleasedBlock(bs: seq<Block>, lo: nat, hi: nat, i: nat)
    requires Tiles(bs, lo, hi) && i < |bs|
    ensures MergesBack(bs, i) ==> forall k :: 0 <= k < |Release(bs, i)| ==> Release(bs, i)[k].Payload() != bs[i].Payload()
    ensures !MergesBack(bs, i) ==>
              i < |Release(bs, i)| && var b := Release(bs, i)[i]; b.addr == bs[i].addr && b.free && bs[i].size <= b.size
  {
    ReleaseTiles(bs, lo, hi, i);
    var cs := Release(bs, i);
    if MergesBack(bs, i) {
      assert Abut(bs, i - 1);
      assert cs[i - 1].addr == bs[i - 1].addr && bs[i].End() <= cs[i - 1].End();
      hide Release;
      forall k | 0 <= k < |cs| ensures cs[k].addr != bs[i].addr {
        if k < i - 1 { Ordered(cs, lo, hi, k, i - 1); }
        if k > i - 1 { Ordered(cs, lo, hi, i - 1, k); }
      }
    }
  }

  /** krealloc right after kfree of the same pointer: when the block was merged into the one before,
      the machine stops.  Otherwise it depends on the size: the dead pointer comes back as if it were
      live, or NULL, or the machine stops in the release that krealloc ends with. */
  method FreeThenRealloc(h: Heap, p: word, size: word) returns (o: Outcome<word>, ghost i: nat)
    requires h.Valid() && h.IsLive(p) && h.base + KHEAP_HEAP_SIZE + SEARCH_OFFSET + size <= WORD
    modifies h
    ensures h.Valid()
    ensures i < |old(h.blocks)| && old(h.blocks)[i].Payload() == p
    ensures MergesBack(old(h.blocks), i) ==> o.Panicked?
    ensures !MergesBack(old(h.blocks), i) ==>
              && i < |Release(old(h.blocks), i)|
              && var bs := Release(old(h.blocks), i);
                 && old(h.blocks)[i].size <= bs[i].size
                 && (o == Returned(p) <==> size <= bs[i].size)
                 && (o == Returned(NULL) <==> size > bs[i].size && Fitting(bs, size) == {})
                 && (o.Panicked? <==> size > bs[i].size && Fitting(bs, size) != {})
    ensures o == Returned(p) ==> !h.IsLive(p)
  {
    ghost var bs, lo, hi := h.blocks, h.base as nat, h.base + KHEAP_HEAP_SIZE;
    LiveInHeap(bs, lo, hi, p);
    hide Release, Live, Refused, SamePayload, LiveKept;
    var f;
    f, i := h.KFree(p);
    ghost var cs := h.blocks;
    ReleasedBlock(bs, lo, hi, i);
    SmallNeverWraps(cs, h.base, size);
    SearchIsExact(cs, lo, hi, size);
    RefusedUnaligned(cs, size);
    ghost var b, c;
    o, b, c := h.KRealloc(p, size, false, false);
    if !MergesBack(bs, i) { OnlyAt(cs, lo, hi, i); }
  }

  lemma RefusedUnaligned(bs: seq<Block>, size: word)
    ensures Refused(bs, size, false) <==> size == 0 || Candidates(bs, size, false) == {}
  {}

  // ----- where the code does not meet the plain promise -----

  /** A request near 2^32 makes the search sum wrap: the one free block of a fresh heap passes the
      search although it is far too small. */
  lemma WrappingRequestPasses(lo: nat)
    requires PAGE_SIZE <= lo && lo + KHEAP_HEAP_SIZE + SEARCH_OFFSET <= WORD
    ensures var bs := Initial(lo);
            var size := WORD - 1;
            && Layout(bs, lo, lo + KHEAP_HEAP_SIZE) && !NoWrap(bs, size, false)
            && 0 in Candidates(bs, size, false) && Fitting(bs, size) == {}
  {
    var bs := Initial(lo);
    assert bs[0].free;
  }

  /** The largest page-aligned request that a fresh heap serves leaves nothing over to split off. */
  lemma AlignedRequestCanUnlink(lo: nat)
    requires PAGE_SIZE <= lo && IsPageAligned(lo) && lo + KHEAP_HEAP_SIZE + SEARCH_OFFSET <= WORD
    ensures var bs := Initial(lo);
            var size := KHEAP_HEAP_SIZE - PAGE_SIZE;
            && NoWrap(bs, size, true) && FirstSmallest(bs, Candidates(bs, size, true), 0) && !Refused(bs, size, true)
            && CanAlign(bs, 0) && AlignedRoom(bs[0], size) && !KeepsBackLinks(bs[0], size)
  {
    FreshBlock(lo);
    hide AlignUp, IsPageAligned, Passes, AlignedRoom, KeepsBackLinks;
    var bs, size := Initial(lo), KHEAP_HEAP_SIZE - PAGE_SIZE;
    assert bs[0].free;
    assert forall i: nat :: i in Candidates(bs, size, true) <==> i == 0;
    RefusedAt(bs, size, true, 0);
  }

  lemma FreshBlock(lo: nat)
    requires PAGE_SIZE <= lo && IsPageAligned(lo) && lo + KHEAP_HEAP_SIZE + SEARCH_OFFSET <= WORD
    ensures var b := Initial(lo)[0];
            var size := KHEAP_HEAP_SIZE - PAGE_SIZE;
            && lo + KHEAP_HEAP_SIZE + PAGE_SIZE <= WORD
            && Passes(b, size, true) && AlignedRoom(b, size) && !KeepsBackLinks(b, size)
  {
    FreshPasses(lo);
    hide Passes;
    AlignsUp(lo, 2 * HEADER_SIZE);
    OffPage(lo, HEADER_SIZE);
    hide AlignUp, IsPageAligned;
    assert Padding(Initial(lo)[0]) == PAGE_SIZE - HEADER_SIZE;
  }

  lemma FreshPasses(lo: nat)
    requires PAGE_SIZE <= lo && IsPageAligned(lo) && lo + KHEAP_HEAP_SIZE + SEARCH_OFFSET <= WORD
    ensures lo + KHEAP_HEAP_SIZE + PAGE_SIZE <= WORD && Passes(Initial(lo)[0], KHEAP_HEAP_SIZE - PAGE_SIZE, true)
  {
    assert lo + KHEAP_HEAP_SIZE + PAGE_SIZE <= WORD;
    AlignsUp(lo, SEARCH_OFFSET + HEADER_SIZE);
    OffPage(lo, SEARCH_OFFSET);
    NoWrapBelow(lo + SEARCH_OFFSET);
    NoWrapBelow(lo + SEARCH_OFFSET + HEADER_SIZE);
    NoWrapBelow(lo + SEARCH_OFFSET + KHEAP_HEAP_SIZE - HEADER_SIZE);
    NoWrapBelow(lo + KHEAP_HEAP_SIZE);
    hide AlignUp, IsPageAligned, Wrap;
  }

  lemma AlignsUp(lo: nat, k: nat)
    requires IsPageAligned(lo) && 0 < k <= PAGE_SIZE && lo + 2 * PAGE_SIZE <= WORD
    ensures AlignUp(lo + k) == lo + PAGE_SIZE
  {}

  lemma OffPage(lo: nat, k: nat)
    requires IsPageAligned(lo) && 0 < k < PAGE_SIZE
    ensures !IsPageAligned(lo + k)
  {}

  lemma ServedFresh(lo: nat, cs: seq<Block>, i: nat, size: nat)
    requires IsPageAligned(lo) && lo + 2 * PAGE_SIZE <= WORD && Served(Initial(lo), cs, i, size, true)
    ensures i == 0 && TakenIndex(Initial(lo), i, true) == 1 < |cs| && cs[1].Payload() == lo + PAGE_SIZE
  {
    AlignsUp(lo, 2 * HEADER_SIZE);
    OffPage(lo, HEADER_SIZE);
    hide AlignUp, IsPageAligned;
  }

  /** That request succeeds and breaks the invariant of the heap: the tail still names the padding
      block. */
  method FirstAlignedRequest(h: Heap) returns (p: word)
    requires h.Valid() && h.blocks == Initial(h.base) && IsPageAligned(h.base)
    modifies h
    ensures p == h.base + PAGE_SIZE && h.Chained() && !h.Valid()
  {
    hide Passes, Candidates, NoWrap, Refused, Live, Coalesced, ForwardLinked, BackLinkedBut, Served, TakenIndex, FirstSmallest;
    hide Tiles, GrownBy, LiveKept, Initial, AlignedRoom, KeepsBackLinks, IsPageAligned;
    var size: word := KHEAP_HEAP_SIZE - PAGE_SIZE;
    ghost var bs, i := h.blocks, 0;
    AlignedRequestCanUnlink(h.base);
    p, i := h.KMallocHeap(size, true, false);
    ServedFresh(h.base, h.blocks, i, size);
  }
}
