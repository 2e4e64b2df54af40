/** The kernel heap: block headers in byte memory, linked both ways, with best-fit allocation,
    splitting, page-aligned splitting, coalescing release and reallocation. */
module KernelHeap {
  import opened Basics
  import opened Word32
  import opened Memory
  import opened HeapLayout
  import Placement

  const KHEAP_HEAP_SIZE: nat := 0x0200_0000
  const KHEAP_MAGIC: word := 0xD11E_F00D

  // ----- how headers in memory describe a block list -----

  ghost function NextAddr(bs: seq<Block>, i: nat): nat
    requires i < |bs|
  {
    if i + 1 < |bs| then bs[i + 1].addr else NULL
  }

  ghost function PrevAddr(bs: seq<Block>, i: nat): nat
    requires i < |bs|
  {
    if i > 0 then bs[i - 1].addr else NULL
  }

  /** The header at block i carries the magic, the size, the free flag and the next link. */
  ghost predicate Forward(m: Mem, bs: seq<Block>, i: nat)
    requires i < |bs|
  {
    && bs[i].addr + HEADER_SIZE <= WORD
    && var h := HeaderAt(m, bs[i].addr);
       h.magic == KHEAP_MAGIC && h.size == bs[i].size && h.free == (if bs[i].free then 1 else 0) && h.next == NextAddr(bs, i)
  }

  ghost predicate ForwardLinked(m: Mem, bs: seq<Block>) {
    forall i :: 0 <= i < |bs| ==> Forward(m, bs, i)
  }

  /** The back link of block i is right. */
  ghost predicate Back(m: Mem, bs: seq<Block>, i: nat)
    requires i < |bs|
  {
    bs[i].addr + HEADER_SIZE <= WORD && HeaderAt(m, bs[i].addr).prev == PrevAddr(bs, i)
  }

  /** Every back link but perhaps that of block k is right. */
  ghost predicate BackLinkedBut(m: Mem, bs: seq<Block>, k: int) {
    forall i :: 0 <= i < |bs| && i != k ==> Back(m, bs, i)
  }

  ghost predicate BackLinked(m: Mem, bs: seq<Block>) { BackLinkedBut(m, bs, -1) }

  /** What reading the header of block k gives. */
  lemma Fields(m: Mem, bs: seq<Block>, lo: nat, hi: nat, k: nat)
    requires Tiles(bs, lo, hi) && 0 < lo && hi < WORD && ForwardLinked(m, bs) && k < |bs|
    ensures lo <= bs[k].addr && bs[k].addr + HEADER_SIZE <= WORD && bs[k].End() <= hi && bs[k].addr != NULL
    ensures var h := HeaderAt(m, bs[k].addr);
            && Field(h, SIZE) == bs[k].size && (Field(h, FREE) != 0 <==> bs[k].free) && Field(h, NEXT) == NextAddr(bs, k)
            && h.size == bs[k].size && h.next == NextAddr(bs, k)
    ensures k + 1 < |bs| ==> bs[k + 1].addr == bs[k].End() && bs[k + 1].addr + HEADER_SIZE <= WORD
    ensures NextAddr(bs, k) == NULL <==> k + 1 == |bs|
  {
    assert Forward(m, bs, k);
    InRange(bs, lo, hi, k);
    if k + 1 < |bs| {
      assert Abut(bs, k);
      InRange(bs, lo, hi, k + 1);
    }
  }

  ghost predicate SamePayload(m: Mem, r: Mem, b: Block) {
    forall a {:trigger r[a]} :: b.Payload() <= a < b.End() && a < WORD ==> r[a] == m[a]
  }

  /** The payload bytes of every block but block i are the same in m and r. */
  ghost predicate PayloadsKeptBut(m: Mem, r: Mem, bs: seq<Block>, i: int) {
    forall k {:trigger SamePayload(m, r, bs[k])} :: 0 <= k < |bs| && k != i ==> SamePayload(m, r, bs[k])
  }

  lemma KeptSame(m: Mem, bs: seq<Block>)
    ensures PayloadsKeptBut(m, m, bs, -1)
  {}

  lemma KeptTwice(m: Mem, m1: Mem, r: Mem, bs: seq<Block>, cs: seq<Block>, i: int, j: int, k: int)
    requires |cs| == |bs| && forall l :: 0 <= l < |bs| ==> cs[l].addr == bs[l].addr && cs[l].size == bs[l].size
    requires PayloadsKeptBut(m, m1, bs, i) && PayloadsKeptBut(m1, r, cs, j) && (i == k || i == -1) && (j == k || j == -1)
    ensures PayloadsKeptBut(m, r, bs, k)
  {
    forall l | 0 <= l < |bs| && l != k ensures SamePayload(m, r, bs[l]) {
      assert SamePayload(m, m1, bs[l]) && SamePayload(m1, r, cs[l]);
    }
  }

  /** A write inside block i leaves the headers and payloads of all other blocks alone. */
  lemma InsideWrite(m: Mem, r: Mem, bs: seq<Block>, lo: nat, hi: nat, i: nat)
    requires Tiles(bs, lo, hi) && hi <= WORD && i < |bs|
    requires AgreeOutside(m, r, bs[i].addr, HEADER_SIZE + bs[i].size)
    ensures PayloadsKeptBut(m, r, bs, i)
    ensures forall k :: 0 <= k < |bs| && k != i ==>
              bs[k].addr + HEADER_SIZE <= WORD && HeaderAt(r, bs[k].addr) == HeaderAt(m, bs[k].addr)
  {
    forall k | 0 <= k < |bs| && k != i
      ensures SamePayload(m, r, bs[k])
      ensures bs[k].addr + HEADER_SIZE <= WORD && HeaderAt(r, bs[k].addr) == HeaderAt(m, bs[k].addr)
    {
      InRange(bs, lo, hi, k);
      if k < i { Ordered(bs, lo, hi, k, i); } else { Ordered(bs, lo, hi, i, k); }
      HeaderOutside(m, r, bs[i].addr, HEADER_SIZE + bs[i].size, bs[k].addr);
    }
  }

  /** A write to the header of block i leaves all payloads and all other headers alone. */
  lemma HeaderWrite(m: Mem, r: Mem, bs: seq<Block>, lo: nat, hi: nat, i: nat)
    requires Tiles(bs, lo, hi) && hi <= WORD && i < |bs|
    requires AgreeOutside(m, r, bs[i].addr, HEADER_SIZE)
    ensures PayloadsKeptBut(m, r, bs, -1)
    ensures forall k :: 0 <= k < |bs| && k != i ==>
              bs[k].addr + HEADER_SIZE <= WORD && HeaderAt(r, bs[k].addr) == HeaderAt(m, bs[k].addr)
  {
    InsideWrite(m, r, bs, lo, hi, i);
  }

  ghost predicate SameBack(m: Mem, r: Mem, bs: seq<Block>) {
    forall k :: 0 <= k < |bs| ==>
      bs[k].addr + HEADER_SIZE <= WORD && HeaderAt(r, bs[k].addr).prev == HeaderAt(m, bs[k].addr).prev
  }

  /** Setting or clearing the free flag of a block. */
  lemma FlagLinked(m: Mem, r: Mem, bs: seq<Block>, lo: nat, hi: nat, i: nat, f: bool)
    requires Tiles(bs, lo, hi) && i < |bs| && ForwardLinked(m, bs) && Forward(m, bs, i)
    requires HeaderAt(r, bs[i].addr) == HeaderAt(m, bs[i].addr).(free := if f then 1 else 0)
    requires forall j :: 0 <= j < |bs| && j != i ==>
               bs[j].addr + HEADER_SIZE <= WORD && HeaderAt(r, bs[j].addr) == HeaderAt(m, bs[j].addr)
    ensures var cs := bs[i := bs[i].(free := f)];
            && Tiles(cs, lo, hi) && ForwardLinked(r, cs) && SameBack(m, r, cs)
            && forall k :: BackLinkedBut(m, bs, k) ==> BackLinkedBut(r, cs, k)
  {
    var cs := bs[i := bs[i].(free := f)];
    forall k | 0 <= k < |cs| ensures Forward(r, cs, k) && (Back(m, bs, k) ==> Back(r, cs, k)) {
      assert Forward(m, bs, k);
    }
    forall k | 0 <= k < |cs| - 1 ensures Abut(cs, k) { assert Abut(bs, k); }
  }

  /** After a split the headers describe the new list. */
  lemma SplitLinked(m: Mem, r: Mem, bs: seq<Block>, i: nat, size: nat)
    requires i < |bs| && bs[i].size - size > HEADER_SIZE && bs[i].End() <= WORD
    requires ForwardLinked(m, bs) && BackLinkedBut(m, bs, i + 1)
    requires HeaderAt(r, bs[i].addr) ==
             HeaderAt(m, bs[i].addr).(size := size, free := 0, next := bs[i].addr + HEADER_SIZE + size)
    requires HeaderAt(r, bs[i].addr + HEADER_SIZE + size) ==
             Header(KHEAP_MAGIC, bs[i].size - size - HEADER_SIZE, 1, bs[i].addr, HeaderAt(m, bs[i].addr).next)
    requires i + 1 < |bs| ==>
               bs[i + 1].addr + HEADER_SIZE <= WORD && HeaderAt(r, bs[i + 1].addr) == HeaderAt(m, bs[i + 1].addr).(prev := bs[i].addr + HEADER_SIZE + size)
    requires forall j :: 0 <= j < |bs| && j != i && j != i + 1 ==>
               bs[j].addr + HEADER_SIZE <= WORD && HeaderAt(r, bs[j].addr) == HeaderAt(m, bs[j].addr)
    ensures ForwardLinked(r, Allocate(bs, i, size)) && BackLinked(r, Allocate(bs, i, size))
  {
    var cs := Allocate(bs, i, size);
    forall k | 0 <= k < |cs| ensures Forward(r, cs, k) && Back(r, cs, k) {
      if k < i {
        assert Forward(m, bs, k) && Back(m, bs, k) && cs[k] == bs[k];
      } else if k > i + 1 {
        assert Forward(m, bs, k - 1) && (k > i + 2 ==> Back(m, bs, k - 1)) && cs[k] == bs[k - 1];
      } else {
        assert Forward(m, bs, i) && Back(m, bs, i);
      }
    }
  }

  /** The first two groups of writes of a split: the new header and the back link to it. */
  lemma SplitFramed1(m: Mem, m1: Mem, m2: Mem, bs: seq<Block>, lo: nat, hi: nat, i: nat, size: nat)
    requires Tiles(bs, lo, hi) && hi <= WORD && i < |bs| && bs[i].size - size > HEADER_SIZE && bs[i].End() <= WORD
    requires HeaderWritten(m, m1, bs[i].addr + HEADER_SIZE + size,
               Header(KHEAP_MAGIC, bs[i].size - size - HEADER_SIZE, 1, bs[i].addr, HeaderAt(m, bs[i].addr).next))
    requires if i + 1 < |bs| then
               bs[i + 1].addr + HEADER_SIZE <= WORD
               && HeaderWritten(m1, m2, bs[i + 1].addr, HeaderAt(m1, bs[i + 1].addr).(prev := bs[i].addr + HEADER_SIZE + size))
             else m1 == m2
    ensures HeaderAt(m2, bs[i].addr) == HeaderAt(m, bs[i].addr)
    ensures HeaderAt(m2, bs[i].addr + HEADER_SIZE + size) ==
            Header(KHEAP_MAGIC, bs[i].size - size - HEADER_SIZE, 1, bs[i].addr, HeaderAt(m, bs[i].addr).next)
    ensures i + 1 < |bs| ==>
              HeaderAt(m2, bs[i + 1].addr) == HeaderAt(m, bs[i + 1].addr).(prev := bs[i].addr + HEADER_SIZE + size)
  {
    var rest := bs[i].addr + HEADER_SIZE + size;
    HeaderOutside(m, m1, rest, HEADER_SIZE, bs[i].addr);
    if i + 1 < |bs| {
      assert Abut(bs, i);
      HeaderOutside(m, m1, rest, HEADER_SIZE, bs[i + 1].addr);
      HeaderOutside(m1, m2, bs[i + 1].addr, HEADER_SIZE, bs[i].addr);
      HeaderOutside(m1, m2, bs[i + 1].addr, HEADER_SIZE, rest);
    }
  }

  /** A split touches block i and the header of block i + 1 only, and leaves the new list linked. */
  lemma SplitFramed2(m: Mem, m1: Mem, m2: Mem, r: Mem, bs: seq<Block>, lo: nat, hi: nat, i: nat, size: nat)
    requires Tiles(bs, lo, hi) && hi <= WORD && i < |bs| && bs[i].size - size > HEADER_SIZE && bs[i].End() <= WORD
    requires !bs[i].free && ForwardLinked(m, bs) && BackLinkedBut(m, bs, i + 1)
    requires AgreeOutside(m, m1, bs[i].addr, HEADER_SIZE + bs[i].size)
    requires if i + 1 < |bs| then AgreeOutside(m1, m2, bs[i + 1].addr, HEADER_SIZE) else m1 == m2
    requires HeaderWritten(m2, r, bs[i].addr,
               HeaderAt(m, bs[i].addr).(size := size, next := bs[i].addr + HEADER_SIZE + size))
    requires HeaderAt(m2, bs[i].addr + HEADER_SIZE + size) ==
             Header(KHEAP_MAGIC, bs[i].size - size - HEADER_SIZE, 1, bs[i].addr, HeaderAt(m, bs[i].addr).next)
    requires i + 1 < |bs| ==>
               bs[i + 1].addr + HEADER_SIZE <= WORD
               && HeaderAt(m2, bs[i + 1].addr) == HeaderAt(m, bs[i + 1].addr).(prev := bs[i].addr + HEADER_SIZE + size)
    ensures Tiles(Allocate(bs, i, size), lo, hi)
    ensures ForwardLinked(r, Allocate(bs, i, size)) && BackLinked(r, Allocate(bs, i, size))
    ensures PayloadsKeptBut(m, r, bs, i)
  {
    HeaderOutside(m2, r, bs[i].addr, HEADER_SIZE, bs[i].addr + HEADER_SIZE + size);
    AllocateTiles(bs, lo, hi, i, size);
    InsideWrite(m, m1, bs, lo, hi, i);
    InsideWrite(m2, r, bs, lo, hi, i);
    if i + 1 < |bs| {
      HeaderWrite(m1, m2, bs, lo, hi, i + 1);
      KeptTwice(m, m1, m2, bs, bs, i, -1, i);
    }
    KeptTwice(m, m2, r, bs, bs, i, i, i);
    assert Forward(m, bs, i);
    SplitLinked(m, r, bs, i, size);
  }

  /** The three groups of writes of a split together. */
  lemma SplitFramed(m: Mem, m1: Mem, m2: Mem, r: Mem, bs: seq<Block>, lo: nat, hi: nat, i: nat, size: nat)
    requires Tiles(bs, lo, hi) && hi <= WORD && i < |bs| && bs[i].size - size > HEADER_SIZE && bs[i].End() <= WORD
    requires !bs[i].free && ForwardLinked(m, bs) && BackLinkedBut(m, bs, i + 1)
    requires HeaderWritten(m, m1, bs[i].addr + HEADER_SIZE + size,
               Header(KHEAP_MAGIC, bs[i].size - size - HEADER_SIZE, 1, bs[i].addr, HeaderAt(m, bs[i].addr).next))
    requires if i + 1 < |bs| then
               bs[i + 1].addr + HEADER_SIZE <= WORD
               && HeaderWritten(m1, m2, bs[i + 1].addr, WithField(HeaderAt(m1, bs[i + 1].addr), PREV, bs[i].addr + HEADER_SIZE + size))
             else m1 == m2
    requires HeaderWritten(m2, r, bs[i].addr,
               WithField(WithField(HeaderAt(m2, bs[i].addr), SIZE, size), NEXT, bs[i].addr + HEADER_SIZE + size))
    ensures Tiles(Allocate(bs, i, size), lo, hi)
    ensures ForwardLinked(r, Allocate(bs, i, size)) && BackLinked(r, Allocate(bs, i, size))
    ensures PayloadsKeptBut(m, r, bs, i)
  {
    hide Tiles, ForwardLinked, BackLinkedBut, Allocate, PayloadsKeptBut;
    SplitFramed1(m, m1, m2, bs, lo, hi, i, size);
    SplitFramed2(m, m1, m2, r, bs, lo, hi, i, size);
  }

  /** After the front of block i is cut off the headers describe the new list, but for the back
      link of the old successor. */
  lemma CutLinked(m: Mem, r: Mem, bs: seq<Block>, i: nat, padding: nat)
    requires i < |bs| && HEADER_SIZE <= padding <= bs[i].size && bs[i].End() <= WORD
    requires ForwardLinked(m, bs) && BackLinked(m, bs)
    requires HeaderAt(r, bs[i].addr) ==
             HeaderAt(m, bs[i].addr).(size := padding - HEADER_SIZE, free := 1, next := bs[i].addr + padding)
    requires HeaderAt(r, bs[i].addr + padding) ==
             Header(KHEAP_MAGIC, bs[i].size - padding, 1, bs[i].addr, HeaderAt(m, bs[i].addr).next)
    requires forall j :: 0 <= j < |bs| && j != i ==>
               bs[j].addr + HEADER_SIZE <= WORD && HeaderAt(r, bs[j].addr) == HeaderAt(m, bs[j].addr)
    ensures var cs := CutPadding(bs, i, padding); ForwardLinked(r, cs) && BackLinkedBut(r, cs, i + 2)
  {
    var cs := CutPadding(bs, i, padding);
    forall k | 0 <= k < |cs| ensures Forward(r, cs, k) && (k != i + 2 ==> Back(r, cs, k)) {
      if k < i {
        assert Forward(m, bs, k) && Back(m, bs, k) && cs[k] == bs[k];
      } else if k > i + 1 {
        assert Forward(m, bs, k - 1) && Back(m, bs, k - 1) && cs[k] == bs[k - 1];
      } else {
        assert Forward(m, bs, i) && Back(m, bs, i);
      }
    }
  }

  /** Cutting the front off writes inside block i only. */
  lemma CutFramed(m: Mem, m1: Mem, r: Mem, bs: seq<Block>, lo: nat, hi: nat, i: nat, padding: nat)
    requires Tiles(bs, lo, hi) && hi <= WORD && i < |bs| && HEADER_SIZE <= padding <= bs[i].size && bs[i].End() <= WORD
    requires ForwardLinked(m, bs) && BackLinked(m, bs)
    requires HeaderWritten(m, m1, bs[i].addr + padding,
               Header(KHEAP_MAGIC, bs[i].size - padding, 1, bs[i].addr, HeaderAt(m, bs[i].addr).next))
    requires HeaderWritten(m1, r, bs[i].addr,
               HeaderAt(m, bs[i].addr).(size := padding - HEADER_SIZE, free := 1, next := bs[i].addr + padding))
    ensures var cs := CutPadding(bs, i, padding);
            && Tiles(cs, lo, hi) && ForwardLinked(r, cs) && BackLinkedBut(r, cs, i + 2)
            && (i + 2 < |cs| ==> cs[i + 2].addr + HEADER_SIZE <= WORD && HeaderAt(r, cs[i + 2].addr).prev == bs[i].addr)
    ensures PayloadsKeptBut(m, r, bs, i)
  {
    HeaderOutside(m1, r, bs[i].addr, HEADER_SIZE, bs[i].addr + padding);
    CutPaddingTiles(bs, lo, hi, i, padding);
    InsideWrite(m, r, bs, lo, hi, i);
    CutLinked(m, r, bs, i, padding);
    if i + 1 < |bs| { assert Back(m, bs, i + 1); }
  }

  lemma KeptThroughCut(m: Mem, m1: Mem, r: Mem, bs: seq<Block>, i: nat, padding: nat)
    requires i < |bs| && HEADER_SIZE <= padding <= bs[i].size
    requires PayloadsKeptBut(m, m1, bs, i) && PayloadsKeptBut(m1, r, CutPadding(bs, i, padding), i + 1)
    ensures PayloadsKeptBut(m, r, bs, i)
  {
    var cs := CutPadding(bs, i, padding);
    forall k | 0 <= k < |bs| && k != i ensures SamePayload(m, r, bs[k]) {
      assert SamePayload(m, m1, bs[k]) && SamePayload(m1, r, cs[if k < i then k else k + 1]);
    }
  }

  /** Marking a block used without a split keeps the back links right. */
  lemma TakeBack(m: Mem, r: Mem, bs: seq<Block>, i: nat, size: nat)
    requires i < |bs| && size <= bs[i].size && BackLinked(m, bs)
    ensures bs[i].size - size <= HEADER_SIZE && SameBack(m, r, Allocate(bs, i, size)) ==> BackLinked(r, Allocate(bs, i, size))
  {
    var cs := Allocate(bs, i, size);
    if bs[i].size - size <= HEADER_SIZE && SameBack(m, r, cs) {
      forall k | 0 <= k < |cs| ensures Back(r, cs, k) {
        assert Back(m, bs, k);
      }
    }
  }

  /** Whether an aligned allocation from b leaves the back links and the tail right. */
  predicate KeepsBackLinks(b: Block, size: nat)
    requires b.Payload() + HEADER_SIZE + PAGE_SIZE <= WORD
  {
    IsPageAligned(b.Payload()) || b.size - Padding(b) - size > HEADER_SIZE
  }

  predicate CanAlign(bs: seq<Block>, i: nat) {
    i < |bs| && bs[i].Payload() + HEADER_SIZE + PAGE_SIZE <= WORD
  }

  function TakenIndex(bs: seq<Block>, i: nat, align: bool): nat
    requires i < |bs|
  {
    if align then AlignedIndex(bs, i) else i
  }

  /** After an aligned allocation the back links and the tail are right exactly when the guard
      holds: without the leftover split nothing relinks the old successor or the tail. */
  lemma AlignedLinks(m1: Mem, r: Mem, bs: seq<Block>, ds: seq<Block>, tail0: nat, tail: nat, i: nat, size: nat)
    requires i < |bs| && bs[i].Payload() + HEADER_SIZE + PAGE_SIZE <= WORD
    requires !IsPageAligned(bs[i].Payload()) && AlignedRoom(bs[i], size)
    requires ds == Allocate(CutPadding(bs, i, Padding(bs[i])), i + 1, size)
    requires tail0 == bs[|bs| - 1].addr
    requires bs[i].size - Padding(bs[i]) - size > HEADER_SIZE ==>
               BackLinked(r, ds) && tail == (if i + 1 == |bs| then ds[i + 2].addr else tail0)
    requires bs[i].size - Padding(bs[i]) - size <= HEADER_SIZE ==> tail == tail0 && SameBack(m1, r, ds)
    requires i + 1 < |bs| ==> bs[i + 1].addr + HEADER_SIZE <= WORD && HeaderAt(m1, bs[i + 1].addr).prev == bs[i].addr
    ensures ds == AllocateAligned(bs, i, size)
    ensures i + 1 < |ds| && ds[i + 1].addr == bs[i].addr + Padding(bs[i])
    ensures BackLinked(r, ds) && tail == ds[|ds| - 1].addr <==> KeepsBackLinks(bs[i], size)
  {
    hide AlignUp, IsPageAligned;
    if bs[i].size - Padding(bs[i]) - size <= HEADER_SIZE && i + 1 < |bs| {
      assert ds[i + 2] == bs[i + 1];
      assert !Back(r, ds, i + 2);
    }
  }

  /** cs is bs after a request was served from block i. */
  ghost predicate Served(bs: seq<Block>, cs: seq<Block>, i: nat, size: nat, align: bool) {
    && i < |bs| && bs[i].free && size <= bs[i].size
    && (align ==> CanAlign(bs, i) && AlignedRoom(bs[i], size))
    && cs == (if align then AllocateAligned(bs, i, size) else Allocate(bs, i, size))
    && TakenIndex(bs, i, align) < |cs|
  }

  /** No block serves the request: there is no candidate, or the one the search settles on has no
      room for the padding. */
  ghost predicate Refused(bs: seq<Block>, size: word, align: bool) {
    || size == 0
    || Candidates(bs, size, align) == {}
    || (align && exists i: nat ::
          FirstSmallest(bs, Candidates(bs, size, align), i) && CanAlign(bs, i) && !AlignedRoom(bs[i], size))
  }

  /** The search settles on one block, so that this block decides. */
  lemma RefusedAt(bs: seq<Block>, size: word, align: bool, i: nat)
    requires size != 0 && Candidates(bs, size, align) != {} ==> FirstSmallest(bs, Candidates(bs, size, align), i)
    ensures Refused(bs, size, align) <==>
            size == 0 || Candidates(bs, size, align) == {} || (align && CanAlign(bs, i) && !AlignedRoom(bs[i], size))
  {}

  /** An aligned request is refused when no block passes the search, or when the one it settles on
      has no page boundary that fits. */
  lemma RefusedAligned(bs: seq<Block>, lo: nat, hi: nat, size: word, i: nat)
    requires Tiles(bs, lo, hi) && hi + SEARCH_OFFSET <= WORD && NoWrap(bs, size, true)
    requires size != 0 && Candidates(bs, size, true) != {} ==> FirstSmallest(bs, Candidates(bs, size, true), i)
    ensures Candidates(bs, size, true) == AlignedFitting(bs, size)
    ensures Refused(bs, size, true) <==>
            || size == 0
            || AlignedFitting(bs, size) == {}
            || (FirstSmallest(bs, AlignedFitting(bs, size), i) && !AlignedSpan(bs[i].Payload(), bs[i].size, size))
  {
    AlignedSearchIsExact(bs, lo, hi, size);
    RefusedAt(bs, size, true, i);
    if size != 0 && Candidates(bs, size, true) != {} {
      CandidateHasRoom(bs, lo, hi, i, size, true);
      AlignedRoomIs(bs[i], size);
    }
    hide Candidates, AlignedFitting, AlignedSpan, AlignedRoom, Refused;
  }

  /** Which blocks fit an unaligned request, and which of them is the first of the smallest. */
  lemma UnalignedChoice(bs: seq<Block>, size: nat, i: nat)
    ensures Fitting(bs, size) == {} <==> forall k :: 0 <= k < |bs| ==> !bs[k].free || bs[k].size < size
    ensures FirstSmallest(bs, Fitting(bs, size), i) <==>
              && i < |bs| && bs[i].free && size <= bs[i].size
              && forall k :: 0 <= k < |bs| && bs[k].free && size <= bs[k].size ==>
                   bs[i].size < bs[k].size || (bs[i].size == bs[k].size && i <= k)
  {
    forall k: nat | k < |bs| ensures k in Fitting(bs, size) <==> bs[k].free && size <= bs[k].size {}
    if Fitting(bs, size) != {} {
      var k :| k in Fitting(bs, size);
      assert bs[k].free && size <= bs[k].size;
    }
  }

  /** Both kinds of requests at once. */
  lemma RefusedFacts(bs: seq<Block>, lo: nat, hi: nat, size: word, align: bool, i: nat)
    requires Tiles(bs, lo, hi) && hi + SEARCH_OFFSET <= WORD && NoWrap(bs, size, align)
    requires size != 0 && Candidates(bs, size, align) != {} ==> FirstSmallest(bs, Candidates(bs, size, align), i)
    ensures Candidates(bs, size, align) == if align then AlignedFitting(bs, size) else Fitting(bs, size)
    ensures Refused(bs, size, align) <==>
            size == 0 || Candidates(bs, size, align) == {} || (align && CanAlign(bs, i) && !AlignedRoom(bs[i], size))
    ensures !align ==> (Refused(bs, size, align) <==> size == 0 || Fitting(bs, size) == {})
    ensures align ==>
              (Refused(bs, size, align) <==>
                 || size == 0
                 || AlignedFitting(bs, size) == {}
                 || (FirstSmallest(bs, AlignedFitting(bs, size), i) && !AlignedSpan(bs[i].Payload(), bs[i].size, size)))
  {
    hide Tiles, NoWrap, Candidates, AlignedFitting, Fitting, AlignedSpan, AlignedRoom, Refused, FirstSmallest;
    RefusedAt(bs, size, align, i);
    if align { RefusedAligned(bs, lo, hi, size, i); } else { SearchIsExact(bs, lo, hi, size); }
  }

  /** Where the block that serves a request starts, and how large it is. */
  lemma ServedShape(bs: seq<Block>, cs: seq<Block>, i: nat, size: nat, align: bool)
    requires Served(bs, cs, i, size, align)
    ensures var b, c := bs[i], cs[TakenIndex(bs, i, align)];
            && (!align || IsPageAligned(b.Payload()) ==> c.addr == b.addr)
            && (align && !IsPageAligned(b.Payload()) ==> 20 <= c.addr - b.addr < 20 + 4096)
            && c.size == if b.End() - c.Payload() - size > 20 then size else b.End() - c.Payload()
  {
    hide IsPageAligned, Padding;
  }

  ghost predicate NonEmpty(live: set<Block>) {
    forall b :: b in live ==> b.size > 0
  }

  ghost predicate LiveKept(m: Mem, r: Mem, live: set<Block>) {
    forall b :: b in live ==> SamePayload(m, r, b)
  }

  /** The payload of c is zero from byte n on. */
  ghost predicate ZeroFrom(m: Mem, c: Block, n: nat) {
    forall a :: c.Payload() + n <= a < c.End() && a < WORD ==> m[a] == 0
  }

  /** A copy into the first n bytes of a zeroed payload leaves the rest zero. */
  lemma ZeroStays(m1: Mem, m2: Mem, r: Mem, c: Block, n: nat)
    requires ZeroFrom(m1, c, 0) && AgreeOutside(m1, m2, c.Payload(), n) && SamePayload(m2, r, c)
    ensures ZeroFrom(r, c, n)
  {
    forall a | c.Payload() + n <= a < c.End() && a < WORD ensures r[a] == 0 {
      assert r[a] == m2[a] && m2[a] == m1[a];
    }
  }

  lemma KeptLive(m: Mem, r: Mem, bs: seq<Block>, i: nat)
    requires i < |bs| && bs[i].free && PayloadsKeptBut(m, r, bs, i)
    ensures LiveKept(m, r, Live(bs))
  {
    forall b | b in Live(bs) ensures SamePayload(m, r, b) {
      var k :| 0 <= k < |bs| && bs[k] == b;
      assert k != i && SamePayload(m, r, bs[k]);
    }
  }

  /** cs has exactly one more live block than bs, namely block t. */
  ghost predicate GrownBy(bs: seq<Block>, cs: seq<Block>, t: nat) {
    t < |cs| && Live(cs) == Live(bs) + {cs[t]} && cs[t] !in Live(bs)
  }

  lemma ServedLayout(bs: seq<Block>, cs: seq<Block>, lo: nat, hi: nat, i: nat, size: nat, align: bool)
    requires Layout(bs, lo, hi) && Served(bs, cs, i, size, align)
    ensures Layout(cs, lo, hi)
    ensures var t := TakenIndex(bs, i, align);
            GrownBy(bs, cs, t) && size <= cs[t].size && (align ==> IsPageAligned(cs[t].Payload()))
  {
    if align {
      AllocateAlignedKeepsLayout(bs, lo, hi, i, size);
    } else {
      AllocateKeepsLayout(bs, lo, hi, i, size);
      AllocateTiles(bs, lo, hi, i, size);
    }
  }

  /** A write to the payload of block i leaves all headers and all other payloads alone. */
  lemma PayloadWrite(m: Mem, r: Mem, bs: seq<Block>, lo: nat, hi: nat, i: nat)
    requires Tiles(bs, lo, hi) && hi <= WORD && i < |bs|
    requires AgreeOutside(m, r, bs[i].Payload(), bs[i].size)
    ensures PayloadsKeptBut(m, r, bs, i)
    ensures ForwardLinked(m, bs) ==> ForwardLinked(r, bs)
    ensures BackLinked(m, bs) <==> BackLinked(r, bs)
  {
    InsideWrite(m, r, bs, lo, hi, i);
    InRange(bs, lo, hi, i);
    HeaderOutside(m, r, bs[i].Payload(), bs[i].size, bs[i].addr);
    forall k | 0 <= k < |bs|
      ensures (Forward(m, bs, k) ==> Forward(r, bs, k)) && (Back(m, bs, k) <==> Back(r, bs, k))
    {
      assert bs[k].addr + HEADER_SIZE <= WORD && HeaderAt(r, bs[k].addr) == HeaderAt(m, bs[k].addr);
    }
  }

  lemma KeptAfterFill(m: Mem, m1: Mem, r: Mem, bs: seq<Block>, cs: seq<Block>, t: nat)
    requires LiveKept(m, m1, Live(bs)) && GrownBy(bs, cs, t) && PayloadsKeptBut(m1, r, cs, t)
    ensures LiveKept(m, r, Live(bs))
  {
    forall b | b in Live(bs) ensures SamePayload(m, r, b) {
      assert b in Live(cs);
      var k :| 0 <= k < |cs| && cs[k] == b;
      assert k != t && SamePayload(m1, r, cs[k]);
    }
  }

  /** After a merge the headers describe the new list. */
  lemma MergeLinked(m: Mem, r: Mem, bs: seq<Block>, i: nat)
    requires i + 1 < |bs| && bs[i].free
    requires ForwardLinked(m, bs) && BackLinked(m, bs)
    requires bs[i].addr + HEADER_SIZE <= WORD && bs[i + 1].addr + HEADER_SIZE <= WORD
    requires bs[i].size + HEADER_SIZE + bs[i + 1].size < WORD
    requires HeaderAt(r, bs[i].addr) ==
             HeaderAt(m, bs[i].addr).(size := bs[i].size + HEADER_SIZE + bs[i + 1].size, next := HeaderAt(m, bs[i + 1].addr).next)
    requires i + 2 < |bs| ==>
               bs[i + 2].addr + HEADER_SIZE <= WORD
               && HeaderAt(r, bs[i + 2].addr) == HeaderAt(m, bs[i + 2].addr).(prev := bs[i].addr)
    requires forall j :: 0 <= j < |bs| && j != i && j != i + 1 && j != i + 2 ==>
               bs[j].addr + HEADER_SIZE <= WORD && HeaderAt(r, bs[j].addr) == HeaderAt(m, bs[j].addr)
    ensures ForwardLinked(r, Merge(bs, i)) && BackLinked(r, Merge(bs, i))
  {
    var cs := Merge(bs, i);
    forall k | 0 <= k < |cs| ensures Forward(r, cs, k) && Back(r, cs, k) {
      if k < i {
        assert Forward(m, bs, k) && Back(m, bs, k) && cs[k] == bs[k];
      } else if k > i {
        assert Forward(m, bs, k + 1) && Back(m, bs, k + 1) && cs[k] == bs[k + 1];
      } else {
        assert Forward(m, bs, i) && Back(m, bs, i) && Forward(m, bs, i + 1);
      }
    }
  }

  lemma MergeFacts(m: Mem, bs: seq<Block>, lo: nat, hi: nat, i: nat)
    requires Tiles(bs, lo, hi) && 0 < lo && hi < WORD && i + 1 < |bs| && ForwardLinked(m, bs)
    ensures bs[i].addr + HEADER_SIZE <= bs[i + 1].addr && bs[i + 1].addr + HEADER_SIZE <= WORD
    ensures bs[i].size + HEADER_SIZE + bs[i + 1].size < WORD
    ensures HeaderAt(m, bs[i].addr).size == bs[i].size && HeaderAt(m, bs[i + 1].addr).size == bs[i + 1].size
    ensures HeaderAt(m, bs[i + 1].addr).next == if i + 2 < |bs| then bs[i + 2].addr else NULL
    ensures i + 2 < |bs| ==> 0 < bs[i + 2].addr && bs[i + 2].addr + HEADER_SIZE <= WORD
    ensures var cs := Merge(bs, i); cs[|cs| - 1].addr == if i + 2 < |bs| then bs[|bs| - 1].addr else bs[i].addr
  {
    assert Forward(m, bs, i) && Forward(m, bs, i + 1) && Abut(bs, i);
    InRange(bs, lo, hi, i + 1);
    if i + 2 < |bs| { InRange(bs, lo, hi, i + 2); }
  }

  /** A merge touches the headers of blocks i, i + 1 and i + 2 only. */
  lemma MergeFramed(m: Mem, m1: Mem, m2: Mem, r: Mem, bs: seq<Block>, lo: nat, hi: nat, i: nat)
    requires Tiles(bs, lo, hi) && hi < WORD && i + 1 < |bs| && bs[i].free
    requires ForwardLinked(m, bs) && BackLinked(m, bs)
    requires bs[i].addr + HEADER_SIZE <= WORD && bs[i + 1].addr + HEADER_SIZE <= WORD
    requires bs[i].size + HEADER_SIZE + bs[i + 1].size < WORD
    requires HeaderWritten(m, m1, bs[i].addr,
               HeaderAt(m, bs[i].addr).(size := bs[i].size + HEADER_SIZE + bs[i + 1].size, next := HeaderAt(m, bs[i + 1].addr).next))
    requires HeaderWritten(m1, m2, bs[i + 1].addr, HeaderAt(m1, bs[i + 1].addr).(magic := 0))
    requires if i + 2 < |bs| then
               bs[i + 2].addr + HEADER_SIZE <= WORD
               && HeaderWritten(m2, r, bs[i + 2].addr, HeaderAt(m2, bs[i + 2].addr).(prev := bs[i].addr))
             else r == m2
    ensures Tiles(Merge(bs, i), lo, hi) && ForwardLinked(r, Merge(bs, i)) && BackLinked(r, Merge(bs, i))
    ensures PayloadsKeptBut(m, r, bs, -1)
    ensures HeaderAt(r, bs[i + 1].addr).magic == 0
  {
    MergeTiles(bs, lo, hi, i);
    HeaderWrite(m, m1, bs, lo, hi, i);
    HeaderWrite(m1, m2, bs, lo, hi, i + 1);
    KeptTwice(m, m1, m2, bs, bs, -1, -1, -1);
    if i + 2 < |bs| {
      HeaderWrite(m2, r, bs, lo, hi, i + 2);
      KeptTwice(m, m2, r, bs, bs, -1, -1, -1);
    }
    MergeLinked(m, r, bs, i);
  }

  /** The payload bytes of live blocks survive the three steps of a release. */
  lemma ReleaseKept(m: Mem, m1: Mem, m2: Mem, r: Mem, bs: seq<Block>, lo: nat, hi: nat, i: nat)
    requires Tiles(bs, lo, hi) && i < |bs|
    requires var b1 := bs[i := bs[i].(free := true)];
             && PayloadsKeptBut(m, m1, bs, -1)
             && PayloadsKeptBut(m1, m2, b1, -1)
             && PayloadsKeptBut(m2, r, MergeBack(b1, i), -1)
    ensures LiveKept(m, r, Live(bs))
  {
    var b1 := bs[i := bs[i].(free := true)];
    var b2 := MergeBack(b1, i);
    forall b | b in Live(bs) ensures SamePayload(m, r, b) {
      var k := LiveIndex(bs, b);
      var l := MergedInto(bs, lo, hi, i, k);
      hide Tiles, MergeBack, SamePayload;
      assert SamePayload(m, m1, bs[k]) && SamePayload(m1, m2, b1[k]) && SamePayload(m2, r, b2[l]);
      KeptWithin(m, m1, m2, r, b, b1[k], b2[l]);
    }
  }

  /** Where the payload of a live block lies after the merge with the block before block i. */
  lemma MergedInto(bs: seq<Block>, lo: nat, hi: nat, i: nat, k: nat) returns (l: nat)
    requires Tiles(bs, lo, hi) && i < |bs| && k < |bs| && !bs[k].free
    ensures var b2 := MergeBack(bs[i := bs[i].(free := true)], i);
            l < |b2| && b2[l].Payload() <= bs[k].Payload() && bs[k].End() <= b2[l].End()
  {
    var b1 := bs[i := bs[i].(free := true)];
    assert b1[k].addr == bs[k].addr && b1[k].size == bs[k].size;
    if i > 0 && bs[i - 1].free {
      assert Abut(bs, i - 1) && k != i - 1;
      hide Tiles;
      l := if k < i then k else k - 1;
      if k == i {
        assert Merge(b1, i - 1)[l].addr == bs[i - 1].addr && Merge(b1, i - 1)[l].End() == bs[i].End();
      } else {
        assert Merge(b1, i - 1)[l] == b1[k];
      }
    } else {
      l := k;
    }
  }

  lemma KeptWithin(m: Mem, m1: Mem, m2: Mem, r: Mem, b: Block, b1: Block, b2: Block)
    requires SamePayload(m, m1, b) && SamePayload(m1, m2, b1) && SamePayload(m2, r, b2)
    requires b1.addr == b.addr && b1.size == b.size && b2.Payload() <= b.Payload() && b.End() <= b2.End()
    ensures SamePayload(m, r, b)
  {}

  lemma NextAfterBack(bs: seq<Block>, i: nat)
    requires i < |bs| && bs[i].free
    ensures var j := BackIndex(bs, i);
            var cs := MergeBack(bs, i);
            j < |cs| && cs[j].free && NextAddr(cs, j) == NextAddr(bs, i)
    ensures BackIndex(bs, i) != i ==> i > 0
    ensures i > 0 && bs[i - 1].free ==> BackIndex(bs, i) == i - 1
  {}

  /** The header of a released block is either still a block of the list or has lost its magic. */
  lemma ReleasedHeader(m2: Mem, r: Mem, bs: seq<Block>, lo: nat, hi: nat, i: nat)
    requires Tiles(bs, lo, hi) && hi <= WORD && i < |bs|
    requires bs[i].addr + HEADER_SIZE <= WORD
    requires i > 0 && bs[i - 1].free ==> HeaderAt(m2, bs[i].addr).magic == 0
    requires PayloadsKeptBut(m2, r, MergeBack(bs[i := bs[i].(free := true)], i), -1)
    ensures HeaderAt(r, bs[i].addr).magic != KHEAP_MAGIC
            || exists k :: 0 <= k < |Release(bs, i)| && Release(bs, i)[k].addr == bs[i].addr
  {
    var b1 := bs[i := bs[i].(free := true)];
    var b2 := MergeBack(b1, i);
    if i > 0 && bs[i - 1].free {
      assert Abut(bs, i - 1);
      assert SamePayload(m2, r, b2[i - 1]);
      InRange(bs, lo, hi, i);
      HeaderSame(m2, r, bs[i].addr);
    } else {
      assert Release(bs, i)[i].addr == bs[i].addr;
    }
  }

  lemma ReleaseDone(m: Mem, m1: Mem, m2: Mem, r: Mem, bs: seq<Block>, lo: nat, hi: nat, i: nat)
    requires Layout(bs, lo, hi) && hi <= WORD && i < |bs| && !bs[i].free
    requires var b1 := bs[i := bs[i].(free := true)];
             && PayloadsKeptBut(m, m1, bs, -1)
             && PayloadsKeptBut(m1, m2, b1, -1)
             && PayloadsKeptBut(m2, r, MergeBack(b1, i), -1)
    requires bs[i].addr + HEADER_SIZE <= WORD
    requires i > 0 && bs[i - 1].free ==> HeaderAt(m2, bs[i].addr).magic == 0
    ensures var b1 := bs[i := bs[i].(free := true)]; Release(bs, i) == MergeForward(MergeBack(b1, i), BackIndex(b1, i))
    ensures Layout(Release(bs, i), lo, hi)
    ensures Live(Release(bs, i)) == Live(bs) - {bs[i]}
    ensures LiveKept(m, r, Live(bs))
    ensures HeaderAt(r, bs[i].addr).magic != KHEAP_MAGIC
            || exists k :: 0 <= k < |Release(bs, i)| && Release(bs, i)[k].addr == bs[i].addr
  {
    ReleaseKeepsLayout(bs, lo, hi, i);
    ReleaseKept(m, m1, m2, r, bs, lo, hi, i);
    ReleasedHeader(m2, r, bs, lo, hi, i);
  }

  lemma LiveInHeap(bs: seq<Block>, lo: nat, hi: nat, p: nat)
    requires Tiles(bs, lo, hi) && NonEmpty(Live(bs))
    ensures forall k :: 0 <= k < |bs| && bs[k].Payload() == p ==> lo + HEADER_SIZE <= p <= hi
    ensures forall k :: 0 <= k < |bs| && bs[k].Payload() == p && !bs[k].free ==> p < hi
  {
    forall k | 0 <= k < |bs| && bs[k].Payload() == p ensures lo + HEADER_SIZE <= p <= hi && (!bs[k].free ==> p < hi) {
      InRange(bs, lo, hi, k);
      assert bs[k].free || bs[k] in Live(bs);
    }
  }

  lemma OnlyAt(bs: seq<Block>, lo: nat, hi: nat, i: nat)
    requires Tiles(bs, lo, hi) && i < |bs|
    ensures forall k :: 0 <= k < |bs| && bs[k].Payload() == bs[i].Payload() ==> k == i
  {
    forall k | 0 <= k < |bs| && bs[k].Payload() == bs[i].Payload() ensures k == i {
      SameAddress(bs, lo, hi, k, i);
    }
  }

  lemma ReleasedNotLive(bs: seq<Block>, cs: seq<Block>, lo: nat, hi: nat, i: nat)
    requires Tiles(bs, lo, hi) && i < |bs| && Live(cs) == Live(bs) - {bs[i]}
    ensures forall k :: 0 <= k < |cs| && cs[k].Payload() == bs[i].Payload() ==> cs[k].free
  {
    forall k | 0 <= k < |cs| && cs[k].Payload() == bs[i].Payload() ensures cs[k].free {
      if !cs[k].free {
        assert cs[k] in Live(cs);
        var l :| 0 <= l < |bs| && bs[l] == cs[k];
        SameAddress(bs, lo, hi, l, i);
      }
    }
  }

  /** p is the payload of a live block. */
  ghost predicate PointsToLive(bs: seq<Block>, p: nat) {
    exists k :: 0 <= k < |bs| && bs[k].Payload() == p && !bs[k].free
  }

  lemma LiveIndex(bs: seq<Block>, b: Block) returns (k: nat)
    requires b in Live(bs)
    ensures k < |bs| && bs[k] == b && !b.free
  {
    k :| 0 <= k < |bs| && bs[k] == b;
  }

  lemma IndexLive(bs: seq<Block>, k: nat)
    requires k < |bs| && !bs[k].free
    ensures bs[k] in Live(bs)
  {}

  lemma SoleLive(bs: seq<Block>, lo: nat, hi: nat, s: nat)
    requires Tiles(bs, lo, hi) && NonEmpty(Live(bs)) && s < |bs| && !bs[s].free
    ensures lo <= bs[s].Payload() < hi
    ensures forall k :: 0 <= k < |bs| && bs[k].Payload() == bs[s].Payload() ==> bs[k] == bs[s]
  {
    LiveInHeap(bs, lo, hi, bs[s].Payload());
    OnlyAt(bs, lo, hi, s);
  }

  lemma KeptOnce(m: Mem, m2: Mem, r: Mem, live: set<Block>, more: set<Block>, b: Block)
    requires LiveKept(m, m2, live) && LiveKept(m2, r, more) && live <= more
    ensures LiveKept(m, r, live - {b})
  {
    forall x | x in live ensures SamePayload(m, r, x) {
      assert SamePayload(m, m2, x) && SamePayload(m2, r, x);
    }
  }

  /** Serving a request leaves every other block where and as it was. */
  lemma OthersStay(bs: seq<Block>, cs: seq<Block>, i: nat, size: nat, align: bool, j: nat) returns (s: nat)
    requires Served(bs, cs, i, size, align) && j < |bs| && (bs[j].size < size || !bs[j].free)
    ensures s < |cs| && cs[s] == bs[j] && s != TakenIndex(bs, i, align)
  {
    hide Padding, IsPageAligned, Allocate, CutPadding;
    assert j != i;
    if align && !IsPageAligned(bs[i].Payload()) {
      var pad := Padding(bs[i]);
      var t := CutOthers(bs, i, pad, j);
      s := AllocateOthers(CutPadding(bs, i, pad), i + 1, size, t);
    } else {
      s := AllocateOthers(bs, i, size, j);
    }
  }

  lemma AllocateOthers(bs: seq<Block>, i: nat, size: nat, j: nat) returns (s: nat)
    requires i < |bs| && size <= bs[i].size && j < |bs| && j != i
    ensures s < |Allocate(bs, i, size)| && Allocate(bs, i, size)[s] == bs[j] && s != i
  {
    var cs := Allocate(bs, i, size);
    s := if j < i then j else j + |cs| - |bs|;
  }

  lemma CutOthers(bs: seq<Block>, i: nat, padding: nat, j: nat) returns (s: nat)
    requires i < |bs| && HEADER_SIZE <= padding <= bs[i].size && j < |bs| && j != i
    ensures |CutPadding(bs, i, padding)| == |bs| + 1 && CutPadding(bs, i, padding)[i + 1].size == bs[i].size - padding
    ensures s < |bs| + 1 && CutPadding(bs, i, padding)[s] == bs[j] && s != i && s != i + 1
  {
    s := if j < i then j else j + 1;
  }

  /** cs is bs with one more live block c that serves the request; live payloads are as before. */
  ghost predicate HandedOut(m: Mem, r: Mem, bs: seq<Block>, cs: seq<Block>, c: Block, size: nat, align: bool) {
    && c !in Live(bs) && size <= c.size && (align ==> IsPageAligned(c.Payload()))
    && Live(cs) == Live(bs) + {c} && LiveKept(m, r, Live(bs))
    && exists i: nat :: Served(bs, cs, i, size, align)
  }

  lemma HandedOutBy(m: Mem, r: Mem, bs: seq<Block>, cs: seq<Block>, c: Block, i: nat, size: nat, align: bool)
    requires c !in Live(bs) && size <= c.size && (align ==> IsPageAligned(c.Payload()))
    requires Live(cs) == Live(bs) + {c} && LiveKept(m, r, Live(bs)) && Served(bs, cs, i, size, align)
    ensures HandedOut(m, r, bs, cs, c, size, align)
  {}

  /** A request was served and then block b was released. */
  ghost predicate Moved(bs: seq<Block>, ds: seq<Block>, b: Block, size: nat, align: bool) {
    exists cs: seq<Block>, i: nat, k: nat ::
      Served(bs, cs, i, size, align) && k < |cs| && cs[k] == b && ds == Release(cs, k)
  }

  /** The live block b was replaced by the larger block c, which starts with all the bytes of b; the
      other live payloads are as before. */
  ghost predicate MovedOut(m: Mem, r: Mem, bs: seq<Block>, ds: seq<Block>, b: Block, c: Block, size: nat, align: bool) {
    && size <= c.size && (align ==> IsPageAligned(c.Payload()))
    && Moved(bs, ds, b, size, align)
    && Replaced(m, r, Live(bs), Live(ds), b, c)
  }

  ghost predicate Replaced(m: Mem, r: Mem, live: set<Block>, live': set<Block>, b: Block, c: Block) {
    && b in live && c !in live && live' == live - {b} + {c} && LiveKept(m, r, live - {b})
    && c.Payload() + b.size <= WORD && b.Payload() + b.size <= WORD
    && forall a :: c.Payload() <= a < c.Payload() + b.size ==> r[a] == m[a - c.Payload() + b.Payload()]
  }

  /** The three steps of a move: the request, the copy and the release. */
  lemma MovedThrough(m: Mem, m1: Mem, m2: Mem, r: Mem, bs: seq<Block>, cs: seq<Block>, ds: seq<Block>,
                     i: nat, t: nat, j: nat, k: nat, size: nat, align: bool)
    requires Served(bs, cs, i, size, align) && j < |bs| && k < |cs| && cs[k] == bs[j] && ds == Release(cs, k)
    requires GrownBy(bs, cs, t) && size <= cs[t].size && (align ==> IsPageAligned(cs[t].Payload())) && bs[j].size < size
    requires bs[j] in Live(bs) && Live(ds) == Live(cs) - {bs[j]}
    requires LiveKept(m, m1, Live(bs)) && LiveKept(m, m2, Live(bs)) && LiveKept(m2, r, Live(cs))
    requires cs[t].Payload() + bs[j].size <= WORD && bs[j].Payload() + bs[j].size <= WORD
    requires forall a :: cs[t].Payload() <= a < cs[t].Payload() + bs[j].size ==> m2[a] == m1[a - cs[t].Payload() + bs[j].Payload()]
    ensures MovedOut(m, r, bs, ds, bs[j], cs[t], size, align)
  {
    hide Served, Release, Live, SamePayload, IsPageAligned;
    var b, c := bs[j], cs[t];
    assert Moved(bs, ds, b, size, align);
    hide Moved;
    KeptOnce(m, m2, r, Live(bs), Live(cs), b);
    assert SamePayload(m, m1, b) && SamePayload(m2, r, c);
    BytesArrive(m, m1, m2, r, b, c);
    assert Live(ds) == Live(bs) - {b} + {c};
  }

  lemma BytesArrive(m: Mem, m1: Mem, m2: Mem, r: Mem, b: Block, c: Block)
    requires SamePayload(m, m1, b) && SamePayload(m2, r, c) && b.size <= c.size
    requires c.Payload() + b.size <= WORD && b.Payload() + b.size <= WORD
    requires forall a :: c.Payload() <= a < c.Payload() + b.size ==> m2[a] == m1[a - c.Payload() + b.Payload()]
    ensures forall a :: c.Payload() <= a < c.Payload() + b.size ==> r[a] == m[a - c.Payload() + b.Payload()]
  {
    forall a | c.Payload() <= a < c.Payload() + b.size ensures r[a] == m[a - c.Payload() + b.Payload()] {
      assert r[a] == m2[a];
    }
  }

  lemma NoCarry(total: word, size: word)
    ensures total + size + HEADER_SIZE < WORD ==> Wrap(total + Wrap(size + HEADER_SIZE)) == total + size + HEADER_SIZE
  {}

  /** The request neither wraps in the search nor loses the back links. */
  ghost predicate SafeRequest(bs: seq<Block>, size: word, align: bool) {
    && NoWrap(bs, size, align)
    && (align ==> forall i: nat ::
          FirstSmallest(bs, Candidates(bs, size, align), i) && CanAlign(bs, i) ==> KeepsBackLinks(bs[i], size))
  }

  class Heap {
    var mem: Mem
    const placement: word
    var base: word
    var head: word
    var tail: word
    ghost var blocks: seq<Block>

    /** The forward half of the invariant: the chain of next links tiles the heap range. */
    ghost predicate Chained()
      reads this
    {
      && PAGE_SIZE <= base && placement + Placement.PLACEMENT_SIZE <= base && base + KHEAP_HEAP_SIZE + SEARCH_OFFSET <= WORD
      && head == base
      && Tiles(blocks, base, base + KHEAP_HEAP_SIZE)
      && ForwardLinked(mem, blocks)
    }

    ghost predicate Valid()
      reads this
    {
      && Chained()
      && Coalesced(blocks)
      && NonEmpty(Live(blocks))
      && BackLinked(mem, blocks)
      && tail == blocks[|blocks| - 1].addr
    }

    constructor (m: Mem, start: word)
      ensures mem == m && placement == start
    {
      mem := m;
      placement := start;
      base, head, tail := NULL, NULL, NULL;
      blocks := [];
    }

    // ----- header fields -----

    method Get(a: word, k: nat) returns (w: word)
      requires a + HEADER_SIZE <= WORD && k < 5
      ensures w == Field(HeaderAt(mem, a), k)
    {
      w := Load32(mem, a + 4 * k);
    }

    method Put(a: word, k: nat, w: word)
      requires a + HEADER_SIZE <= WORD && k < 5
      modifies this`mem
      ensures HeaderWritten(old(mem), mem, a, WithField(old(HeaderAt(mem, a)), k, w))
    {
      FieldStored(mem, a, k, w);
      mem := Store32(mem, a + 4 * k, w);
    }

    /** Two fields of one header. */
    method PutTwo(a: word, k: nat, w: word, l: nat, x: word)
      requires a + HEADER_SIZE <= WORD && k < 5 && l < 5
      modifies this`mem
      ensures HeaderWritten(old(mem), mem, a, WithField(WithField(old(HeaderAt(mem, a)), k, w), l, x))
    {
      hide WithField;
      Put(a, k, w);
      Put(a, l, x);
    }

    method NewFreeHeader(a: word, size: word, next: word, prev: word)
      requires a + HEADER_SIZE <= WORD
      modifies this`mem
      ensures HeaderWritten(old(mem), mem, a, Header(KHEAP_MAGIC, size, 1, prev, next))
    {
      Put(a, FREE, 1);
      Put(a, MAGIC, KHEAP_MAGIC);
      Put(a, SIZE, size);
      Put(a, NEXT, next);
      Put(a, PREV, prev);
    }

    // ----- allocation -----

    /** Makes the last `remaining` bytes of the used block at `best` a free block of their own. */
    method SplitOff(best: word, size: word, remaining: word, ghost i: nat)
      requires Chained() && BackLinkedBut(mem, blocks, i + 1)
      requires i < |blocks| && best == blocks[i].addr && !blocks[i].free
      requires size + remaining == blocks[i].size && remaining > HEADER_SIZE
      modifies this`mem, this`tail, this`blocks
      ensures blocks == Allocate(old(blocks), i, size)
      ensures Chained() && BackLinked(mem, blocks)
      ensures tail == if i + 1 == |old(blocks)| then blocks[i + 1].addr else old(tail)
      ensures PayloadsKeptBut(old(mem), mem, old(blocks), i)
    {
      ghost var m0, lo, hi := mem, base as nat, base + KHEAP_HEAP_SIZE;
      Fields(mem, blocks, lo, hi, i);
      hide Tiles, ForwardLinked, BackLinkedBut, HeaderWritten, AgreeOutside, WithField, Field;
      var rest := best + HEADER_SIZE + size;
      var next := Get(best, NEXT);
      NewFreeHeader(rest, remaining - HEADER_SIZE, next, best);
      ghost var m1 := mem;
      if next == NULL {
        tail := rest;
      } else {
        Put(next, PREV, rest);
      }
      ghost var m2 := mem;
      PutTwo(best, SIZE, size, NEXT, rest);
      SplitFramed(m0, m1, m2, mem, blocks, lo, hi, i, size);
      blocks := Allocate(blocks, i, size);
    }

    /** Marks the block at `best` used and splits off what is left when it can hold a header. */
    method Take(best: word, size: word, ghost i: nat)
      requires Chained() && BackLinkedBut(mem, blocks, i + 1)
      requires i < |blocks| && best == blocks[i].addr && size <= blocks[i].size
      modifies this`mem, this`tail, this`blocks
      ensures blocks == Allocate(old(blocks), i, size)
      ensures Chained()
      ensures old(blocks)[i].size - size > HEADER_SIZE ==>
                BackLinked(mem, blocks) && tail == (if i + 1 == |old(blocks)| then blocks[i + 1].addr else old(tail))
      ensures old(blocks)[i].size - size <= HEADER_SIZE ==>
                tail == old(tail) && SameBack(old(mem), mem, blocks)
      ensures PayloadsKeptBut(old(mem), mem, old(blocks), i)
    {
      assert Forward(mem, blocks, i);
      var total := Get(best, SIZE);
      var remaining := total - size;
      ghost var m0, bs := mem, blocks;
      SetFlag(best, false, i);
      if remaining > HEADER_SIZE {
        ghost var m1, b1 := mem, blocks;
        SplitOff(best, size, remaining, i);
        KeptTwice(m0, m1, mem, bs, b1, -1, i, i);
      } else {
        KeptTwice(m0, mem, mem, bs, bs, -1, i, i);
      }
    }

    /** Writes the free flag of block i. */
    method SetFlag(block: word, f: bool, ghost i: nat)
      requires Chained() && i < |blocks| && block == blocks[i].addr
      modifies this`mem, this`blocks
      ensures blocks == old(blocks)[i := old(blocks)[i].(free := f)]
      ensures Chained() && SameBack(old(mem), mem, blocks)
      ensures forall k :: BackLinkedBut(old(mem), old(blocks), k) ==> BackLinkedBut(mem, blocks, k)
      ensures PayloadsKeptBut(old(mem), mem, old(blocks), -1)
    {
      ghost var m0 := mem;
      assert Forward(mem, blocks, i);
      Put(block, FREE, if f then 1 else 0);
      HeaderWrite(m0, mem, blocks, base, base + KHEAP_HEAP_SIZE, i);
      FlagLinked(m0, mem, blocks, base, base + KHEAP_HEAP_SIZE, i, f);
      blocks := blocks[i := blocks[i].(free := f)];
    }

    static method Test(current: word, blockSize: word, size: word, align: bool) returns (ok: bool)
      ensures ok == Passes(Block(current, blockSize, true), size, align)
    {
      var data := Wrap(current + SEARCH_OFFSET);
      var end := Wrap(data + blockSize);
      if align && !IsPageAligned(data) {
        data := AlignUp(Wrap(data + HEADER_SIZE));
      }
      ok := Wrap(data + size) <= end;
    }

    /** One step of the search: block k against the best block so far. */
    method Consider(current: word, size: word, align: bool, best: word, ghost i: nat, ghost k: nat)
      returns (better: word, ghost j: nat)
      requires ForwardLinked(mem, blocks) && k < |blocks| && current == blocks[k].addr && current != NULL
      requires best != NULL ==> i < k && best == blocks[i].addr
      requires BestSoFar(blocks, size, align, best != NULL, i, k)
      ensures better != NULL ==> j <= k && better == blocks[j].addr
      ensures BestSoFar(blocks, size, align, better != NULL, j, k + 1)
    {
      hide Passes;
      better, j := best, i;
      assert Forward(mem, blocks, k);
      var free := Get(current, FREE);
      if free != 0 {
        var blockSize := Get(current, SIZE);
        var ok := Test(current, blockSize, size, align);
        assert blocks[k] == Block(current, blockSize, true);
        if ok {
          var smaller := best == NULL;
          if !smaller {
            assert Forward(mem, blocks, i);
            var bestSize := Get(best, SIZE);
            smaller := blockSize < bestSize;
          }
          if smaller {
            better, j := current, k;
          }
        }
      }
    }

    /** Walks the next links and keeps the first of the smallest blocks that pass the test. */
    method FindBestFit(size: word, align: bool) returns (best: word, ghost i: nat)
      requires Chained()
      ensures best == NULL <==> Candidates(blocks, size, align) == {}
      ensures best != NULL ==> FirstSmallest(blocks, Candidates(blocks, size, align), i) && best == blocks[i].addr
    {
      hide Passes;
      ghost var k := 0;
      var current := head;
      best, i := NULL, 0;
      while current != NULL
        invariant 0 <= k <= |blocks|
        invariant current == if k < |blocks| then blocks[k].addr else NULL
        invariant k < |blocks| ==> current != NULL
        invariant best != NULL ==> i < k && best == blocks[i].addr
        invariant BestSoFar(blocks, size, align, best != NULL, i, k)
        decreases |blocks| - k
      {
        assert Forward(mem, blocks, k);
        InRange(blocks, base, base + KHEAP_HEAP_SIZE, k);
        best, i := Consider(current, size, align, best, i, k);
        if k + 1 < |blocks| { InRange(blocks, base, base + KHEAP_HEAP_SIZE, k + 1); }
        current := Get(current, NEXT);
        k := k + 1;
      }
      SearchDone(blocks, size, align, best != NULL, i);
    }

    method Fill(a: word, n: word, v: byte)
      requires a + n <= WORD
      modifies this`mem
      ensures AgreeOutside(old(mem), mem, a, n)
      ensures forall k :: a <= k < a + n ==> mem[k] == v
    {
      var p: nat := a;
      while p != a + n
        invariant a <= p <= a + n
        invariant AgreeOutside(old(mem), mem, a, n)
        invariant forall k :: a <= k < p ==> mem[k] == v
      {
        mem := mem[p := v];
        p := p + 1;
      }
    }

    method Copy(dest: word, src: word, n: word)
      requires dest + n <= WORD && src + n <= WORD
      requires dest + n <= src || src + n <= dest
      modifies this`mem
      ensures AgreeOutside(old(mem), mem, dest, n)
      ensures forall k :: dest <= k < dest + n ==> mem[k] == old(mem)[k - dest + src]
    {
      var k := 0;
      while k != n
        invariant 0 <= k <= n
        invariant AgreeOutside(old(mem), mem, dest, n)
        invariant forall j :: dest <= j < dest + k ==> mem[j] == old(mem)[j - dest + src]
      {
        mem := mem[dest + k := mem[src + k]];
        k := k + 1;
      }
    }

    /** Cuts the front of the free block at `best` off so that the payload of the new block is
        page-aligned; the old successor still points back at `best`. */
    method CutFront(best: word, padding: word, ghost i: nat)
      requires Chained() && BackLinked(mem, blocks)
      requires i < |blocks| && best == blocks[i].addr && HEADER_SIZE <= padding <= blocks[i].size
      modifies this`mem, this`blocks
      ensures blocks == CutPadding(old(blocks), i, padding)
      ensures Chained() && BackLinkedBut(mem, blocks, i + 2)
      ensures i + 2 < |blocks| ==> blocks[i + 2].addr + HEADER_SIZE <= WORD && HeaderAt(mem, blocks[i + 2].addr).prev == best
      ensures PayloadsKeptBut(old(mem), mem, old(blocks), i)
    {
      ghost var m0 := mem;
      assert Forward(mem, blocks, i);
      InRange(blocks, base, base + KHEAP_HEAP_SIZE, i);
      var total := Get(best, SIZE);
      var next := Get(best, NEXT);
      NewFreeHeader(best + padding, total - padding, next, best);
      ghost var m1 := mem;
      HeaderOutside(m0, m1, best + padding, HEADER_SIZE, best);
      Put(best, FREE, 1);
      Put(best, SIZE, padding - HEADER_SIZE);
      Put(best, NEXT, best + padding);
      CutFramed(m0, m1, mem, blocks, base, base + KHEAP_HEAP_SIZE, i, padding);
      blocks := CutPadding(blocks, i, padding);
    }

    /** Serves a page-aligned request from a block whose payload is not aligned. */
    method TakeAligned(best: word, size: word, ghost i: nat) returns (block: word)
      requires Valid() && i < |blocks| && best == blocks[i].addr && size <= blocks[i].size
      requires blocks[i].Payload() + HEADER_SIZE + PAGE_SIZE <= WORD && !IsPageAligned(blocks[i].Payload())
      modifies this`mem, this`tail, this`blocks
      ensures block == NULL <==> !AlignedRoom(old(blocks)[i], size)
      ensures block == NULL ==> mem == old(mem) && tail == old(tail) && blocks == old(blocks)
      ensures block != NULL ==>
                && blocks == AllocateAligned(old(blocks), i, size)
                && i + 1 < |blocks| && block == blocks[i + 1].addr
                && Chained()
                && (BackLinked(mem, blocks) && tail == blocks[|blocks| - 1].addr <==> KeepsBackLinks(old(blocks)[i], size))
      ensures PayloadsKeptBut(old(mem), mem, old(blocks), i)
    {
      ghost var bs, m0 := blocks, mem;
      assert Forward(mem, blocks, i);
      var data := best + HEADER_SIZE;
      var padding := AlignUp(data + HEADER_SIZE) - data;
      assert padding == Padding(blocks[i]);
      hide AlignUp, Padding, IsPageAligned, Tiles, Coalesced, Allocate, AlignedIndex;
      var total := Get(best, SIZE);
      if total < size + padding {
        return NULL;
      }
      CutFront(best, padding, i);
      ghost var cs, m1 := blocks, mem;
      Take(best + padding, size, i + 1);
      KeptThroughCut(m0, m1, mem, bs, i, padding);
      AlignedLinks(m1, mem, bs, blocks, old(tail), tail, i, size);
      block := best + padding;
    }

    /** Serves a request from the start of a block. */
    method TakeWhole(best: word, size: word, ghost i: nat)
      requires Valid() && i < |blocks| && best == blocks[i].addr && size <= blocks[i].size
      modifies this`mem, this`tail, this`blocks
      ensures blocks == Allocate(old(blocks), i, size) && i < |blocks| && best == blocks[i].addr
      ensures Chained() && BackLinked(mem, blocks) && tail == blocks[|blocks| - 1].addr
      ensures PayloadsKeptBut(old(mem), mem, old(blocks), i)
    {
      ghost var bs := blocks;
      Take(best, size, i);
      TakeBack(old(mem), mem, bs, i, size);
    }

    /** Finds a block for the request and marks it used. */
    method Carve(size: word, align: bool) returns (block: word, ghost i: nat)
      requires Valid() && NoWrap(blocks, size, align)
      modifies this`mem, this`tail, this`blocks
      ensures block == NULL ==> mem == old(mem) && tail == old(tail) && blocks == old(blocks)
      ensures block == NULL ==>
                || size == 0
                || Candidates(old(blocks), size, align) == {}
                || (align && CanAlign(old(blocks), i) && !AlignedRoom(old(blocks)[i], size))
      ensures size == 0 || Candidates(old(blocks), size, align) == {} ==> block == NULL
      ensures size != 0 && Candidates(old(blocks), size, align) != {} ==>
                FirstSmallest(old(blocks), Candidates(old(blocks), size, align), i)
      ensures block != NULL ==>
                && Served(old(blocks), blocks, i, size, align)
                && block == blocks[TakenIndex(old(blocks), i, align)].addr
                && Chained()
                && (BackLinked(mem, blocks) && tail == blocks[|blocks| - 1].addr <==> !align || KeepsBackLinks(old(blocks)[i], size))
      ensures block != NULL ==> PayloadsKeptBut(old(mem), mem, old(blocks), i)
    {
      hide Passes, Padding, Allocate, CutPadding, IsPageAligned;
      block, i := NULL, 0;
      if size == 0 {
        return;
      }
      var best;
      best, i := FindBestFit(size, align);
      if best == NULL {
        return;
      }
      CandidateHasRoom(blocks, base, base + KHEAP_HEAP_SIZE, i, size, align);
      if align && !IsPageAligned(best + HEADER_SIZE) {
        block := TakeAligned(best, size, i);
      } else {
        TakeWhole(best, size, i);
        block := best;
      }
    }

    /** kmalloc on the initialised heap. */
    method KMallocHeap(size: word, align: bool, zero: bool) returns (p: word, ghost i: nat)
      requires Valid() && NoWrap(blocks, size, align)
      modifies this`mem, this`tail, this`blocks
      // a failed call changes nothing, and it is known when a call fails
      ensures p == NULL ==> mem == old(mem) && tail == old(tail) && blocks == old(blocks)
      ensures p == NULL <==> Refused(old(blocks), size, align)
      ensures !align ==> (p == NULL <==> size == 0 || Fitting(old(blocks), size) == {})
      ensures !align ==>
                (p == NULL <==> size == 0 || forall k :: 0 <= k < |old(blocks)| ==> !old(blocks)[k].free || old(blocks)[k].size < size)
      ensures align ==>
                (p == NULL <==>
                   || size == 0
                   || AlignedFitting(old(blocks), size) == {}
                   || (FirstSmallest(old(blocks), AlignedFitting(old(blocks), size), i)
                       && !AlignedSpan(old(blocks)[i].Payload(), old(blocks)[i].size, size)))
      // a successful one serves the request from the first of the smallest candidates
      ensures p != NULL ==> i < |old(blocks)| && FirstSmallest(old(blocks), Candidates(old(blocks), size, align), i)
      ensures p != NULL && !align ==> FirstSmallest(old(blocks), Fitting(old(blocks), size), i)
      ensures p != NULL && !align ==>
                forall k :: 0 <= k < |old(blocks)| && old(blocks)[k].free && size <= old(blocks)[k].size ==>
                  old(blocks)[i].size < old(blocks)[k].size || (old(blocks)[i].size == old(blocks)[k].size && i <= k)
      ensures p != NULL && align ==> FirstSmallest(old(blocks), AlignedFitting(old(blocks), size), i)
      // from its start or from the first page boundary that leaves room for a header; what is left
      // over becomes a block of its own when it is more than a header
      ensures p != NULL ==>
                var b := old(blocks)[i];
                && (!align || IsPageAligned(b.Payload()) ==> p == b.Payload())
                && (align && !IsPageAligned(b.Payload()) ==> 20 <= p - b.Payload() < 20 + 4096)
                && TakenIndex(old(blocks), i, align) < |blocks|
                && blocks[TakenIndex(old(blocks), i, align)].size == if b.End() - p - size > 20 then size else b.End() - p
      ensures p != NULL ==>
                && Served(old(blocks), blocks, i, size, align)
                && GrownBy(old(blocks), blocks, TakenIndex(old(blocks), i, align))
                && var b := blocks[TakenIndex(old(blocks), i, align)];
                   p == b.Payload() && size <= b.size && (align ==> IsPageAligned(p))
                   && (zero ==> ZeroFrom(mem, b, 0))
      // the forward chain always survives; the whole invariant exactly when the guard holds
      ensures Chained() && Coalesced(blocks) && NonEmpty(Live(blocks))
      ensures Valid() <==> p == NULL || !align || KeepsBackLinks(old(blocks)[i], size)
      ensures LiveKept(old(mem), mem, Live(old(blocks)))
    {
      hide Passes, Padding, Allocate, CutPadding, IsPageAligned, AllocateAligned, AlignedIndex, AlignedRoom, TakenIndex;
      hide Refused, FirstSmallest, Candidates, Fitting, AlignedFitting, AlignedSpan, Live, NoWrap;
      hide ForwardLinked, BackLinkedBut, Tiles, Coalesced;
      ghost var bs, lo, hi := blocks, base as nat, base + KHEAP_HEAP_SIZE;
      var block;
      block, i := Carve(size, align);
      RefusedFacts(bs, lo, hi, size, align, i);
      UnalignedChoice(bs, size, i);
      if block == NULL {
        return NULL, i;
      }
      ghost var t := TakenIndex(bs, i, align);
      ServedLayout(bs, blocks, lo, hi, i, size, align);
      ServedShape(bs, blocks, i, size, align);
      KeptLive(old(mem), mem, bs, i);
      InRange(blocks, lo, hi, t);
      p := block + HEADER_SIZE;
      if zero {
        ghost var m1 := mem;
        Fields(mem, blocks, lo, hi, t);
        var n := Get(block, SIZE);
        Fill(p, n, 0);
        PayloadWrite(m1, mem, blocks, lo, hi, t);
        KeptAfterFill(old(mem), m1, mem, bs, blocks, t);
      }
    }

    // ----- release -----

    /** Merges the free block b into the free block a before it. */
    method Absorb(a: word, b: word, ghost i: nat)
      requires Chained() && BackLinked(mem, blocks) && tail == blocks[|blocks| - 1].addr
      requires i + 1 < |blocks| && a == blocks[i].addr && b == blocks[i + 1].addr && blocks[i].free
      modifies this`mem, this`tail, this`blocks
      ensures blocks == Merge(old(blocks), i)
      ensures Chained() && BackLinked(mem, blocks) && tail == blocks[|blocks| - 1].addr
      ensures PayloadsKeptBut(old(mem), mem, old(blocks), -1)
      ensures b + HEADER_SIZE <= WORD && HeaderAt(mem, b).magic == 0
    {
      ghost var m0, lo, hi := mem, base as nat, base + KHEAP_HEAP_SIZE;
      MergeFacts(mem, blocks, lo, hi, i);
      hide Tiles, Merge, ForwardLinked, BackLinkedBut, Forward;
      var after := Get(b, NEXT);
      var sizeA := Get(a, SIZE);
      var sizeB := Get(b, SIZE);
      PutTwo(a, NEXT, after, SIZE, sizeA + sizeB + HEADER_SIZE);
      ghost var m1 := mem;
      Put(b, MAGIC, 0);
      ghost var m2 := mem;
      if after == NULL {
        tail := a;
      } else {
        Put(after, PREV, a);
      }
      MergeFramed(m0, m1, m2, mem, blocks, lo, hi, i);
      blocks := Merge(blocks, i);
    }

    /** First half of a release: the flag, and the merge with the block before. */
    method ReleaseBack(block: word, prev: word, ghost i: nat) returns (merged: word)
      requires Chained() && BackLinked(mem, blocks) && tail == blocks[|blocks| - 1].addr
      requires i < |blocks| && block == blocks[i].addr && prev == PrevAddr(blocks, i) && blocks[i].free
      modifies this`mem, this`tail, this`blocks
      ensures blocks == MergeBack(old(blocks), i)
      ensures BackIndex(old(blocks), i) < |blocks| && merged == blocks[BackIndex(old(blocks), i)].addr
      ensures Chained() && BackLinked(mem, blocks) && tail == blocks[|blocks| - 1].addr
      ensures PayloadsKeptBut(old(mem), mem, old(blocks), -1)
      ensures i > 0 && old(blocks)[i - 1].free ==> block + HEADER_SIZE <= WORD && HeaderAt(mem, block).magic == 0
    {
      merged := block;
      if i > 0 { Fields(mem, blocks, base, base + KHEAP_HEAP_SIZE, i - 1); }
      KeptSame(mem, blocks);
      hide Tiles, Merge, ForwardLinked, BackLinkedBut, PayloadsKeptBut;
      if prev != NULL {
        var f := Get(prev, FREE);
        if f != 0 {
          Absorb(prev, block, i - 1);
          merged := prev;
        }
      }
    }

    /** Second half of a release: the merge with the block after. */
    method ReleaseForward(block: word, next: word, ghost i: nat)
      requires Chained() && BackLinked(mem, blocks) && tail == blocks[|blocks| - 1].addr
      requires i < |blocks| && block == blocks[i].addr && next == NextAddr(blocks, i) && blocks[i].free
      modifies this`mem, this`tail, this`blocks
      ensures blocks == MergeForward(old(blocks), i)
      ensures Chained() && BackLinked(mem, blocks) && tail == blocks[|blocks| - 1].addr
      ensures PayloadsKeptBut(old(mem), mem, old(blocks), -1)
    {
      if i + 1 < |blocks| { Fields(mem, blocks, base, base + KHEAP_HEAP_SIZE, i + 1); }
      KeptSame(mem, blocks);
      hide Tiles, Merge, ForwardLinked, BackLinkedBut, PayloadsKeptBut;
      if next != NULL {
        var f := Get(next, FREE);
        if f != 0 {
          Absorb(block, next, i);
        }
      }
    }

    /** Marks the live block free and reads its links. */
    method MarkFree(block: word, ghost i: nat) returns (prev: word, next: word)
      requires Chained() && BackLinked(mem, blocks) && i < |blocks| && block == blocks[i].addr
      modifies this`mem, this`blocks
      ensures blocks == old(blocks)[i := old(blocks)[i].(free := true)]
      ensures Chained() && BackLinked(mem, blocks)
      ensures prev == PrevAddr(blocks, i) && next == NextAddr(blocks, i)
      ensures PayloadsKeptBut(old(mem), mem, old(blocks), -1)
    {
      SetFlag(block, true, i);
      assert Forward(mem, blocks, i) && Back(mem, blocks, i);
      prev := Get(block, PREV);
      next := Get(block, NEXT);
    }

    /** Marks the live block free and merges it with its free neighbours. */
    method ReleaseBlock(block: word, ghost i: nat)
      requires Valid() && i < |blocks| && block == blocks[i].addr && !blocks[i].free
      modifies this`mem, this`tail, this`blocks
      ensures Valid()
      ensures blocks == Release(old(blocks), i)
      ensures Live(blocks) == Live(old(blocks)) - {old(blocks)[i]}
      ensures LiveKept(old(mem), mem, Live(old(blocks)))
      ensures block + HEADER_SIZE <= WORD
      ensures HeaderAt(mem, block).magic != KHEAP_MAGIC || exists k :: 0 <= k < |blocks| && blocks[k].addr == block
    {
      ghost var bs, lo, hi := blocks, base as nat, base + KHEAP_HEAP_SIZE;
      InRange(bs, lo, hi, i);
      var prev, next := MarkFree(block, i);
      ghost var m1, b1 := mem, blocks;
      NextAfterBack(b1, i);
      hide Tiles, Merge, MergeBack, MergeForward, BackIndex, Coalesced, Live, ForwardLinked, BackLinkedBut;
      var merged := ReleaseBack(block, prev, i);
      ghost var m2 := mem;
      ReleaseForward(merged, next, BackIndex(b1, i));
      ReleaseDone(old(mem), m1, m2, mem, bs, lo, hi, i);
    }

    // ----- pointers -----

    predicate IsPlacement(p: word)
      reads this
    {
      placement <= p < placement + Placement.PLACEMENT_SIZE
    }

    predicate InHeap(p: word)
      reads this
    {
      base <= p < base + KHEAP_HEAP_SIZE
    }

    /** p was handed out and not released since. */
    ghost predicate IsLive(p: word)
      reads this
    {
      PointsToLive(blocks, p)
    }

    /** p points to a block that is in the list but free: it was released and not merged into the
        block before it. */
    ghost predicate IsDead(p: word)
      reads this
    {
      && base <= p < base + KHEAP_HEAP_SIZE
      && exists k :: 0 <= k < |blocks| && blocks[k].Payload() == p && blocks[k].free
    }

    /** The words before a heap pointer pass for a header only where there is one. */
    ghost predicate NotForged(p: word)
      requires Chained()
      reads this
    {
      InHeap(p) && HeaderAt(mem, p - HEADER_SIZE).magic == KHEAP_MAGIC ==>
        exists k :: 0 <= k < |blocks| && blocks[k].Payload() == p
    }

    method GetHeapBlock(p: word) returns (block: word, ghost k: nat)
      requires Chained() && InHeap(p) && NotForged(p)
      ensures block != NULL ==> k < |blocks| && blocks[k].Payload() == p && block == blocks[k].addr
      ensures block == NULL ==> forall j :: 0 <= j < |blocks| ==> blocks[j].Payload() != p
    {
      k := 0;
      var a := p - HEADER_SIZE;
      var magic := Get(a, MAGIC);
      if magic != KHEAP_MAGIC {
        forall j | 0 <= j < |blocks| ensures blocks[j].Payload() != p {
          assert Forward(mem, blocks, j);
        }
        return NULL, 0;
      }
      k :| 0 <= k < |blocks| && blocks[k].Payload() == p;
      block := a;
    }

    method FreeLive(p: word, block: word, ghost i: nat)
      requires Valid() && i < |blocks| && block == blocks[i].addr && p == blocks[i].Payload() && !blocks[i].free
      modifies this`mem, this`tail, this`blocks
      ensures Valid()
      ensures blocks == Release(old(blocks), i)
      ensures Live(blocks) == Live(old(blocks)) - {old(blocks)[i]}
      ensures LiveKept(old(mem), mem, Live(old(blocks)))
      ensures NotForged(p) && !IsLive(p)
    {
      ghost var bs, lo, hi := blocks, base as nat, base + KHEAP_HEAP_SIZE;
      hide Release;
      ReleaseBlock(block, i);
      ReleasedNotLive(bs, blocks, lo, hi, i);
      ghost var m, cs := mem, blocks;
      if HeaderAt(m, block).magic == KHEAP_MAGIC {
        ghost var k :| 0 <= k < |cs| && cs[k].addr == block;
        assert cs[k].Payload() == p;
      }
    }

    /** kfree: stops the machine unless the pointer is live or lies in the placement area. */
    method KFree(p: word) returns (o: Outcome<()>, ghost i: nat)
      requires Valid() && NotForged(p)
      modifies this`mem, this`tail, this`blocks
      ensures Valid()
      ensures o.Panicked? <==> p == NULL || (!(placement <= p < placement + 0x0010_0000) && !old(IsLive(p)))
      ensures !old(IsLive(p)) ==> mem == old(mem) && tail == old(tail) && blocks == old(blocks)
      ensures old(IsLive(p)) ==>
                && i < |old(blocks)| && old(blocks)[i].Payload() == p && !old(blocks)[i].free
                && blocks == Release(old(blocks), i)
                && Live(blocks) == Live(old(blocks)) - {old(blocks)[i]}
                && LiveKept(old(mem), mem, Live(old(blocks)))
                && NotForged(p) && !IsLive(p)
    {
      hide Release, Tiles, Coalesced, Live;
      i := 0;
      ghost var bs, lo, hi := blocks, base as nat, base + KHEAP_HEAP_SIZE;
      LiveInHeap(bs, lo, hi, p);
      if p == NULL {
        return Panicked, i;
      }
      if IsPlacement(p) {
        return Returned(()), i;
      }
      if !InHeap(p) {
        return Panicked, i;
      }
      var block;
      block, i := GetHeapBlock(p);
      if block == NULL {
        return Panicked, i;
      }
      assert Forward(mem, blocks, i);
      var free := Get(block, FREE);
      if free != 0 {
        OnlyAt(bs, lo, hi, i);
        return Panicked, i;
      }
      FreeLive(p, block, i);
      o := Returned(());
    }

    /** Releasing a pointer twice in a row always stops the machine at the second call. */
    method DoubleFree(p: word) returns (o: Outcome<()>)
      requires Valid() && IsLive(p)
      modifies this`mem, this`tail, this`blocks
      ensures Valid() && o.Panicked?
    {
      LiveInHeap(blocks, base, base + KHEAP_HEAP_SIZE, p);
      ghost var i;
      o, i := KFree(p);
      o, i := KFree(p);
    }

    // ----- reallocation -----

    /** Copies the payload of block s into the payload of block t. */
    method CopyOut(p: word, q: word, block: word, ghost s: nat, ghost t: nat)
      requires Valid() && s < |blocks| && t < |blocks| && s != t && blocks[s].size <= blocks[t].size
      requires p == blocks[s].Payload() && block == blocks[s].addr && q == blocks[t].Payload()
      modifies this`mem
      ensures Valid()
      ensures PayloadsKeptBut(old(mem), mem, blocks, t)
      ensures q + blocks[s].size <= WORD && p + blocks[s].size <= WORD
      ensures forall a :: q <= a < q + blocks[s].size ==> mem[a] == old(mem)[a - q + p]
      ensures AgreeOutside(old(mem), mem, q, blocks[s].size)
    {
      ghost var lo, hi := base as nat, base + KHEAP_HEAP_SIZE;
      InRange(blocks, lo, hi, s);
      InRange(blocks, lo, hi, t);
      if s < t { Ordered(blocks, lo, hi, s, t); } else { Ordered(blocks, lo, hi, t, s); }
      assert Forward(mem, blocks, s);
      var n := Get(block, SIZE);
      ghost var m1 := mem;
      Copy(q, p, n);
      PayloadWrite(m1, mem, blocks, lo, hi, t);
    }

    /** The tail of krealloc, for a block that is too small.  The free flag is not looked at before
        the release at the end, which stops the machine when the block was released before. */
    method Grow(p: word, block: word, size: word, align: bool, zero: bool, ghost j: nat) returns (o: Outcome<word>, ghost c: Block)
      requires Valid() && SafeRequest(blocks, size, align) && InHeap(p)
      requires j < |blocks| && p == blocks[j].Payload() && block == blocks[j].addr && blocks[j].size < size
      modifies this`mem, this`tail, this`blocks
      ensures Valid()
      ensures o == Returned(NULL) <==> Refused(old(blocks), size, align)
      ensures o == Returned(NULL) ==> mem == old(mem) && tail == old(tail) && blocks == old(blocks)
      ensures o.Panicked? <==> old(blocks)[j].free && !Refused(old(blocks), size, align)
      ensures o.Panicked? ==> HandedOut(old(mem), mem, old(blocks), blocks, c, size, align)
      ensures o.Returned? && o.value != NULL ==>
                && o.value == c.Payload() && o.value != p
                && MovedOut(old(mem), mem, old(blocks), blocks, old(blocks)[j], c, size, align)
                && (zero ==> ZeroFrom(mem, c, old(blocks)[j].size))
    {
      hide Tiles, Coalesced, Live, TakenIndex, Release, Refused, Served, ZeroFrom, AgreeOutside, SamePayload;
      hide Candidates, Fitting, AlignedFitting, AlignedSpan, FirstSmallest, ForwardLinked, BackLinkedBut;
      ghost var bs, lo, hi := blocks, base as nat, base + KHEAP_HEAP_SIZE;
      ghost var i, k;
      c := bs[j];
      var q;
      q, i := KMallocHeap(size, align, zero);
      if q == NULL {
        return Returned(NULL), c;
      }
      ghost var m1, cs, t := mem, blocks, TakenIndex(bs, i, align);
      c := cs[t];
      ghost var s := OthersStay(bs, cs, i, size, align, j);
      CopyOut(p, q, block, s, t);
      ghost var m2 := mem;
      KeptAfterFill(old(mem), m1, m2, bs, cs, t);
      OnlyAt(cs, lo, hi, s);
      var r;
      r, k := KFree(p);
      if r.Panicked? {
        HandedOutBy(old(mem), mem, bs, cs, c, i, size, align);
        return Panicked, c;
      }
      IndexLive(bs, j);
      MovedThrough(old(mem), m1, m2, mem, bs, cs, blocks, i, t, j, k, size, align);
      assert SamePayload(m2, mem, c);
      if zero { ZeroStays(m1, m2, mem, c, bs[j].size); }
      o := Returned(q);
    }

    /** krealloc: b is the block that p points to, c the block the data moves to.  Only the magic is
        looked at, so that a released block that is still in the list passes. */
    method KRealloc(p: word, size: word, align: bool, zero: bool) returns (o: Outcome<word>, ghost b: Block, ghost c: Block)
      requires Valid() && SafeRequest(blocks, size, align) && NotForged(p)
      modifies this`mem, this`tail, this`blocks
      ensures Valid()
      // no pointer, or one that krealloc does not own
      ensures p == NULL ==>
                && o.Returned? && (o.value == NULL <==> Refused(old(blocks), size, align))
                && (o.value != NULL ==>
                      && o.value == c.Payload() && HandedOut(old(mem), mem, old(blocks), blocks, c, size, align)
                      && (zero ==> ZeroFrom(mem, c, 0)))
      ensures placement <= p < placement + 0x0010_0000 && p != NULL ==> o == Returned(NULL)
      ensures p != NULL && !(placement <= p < placement + 0x0010_0000) && !old(IsLive(p)) && !old(IsDead(p)) ==> o.Panicked?
      // a live pointer
      ensures old(IsLive(p)) ==>
                && o.Returned? && b in Live(old(blocks)) && b.Payload() == p
                && (o.value == p <==> size <= b.size)
                && (o.value == NULL <==> size > b.size && Refused(old(blocks), size, align))
                && (size > b.size && o.value != NULL ==>
                      && o.value == c.Payload() && MovedOut(old(mem), mem, old(blocks), blocks, b, c, size, align)
                      && (zero ==> ZeroFrom(mem, c, b.size)))
      // a pointer to a block that was released and is still in the list
      ensures old(IsDead(p)) ==>
                && b in old(blocks) && b.Payload() == p && b.free
                && (o == Returned(p) <==> size <= b.size)
                && (o == Returned(NULL) <==> size > b.size && Refused(old(blocks), size, align))
                && (o.Panicked? <==> size > b.size && !Refused(old(blocks), size, align))
                && (o.Panicked? ==> HandedOut(old(mem), mem, old(blocks), blocks, c, size, align))
      // in all other cases nothing changes
      ensures o == Returned(NULL) || o == Returned(p) || (o.Panicked? && !old(IsDead(p))) ==>
                mem == old(mem) && tail == old(tail) && blocks == old(blocks)
    {
      hide Tiles, Coalesced, Release, Live, Fitting, NoWrap, FirstSmallest, Candidates, SamePayload, Refused, MovedOut, HandedOut, ZeroFrom;
      ghost var i;
      ghost var bs := blocks;
      b := Block(0, 0, false);
      c := b;
      LiveInHeap(bs, base, base + KHEAP_HEAP_SIZE, p);
      if p == NULL {
        o, c := KReallocNull(size, align, zero);
        return;
      }
      if IsPlacement(p) {
        return Returned(NULL), b, c;
      }
      if !InHeap(p) {
        return Panicked, b, c;
      }
      var block;
      block, i := GetHeapBlock(p);
      if block == NULL {
        return Panicked, b, c;
      }
      b := bs[i];
      OnlyAt(bs, base, base + KHEAP_HEAP_SIZE, i);
      assert Forward(mem, blocks, i);
      var have := Get(block, SIZE);
      if !b.free { IndexLive(bs, i); }
      if have >= size {
        return Returned(p), b, c;
      }
      o, c := Grow(p, block, size, align, zero, i);
    }

    /** krealloc of NULL is kmalloc. */
    method KReallocNull(size: word, align: bool, zero: bool) returns (o: Outcome<word>, ghost c: Block)
      requires Valid() && SafeRequest(blocks, size, align)
      modifies this`mem, this`tail, this`blocks
      ensures Valid() && o.Returned? && (o.value == NULL <==> Refused(old(blocks), size, align))
      ensures o.value == NULL ==> mem == old(mem) && tail == old(tail) && blocks == old(blocks)
      ensures o.value != NULL ==>
                && o.value == c.Payload() && HandedOut(old(mem), mem, old(blocks), blocks, c, size, align)
                && (zero ==> ZeroFrom(mem, c, 0))
    {
      hide Tiles, Coalesced, Live, Refused, TakenIndex, Served, ZeroFrom;
      hide Candidates, Fitting, AlignedFitting, AlignedSpan, FirstSmallest, ForwardLinked, BackLinkedBut;
      ghost var bs, i := blocks, 0;
      c := Block(0, 0, false);
      var q;
      q, i := KMallocHeap(size, align, zero);
      if q != NULL {
        c := blocks[TakenIndex(bs, i, align)];
        HandedOutBy(old(mem), mem, bs, blocks, c, i, size, align);
      }
      o := Returned(q);
    }

    // ----- start and inspection -----

    /** kheap_init on the range that the virtual memory manager returned. */
    method Init(range: word) returns (o: Outcome<()>)
      requires range != NULL ==>
                 && PAGE_SIZE <= range && placement + Placement.PLACEMENT_SIZE <= range
                 && range + KHEAP_HEAP_SIZE + SEARCH_OFFSET <= WORD
      modifies this
      ensures o.Panicked? <==> range == NULL
      ensures o.Returned? ==> Valid() && base == range && blocks == [Block(range, KHEAP_HEAP_SIZE - HEADER_SIZE, true)]
    {
      base := range;
      if base == NULL {
        return Panicked;
      }
      head := base;
      Put(head, PREV, NULL);
      Put(head, NEXT, NULL);
      Put(head, MAGIC, KHEAP_MAGIC);
      Put(head, SIZE, KHEAP_HEAP_SIZE - HEADER_SIZE);
      Put(head, FREE, 1);
      tail := head;
      blocks := [Block(range, KHEAP_HEAP_SIZE - HEADER_SIZE, true)];
      assert Forward(mem, blocks, 0) && Back(mem, blocks, 0);
      o := Returned(());
    }

    /** The walk of the shell command `memory`: one line per block, and the byte total. */
    method MemoryCommand() returns (lines: seq<(nat, word, word)>, total: word)
      requires Chained()
      ensures |lines| == |blocks|
      ensures forall i :: 0 <= i < |lines| ==> lines[i] == (i, blocks[i].size, if blocks[i].free then 1 else 0)
      ensures total == KHEAP_HEAP_SIZE
    {
      hide Wrap;
      lines, total := [], 0;
      var block := head;
      ghost var k := 0;
      while block != NULL
        invariant 0 <= k <= |blocks| && |lines| == k
        invariant block == if k < |blocks| then blocks[k].addr else NULL
        invariant k < |blocks| ==> block != NULL
        invariant total == if k < |blocks| then blocks[k].addr - base else KHEAP_HEAP_SIZE
        invariant forall i :: 0 <= i < k ==> lines[i] == (i, blocks[i].size, if blocks[i].free then 1 else 0)
        decreases |blocks| - k
      {
        assert Forward(mem, blocks, k);
        InRange(blocks, base, base + KHEAP_HEAP_SIZE, k);
        if k + 1 < |blocks| { assert Abut(blocks, k); InRange(blocks, base, base + KHEAP_HEAP_SIZE, k + 1); }
        var size := Get(block, SIZE);
        var free := Get(block, FREE);
        lines := lines + [(|lines|, size, free)];
        NoCarry(total, size);
        total := Wrap(total + Wrap(size + HEADER_SIZE));
        block := Get(block, NEXT);
        k := k + 1;
      }
    }
  }
}
