/** Block lists of the kernel heap, as values.

    A layout is the list of blocks that a walk along the `next` links meets.  This module says
    what a well-formed layout is, what allocation and release do to one, and that a well-formed
    layout is determined by its live blocks alone. */
module HeapLayout {
  import opened Word32
  import opened Memory

  datatype Block = Block(addr: nat, size: nat, free: bool) {
    function Payload(): nat { addr + HEADER_SIZE }
    function End(): nat { addr + HEADER_SIZE + size }
  }

  /** Block i + 1 starts where block i ends. */
  ghost predicate Abut(bs: seq<Block>, i: int)
    requires 0 <= i < |bs| - 1
  {
    bs[i + 1].addr == bs[i].End()
  }

  /** Blocks i and i + 1 are not both free. */
  ghost predicate NotBothFree(bs: seq<Block>, i: int)
    requires 0 <= i < |bs| - 1
  {
    !(bs[i].free && bs[i + 1].free)
  }

  /** The blocks cover [lo, hi) exactly, each starting where its predecessor ends. */
  ghost predicate Tiles(bs: seq<Block>, lo: nat, hi: nat) {
    && |bs| > 0
    && bs[0].addr == lo
    && bs[|bs| - 1].End() == hi
    && forall i :: 0 <= i < |bs| - 1 ==> Abut(bs, i)
  }

  /** No two neighbouring blocks are both free. */
  ghost predicate Coalesced(bs: seq<Block>) {
    forall i :: 0 <= i < |bs| - 1 ==> NotBothFree(bs, i)
  }

  ghost predicate Layout(bs: seq<Block>, lo: nat, hi: nat) {
    Tiles(bs, lo, hi) && Coalesced(bs)
  }

  ghost function Live(bs: seq<Block>): set<Block> {
    set b | b in bs && !b.free
  }

  ghost function TotalBytes(bs: seq<Block>): nat {
    if bs == [] then 0 else HEADER_SIZE + bs[0].size + TotalBytes(bs[1..])
  }

  // ----- order and disjointness -----

  lemma {:induction false} Ordered(bs: seq<Block>, lo: nat, hi: nat, i: nat, j: nat)
    requires Tiles(bs, lo, hi) && i < j < |bs|
    ensures bs[i].End() <= bs[j].addr
    decreases j
  {
    if i + 1 < j {
      Ordered(bs, lo, hi, i, j - 1);
    }
    assert Abut(bs, j - 1);
  }

  lemma {:induction false} InRange(bs: seq<Block>, lo: nat, hi: nat, i: nat)
    requires Tiles(bs, lo, hi) && i < |bs|
    ensures lo <= bs[i].addr && bs[i].End() <= hi
  {
    if i > 0 { Ordered(bs, lo, hi, 0, i); }
    if i < |bs| - 1 { Ordered(bs, lo, hi, i, |bs| - 1); }
  }

  /** Two blocks that start at one address are the same block of the list. */
  lemma SameAddress(bs: seq<Block>, lo: nat, hi: nat, i: nat, j: nat)
    requires Tiles(bs, lo, hi) && i < |bs| && j < |bs| && bs[i].addr == bs[j].addr
    ensures i == j
  {
    if i < j { Ordered(bs, lo, hi, i, j); }
    if j < i { Ordered(bs, lo, hi, j, i); }
  }

  lemma {:induction false} TotalIsRange(bs: seq<Block>, lo: nat, hi: nat)
    requires Tiles(bs, lo, hi)
    ensures TotalBytes(bs) == hi - lo
  {
    if |bs| > 1 {
      TilesTail(bs, lo, hi);
      TotalIsRange(bs[1..], bs[0].End(), hi);
    } else {
      assert bs[1..] == [];
    }
  }

  lemma TilesTail(bs: seq<Block>, lo: nat, hi: nat)
    requires Tiles(bs, lo, hi) && |bs| > 1
    ensures Tiles(bs[1..], bs[0].End(), hi)
  {
    var t := bs[1..];
    assert Abut(bs, 0);
    forall i | 0 <= i < |t| - 1 ensures Abut(t, i) {
      assert Abut(bs, i + 1);
    }
    assert t[|t| - 1] == bs[|bs| - 1];
  }

  // ----- a layout is determined by its live blocks -----

  lemma {:induction false} LiveDeterminesLayout(bs: seq<Block>, cs: seq<Block>, lo: nat, hi: nat)
    requires Layout(bs, lo, hi) && Layout(cs, lo, hi)
    requires Live(bs) == Live(cs)
    ensures bs == cs
  {
    HeadsAgree(bs, cs, lo, hi);
    if |bs| > 1 && |cs| > 1 {
      TilesTail(bs, lo, hi);
      TilesTail(cs, lo, hi);
      LiveTail(bs, lo, hi);
      LiveTail(cs, lo, hi);
      CoalescedTail(bs);
      CoalescedTail(cs);
      LiveDeterminesLayout(bs[1..], cs[1..], bs[0].End(), hi);
      assert bs == [bs[0]] + bs[1..] && cs == [cs[0]] + cs[1..];
    } else {
      if |bs| > 1 { Ordered(bs, lo, hi, 0, 1); InRange(bs, lo, hi, 1); }
      if |cs| > 1 { Ordered(cs, lo, hi, 0, 1); InRange(cs, lo, hi, 1); }
      assert bs == [bs[0]] && cs == [cs[0]];
    }
  }

  lemma HeadsAgree(bs: seq<Block>, cs: seq<Block>, lo: nat, hi: nat)
    requires Layout(bs, lo, hi) && Layout(cs, lo, hi)
    requires Live(bs) == Live(cs)
    ensures bs[0] == cs[0]
  {
    if !bs[0].free {
      HeadFromLive(bs, cs, lo, hi);
    } else if !cs[0].free {
      HeadFromLive(cs, bs, lo, hi);
    } else {
      FreeHeadAtMost(bs, cs, lo, hi);
      FreeHeadAtMost(cs, bs, lo, hi);
    }
  }

  lemma HeadFromLive(bs: seq<Block>, cs: seq<Block>, lo: nat, hi: nat)
    requires Layout(bs, lo, hi) && Layout(cs, lo, hi)
    requires Live(bs) == Live(cs) && !bs[0].free
    ensures bs[0] == cs[0]
  {
    assert bs[0] in Live(cs);
    var k :| 0 <= k < |cs| && cs[k] == bs[0];
    SameAddress(cs, lo, hi, k, 0);
  }

  lemma FreeHeadAtMost(bs: seq<Block>, cs: seq<Block>, lo: nat, hi: nat)
    requires Layout(bs, lo, hi) && Layout(cs, lo, hi)
    requires Live(bs) == Live(cs) && bs[0].free && cs[0].free
    ensures bs[0].size <= cs[0].size
  {
    InRange(bs, lo, hi, 0);
    if |cs| > 1 {
      assert Abut(cs, 0) && NotBothFree(cs, 0);
      assert cs[1] in Live(bs);
      var k :| 0 <= k < |bs| && bs[k] == cs[1];
      assert k != 0;
      Ordered(bs, lo, hi, 0, k);
    }
  }

  lemma CoalescedTail(bs: seq<Block>)
    requires Coalesced(bs) && |bs| > 1
    ensures Coalesced(bs[1..])
  {
    var t := bs[1..];
    forall i | 0 <= i < |t| - 1 ensures NotBothFree(t, i) {
      assert NotBothFree(bs, i + 1);
    }
  }

  lemma LiveTail(bs: seq<Block>, lo: nat, hi: nat)
    requires Tiles(bs, lo, hi) && |bs| > 1
    ensures Live(bs[1..]) == Live(bs) - {bs[0]}
  {
    forall b | b in Live(bs[1..]) ensures b != bs[0] {
      var k :| 0 <= k < |bs| - 1 && bs[1..][k] == b;
      Ordered(bs, lo, hi, 0, k + 1);
    }
  }

  // ----- allocation -----

  /** Marks block i used and, when more than a header is left over, splits the rest off as a
      free block. */
  function Allocate(bs: seq<Block>, i: nat, size: nat): seq<Block>
    requires i < |bs| && size <= bs[i].size
  {
    var b := bs[i];
    var rest := b.size - size;
    if rest > HEADER_SIZE then
      bs[..i] + [Block(b.addr, size, false), Block(b.addr + HEADER_SIZE + size, rest - HEADER_SIZE, true)] + bs[i + 1..]
    else
      bs[i := b.(free := false)]
  }

  /** The block an allocation hands out. */
  function Allocated(bs: seq<Block>, i: nat, size: nat): (b: Block)
    requires i < |bs| && size <= bs[i].size
    ensures b.addr == bs[i].addr && size <= b.size <= size + HEADER_SIZE && !b.free
  {
    Block(bs[i].addr, if bs[i].size - size > HEADER_SIZE then size else bs[i].size, false)
  }

  lemma AllocateTiles(bs: seq<Block>, lo: nat, hi: nat, i: nat, size: nat)
    requires Tiles(bs, lo, hi) && i < |bs| && size <= bs[i].size
    ensures Tiles(Allocate(bs, i, size), lo, hi)
    ensures i < |Allocate(bs, i, size)| && Allocate(bs, i, size)[i] == Allocated(bs, i, size)
  {
    var cs := Allocate(bs, i, size);
    var d := |cs| - |bs|;
    forall k | 0 <= k < |cs| - 1 ensures Abut(cs, k) {
      if k < i { assert Abut(bs, k); } else if k >= i + d { assert Abut(bs, k - d); }
    }
  }

  lemma AllocateLive(bs: seq<Block>, lo: nat, hi: nat, i: nat, size: nat)
    requires Tiles(bs, lo, hi) && i < |bs| && size <= bs[i].size && bs[i].free
    ensures Live(Allocate(bs, i, size)) == Live(bs) + {Allocated(bs, i, size)}
    ensures Allocated(bs, i, size) !in Live(bs)
  {
    var cs := Allocate(bs, i, size);
    var d := |cs| - |bs|;
    forall b | b in Live(bs) ensures b in Live(cs) && b != Allocated(bs, i, size) {
      var k :| 0 <= k < |bs| && bs[k] == b;
      assert k != i;
      if bs[k].addr == bs[i].addr { SameAddress(bs, lo, hi, k, i); }
      assert cs[if k < i then k else k + d] == b;
    }
    assert cs[i] == Allocated(bs, i, size);
    forall b | b in Live(cs) ensures b in Live(bs) + {Allocated(bs, i, size)} {
      var k :| 0 <= k < |cs| && cs[k] == b;
      if k < i { assert bs[k] == b; } else if k > i + d { assert bs[k - d] == b; }
    }
  }

  /** Allocation from a free block keeps the layout well-formed and adds exactly one live block. */
  lemma AllocateKeepsLayout(bs: seq<Block>, lo: nat, hi: nat, i: nat, size: nat)
    requires Layout(bs, lo, hi) && i < |bs| && size <= bs[i].size && bs[i].free
    ensures Layout(Allocate(bs, i, size), lo, hi)
    ensures Live(Allocate(bs, i, size)) == Live(bs) + {Allocated(bs, i, size)}
    ensures Allocated(bs, i, size) !in Live(bs)
  {
    AllocateTiles(bs, lo, hi, i, size);
    AllocateLive(bs, lo, hi, i, size);
    var cs := Allocate(bs, i, size);
    var d := |cs| - |bs|;
    forall k | 0 <= k < |cs| - 1 ensures NotBothFree(cs, k) {
      if k < i { assert NotBothFree(bs, k); } else if k >= i + d { assert NotBothFree(bs, k - d); }
    }
  }

  // ----- release -----

  /** Merges block i with its successor into one free block. */
  function Merge(bs: seq<Block>, i: nat): seq<Block>
    requires i + 1 < |bs|
  {
    bs[..i] + [Block(bs[i].addr, bs[i].size + HEADER_SIZE + bs[i + 1].size, true)] + bs[i + 2..]
  }

  function MergeBack(bs: seq<Block>, i: nat): seq<Block>
    requires i < |bs|
  {
    if i > 0 && bs[i - 1].free then Merge(bs, i - 1) else bs
  }

  function MergeForward(bs: seq<Block>, i: nat): seq<Block>
    requires i < |bs|
  {
    if i + 1 < |bs| && bs[i + 1].free then Merge(bs, i) else bs
  }

  /** Where block i is after the merge with its predecessor. */
  function BackIndex(bs: seq<Block>, i: nat): nat
    requires i < |bs|
  {
    if i > 0 && bs[i - 1].free then i - 1 else i
  }

  function Release(bs: seq<Block>, i: nat): seq<Block>
    requires i < |bs|
  {
    MergeForward(MergeBack(bs[i := bs[i].(free := true)], i), BackIndex(bs, i))
  }

  lemma MergeTiles(bs: seq<Block>, lo: nat, hi: nat, i: nat)
    requires Tiles(bs, lo, hi) && i + 1 < |bs|
    ensures Tiles(Merge(bs, i), lo, hi)
  {
    var m := Merge(bs, i);
    assert Abut(bs, i);
    forall k | 0 <= k < |m| - 1 ensures Abut(m, k) {
      if k < i { assert Abut(bs, k); } else { assert Abut(bs, k + 1); }
    }
  }

  lemma MergeLive(bs: seq<Block>, i: nat)
    requires i + 1 < |bs| && bs[i].free && bs[i + 1].free
    ensures Live(Merge(bs, i)) == Live(bs)
  {
    var m := Merge(bs, i);
    forall b | b in Live(bs) ensures b in Live(m) {
      var k :| 0 <= k < |bs| && bs[k] == b;
      assert m[if k < i then k else k - 1] == b;
    }
    forall b | b in Live(m) ensures b in Live(bs) {
      var k :| 0 <= k < |m| && m[k] == b;
      assert bs[if k < i then k else k + 1] == b;
    }
  }

  lemma FreeingLive(bs: seq<Block>, lo: nat, hi: nat, i: nat)
    requires Tiles(bs, lo, hi) && i < |bs| && !bs[i].free
    ensures Live(bs[i := bs[i].(free := true)]) == Live(bs) - {bs[i]}
  {
    var cs := bs[i := bs[i].(free := true)];
    forall b | b in Live(bs) && b != bs[i] ensures b in Live(cs) {
      var k :| 0 <= k < |bs| && bs[k] == b;
      assert cs[k] == b;
    }
    forall b | b in Live(cs) ensures b in Live(bs) && b != bs[i] {
      var k :| 0 <= k < |cs| && cs[k] == b;
      assert k != i && bs[k] == b;
      if b == bs[i] { SameAddress(bs, lo, hi, k, i); }
    }
  }

  /** No two neighbours are both free, except perhaps the pairs that start in e. */
  ghost predicate CoalescedBut(bs: seq<Block>, e: set<int>) {
    forall i :: 0 <= i < |bs| - 1 && i !in e ==> NotBothFree(bs, i)
  }

  lemma MergeBackCoalesced(bs: seq<Block>, i: nat)
    requires i < |bs| && CoalescedBut(bs, {i - 1, i})
    ensures CoalescedBut(MergeBack(bs, i), {BackIndex(bs, i) as int})
  {
    var m := MergeBack(bs, i);
    if i > 0 && bs[i - 1].free {
      forall k | 0 <= k < |m| - 1 && k != i - 1 ensures NotBothFree(m, k) {
        if k < i - 1 { assert NotBothFree(bs, k); } else { assert NotBothFree(bs, k + 1); }
      }
    }
  }

  lemma MergeForwardCoalesced(bs: seq<Block>, i: nat)
    requires i < |bs| && bs[i].free && CoalescedBut(bs, {i as int})
    ensures Coalesced(MergeForward(bs, i))
  {
    var m := MergeForward(bs, i);
    if i + 1 < |bs| && bs[i + 1].free {
      forall k | 0 <= k < |m| - 1 ensures NotBothFree(m, k) {
        if k < i { assert NotBothFree(bs, k); } else { assert NotBothFree(bs, k + 1); }
      }
    }
  }

  lemma ReleaseTiles(bs: seq<Block>, lo: nat, hi: nat, i: nat)
    requires Tiles(bs, lo, hi) && i < |bs|
    ensures Tiles(Release(bs, i), lo, hi)
  {
    var a := bs[i := bs[i].(free := true)];
    var b := MergeBack(a, i);
    var j := BackIndex(bs, i);
    forall k | 0 <= k < |a| - 1 ensures Abut(a, k) { assert Abut(bs, k); }
    if i > 0 && bs[i - 1].free { MergeTiles(a, lo, hi, i - 1); }
    if j + 1 < |b| && b[j + 1].free { MergeTiles(b, lo, hi, j); }
  }

  lemma ReleaseLive(bs: seq<Block>, lo: nat, hi: nat, i: nat)
    requires Tiles(bs, lo, hi) && i < |bs| && !bs[i].free
    ensures Live(Release(bs, i)) == Live(bs) - {bs[i]}
  {
    var a := bs[i := bs[i].(free := true)];
    var b := MergeBack(a, i);
    var j := BackIndex(bs, i);
    FreeingLive(bs, lo, hi, i);
    if i > 0 && bs[i - 1].free { MergeLive(a, i - 1); }
    if j + 1 < |b| && b[j + 1].free { MergeLive(b, j); }
  }

  /** Releasing a live block keeps the layout well-formed and removes exactly that block. */
  lemma ReleaseKeepsLayout(bs: seq<Block>, lo: nat, hi: nat, i: nat)
    requires Layout(bs, lo, hi) && i < |bs| && !bs[i].free
    ensures Layout(Release(bs, i), lo, hi)
    ensures Live(Release(bs, i)) == Live(bs) - {bs[i]}
  {
    var a := bs[i := bs[i].(free := true)];
    forall k | 0 <= k < |a| - 1 && k !in {i - 1, i as int} ensures NotBothFree(a, k) {
      assert NotBothFree(bs, k);
    }
    MergeBackCoalesced(a, i);
    MergeForwardCoalesced(MergeBack(a, i), BackIndex(bs, i));
    ReleaseTiles(bs, lo, hi, i);
    ReleaseLive(bs, lo, hi, i);
  }

  // ----- what follows from the two -----

  /** Releasing a block just handed out restores the very same block list. */
  lemma AllocateThenRelease(bs: seq<Block>, lo: nat, hi: nat, i: nat, size: nat)
    requires Layout(bs, lo, hi) && i < |bs| && size <= bs[i].size && bs[i].free
    ensures Release(Allocate(bs, i, size), i) == bs
  {
    var cs := Allocate(bs, i, size);
    AllocateKeepsLayout(bs, lo, hi, i, size);
    AllocateTiles(bs, lo, hi, i, size);
    ReleaseKeepsLayout(cs, lo, hi, i);
    LiveDeterminesLayout(Release(cs, i), bs, lo, hi);
  }

  lemma FirstTwoNotFree(bs: seq<Block>)
    requires Coalesced(bs) && bs != []
    ensures (bs[0] in Live(bs) || bs[0].free) && (|bs| > 1 ==> bs[0] in Live(bs) || bs[1] in Live(bs))
  {
    if |bs| > 1 { assert NotBothFree(bs, 0); }
  }

  /** A layout without live blocks is one free block that spans the range. */
  lemma NothingLive(bs: seq<Block>, lo: nat, hi: nat)
    requires Layout(bs, lo, hi) && Live(bs) == {}
    ensures lo + HEADER_SIZE <= hi && bs == [Block(lo, hi - lo - HEADER_SIZE, true)]
  {
    FirstTwoNotFree(bs);
  }

  // ----- aligned allocation -----

  /** The distance from the payload of b to the payload of a page-aligned block carved out of it,
      leaving room for one more header. */
  function Padding(b: Block): (p: nat)
    requires b.Payload() + HEADER_SIZE + PAGE_SIZE <= WORD
    ensures HEADER_SIZE <= p < HEADER_SIZE + PAGE_SIZE && IsPageAligned(b.Payload() + p)
  {
    AlignUp(b.Payload() + HEADER_SIZE) - b.Payload()
  }

  /** Cuts block i in two free blocks so that the payload of the second is `padding` bytes
      further on. */
  function CutPadding(bs: seq<Block>, i: nat, padding: nat): seq<Block>
    requires i < |bs| && HEADER_SIZE <= padding <= bs[i].size
  {
    var b := bs[i];
    bs[..i] + [Block(b.addr, padding - HEADER_SIZE, true), Block(b.addr + padding, b.size - padding, true)] + bs[i + 1..]
  }

  /** A padded allocation, too, keeps the layout well-formed and adds exactly one live block. */
  lemma CutPaddingKeepsLayout(bs: seq<Block>, lo: nat, hi: nat, i: nat, padding: nat, size: nat)
    requires Layout(bs, lo, hi) && i < |bs| && bs[i].free
    requires HEADER_SIZE <= padding && padding + size <= bs[i].size
    ensures var cs := CutPadding(bs, i, padding);
            && Layout(Allocate(cs, i + 1, size), lo, hi)
            && Live(Allocate(cs, i + 1, size)) == Live(bs) + {Allocated(cs, i + 1, size)}
            && Allocated(cs, i + 1, size) !in Live(bs)
  {
    hide Allocate, Live;
    var cs := CutPadding(bs, i, padding);
    CutPaddingTiles(bs, lo, hi, i, padding);
    AllocateTiles(cs, lo, hi, i + 1, size);
    AllocateLive(cs, lo, hi, i + 1, size);
    CutPaddingLive(bs, i, padding);
    CutPaddingCoalesced(bs, i, padding, size);
  }

  lemma CutPaddingCoalesced(bs: seq<Block>, i: nat, padding: nat, size: nat)
    requires Coalesced(bs) && i < |bs| && bs[i].free
    requires HEADER_SIZE <= padding && padding + size <= bs[i].size
    ensures Coalesced(Allocate(CutPadding(bs, i, padding), i + 1, size))
  {
    var ds := Allocate(CutPadding(bs, i, padding), i + 1, size);
    var d := |ds| - |bs|;
    forall k | 0 <= k < |ds| - 1 ensures NotBothFree(ds, k) {
      if k < i { assert NotBothFree(bs, k); } else if k >= i + d { assert NotBothFree(bs, k - d); }
    }
  }

  lemma CutPaddingTiles(bs: seq<Block>, lo: nat, hi: nat, i: nat, padding: nat)
    requires Tiles(bs, lo, hi) && i < |bs| && HEADER_SIZE <= padding <= bs[i].size
    ensures Tiles(CutPadding(bs, i, padding), lo, hi)
  {
    var cs := CutPadding(bs, i, padding);
    forall k | 0 <= k < |cs| - 1 ensures Abut(cs, k) {
      if k < i { assert Abut(bs, k); } else if k > i { assert Abut(bs, k - 1); }
    }
  }

  lemma CutPaddingLive(bs: seq<Block>, i: nat, padding: nat)
    requires i < |bs| && HEADER_SIZE <= padding <= bs[i].size && bs[i].free
    ensures Live(CutPadding(bs, i, padding)) == Live(bs)
  {
    var cs := CutPadding(bs, i, padding);
    forall b | b in Live(bs) ensures b in Live(cs) {
      var k :| 0 <= k < |bs| && bs[k] == b;
      assert cs[if k < i then k else k + 1] == b;
    }
    forall b | b in Live(cs) ensures b in Live(bs) {
      var k :| 0 <= k < |cs| && cs[k] == b;
      assert bs[if k < i then k else k - 1] == b;
    }
  }

  /** Block b can serve a page-aligned request of the given size. */
  predicate AlignedRoom(b: Block, size: nat)
    requires b.Payload() + HEADER_SIZE + PAGE_SIZE <= WORD
  {
    size <= b.size && (IsPageAligned(b.Payload()) || Padding(b) + size <= b.size)
  }

  function AllocateAligned(bs: seq<Block>, i: nat, size: nat): seq<Block>
    requires i < |bs| && bs[i].Payload() + HEADER_SIZE + PAGE_SIZE <= WORD && AlignedRoom(bs[i], size)
  {
    if IsPageAligned(bs[i].Payload()) then Allocate(bs, i, size)
    else Allocate(CutPadding(bs, i, Padding(bs[i])), i + 1, size)
  }

  /** Where the block handed out by an aligned allocation is in the new list. */
  function AlignedIndex(bs: seq<Block>, i: nat): nat
    requires i < |bs|
  {
    if IsPageAligned(bs[i].Payload()) then i else i + 1
  }

  /** An aligned allocation keeps the layout well-formed and adds one live block, page-aligned and
      large enough. */
  lemma AllocateAlignedKeepsLayout(bs: seq<Block>, lo: nat, hi: nat, i: nat, size: nat)
    requires Layout(bs, lo, hi) && i < |bs| && bs[i].free
    requires bs[i].Payload() + HEADER_SIZE + PAGE_SIZE <= WORD && AlignedRoom(bs[i], size)
    ensures var cs := AllocateAligned(bs, i, size);
            var k := AlignedIndex(bs, i);
            && Layout(cs, lo, hi)
            && k < |cs| && IsPageAligned(cs[k].Payload()) && size <= cs[k].size
            && Live(cs) == Live(bs) + {cs[k]} && cs[k] !in Live(bs)
  {
    hide Padding, Allocate, Live, Tiles, Coalesced, IsPageAligned;
    if IsPageAligned(bs[i].Payload()) {
      AllocateKeepsLayout(bs, lo, hi, i, size);
      AllocateTiles(bs, lo, hi, i, size);
    } else {
      var cs := CutPadding(bs, i, Padding(bs[i]));
      CutPaddingKeepsLayout(bs, lo, hi, i, Padding(bs[i]), size);
      CutPaddingTiles(bs, lo, hi, i, Padding(bs[i]));
      AllocateTiles(cs, lo, hi, i + 1, size);
    }
  }

  /** Releasing what a page-aligned allocation handed out restores the block list, padding
      included. */
  lemma AllocateAlignedThenRelease(bs: seq<Block>, lo: nat, hi: nat, i: nat, size: nat)
    requires Layout(bs, lo, hi) && i < |bs| && bs[i].free
    requires bs[i].Payload() + HEADER_SIZE + PAGE_SIZE <= WORD && AlignedRoom(bs[i], size)
    ensures AlignedIndex(bs, i) < |AllocateAligned(bs, i, size)|
    ensures Release(AllocateAligned(bs, i, size), AlignedIndex(bs, i)) == bs
  {
    var cs, k := AllocateAligned(bs, i, size), AlignedIndex(bs, i);
    AllocateAlignedKeepsLayout(bs, lo, hi, i, size);
    hide *;
    assert cs[k] in Live(cs);
    assert !cs[k].free by { LiveNotFree(cs, k); }
    ReleaseKeepsLayout(cs, lo, hi, k);
    LiveDeterminesLayout(Release(cs, k), bs, lo, hi);
  }

  lemma LiveNotFree(bs: seq<Block>, k: nat)
    requires k < |bs| && bs[k] in Live(bs)
    ensures !bs[k].free
  {}

  // ----- best fit -----

  /** The offset the search adds to a header address: the header size scaled by the header size,
      because the sum is taken on a header pointer. */
  const SEARCH_OFFSET: nat := HEADER_SIZE * HEADER_SIZE

  /** What the search tests of a free block, in 32-bit arithmetic. */
  predicate Passes(b: Block, size: word, align: bool) {
    var data := Wrap(b.addr + SEARCH_OFFSET);
    var end := Wrap(data + b.size);
    var start := if align && !IsPageAligned(data) then AlignUp(Wrap(data + HEADER_SIZE)) else data;
    Wrap(start + size) <= end
  }

  predicate Candidate(b: Block, size: word, align: bool) { b.free && Passes(b, size, align) }

  /** What a caller wants of a block for an unaligned request. */
  predicate Fits(b: Block, size: nat) { b.free && size <= b.size }

  ghost function Candidates(bs: seq<Block>, size: word, align: bool): set<nat> {
    set i: nat | i < |bs| && Candidate(bs[i], size, align)
  }

  ghost function Fitting(bs: seq<Block>, size: nat): set<nat> {
    set i: nat | i < |bs| && Fits(bs[i], size)
  }

  /** i is the first of the smallest blocks among those in s. */
  ghost predicate FirstSmallest(bs: seq<Block>, s: set<nat>, i: nat) {
    && i in s && i < |bs|
    && forall j :: j in s && j < |bs| ==> bs[i].size < bs[j].size || (bs[i].size == bs[j].size && i <= j)
  }

  /** The search sum of no free block leaves the 32-bit range. */
  ghost predicate NoWrap(bs: seq<Block>, size: nat, align: bool) {
    forall i :: 0 <= i < |bs| && bs[i].free ==>
      bs[i].addr + SEARCH_OFFSET + (if align then HEADER_SIZE + PAGE_SIZE else 0) + size < WORD
  }

  /** For unaligned requests the search accepts exactly the blocks that are large enough, if and
      only if no search sum wraps. */
  lemma SearchIsExact(bs: seq<Block>, lo: nat, hi: nat, size: word)
    requires Tiles(bs, lo, hi) && hi + SEARCH_OFFSET <= WORD
    ensures Candidates(bs, size, false) == Fitting(bs, size) <==> NoWrap(bs, size, false)
  {
    forall i: nat | i < |bs| && bs[i].free
      ensures bs[i].addr + SEARCH_OFFSET + size < WORD <==> (i in Candidates(bs, size, false) <==> i in Fitting(bs, size))
    {
      InRange(bs, lo, hi, i);
      PassesExact(bs[i], size);
    }
    hide Passes;
    forall i: nat | i < |bs| ensures i in Candidates(bs, size, false) || i in Fitting(bs, size) ==> bs[i].free {}
  }

  /** In the n bytes from `start` on, `size` bytes fit at a page boundary that is `start` itself or
      leaves room for a header behind it. */
  ghost predicate AlignedSpan(start: nat, n: nat, size: nat) {
    exists a: nat :: IsPageAligned(a) && (a == start || start + HEADER_SIZE <= a) && a + size <= start + n
  }

  /** What the aligned search looks for: the bytes it measures start where its scaled offset leads. */
  ghost function AlignedFitting(bs: seq<Block>, size: nat): set<nat> {
    set i: nat | i < |bs| && bs[i].free && AlignedSpan(bs[i].addr + SEARCH_OFFSET, bs[i].size, size)
  }

  /** The aligned search accepts exactly the free blocks with a fitting page boundary behind the
      scaled offset. */
  lemma AlignedSearchIsExact(bs: seq<Block>, lo: nat, hi: nat, size: word)
    requires Tiles(bs, lo, hi) && hi + SEARCH_OFFSET <= WORD && NoWrap(bs, size, true)
    ensures Candidates(bs, size, true) == AlignedFitting(bs, size)
  {
    forall i: nat | i < |bs| && bs[i].free
      ensures Passes(bs[i], size, true) <==> AlignedSpan(bs[i].addr + SEARCH_OFFSET, bs[i].size, size)
    {
      InRange(bs, lo, hi, i);
      PassesAligned(bs[i], size);
    }
    hide Passes, AlignedSpan;
  }

  lemma PassesAligned(b: Block, size: word)
    requires b.addr + SEARCH_OFFSET + b.size < WORD
    requires b.addr + SEARCH_OFFSET + HEADER_SIZE + PAGE_SIZE + size < WORD
    ensures Passes(b, size, true) <==> AlignedSpan(b.addr + SEARCH_OFFSET, b.size, size)
  {
    var data := b.addr + SEARCH_OFFSET;
    NoWrapBelow(data);
    NoWrapBelow(data + b.size);
    NoWrapBelow(data + HEADER_SIZE);
    NoWrapBelow(data + size);
    NoWrapBelow(AlignUp(data + HEADER_SIZE) + size);
    FirstBoundary(data, b.size, size);
    hide Wrap, AlignUp, IsPageAligned, AlignedSpan;
  }

  /** The boundary that the code tries decides. */
  lemma FirstBoundary(start: nat, n: nat, size: nat)
    requires start + HEADER_SIZE + PAGE_SIZE <= WORD
    ensures AlignedSpan(start, n, size) <==>
            (if IsPageAligned(start) then start else AlignUp(start + HEADER_SIZE)) + size <= start + n
  {
    var first := if IsPageAligned(start) then start else AlignUp(start + HEADER_SIZE);
    assert IsPageAligned(first) && (first == start || start + HEADER_SIZE <= first);
    if a: nat :| IsPageAligned(a) && (a == start || start + HEADER_SIZE <= a) && a + size <= start + n {
      if !IsPageAligned(start) { LeastAligned(start + HEADER_SIZE, a); }
    }
  }

  /** A block has room for an aligned request iff one of its page boundaries has. */
  lemma AlignedRoomIs(b: Block, size: nat)
    requires b.Payload() + HEADER_SIZE + PAGE_SIZE <= WORD
    ensures AlignedRoom(b, size) <==> AlignedSpan(b.Payload(), b.size, size)
  {
    FirstBoundary(b.Payload(), b.size, size);
    hide AlignedSpan, IsPageAligned;
  }

  /** A block that passes the search has room for the bare request. */
  lemma CandidateHasRoom(bs: seq<Block>, lo: nat, hi: nat, i: nat, size: word, align: bool)
    requires Tiles(bs, lo, hi) && hi + SEARCH_OFFSET <= WORD && NoWrap(bs, size, align)
    requires i in Candidates(bs, size, align)
    ensures size <= bs[i].size
    ensures align ==> bs[i].Payload() + HEADER_SIZE + PAGE_SIZE <= WORD
  {
    InRange(bs, lo, hi, i);
    hide Tiles;
    PassesRoom(bs[i], size, align);
  }

  /** The unaligned test is right about a block iff its sum does not wrap; when it wraps, the block
      passes although it is too small. */
  lemma PassesExact(b: Block, size: word)
    requires b.addr + SEARCH_OFFSET + b.size < WORD
    ensures b.addr + SEARCH_OFFSET + size < WORD <==> (Passes(b, size, false) <==> size <= b.size)
  {
    var data := b.addr + SEARCH_OFFSET;
    NoWrapBelow(data);
    NoWrapBelow(data + b.size);
    if data + size < WORD { NoWrapBelow(data + size); } else { WrapOnce(data + size); }
    hide Wrap;
  }

  lemma PassesRoom(b: Block, size: word, align: bool)
    requires b.addr + SEARCH_OFFSET + b.size < WORD && Passes(b, size, align)
    requires b.addr + SEARCH_OFFSET + (if align then HEADER_SIZE + PAGE_SIZE else 0) + size < WORD
    ensures size <= b.size
  {
    var data := b.addr + SEARCH_OFFSET;
    NoWrapBelow(data);
    NoWrapBelow(data + b.size);
    NoWrapBelow(data + size);
    if align {
      NoWrapBelow(data + HEADER_SIZE);
      NoWrapBelow(AlignUp(data + HEADER_SIZE) + size);
    }
    hide Wrap, AlignUp, IsPageAligned;
  }

  /** Among the first k blocks, i is the first of the smallest candidates, or there is none. */
  ghost predicate BestSoFar(bs: seq<Block>, size: word, align: bool, found: bool, i: nat, k: nat)
    requires k <= |bs|
  {
    if found then
      && i < k && Candidate(bs[i], size, align)
      && forall j :: 0 <= j < k && Candidate(bs[j], size, align) ==>
           bs[i].size < bs[j].size || (bs[i].size == bs[j].size && i <= j)
    else forall j :: 0 <= j < k ==> !Candidate(bs[j], size, align)
  }

  lemma SearchDone(bs: seq<Block>, size: word, align: bool, found: bool, i: nat)
    requires BestSoFar(bs, size, align, found, i, |bs|)
    ensures found ==> FirstSmallest(bs, Candidates(bs, size, align), i)
    ensures found <==> Candidates(bs, size, align) != {}
  {
    assert found ==> i in Candidates(bs, size, align);
  }
}
