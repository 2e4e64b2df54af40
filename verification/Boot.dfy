/** The memory part of the boot sequence: pmm_init, vmm_init and kheap_init in a row. */
module Boot {
  import opened Basics
  import opened Word32
  import opened Pmm
  import Memory
  import Placement
  import HeapLayout
  import KernelHeap
  import HeapRuns
  import Vmm

  /** Where the linker and the boot loader put things: the placement area lies in the kernel image,
      and the heap fits above the image. */
  ghost predicate Placed(start: word, end: word) {
    && Vmm.KERNEL_START <= start && start + Placement.PLACEMENT_SIZE <= end
    && end + PAGE_SIZE + KernelHeap.KHEAP_HEAP_SIZE + HeapLayout.SEARCH_OFFSET <= WORD
  }

  const HEAP_PAGES: nat := 8192

  /** The heap range of a booted machine: it starts right after the kernel image, every address of
      it is mapped, for the kernel and for the paging unit alike, and the frames behind it come from
      available regions. */
  ghost predicate HeapMapped(m: Vmm.Manager, base: nat, rs: seq<Region>)
    reads m
  {
    && m.dir.Shape() && base == m.LinearEnd() * PAGE_SIZE
    && forall p: Vmm.page :: base / PAGE_SIZE <= p < base / PAGE_SIZE + HEAP_PAGES ==>
         p in Vmm.Present(m.dir) && Available(rs, Vmm.Present(m.dir)[p])
  }

  /** Right after vmm_init the lowest run of unused pages starts after the kernel image. */
  lemma LowestAfterKernel(k: nat, r: nat, n: nat)
    requires Vmm.KERNEL_PAGE + k + n <= Vmm.PAGES && 0 < n
    ensures Vmm.SearchStaysInKernel(Vmm.LinearMap(k), n)
    ensures Vmm.LowestIn(Vmm.LinearMap(k), r, n) ==> r == Vmm.KERNEL_PAGE + k
  {
    Vmm.LinearMapAt(k);
    assert Vmm.KernelRun(Vmm.LinearMap(k), Vmm.KERNEL_PAGE + k, n);
    if Vmm.LowestIn(Vmm.LinearMap(k), r, n) {
      assert r !in Vmm.LinearMap(k);
    }
  }

  /** The frames that back the heap were free after pmm_init. */
  lemma HeapPages(m: map<Vmm.page, frame>, r: nat, fs: seq<frame>, marked: set<nat>, low: set<nat>, rs: seq<Region>)
    requires r + |fs| <= Vmm.PAGES && Vmm.Fresh(fs, marked + low)
    requires forall f :: f in marked <==> 0 <= f < ALL_FRAMES && !Available(rs, f)
    ensures forall p: Vmm.page :: r <= p < r + |fs| ==>
              p in Vmm.MapRun(m, r, fs) && Available(rs, Vmm.MapRun(m, r, fs)[p])
  {
    forall p: Vmm.page | r <= p < r + |fs|
      ensures p in Vmm.MapRun(m, r, fs) && Available(rs, Vmm.MapRun(m, r, fs)[p])
    {
      Vmm.MapRunAt(m, r, fs, p);
      assert fs[p - r] !in marked + low;
    }
  }

  /** The pages of the low window and the kernel image. */
  function ImagePages(end: word): nat
    requires Vmm.KERNEL_START <= end
  {
    Vmm.KERNEL_START / PAGE_SIZE - Vmm.KERNEL_PAGE + Vmm.DivUp(end - Vmm.KERNEL_START, PAGE_SIZE)
  }

  /** The frames of available regions that lie behind the kernel image. */
  ghost function Usable(rs: seq<Region>, image: nat): set<nat> {
    set f: nat | image <= f < NUM_MEMORY_FRAMES && Available(rs, f)
  }

  /** Two pages for the directory, and the tables of the linear range and of the heap. */
  ghost function TablesFor(pages: nat): nat
    requires Vmm.KERNEL_PAGE + pages <= Vmm.PAGES
  {
    2 + Vmm.Needed({}, Vmm.KERNEL_PAGE, pages)
  }

  /** One table for every 1024 pages, the last one perhaps in part. */
  lemma {:induction false} TablesNeeded(pages: nat)
    requires Vmm.KERNEL_PAGE + pages <= Vmm.PAGES
    ensures TablesFor(pages) == 2 + Vmm.DivUp(pages, 1024)
  {
    if pages == 0 {
      Vmm.NeededNone({}, Vmm.KERNEL_PAGE);
    } else {
      var n := pages - 1;
      TablesNeeded(n);
      LastDirectory(n);
      DivUpNext(n);
      hide Vmm.DivUp, Vmm.DirectoryIndex, Vmm.Needed, Vmm.Grown, Vmm.DirectoriesOf;
      Vmm.NeededSplit({}, Vmm.KERNEL_PAGE, n, 1);
      Vmm.NeededIs({}, Vmm.KERNEL_PAGE, n);
      var have := Vmm.Grown({}, Vmm.KERNEL_PAGE, n);
      Vmm.NeededNext(have, Vmm.KERNEL_PAGE + n, 1);
      Vmm.NeededNone(have + {Vmm.DirectoryIndex(Vmm.KERNEL_PAGE + n)}, Vmm.KERNEL_PAGE + pages);
    }
  }

  lemma DivUpNext(n: nat)
    ensures Vmm.DivUp(n + 1, 1024) == Vmm.DivUp(n, 1024) + if n % 1024 == 0 then 1 else 0
  {}

  lemma LastDirectory(n: nat)
    requires Vmm.KERNEL_PAGE + n < Vmm.PAGES
    ensures Vmm.DirectoryIndex(Vmm.KERNEL_PAGE + n) in Vmm.DirectoriesOf(Vmm.KERNEL_PAGE, n) <==> n % 1024 != 0
  {
    var d := Vmm.DirectoryIndex(Vmm.KERNEL_PAGE + n);
    if n % 1024 != 0 {
      var q := Vmm.KERNEL_PAGE + n - 1;
      assert Vmm.DirectoryIndex(q) == d;
    } else {
      forall q: nat | Vmm.KERNEL_PAGE <= q < Vmm.KERNEL_PAGE + n ensures Vmm.DirectoryIndex(q) != d {}
    }
  }

  /** pmm_init and vmm_init. */
  method StartPaging(arena: Placement.Arena, end: word, rs: seq<Region>)
    returns (o: Outcome<()>, m: Vmm.Manager, ghost reserved: set<nat>)
    requires arena.Valid() && Placed(arena.start, end) && WellFormed(rs)
    modifies arena
    ensures fresh(m) && fresh(m.frames) && fresh(m.frames.bitmap)
    ensures m.Valid() && m.kernelEnd == end && m.arena == arena
    ensures o.Returned? <==> TablesFor(ImagePages(end)) <= Placement.Room(old(arena.head), old(arena.left))
    ensures o.Returned? ==>
              && Vmm.Ready(Vmm.Present(m.dir), m.frames.Marked(), m.LinearEnd())
              && Vmm.Present(m.dir) == Vmm.LinearMap(ImagePages(end))
              && m.frames.Marked() == reserved + Vmm.FramesBelow(ImagePages(end))
              && Vmm.Tables(m.dir) == Vmm.Grown({}, Vmm.KERNEL_PAGE, ImagePages(end))
              && m.Room() == Placement.Room(old(arena.head), old(arena.left)) - TablesFor(ImagePages(end))
    ensures forall f :: f in reserved <==> 0 <= f < ALL_FRAMES && !Available(rs, f)
  {
    var frames := new FrameMap(rs);
    m := new Vmm.Manager(end, frames, arena);
    hide MarkedIn, Vmm.Needed, Vmm.Grown;
    reserved := m.frames.Marked();
    Blank(m);
    o := m.Init();
  }

  lemma Blank(m: Vmm.Manager)
    requires m.dir == Vmm.Directory(seq(1024, _ => Vmm.EMPTY_PDE), seq(1024, _ => NULL), map[])
    ensures m.dir.Shape() && Vmm.KernelEntries(m.dir) && Vmm.Present(m.dir) == map[] && Vmm.Tables(m.dir) == {}
  {}

  /** After vmm_init the frames that a map call can take are the usable ones. */
  lemma FreeIsUsable(rs: seq<Region>, reserved: set<nat>, image: nat)
    requires forall f :: f in reserved <==> 0 <= f < ALL_FRAMES && !Available(rs, f)
    requires Vmm.KERNEL_PAGE + image <= Vmm.PAGES
    ensures Vmm.FreeFrom(reserved + Vmm.FramesBelow(image), NULL) == Usable(rs, image)
  {
    Vmm.LinearMapAt(image);
  }

  lemma HeapRunThere(image: nat)
    requires Vmm.KERNEL_PAGE + image + HEAP_PAGES <= Vmm.PAGES
    ensures Vmm.HasRun(Vmm.LinearMap(image), HEAP_PAGES) && Vmm.SearchStaysInKernel(Vmm.LinearMap(image), HEAP_PAGES)
  {
    Vmm.LinearMapAt(image);
    assert Vmm.KernelRun(Vmm.LinearMap(image), Vmm.KERNEL_PAGE + image, HEAP_PAGES);
  }

  /** The whole sequence.  The machine comes up exactly when the placement area has room for the
      directory and all tables, and the regions have frames for the heap behind the kernel image.
      Then the heap is one free block right after the kernel image, backed page by page by frames of
      available regions that nothing else uses. */
  method Start(arena: Placement.Arena, end: word, rs: seq<Region>, memory: Memory.Mem)
    returns (o: Outcome<()>, m: Vmm.Manager, h: KernelHeap.Heap)
    requires arena.Valid() && Placed(arena.start, end) && WellFormed(rs)
    modifies arena
    ensures o.Returned? <==>
              && TablesFor(ImagePages(end) + HEAP_PAGES) <= Placement.Room(old(arena.head), old(arena.left))
              && HEAP_PAGES <= |Usable(rs, ImagePages(end))|
    ensures o.Returned? ==>
              && m.Valid() && Vmm.Ready(Vmm.Present(m.dir), m.frames.Marked(), m.LinearEnd())
              && h.Valid() && h.blocks == HeapRuns.Initial(h.base) && HeapMapped(m, h.base, rs)
              && m.arena == arena && h.placement == arena.start && end <= h.base < end + PAGE_SIZE
  {
    hide MarkedIn, Vmm.Ready, Vmm.Present, Vmm.MapRun, Vmm.Fresh, Vmm.LinearMap, Vmm.FramesBelow, Vmm.LowestIn, Placement.Room;
    hide Vmm.SearchStaysInKernel, Vmm.Directory.Shape, Vmm.KernelEntries, Vmm.Elements, Vmm.Needed, Vmm.Grown, Vmm.Tables;
    hide Vmm.DirectoriesOf, Vmm.HasRun, Usable, Vmm.FreeFrom;
    ghost var reserved, fs, p, mapped;
    ghost var image := ImagePages(end);
    Vmm.NeededSplit({}, Vmm.KERNEL_PAGE, image, HEAP_PAGES);
    h := new KernelHeap.Heap(memory, arena.start);
    o, m, reserved := StartPaging(arena, end, rs);
    if o.Panicked? {
      return;
    }
    HeapRunThere(image);
    FreeIsUsable(rs, reserved, image);
    var base;
    base, p, fs, mapped := m.MapMemory(NULL, NULL, KernelHeap.KHEAP_HEAP_SIZE);
    LowestAfterKernel(image, p, HEAP_PAGES);
    if base.Panicked? {
      return Panicked, m, h;
    }
    if mapped {
      HeapPages(Vmm.LinearMap(image), p, fs, reserved, Vmm.FramesBelow(image), rs);
    }
    var r := h.Init(base.value);
    o := if r.Panicked? then Panicked else Returned(());
  }

  /** Memory that the placement area handed out can be given to kfree on a booted machine, which
      neither stops nor changes anything. */
  method FreeEarlyMemory(arena: Placement.Arena, h: KernelHeap.Heap, size: word, align: bool)
    returns (p: word, freed: Outcome<()>)
    requires arena.Valid() && h.Valid() && h.placement == arena.start
    requires 0 < size && Placement.Skip(arena.head, align) + size < WORD
    modifies arena, h
    ensures arena.Valid() && h.Valid() && h.mem == old(h.mem) && h.tail == old(h.tail) && h.blocks == old(h.blocks)
    ensures p != NULL ==> freed.Returned? && h.IsPlacement(p)
  {
    hide HeapLayout.Live, HeapLayout.Release, HeapLayout.Tiles, HeapLayout.Coalesced, KernelHeap.NonEmpty, KernelHeap.LiveKept;
    hide KernelHeap.ForwardLinked, KernelHeap.BackLinkedBut;
    freed := Returned(());
    p := arena.KMalloc(size, align);
    if p != NULL {
      ghost var i;
      KernelHeap.LiveInHeap(h.blocks, h.base, h.base + KernelHeap.KHEAP_HEAP_SIZE, p);
      freed, i := h.KFree(p);
    }
  }
}
