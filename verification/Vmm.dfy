/** The virtual memory manager: a two-level page directory, kept once for the paging unit
    (`entries`, physical bases) and once for the kernel (`tables`, pointers). */
module Vmm {
  import opened Basics
  import opened Word32
  import opened Pmm
  import Placement

  const KERNEL_BASE: word := 0xC000_0000
  const KERNEL_PAGE: nat := 0xC_0000
  const KERNEL_SPACE_SIZE: word := 0x3FFF_FFFF
  const REAL_MODE_SIZE: nat := 0x0010_0000
  const KERNEL_START: word := 0xC010_0000
  const DIRECTORY_BYTES: nat := 8192
  const PAGES: nat := 0x10_0000

  type page = p: nat | p < 0x10_0000

  datatype Pte = Pte(present: bool, write: bool, user: bool, used: bool, base: frame)
  datatype Pde = Pde(present: bool, write: bool, user: bool, large: bool, base: frame)

  const EMPTY_PTE: Pte := Pte(false, false, false, false, 0)
  const EMPTY_PDE: Pde := Pde(false, false, false, false, 0)

  /** What kmalloc leaves in a zero-initialised page table. */
  function EmptyTable(): (t: seq<Pte>)
    ensures |t| == 1024 && forall i :: 0 <= i < 1024 ==> t[i] == EMPTY_PTE
  {
    seq(1024, _ => EMPTY_PTE)
  }

  function Bit(b: bool, weight: nat): nat { if b then weight else 0 }

  /** The 32-bit formats of section 4.3 of the Intel SDM, volume 3A: bit 0 present, bit 1 writable,
      bit 2 user, bit 7 page size, bits 11-9 for software, bits 31-12 the base. */
  function PteWord(e: Pte): word {
    Bit(e.present, 1) + Bit(e.write, 2) + Bit(e.user, 4) + Bit(e.used, 0x200) + e.base * PAGE_SIZE
  }

  function PdeWord(e: Pde): word {
    Bit(e.present, 1) + Bit(e.write, 2) + Bit(e.user, 4) + Bit(e.large, 0x80) + e.base * PAGE_SIZE
  }

  function TableWords(es: seq<Pte>): (ws: seq<word>)
    ensures |ws| == |es| && forall i :: 0 <= i < |es| ==> ws[i] == PteWord(es[i])
  {
    seq(|es|, i requires 0 <= i < |es| => PteWord(es[i]))
  }

  function DirectoryIndex(p: page): nat { p / 1024 }
  function TableIndex(p: page): nat { p % 1024 }

  /** Splitting an address into directory index, table index and offset loses nothing, and the
      page of an address is its directory and table index taken together. */
  lemma AddressSplit(va: word)
    ensures va / 0x40_0000 == DirectoryIndex(va / PAGE_SIZE) < 1024
    ensures TableIndex(va / PAGE_SIZE) < 1024
    ensures va == (va / 0x40_0000) * 0x40_0000 + TableIndex(va / PAGE_SIZE) * PAGE_SIZE + va % PAGE_SIZE
  {}

  /** The content of the page directory, the tables it points to, and their physical place. */
  datatype Directory = Directory(entries: seq<Pde>, tables: seq<word>, store: map<word, seq<Pte>>) {

    /** Entry d is empty on both sides, or both sides name the same, linearly mapped table. */
    ghost predicate EntryOk(d: nat)
      requires d < |tables| && d < |entries|
    {
      if tables[d] == NULL then entries[d] == EMPTY_PDE
      else
        && tables[d] in store && |store[tables[d]]| == 1024
        && entries[d].present && entries[d].write && entries[d].user && !entries[d].large
        && KERNEL_BASE <= tables[d] && entries[d].base * PAGE_SIZE == tables[d] - KERNEL_BASE
    }

    ghost predicate Distinct(d: nat, e: nat)
      requires d < |tables| && e < |tables|
    {
      d != e && tables[d] != NULL ==> tables[d] != tables[e]
    }

    ghost predicate Shape() {
      && |entries| == 1024 && |tables| == 1024
      && (forall d: nat :: d < 1024 ==> EntryOk(d))
      && (forall d: nat, e: nat :: d < 1024 && e < 1024 ==> Distinct(d, e))
    }

    /** vmm_get_page_entry. */
    function Entry(p: page): Option<Pte>
      requires Shape()
    {
      var t := tables[DirectoryIndex(p)];
      if t == NULL then None else (assert EntryOk(DirectoryIndex(p)); Some(store[t][TableIndex(p)]))
    }

    /** The frame behind page p for the kernel's own walk. */
    function Frame(p: page): Option<frame>
      requires Shape()
    {
      match Entry(p)
      case None => None
      case Some(e) => if e.present then Some(e.base) else None
    }

    /** The kernel's translation of an address. */
    function SoftwareWalk(va: word): Option<word>
      requires Shape()
    {
      match Frame(va / PAGE_SIZE)
      case None => None
      case Some(f) => Some(f * PAGE_SIZE + va % PAGE_SIZE)
    }

    /** The words of physical frame f, when a page table lies there. */
    function FrameWords(f: frame): Option<seq<word>> {
      var t := f * PAGE_SIZE + KERNEL_BASE;
      if t < WORD && t in store && |store[t]| == 1024 then Some(TableWords(store[t])) else None
    }

    /** The translation of the paging unit: it sees words and physical bases only. */
    function HardwareWalk(va: word): Option<word>
      requires |entries| == 1024
    {
      var pde := PdeWord(entries[va / 0x40_0000]);
      if pde % 2 == 0 then None
      else
        match FrameWords(pde / PAGE_SIZE)
        case None => None
        case Some(words) =>
          var pte := words[va / PAGE_SIZE % 1024];
          if pte % 2 == 0 then None else Some(pte / PAGE_SIZE * PAGE_SIZE + va % PAGE_SIZE)
    }
  }

  /** The pages that are mapped, with the frames behind them. */
  ghost function Present(dir: Directory): map<page, frame>
    requires dir.Shape()
  {
    map p: page | 0 <= p < 0x10_0000 && dir.Frame(p).Some? :: dir.Frame(p).value
  }

  /** The directory entries that have a page table. */
  ghost function Tables(dir: Directory): set<nat> {
    set d: nat | d < |dir.tables| && dir.tables[d] != NULL
  }

  // ----- the two updates of vmm_map_page -----

  lemma TableOk(dir: Directory, d: nat)
    requires dir.Shape() && d < 1024
    ensures dir.EntryOk(d)
  {}

  /** A fresh, zeroed table at virtual address t whose physical address is pa. */
  function WithTable(dir: Directory, d: nat, t: word, pa: word): Directory
    requires d < |dir.entries| && d < |dir.tables|
  {
    Directory(
      dir.entries[d := Pde(true, true, true, false, pa / PAGE_SIZE)],
      dir.tables[d := t],
      dir.store[t := EmptyTable()])
  }

  function WithEntry(dir: Directory, p: page, e: Pte): Directory
    requires dir.Shape() && dir.tables[DirectoryIndex(p)] != NULL
  {
    TableOk(dir, DirectoryIndex(p));
    var t := dir.tables[DirectoryIndex(p)];
    Directory(dir.entries, dir.tables, dir.store[t := dir.store[t][TableIndex(p) := e]])
  }

  lemma WithTableKeeps(dir: Directory, d: nat, t: word, pa: word)
    requires dir.Shape() && d < 1024 && dir.tables[d] == NULL
    requires t != NULL && t !in dir.store && IsPageAligned(t) && KERNEL_BASE <= t && pa == t - KERNEL_BASE
    ensures WithTable(dir, d, t, pa).Shape()
    ensures forall p: page :: WithTable(dir, d, t, pa).Frame(p) == dir.Frame(p)
    ensures forall p: page :: WithTable(dir, d, t, pa).Entry(p) ==
              if DirectoryIndex(p) == d then Some(EMPTY_PTE) else dir.Entry(p)
  {
    var dir' := WithTable(dir, d, t, pa);
    forall k: nat | k < 1024 ensures dir'.EntryOk(k) {
      assert dir.EntryOk(k);
    }
    forall k: nat, l: nat | k < 1024 && l < 1024 ensures dir'.Distinct(k, l) {
      assert dir.EntryOk(k) && dir.EntryOk(l) && dir.Distinct(k, l);
    }
    forall p: page
      ensures dir'.Entry(p) == if DirectoryIndex(p) == d then Some(EMPTY_PTE) else dir.Entry(p)
      ensures dir'.Frame(p) == dir.Frame(p)
    {
      assert dir.EntryOk(DirectoryIndex(p)) && dir'.EntryOk(DirectoryIndex(p));
    }
  }

  lemma WithEntryKeeps(dir: Directory, p: page, e: Pte)
    requires dir.Shape() && dir.tables[DirectoryIndex(p)] != NULL
    ensures WithEntry(dir, p, e).Shape() && WithEntry(dir, p, e).store.Keys == dir.store.Keys
    ensures forall q: page :: WithEntry(dir, p, e).Entry(q) == if q == p then Some(e) else dir.Entry(q)
  {
    var dir' := WithEntry(dir, p, e);
    assert dir.EntryOk(DirectoryIndex(p));
    forall k: nat | k < 1024 ensures dir'.EntryOk(k) {
      assert dir.EntryOk(k) && dir.EntryOk(DirectoryIndex(p));
    }
    forall k: nat, l: nat | k < 1024 && l < 1024 ensures dir'.Distinct(k, l) {
      assert dir.Distinct(k, l);
    }
    forall q: page ensures dir'.Entry(q) == if q == p then Some(e) else dir.Entry(q) {
      assert dir.EntryOk(DirectoryIndex(q)) && dir'.EntryOk(DirectoryIndex(q));
      assert dir.EntryOk(DirectoryIndex(p)) && dir.Distinct(DirectoryIndex(p), DirectoryIndex(q));
    }
  }

  lemma MappedOne(dir: Directory, p: page, e: Pte)
    requires dir.Shape() && dir.tables[DirectoryIndex(p)] != NULL && e.present
    ensures WithEntry(dir, p, e).Shape()
    ensures Present(WithEntry(dir, p, e)) == Present(dir)[p := e.base]
  {
    WithEntryKeeps(dir, p, e);
    var dir' := WithEntry(dir, p, e);
    forall q: page ensures dir'.Frame(q) == if q == p then Some(e.base) else dir.Frame(q) {
      assert dir'.Entry(q) == if q == p then Some(e) else dir.Entry(q);
    }
  }

  lemma PteDecodes(e: Pte)
    ensures PteWord(e) % 2 == (if e.present then 1 else 0) && PteWord(e) / PAGE_SIZE == e.base
  {}

  lemma PdeDecodes(e: Pde)
    ensures PdeWord(e) % 2 == (if e.present then 1 else 0) && PdeWord(e) / PAGE_SIZE == e.base
  {}

  /** The paging unit and the kernel agree on every address. */
  lemma WalksAgree(dir: Directory, va: word)
    requires dir.Shape()
    ensures dir.HardwareWalk(va) == dir.SoftwareWalk(va)
  {
    AddressSplit(va);
    var d := va / 0x40_0000;
    assert dir.EntryOk(d);
    PdeDecodes(dir.entries[d]);
    if dir.tables[d] != NULL {
      var words := dir.FrameWords(dir.entries[d].base);
      PteDecodes(dir.store[dir.tables[d]][va / PAGE_SIZE % 1024]);
    }
  }

  // ----- what a map call uses up -----

  /** The tables that n pages from p on need beyond those of `have`. */
  ghost function Needed(have: set<nat>, p: nat, n: nat): nat
    requires p + n <= PAGES
    decreases n
  {
    if n == 0 then 0
    else (if DirectoryIndex(p) in have then 0 else 1) + Needed(have + {DirectoryIndex(p)}, p + 1, n - 1)
  }

  /** The tables there are when the pages are mapped. */
  ghost function Grown(have: set<nat>, p: nat, n: nat): set<nat>
    requires p + n <= PAGES
    decreases n
  {
    if n == 0 then have else Grown(have + {DirectoryIndex(p)}, p + 1, n - 1)
  }

  lemma NeededNext(have: set<nat>, p: nat, n: nat)
    requires p + n <= PAGES && 0 < n
    ensures Needed(have, p, n) ==
            (if DirectoryIndex(p) in have then 0 else 1) + Needed(have + {DirectoryIndex(p)}, p + 1, n - 1)
    ensures Grown(have, p, n) == Grown(have + {DirectoryIndex(p)}, p + 1, n - 1)
  {}

  lemma NeededNone(have: set<nat>, p: nat)
    requires p <= PAGES
    ensures Needed(have, p, 0) == 0 && Grown(have, p, 0) == have
  {}

  lemma {:induction false} NeededSplit(have: set<nat>, p: nat, m: nat, n: nat)
    requires p + m + n <= PAGES
    ensures Needed(have, p, m + n) == Needed(have, p, m) + Needed(Grown(have, p, m), p + m, n)
    ensures Grown(have, p, m + n) == Grown(Grown(have, p, m), p + m, n)
    decreases m
  {
    if m > 0 { NeededSplit(have + {DirectoryIndex(p)}, p + 1, m - 1, n); }
  }

  /** They are the tables of the range that are not there yet, each counted once. */
  lemma {:induction false} NeededIs(have: set<nat>, p: nat, n: nat)
    requires p + n <= PAGES
    ensures Needed(have, p, n) == |DirectoriesOf(p, n) - have|
    ensures Grown(have, p, n) == have + DirectoriesOf(p, n)
    decreases n
  {
    hide Needed, Grown, DirectoriesOf, DirectoryIndex;
    if n == 0 {
      NeededNone(have, p);
      NoDirectories(p);
      assert {} - have == {} && have + {} == have;
    } else {
      DirectoriesNext(p, n);
      NeededNext(have, p, n);
      var d, rest := DirectoryIndex(p), DirectoriesOf(p + 1, n - 1);
      NeededIs(have + {d}, p + 1, n - 1);
      OneMore(rest, have, d);
    }
  }

  lemma DirectoriesNext(p: nat, n: nat)
    requires p + n <= PAGES && 0 < n
    ensures DirectoriesOf(p, n) == DirectoriesOf(p + 1, n - 1) + {DirectoryIndex(p)}
  {
    hide DirectoryIndex;
    var s, t := DirectoriesOf(p, n), DirectoriesOf(p + 1, n - 1);
    forall e | e in s ensures e in t + {DirectoryIndex(p)} {
      var q: nat :| p <= q < p + n && q < PAGES && e == DirectoryIndex(q);
      assert q == p || p + 1 <= q;
    }
    forall e | e in t + {DirectoryIndex(p)} ensures e in s {
      if e != DirectoryIndex(p) {
        var q: nat :| p + 1 <= q < p + n && q < PAGES && e == DirectoryIndex(q);
      }
    }
  }

  lemma NoDirectories(p: nat)
    ensures DirectoriesOf(p, 0) == {}
  {}

  lemma DirectoriesLast(p: nat, i: nat, n: nat)
    requires p + n <= PAGES && i < n
    ensures DirectoriesOf(p, i + 1) == DirectoriesOf(p, i) + {DirectoryIndex(p + i)}
    ensures DirectoryIndex(p + i) in DirectoriesOf(p, n)
  {
    hide DirectoryIndex;
    var s, t := DirectoriesOf(p, i + 1), DirectoriesOf(p, i);
    forall e | e in s ensures e in t + {DirectoryIndex(p + i)} {
      var q: nat :| p <= q < p + i + 1 && q < PAGES && e == DirectoryIndex(q);
      assert q == p + i || q < p + i;
    }
    forall e | e in t + {DirectoryIndex(p + i)} ensures e in s {
      if e != DirectoryIndex(p + i) {
        var q: nat :| p <= q < p + i && q < PAGES && e == DirectoryIndex(q);
      }
    }
  }

  lemma OneMore(rest: set<nat>, have: set<nat>, d: nat)
    ensures |rest + {d} - have| == (if d in have then 0 else 1) + |rest - (have + {d})|
    ensures have + {d} + rest == have + (rest + {d})
  {
    var a := rest - (have + {d});
    assert rest + {d} - have == if d in have then a else a + {d};
  }

  ghost function DirectoriesOf(p: nat, n: nat): set<nat> {
    set q: nat | p <= q < p + n && q < PAGES :: DirectoryIndex(q)
  }

  /** The frames a map call can take: the free ones from `start` on. */
  ghost function FreeFrom(marked: set<nat>, start: nat): set<nat> {
    set f: nat | start / PAGE_SIZE <= f < NUM_MEMORY_FRAMES && f !in marked
  }

  /** f is the lowest frame from `first` on that is neither marked nor among `before`. */
  ghost predicate LowestOne(f: frame, marked: set<nat>, before: seq<frame>, first: nat) {
    first <= f && forall g: nat :: first <= g < f ==> g in marked || g in before
  }

  /** Each of the frames fs is the lowest one when its turn comes. */
  ghost predicate TakesLowest(fs: seq<frame>, marked: set<nat>, first: nat) {
    forall i :: 0 <= i < |fs| ==> LowestOne(fs[i], marked, fs[..i], first)
  }

  lemma TakesNext(fs: seq<frame>, marked: set<nat>, first: nat, f: frame)
    requires TakesLowest(fs, marked, first) && first <= f
    requires forall g: nat :: first <= g < f ==> g in marked + Elements(fs)
    ensures TakesLowest(fs + [f], marked, first)
  {
    var gs := fs + [f];
    forall g: nat | first <= g < f ensures g in marked || g in fs {
      assert g in marked + Elements(fs);
    }
    assert LowestOne(f, marked, fs, first);
    hide LowestOne;
    forall i | 0 <= i < |gs| ensures LowestOne(gs[i], marked, gs[..i], first) {
      if i < |fs| {
        assert gs[..i] == fs[..i] && gs[i] == fs[i];
      } else {
        assert gs[..i] == fs && gs[i] == f;
      }
    }
  }

  /** The frames come in ascending order. */
  lemma TakesAscending(fs: seq<frame>, marked: set<nat>, first: nat, i: nat, j: nat)
    requires TakesLowest(fs, marked, first) && Fresh(fs, marked) && i < j < |fs|
    ensures fs[i] < fs[j]
  {
    assert LowestOne(fs[i], marked, fs[..i], first) && LowestOne(fs[j], marked, fs[..j], first);
    forall k | 0 <= k < i ensures fs[..i][k] != fs[j] { assert fs[..i][k] == fs[k]; }
    assert fs[j] !in fs[..i];
  }

  lemma FreshFrame(marked: set<nat>, start: nat, f: nat)
    requires f in FreeFrom(marked, start)
    ensures f !in marked && start / PAGE_SIZE <= f
  {}

  lemma FreeShrinks(marked: set<nat>, start: nat, f: nat)
    requires f in FreeFrom(marked, start)
    ensures FreeFrom(marked + {f}, start) == FreeFrom(marked, start) - {f}
    ensures |FreeFrom(marked + {f}, start)| == |FreeFrom(marked, start)| - 1
  {
    assert FreeFrom(marked + {f}, start) == FreeFrom(marked, start) - {f};
  }

  // ----- what the kernel relies on -----

  /** No two pages share a frame, and every frame behind a page is marked used. */
  ghost predicate Sound(m: map<page, frame>, marked: set<nat>) {
    && (forall p, q :: p in m && q in m && p != q ==> m[p] != m[q])
    && (forall p :: p in m ==> m[p] in marked)
  }

  /** The pages from the start of kernel space up to `end` are mapped linearly. */
  ghost predicate Linear(m: map<page, frame>, end: nat) {
    forall p: page :: KERNEL_PAGE <= p < end ==> p in m && m[p] == p - KERNEL_PAGE
  }

  /** An entry is marked used iff it is present, and then it is writable and for the supervisor. */
  predicate KernelEntry(e: Pte) {
    e.used == e.present && (e.present ==> e.write && !e.user)
  }

  ghost predicate KernelEntries(dir: Directory)
    requires dir.Shape()
  {
    forall p: page :: dir.Entry(p).Some? ==> KernelEntry(dir.Entry(p).value)
  }

  /** The words that the paging unit reads for a mapped address make its page writable, and keep it
      from user mode because the table entry does. */
  lemma MappedRights(dir: Directory, va: word)
    requires dir.Shape() && KernelEntries(dir) && dir.SoftwareWalk(va).Some?
    ensures PdeWord(dir.entries[va / 0x40_0000]) % 8 == 7
    ensures va / PAGE_SIZE < PAGES && dir.Entry(va / PAGE_SIZE).Some? && PteWord(dir.Entry(va / PAGE_SIZE).value) % 8 == 3
  {
    AddressSplit(va);
    TableOk(dir, va / 0x40_0000);
    var d, e := dir.entries[va / 0x40_0000], dir.Entry(va / PAGE_SIZE).value;
    assert KernelEntry(e);
    LowBits(d.base, Bit(d.large, 0x80) / 8);
    LowBits(e.base, Bit(e.used, 0x200) / 8);
  }

  lemma LowBits(base: nat, k: nat)
    ensures (7 + 8 * k + base * PAGE_SIZE) % 8 == 7 && (3 + 8 * k + base * PAGE_SIZE) % 8 == 3
  {
    LowThree(7, k + 512 * base);
    LowThree(3, k + 512 * base);
  }

  lemma LowThree(low: nat, x: nat)
    requires low < 8
    ensures (low + 8 * x) % 8 == low
  {}

  function DivUp(a: nat, b: nat): nat
    requires b > 0
  {
    (a + b - 1) / b
  }

  /** The pages of a range: enough of them, and not one too many. */
  lemma PagesCover(size: nat)
    ensures (DivUp(size, PAGE_SIZE) - 1) * PAGE_SIZE < size <= DivUp(size, PAGE_SIZE) * PAGE_SIZE
  {}

  /** The frames fs put behind the pages from p on. */
  ghost function MapRun(m: map<page, frame>, p: nat, fs: seq<frame>): map<page, frame>
    requires p + |fs| <= PAGES
  {
    if fs == [] then m else MapRun(m, p, fs[..|fs| - 1])[p + |fs| - 1 := fs[|fs| - 1]]
  }

  /** The linear map of the first n pages of kernel space. */
  ghost function LinearMap(n: nat): map<page, frame>
    requires KERNEL_PAGE + n <= PAGES
  {
    if n == 0 then map[] else LinearMap(n - 1)[KERNEL_PAGE + n - 1 := n - 1]
  }

  ghost function FramesBelow(n: nat): set<nat> {
    if n == 0 then {} else FramesBelow(n - 1) + {n - 1}
  }

  lemma LinearNext(k: nat)
    requires KERNEL_PAGE + k < PAGES
    ensures LinearMap(k + 1) == LinearMap(k)[KERNEL_PAGE + k := k]
    ensures FramesBelow(k + 1) == FramesBelow(k) + {k}
  {}

  lemma UnionNext(a: set<nat>, b: set<nat>, x: nat)
    ensures a + b + {x} == a + (b + {x})
  {}

  lemma {:induction false} LinearMapAt(n: nat)
    requires KERNEL_PAGE + n <= PAGES
    ensures forall p :: p in LinearMap(n) <==> KERNEL_PAGE <= p < KERNEL_PAGE + n
    ensures forall p :: p in LinearMap(n) ==> LinearMap(n)[p] == p - KERNEL_PAGE
    ensures forall f :: f in FramesBelow(n) <==> 0 <= f < n
  {
    if n > 0 { LinearMapAt(n - 1); }
  }

  lemma FramesGrow(marked: set<nat>, n: nat, k: nat)
    requires KERNEL_PAGE + n + k <= PAGES
    ensures marked + FramesBelow(n) + FramesBelow(n + k) == marked + FramesBelow(n + k)
  {
    LinearMapAt(n);
    LinearMapAt(n + k);
  }

  lemma LinearReady(n: nat, marked: set<nat>)
    requires 0 < n && KERNEL_PAGE + n <= PAGES && FramesBelow(n) <= marked
    ensures Ready(LinearMap(n), marked, KERNEL_PAGE + n)
  {
    LinearMapAt(n);
  }

  lemma NothingLinear()
    ensures LinearMap(0) == map[] && FramesBelow(0) == {}
  {}

  /** The n pages from p on stay in the address space and out of the linear kernel range. */
  predicate AwayFromKernel(p: nat, n: nat, end: nat) { p + n <= PAGES && (p + n <= KERNEL_PAGE || end <= p) }

  /** What every state after vmm_init and successful maps satisfies. */
  ghost predicate Ready(m: map<page, frame>, marked: set<nat>, end: nat) {
    Sound(m, marked) && Linear(m, end) && KERNEL_PAGE < end
  }

  lemma ReadyNext(m: map<page, frame>, marked: set<nat>, end: nat, p: page, f: frame)
    requires Ready(m, marked, end) && f !in marked && (p < KERNEL_PAGE || end <= p)
    ensures Ready(m[p := f], marked + {f}, end)
  {}

  /** Frame 0 is behind the first page of kernel space, so no search returns it. */
  lemma LinearFrameZero(m: map<page, frame>, marked: set<nat>, end: nat)
    requires Ready(m, marked, end)
    ensures 0 in marked
  {
    assert KERNEL_PAGE in m;
  }

  ghost function Elements(fs: seq<frame>): set<nat> { set f | f in fs }

  /** The frames fs are pairwise different and were not marked. */
  ghost predicate Fresh(fs: seq<frame>, marked: set<nat>) {
    && (forall i, j :: 0 <= i < j < |fs| ==> fs[i] != fs[j])
    && (forall i :: 0 <= i < |fs| ==> fs[i] !in marked)
  }

  lemma RunNone(m: map<page, frame>, marked: set<nat>, p: nat)
    requires p <= PAGES
    ensures Fresh([], marked) && Elements([]) == {} && MapRun(m, p, []) == m
  {}

  lemma AlignedPages(va: word, n: nat)
    requires IsPageAligned(va)
    ensures (va + n * PAGE_SIZE) / PAGE_SIZE == va / PAGE_SIZE + n
    ensures va / PAGE_SIZE + n < PAGES ==> va + n * PAGE_SIZE < WORD
  {}

  lemma RunNext(m: map<page, frame>, marked: set<nat>, p: nat, fs: seq<frame>, f: frame)
    requires p + |fs| < PAGES && Fresh(fs, marked) && f !in marked + Elements(fs)
    ensures Fresh(fs + [f], marked) && Elements(fs + [f]) == Elements(fs) + {f}
    ensures MapRun(m, p, fs + [f]) == MapRun(m, p, fs)[p + |fs| := f]
  {
    assert (fs + [f])[..|fs|] == fs;
  }

  /** What a map call reads and changes: the mapped pages, the used frames, the tables, and the room
      for more of them. */
  datatype View = View(pages: map<page, frame>, marked: set<nat>, have: set<nat>, room: nat)

  /** v is v0 after the first |fs| of n pages from p on were mapped to the frames fs. */
  ghost predicate Progress(v0: View, v: View, p: nat, n: nat, start: nat, fs: seq<frame>)
    requires p + n <= PAGES
  {
    var i := |fs|;
    && i <= n
    && Fresh(fs, v0.marked) && v.marked == v0.marked + Elements(fs) && v.pages == MapRun(v0.pages, p, fs)
    && TakesLowest(fs, v0.marked, start / PAGE_SIZE)
    && |FreeFrom(v.marked, start)| == |FreeFrom(v0.marked, start)| - i
    && v.room - Needed(v.have, p + i, n - i) == v0.room - Needed(v0.have, p, n)
    && Grown(v.have, p + i, n - i) == Grown(v0.have, p, n)
  }

  lemma ProgressStart(v: View, p: nat, n: nat, start: nat)
    requires p + n <= PAGES
    ensures Progress(v, v, p, n, start, [])
  {
    RunNone(v.pages, v.marked, p);
    assert v.marked + {} == v.marked;
  }

  lemma ProgressNext(v0: View, v: View, p: nat, n: nat, start: nat, fs: seq<frame>, f: frame, w: View)
    requires p + n <= PAGES && Progress(v0, v, p, n, start, fs) && |fs| < n && f in FreeFrom(v.marked, start)
    requires forall g: nat :: start / PAGE_SIZE <= g < f ==> g in v.marked
    requires var d := DirectoryIndex(p + |fs|);
             && w.pages == v.pages[p + |fs| := f] && w.marked == v.marked + {f}
             && w.have == v.have + {d} && w.room == v.room - (if d in v.have then 0 else 1)
    ensures Progress(v0, w, p, n, start, fs + [f])
  {
    hide Needed, Grown, MapRun, Fresh, Elements, DirectoryIndex, FreeFrom, TakesLowest;
    NeededNext(v.have, p + |fs|, n - |fs|);
    FreeShrinks(v.marked, start, f);
    FreshFrame(v.marked, start, f);
    TakesNext(fs, v0.marked, start / PAGE_SIZE, f);
    RunNext(v0.pages, v0.marked, p, fs, f);
    UnionNext(v0.marked, Elements(fs), f);
  }

  /** Where the loop stops: without a free frame there are fewer than n, and a table that cannot be
      had is one too many. */
  lemma ProgressStops(v0: View, v: View, p: nat, n: nat, start: nat, fs: seq<frame>)
    requires p + n <= PAGES && Progress(v0, v, p, n, start, fs)
    ensures |fs| < n && FreeFrom(v.marked, start) == {} ==> |FreeFrom(v0.marked, start)| < n
    ensures |fs| < n && v.room == 0 && DirectoryIndex(p + |fs|) !in v.have ==> v0.room < Needed(v0.have, p, n)
    ensures |fs| == n ==>
              && n <= |FreeFrom(v0.marked, start)| && Needed(v0.have, p, n) <= v0.room
              && v.have == Grown(v0.have, p, n) && v.room == v0.room - Needed(v0.have, p, n)
  {
    hide Needed, Grown, MapRun, Fresh, Elements, DirectoryIndex, FreeFrom;
    if |fs| < n { NeededNext(v.have, p + |fs|, n - |fs|); } else { NeededNone(v.have, p + n); }
  }

  lemma ProgressDone(v0: View, v: View, p: nat, n: nat, start: nat, fs: seq<frame>)
    requires p + n <= PAGES && Progress(v0, v, p, n, start, fs)
    ensures Fresh(fs, v0.marked) && v.marked == v0.marked + Elements(fs) && v.pages == MapRun(v0.pages, p, fs)
    ensures TakesLowest(fs, v0.marked, start / PAGE_SIZE)
  {}

  /** v is v0 after the first i of n pages were mapped linearly, when k pages were before. */
  ghost predicate LinearProgress(v0: View, v: View, k: nat, n: nat, i: nat)
    requires KERNEL_PAGE + k + n <= PAGES && i <= n
  {
    && v.pages == LinearMap(k + i) && v.marked == v0.marked + FramesBelow(k + i)
    && v.room - Needed(v.have, KERNEL_PAGE + k + i, n - i) == v0.room - Needed(v0.have, KERNEL_PAGE + k, n)
    && Grown(v.have, KERNEL_PAGE + k + i, n - i) == Grown(v0.have, KERNEL_PAGE + k, n)
  }

  lemma LinearProgressStart(v: View, k: nat, n: nat)
    requires KERNEL_PAGE + k + n <= PAGES && v.pages == LinearMap(k) && FramesBelow(k) <= v.marked
    ensures LinearProgress(v, v, k, n, 0)
  {
    assert v.marked + FramesBelow(k) == v.marked;
  }

  lemma LinearProgressNext(v0: View, v: View, k: nat, n: nat, i: nat, w: View)
    requires KERNEL_PAGE + k + n <= PAGES && i < n && LinearProgress(v0, v, k, n, i)
    requires var d := DirectoryIndex(KERNEL_PAGE + k + i);
             && w.pages == LinearMap(k + i + 1) && w.marked == v.marked + {k + i}
             && w.have == v.have + {d} && w.room == v.room - (if d in v.have then 0 else 1)
    ensures LinearProgress(v0, w, k, n, i + 1)
  {
    hide Needed, Grown, DirectoryIndex, LinearMap;
    NeededNext(v.have, KERNEL_PAGE + k + i, n - i);
    LinearNext(k + i);
    hide FramesBelow;
    UnionNext(v0.marked, FramesBelow(k + i), k + i);
  }

  lemma LinearProgressStops(v0: View, v: View, k: nat, n: nat, i: nat)
    requires KERNEL_PAGE + k + n <= PAGES && i <= n && LinearProgress(v0, v, k, n, i)
    ensures v.pages == LinearMap(k + i)
    ensures i < n && v.room == 0 && DirectoryIndex(KERNEL_PAGE + k + i) !in v.have ==>
              v0.room < Needed(v0.have, KERNEL_PAGE + k, n)
    ensures i == n ==>
              && Needed(v0.have, KERNEL_PAGE + k, n) <= v0.room && v.room == v0.room - Needed(v0.have, KERNEL_PAGE + k, n)
              && v.have == Grown(v0.have, KERNEL_PAGE + k, n) && v.marked == v0.marked + FramesBelow(k + n)
  {
    hide Needed, Grown, DirectoryIndex, LinearMap, FramesBelow;
    if i < n { NeededNext(v.have, KERNEL_PAGE + k + i, n - i); } else { NeededNone(v.have, KERNEL_PAGE + k + n); }
  }

  class Manager {
    const kernelEnd: word
    const frames: FrameMap
    const arena: Placement.Arena
    var dir: Directory

    /** One past the last page of the kernel image. */
    ghost function LinearEnd(): nat {
      KERNEL_START / PAGE_SIZE + DivUp(if kernelEnd >= KERNEL_START then kernelEnd - KERNEL_START else 0, PAGE_SIZE)
    }

    ghost predicate Valid()
      reads this, frames, frames.bitmap, arena
    {
      && frames.Valid() && arena.Valid()
      && KERNEL_START <= arena.start && arena.start + Placement.PLACEMENT_SIZE <= kernelEnd
      && LinearEnd() <= PAGES
      && dir.Shape() && KernelEntries(dir)
      && forall t :: t in dir.store ==> t < arena.head
    }

    /** How many page tables the placement area still has room for. */
    ghost function Room(): nat
      requires arena.Valid()
      reads arena
    {
      Placement.Room(arena.head, arena.left)
    }

    ghost function Now(): View
      requires frames.Valid() && arena.Valid() && dir.Shape()
      reads this, frames, frames.bitmap, arena
    {
      View(Present(dir), frames.Marked(), Tables(dir), Room())
    }

    constructor (end: word, fm: FrameMap, a: Placement.Arena)
      ensures kernelEnd == end && frames == fm && arena == a
      ensures dir == Directory(seq(1024, _ => EMPTY_PDE), seq(1024, _ => NULL), map[])
    {
      kernelEnd, frames, arena := end, fm, a;
      dir := Directory(seq(1024, _ => EMPTY_PDE), seq(1024, _ => NULL), map[]);
    }

    /** vmm_map_page; `early` says that paging is not on yet, so that addresses translate linearly. */
    method MapPage(va: word, pa: word, early: bool) returns (o: Outcome<()>)
      requires Valid() && (early || Linear(Present(dir), LinearEnd()))
      modifies this, arena
      ensures Valid()
      ensures o.Panicked? <==>
                DirectoryIndex(va / PAGE_SIZE) !in old(Tables(dir)) && old(Room()) == 0
      ensures o.Panicked? ==> dir == old(dir)
      ensures o.Returned? ==>
                && dir.Entry(va / PAGE_SIZE) == Some(Pte(true, true, false, true, pa / PAGE_SIZE))
                && Present(dir) == old(Present(dir))[va / PAGE_SIZE := pa / PAGE_SIZE]
                && Tables(dir) == old(Tables(dir)) + {DirectoryIndex(va / PAGE_SIZE)}
                && Room() == old(Room()) - (if DirectoryIndex(va / PAGE_SIZE) in old(Tables(dir)) then 0 else 1)
    {
      AddressSplit(va);
      var p: page := va / PAGE_SIZE;
      var d := va / 0x40_0000;
      if dir.tables[d] == NULL {
        var t := Placement.Pages(arena, 1);
        if t == NULL {
          return Panicked;
        }
        var physical := Physical(t, early);
        AddTable(d, t, physical);
      }
      SetEntry(p, Pte(true, true, false, true, pa / PAGE_SIZE));
      o := Returned(());
    }

    method SetEntry(p: page, e: Pte)
      requires dir.Shape() && KernelEntries(dir) && dir.tables[DirectoryIndex(p)] != NULL && e.present && KernelEntry(e)
      modifies this
      ensures dir.Shape() && KernelEntries(dir) && dir.store.Keys == old(dir.store.Keys)
      ensures Present(dir) == old(Present(dir))[p := e.base] && Tables(dir) == old(Tables(dir))
      ensures dir.Entry(p) == Some(e)
    {
      MappedOne(dir, p, e);
      WithEntryKeeps(dir, p, e);
      dir := WithEntry(dir, p, e);
    }

    /** The physical address of a table in the placement area. */
    method Physical(t: word, early: bool) returns (pa: word)
      requires dir.Shape() && LinearEnd() <= PAGES && KERNEL_START <= t < kernelEnd
      requires early || Linear(Present(dir), LinearEnd())
      ensures pa == t - KERNEL_BASE
    {
      if early {
        return t - KERNEL_BASE;
      }
      var w := dir.SoftwareWalk(t);
      assert KERNEL_PAGE <= t / PAGE_SIZE < LinearEnd();
      assert t / PAGE_SIZE in Present(dir);
      pa := w.value;
    }

    method AddTable(d: nat, t: word, pa: word)
      requires frames.Valid() && arena.Valid() && dir.Shape() && KernelEntries(dir)
      requires d < 1024 && dir.tables[d] == NULL && t != NULL && t !in dir.store
      requires IsPageAligned(t) && KERNEL_BASE <= t && pa == t - KERNEL_BASE
      modifies this
      ensures dir.Shape() && KernelEntries(dir) && Present(dir) == old(Present(dir))
      ensures dir.tables[d] != NULL && dir.store.Keys == old(dir.store.Keys) + {t} && Tables(dir) == old(Tables(dir)) + {d}
    {
      WithTableKeeps(dir, d, t, pa);
      dir := WithTable(dir, d, t, pa);
    }

    // ----- vmm_init -----

    /** Maps the pages [first, first + n) linearly and reserves their frames; k pages are done. */
    method MapLinear(first: word, n: nat, ghost k: nat) returns (o: Outcome<()>)
      requires Valid() && KERNEL_PAGE + k + n <= PAGES && first == KERNEL_BASE + k * PAGE_SIZE
      requires Present(dir) == LinearMap(k) && FramesBelow(k) <= frames.Marked()
      modifies this, arena, frames, frames.bitmap
      ensures Valid()
      ensures o.Returned? <==> Needed(old(Tables(dir)), KERNEL_PAGE + k, n) <= old(Room())
      ensures o.Returned? ==>
                && Present(dir) == LinearMap(k + n)
                && frames.Marked() == old(frames.Marked()) + FramesBelow(k + n)
                && Tables(dir) == Grown(old(Tables(dir)), KERNEL_PAGE + k, n)
                && Room() == old(Room()) - Needed(old(Tables(dir)), KERNEL_PAGE + k, n)
    {
      hide Present, Directory.Shape, KernelEntries, MarkedIn, Wrap, LinearMap, FramesBelow, DivUp, Tables, Needed, Grown, DirectoryIndex;
      hide LinearProgress, Placement.Room;
      ghost var v0 := Now();
      LinearProgressStart(v0, k, n);
      var i := 0;
      while i < n
        invariant 0 <= i <= n && Valid()
        invariant LinearProgress(v0, Now(), k, n, i)
      {
        ghost var v := Now();
        LinearProgressStops(v0, v, k, n, i);
        o := MapOneLinear(first + i * PAGE_SIZE, k + i);
        if o.Panicked? {
          return;
        }
        LinearProgressNext(v0, v, k, n, i, Now());
        i := i + 1;
      }
      LinearProgressStops(v0, Now(), k, n, n);
      o := Returned(());
    }

    method MapOneLinear(va: word, ghost k: nat) returns (o: Outcome<()>)
      requires Valid() && KERNEL_PAGE + k < PAGES && va == KERNEL_BASE + k * PAGE_SIZE
      requires Present(dir) == LinearMap(k)
      modifies this, arena, frames, frames.bitmap
      ensures Valid()
      ensures o.Panicked? <==> DirectoryIndex(KERNEL_PAGE + k) !in old(Tables(dir)) && old(Room()) == 0
      ensures o.Returned? ==>
                && Present(dir) == LinearMap(k + 1) && frames.Marked() == old(frames.Marked()) + {k}
                && Tables(dir) == old(Tables(dir)) + {DirectoryIndex(KERNEL_PAGE + k)}
                && Room() == old(Room()) - (if DirectoryIndex(KERNEL_PAGE + k) in old(Tables(dir)) then 0 else 1)
    {
      hide Present, Directory.Shape, KernelEntries, MarkedIn, Wrap, LinearMap, FramesBelow, Tables, DirectoryIndex;
      var pa := va - KERNEL_BASE;
      LinearNext(k);
      o := MapPage(va, pa, true);
      if o.Returned? {
        frames.Set(pa / PAGE_SIZE);
      }
    }

    /** vmm_init: the real-mode window and the kernel image, translated as before paging. */
    method Init() returns (o: Outcome<()>)
      requires Valid() && Present(dir) == map[]
      modifies this, arena, frames, frames.bitmap
      ensures Valid()
      // two pages for the directory, and the tables of the linear range
      ensures o.Returned? <==> 2 + Needed(old(Tables(dir)), KERNEL_PAGE, LinearEnd() - KERNEL_PAGE) <= old(Room())
      ensures o.Returned? ==>
                && Tables(dir) == Grown(old(Tables(dir)), KERNEL_PAGE, LinearEnd() - KERNEL_PAGE)
                && Room() == old(Room()) - 2 - Needed(old(Tables(dir)), KERNEL_PAGE, LinearEnd() - KERNEL_PAGE)
      ensures o.Returned? ==>
                && Present(dir) == LinearMap(LinearEnd() - KERNEL_PAGE)
                && frames.Marked() == old(frames.Marked()) + FramesBelow(LinearEnd() - KERNEL_PAGE)
                && Ready(Present(dir), frames.Marked(), LinearEnd())
    {
      hide Present, Directory.Shape, KernelEntries, MarkedIn, Wrap, LinearMap, FramesBelow, Ready, Tables, Needed, Grown;
      var directory := Placement.Pages(arena, DIRECTORY_BYTES / PAGE_SIZE);
      if directory == NULL {
        return Panicked;
      }
      ghost var have := Tables(dir);
      var n := DivUp(REAL_MODE_SIZE, PAGE_SIZE);
      var k := DivUp(kernelEnd - KERNEL_START, PAGE_SIZE);
      NeededSplit(have, KERNEL_PAGE, n, k);
      NothingLinear();
      o := MapLinear(KERNEL_BASE, n, 0);
      if o.Panicked? {
        return;
      }
      o := MapLinear(KERNEL_START, k, n);
      FramesGrow(old(frames.Marked()), n, k);
      if o.Returned? { LinearReady(n + k, frames.Marked()); }
    }

    // ----- vmm_find_free_memory in kernel space -----

    method IsPageUsed(p: page) returns (used: bool)
      requires dir.Shape() && KernelEntries(dir)
      ensures used <==> p in Present(dir)
    {
      var e := dir.Entry(p);
      used := e.Some? && e.value.used;
    }

    /** The inner loop: every page that the offsets below `size` reach, modulo 2^32, is unused. */
    method CheckRun(address: word, size: word) returns (ok: bool)
      requires dir.Shape() && KernelEntries(dir)
      requires IsPageAligned(address) && size + PAGE_SIZE <= WORD && address / PAGE_SIZE !in Present(dir)
      ensures ok <==> RunFree(Present(dir), address / PAGE_SIZE, RunLength(size))
    {
      ghost var m, p := Present(dir), address / PAGE_SIZE;
      var offset: nat, k := 0, 0;
      while offset < size
        invariant offset == k * PAGE_SIZE && k <= DivUp(size, PAGE_SIZE)
        invariant forall j: nat :: j < k ==> PageAfter(p, j) !in m
        decreases size + PAGE_SIZE - offset
      {
        var current := Wrap(address + offset);
        AfterOffset(address, k);
        AlignedBelowTop(current);
        var outside := current >= KERNEL_BASE + KERNEL_SPACE_SIZE;
        var used := IsPageUsed(current / PAGE_SIZE);
        if outside || used {
          return false;
        }
        offset := offset + PAGE_SIZE;
        k := k + 1;
      }
      assert PageAfter(p, 0) == p;
      ok := true;
    }

    /** The lowest page address in kernel space that starts a run of unused pages, or NULL. */
    method FindFree(size: word) returns (r: word)
      requires dir.Shape() && KernelEntries(dir) && size + PAGE_SIZE <= WORD
      ensures IsPageAligned(r)
      ensures r != NULL ==>
                && KERNEL_PAGE <= r / PAGE_SIZE
                && RunFree(Present(dir), r / PAGE_SIZE, RunLength(size))
                && forall p: nat :: KERNEL_PAGE <= p < r / PAGE_SIZE ==> !RunFree(Present(dir), p, RunLength(size))
      ensures r == NULL ==> forall p: nat :: KERNEL_PAGE <= p < PAGES ==> !RunFree(Present(dir), p, RunLength(size))
    {
      hide Present, Directory.Shape, KernelEntries, RunFree, Wrap;
      ghost var m, n := Present(dir), RunLength(size);
      var i := 0;
      var maxPages := DivUp(KERNEL_SPACE_SIZE, PAGE_SIZE);
      while i < maxPages
        invariant 0 <= i <= maxPages
        invariant forall p: nat :: KERNEL_PAGE <= p < KERNEL_PAGE + i ==> !RunFree(m, p, n)
      {
        var address := KERNEL_BASE + i * PAGE_SIZE;
        var used := IsPageUsed(address / PAGE_SIZE);
        UsedStops(m, KERNEL_PAGE + i, n);
        if !used {
          var ok := CheckRun(address, size);
          if ok {
            return address;
          }
        }
        i := i + 1;
      }
      r := NULL;
    }

    // ----- vmm_map_memory -----

    /** One round of the loop: the lowest free frame from `start` on goes behind page `va`. */
    method MapNext(va: word, start: word) returns (o: Outcome<bool>, ghost f: frame)
      requires Valid() && Ready(Present(dir), frames.Marked(), LinearEnd())
      requires va / PAGE_SIZE < KERNEL_PAGE || LinearEnd() <= va / PAGE_SIZE
      modifies this, arena, frames, frames.bitmap
      ensures Valid()
      ensures o.Returned? ==> Ready(Present(dir), frames.Marked(), LinearEnd())
      // it fails without a free frame, and stops without room for a table it needs
      ensures o == Returned(false) <==> FreeFrom(old(frames.Marked()), start) == {}
      ensures o.Panicked? ==> DirectoryIndex(va / PAGE_SIZE) !in old(Tables(dir)) && old(Room()) == 0
      ensures o == Returned(true) ==>
                && f in FreeFrom(old(frames.Marked()), start)
                && (forall g: nat :: start / PAGE_SIZE <= g < f ==> g in old(frames.Marked()))
                && Present(dir) == old(Present(dir))[va / PAGE_SIZE := f]
                && frames.Marked() == old(frames.Marked()) + {f}
                && Tables(dir) == old(Tables(dir)) + {DirectoryIndex(va / PAGE_SIZE)}
                && Room() == old(Room()) - (if DirectoryIndex(va / PAGE_SIZE) in old(Tables(dir)) then 0 else 1)
      ensures o == Returned(false) ==> dir == old(dir) && frames.Marked() == old(frames.Marked())
    {
      hide Present, Directory.Shape, KernelEntries, MarkedIn, Wrap, LinearMap, FramesBelow, Tables, DirectoryIndex;
      f := 0;
      LinearFrameZero(Present(dir), frames.Marked(), LinearEnd());
      var pa := frames.FindFreeFrom(start);
      if pa == NULL {
        return Returned(false), f;
      }
      f := pa / PAGE_SIZE;
      assert f in FreeFrom(frames.Marked(), start);
      var r := MapPage(va, pa, false);
      if r.Panicked? {
        return Panicked, f;
      }
      frames.Set(pa / PAGE_SIZE);
      ReadyNext(old(Present(dir)), old(frames.Marked()), LinearEnd(), va / PAGE_SIZE, f);
      o := Returned(true);
    }

    /** The mapping loop over n pages from page p on; fs collects the frames it used. */
    method MapRunFrom(va: word, start: word, n: nat) returns (o: Outcome<bool>, ghost fs: seq<frame>)
      requires Valid() && Ready(Present(dir), frames.Marked(), LinearEnd())
      requires IsPageAligned(va) && va / PAGE_SIZE + n <= PAGES
      requires va / PAGE_SIZE + n <= KERNEL_PAGE || LinearEnd() <= va / PAGE_SIZE
      modifies this, arena, frames, frames.bitmap
      ensures Valid()
      ensures o == Returned(true) <==>
                && n <= |FreeFrom(old(frames.Marked()), start)|
                && Needed(old(Tables(dir)), va / PAGE_SIZE, n) <= old(Room())
      ensures o == Returned(false) ==> |FreeFrom(old(frames.Marked()), start)| < n
      ensures o.Panicked? ==> old(Room()) < Needed(old(Tables(dir)), va / PAGE_SIZE, n)
      ensures o == Returned(true) ==>
                && |fs| == n
                && Tables(dir) == Grown(old(Tables(dir)), va / PAGE_SIZE, n)
                && Room() == old(Room()) - Needed(old(Tables(dir)), va / PAGE_SIZE, n)
                && Ready(Present(dir), frames.Marked(), LinearEnd())
                && Fresh(fs, old(frames.Marked())) && frames.Marked() == old(frames.Marked()) + Elements(fs)
                && TakesLowest(fs, old(frames.Marked()), start / PAGE_SIZE)
                && Present(dir) == MapRun(old(Present(dir)), va / PAGE_SIZE, fs)
    {
      hide Present, Directory.Shape, KernelEntries, MarkedIn, Wrap, Ready, Tables, TakesLowest, DirectoryIndex, FreeFrom, DivUp, Progress, Placement.Room;
      fs := [];
      ghost var p, v0 := va / PAGE_SIZE, Now();
      ProgressStart(v0, p, n, start);
      AlignedPages(va, n);
      var i := 0;
      while i < n
        invariant 0 <= i <= n && |fs| == i
        invariant Valid() && Ready(Present(dir), frames.Marked(), LinearEnd())
        invariant Progress(v0, Now(), p, n, start, fs)
      {
        ghost var f, v := 0, Now();
        AlignedPages(va, i);
        ProgressStops(v0, v, p, n, start, fs);
        o, f := MapNext(va + i * PAGE_SIZE, start);
        if o.Panicked? || !o.value {
          return;
        }
        ProgressNext(v0, v, p, n, start, fs, f, Now());
        fs := fs + [f];
        i := i + 1;
      }
      ProgressStops(v0, Now(), p, n, start, fs);
      ProgressDone(v0, Now(), p, n, start, fs);
      o := Returned(true);
    }

    /** vmm_unmap_memory: releases the frames but leaves the entries as they are; a page without a
        table makes the kernel read through a null pointer, which stops it. */
    method UnmapMemory(va: word, n: nat) returns (o: Outcome<()>)
      requires Valid() && IsPageAligned(va) && va / PAGE_SIZE + n <= PAGES
      modifies frames, frames.bitmap
      ensures Valid()
      ensures o.Returned? <==> DirectoriesOf(va / PAGE_SIZE, n) <= Tables(dir)
      ensures o.Returned? ==> frames.Marked() == old(frames.Marked()) - Released(Present(dir), va / PAGE_SIZE, n)
    {
      hide Present, Directory.Shape, KernelEntries, MarkedIn, Wrap, Released, ReleasedBy, DirectoriesOf, Tables, DirectoryIndex;
      NoDirectories(va / PAGE_SIZE);
      ReleasedNone(old(frames.Marked()), Present(dir), va / PAGE_SIZE);
      var i := 0;
      while i < n
        invariant 0 <= i <= n && Valid()
        invariant frames.Marked() == old(frames.Marked()) - Released(Present(dir), va / PAGE_SIZE, i)
        invariant DirectoriesOf(va / PAGE_SIZE, i) <= Tables(dir)
      {
        ReleasedNext(old(frames.Marked()), Present(dir), va / PAGE_SIZE, i);
        DirectoriesLast(va / PAGE_SIZE, i, n);
        o := UnmapPage(va / PAGE_SIZE + i);
        if o.Panicked? {
          return;
        }
        i := i + 1;
      }
      o := Returned(());
    }

    method UnmapPage(p: page) returns (o: Outcome<()>)
      requires Valid()
      modifies frames, frames.bitmap
      ensures Valid()
      ensures o.Panicked? <==> DirectoryIndex(p) !in Tables(dir)
      ensures o.Returned? ==> frames.Marked() == old(frames.Marked()) - ReleasedBy(Present(dir), p)
    {
      hide KernelEntries, MarkedIn, Wrap;
      var e := dir.Entry(p);
      if e.None? {
        return Panicked;
      }
      if e.value.present && e.value.base != 0 {
        frames.Unset(e.value.base);
      }
      o := Returned(());
    }

    /** The mapping loop with its rollback when the frames run out. */
    method MapRange(va: word, start: word, n: nat) returns (o: Outcome<word>, ghost fs: seq<frame>, ghost mapped: bool)
      requires Valid() && Ready(Present(dir), frames.Marked(), LinearEnd())
      requires IsPageAligned(va) && va / PAGE_SIZE + n <= PAGES
      requires va / PAGE_SIZE + n <= KERNEL_PAGE || LinearEnd() <= va / PAGE_SIZE
      modifies this, arena, frames, frames.bitmap
      ensures Valid()
      ensures mapped <==>
                && n <= |FreeFrom(old(frames.Marked()), start)|
                && Needed(old(Tables(dir)), va / PAGE_SIZE, n) <= old(Room())
      ensures !mapped ==> o.Panicked? || o.value == NULL
      ensures !mapped && o.Returned? ==>
                |FreeFrom(old(frames.Marked()), start)| < n && DirectoriesOf(va / PAGE_SIZE, n) <= Tables(dir)
      ensures o.Panicked? ==>
                || old(Room()) < Needed(old(Tables(dir)), va / PAGE_SIZE, n)
                || (|FreeFrom(old(frames.Marked()), start)| < n && !(DirectoriesOf(va / PAGE_SIZE, n) <= Tables(dir)))
      ensures mapped ==>
                && o == Returned(va) && |fs| == n
                && Tables(dir) == Grown(old(Tables(dir)), va / PAGE_SIZE, n)
                && Room() == old(Room()) - Needed(old(Tables(dir)), va / PAGE_SIZE, n)
                && Ready(Present(dir), frames.Marked(), LinearEnd())
                && Fresh(fs, old(frames.Marked())) && frames.Marked() == old(frames.Marked()) + Elements(fs)
                && TakesLowest(fs, old(frames.Marked()), start / PAGE_SIZE)
                && Present(dir) == MapRun(old(Present(dir)), va / PAGE_SIZE, fs)
                && frames.used == old(frames.used) + n
    {
      hide TakesLowest;
      hide Present, Directory.Shape, KernelEntries, MarkedIn, Ready, MapRun, Fresh, Elements, Tables, Needed, Grown, DirectoriesOf, FreeFrom;
      ghost var m, marked := Present(dir), frames.Marked();
      var done;
      done, fs := MapRunFrom(va, start, n);
      mapped := done == Returned(true);
      if done.Panicked? {
        return Panicked, fs, mapped;
      }
      if !done.value {
        var undone := UnmapMemory(va, n);
        return (if undone.Panicked? then Panicked else Returned(NULL)), fs, mapped;
      }
      MarkedBelow(frames.bitmap[..]);
      CountGrows(old(frames.used), frames.used, marked, fs, m, LinearEnd());
      o := Returned(va);
    }

    /** vmm_map_memory; NULL for an address asks the kernel to choose.  p is the first page of the
        range, and `mapped` says that the call did what it is for; the pointer alone does not, since
        page 0 has the address NULL. */
    method MapMemory(virtual: word, physical: word, size: word)
      returns (o: Outcome<word>, ghost p: nat, ghost fs: seq<frame>, ghost mapped: bool)
      requires Valid() && Ready(Present(dir), frames.Marked(), LinearEnd())
      requires size + PAGE_SIZE <= 0x8000_0000
      requires virtual != NULL ==> AwayFromKernel(virtual / PAGE_SIZE, DivUp(size, PAGE_SIZE), LinearEnd())
      requires virtual == NULL ==> SearchStaysInKernel(Present(dir), RunLength(size))
      modifies this, arena, frames, frames.bitmap
      ensures Valid()
      ensures p + DivUp(size, PAGE_SIZE) <= PAGES
      ensures virtual != NULL ==> p == virtual / PAGE_SIZE
      ensures virtual == NULL && HasRun(old(Present(dir)), RunLength(size)) ==> LowestIn(old(Present(dir)), p, RunLength(size))
      // when it succeeds, and what the failures mean
      ensures mapped <==>
                && (virtual == NULL ==> HasRun(old(Present(dir)), RunLength(size)))
                && EnoughFrames(old(frames.Marked()), physical, DivUp(size, PAGE_SIZE))
                && Needed(old(Tables(dir)), p, DivUp(size, PAGE_SIZE)) <= old(Room())
      ensures !mapped ==> o.Panicked? || o.value == NULL
      ensures !mapped && o.Returned? ==> !EnoughFrames(old(frames.Marked()), physical, DivUp(size, PAGE_SIZE))
      ensures o.Panicked? ==>
                || (virtual == NULL && !HasRun(old(Present(dir)), RunLength(size)))
                || old(Room()) < Needed(old(Tables(dir)), p, DivUp(size, PAGE_SIZE))
                || (!EnoughFrames(old(frames.Marked()), physical, DivUp(size, PAGE_SIZE))
                    && !(DirectoriesOf(p, DivUp(size, PAGE_SIZE)) <= Tables(dir)))
      // what a successful call does
      ensures mapped ==>
                && o == Returned(p * PAGE_SIZE) && |fs| == DivUp(size, PAGE_SIZE) && AwayFromKernel(p, |fs|, LinearEnd())
                && Tables(dir) == Grown(old(Tables(dir)), p, |fs|)
                && Room() == old(Room()) - Needed(old(Tables(dir)), p, |fs|)
                && Ready(Present(dir), frames.Marked(), LinearEnd())
                && Fresh(fs, old(frames.Marked())) && frames.Marked() == old(frames.Marked()) + Elements(fs)
                && Present(dir) == MapRun(old(Present(dir)), p, fs)
                && frames.used == old(frames.used) + |fs|
      // the frames are the lowest free ones from the start on
      ensures mapped ==>
                forall i :: 0 <= i < |fs| ==>
                  && physical / PAGE_SIZE <= fs[i]
                  && forall g: nat :: physical / PAGE_SIZE <= g < fs[i] ==> g in old(frames.Marked()) || g in fs[..i]
    {
      hide TakesLowest, Placement.Room, KernelEntry, Wrap, IsPageAligned;
      hide Present, Directory.Shape, KernelEntries, MarkedIn, Ready, MapRun, Fresh, Elements, Linear, Sound, RunFree, KernelRun;
      hide Tables, Needed, Grown, DirectoriesOf, FreeFrom, SearchStaysInKernel, LowestIn, HasRun, EnoughFrames;
      ghost var m, marked, n := Present(dir), frames.Marked(), DivUp(size, PAGE_SIZE);
      fs, mapped, p := [], false, virtual / PAGE_SIZE;
      var va := virtual;
      if va == NULL {
        va := FindFree(size);
        SearchResult(m, marked, LinearEnd(), va, size);
        if va == NULL {
          return Panicked, 0, fs, mapped;
        }
        p := va / PAGE_SIZE;
      }
      var pa := physical;
      if pa == NULL {
        LinearFrameZero(m, marked, LinearEnd());
        pa := frames.FindFreeFrom(0);
        assert frames.Marked() == marked;
        NoFrame(marked, pa, n);
        if pa == NULL {
          return Returned(NULL), p, fs, mapped;
        }
      } else {
        SomeFrame(marked, pa, n);
      }
      va := AlignDown(va);
      o, fs, mapped := MapRange(va, pa, DivUp(size, PAGE_SIZE));
      if mapped { LowestFrom(fs, marked, pa, physical); }
    }
  }

  ghost predicate HasRun(m: map<page, frame>, n: nat) {
    exists p :: KernelRun(m, p, n)
  }

  /** There are n free frames from `physical` on; without a start, one free frame at least. */
  ghost predicate EnoughFrames(marked: set<nat>, physical: word, n: nat) {
    n <= |FreeFrom(marked, physical)| && (physical == NULL ==> FreeFrom(marked, NULL) != {})
  }

  /** What the search for a free frame means for the frames there are. */
  lemma NoFrame(marked: set<nat>, pa: word, n: nat)
    requires 0 in marked
    requires pa != NULL ==> pa / PAGE_SIZE < NUM_MEMORY_FRAMES && pa / PAGE_SIZE !in marked && forall g: nat :: g < pa / PAGE_SIZE ==> g in marked
    requires pa == NULL ==> forall g: nat :: g < NUM_MEMORY_FRAMES ==> g in marked
    ensures pa == NULL ==> !EnoughFrames(marked, NULL, n)
    ensures pa != NULL ==> (EnoughFrames(marked, NULL, n) <==> n <= |FreeFrom(marked, pa)|)
  {
    if pa == NULL {
      assert FreeFrom(marked, NULL) == {};
    } else {
      assert FreeFrom(marked, pa) == FreeFrom(marked, NULL);
      assert pa / PAGE_SIZE in FreeFrom(marked, NULL);
    }
  }

  /** The frames below the first free one are marked, so that looking from there on misses none. */
  lemma LowestFrom(fs: seq<frame>, marked: set<nat>, pa: word, physical: word)
    requires TakesLowest(fs, marked, pa / PAGE_SIZE) && physical / PAGE_SIZE <= pa / PAGE_SIZE
    requires forall g: nat :: physical / PAGE_SIZE <= g < pa / PAGE_SIZE ==> g in marked
    ensures forall i :: 0 <= i < |fs| ==>
              && physical / PAGE_SIZE <= fs[i]
              && forall g: nat :: physical / PAGE_SIZE <= g < fs[i] ==> g in marked || g in fs[..i]
  {
    forall i | 0 <= i < |fs|
      ensures physical / PAGE_SIZE <= fs[i]
      ensures forall g: nat :: physical / PAGE_SIZE <= g < fs[i] ==> g in marked || g in fs[..i]
    {
      assert LowestOne(fs[i], marked, fs[..i], pa / PAGE_SIZE);
    }
  }

  lemma SomeFrame(marked: set<nat>, pa: word, n: nat)
    requires pa != NULL
    ensures EnoughFrames(marked, pa, n) <==> n <= |FreeFrom(marked, pa)|
  {}

  /** What the search for pages means for the runs there are. */
  lemma SearchResult(m: map<page, frame>, marked: set<nat>, end: nat, r: word, size: word)
    requires Ready(m, marked, end) && SearchStaysInKernel(m, RunLength(size)) && size + PAGE_SIZE <= WORD
    requires r != NULL ==>
               && KERNEL_PAGE <= r / PAGE_SIZE && RunFree(m, r / PAGE_SIZE, RunLength(size))
               && forall p: nat :: KERNEL_PAGE <= p < r / PAGE_SIZE ==> !RunFree(m, p, RunLength(size))
    requires r == NULL ==> forall p: nat :: KERNEL_PAGE <= p < PAGES ==> !RunFree(m, p, RunLength(size))
    ensures r == NULL <==> !HasRun(m, RunLength(size))
    ensures r != NULL ==>
              && LowestIn(m, r / PAGE_SIZE, RunLength(size))
              && end <= r / PAGE_SIZE && r / PAGE_SIZE + DivUp(size, PAGE_SIZE) <= PAGES
  {
    if r != NULL {
      FoundOutsideLinear(m, marked, end, r / PAGE_SIZE, size);
    } else if p :| KernelRun(m, p, RunLength(size)) {
      KernelRunIsFree(m, p, RunLength(size));
    }
  }

  ghost function ReleasedBy(m: map<page, frame>, p: page): set<nat> {
    if p in m && m[p] != 0 then {m[p]} else {}
  }

  /** The frames behind the pages [p, p + n), frame 0 excepted. */
  ghost function Released(m: map<page, frame>, p: nat, n: nat): set<nat>
    requires p + n <= PAGES
  {
    if n == 0 then {} else Released(m, p, n - 1) + ReleasedBy(m, p + n - 1)
  }

  lemma ReleasedNone(marked: set<nat>, m: map<page, frame>, p: nat)
    requires p <= PAGES
    ensures marked - Released(m, p, 0) == marked
  {}

  lemma ReleasedNext(marked: set<nat>, m: map<page, frame>, p: nat, n: nat)
    requires p + n < PAGES
    ensures marked - Released(m, p, n + 1) == marked - Released(m, p, n) - ReleasedBy(m, p + n)
  {}

  lemma {:induction false} ReleasedAt(m: map<page, frame>, p: nat, n: nat, f: nat)
    requires p + n <= PAGES
    ensures f in Released(m, p, n) <==> exists q: page :: p <= q < p + n && q in m && m[q] == f && f != 0
  {
    if n > 0 {
      ReleasedAt(m, p, n - 1, f);
      var q: page := p + n - 1;
      assert q in m && m[q] == f && f != 0 ==> f in Released(m, p, n);
    }
  }

  /** Releasing the frames of a range while its entries stay present keeps the sharing rule if and
      only if no page of the range had a frame to release. */
  lemma UnmapBreaksSound(m: map<page, frame>, marked: set<nat>, p: nat, n: nat)
    requires p + n <= PAGES && Sound(m, marked)
    ensures Sound(m, marked - Released(m, p, n)) <==> forall q: page :: p <= q < p + n && q in m ==> m[q] == 0
  {
    var left := marked - Released(m, p, n);
    if Sound(m, left) {
      forall q: page | p <= q < p + n && q in m ensures m[q] == 0 {
        ReleasedAt(m, p, n, m[q]);
      }
    }
    if forall q: page :: p <= q < p + n && q in m ==> m[q] == 0 {
      forall q | q in m ensures m[q] in left {
        ReleasedAt(m, p, n, m[q]);
      }
    }
  }

  /** With kernel space full up to its last page and page 0 unused, a request for two pages gets a
      run that wraps past the top of the address space. */
  lemma FullKernelSpaceWraps(m: map<page, frame>)
    requires forall p: page :: KERNEL_PAGE <= p < PAGES - 1 ==> p in m
    requires PAGES - 1 !in m && 0 !in m
    ensures RunFree(m, PAGES - 1, 2) && !SearchStaysInKernel(m, 2)
  {
    assert PageAfter(PAGES - 1, 0) == PAGES - 1 && PageAfter(PAGES - 1, 1) == 0;
    forall p: nat ensures !KernelRun(m, p, 2) {
      assert KERNEL_PAGE <= p && p + 2 <= PAGES ==> p in m;
    }
  }

  /** When kernel space holds no run of n pages, the search finds none either. */
  ghost predicate SearchStaysInKernel(m: map<page, frame>, n: nat) {
    || (exists p :: KernelRun(m, p, n))
    || forall p: nat :: KERNEL_PAGE <= p < PAGES ==> !RunFree(m, p, n)
  }

  /** r starts the lowest run of n unused pages in kernel space. */
  ghost predicate LowestIn(m: map<page, frame>, r: nat, n: nat) {
    KernelRun(m, r, n) && forall p :: KernelRun(m, p, n) ==> r <= p
  }

  lemma FoundOutsideLinear(m: map<page, frame>, marked: set<nat>, end: nat, r: page, size: word)
    requires Ready(m, marked, end) && SearchStaysInKernel(m, RunLength(size)) && KERNEL_PAGE <= r
    requires RunFree(m, r, RunLength(size))
    requires forall p: nat :: KERNEL_PAGE <= p < r ==> !RunFree(m, p, RunLength(size))
    ensures LowestIn(m, r, RunLength(size))
    ensures end <= r && r + DivUp(size, PAGE_SIZE) <= PAGES
  {
    LowestRun(m, r, RunLength(size));
    assert PageAfter(r, 0) == r;
  }

  lemma CountGrows(used0: word, used: word, marked: set<nat>, fs: seq<frame>, m: map<page, frame>, end: nat)
    requires used0 == Wrap(|marked| - 1) && used == Wrap(|marked + Elements(fs)| - 1)
    requires Ready(m, marked, end) && Fresh(fs, marked)
    requires forall f :: f in marked + Elements(fs) ==> f < ALL_FRAMES
    ensures used == used0 + |fs|
  {
    LinearFrameZero(m, marked, end);
    CountFresh(marked, fs);
    CountAtMost(marked + Elements(fs), ALL_FRAMES);
    assert |marked| > 0;
  }

  lemma {:induction false} CountFresh(marked: set<nat>, fs: seq<frame>)
    requires Fresh(fs, marked)
    ensures |marked + Elements(fs)| == |marked| + |fs|
  {
    if fs == [] {
      assert marked + Elements(fs) == marked;
    } else {
      var gs, f := fs[..|fs| - 1], fs[|fs| - 1];
      assert fs == gs + [f];
      assert Fresh(gs, marked) && f !in marked && f !in gs;
      hide Fresh;
      CountFresh(marked, gs);
      assert Elements(fs) == Elements(gs) + {f};
      UnionNext(marked, Elements(gs), f);
      assert f !in marked + Elements(gs);
    }
  }

  /** A map call changes the translation of its own pages only. */
  lemma {:induction false} MapRunAt(m: map<page, frame>, p: nat, fs: seq<frame>, q: page)
    requires p + |fs| <= PAGES
    ensures var r := MapRun(m, p, fs);
            if p <= q < p + |fs| then q in r && r[q] == fs[q - p]
            else (q in r <==> q in m) && (q in m ==> r[q] == m[q])
  {
    if fs != [] {
      MapRunAt(m, p, fs[..|fs| - 1], q);
    }
  }

  // ----- runs of unused pages -----

  function PageAfter(p: nat, k: nat): page { (p + k) % 0x10_0000 }

  /** The pages a request of `size` bytes looks at; one at least. */
  function RunLength(size: nat): nat {
    if size == 0 then 1 else DivUp(size, PAGE_SIZE)
  }

  /** n pages from p on, modulo 2^20, are unused. */
  ghost predicate RunFree(m: map<page, frame>, p: nat, n: nat) {
    forall k: nat :: k < n ==> PageAfter(p, k) !in m
  }

  /** n unused pages from p on, all in kernel space. */
  ghost predicate KernelRun(m: map<page, frame>, p: nat, n: nat) {
    KERNEL_PAGE <= p && p + n <= PAGES && forall q: nat :: p <= q < p + n ==> q !in m
  }

  lemma AfterOffset(address: word, k: nat)
    requires IsPageAligned(address)
    ensures Wrap(address + k * PAGE_SIZE) / PAGE_SIZE == PageAfter(address / PAGE_SIZE, k)
    ensures IsPageAligned(Wrap(address + k * PAGE_SIZE))
  {
    var x := address / PAGE_SIZE + k;
    assert address + k * PAGE_SIZE == x * PAGE_SIZE;
    WrapPages(x);
  }

  lemma WrapPages(x: nat)
    ensures Wrap(x * PAGE_SIZE) == x % PAGES * PAGE_SIZE
  {
    var y, z := x / PAGES, x % PAGES;
    assert x * PAGE_SIZE == WORD * y + z * PAGE_SIZE;
    WrapMany(y, z * PAGE_SIZE);
  }

  lemma WrapMany(y: nat, w: nat)
    requires w < WORD
    ensures Wrap(WORD * y + w) == w
  {}

  lemma AlignedBelowTop(a: word)
    requires IsPageAligned(a)
    ensures a < KERNEL_BASE + KERNEL_SPACE_SIZE
  {}

  lemma UsedStops(m: map<page, frame>, p: page, n: nat)
    requires 0 < n
    ensures p in m ==> !RunFree(m, p, n)
  {
    assert PageAfter(p, 0) == p;
  }

  lemma KernelRunIsFree(m: map<page, frame>, p: nat, n: nat)
    requires KERNEL_PAGE <= p && p + n <= PAGES
    ensures KernelRun(m, p, n) <==> RunFree(m, p, n)
  {
    if RunFree(m, p, n) {
      forall q: nat | p <= q < p + n ensures q !in m {
        assert PageAfter(p, q - p) == q;
      }
    }
  }

  /** Whenever kernel space holds a run, the search result is the lowest one; when it holds none,
      what the search returns, if anything, wraps past the top of the address space. */
  lemma LowestRun(m: map<page, frame>, r: nat, n: nat)
    requires KERNEL_PAGE <= r < PAGES && RunFree(m, r, n)
    requires forall p: nat :: KERNEL_PAGE <= p < r ==> !RunFree(m, p, n)
    ensures (exists p :: KernelRun(m, p, n)) <==> KernelRun(m, r, n)
    ensures forall p :: KernelRun(m, p, n) ==> r <= p
    ensures KernelRun(m, r, n) <==> r + n <= PAGES
  {
    forall p | KernelRun(m, p, n) ensures r <= p {
      KernelRunIsFree(m, p, n);
    }
    if r + n <= PAGES { KernelRunIsFree(m, r, n); }
  }

  lemma PresentTranslates(dir: Directory, va: word)
    requires dir.Shape() && va / PAGE_SIZE in Present(dir)
    ensures dir.SoftwareWalk(va) == Some(Present(dir)[va / PAGE_SIZE] * PAGE_SIZE + va % PAGE_SIZE)
  {}

  /** Two mapped addresses never reach the same byte of physical memory. */
  lemma NoAliasing(dir: Directory, marked: set<nat>, va: word, vb: word)
    requires dir.Shape() && Sound(Present(dir), marked) && va != vb
    requires dir.SoftwareWalk(va).Some? && dir.SoftwareWalk(vb).Some?
    ensures dir.HardwareWalk(va).Some? && dir.HardwareWalk(va) != dir.HardwareWalk(vb)
  {
    WalksAgree(dir, va);
    WalksAgree(dir, vb);
    assert va / PAGE_SIZE in Present(dir) && vb / PAGE_SIZE in Present(dir);
    if va / PAGE_SIZE == vb / PAGE_SIZE {
      assert va % PAGE_SIZE != vb % PAGE_SIZE;
    }
  }

  /** After vmm_init every address of the real-mode window and of the kernel image translates as
      the linear rule did before, and the frame behind it is reserved. */
  lemma InitTranslates(m: Manager, va: word)
    requires m.dir.Shape() && m.frames.Valid()
    requires Ready(Present(m.dir), m.frames.Marked(), m.LinearEnd())
    requires KERNEL_BASE <= va < m.LinearEnd() * PAGE_SIZE && m.LinearEnd() <= PAGES
    ensures m.dir.SoftwareWalk(va) == Some(va - KERNEL_BASE)
    ensures m.dir.HardwareWalk(va) == Some(va - KERNEL_BASE)
    ensures (va - KERNEL_BASE) / PAGE_SIZE in m.frames.Marked()
  {
    hide Present, Directory.Shape, MarkedIn, Directory.SoftwareWalk, Directory.HardwareWalk;
    assert KERNEL_PAGE <= va / PAGE_SIZE < m.LinearEnd();
    WalksAgree(m.dir, va);
    PresentTranslates(m.dir, va);
  }
}
