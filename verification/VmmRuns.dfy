/** Runs of successful vmm_map_memory calls: what every state after vmm_init satisfies. */
module VmmRuns {
  import opened Basics
  import opened Word32
  import opened Pmm
  import opened Vmm

  /** The mapped pages and the frames marked used. */
  datatype State = State(pages: map<page, frame>, marked: set<nat>)

  /** One successful call: it put the frames fs behind the pages from p on. */
  datatype Mapped = Mapped(p: nat, fs: seq<frame>)

  /** What the contract of vmm_map_memory says of a successful call. */
  ghost predicate MapStep(a: State, b: State, end: nat, c: Mapped) {
    && AwayFromKernel(c.p, |c.fs|, end) && Fresh(c.fs, a.marked)
    && b == State(MapRun(a.pages, c.p, c.fs), a.marked + Elements(c.fs))
  }

  ghost predicate IsRun(run: seq<State>, calls: seq<Mapped>, end: nat) {
    && |run| == |calls| + 1 && Ready(run[0].pages, run[0].marked, end)
    && forall i :: 0 <= i < |calls| ==> MapStep(run[i], run[i + 1], end, calls[i])
  }

  function Total(calls: seq<Mapped>): nat {
    if calls == [] then 0 else Total(calls[..|calls| - 1]) + |calls[|calls| - 1].fs|
  }

  ghost predicate Covers(c: Mapped, q: page) { c.p <= q < c.p + |c.fs| }

  /** Where a page points after a call, and where it pointed before. */
  lemma StepAt(a: State, b: State, end: nat, c: Mapped, q: page)
    requires MapStep(a, b, end, c)
    ensures if Covers(c, q) then q in b.pages && b.pages[q] == c.fs[q - c.p] && b.pages[q] in Elements(c.fs)
            else (q in b.pages <==> q in a.pages) && (q in a.pages ==> b.pages[q] == a.pages[q])
  {
    MapRunAt(a.pages, c.p, c.fs, q);
  }

  lemma StepKeepsSound(a: State, b: State, end: nat, c: Mapped)
    requires MapStep(a, b, end, c) && Sound(a.pages, a.marked)
    ensures Sound(b.pages, b.marked)
  {
    forall q | q in b.pages ensures b.pages[q] in b.marked { StepAt(a, b, end, c, q); }
    forall q, r | q in b.pages && r in b.pages && q != r ensures b.pages[q] != b.pages[r] {
      StepAt(a, b, end, c, q);
      StepAt(a, b, end, c, r);
    }
  }

  lemma StepKeepsReady(a: State, b: State, end: nat, c: Mapped)
    requires MapStep(a, b, end, c) && Ready(a.pages, a.marked, end)
    ensures Ready(b.pages, b.marked, end) && |b.marked| == |a.marked| + |c.fs|
  {
    StepKeepsSound(a, b, end, c);
    CountFresh(a.marked, c.fs);
    forall q: page | KERNEL_PAGE <= q < end ensures q in b.pages && b.pages[q] == q - KERNEL_PAGE {
      StepAt(a, b, end, c, q);
    }
  }

  /** Along every run no two pages share a frame, every frame behind a page is marked used, the
      kernel stays mapped linearly, and the number of used frames is that at the start plus one for
      every page mapped since. */
  lemma {:induction false} RunStaysReady(run: seq<State>, calls: seq<Mapped>, end: nat, k: nat)
    requires IsRun(run, calls, end) && k <= |calls|
    ensures Ready(run[k].pages, run[k].marked, end)
    ensures |run[k].marked| == |run[0].marked| + Total(calls[..k])
  {
    if k > 0 {
      RunStaysReady(run, calls, end, k - 1);
      StepKeepsReady(run[k - 1], run[k], end, calls[k - 1]);
      assert calls[..k][..k - 1] == calls[..k - 1];
    }
  }

  /** A page keeps its frame for as long as no call covers it. */
  lemma {:induction false} TranslationsStay(run: seq<State>, calls: seq<Mapped>, end: nat, j: nat, k: nat, q: page)
    requires IsRun(run, calls, end) && j <= k <= |calls|
    requires forall i :: j <= i < k ==> !Covers(calls[i], q)
    ensures q in run[k].pages <==> q in run[j].pages
    ensures q in run[j].pages ==> run[k].pages[q] == run[j].pages[q]
    decreases k - j
  {
    if j < k {
      TranslationsStay(run, calls, end, j, k - 1, q);
      StepAt(run[k - 1], run[k], end, calls[k - 1], q);
    }
  }

  /** Frames handed out by different calls of a run never coincide. */
  lemma CallsShareNothing(run: seq<State>, calls: seq<Mapped>, end: nat, i: nat, j: nat, f: frame)
    requires IsRun(run, calls, end) && i < j < |calls| && f in calls[i].fs
    ensures f !in calls[j].fs
  {
    assert MapStep(run[i], run[i + 1], end, calls[i]) && MapStep(run[j], run[j + 1], end, calls[j]);
    MarkedGrows(run, calls, end, i + 1, j);
    assert f in run[i + 1].marked;
  }

  lemma {:induction false} MarkedGrows(run: seq<State>, calls: seq<Mapped>, end: nat, i: nat, j: nat)
    requires IsRun(run, calls, end) && i <= j <= |calls|
    ensures run[i].marked <= run[j].marked
    decreases j - i
  {
    if i < j {
      MarkedGrows(run, calls, end, i, j - 1);
      assert MapStep(run[j - 1], run[j], end, calls[j - 1]);
    }
  }

  /** A call of the manager is one such step, exactly when it has pages, frames and tables to work
      with. */
  method MapOne(m: Manager, virtual: word, physical: word, size: word)
    returns (o: Outcome<word>, ghost c: Mapped, ghost mapped: bool)
    requires m.Valid() && Ready(Present(m.dir), m.frames.Marked(), m.LinearEnd())
    requires size + PAGE_SIZE <= 0x8000_0000
    requires virtual != NULL ==> AwayFromKernel(virtual / PAGE_SIZE, DivUp(size, PAGE_SIZE), m.LinearEnd())
    requires virtual == NULL ==> SearchStaysInKernel(Present(m.dir), RunLength(size))
    modifies m, m.arena, m.frames, m.frames.bitmap
    ensures m.Valid()
    ensures c.p + DivUp(size, PAGE_SIZE) <= PAGES
    ensures mapped <==>
              && (virtual == NULL ==> HasRun(old(Present(m.dir)), RunLength(size)))
              && EnoughFrames(old(m.frames.Marked()), physical, DivUp(size, PAGE_SIZE))
              && Needed(old(Tables(m.dir)), c.p, DivUp(size, PAGE_SIZE)) <= old(m.Room())
    ensures mapped ==>
              && MapStep(old(State(Present(m.dir), m.frames.Marked())), State(Present(m.dir), m.frames.Marked()), m.LinearEnd(), c)
              && |c.fs| == DivUp(size, PAGE_SIZE) && o == Returned(c.p * PAGE_SIZE)
    ensures forall va: word :: m.dir.HardwareWalk(va) == m.dir.SoftwareWalk(va)
  {
    hide Present, KernelEntries, MarkedIn, Ready, MapRun, Fresh, Elements, SearchStaysInKernel, LowestIn;
    hide Directory.HardwareWalk, Directory.SoftwareWalk, Directory.EntryOk, Needed, Grown, Tables, HasRun, EnoughFrames, DirectoriesOf;
    ghost var p, fs;
    o, p, fs, mapped := m.MapMemory(virtual, physical, size);
    c := Mapped(p, fs);
    forall va: word ensures m.dir.HardwareWalk(va) == m.dir.SoftwareWalk(va) { WalksAgree(m.dir, va); }
  }
}
