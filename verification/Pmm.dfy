/** The physical memory manager: one bit per 4 KiB frame, and a cached count of used frames. */
module Pmm {
  import opened Word32

  const NUM_MEMORY_FRAMES: nat := 0xFFFF_FFFF / PAGE_SIZE
  const FRAMES_PER_BYTE: nat := 8
  const BITMAP_SIZE: nat := (NUM_MEMORY_FRAMES + FRAMES_PER_BYTE - 1) / FRAMES_PER_BYTE

  /** The frames a bitmap can name: one more than NUM_MEMORY_FRAMES, because the bitmap is rounded
      up to whole bytes. */
  const ALL_FRAMES: nat := BITMAP_SIZE * FRAMES_PER_BYTE

  type frame = f: nat | f < 0x10_0000

  // ----- bits of a byte -----

  function Mask(k: nat): bv8
    requires k < 8
  {
    1 << k
  }

  predicate HasBit(b: bv8, k: nat)
    requires k < 8
  {
    b & Mask(k) != 0
  }

  lemma Masks()
    ensures Mask(0) == 1 && Mask(1) == 2 && Mask(2) == 4 && Mask(3) == 8
    ensures Mask(4) == 16 && Mask(5) == 32 && Mask(6) == 64 && Mask(7) == 128
  {}

  lemma SetBit(b: bv8, k: nat, j: nat)
    requires k < 8 && j < 8
    ensures HasBit(b | Mask(k), j) <==> j == k || HasBit(b, j)
  {
    Masks();
  }

  lemma ClearBit(b: bv8, k: nat, j: nat)
    requires k < 8 && j < 8
    ensures HasBit(b & !Mask(k), j) <==> j != k && HasBit(b, j)
  {
    Masks();
  }

  lemma FullByte(j: nat)
    requires j < 8
    ensures HasBit(0xFF, j)
  {
    Masks();
  }

  // ----- regions -----

  /** A boot-time memory region; `available` is type MULTIBOOT_MEMORY_AVAILABLE. */
  datatype Region = Region(base: word, length: word, available: bool)

  /** What the region table can hold: at most 12 regions, none empty, none past 4 GiB. */
  ghost predicate WellFormed(rs: seq<Region>) {
    |rs| <= 12 && forall i :: 0 <= i < |rs| ==> 0 < rs[i].length && rs[i].base + rs[i].length <= WORD
  }

  /** Frame f and region r have a byte in common. */
  ghost predicate Touches(r: Region, f: int) {
    r.base < (f + 1) * PAGE_SIZE && f * PAGE_SIZE < r.base + r.length
  }

  ghost predicate Available(rs: seq<Region>, f: int) {
    exists i :: 0 <= i < |rs| && rs[i].available && Touches(rs[i], f)
  }

  lemma {:induction false} CountBelow(s: set<nat>, n: nat)
    requires forall f :: f in s <==> 0 <= f < n
    ensures |s| == n
  {
    if n == 0 {
      assert s == {};
    } else {
      CountBelow(s - {n - 1}, n - 1);
    }
  }

  // ----- the bitmap as a value -----

  predicate Bit(bm: seq<bv8>, f: frame)
    requires |bm| == BITMAP_SIZE
  {
    HasBit(bm[f / FRAMES_PER_BYTE], f % FRAMES_PER_BYTE)
  }

  /** The frames whose bit is set. */
  ghost function MarkedIn(bm: seq<bv8>): set<nat>
    requires |bm| == BITMAP_SIZE
  {
    set f: nat | f < ALL_FRAMES && Bit(bm, f)
  }

  function Marking(bm: seq<bv8>, f: frame): seq<bv8>
    requires |bm| == BITMAP_SIZE
  {
    bm[f / FRAMES_PER_BYTE := bm[f / FRAMES_PER_BYTE] | Mask(f % FRAMES_PER_BYTE)]
  }

  function Clearing(bm: seq<bv8>, f: frame): seq<bv8>
    requires |bm| == BITMAP_SIZE
  {
    bm[f / FRAMES_PER_BYTE := bm[f / FRAMES_PER_BYTE] & !Mask(f % FRAMES_PER_BYTE)]
  }

  lemma MarkingAdds(bm: seq<bv8>, f: frame)
    requires |bm| == BITMAP_SIZE
    ensures MarkedIn(Marking(bm, f)) == MarkedIn(bm) + {f}
  {
    hide HasBit, Mask;
    forall g: nat | g < ALL_FRAMES ensures Bit(Marking(bm, f), g) <==> g == f || Bit(bm, g) {
      SetBit(bm[f / FRAMES_PER_BYTE], f % FRAMES_PER_BYTE, g % FRAMES_PER_BYTE);
    }
  }

  lemma ClearingRemoves(bm: seq<bv8>, f: frame)
    requires |bm| == BITMAP_SIZE
    ensures MarkedIn(Clearing(bm, f)) == MarkedIn(bm) - {f}
  {
    hide HasBit, Mask;
    forall g: nat | g < ALL_FRAMES ensures Bit(Clearing(bm, f), g) <==> g != f && Bit(bm, g) {
      ClearBit(bm[f / FRAMES_PER_BYTE], f % FRAMES_PER_BYTE, g % FRAMES_PER_BYTE);
    }
  }

  lemma MarkedBelow(bm: seq<bv8>)
    requires |bm| == BITMAP_SIZE
    ensures forall f :: f in MarkedIn(bm) ==> f < ALL_FRAMES
  {}

  lemma FullBitmap(bm: seq<bv8>)
    requires |bm| == BITMAP_SIZE && forall i :: 0 <= i < |bm| ==> bm[i] == 0xFF
    ensures forall f :: f in MarkedIn(bm) <==> 0 <= f < ALL_FRAMES
  {
    hide HasBit;
    forall f: nat | f < ALL_FRAMES ensures Bit(bm, f) {
      FullByte(f % FRAMES_PER_BYTE);
    }
  }

  ghost function Outside(all: set<nat>, a: nat, b: nat): set<nat> {
    set g | g in all && !(a <= g < b)
  }

  lemma OutsideNone(all: set<nat>, a: nat)
    ensures Outside(all, a, a) == all
  {}

  lemma OutsideNext(all: set<nat>, a: nat, b: nat)
    requires a <= b
    ensures Outside(all, a, b + 1) == Outside(all, a, b) - {b}
  {}

  lemma CounterSteps(n: nat)
    requires n < WORD
    ensures Wrap(Wrap(n - 1) + 1) == Wrap(n) && Wrap(Wrap(n) - 1) == Wrap(n - 1)
  {
    if n == 0 {
      assert Wrap(-1) == WORD - 1;
    } else {
      NoWrapBelow(n - 1);
      NoWrapBelow(n);
    }
  }

  lemma MarkedCount(bm: seq<bv8>)
    requires |bm| == BITMAP_SIZE
    ensures |MarkedIn(bm)| <= ALL_FRAMES
  {
    MarkedBelow(bm);
    CountAtMost(MarkedIn(bm), ALL_FRAMES);
  }

  /** The counter is exactly one less than the number of set bits as long as some bit is set. */
  lemma CounterExact(m: FrameMap)
    requires m.Valid()
    ensures m.used + 1 == |m.Marked()| <==> m.Marked() != {}
  {
    var s := m.Marked();
    assert forall f :: f in s ==> 0 <= f < ALL_FRAMES;
    CountAtMost(s, ALL_FRAMES);
  }

  lemma {:induction false} CountAtMost(s: set<nat>, n: nat)
    requires forall f :: f in s ==> 0 <= f < n
    ensures |s| <= n
  {
    if n == 0 {
      assert s == {};
    } else {
      CountAtMost(s - {n - 1}, n - 1);
    }
  }

  class FrameMap {
    const bitmap: array<bv8>
    var used: word

    ghost predicate Sized()
      reads this
    {
      bitmap.Length == BITMAP_SIZE
    }

    predicate Test(f: frame)
      requires Sized()
      reads this, bitmap
    {
      HasBit(bitmap[f / FRAMES_PER_BYTE], f % FRAMES_PER_BYTE)
    }

    ghost function Marked(): set<nat>
      requires Sized()
      reads this, bitmap
    {
      MarkedIn(bitmap[..])
    }

    /** The counter is one less than the number of set bits, modulo 2^32. */
    ghost predicate Valid()
      reads this, bitmap
    {
      Sized() && used == Wrap(|Marked()| - 1)
    }

    /** pmm_init: a frame is free exactly when it has a byte of an available region. */
    constructor (rs: seq<Region>)
      requires WellFormed(rs)
      ensures Valid() && fresh(bitmap)
      ensures forall f :: f in Marked() <==> 0 <= f < ALL_FRAMES && !Available(rs, f)
    {
      bitmap := new bv8[BITMAP_SIZE](_ => 0xFF);
      used := NUM_MEMORY_FRAMES;
      new;
      hide MarkedIn, HasBit, Wrap, Available, WellFormed;
      ghost var all := Marked();
      FullBitmap(bitmap[..]);
      CountBelow(all, ALL_FRAMES);
      NoWrapBelow(ALL_FRAMES - 1);
      Free(rs);
      FreedFrom(all, Marked(), rs);
    }

    method Set(f: frame)
      requires Valid()
      modifies this, bitmap
      ensures Valid()
      ensures Marked() == old(Marked()) + {f}
    {
      hide HasBit, Mask;
      assert Test(f) == Bit(bitmap[..], f);
      if Test(f) {
        return;
      }
      ghost var bm := bitmap[..];
      var block, bit := f / FRAMES_PER_BYTE, f % FRAMES_PER_BYTE;
      bitmap[block] := bitmap[block] | Mask(bit);
      used := Wrap(used + 1);
      assert f !in MarkedIn(bm);
      hide MarkedIn, Bit;
      assert bitmap[..] == Marking(bm, f);
      MarkingAdds(bm, f);
      MarkedCount(bm);
      CounterSteps(|MarkedIn(bm)|);
      hide Wrap;
      assert |MarkedIn(bm) + {f}| == |MarkedIn(bm)| + 1;
    }

    method Unset(f: frame)
      requires Valid()
      modifies this, bitmap
      ensures Valid()
      ensures Marked() == old(Marked()) - {f}
    {
      hide HasBit, Mask;
      assert Test(f) == Bit(bitmap[..], f);
      if !Test(f) {
        return;
      }
      ghost var bm := bitmap[..];
      var block, bit := f / FRAMES_PER_BYTE, f % FRAMES_PER_BYTE;
      bitmap[block] := bitmap[block] & !Mask(bit);
      used := Wrap(used - 1);
      assert f in MarkedIn(bm);
      hide MarkedIn, Bit;
      assert bitmap[..] == Clearing(bm, f);
      ClearingRemoves(bm, f);
      MarkedCount(bm);
      CounterSteps(|MarkedIn(bm)| - 1);
      hide Wrap;
      assert |MarkedIn(bm) - {f}| == |MarkedIn(bm)| - 1;
    }

    /** The address of the lowest free frame at or after `address`, or 0. */
    method FindFreeFrom(address: word) returns (r: word)
      requires Valid()
      ensures r != 0 ==>
                && IsPageAligned(r) && address / PAGE_SIZE <= r / PAGE_SIZE < NUM_MEMORY_FRAMES
                && r / PAGE_SIZE !in Marked()
                && forall g: nat :: address / PAGE_SIZE <= g < r / PAGE_SIZE ==> g in Marked()
      ensures r == 0 ==>
                || (address < PAGE_SIZE && 0 !in Marked())
                || forall g: nat :: address / PAGE_SIZE <= g < NUM_MEMORY_FRAMES ==> g in Marked()
    {
      hide HasBit, Wrap;
      var i := address / PAGE_SIZE;
      while i < NUM_MEMORY_FRAMES
        invariant address / PAGE_SIZE <= i
        invariant forall g: nat :: address / PAGE_SIZE <= g < i && g < NUM_MEMORY_FRAMES ==> g in Marked()
      {
        assert Test(i) == Bit(bitmap[..], i);
        if !Test(i) {
          return i * PAGE_SIZE;
        }
        i := i + 1;
      }
      return 0;
    }

    /** The region loop of pmm_init. */
    method Free(rs: seq<Region>)
      requires Valid() && WellFormed(rs)
      modifies this, bitmap
      ensures Valid()
      ensures Marked() == set f | f in old(Marked()) && !Available(rs, f)
    {
      ghost var all := Marked();
      for n := 0 to |rs|
        invariant Valid()
        invariant Marked() == set f | f in all && !Available(rs[..n], f)
      {
        AvailableNext(rs, n);
        if rs[n].available {
          FreeRegion(rs[n]);
        }
      }
      assert rs[..|rs|] == rs;
    }

    method FreeRegion(r: Region)
      requires Valid() && 0 < r.length && r.base + r.length <= WORD
      modifies this, bitmap
      ensures Valid()
      ensures Marked() == set f | f in old(Marked()) && !Touches(r, f)
    {
      ghost var all := Marked();
      hide MarkedIn, Touches, Outside, Wrap;
      var first := r.base / PAGE_SIZE;
      var last := (r.base + r.length - 1) / PAGE_SIZE;
      assert first <= last <= 0xF_FFFF;
      OutsideNone(all, first);
      var f := first;
      while f <= last
        invariant Valid() && first <= f <= last + 1
        invariant Marked() == Outside(all, first, f)
      {
        OutsideNext(all, first, f);
        Unset(f);
        f := f + 1;
      }
      RegionSpan(r, all);
    }
  }

  lemma FreedFrom(all: set<nat>, left: set<nat>, rs: seq<Region>)
    requires forall f :: f in all <==> 0 <= f < ALL_FRAMES
    requires left == set f | f in all && !Available(rs, f)
    ensures forall f :: f in left <==> 0 <= f < ALL_FRAMES && !Available(rs, f)
  {}

  lemma FrameSpan(r: Region, g: nat)
    requires 0 < r.length
    ensures r.base / PAGE_SIZE <= g <= (r.base + r.length - 1) / PAGE_SIZE <==> Touches(r, g)
  {}

  lemma RegionSpan(r: Region, all: set<nat>)
    requires 0 < r.length
    ensures var first, last := r.base / PAGE_SIZE, (r.base + r.length - 1) / PAGE_SIZE;
            Outside(all, first, last + 1) == set g | g in all && !Touches(r, g)
  {
    forall g: nat ensures r.base / PAGE_SIZE <= g <= (r.base + r.length - 1) / PAGE_SIZE <==> Touches(r, g) {
      FrameSpan(r, g);
    }
  }

  lemma AvailableNext(rs: seq<Region>, n: nat)
    requires n < |rs|
    ensures forall f :: Available(rs[..n + 1], f) <==> Available(rs[..n], f) || (rs[n].available && Touches(rs[n], f))
  {
    forall f ensures Available(rs[..n + 1], f) <==> Available(rs[..n], f) || (rs[n].available && Touches(rs[n], f)) {
      var s, t := rs[..n], rs[..n + 1];
      if Available(s, f) {
        var i :| 0 <= i < |s| && s[i].available && Touches(s[i], f);
        assert t[i] == s[i];
      }
      if Available(t, f) {
        var i :| 0 <= i < |t| && t[i].available && Touches(t[i], f);
        assert i == n || s[i] == t[i];
      }
      assert t[n] == rs[n];
    }
  }
}
