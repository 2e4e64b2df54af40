/** The 32-bit unsigned arithmetic of the i386 target, written over unbounded integers, and the
    page arithmetic of the paging unit.  A shift right by k is a division by 2^k, a mask of the
    low k bits is a remainder. */
module Word32 {
  const WORD: nat := 0x1_0000_0000
  const PAGE_SIZE: nat := 4096

  type word = x: nat | x < WORD

  const NULL: word := 0

  function Wrap(x: int): word { x % WORD }

  lemma NoWrapBelow(x: nat)
    requires x < WORD
    ensures Wrap(x) == x
  {}

  lemma WrapOnce(x: nat)
    requires WORD <= x < 2 * WORD
    ensures Wrap(x) == x - WORD
  {}

  predicate IsPageAligned(a: nat) { a % PAGE_SIZE == 0 }

  function AlignUp(a: nat): (r: word)
    ensures IsPageAligned(r)
    ensures a + PAGE_SIZE <= WORD ==> a <= r < a + PAGE_SIZE
  {
    Wrap(a + PAGE_SIZE - 1) / PAGE_SIZE * PAGE_SIZE
  }

  function AlignDown(a: nat): (r: nat)
    ensures IsPageAligned(r) && r <= a < r + PAGE_SIZE
  {
    a / PAGE_SIZE * PAGE_SIZE
  }

  lemma AlignedStays(a: nat)
    requires IsPageAligned(a) && a + PAGE_SIZE <= WORD
    ensures AlignUp(a) == a
  {}

  /** No aligned address lies between an address and what it is aligned up to. */
  lemma LeastAligned(x: nat, a: nat)
    requires x + PAGE_SIZE <= WORD && x <= a && IsPageAligned(a)
    ensures AlignUp(x) <= a
  {
    var r := AlignUp(x);
    assert r < x + PAGE_SIZE;
    if a < r { OnePage(a, r); }
  }

  lemma OnePage(a: nat, r: nat)
    requires IsPageAligned(a) && IsPageAligned(r) && a < r
    ensures a + PAGE_SIZE <= r
  {}
}
