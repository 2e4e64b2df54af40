/** The allocator used before the heap exists: a moving head in a fixed area that never gives
    memory back. */
module Placement {
  import opened Word32

  const PLACEMENT_SIZE: nat := 0x0010_0000

  /** What the head skips to reach a page boundary. */
  function Skip(head: nat, align: bool): (s: nat)
    requires head + PAGE_SIZE <= WORD
    ensures s < PAGE_SIZE && (if align then IsPageAligned(head + s) else s == 0)
  {
    if align then AlignUp(head) - head else 0
  }

  /** How many pages the area can still hand out, aligned. */
  function Room(head: nat, left: nat): nat
    requires head + PAGE_SIZE <= WORD
  {
    if left < Skip(head, true) then 0 else (left - Skip(head, true)) / PAGE_SIZE
  }

  class Arena {
    const start: word
    var head: nat
    var left: nat

    ghost predicate Valid()
      reads this
    {
      && 0 < start && start + PLACEMENT_SIZE + PAGE_SIZE <= WORD
      && start <= head && head + left == start + PLACEMENT_SIZE
    }

    constructor (s: word)
      requires 0 < s && s + PLACEMENT_SIZE + PAGE_SIZE <= WORD
      ensures Valid() && start == s && head == s
    {
      start, head, left := s, s, PLACEMENT_SIZE;
    }

    /** The sum of size and padding is taken in 32 bits; see FailsExactly for when that matters. */
    method KMalloc(size: word, align: bool) returns (p: word)
      requires Valid()
      modifies this
      ensures Valid()
      ensures p == NULL <==> Wrap(Skip(old(head), align) + size) > old(left)
      ensures p == NULL ==> head == old(head) && left == old(left)
      ensures p != NULL ==>
                && p == old(head) + Skip(old(head), align) && (align ==> IsPageAligned(p))
                && head == old(head) + Wrap(Skip(old(head), align) + size)
      ensures p != NULL && !align ==> p == old(head) && head == old(head) + size
      // a request whose sum does not wrap gets a range of its own
      ensures Skip(old(head), align) + size < WORD ==>
                && (p == NULL <==> Skip(old(head), align) + size > old(left))
                && (p != NULL ==> old(head) <= p && head == p + size && head <= start + PLACEMENT_SIZE)
    {
      var addr := head;
      var need := size;
      if align {
        var aligned := AlignUp(addr);
        var padding := aligned - addr;
        need := Wrap(size + padding);
        addr := aligned;
      }
      if need > left {
        return NULL;
      }
      head := head + need;
      left := left - need;
      p := addr;
    }
  }

  /** k pages, aligned: they are there iff there is room for them, and use up just that room. */
  method Pages(a: Arena, k: nat) returns (p: word)
    requires a.Valid() && 0 < k <= 256
    modifies a
    ensures a.Valid()
    ensures p == NULL <==> Room(old(a.head), old(a.left)) < k
    ensures p == NULL ==> a.head == old(a.head) && a.left == old(a.left)
    ensures p != NULL ==>
              && IsPageAligned(p) && old(a.head) <= p && a.head == p + k * PAGE_SIZE <= a.start + PLACEMENT_SIZE
              && Room(a.head, a.left) == Room(old(a.head), old(a.left)) - k
  {
    ghost var h, l := a.head, a.left;
    RoomFor(h, l, k);
    p := a.KMalloc(k * PAGE_SIZE, true);
    if p != NULL {
      RoomAfter(h, l, k, a.head, a.left);
    }
  }

  lemma RoomFor(head: nat, left: nat, k: nat)
    requires head + PAGE_SIZE <= WORD && 0 < k
    ensures Skip(head, true) + k * PAGE_SIZE <= left <==> k <= Room(head, left)
  {}

  lemma RoomAfter(head: nat, left: nat, k: nat, head': nat, left': nat)
    requires head + PAGE_SIZE <= WORD && 0 < k && head' + PAGE_SIZE <= WORD && k <= Room(head, left)
    requires head' == head + Skip(head, true) + k * PAGE_SIZE && left' == left - Skip(head, true) - k * PAGE_SIZE
    ensures Room(head', left') == Room(head, left) - k
  {
    PagesBehind(head + Skip(head, true), k);
    AlignedStays(head');
    FewerPages(left - Skip(head, true), k);
    hide AlignUp, IsPageAligned;
  }

  lemma PagesBehind(a: nat, k: nat)
    requires IsPageAligned(a)
    ensures IsPageAligned(a + k * PAGE_SIZE)
  {}

  lemma FewerPages(x: nat, k: nat)
    requires k * PAGE_SIZE <= x
    ensures (x - k * PAGE_SIZE) / PAGE_SIZE == x / PAGE_SIZE - k
  {}

  /** The 32-bit test accepts exactly the requests that fit, if and only if the sum of size and
      padding stays in 32 bits or still exceeds what is left after wrapping. */
  lemma FailsExactly(head: nat, left: nat, size: word, align: bool)
    requires head + PAGE_SIZE <= WORD && left <= PLACEMENT_SIZE
    ensures var sum := Skip(head, align) + size;
            (Wrap(sum) <= left <==> sum <= left) <==> sum < WORD || left < sum - WORD
  {}

  /** A request that wraps: it is accepted although it is larger than the whole area, and the range
      it returns starts behind the new head, where the next request will be served from. */
  method WrappingRequestAccepted(a: Arena) returns (p: word)
    requires a.Valid() && a.head % PAGE_SIZE == 1 && a.left >= PAGE_SIZE
    modifies a
    ensures a.Valid() && p != NULL && a.head < p
  {
    assert AlignUp(a.head) == a.head + PAGE_SIZE - 1;
    p := a.KMalloc(WORD - 1, true);
  }
}
