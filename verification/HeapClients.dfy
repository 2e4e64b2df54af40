/** Clients of the kernel heap: any run of kmalloc, kfree and krealloc calls, mixed with writes to
    the memory they returned, is a run over separate byte buffers. */
module HeapClients {
  import opened Basics
  import opened Word32
  import opened Memory
  import opened HeapLayout
  import opened KernelHeap
  import opened HeapRuns

  /** What a client believes to own: a pointer and the bytes it can read there. */
  datatype Buffer = Buffer(p: word, data: seq<byte>)

  /** One call; k numbers the buffers the client owns at that time. */
  datatype Call =
    | Malloc(size: word, align: bool, zero: bool)
    | Free(k: nat)
    | Realloc(k: nat, size: word, align: bool, zero: bool)
    | Write(k: nat, offset: nat, v: byte)

  // ----- the simple store -----

  function Remove<T>(s: seq<T>, k: nat): seq<T>
    requires k < |s|
  {
    s[..k] + s[k + 1..]
  }

  /** b is a new buffer of n bytes. */
  predicate Handed(b: Buffer, n: nat, align: bool, zero: bool) {
    |b.data| == n && n > 0 && (align ==> IsPageAligned(b.p)) && (zero ==> forall j :: 0 <= j < n ==> b.data[j] == 0)
  }

  /** d is a buffer of n bytes that starts like c. */
  predicate Resized(c: seq<byte>, d: seq<byte>, n: nat) {
    |d| == n && forall j :: 0 <= j < |c| && j < n ==> d[j] == c[j]
  }

  /** What one call may do to the buffers: nothing but what it names. */
  predicate Follows(os: seq<Buffer>, c: Call, os': seq<Buffer>) {
    match c
    case Malloc(size, align, zero) =>
      || os' == os
      || (|os'| == |os| + 1 && os'[..|os|] == os && Handed(os'[|os|], size, align, zero))
    case Free(k) => os' == if k < |os| then Remove(os, k) else os
    case Realloc(k, size, align, zero) =>
      if k >= |os| then os' == os else
        || (os' == os && size > |os[k].data|)
        || (|os'| == |os| && os' == os[k := os'[k]] && Resized(os[k].data, os'[k].data, size))
    case Write(k, offset, v) =>
      os' == if k < |os| && offset < |os[k].data| then os[k := os[k].(data := os[k].data[offset := v])] else os
  }

  // ----- how the heap implements it -----

  /** The live block blk holds the bytes of b. */
  ghost predicate Backs(m: Mem, blk: Block, b: Buffer) {
    && b.p == blk.Payload() && |b.data| <= blk.size && blk.End() <= WORD
    && m[b.p..b.p + |b.data|] == b.data
  }

  /** Buffer i is held by block at[i]; the blocks at[..] are the live ones, each once. */
  ghost predicate Owns(m: Mem, live: set<Block>, os: seq<Buffer>, at: seq<Block>) {
    && |at| == |os|
    && (forall i :: 0 <= i < |os| ==> at[i] in live && Backs(m, at[i], os[i]))
    && Distinct(at)
    && (forall b :: b in live ==> b in at)
  }

  ghost predicate Distinct(s: seq<Block>) {
    forall i, j :: 0 <= i < j < |s| ==> s[i] != s[j]
  }

  lemma RemoveDistinct(s: seq<Block>, k: nat)
    requires Distinct(s) && k < |s|
    ensures Distinct(Remove(s, k)) && s[k] !in Remove(s, k)
    ensures forall x :: x in s && x != s[k] ==> x in Remove(s, k)
  {
    var t := Remove(s, k);
    forall x | x in s && x != s[k] ensures x in t {
      var j :| 0 <= j < |s| && s[j] == x;
      assert t[if j < k then j else j - 1] == x;
    }
    forall i | 0 <= i < |t| ensures t[i] != s[k] {
      assert t[i] == s[if i < k then i else i + 1];
    }
  }

  lemma ReplaceDistinct(s: seq<Block>, k: nat, c: Block)
    requires Distinct(s) && k < |s| && (c == s[k] || c !in s)
    ensures Distinct(s[k := c]) && c in s[k := c]
    ensures forall i :: 0 <= i < |s| && i != k ==> s[i] != s[k]
    ensures forall x :: x in s && x != s[k] ==> x in s[k := c]
  {
    var t := s[k := c];
    assert t[k] == c;
    forall x | x in s && x != s[k] ensures x in t {
      var j :| 0 <= j < |s| && s[j] == x;
      assert t[j] == x;
    }
  }

  lemma BacksKept(m: Mem, r: Mem, blk: Block, b: Buffer)
    requires Backs(m, blk, b) && SamePayload(m, r, blk)
    ensures Backs(r, blk, b)
  {
    forall j | 0 <= j < |b.data| ensures r[b.p + j] == b.data[j] {
      assert m[b.p..b.p + |b.data|][j] == b.data[j];
    }
    assert r[b.p..b.p + |b.data|] == b.data;
  }

  lemma OwnsMore(m: Mem, r: Mem, live: set<Block>, os: seq<Buffer>, at: seq<Block>, c: Block, b: Buffer)
    requires Owns(m, live, os, at) && LiveKept(m, r, live) && c !in live && Backs(r, c, b)
    ensures Owns(r, live + {c}, os + [b], at + [c])
  {
    forall i | 0 <= i < |os| ensures Backs(r, at[i], os[i]) { BacksKept(m, r, at[i], os[i]); }
  }

  lemma OwnsLess(m: Mem, r: Mem, live: set<Block>, os: seq<Buffer>, at: seq<Block>, k: nat)
    requires Owns(m, live, os, at) && LiveKept(m, r, live) && k < |os|
    ensures Owns(r, live - {at[k]}, Remove(os, k), Remove(at, k))
  {
    var os', at' := Remove(os, k), Remove(at, k);
    RemoveDistinct(at, k);
    hide Backs, SamePayload, Distinct;
    forall i | 0 <= i < |os'| ensures at'[i] in live - {at[k]} && Backs(r, at'[i], os'[i]) {
      var j := if i < k then i else i + 1;
      assert at'[i] == at[j] && at'[i] in at' && os'[i] == os[j];
      BacksKept(m, r, at[j], os[j]);
    }
  }

  lemma OwnsOther(m: Mem, r: Mem, live: set<Block>, os: seq<Buffer>, at: seq<Block>, k: nat, c: Block, b: Buffer)
    requires Owns(m, live, os, at) && k < |os| && LiveKept(m, r, live - {at[k]})
    requires (c == at[k] || c !in live) && Backs(r, c, b)
    ensures Owns(r, live - {at[k]} + {c}, os[k := b], at[k := c])
  {
    ReplaceDistinct(at, k, c);
    hide Backs, SamePayload, Distinct;
    var live' := live - {at[k]} + {c};
    forall i | 0 <= i < |os| && i != k ensures at[i] in live' && Backs(r, at[i], os[i]) {
      BacksKept(m, r, at[i], os[i]);
    }
  }

  /** The buffers of a client share no byte. */
  lemma BuffersDisjoint(m: Mem, bs: seq<Block>, lo: nat, hi: nat, os: seq<Buffer>, at: seq<Block>, i: nat, j: nat)
    requires Tiles(bs, lo, hi) && Owns(m, Live(bs), os, at) && i < j < |os|
    ensures os[i].p + |os[i].data| < os[j].p || os[j].p + |os[j].data| < os[i].p
  {
    var k := LiveIndex(bs, at[i]);
    var l := LiveIndex(bs, at[j]);
    if k < l { Ordered(bs, lo, hi, k, l); } else { Ordered(bs, lo, hi, l, k); }
  }

  /** What a call demands of the heap: a request must neither wrap in the search nor lose the back
      links. */
  ghost predicate Safe(bs: seq<Block>, c: Call) {
    c.Malloc? || c.Realloc? ==> SafeRequest(bs, c.size, c.align)
  }

  /** Unaligned requests small enough for every block list are always safe. */
  predicate SmallEnough(base: nat, c: Call) {
    c.Malloc? || c.Realloc? ==> !c.align && base + KHEAP_HEAP_SIZE + SEARCH_OFFSET + c.size <= WORD
  }

  lemma SmallIsSafe(bs: seq<Block>, lo: nat, c: Call)
    requires Tiles(bs, lo, lo + KHEAP_HEAP_SIZE) && SmallEnough(lo, c)
    ensures Safe(bs, c)
  {
    if c.Malloc? || c.Realloc? { SmallNeverWraps(bs, lo, c.size); }
  }

  method Obtain(h: Heap, size: word, align: bool, zero: bool, ghost os: seq<Buffer>, ghost at: seq<Block>)
    returns (p: word, ghost os': seq<Buffer>, ghost at': seq<Block>)
    requires h.Valid() && Owns(h.mem, Live(h.blocks), os, at) && SafeRequest(h.blocks, size, align)
    modifies h`mem, h`tail, h`blocks
    ensures h.Valid() && Owns(h.mem, Live(h.blocks), os', at')
    ensures Follows(os, Malloc(size, align, zero), os')
    ensures if p == NULL then os' == os else |os'| == |os| + 1 && os'[|os|].p == p && os'[..|os|] == os
  {
    assert size == 0 ==> Refused(h.blocks, size, align);
    hide Tiles, Coalesced, Live, Served, Owns, TakenIndex, IsPageAligned, Refused, GrownBy, LiveKept, ZeroFrom;
    hide Candidates, Fitting, AlignedFitting, AlignedSpan, FirstSmallest, NoWrap, ForwardLinked, BackLinkedBut, NonEmpty;
    ghost var bs, i := h.blocks, 0;
    os', at' := os, at;
    p, i := h.KMallocHeap(size, align, zero);
    if p != NULL {
      ghost var t := TakenIndex(bs, i, align);
      ghost var b := Obtained(old(h.mem), h.mem, bs, h.blocks, h.base, h.base + KHEAP_HEAP_SIZE, t, size, zero, os, at);
      os', at' := os + [b], at + [h.blocks[t]];
    }
  }

  /** The client owns one more buffer. */
  lemma Obtained(m: Mem, r: Mem, bs: seq<Block>, cs: seq<Block>, lo: nat, hi: nat, t: nat, size: nat, zero: bool,
                 os: seq<Buffer>, at: seq<Block>) returns (b: Buffer)
    requires Owns(m, Live(bs), os, at) && LiveKept(m, r, Live(bs)) && Tiles(cs, lo, hi) && hi < WORD
    requires GrownBy(bs, cs, t) && size <= cs[t].size && (zero ==> ZeroFrom(r, cs[t], 0))
    ensures Owns(r, Live(cs), os + [b], at + [cs[t]])
    ensures b.p == cs[t].Payload() && |b.data| == size && (zero ==> forall j :: 0 <= j < size ==> b.data[j] == 0)
  {
    InRange(cs, lo, hi, t);
    b := Fresh(r, cs, lo, hi, t, size);
    hide Tiles, Live, Owns, LiveKept, Backs;
    OwnsMore(m, r, Live(bs), os, at, cs[t], b);
  }

  /** What the first n bytes of a block hold now. */
  lemma Fresh(m: Mem, bs: seq<Block>, lo: nat, hi: nat, i: nat, n: nat) returns (b: Buffer)
    requires Tiles(bs, lo, hi) && hi < WORD && i < |bs| && n <= bs[i].size
    ensures Backs(m, bs[i], b) && b.p == bs[i].Payload() && |b.data| == n
    ensures forall j :: 0 <= j < n ==> b.data[j] == m[b.p + j]
  {
    InRange(bs, lo, hi, i);
    var p: word := bs[i].Payload();
    b := Buffer(p, m[p..p + n]);
  }

  /** A block of the list, found by the pointer to it. */
  lemma OwnedBlock(m: Mem, bs: seq<Block>, lo: nat, hi: nat, os: seq<Buffer>, at: seq<Block>, k: nat) returns (i: nat)
    requires Tiles(bs, lo, hi) && NonEmpty(Live(bs)) && Owns(m, Live(bs), os, at) && k < |os|
    ensures i < |bs| && bs[i] == at[k] && !bs[i].free && bs[i].Payload() == os[k].p
    ensures lo <= os[k].p < hi && |at| == |os| && Backs(m, at[k], os[k])
    ensures forall j :: 0 <= j < |bs| && bs[j].Payload() == os[k].p ==> bs[j] == at[k]
  {
    i := LiveIndex(bs, at[k]);
    SoleLive(bs, lo, hi, i);
  }

  method GiveBack(h: Heap, p: word, ghost k: nat, ghost os: seq<Buffer>, ghost at: seq<Block>)
    returns (ghost os': seq<Buffer>, ghost at': seq<Block>)
    requires h.Valid() && Owns(h.mem, Live(h.blocks), os, at) && k < |os| && p == os[k].p
    modifies h`mem, h`tail, h`blocks
    ensures h.Valid() && Owns(h.mem, Live(h.blocks), os', at')
    ensures Follows(os, Free(k), os')
  {
    hide Tiles, Coalesced, Live, Owns, Release;
    ghost var bs := h.blocks;
    ghost var i := OwnedBlock(h.mem, bs, h.base, h.base + KHEAP_HEAP_SIZE, os, at, k);
    var o;
    ghost var j;
    o, j := h.KFree(p);
    OwnsLess(old(h.mem), h.mem, Live(bs), os, at, k);
    os', at' := Remove(os, k), Remove(at, k);
  }

  method Resize(h: Heap, p: word, size: word, align: bool, zero: bool, ghost k: nat, ghost os: seq<Buffer>, ghost at: seq<Block>)
    returns (q: word, ghost os': seq<Buffer>, ghost at': seq<Block>)
    requires h.Valid() && Owns(h.mem, Live(h.blocks), os, at) && SafeRequest(h.blocks, size, align)
    requires k < |os| && p == os[k].p
    modifies h`mem, h`tail, h`blocks
    ensures h.Valid() && Owns(h.mem, Live(h.blocks), os', at')
    ensures Follows(os, Realloc(k, size, align, zero), os')
    ensures |os'| == |os| && os' == os[k := os'[k]] && os'[k].p == if q == NULL then p else q
    ensures if q == NULL then os' == os else |os'[k].data| == size
  {
    hide Tiles, Coalesced, Live, Owns, Release, Moved, Replaced, HandedOut, Refused, SafeRequest, NonEmpty, Backs;
    ghost var bs, lo, hi := h.blocks, h.base as nat, h.base + KHEAP_HEAP_SIZE;
    ghost var i := OwnedBlock(h.mem, bs, lo, hi, os, at, k);
    var o;
    ghost var b, c, buf;
    o, b, c := h.KRealloc(p, size, align, zero);
    q := o.value;
    ghost var bi := LiveIndex(bs, b);
    assert b == at[k];
    os', at' := os, at;
    if size <= b.size {
      buf := StaysPut(h.mem, bs, lo, hi, os, at, k, i, size);
      os' := os[k := buf];
    } else if q != NULL {
      buf := MovesAway(old(h.mem), h.mem, bs, h.blocks, lo, hi, os, at, k, c, size);
      os', at' := os[k := buf], at[k := c];
    } else {
      BackedSize(h.mem, Live(bs), os, at, k);
    }
  }

  lemma BackedSize(m: Mem, live: set<Block>, os: seq<Buffer>, at: seq<Block>, k: nat)
    requires Owns(m, live, os, at) && k < |os|
    ensures |os[k].data| <= at[k].size
  {}

  /** The buffer gets another length and its block stays. */
  lemma StaysPut(m: Mem, bs: seq<Block>, lo: nat, hi: nat, os: seq<Buffer>, at: seq<Block>, k: nat, i: nat, size: nat)
    returns (buf: Buffer)
    requires Tiles(bs, lo, hi) && hi < WORD && Owns(m, Live(bs), os, at) && k < |os|
    requires i < |bs| && bs[i] == at[k] && size <= bs[i].size
    ensures Owns(m, Live(bs), os[k := buf], at)
    ensures buf.p == os[k].p && |buf.data| == size && Resized(os[k].data, buf.data, size)
  {
    buf := Fresh(m, bs, lo, hi, i, size);
    SamePrefix(m, m, at[k], os[k], buf, size);
    hide Tiles, Live, Backs, Resized, SamePayload;
    SameKept(m, Live(bs) - {at[k]});
    OwnsOther(m, m, Live(bs), os, at, k, at[k], buf);
    assert Live(bs) - {at[k]} + {at[k]} == Live(bs);
    assert at[k := at[k]] == at;
  }

  /** The buffer moves to another block with all its bytes. */
  lemma MovesAway(m: Mem, r: Mem, bs: seq<Block>, ds: seq<Block>, lo: nat, hi: nat, os: seq<Buffer>, at: seq<Block>, k: nat,
                  c: Block, size: nat) returns (buf: Buffer)
    requires Tiles(ds, lo, hi) && hi < WORD && Owns(m, Live(bs), os, at) && k < |os|
    requires size <= c.size && Replaced(m, r, Live(bs), Live(ds), at[k], c)
    ensures Owns(r, Live(ds), os[k := buf], at[k := c])
    ensures buf.p == c.Payload() && |buf.data| == size && Resized(os[k].data, buf.data, size)
  {
    hide Tiles, Live, SamePayload;
    var l := LiveIndex(ds, c);
    buf := Fresh(r, ds, lo, hi, l, size);
    SamePrefix(m, r, at[k], os[k], buf, size);
    OwnsOther(m, r, Live(bs), os, at, k, c, buf);
  }

  lemma SameKept(m: Mem, live: set<Block>)
    ensures LiveKept(m, m, live)
  {}

  lemma SamePrefix(m: Mem, r: Mem, blk: Block, b: Buffer, c: Buffer, size: nat)
    requires Backs(m, blk, b) && |c.data| == size && c.p + size <= WORD && r[c.p..c.p + size] == c.data
    requires forall a :: c.p <= a < c.p + blk.size && a < c.p + size ==> r[a] == m[a - c.p + b.p]
    ensures Resized(b.data, c.data, size)
  {
    forall j | 0 <= j < |b.data| && j < size ensures c.data[j] == b.data[j] {
      assert r[c.p..c.p + size][j] == r[c.p + j] && m[b.p..b.p + |b.data|][j] == m[b.p + j];
    }
  }

  lemma OthersKept(m: Mem, r: Mem, bs: seq<Block>, i: nat)
    requires i < |bs| && PayloadsKeptBut(m, r, bs, i)
    ensures LiveKept(m, r, Live(bs) - {bs[i]})
  {
    forall b | b in Live(bs) && b != bs[i] ensures SamePayload(m, r, b) {
      var k := LiveIndex(bs, b);
      assert SamePayload(m, r, bs[k]);
    }
  }

  /** One byte written through a buffer. */
  lemma Written(m: Mem, blk: Block, b: Buffer, offset: nat, v: byte)
    requires Backs(m, blk, b) && offset < |b.data|
    ensures b.p + offset < WORD
    ensures Backs(m[b.p + offset := v], blk, b.(data := b.data[offset := v]))
    ensures AgreeOutside(m, m[b.p + offset := v], blk.Payload(), blk.size)
  {
    var r, d := m[b.p + offset := v], b.data[offset := v];
    forall j | 0 <= j < |d| ensures r[b.p + j] == d[j] {
      assert m[b.p..b.p + |b.data|][j] == b.data[j];
    }
    assert r[b.p..b.p + |d|] == d;
  }

  method Poke(h: Heap, p: word, offset: nat, v: byte, ghost k: nat, ghost os: seq<Buffer>, ghost at: seq<Block>)
    returns (ghost os': seq<Buffer>)
    requires h.Valid() && Owns(h.mem, Live(h.blocks), os, at)
    requires k < |os| && p == os[k].p && offset < |os[k].data|
    modifies h`mem
    ensures h.Valid() && Owns(h.mem, Live(h.blocks), os', at)
    ensures Follows(os, Write(k, offset, v), os')
  {
    ghost var m, lo, hi := h.mem, h.base as nat, h.base + KHEAP_HEAP_SIZE;
    os' := os[k := os[k].(data := os[k].data[offset := v])];
    Poked(m, h.blocks, lo, hi, os, at, k, offset, v);
    hide Tiles, Coalesced, Live, Owns, NonEmpty, ForwardLinked, BackLinkedBut;
    h.mem := h.mem[p + offset := v];
  }

  lemma Poked(m: Mem, bs: seq<Block>, lo: nat, hi: nat, os: seq<Buffer>, at: seq<Block>, k: nat, offset: nat, v: byte)
    requires Tiles(bs, lo, hi) && hi <= WORD && NonEmpty(Live(bs)) && Owns(m, Live(bs), os, at)
    requires k < |os| && offset < |os[k].data|
    ensures os[k].p + offset < WORD
    ensures var r := m[os[k].p + offset := v];
            && Owns(r, Live(bs), os[k := os[k].(data := os[k].data[offset := v])], at)
            && (ForwardLinked(m, bs) ==> ForwardLinked(r, bs)) && (BackLinked(m, bs) <==> BackLinked(r, bs))
  {
    var i := OwnedBlock(m, bs, lo, hi, os, at, k);
    Written(m, at[k], os[k], offset, v);
    hide Tiles, Live, Owns, Backs, AgreeOutside, NonEmpty, PayloadsKeptBut, LiveKept, ForwardLinked, BackLinkedBut;
    var buf := os[k].(data := os[k].data[offset := v]);
    var r := m[os[k].p + offset := v];
    PayloadWrite(m, r, bs, lo, hi, i);
    OthersKept(m, r, bs, i);
    OwnsOther(m, r, Live(bs), os, at, k, at[k], buf);
    assert at[k := at[k]] == at;
    IndexLive(bs, i);
    assert Live(bs) - {at[k]} + {at[k]} == Live(bs);
  }

  // ----- whole runs -----

  /** One call of a client that remembers the pointers it holds and how many bytes it asked for. */
  method Step(h: Heap, c: Call, held: seq<word>, sizes: seq<nat>, ghost os: seq<Buffer>, ghost at: seq<Block>)
    returns (held': seq<word>, sizes': seq<nat>, ghost os': seq<Buffer>, ghost at': seq<Block>)
    requires h.Valid() && Owns(h.mem, Live(h.blocks), os, at) && Safe(h.blocks, c)
    requires Client(held, sizes, os)
    modifies h`mem, h`tail, h`blocks
    ensures h.Valid() && Owns(h.mem, Live(h.blocks), os', at') && Follows(os, c, os')
    ensures Client(held', sizes', os')
  {
    hide Owns;
    held', sizes', os', at' := held, sizes, os, at;
    match c {
      case Malloc(size, align, zero) =>
        var p;
        p, os', at' := Obtain(h, size, align, zero, os, at);
        if p != NULL {
          held', sizes' := held + [p], sizes + [size];
        }
      case Free(k) =>
        if k < |held| {
          os', at' := GiveBack(h, held[k], k, os, at);
          held', sizes' := Remove(held, k), Remove(sizes, k);
        }
      case Realloc(k, size, align, zero) =>
        if k < |held| {
          var q;
          q, os', at' := Resize(h, held[k], size, align, zero, k, os, at);
          if q != NULL {
            held', sizes' := held[k := q], sizes[k := size];
          }
        }
      case Write(k, offset, v) =>
        if k < |held| && offset < sizes[k] {
          os' := Poke(h, held[k], offset, v, k, os, at);
        }
    }
  }

  /** What a client remembers of its buffers. */
  ghost predicate Client(held: seq<word>, sizes: seq<nat>, os: seq<Buffer>) {
    && |held| == |os| && |sizes| == |os|
    && forall i :: 0 <= i < |os| ==> held[i] == os[i].p && sizes[i] == |os[i].data|
  }

  /** The states of the simple store along a run. */
  ghost predicate IsHistory(calls: seq<Call>, trace: seq<seq<Buffer>>) {
    && |trace| == |calls| + 1 && trace[0] == []
    && forall i :: 0 <= i < |calls| ==> Follows(trace[i], calls[i], trace[i + 1])
  }

  /** Every run from kheap_init on is a run of the simple store: every buffer reads back what was
      last written to it, whatever was allocated, released or moved in between. */
  method Run(h: Heap, calls: seq<Call>) returns (held: seq<word>, ghost trace: seq<seq<Buffer>>, ghost at: seq<Block>)
    requires h.Valid() && h.blocks == Initial(h.base)
    requires forall i :: 0 <= i < |calls| ==> SmallEnough(h.base, calls[i])
    modifies h`mem, h`tail, h`blocks
    ensures h.Valid() && IsHistory(calls, trace)
    ensures Owns(h.mem, Live(h.blocks), trace[|calls|], at)
    ensures |held| == |trace[|calls|]| && forall i :: 0 <= i < |held| ==> held[i] == trace[|calls|][i].p
  {
    var sizes: seq<nat>;
    held, sizes, trace, at := [], [], [[]], [];
    assert Owns(h.mem, Live(h.blocks), [], at);
    hide Owns, Follows, Tiles, Coalesced, Live, NonEmpty, ForwardLinked, BackLinkedBut, Safe, SmallEnough;
    for n := 0 to |calls|
      invariant h.Valid() && |trace| == n + 1 && trace[0] == []
      invariant forall i :: 0 <= i < n ==> Follows(trace[i], calls[i], trace[i + 1])
      invariant Owns(h.mem, Live(h.blocks), trace[n], at) && Client(held, sizes, trace[n])
    {
      ghost var os;
      SmallIsSafe(h.blocks, h.base, calls[n]);
      held, sizes, os, at := Step(h, calls[n], held, sizes, trace[n], at);
      trace := trace + [os];
    }
  }

  /** After any run, releasing what the client still holds leaves the block list of a fresh heap. */
  method RunThenFreeAll(h: Heap, calls: seq<Call>)
    requires h.Valid() && h.blocks == Initial(h.base)
    requires forall i :: 0 <= i < |calls| ==> SmallEnough(h.base, calls[i])
    modifies h
    ensures h.Valid() && h.blocks == old(h.blocks)
  {
    ghost var trace, at;
    var held;
    held, trace, at := Run(h, calls);
    forall i, j | 0 <= i < j < |held| ensures held[i] != held[j] {
      BuffersDisjoint(h.mem, h.blocks, h.base, h.base + KHEAP_HEAP_SIZE, trace[|calls|], at, i, j);
    }
    FreeAll(h, held);
  }
}
