/** Byte-addressed memory with little-endian 32-bit words, and the heap block header that the
    kernel overlays on it. */
module Memory {
  import opened Basics
  import opened Word32

  /** The address space: one byte per address. */
  type Mem = m: seq<byte> | |m| == WORD ghost witness seq(WORD, _ => 0)

  const HEADER_SIZE: nat := 20

  function Load32(m: Mem, a: nat): word
    requires a + 4 <= WORD
  {
    var b0: int, b1: int, b2: int, b3: int := m[a], m[a + 1], m[a + 2], m[a + 3];
    b0 + 0x100 * b1 + 0x1_0000 * b2 + 0x100_0000 * b3
  }

  function Store32(m: Mem, a: nat, w: word): Mem
    requires a + 4 <= WORD
  {
    var w1 := w / 0x100;
    var w2 := w1 / 0x100;
    var w3 := w2 / 0x100;
    m[a := w % 0x100][a + 1 := w1 % 0x100][a + 2 := w2 % 0x100][a + 3 := w3]
  }

  /** m and r agree outside [a, a + n). */
  ghost predicate AgreeOutside(m: Mem, r: Mem, a: nat, n: nat) {
    forall i {:trigger r[i]} :: 0 <= i < WORD && !(a <= i < a + n) ==> r[i] == m[i]
  }

  lemma StoreLoad(m: Mem, a: nat, w: word)
    requires a + 4 <= WORD
    ensures Load32(Store32(m, a, w), a) == w
    ensures AgreeOutside(m, Store32(m, a, w), a, 4)
  {
    var r := Store32(m, a, w);
    var w1 := w / 0x100;
    var w2 := w1 / 0x100;
    var w3 := w2 / 0x100;
    assert r[a] == w % 0x100 && r[a + 1] == w1 % 0x100 && r[a + 2] == w2 % 0x100 && r[a + 3] == w3;
    FourBytes(w, w1, w2, w3);
  }

  /** The lowest byte comes first. */
  lemma StoreBytes(m: Mem, a: nat, w: word)
    requires a + 4 <= WORD
    ensures var r := Store32(m, a, w);
            r[a] == w % 0x100 && r[a + 1] == w / 0x100 % 0x100 && r[a + 2] == w / 0x1_0000 % 0x100 && r[a + 3] == w / 0x100_0000
  {
    assert w / 0x100 / 0x100 == w / 0x1_0000 && w / 0x100 / 0x100 / 0x100 == w / 0x100_0000;
  }

  lemma FourBytes(w: word, w1: nat, w2: nat, w3: nat)
    requires w1 == w / 0x100 && w2 == w1 / 0x100 && w3 == w2 / 0x100
    ensures w % 0x100 + 0x100 * (w1 % 0x100) + 0x1_0000 * (w2 % 0x100) + 0x100_0000 * w3 == w
  {}

  lemma LoadOutside(m: Mem, r: Mem, a: nat, n: nat, b: nat)
    requires AgreeOutside(m, r, a, n) && b + 4 <= WORD && (b + 4 <= a || a + n <= b)
    ensures Load32(r, b) == Load32(m, b)
  {}

  /** The five words of a block header, in the order they lie in memory. */
  datatype Header = Header(magic: word, size: word, free: word, prev: word, next: word)

  const MAGIC: nat := 0
  const SIZE: nat := 1
  const FREE: nat := 2
  const PREV: nat := 3
  const NEXT: nat := 4

  function Field(h: Header, k: nat): word
    requires k < 5
  {
    match k
    case 0 => h.magic
    case 1 => h.size
    case 2 => h.free
    case 3 => h.prev
    case 4 => h.next
  }

  function WithField(h: Header, k: nat, w: word): Header
    requires k < 5
  {
    match k
    case 0 => h.(magic := w)
    case 1 => h.(size := w)
    case 2 => h.(free := w)
    case 3 => h.(prev := w)
    case 4 => h.(next := w)
  }

  ghost predicate Holds(m: Mem, a: nat, h: Header)
    requires a + HEADER_SIZE <= WORD
  {
    forall k: nat :: k < 5 ==> Field(h, k) == Load32(m, a + 4 * k)
  }

  /** The header whose k-th word lies at a + 4k. */
  ghost function HeaderAt(m: Mem, a: nat): (h: Header)
    requires a + HEADER_SIZE <= WORD
    ensures Holds(m, a, h)
  {
    var d := Header(Load32(m, a), Load32(m, a + 4), Load32(m, a + 8), Load32(m, a + 12), Load32(m, a + 16));
    assert Holds(m, a, d);
    var h :| Holds(m, a, h);
    h
  }

  /** The words lie in memory in the order of the structure. */
  lemma HeaderWords(m: Mem, a: nat)
    requires a + HEADER_SIZE <= WORD
    ensures HeaderAt(m, a) == Header(Load32(m, a), Load32(m, a + 4), Load32(m, a + 8), Load32(m, a + 12), Load32(m, a + 16))
  {
    var h := HeaderAt(m, a);
    hide Load32;
    forall k: nat | k < 5 ensures Field(h, k) == Load32(m, a + 4 * k) {}
    assert Field(h, 0) == h.magic && Field(h, 1) == h.size && Field(h, 2) == h.free && Field(h, 3) == h.prev && Field(h, 4) == h.next;
  }

  lemma HeadersEqual(g: Header, h: Header)
    requires forall k: nat :: k < 5 ==> Field(g, k) == Field(h, k)
    ensures g == h
  {
    assert Field(g, 0) == Field(h, 0) && Field(g, 1) == Field(h, 1) && Field(g, 2) == Field(h, 2);
    assert Field(g, 3) == Field(h, 3) && Field(g, 4) == Field(h, 4);
  }

  lemma HeaderOutside(m: Mem, r: Mem, a: nat, n: nat, b: nat)
    requires AgreeOutside(m, r, a, n) && b + HEADER_SIZE <= WORD && (b + HEADER_SIZE <= a || a + n <= b)
    ensures HeaderAt(r, b) == HeaderAt(m, b)
  {
    forall k: nat | k < 5 ensures Field(HeaderAt(r, b), k) == Field(HeaderAt(m, b), k) {
      LoadOutside(m, r, a, n, b + 4 * k);
    }
    HeadersEqual(HeaderAt(r, b), HeaderAt(m, b));
  }

  lemma HeaderSame(m: Mem, r: Mem, a: nat)
    requires a + HEADER_SIZE <= WORD && forall i :: a <= i < a + HEADER_SIZE ==> r[i] == m[i]
    ensures HeaderAt(r, a) == HeaderAt(m, a)
  {
    forall k: nat | k < 5 ensures Field(HeaderAt(r, a), k) == Field(HeaderAt(m, a), k) {
      assert Load32(r, a + 4 * k) == Load32(m, a + 4 * k);
    }
    HeadersEqual(HeaderAt(r, a), HeaderAt(m, a));
  }

  /** r is m with the header at a replaced by h and nothing else changed. */
  ghost predicate HeaderWritten(m: Mem, r: Mem, a: nat, h: Header)
    requires a + HEADER_SIZE <= WORD
  {
    HeaderAt(r, a) == h && AgreeOutside(m, r, a, HEADER_SIZE)
  }

  lemma FieldStored(m: Mem, a: nat, k: nat, w: word)
    requires a + HEADER_SIZE <= WORD && k < 5
    ensures HeaderWritten(m, Store32(m, a + 4 * k, w), a, WithField(HeaderAt(m, a), k, w))
  {
    hide Load32, Store32;
    var c := a + 4 * k;
    var r := Store32(m, c, w);
    var h := WithField(HeaderAt(m, a), k, w);
    StoreLoad(m, c, w);
    forall j: nat | j < 5 ensures Field(HeaderAt(r, a), j) == Field(h, j) {
      if j != k { LoadOutside(m, r, c, 4, a + 4 * j); }
      assert j != k ==> Field(h, j) == Field(HeaderAt(m, a), j);
    }
    HeadersEqual(HeaderAt(r, a), h);
  }
}
