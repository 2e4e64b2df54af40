/** The ATA driver: byte-addressed reads and writes on a drive that transfers whole sectors of 256
    little-endian 16-bit words, addressed by 28-bit sector numbers. */
module Ata {
  import opened Basics
  import opened Word32

  type half = x: nat | x < 0x1_0000

  const SECTOR_SIZE: nat := 512
  const READWRITE_MASTER: byte := 0xE0
  const READWRITE_SLAVE: byte := 0xF0

  // ----- the sector number in the drive registers -----

  /** Drive/head, LBA low, LBA mid and LBA high. */
  datatype Registers = Registers(drive: byte, low: byte, mid: byte, high: byte)

  function Registers28(lba: word, master: bool): Registers {
    var l1: nat := lba / 0x100;
    var l2: nat := l1 / 0x100;
    var l3: nat := l2 / 0x100;
    Registers((if master then READWRITE_MASTER else READWRITE_SLAVE) + l3 % 16, lba % 0x100, l1 % 0x100, l2 % 0x100)
  }

  /** What the drive makes of the registers: bit 4 of the drive register selects the slave. */
  function SelectedMaster(r: Registers): bool { r.drive / 16 % 2 == 0 }

  function SectorNumber(r: Registers): nat {
    var drive: nat, low: nat, mid: nat, high: nat := r.drive, r.low, r.mid, r.high;
    drive % 16 * 0x100_0000 + high * 0x1_0000 + mid * 0x100 + low
  }

  /** The drive selects the sector that the driver meant. */
  lemma RegistersRoundTrip(lba: word, master: bool)
    ensures SelectedMaster(Registers28(lba, master)) == master
    ensures SectorNumber(Registers28(lba, master)) == lba % 0x1000_0000
  {
    var l1: nat := lba / 0x100;
    var l2: nat := l1 / 0x100;
    var l3: nat := l2 / 0x100;
    Low28(lba, l1, l2, l3);
    DriveBits(if master then READWRITE_MASTER else READWRITE_SLAVE, l3 % 16);
  }

  /** The registers carry the bytes of the sector number, and the drive selection in front of the
      highest four bits. */
  lemma RegisterBytes(lba: word, master: bool)
    ensures var r := Registers28(lba, master);
            && r.low == lba % 0x100 && r.mid == lba / 0x100 % 0x100 && r.high == lba / 0x1_0000 % 0x100
            && r.drive == (if master then 0xE0 else 0xF0) + lba / 0x100_0000 % 0x10
  {
    Nested(lba, 0x100, 0x100);
    Nested(lba, 0x1_0000, 0x100);
  }

  lemma Nested(x: nat, a: nat, b: nat)
    requires (a == 0x100 || a == 0x1_0000) && b == 0x100
    ensures a * b > 0 && x / a / b == x / (a * b)
  {
    if a == 0x100 { assert x / 0x100 / 0x100 == x / 0x1_0000; } else { assert x / 0x1_0000 / 0x100 == x / 0x100_0000; }
  }

  lemma Low28(lba: nat, l1: nat, l2: nat, l3: nat)
    requires l1 == lba / 0x100 && l2 == l1 / 0x100 && l3 == l2 / 0x100
    ensures lba % 0x1000_0000 == l3 % 16 * 0x100_0000 + l2 % 0x100 * 0x1_0000 + l1 % 0x100 * 0x100 + lba % 0x100
  {
    var low := l3 % 16 * 0x100_0000 + l2 % 0x100 * 0x1_0000 + l1 % 0x100 * 0x100 + lba % 0x100;
    assert lba == low + 0x1000_0000 * (l3 / 16);
    LowPart(low, l3 / 16);
  }

  lemma LowPart(low: nat, high: nat)
    requires low < 0x1000_0000
    ensures (low + 0x1000_0000 * high) % 0x1000_0000 == low
  {}

  lemma DriveBits(base: nat, bits: nat)
    requires (base == READWRITE_MASTER || base == READWRITE_SLAVE) && bits < 16
    ensures (base + bits) % 16 == bits && ((base + bits) / 16 % 2 == 0 <==> base == READWRITE_MASTER)
  {}

  /** The sector that a drive of 2^28 sectors at most works on. */
  function Selected(lba: word, master: bool): (k: nat)
    ensures k == lba % 0x1000_0000
  {
    RegistersRoundTrip(lba, master);
    SectorNumber(Registers28(lba, master))
  }

  // ----- sectors as words and as bytes -----

  type Sector = s: seq<half> | |s| == 256 ghost witness seq(256, _ => 0)

  function SectorByte(s: Sector, i: nat): byte
    requires i < SECTOR_SIZE
  {
    if i % 2 == 0 then s[i / 2] % 256 else s[i / 2] / 256
  }

  function WordAt(b: seq<byte>, i: nat): half
    requires |b| == SECTOR_SIZE && i < 256
  {
    var low: nat, high: nat := b[2 * i], b[2 * i + 1];
    low + 256 * high
  }

  /** The byte at disk address a. */
  ghost function ByteAt(disk: seq<Sector>, a: nat): byte
    requires a < |disk| * SECTOR_SIZE
  {
    SectorByte(disk[a / SECTOR_SIZE], a % SECTOR_SIZE)
  }

  /** The disk as one flat byte array. */
  ghost function Flat(disk: seq<Sector>): (f: seq<byte>)
    ensures |f| == |disk| * SECTOR_SIZE
    ensures forall a {:trigger f[a]} :: 0 <= a < |f| ==> f[a] == ByteAt(disk, a)
  {
    seq(|disk| * SECTOR_SIZE, a requires 0 <= a < |disk| * SECTOR_SIZE => ByteAt(disk, a))
  }

  /** s with the bytes from a on replaced by d. */
  ghost function Splice(s: seq<byte>, a: nat, d: seq<byte>): seq<byte>
    requires a + |d| <= |s|
  {
    s[..a] + d + s[a + |d|..]
  }

  lemma SpliceTwice(s: seq<byte>, a: nat, d: seq<byte>, e: seq<byte>)
    requires a + |d| + |e| <= |s|
    ensures |Splice(s, a, d)| == |s| && Splice(Splice(s, a, d), a + |d|, e) == Splice(s, a, d + e)
  {}

  /** Replacing one sector whose bytes change only in [offset, offset + |d|) splices d into the
      flat disk. */
  lemma SectorSpliced(disk: seq<Sector>, k: nat, new_: Sector, offset: nat, d: seq<byte>)
    requires k < |disk| && offset + |d| <= SECTOR_SIZE
    requires forall i :: 0 <= i < SECTOR_SIZE ==>
               SectorByte(new_, i) == if offset <= i < offset + |d| then d[i - offset] else SectorByte(disk[k], i)
    ensures Flat(disk[k := new_]) == Splice(Flat(disk), k * SECTOR_SIZE + offset, d)
  {
    var f, g := Flat(disk[k := new_]), Splice(Flat(disk), k * SECTOR_SIZE + offset, d);
    forall a | 0 <= a < |f| ensures f[a] == g[a] {
      assert f[a] == ByteAt(disk[k := new_], a) && Flat(disk)[a] == ByteAt(disk, a);
    }
  }

  lemma WordBytes(s: Sector, i: nat)
    requires i < 256
    ensures SectorByte(s, 2 * i) == s[i] % 256 && SectorByte(s, 2 * i + 1) == s[i] / 256
  {}

  lemma SectorSlice(disk: seq<Sector>, k: nat, offset: nat, d: seq<byte>)
    requires k < |disk| && offset + |d| <= SECTOR_SIZE
    requires forall i :: 0 <= i < |d| ==> d[i] == SectorByte(disk[k], offset + i)
    ensures k * SECTOR_SIZE + offset + |d| <= |Flat(disk)|
    ensures d == Flat(disk)[k * SECTOR_SIZE + offset..k * SECTOR_SIZE + offset + |d|]
  {
    var f, a := Flat(disk), k * SECTOR_SIZE + offset;
    hide SectorByte, ByteAt;
    forall i | 0 <= i < |d| ensures d[i] == f[a..a + |d|][i] {
      ByteIn(disk, k, offset + i);
      assert f[a + i] == ByteAt(disk, a + i);
    }
  }

  lemma ByteIn(disk: seq<Sector>, k: nat, j: nat)
    requires k < |disk| && j < SECTOR_SIZE
    ensures ByteAt(disk, k * SECTOR_SIZE + j) == SectorByte(disk[k], j)
  {}

  /** The range check in 32-bit arithmetic rejects exactly the ranges past the end of the drive,
      if and only if the end of the range does not wrap to a value inside the drive. */
  lemma RangeCheckExact(size: word, address: word, n: word)
    ensures (size < Wrap(address + n) <==> size < address + n) <==> address + n < WORD || size < address + n - WORD
  {}

  // ----- transfers that leave the drive or the buffers -----

  /** What a transfer comes to: so many bytes moved, or an access outside the n bytes of the caller,
      the sector buffer or the drive. */
  datatype Transfer = Moved(count: word) | Overrun

  function FirstSector(address: word): nat { address / SECTOR_SIZE }

  /** The last byte of a transfer, in 32-bit arithmetic. */
  function LastByte(address: word, n: word): word { Wrap(address + n - 1) }

  function LastSector(address: word, n: word): nat { LastByte(address, n) / SECTOR_SIZE }

  /** The end of the transfer does not wrap before the last byte does. */
  predicate Plain(address: word, n: word) { address + n <= WORD && (n > 0 || address > 0) }

  /** The transfers that the range check lets through and that then run out of bounds: those that end
      at 2^32, the empty one at address 0, and those that wrap into the sector they start in. */
  predicate Escapes(address: word, n: word) {
    || address + n == WORD
    || address + n == 0
    || (address + n > WORD && LastSector(address, n) == FirstSector(address))
  }

  /** A transfer wraps into the sector it starts in only with nearly 2^32 bytes. */
  lemma EscapesSize(address: word, n: word)
    ensures address + n > WORD && LastSector(address, n) == FirstSector(address) ==> n >= WORD - SECTOR_SIZE + 2
  {}

  /** The byte range that the loop handles in sector k. */
  function PartOffset(address: word, k: nat): nat {
    if k == FirstSector(address) then address % SECTOR_SIZE else 0
  }

  function PartSize(address: word, n: word, k: nat): word {
    if k == LastSector(address, n) then Wrap(LastByte(address, n) % SECTOR_SIZE - PartOffset(address, k) + 1)
    else SECTOR_SIZE - PartOffset(address, k)
  }

  /** The part in sector k stays inside the caller's bytes, the sector buffer and the drive. */
  predicate InBounds(size: word, n: word, k: nat, offset: nat, part: nat, total: nat) {
    total + part <= n && offset + part <= SECTOR_SIZE && k * SECTOR_SIZE + offset + part <= size
  }

  lemma LastByteIs(address: word, n: word)
    ensures Plain(address, n) ==> LastByte(address, n) == address + n - 1
    ensures address + n == 0 ==> LastByte(address, n) == WORD - 1
    ensures address + n > WORD ==> LastByte(address, n) == address + n - 1 - WORD
  {}

  /** A transfer that is not plain either does nothing or runs out of bounds in its first sector. */
  lemma NotPlain(address: word, n: word, size: word)
    requires !Plain(address, n)
    ensures var k := FirstSector(address);
            && (Escapes(address, n) <==> k <= LastSector(address, n))
            && (Escapes(address, n) ==> !InBounds(size, n, k, PartOffset(address, k), PartSize(address, n, k), 0))
  {
    LastByteIs(address, n);
    hide LastByte;
  }

  lemma ReadBackWords(b: seq<byte>, s: Sector, i: nat)
    requires |b| == SECTOR_SIZE && i < SECTOR_SIZE
    requires forall j: nat :: j < 256 ==> s[j] == WordAt(b, j)
    ensures SectorByte(s, i) == b[i]
  {
    assert s[i / 2] == WordAt(b, i / 2);
  }

  class Drive {
    const master: bool
    var present: bool
    var lbaSupported: bool
    var size: word
    var disk: seq<Sector>

    /** The reported size does not exceed the medium, and the medium is within 28-bit reach. */
    ghost predicate Valid()
      reads this
    {
      size <= |disk| * SECTOR_SIZE && |disk| <= 0x1000_0000
    }

    ghost function Bytes(): seq<byte>
      reads this
    {
      Flat(disk)
    }

    constructor (m: bool, p: bool, l: bool, sz: word, d: seq<Sector>)
      requires sz <= |d| * SECTOR_SIZE && |d| <= 0x1000_0000
      ensures Valid() && present == p && lbaSupported == l && size == sz && disk == d
    {
      master, present, lbaSupported, size, disk := m, p, l, sz, d;
    }

    /** ata_read_sector_lba28. */
    method ReadSector(lba: word, buf: array<byte>)
      requires Valid() && lba < |disk| && buf.Length == SECTOR_SIZE
      modifies buf
      ensures forall i :: 0 <= i < SECTOR_SIZE ==> buf[i] == SectorByte(disk[lba], i)
    {
      hide SectorByte, Selected;
      var sector := disk[Selected(lba, master)];
      for i := 0 to 256
        invariant forall j :: 0 <= j < 2 * i ==> buf[j] == SectorByte(sector, j)
      {
        WordBytes(sector, i);
        PutWord(buf, i, sector[i]);
      }
    }

    /** ata_write_sector_lba28. */
    method WriteSector(lba: word, buf: array<byte>)
      requires Valid() && lba < |disk| && buf.Length == SECTOR_SIZE
      modifies this`disk
      ensures Valid() && |disk| == |old(disk)|
      ensures disk == old(disk)[lba := disk[lba]]
      ensures forall i :: 0 <= i < SECTOR_SIZE ==> SectorByte(disk[lba], i) == buf[i]
    {
      hide SectorByte, Selected;
      var k := Selected(lba, master);
      var sector := disk[k];
      for i := 0 to 256
        invariant |sector| == 256
        invariant forall j: nat :: j < i ==> sector[j] == WordAt(buf[..], j)
      {
        sector := sector[i := WordAt(buf[..], i)];
      }
      disk := disk[k := sector];
      forall i | 0 <= i < SECTOR_SIZE ensures SectorByte(disk[lba], i) == buf[i] {
        ReadBackWords(buf[..], sector, i);
      }
    }

    /** One sector of a write: the part [from, from + n) of data goes to byte `offset` of sector k. */
    method WritePart(k: word, offset: nat, data: array<byte>, from: nat, n: nat, buf: array<byte>)
      requires Valid() && k < |disk| && buf.Length == SECTOR_SIZE && buf != data
      requires offset + n <= SECTOR_SIZE && from + n <= data.Length
      modifies this`disk, buf
      ensures Valid() && |disk| == |old(disk)|
      ensures Bytes() == Splice(old(Bytes()), k * SECTOR_SIZE + offset, data[from..from + n])
    {
      ReadSector(k, buf);
      ghost var before, d := disk, data[from..from + n];
      CopyInto(buf, offset, data, from, n);
      WriteSector(k, buf);
      SectorSpliced(before, k, disk[k], offset, d);
    }

    /** The 32-bit range check and the two flags. */
    predicate Passes(address: word, n: word)
      reads this
    {
      Wrap(address + n) <= size && present && lbaSupported
    }

    /** ata_write; sectorBuf is what kmalloc returned for the sector buffer. */
    method Write(address: word, data: array<byte>, n: word, sectorBuf: array?<byte>) returns (o: Outcome<Transfer>)
      requires Valid() && n <= data.Length
      requires sectorBuf != null ==> sectorBuf.Length == SECTOR_SIZE && sectorBuf != data
      modifies this`disk, sectorBuf
      ensures Valid() && |disk| == |old(disk)|
      ensures o.Panicked? <==> Passes(address, n) && sectorBuf == null
      ensures o == Returned(Overrun) <==> Passes(address, n) && sectorBuf != null && Escapes(address, n)
      // a range inside the drive is written, any other that stays in bounds is refused
      ensures !present || !lbaSupported || size < (address + n) % 0x1_0000_0000 ==> o == Returned(Moved(0)) && disk == old(disk)
      ensures address + n <= size && present && lbaSupported && !Escapes(address, n) && sectorBuf != null ==>
                o == Returned(Moved(n)) && address + n <= |Bytes()| && Bytes() == Splice(old(Bytes()), address, data[..n])
      ensures !Accepts(address, n) && o.Returned? && o.value.Moved? ==> o == Returned(Moved(0)) && disk == old(disk)
    {
      if size < Wrap(address + n) || !present || !lbaSupported {
        return Returned(Moved(0));
      }
      if sectorBuf == null {
        return Panicked;
      }
      var r := WriteSectors(address, data, n, sectorBuf);
      o := Returned(r);
    }

    /** The sector loop of ata_write. */
    method WriteSectors(address: word, data: array<byte>, n: word, buf: array<byte>) returns (r: Transfer)
      requires Valid() && n <= data.Length && buf.Length == SECTOR_SIZE && buf != data && Wrap(address + n) <= size
      modifies this`disk, buf
      ensures Valid() && |disk| == |old(disk)|
      ensures r.Overrun? <==> Escapes(address, n)
      ensures r.Moved? && address + n < WORD ==> r == Moved(n) && Bytes() == Splice(old(Bytes()), address, data[..n])
      ensures r.Moved? && address + n >= WORD ==> r == Moved(0) && disk == old(disk)
    {
      hide Flat, Splice, Done, PartSize, PartOffset, LastSector, FirstSector, Wrap;
      var first, last := FirstSector(address), LastSector(address, n);
      ghost var f0 := Bytes();
      Begin(address, n, size);
      var total, k := 0, first;
      while k <= last
        invariant first <= k && Valid() && |disk| == |old(disk)|
        invariant Plain(address, n) ==>
                    && k <= last + 1 && 0 <= total <= n && total == Done(address, n, k)
                    && (total > 0 ==> address + total <= size)
                    && (if total > 0 then Bytes() == Splice(f0, address, data[..total]) else Bytes() == f0)
        invariant !Plain(address, n) ==> k == first && total == 0 && disk == old(disk)
      {
        var offset, part := PartOffset(address, k), PartSize(address, n, k);
        Part(address, n, size, k);
        if !InBounds(size, n, k, offset, part, total) {
          return Overrun;
        }
        SpliceNone(f0, address, data[..0]);
        WritePart(k, offset, data, total, part, buf);
        SpliceTwice(f0, address, data[..total], data[total..total + part]);
        assert data[..total] + data[total..total + part] == data[..total + part];
        total := total + part;
        k := k + 1;
      }
      if total == 0 && address + n < WORD { SpliceNone(f0, address, data[..0]); }
      r := Moved(total);
    }

    /** One sector of a read: n bytes from byte `offset` of sector k go to data[to..to + n]. */
    method ReadPart(k: word, offset: nat, data: array<byte>, to: nat, n: nat, buf: array<byte>)
      requires Valid() && k < |disk| && buf.Length == SECTOR_SIZE && buf != data
      requires offset + n <= SECTOR_SIZE && to + n <= data.Length
      modifies data, buf
      ensures k * SECTOR_SIZE + offset + n <= |Bytes()|
      ensures data[..] == Splice(old(data[..]), to, Bytes()[k * SECTOR_SIZE + offset..k * SECTOR_SIZE + offset + n])
    {
      hide SectorByte, Flat, Splice;
      ReadSector(k, buf);
      ghost var d0 := data[..];
      CopyInto(data, to, buf, offset, n);
      ghost var d := data[to..to + n];
      assert forall i :: 0 <= i < n ==> d[i] == data[to + i];
      SectorSlice(disk, k, offset, d);
      SpliceIs(d0, data[..], to, n);
      assert data[..][to..to + n] == d;
    }

    /** The sector loop of ata_read. */
    method ReadSectors(address: word, data: array<byte>, n: word, buf: array<byte>) returns (r: Transfer)
      requires Valid() && n <= data.Length && buf.Length == SECTOR_SIZE && buf != data && Wrap(address + n) <= size
      modifies data, buf
      ensures r.Overrun? <==> Escapes(address, n)
      ensures r.Moved? && address + n < WORD ==>
                && r == Moved(n) && address + n <= |Bytes()|
                && data[..n] == Bytes()[address..address + n] && data[n..] == old(data[n..])
      ensures r.Moved? && address + n >= WORD ==> r == Moved(0) && data[..] == old(data[..])
    {
      hide Flat, Splice, Done, PartSize, PartOffset, LastSector, FirstSector, Wrap;
      var first, last := FirstSector(address), LastSector(address, n);
      ghost var f, d0 := Bytes(), data[..];
      Begin(address, n, size);
      var total, k := 0, first;
      while k <= last
        invariant first <= k
        invariant Plain(address, n) ==>
                    && k <= last + 1 && 0 <= total <= n && total == Done(address, n, k)
                    && (total > 0 ==> address + total <= size)
                    && (if total > 0 then data[..] == Splice(d0, 0, f[address..address + total]) else data[..] == d0)
        invariant !Plain(address, n) ==> k == first && total == 0 && data[..] == d0
      {
        var offset, part := PartOffset(address, k), PartSize(address, n, k);
        Part(address, n, size, k);
        if !InBounds(size, n, k, offset, part, total) {
          return Overrun;
        }
        SpliceNone(d0, 0, f[..0]);
        ReadPart(k, offset, data, total, part, buf);
        SpliceTwice(d0, 0, f[address..address + total], f[address + total..address + total + part]);
        SliceJoin(f, address, total, part);
        total := total + part;
        k := k + 1;
      }
      if address + n < WORD {
        if total == 0 { SpliceNone(d0, 0, f[address..address + n]); }
        SpliceFront(d0, f[address..address + n]);
        assert data[..n] == data[..][..n] && data[n..] == data[..][n..];
      }
      r := Moved(total);
    }

    /** ata_read. */
    method Read(address: word, data: array<byte>, n: word, sectorBuf: array?<byte>) returns (o: Outcome<Transfer>)
      requires Valid() && n <= data.Length
      requires sectorBuf != null ==> sectorBuf.Length == SECTOR_SIZE && sectorBuf != data
      modifies data, sectorBuf
      ensures o.Panicked? <==> Passes(address, n) && sectorBuf == null
      ensures o == Returned(Overrun) <==> Passes(address, n) && sectorBuf != null && Escapes(address, n)
      ensures !present || !lbaSupported || size < (address + n) % 0x1_0000_0000 ==> o == Returned(Moved(0)) && data[..] == old(data[..])
      ensures address + n <= size && present && lbaSupported && !Escapes(address, n) && sectorBuf != null ==>
                && o == Returned(Moved(n)) && address + n <= |Bytes()|
                && data[..n] == Bytes()[address..address + n] && data[n..] == old(data[n..])
      ensures !Accepts(address, n) && o.Returned? && o.value.Moved? ==> o == Returned(Moved(0)) && data[..] == old(data[..])
    {
      if size < Wrap(address + n) || !present || !lbaSupported {
        return Returned(Moved(0));
      }
      if sectorBuf == null {
        return Panicked;
      }
      var r := ReadSectors(address, data, n, sectorBuf);
      o := Returned(r);
    }

    /** One byte at the last address, as the shell's `ata_write -1 x` asks for: every present LBA
        drive lets it through, whatever its size. */
    method WriteLastByte(data: array<byte>, sectorBuf: array<byte>) returns (o: Outcome<Transfer>)
      requires Valid() && present && lbaSupported && data.Length == 1
      requires sectorBuf.Length == SECTOR_SIZE && sectorBuf != data
      modifies this`disk, sectorBuf
      ensures o == Returned(Overrun) && !Accepts(WORD - 1, 1)
    {
      o := Write(WORD - 1, data, 1, sectorBuf);
    }

    /** No bytes at address 0, as the shell's `ata_read 0 0` asks for: the loop sets out to read 2^23
        sectors into a buffer that has no room for the first. */
    method ReadNothing(data: array<byte>, sectorBuf: array<byte>) returns (o: Outcome<Transfer>)
      requires Valid() && present && lbaSupported
      requires sectorBuf.Length == SECTOR_SIZE && sectorBuf != data
      modifies data, sectorBuf
      ensures o == Returned(Overrun) && Accepts(0, 0) && LastSector(0, 0) + 1 == 0x80_0000
    {
      o := Read(0, data, 0, sectorBuf);
    }

    /** Reading back a written range, or any part of it, returns the written bytes. */
    method WriteThenRead(address: word, data: array<byte>, n: word, from: nat, back: array<byte>, m: word, sectorBuf: array<byte>)
      returns (w: Outcome<Transfer>, r: Outcome<Transfer>)
      requires Valid() && n <= data.Length && address + n < WORD && n > 0 && Accepts(address, n)
      requires from + m <= n && m > 0 && m <= back.Length
      requires sectorBuf.Length == SECTOR_SIZE && sectorBuf != data && sectorBuf != back && data != back
      modifies this`disk, sectorBuf, back
      ensures w == Returned(Moved(n)) && r == Returned(Moved(m)) && back[..m] == data[from..from + m]
    {
      w := Write(address, data, n, sectorBuf);
      hide Flat, Splice;
      r := Read(address + from, back, m, sectorBuf);
      SpliceSlice(old(Bytes()), address, data[..n], from, m);
      SliceOfSlice(data[..], n, from, m);
    }

    predicate Accepts(address: word, n: word)
      reads this
    {
      address + n <= size && present && lbaSupported
    }
  }

  /** Word i of a buffer. */
  method PutWord(buf: array<byte>, i: nat, w: half)
    requires 2 * i + 1 < buf.Length
    modifies buf
    ensures buf[2 * i] == w % 256 && buf[2 * i + 1] == w / 256
    ensures forall j :: 0 <= j < buf.Length && j != 2 * i && j != 2 * i + 1 ==> buf[j] == old(buf[j])
  {
    buf[2 * i] := w % 256;
    buf[2 * i + 1] := w / 256;
  }

  method CopyInto(buf: array<byte>, offset: nat, data: array<byte>, from: nat, n: nat)
    requires buf != data && offset + n <= buf.Length && from + n <= data.Length
    modifies buf
    ensures forall i :: 0 <= i < buf.Length ==>
              buf[i] == if offset <= i < offset + n then data[i - offset + from] else old(buf[i])
  {
    for i := 0 to n
      invariant forall j :: 0 <= j < buf.Length ==>
                  buf[j] == if offset <= j < offset + i then data[j - offset + from] else old(buf[j])
    {
      buf[offset + i] := data[from + i];
    }
  }

  /** How many bytes of a transfer of n bytes from `address` lie before sector k. */
  function Done(address: nat, n: nat, k: nat): int {
    var d := k * SECTOR_SIZE - address;
    if d < 0 then 0 else if d > n then n else d
  }

  lemma DoneEnds(address: nat, n: nat)
    requires n > 0 || address > 0
    ensures Done(address, n, address / SECTOR_SIZE) == 0
    ensures Done(address, n, (address + n - 1) / SECTOR_SIZE + 1) == n
    ensures address / SECTOR_SIZE <= (address + n - 1) / SECTOR_SIZE + 1
  {}

  lemma SliceJoin(f: seq<byte>, a: nat, m: nat, n: nat)
    requires a + m + n <= |f|
    ensures f[a..a + m] + f[a + m..a + m + n] == f[a..a + m + n]
  {}

  lemma SpliceSlice(s: seq<byte>, a: nat, d: seq<byte>, from: nat, m: nat)
    requires a + |d| <= |s| && from + m <= |d|
    ensures |Splice(s, a, d)| == |s| && Splice(s, a, d)[a + from..a + from + m] == d[from..from + m]
  {
    var r := Splice(s, a, d);
    assert r[a..a + |d|] == d;
    assert r[a + from..a + from + m] == r[a..a + |d|][from..from + m];
  }

  lemma SliceOfSlice(d: seq<byte>, n: nat, from: nat, m: nat)
    requires from + m <= n <= |d|
    ensures d[..n][from..from + m] == d[from..from + m]
  {}

  lemma SpliceIs(s: seq<byte>, r: seq<byte>, a: nat, n: nat)
    requires |r| == |s| && a + n <= |s| && forall i :: 0 <= i < |s| && !(a <= i < a + n) ==> r[i] == s[i]
    ensures r == Splice(s, a, r[a..a + n])
  {}

  lemma SpliceFront(s: seq<byte>, d: seq<byte>)
    requires |d| <= |s|
    ensures |Splice(s, 0, d)| == |s| && Splice(s, 0, d)[..|d|] == d && Splice(s, 0, d)[|d|..] == s[|d|..]
  {}

  lemma SpliceNone(s: seq<byte>, a: nat, d: seq<byte>)
    requires a <= |s| && d == []
    ensures Splice(s, a, d) == s
  {}

  /** The offset and length that the sector loops compute are those of the part of the transfer in
      sector k. */
  lemma PartBounds(address: nat, n: nat, k: nat, offset: int, part: int)
    requires n > 0 || address > 0
    requires var first, last := address / SECTOR_SIZE, (address + n - 1) / SECTOR_SIZE;
             && first <= k <= last
             && offset == (if k == first then address % SECTOR_SIZE else 0)
             && part == (if k == last then (address + n - 1) % SECTOR_SIZE - offset + 1 else SECTOR_SIZE - offset)
    ensures 0 <= offset && 0 <= part && 0 < offset + part <= SECTOR_SIZE
    ensures k * SECTOR_SIZE + offset == address + Done(address, n, k)
    ensures Done(address, n, k) + part == Done(address, n, k + 1)
    ensures k * SECTOR_SIZE + offset + part <= address + n
  {}

  /** What the sector loops start from. */
  lemma Begin(address: word, n: word, size: word)
    ensures Plain(address, n) ==>
              && Done(address, n, FirstSector(address)) == 0 && Done(address, n, LastSector(address, n) + 1) == n
              && FirstSector(address) <= LastSector(address, n) + 1
              && (Escapes(address, n) <==> address + n == WORD)
              && (Wrap(address + n) <= size && address + n < WORD ==> address + n <= size)
    ensures !Plain(address, n) ==> (Escapes(address, n) <==> FirstSector(address) <= LastSector(address, n))
    ensures address + n < WORD && !Plain(address, n) ==> Escapes(address, n)
  {
    LastByteIs(address, n);
    if address + n < WORD { NoWrapBelow(address + n); }
    if Plain(address, n) { DoneEnds(address, n); } else { NotPlain(address, n, size); }
    hide Done, Wrap, LastByte, InBounds, PartSize, PartOffset;
  }

  /** One round of the sector loops. */
  lemma Part(address: word, n: word, size: word, k: nat)
    requires FirstSector(address) <= k <= LastSector(address, n)
    ensures Plain(address, n) ==>
              var offset, part := PartOffset(address, k), PartSize(address, n, k);
              && 0 < offset + part <= SECTOR_SIZE && k * SECTOR_SIZE + offset == address + Done(address, n, k)
              && Done(address, n, k) + part == Done(address, n, k + 1) <= n
    ensures !Plain(address, n) && k == FirstSector(address) ==>
              !InBounds(size, n, k, PartOffset(address, k), PartSize(address, n, k), 0)
  {
    if Plain(address, n) {
      PlainPart(address, n, k);
    } else {
      NotPlain(address, n, size);
    }
  }

  lemma PlainPart(address: word, n: word, k: nat)
    requires Plain(address, n) && FirstSector(address) <= k <= LastSector(address, n)
    ensures var offset, part := PartOffset(address, k), PartSize(address, n, k);
            && 0 < offset + part <= SECTOR_SIZE && k * SECTOR_SIZE + offset == address + Done(address, n, k)
            && Done(address, n, k) + part == Done(address, n, k + 1) <= n
  {
    hide Done, Wrap, LastByte;
    LastByteIs(address, n);
    var offset := PartOffset(address, k);
    var part := if k == LastSector(address, n) then (address + n - 1) % SECTOR_SIZE - offset + 1 else SECTOR_SIZE - offset;
    PartBounds(address, n, k, offset, part);
    NoWrapBelow(part);
    DoneAtMost(address, n, k + 1);
  }

  lemma DoneAtMost(address: nat, n: nat, k: nat)
    ensures Done(address, n, k) <= n
  {}
}
