/** Reading bytes from a sector device: stage1.5/disk/bios/bios_disk.c. */
module DiskReader {
  import opened Words

  type Byte = x: nat | x < 0x100

  /** How a read ends: normally, with a BIOS error code returned, or in `halt`, which never returns. */
  datatype Status = Ok | Failed(code: int) | Halted

  /** Bytes a to a + n of a sequence. */
  function Slice(s: seq<Byte>, a: nat, n: nat): seq<Byte>
    requires a + n <= |s|
  {
    s[a..a + n]
  }

  /** The memory `now` is `before` except in the n bytes from at. */
  ghost predicate OnlyWithin(before: seq<Byte>, now: seq<Byte>, at: nat, n: nat) {
    && |now| == |before|
    && forall i :: 0 <= i < |now| && (i < at || at + n <= i) ==> now[i] == before[i]
  }

  /** The calls numbered from `from` up to `to` all work. */
  ghost predicate AllWork(works: nat -> bool, from: nat, to: nat) {
    forall i :: from <= i < to ==> works(i)
  }

  lemma AllWorkParts(works: nat -> bool, a: nat, b: nat, c: nat)
    requires a <= b <= c
    ensures AllWork(works, a, c) <==> AllWork(works, a, b) && AllWork(works, b, c)
  {
  }

  lemma AllWorkNone(works: nat -> bool, n: nat)
    ensures AllWork(works, n, n)
  {
  }

  lemma AllWorkOne(works: nat -> bool, a: nat, b: nat)
    requires a < b
    ensures AllWork(works, a, b) <==> AllWork(works, a, b - 1) && works(b - 1)
  {
  }

  /** A whole sector lies in the n bytes from a. */
  ghost predicate HasWholeSector(a: nat, n: nat, sectorBytes: UShort) {
    exists x :: a <= x && x + sectorBytes <= a + n && StartsSector(x, sectorBytes)
  }

  predicate StartsSector(x: nat, sectorBytes: UShort) { sectorBytes > 0 && x % sectorBytes == 0 }

  /** A BIOS disk: its contents never change, and a sector read copies the whole sector or fails. */
  class Disk {
    const image: seq<Byte>
    const sectorBytes: UShort
    /** Whether the BIOS carries out its i-th call. */
    const works: nat -> bool
    /** How many BIOS calls were made so far. */
    var calls: nat
    /** The static bounce buffer of `disk_read`, grown on demand. */
    var diskBuffer: array<Byte>

    ghost predicate Valid()
      reads this
    {
      0 < sectorBytes && |image| < B64 && |image| % sectorBytes == 0
    }

    constructor (image: seq<Byte>, sectorBytes: UShort, works: nat -> bool)
      requires 0 < sectorBytes && |image| < B64 && |image| % sectorBytes == 0
      ensures Valid() && fresh(diskBuffer) && this.image == image && this.sectorBytes == sectorBytes
      ensures this.works == works && calls == 0
    {
      this.image, this.sectorBytes, this.works := image, sectorBytes, works;
      diskBuffer := new Byte[0];
      calls := 0;
    }

    /** `disk_read_sector`: it fails when the BIOS does, and on a sector outside the disk. */
    method ReadSector(sector: nat, dst: array<Byte>, at: nat) returns (ret: int)
      requires Valid() && at + sectorBytes <= dst.Length
      modifies this`calls, dst
      ensures OnlyWithin(old(dst[..]), dst[..], at, sectorBytes) && calls == old(calls) + 1
      ensures ret == 0 <==> works(old(calls)) && sector * sectorBytes + sectorBytes <= |image|
      ensures ret == 0 ==> dst[at..at + sectorBytes] == Slice(image, sector * sectorBytes, sectorBytes)
    {
      var from := sector * sectorBytes;
      var ok := works(calls) && from + sectorBytes <= |image|;
      calls := calls + 1;
      if !ok {
        return 1;
      }
      CopyBytes(image[from..from + sectorBytes], dst, at);
      ret := 0;
    }

    /** `disk_read`: any byte range, sector by sector. It succeeds exactly when every BIOS call it makes does
        and the range lies on the disk. The first failing sector ends it: with an error code for a whole
        sector, in `halt` for a part of one. */
    method DiskRead(absAddress: DWord, absSize: UShort, dst: array<Byte>, at: nat) returns (st: Status)
      requires Valid() && at + absSize <= dst.Length && dst != diskBuffer
      modifies this`calls, this`diskBuffer, diskBuffer, dst
      ensures diskBuffer == old(diskBuffer) || fresh(diskBuffer)
      ensures diskBuffer != dst && calls >= old(calls)
      ensures OnlyWithin(old(dst[..]), dst[..], at, absSize)
      ensures st.Ok? <==> AllWork(works, old(calls), calls) && (absSize > 0 ==> absAddress + absSize <= |image|)
      ensures st.Ok? && absSize > 0 ==> dst[at..at + absSize] == Slice(image, absAddress, absSize)
      ensures st.Failed? ==> st.code != 0 && HasWholeSector(absAddress, absSize, sectorBytes)
      ensures st.Halted? ==>
                !StartsSector(absAddress, sectorBytes) || !StartsSector(absAddress + absSize, sectorBytes)
    {
      hide StartsSector, PieceSize, AllWork, OnlyWithin, Copied;
      NothingWritten(dst[..], at, absSize);
      AllWorkNone(works, calls);
      NothingCopied(dst[..], at, image, absAddress);
      var addr: nat, size: nat, to: nat := absAddress, absSize, at;
      ghost var done: nat := 0;
      st := Ok;
      while size > 0
        invariant done + size == absSize && addr == absAddress + done && to == at + done
        invariant diskBuffer == old(diskBuffer) || fresh(diskBuffer)
        invariant diskBuffer != dst && st.Ok? && calls >= old(calls) && AllWork(works, old(calls), calls)
        invariant OnlyWithin(old(dst[..]), dst[..], at, absSize)
        invariant Copied(dst[..], at, image, absAddress, done)
        invariant done > 0 && size > 0 ==> StartsSector(addr, sectorBytes)
        modifies this`calls, this`diskBuffer, diskBuffer, old(diskBuffer), dst
        decreases size
      {
        ghost var before := dst[..];
        PartLeft(addr, size, sectorBytes);
        var thisread;
        thisread, st := ReadPiece(addr, size, dst, to);
        AllWorkOne(works, old(calls), calls);
        WithinRange(old(dst[..]), before, dst[..], at, absSize, to, thisread);
        if !st.Ok? {
          return;
        }
        CopiedMore(before, dst[..], at, image, absAddress, done, thisread);
        addr, size, to := addr + thisread, size - thisread, to + thisread;
        done := done + thisread;
      }
      CopiedIs(dst[..], at, image, absAddress, absSize);
    }

    /** The sector an address lies in, and its offset there. */
    method Locate(addr: nat) returns (sector: nat, offset: UShort)
      requires Valid()
      ensures sector * sectorBytes + offset == addr && offset < sectorBytes
      ensures offset == addr % sectorBytes
    {
      DivAtMost(addr, sectorBytes);
      sector, offset := addr / sectorBytes, addr % sectorBytes;
    }

    /** One round of the loop of `disk_read`: the rest of one sector, or as much of it as is wanted. Part
        of a sector goes through the bounce buffer and halts on failure; a whole sector is read straight
        to its destination and reports failure. */
    method ReadPiece(addr: nat, size: nat, dst: array<Byte>, to: nat) returns (thisread: nat, st: Status)
      requires Valid() && 0 < size && to + size <= dst.Length && dst != diskBuffer
      modifies this`calls, this`diskBuffer, diskBuffer, dst
      ensures diskBuffer == old(diskBuffer) || fresh(diskBuffer)
      ensures diskBuffer != dst && calls == old(calls) + 1
      ensures thisread == PieceSize(addr, size, sectorBytes)
      ensures OnlyWithin(old(dst[..]), dst[..], to, thisread)
      ensures st.Ok? <==> works(old(calls)) && addr + thisread <= |image|
      ensures st.Ok? ==> dst[to..to + thisread] == image[addr..addr + thisread]
      ensures st.Halted? ==> !StartsSector(addr, sectorBytes) || size < sectorBytes
      ensures st.Failed? ==> st.code != 0 && StartsSector(addr, sectorBytes) && sectorBytes <= size
    {
      hide OnlyWithin;
      var sector, offset := Locate(addr);
      thisread := sectorBytes - offset;
      if thisread > size {
        thisread := size;
      }
      SectorInside(sector, offset, thisread, sectorBytes, |image|);
      if offset != 0 || thisread != sectorBytes {
        var read := ReadPart(sector, offset, addr, thisread, dst, to);
        return thisread, if read then Ok else Halted;
      } else {
        var ret := ReadSector(sector, dst, to);
        return thisread, if ret != 0 then Failed(ret) else Ok;
      }
    }

    /** Part of one sector, through the bounce buffer. */
    method ReadPart(sector: nat, offset: nat, ghost addr: nat, n: nat, dst: array<Byte>, to: nat) returns (read: bool)
      requires Valid() && sector * sectorBytes + offset == addr && offset + n <= sectorBytes
      requires to + n <= dst.Length && dst != diskBuffer
      modifies this`calls, this`diskBuffer, diskBuffer, dst
      ensures (diskBuffer == old(diskBuffer) || fresh(diskBuffer)) && diskBuffer != dst && calls == old(calls) + 1
      ensures OnlyWithin(old(dst[..]), dst[..], to, n)
      ensures read <==> works(old(calls)) && sector * sectorBytes + sectorBytes <= |image|
      ensures read ==> addr + n <= |image| && dst[to..to + n] == image[addr..addr + n]
    {
      if sectorBytes > diskBuffer.Length {
        diskBuffer := new Byte[sectorBytes];
      }
      var ret := ReadSector(sector, diskBuffer, 0);
      if ret != 0 {
        return false;
      }
      var sectorRead := diskBuffer[..sectorBytes];
      SubSlice(sectorRead, image, addr - offset, sectorBytes, offset, n);
      CopyBytes(sectorRead[offset..offset + n], dst, to);
      return true;
    }
  }

  /** The bytes from an address on that lie in its sector, as many as are wanted. */
  function PieceSize(addr: nat, size: nat, sectorBytes: UShort): (n: nat)
    requires 0 < sectorBytes
    ensures size > 0 ==> 0 < n <= size
  {
    var rest := sectorBytes - addr % sectorBytes;
    if rest > size then size else rest
  }

  /** Part of a sector lies on a disk of whole sectors exactly if the sector does. */
  lemma SectorInside(sector: nat, offset: nat, n: nat, sectorBytes: UShort, size: nat)
    requires 0 < sectorBytes && size % sectorBytes == 0 && 0 < n && offset + n <= sectorBytes
    ensures sector * sectorBytes + offset + n <= size <==> sector * sectorBytes + sectorBytes <= size
  {
    var m := size / sectorBytes;
    assert size == m * sectorBytes;
    if sector < m {
      MulMonotone(sectorBytes, sector + 1, m);
    } else {
      MulMonotone(sectorBytes, m, sector);
    }
  }

  /** A piece that does not end the range ends its sector, and a range that ends a sector leaves no part of
      one at its end. */
  lemma PartLeft(addr: nat, size: nat, sectorBytes: UShort)
    requires 0 < sectorBytes && 0 < size
    ensures PieceSize(addr, size, sectorBytes) < size ==>
              StartsSector(addr + PieceSize(addr, size, sectorBytes), sectorBytes)
    ensures StartsSector(addr, sectorBytes) && size < sectorBytes ==> !StartsSector(addr + size, sectorBytes)
  {
    NextSector(addr, sectorBytes);
    BetweenSectors(addr, size, sectorBytes);
  }

  lemma NextSector(addr: nat, sectorBytes: UShort)
    requires 0 < sectorBytes
    ensures (addr + sectorBytes - addr % sectorBytes) % sectorBytes == 0
  {
    var q, r := addr / sectorBytes, addr % sectorBytes;
    assert addr == q * sectorBytes + r;
    NextMultiple(q, sectorBytes);
    QuotientIs(addr + sectorBytes - r, sectorBytes, q + 1, 0);
  }

  lemma BetweenSectors(addr: nat, size: nat, sectorBytes: UShort)
    ensures 0 < size < sectorBytes && addr % sectorBytes == 0 ==> (addr + size) % sectorBytes == size
  {
    if 0 < size < sectorBytes && addr % sectorBytes == 0 {
      QuotientIs(addr + size, sectorBytes, addr / sectorBytes, size);
    }
  }

  lemma NextMultiple(q: nat, d: nat)
    ensures (q + 1) * d == q * d + d
  {
  }

  lemma SubSlice(b: seq<Byte>, s: seq<Byte>, a: nat, n: nat, offset: nat, k: nat)
    requires offset + k <= n && a + n <= |s| && b == s[a..a + n]
    ensures b[offset..offset + k] == s[a + offset..a + offset + k]
  {
    var x, y := b[offset..offset + k], s[a + offset..a + offset + k];
    forall i | 0 <= i < |x|
      ensures x[i] == y[i]
    {
    }
  }

  /** `memcpy` of the bytes `src` to dst at `at`. */
  method CopyBytes(src: seq<Byte>, dst: array<Byte>, at: nat)
    requires at + |src| <= dst.Length
    modifies dst
    ensures dst[at..at + |src|] == src
    ensures OnlyWithin(old(dst[..]), dst[..], at, |src|)
  {
    var n := 0;
    while n < |src|
      invariant n <= |src| && dst[at..at + n] == src[..n]
      invariant OnlyWithin(old(dst[..]), dst[..], at, |src|)
    {
      dst[at + n] := src[n];
      n := n + 1;
    }
  }

  lemma NothingWritten(s: seq<Byte>, at: nat, n: nat)
    ensures OnlyWithin(s, s, at, n)
  {
  }

  /** Writing part of a range stays within the range. */
  lemma WithinRange(first: seq<Byte>, before: seq<Byte>, now: seq<Byte>, at: nat, n: nat, from: nat, k: nat)
    requires OnlyWithin(first, before, at, n) && OnlyWithin(before, now, from, k) && at <= from && from + k <= at + n
    ensures OnlyWithin(first, now, at, n)
  {
  }

  /** Two adjacent copied pieces make one. */
  lemma Extend(before: seq<Byte>, now: seq<Byte>, at: nat, done: nat, n: nat, s: seq<Byte>, a: nat)
    requires OnlyWithin(before, now, at + done, n) && at + done + n <= |now| && a + done + n <= |s|
    requires done > 0 ==> before[at..at + done] == s[a..a + done]
    requires now[at + done..at + done + n] == s[a + done..a + done + n]
    ensures now[at..at + (done + n)] == s[a..a + (done + n)]
  {
    assert now[at..at + done] == before[at..at + done];
    assert now[at..at + (done + n)] == now[at..at + done] + now[at + done..at + done + n];
    assert s[a..a + (done + n)] == s[a..a + done] + s[a + done..a + done + n];
    assert now[at..at + done] == s[a..a + done];
  }

  /** The n bytes of the memory from `at` are those of the image from a. */
  ghost predicate Copied(now: seq<Byte>, at: nat, image: seq<Byte>, a: nat, n: nat) {
    at + n <= |now| && (n > 0 ==> a + n <= |image| && now[at..at + n] == image[a..a + n])
  }

  lemma NothingCopied(now: seq<Byte>, at: nat, image: seq<Byte>, a: nat)
    requires at <= |now|
    ensures Copied(now, at, image, a, 0)
  {
  }

  lemma CopiedMore(before: seq<Byte>, now: seq<Byte>, at: nat, image: seq<Byte>, a: nat, done: nat, n: nat)
    requires Copied(before, at, image, a, done) && OnlyWithin(before, now, at + done, n)
    requires at + done + n <= |now| && a + done + n <= |image|
    requires now[at + done..at + done + n] == image[a + done..a + done + n]
    ensures Copied(now, at, image, a, done + n)
  {
    Extend(before, now, at, done, n, image, a);
  }

  lemma CopiedIs(now: seq<Byte>, at: nat, image: seq<Byte>, a: nat, n: nat)
    requires Copied(now, at, image, a, n)
    ensures at + n <= |now| && (n > 0 ==> a + n <= |image| && now[at..at + n] == Slice(image, a, n))
  {
  }

  /** A partition: where it starts on its disk. */
  datatype Partition = Partition(disk: Disk, startSector: Word, sectors: Word)

  /** The byte offset `partition_read` adds: a product of two 32-bit values, taken in 32 bits. */
  function PartitionBase(sectorBytes: UShort, startSector: Word): (b: Word) {
    sectorBytes * startSector % B32
  }

  /** `partition_read` is `disk_read` shifted by the start of the partition exactly for partitions that
      start below 4 GiB. */
  lemma BaseIsStartBelow4GiB(sectorBytes: UShort, startSector: Word)
    ensures PartitionBase(sectorBytes, startSector) == sectorBytes * startSector <==> sectorBytes * startSector < B32
    ensures (sectorBytes * startSector - PartitionBase(sectorBytes, startSector)) % B32 == 0
  {
    var p := sectorBytes * startSector;
    assert (p - p % B32) % B32 == 0;
  }

  /** A partition that starts at 4 GiB: reads of it return bytes from the start of the disk. */
  lemma PartitionAt4GiBReadsDiskStart()
    ensures PartitionBase(512, 0x80_0000) == 0
  {
  }

  /** Where on the disk a partition address lies: the sum is taken in 64 bits. */
  function DiskAddress(part: Partition, absAddress: DWord): DWord {
    (PartitionBase(part.disk.sectorBytes, part.startSector) + absAddress) % B64
  }

  /** `partition_read`. */
  method PartitionRead(part: Partition, absAddress: DWord, absSize: UShort, dst: array<Byte>, at: nat)
    returns (st: Status)
    requires part.disk.Valid() && at + absSize <= dst.Length && dst != part.disk.diskBuffer
    modifies part.disk`calls, part.disk`diskBuffer, part.disk.diskBuffer, dst
    ensures part.disk.diskBuffer == old(part.disk.diskBuffer) || fresh(part.disk.diskBuffer)
    ensures part.disk.diskBuffer != dst && part.disk.calls >= old(part.disk.calls)
    ensures OnlyWithin(old(dst[..]), dst[..], at, absSize)
    ensures st.Ok? <==>
            && AllWork(part.disk.works, old(part.disk.calls), part.disk.calls)
            && (absSize > 0 ==> DiskAddress(part, absAddress) + absSize <= |part.disk.image|)
    ensures st.Ok? && absSize > 0 ==>
              dst[at..at + absSize] == Slice(part.disk.image, DiskAddress(part, absAddress), absSize)
  {
    var base := PartitionBase(part.disk.sectorBytes, part.startSector);
    st := part.disk.DiskRead((base + absAddress) % B64, absSize, dst, at);
  }
}
