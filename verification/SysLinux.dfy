/** Patching LDLINUX.SYS and the SYSLINUX boot sector (sysprep/syslinux.py), with 512 byte sectors. */
module SysLinux {
  import opened Bytes

  const SECTOR := 512
  const LDLINUX_MAGIC := 0x3eb202fe
  const LDLINUX_MAGIC_BYTES: seq<byte> := [0xfe, 0x02, 0xb2, 0x3e]
  const LOAD_ADDRESS := 0x8000
  const EXTENT_SIZE := 10
  const MAX_EXTENT := 127
  const TWO32 := 0x1_0000_0000

  datatype Extent = Extent(lba: nat, length: nat)

  function PaddedSize(size: nat, padding: nat): nat
    requires padding > 0
  {
    (size + padding - 1) / padding * padding
  }

  /** Slice assignment to a bytearray: the bytes from offset on are replaced, as far as there are any. */
  function Splice(ba: seq<byte>, offset: nat, w: seq<byte>): seq<byte> {
    ba[..Min(offset, |ba|)] + w + ba[Min(offset + |w|, |ba|)..]
  }

  // ----- extents

  function Sectors(lba: nat, n: nat): (r: seq<nat>)
    ensures |r| == n && forall i :: 0 <= i < n ==> r[i] == lba + i
  {
    seq(n, i requires 0 <= i => lba + i)
  }

  function Expand(extents: seq<Extent>): seq<nat> {
    if extents == [] then []
    else Expand(extents[..|extents| - 1]) + Sectors(extents[|extents| - 1].lba, extents[|extents| - 1].length)
  }

  /** (a ^ b) & 0xffff0000 == 0: bits 16 to 31 of both agree. */
  predicate SameUpperHalf(a: nat, b: nat) {
    a / 0x1_0000 % 0x1_0000 == b / 0x1_0000 % 0x1_0000
  }

  predicate Contiguous(sectors: seq<nat>) {
    forall i :: 0 < i < |sectors| ==> sectors[i] == sectors[0] + i
  }

  lemma ExpandOneMore(extents: seq<Extent>, e: Extent)
    ensures Expand(extents + [e]) == Expand(extents) + Sectors(e.lba, e.length)
  {
    assert (extents + [e])[..|extents|] == extents;
  }

  lemma SectorsOneMore(lba: nat, n: nat)
    ensures Sectors(lba, n) + [lba + n] == Sectors(lba, n + 1)
  {
  }

  /** The xor test compares the first and the last byte of one aligned sector: it never fails. */
  lemma UpperHalfTestNeverFails(addr: nat)
    requires addr % SECTOR == 0
    ensures SameUpperHalf(addr, addr + SECTOR - 1)
  {
    var q, m := addr / 0x1_0000, addr % 0x1_0000;
    assert m % SECTOR == 0 && m <= 0x1_0000 - SECTOR;
    assert (addr + SECTOR - 1) / 0x1_0000 == q;
  }

  /**
   The coalescing loop. Expanding the extents gives the sector list back, in order; for a contiguous list
   every extent but the last has 127 sectors, so their number is the least possible.
   */
  method Coalesce(sectors: seq<nat>) returns (extents: seq<Extent>)
    ensures Expand(extents) == sectors
    ensures forall i :: 0 <= i < |extents| ==> 1 <= extents[i].length <= MAX_EXTENT
    ensures Contiguous(sectors) ==>
      && |extents| == (|sectors| + MAX_EXTENT - 1) / MAX_EXTENT
      && forall i :: 0 <= i < |extents| - 1 ==> extents[i].length == MAX_EXTENT
  {
    hide Expand, Sectors;
    extents := [];
    var addr, base := LOAD_ADDRESS, LOAD_ADDRESS;
    var currentLba, currentLen := 0, 0;
    var index := 0;
    NothingYet();
    while index < |sectors|
      invariant index <= |sectors| && 0 <= currentLen <= MAX_EXTENT && (currentLen == 0 ==> index == 0 && extents == [])
      invariant 0 <= currentLba && addr == LOAD_ADDRESS + index * SECTOR
      invariant currentLen > 0 ==> 0 <= base && addr == base + currentLen * SECTOR
      invariant Expand(extents) + Sectors(currentLba, currentLen) == sectors[..index]
      invariant forall i :: 0 <= i < |extents| ==> 1 <= extents[i].length <= MAX_EXTENT
      invariant Contiguous(sectors) ==>
        && index == |extents| * MAX_EXTENT + currentLen
        && (currentLen > 0 ==> currentLba + currentLen == sectors[0] + index)
        && forall i :: 0 <= i < |extents| ==> extents[i].length == MAX_EXTENT
    {
      var currentSector := sectors[index];
      assert sectors[..index + 1] == sectors[..index] + [currentSector];
      if currentLen > 0 {
        var xbytes := (currentLen + 1) * SECTOR;
        UpperHalfTestNeverFails(addr);
        if currentSector == currentLba + currentLen && xbytes < 65536 && SameUpperHalf(addr, base + xbytes - 1) {
          SectorsOneMore(currentLba, currentLen);
          Regroup(Expand(extents), Sectors(currentLba, currentLen), [currentSector]);
          currentLen := currentLen + 1;
          index := index + 1;
          addr := addr + SECTOR;
          continue;
        }
        ExpandOneMore(extents, Extent(currentLba, currentLen));
        extents := extents + [Extent(currentLba, currentLen)];
      } else {
        NothingYet();
      }
      OneSector(currentSector);
      base := addr;
      currentLba := currentSector;
      currentLen := 1;
      index := index + 1;
      addr := addr + SECTOR;
    }
    assert sectors[..|sectors|] == sectors;
    if currentLen > 0 {
      ExpandOneMore(extents, Extent(currentLba, currentLen));
      extents := extents + [Extent(currentLba, currentLen)];
    }
  }

  lemma NothingYet()
    ensures Expand([]) == [] && forall lba: nat :: Sectors(lba, 0) == []
  {
  }

  lemma OneSector(lba: nat)
    ensures Sectors(lba, 1) == [lba]
  {
  }

  lemma Regroup<T>(x: seq<T>, y: seq<T>, z: seq<T>)
    ensures (x + y) + z == x + (y + z)
  {
  }

  // ----- the sectors of the file

  /** Size of the file as it is written: the data, padded, and two ADV sectors. */
  function WrittenSize(size: nat): nat {
    PaddedSize(size + 2 * SECTOR, SECTOR)
  }

  function DataSectors(size: nat): nat {
    PaddedSize(size, SECTOR) / SECTOR
  }

  /** The sectors listed by extents: all but the first data sector and the ADVs. */
  function ListedSectors(relative: nat, size: nat): seq<nat>
    requires size > 0
  {
    Sectors(relative + 1, (WrittenSize(size) - 3 * SECTOR) / SECTOR)
  }

  function AdvSector(relative: nat, size: nat): nat {
    relative + PaddedSize(size, SECTOR) / SECTOR
  }

  /**
   The boot sector's pointer, the extents and the two ADV pointers cover the contiguous sectors of
   ldlinux.sys, data and ADVs, each exactly once and in order.
   */
  lemma EverySectorIsReachedOnce(relative: nat, size: nat, extents: seq<Extent>)
    requires size > 0 && Expand(extents) == ListedSectors(relative, size)
    ensures [relative] + Expand(extents) + [AdvSector(relative, size), AdvSector(relative, size) + 1]
         == Sectors(relative, DataSectors(size) + 2)
  {
    Sizes(size);
    assert |ListedSectors(relative, size)| == DataSectors(size) - 1;
  }

  /** The ADVs follow the padded data, which is whole sectors and holds every summed dword. */
  lemma Sizes(size: nat)
    ensures WrittenSize(size) == PaddedSize(size, SECTOR) + 2 * SECTOR
    ensures PaddedSize(size, SECTOR) == DataSectors(size) * SECTOR >= size
    ensures size > 0 ==> DataSectors(size) >= 1
    ensures PaddedSize(size, 4) / 4 * 4 <= PaddedSize(size, SECTOR)
  {
    hide PaddedSize;
    PaddedToSectors(size);
    PaddedToSectors(size + 2 * SECTOR);
    PaddedToDwords(size);
    assert (size + 2 * SECTOR + SECTOR - 1) / SECTOR == (size + SECTOR - 1) / SECTOR + 2;
  }

  lemma PaddedToSectors(size: nat)
    ensures PaddedSize(size, SECTOR) == (size + SECTOR - 1) / SECTOR * SECTOR >= size
  {
  }

  lemma PaddedToDwords(size: nat)
    ensures PaddedSize(size, 4) == (size + 3) / 4 * 4 && (size + 3) / 4 <= 128 * ((size + SECTOR - 1) / SECTOR)
  {
    var q := (size + SECTOR - 1) / SECTOR;
    assert size <= q * SECTOR;
  }

  // ----- reading extents back

  function ExtentBytes(e: Extent): (b: seq<byte>)
    ensures |b| == EXTENT_SIZE
  {
    ToLE(e.lba, 8) + ToLE(e.length, 2)
  }

  function WriteExtents(ba: seq<byte>, offset: nat, extents: seq<Extent>): seq<byte>
    decreases |extents|
  {
    if extents == [] then ba
    else WriteExtents(Splice(Splice(ba, offset, ToLE(extents[0].lba, 8)), offset + 8, ToLE(extents[0].length, 2)),
                      offset + EXTENT_SIZE, extents[1..])
  }

  function ReadExtent(ba: seq<byte>, offset: nat): Extent
    requires offset + EXTENT_SIZE <= |ba|
  {
    Extent(FromLE(ba[offset..offset + 8]), FromLE(ba[offset + 8..offset + 10]))
  }

  lemma SpliceInside(ba: seq<byte>, offset: nat, w: seq<byte>)
    requires offset + |w| <= |ba|
    ensures |Splice(ba, offset, w)| == |ba|
    ensures forall i :: 0 <= i < |ba| ==>
              Splice(ba, offset, w)[i] == if offset <= i < offset + |w| then w[i - offset] else ba[i]
  {
  }

  /** Writing changes only the slots of the written extents. */
  lemma {:induction false} WriteExtentsKeeps(ba: seq<byte>, offset: nat, extents: seq<Extent>)
    requires offset + EXTENT_SIZE * |extents| <= |ba|
    ensures var r := WriteExtents(ba, offset, extents);
      && |r| == |ba|
      && forall i :: 0 <= i < |ba| && !(offset <= i < offset + EXTENT_SIZE * |extents|) ==> r[i] == ba[i]
    decreases |extents|
  {
    hide Splice;
    if extents != [] {
      var b1 := Splice(ba, offset, ToLE(extents[0].lba, 8));
      SpliceInside(ba, offset, ToLE(extents[0].lba, 8));
      SpliceInside(b1, offset + 8, ToLE(extents[0].length, 2));
      WriteExtentsKeeps(Splice(b1, offset + 8, ToLE(extents[0].length, 2)), offset + EXTENT_SIZE, extents[1..]);
    }
  }

  /** What was written is read back, slot by slot. */
  lemma {:induction false} ExtentsReadBack(ba: seq<byte>, offset: nat, extents: seq<Extent>, k: nat)
    requires offset + EXTENT_SIZE * |extents| <= |ba| && k < |extents|
    requires forall i :: 0 <= i < |extents| ==> extents[i].lba < Pow256(8) && extents[i].length < Pow256(2)
    ensures |WriteExtents(ba, offset, extents)| == |ba|
    ensures ReadExtent(WriteExtents(ba, offset, extents), offset + EXTENT_SIZE * k) == extents[k]
    decreases |extents|
  {
    hide Splice, Pow256, ToLE, FromLE;
    var e := extents[0];
    var b1 := Splice(ba, offset, ToLE(e.lba, 8));
    var b2 := Splice(b1, offset + 8, ToLE(e.length, 2));
    SpliceInside(ba, offset, ToLE(e.lba, 8));
    SpliceInside(b1, offset + 8, ToLE(e.length, 2));
    WriteExtentsKeeps(ba, offset, extents);
    if k == 0 {
      WriteExtentsKeeps(b2, offset + EXTENT_SIZE, extents[1..]);
      var r := WriteExtents(ba, offset, extents);
      assert r[offset..offset + 8] == ToLE(e.lba, 8);
      assert r[offset + 8..offset + 10] == ToLE(e.length, 2);
      FromToLE(e.lba, 8);
      FromToLE(e.length, 2);
    } else {
      ExtentsReadBack(b2, offset + EXTENT_SIZE, extents[1..], k - 1);
    }
  }

  // ----- the checksum

  function Dword(ba: seq<byte>, i: nat): nat
    requires 4 * i + 4 <= |ba|
  {
    FromLE(ba[4 * i..4 * i + 4])
  }

  /** Sum of the first n dwords. */
  function DwordSum(ba: seq<byte>, n: nat): nat
    requires 4 * n <= |ba|
  {
    if n == 0 then 0 else DwordSum(ba, n - 1) + Dword(ba, n - 1)
  }

  function CheckSum(ba: seq<byte>, n: nat): (c: nat)
    requires 4 * n <= |ba|
    ensures c < TWO32
  {
    (LDLINUX_MAGIC - DwordSum(ba, n)) % TWO32
  }

  /** The checksum loop: CheckSum -= dword, masked to 32 bits each time. */
  method ComputeCheckSum(ba: seq<byte>, n: nat) returns (c: nat)
    requires 4 * n <= |ba|
    ensures c == CheckSum(ba, n)
  {
    var sum: int := LDLINUX_MAGIC;
    var i := 0;
    while i < n
      invariant i <= n && 0 <= sum < TWO32 && sum == (LDLINUX_MAGIC - DwordSum(ba, i)) % TWO32
    {
      sum := sum - FromLE(ba[i * 4..i * 4 + 4]);
      sum := sum % TWO32;
      i := i + 1;
    }
    c := sum;
  }

  lemma {:induction false} DwordSumAfterWrite(ba: seq<byte>, n: nat, j: nat, w: seq<byte>)
    requires 4 * n <= |ba| && j < n && |w| == 4
    ensures |Splice(ba, 4 * j, w)| == |ba|
    ensures DwordSum(Splice(ba, 4 * j, w), n) == DwordSum(ba, n) - Dword(ba, j) + FromLE(w)
    decreases n
  {
    hide Splice, FromLE;
    SpliceInside(ba, 4 * j, w);
    var r := Splice(ba, 4 * j, w);
    if j == n - 1 {
      assert r[4 * j..4 * j + 4] == w;
      DwordSumSame(ba, r, n - 1);
    } else {
      assert r[4 * (n - 1)..4 * (n - 1) + 4] == ba[4 * (n - 1)..4 * (n - 1) + 4];
      DwordSumAfterWrite(ba, n - 1, j, w);
    }
  }

  lemma {:induction false} SumOfZeros(ba: seq<byte>, n: nat)
    requires 4 * n <= |ba| && forall i :: 0 <= i < |ba| ==> ba[i] == 0
    ensures DwordSum(ba, n) == 0
    decreases n
  {
    if n > 0 {
      SumOfZeros(ba, n - 1);
      FourBytes(ba[4 * (n - 1)..4 * (n - 1) + 4]);
    }
  }

  lemma {:induction false} DwordSumSame(a: seq<byte>, b: seq<byte>, n: nat)
    requires 4 * n <= |a| && 4 * n <= |b| && a[..4 * n] == b[..4 * n]
    ensures DwordSum(a, n) == DwordSum(b, n)
    decreases n
  {
    if n > 0 {
      assert a[4 * (n - 1)..4 * n] == a[..4 * n][4 * (n - 1)..] == b[4 * (n - 1)..4 * n];
      assert a[..4 * (n - 1)] == a[..4 * n][..4 * (n - 1)] == b[..4 * (n - 1)];
      DwordSumSame(a, b, n - 1);
    }
  }

  /**
   Writing the checksum into an aligned field inside the summed range makes the dwords sum up to
   LDLINUX_MAGIC, modulo 2^32, exactly when the field held zero while the checksum was computed.
   */
  lemma CheckSumIff(ba: seq<byte>, n: nat, j: nat)
    requires 4 * n <= |ba| && j < n
    ensures |Splice(ba, 4 * j, ToLE(CheckSum(ba, n), 4))| == |ba|
    ensures DwordSum(Splice(ba, 4 * j, ToLE(CheckSum(ba, n), 4)), n) % TWO32 == LDLINUX_MAGIC % TWO32
        <==> Dword(ba, j) == 0
  {
    hide FromLE, ToLE, Splice, DwordSum, Dword, Pow256;
    var c := CheckSum(ba, n);
    Pow256Values();
    FromToLE(c, 4);
    DwordSumAfterWrite(ba, n, j, ToLE(c, 4));
    DwordBound(ba, j);
    SumModulo(DwordSum(ba, n), Dword(ba, j), c);
  }

  lemma DwordBound(ba: seq<byte>, j: nat)
    requires 4 * j + 4 <= |ba|
    ensures Dword(ba, j) < TWO32
  {
    Pow256Values();
    FromLEBelow(ba[4 * j..4 * j + 4]);
  }

  lemma SumModulo(sum: int, field: nat, c: nat)
    requires field < TWO32 && c == (LDLINUX_MAGIC - sum) % TWO32
    ensures (sum - field + c) % TWO32 == LDLINUX_MAGIC % TWO32 <==> field == 0
  {
    var q := (LDLINUX_MAGIC - sum) / TWO32;
    assert sum + c == LDLINUX_MAGIC - q * TWO32;
    assert (sum - field + c) == LDLINUX_MAGIC - field - q * TWO32;
  }

  // ----- the whole patch

  /** bytearray.index; None is its exception. */
  function Find(ba: seq<byte>, pattern: seq<byte>): (r: Option<nat>)
    ensures r.Some? ==> r.value + |pattern| <= |ba| && ba[r.value..r.value + |pattern|] == pattern
    decreases |ba|
  {
    if |ba| < |pattern| || |ba| == 0 then None
    else if ba[..|pattern|] == pattern then Some(0)
    else
      var rest := Find(ba[1..], pattern);
      if rest.None? then None
      else
        assert ba[1..][rest.value..rest.value + |pattern|] == ba[rest.value + 1..rest.value + 1 + |pattern|];
        Some(rest.value + 1)
  }

  /** syslinux_make_blank_adv: the data is all zero, so the checksum is the magic itself. */
  function BlankAdv(): (b: seq<byte>)
    ensures |b| == SECTOR
  {
    ToLE(0x5a2d2fa5, 4) + ToLE(0xa3041767, 4) + Repeat<byte>(SECTOR - 12, 0) + ToLE(0xdd28bf64, 4)
  }

  function Read16(ba: seq<byte>, offset: nat): nat
    requires offset + 2 <= |ba|
  {
    FromLE(ba[offset..offset + 2])
  }

  function LdlDwords(size: nat): nat {
    PaddedSize(size, 4) / 4
  }

  /** DataSectors, ADVSectors, LDLDwords and a zero checksum, from the patch area on. */
  function PatchAreaBytes(size: nat): (b: seq<byte>)
    ensures |b| == 12 && b[8..12] == ToLE(0, 4)
  {
    ToLE(DataSectors(size), 2) + ToLE(2, 2) + ToLE(LdlDwords(size), 4) + ToLE(0, 4)
  }

  /** Where the extended patch area says that the ADV pointers and the extents go. */
  datatype Pointers = Pointers(adv: nat, extents: nat)

  /** The two blank ADV sectors behind the data. */
  function WithBlankAdvs(ba: seq<byte>, size: nat): seq<byte> {
    Splice(Splice(ba, PaddedSize(size, SECTOR), BlankAdv()), PaddedSize(size, SECTOR) + SECTOR, BlankAdv())
  }

  /** Everything up to the checksum. None stands for the exceptions of struct. */
  function Prepared(ba: seq<byte>, patch: nat, relative: nat, size: nat, extents: seq<Extent>): Option<(Pointers,
      seq<byte>)> {
    if DataSectors(size) > 0xffff || LdlDwords(size) >= TWO32 || AdvSector(relative, size) + 1 >= Pow256(8) then None
    else
      var b1 := Splice(ba, patch, PatchAreaBytes(size));
      if patch + 16 > |b1| then None
      else
        var epa := Read16(b1, patch + 14);
        if epa + 2 > |b1| then None
        else
          var adv := Read16(b1, epa);
          var advs := ToLE(AdvSector(relative, size), 8) + ToLE(AdvSector(relative, size) + 1, 8);
          var b2 := Splice(b1, adv, advs);
          if epa + 14 > |b2| then None
          else
            var slots := Read16(b2, epa + 10);
            Some((Pointers(adv, slots), WithBlankAdvs(WriteExtents(b2, slots, extents), size)))
  }

  /** A bytearray: a write beyond its end makes it longer. A raised exception answers false or None. */
  class ByteArray {
    var bytes: seq<byte>

    constructor (initial: seq<byte>)
      ensures bytes == initial
    {
      bytes := initial;
    }

    /** bytearray_write16, 32 and 64; struct.pack raises for a number that does not fit. */
    method Write(num: nat, width: nat, offset: nat) returns (ok: bool)
      modifies this
      ensures ok == (num < Pow256(width))
      ensures bytes == if ok then Splice(old(bytes), offset, ToLE(num, width)) else old(bytes)
    {
      ok := num < Pow256(width);
      if ok {
        bytes := bytes[..Min(offset, |bytes|)] + ToLE(num, width) + bytes[Min(offset + width, |bytes|)..];
      }
    }

    method Read16At(offset: nat) returns (num: Option<nat>)
      ensures num == if offset + 2 <= |bytes| then Some(Read16(bytes, offset)) else None
    {
      num := if offset + 2 <= |bytes| then Some(FromLE(bytes[offset..offset + 2])) else None;
    }

    /** The loop at the end of patch_ldlinux_sys_extents. */
    method PatchExtents(extents: seq<Extent>, offset: nat) returns (ok: bool)
      modifies this
      ensures ok == AllPackable(extents)
      ensures ok ==> bytes == WriteExtents(old(bytes), offset, extents)
    {
      hide Splice, Pow256;
      var current: nat, i := offset, 0;
      while i < |extents|
        invariant i <= |extents| && forall j :: 0 <= j < i ==> Packable(extents[j])
        invariant WriteExtents(bytes, current, extents[i..]) == WriteExtents(old(bytes), offset, extents)
      {
        assert extents[i..][1..] == extents[i + 1..];
        var lba := Write(extents[i].lba, 8, current);
        if !lba {
          return false;
        }
        var length := Write(extents[i].length, 2, current + 8);
        if !length {
          return false;
        }
        current := current + EXTENT_SIZE;
        i := i + 1;
      }
      ok := true;
    }

    method WritePatchArea(size: nat, patch: nat) returns (ok: bool)
      modifies this
      ensures ok == (DataSectors(size) <= 0xffff && LdlDwords(size) < TWO32)
      ensures ok ==> bytes == Splice(old(bytes), patch, PatchAreaBytes(size))
    {
      hide Splice, ToLE, FromLE, Pow256, DataSectors, LdlDwords;
      Pow256Values();
      SpliceTwice(bytes, patch, ToLE(DataSectors(size), 2), ToLE(2, 2));
      SpliceTwice(bytes, patch, ToLE(DataSectors(size), 2) + ToLE(2, 2), ToLE(LdlDwords(size), 4));
      SpliceTwice(bytes, patch, ToLE(DataSectors(size), 2) + ToLE(2, 2) + ToLE(LdlDwords(size), 4), ToLE(0, 4));
      ok := Write(DataSectors(size), 2, patch);
      if ok {
        var advSectors := Write(2, 2, patch + 2);
        ok := Write(LdlDwords(size), 4, patch + 4);
        if ok {
          var zero := Write(0, 4, patch + 8);
        }
      }
    }

    method WriteAdvPointers(sector: nat, offset: nat) returns (ok: bool)
      modifies this
      ensures ok == (sector + 1 < Pow256(8))
      ensures ok ==> bytes == Splice(old(bytes), offset, ToLE(sector, 8) + ToLE(sector + 1, 8))
    {
      hide Splice, ToLE, Pow256;
      SpliceTwice(bytes, offset, ToLE(sector, 8), ToLE(sector + 1, 8));
      ok := Write(sector, 8, offset);
      if ok {
        ok := Write(sector + 1, 8, offset + 8);
      }
    }

    method WriteBlankAdvs(size: nat)
      modifies this
      ensures bytes == WithBlankAdvs(old(bytes), size)
    {
      var adv1 := PaddedSize(size, SECTOR);
      bytes := Splice(bytes, adv1, BlankAdv());
      bytes := Splice(bytes, adv1 + SECTOR, BlankAdv());
    }

    /** Everything that patch_ldlinux_sys writes before the checksum. */
    method Prepare(patch: nat, relative: nat, size: nat, extents: seq<Extent>)
      returns (ok: bool, ghost pointers: Pointers)
      requires size > 0 && Expand(extents) == ListedSectors(relative, size)
      requires forall i :: 0 <= i < |extents| ==> 1 <= extents[i].length <= MAX_EXTENT
      modifies this
      ensures ok == Prepared(old(bytes), patch, relative, size, extents).Some?
      ensures ok ==> Prepared(old(bytes), patch, relative, size, extents).value == (pointers, bytes)
    {
      hide Splice, FromLE, Expand, PaddedSize, Pow256, WriteExtents, WithBlankAdvs, LdlDwords, AllPackable,
        ListedSectors;
      pointers := Pointers(0, 0);
      ok := WritePatchArea(size, patch);
      if !ok {
        return;
      }
      if AdvSector(relative, size) + 1 < Pow256(8) {
        ListedSectorsArePackable(relative, size, extents);
      }
      var epa := Read16At(patch + 14);
      if epa.None? {
        return false, pointers;
      }
      var adv := Read16At(epa.value);
      if adv.None? {
        return false, pointers;
      }
      ok := WriteAdvPointers(AdvSector(relative, size), adv.value);
      if !ok {
        return;
      }
      var slots := Read16At(epa.value + 10);
      var count := Read16At(epa.value + 12);
      if slots.None? || count.None? {
        return false, pointers;
      }
      pointers := Pointers(adv.value, slots.value);
      ok := PatchExtents(extents, slots.value);
      WriteBlankAdvs(size);
    }
  }

  /** An extent fits its slot: a 64 bit sector number and a 16 bit length. */
  predicate Packable(e: Extent) {
    e.lba < Pow256(8) && e.length < Pow256(2)
  }

  predicate AllPackable(extents: seq<Extent>) {
    forall i :: 0 <= i < |extents| ==> Packable(extents[i])
  }

  lemma SpliceTwice(ba: seq<byte>, offset: nat, x: seq<byte>, y: seq<byte>)
    ensures Splice(Splice(ba, offset, x), offset + |x|, y) == Splice(ba, offset, x + y)
  {
    var front, first := ba[..Min(offset, |ba|)], Splice(ba, offset, x);
    if offset <= |ba| {
      assert first[..offset + |x|] == front + x;
      assert first[Min(offset + |x| + |y|, |first|)..] == ba[Min(offset + |x| + |y|, |ba|)..];
    } else {
      assert first == front + x;
    }
  }

  lemma {:induction false} ExtentIsListed(extents: seq<Extent>, i: nat)
    requires i < |extents| && extents[i].length >= 1
    ensures extents[i].lba in Expand(extents)
    decreases |extents|
  {
    var last := extents[|extents| - 1];
    if i == |extents| - 1 {
      assert Sectors(last.lba, last.length)[0] == last.lba;
    } else {
      ExtentIsListed(extents[..|extents| - 1], i);
    }
  }

  lemma ListedSectorsArePackable(relative: nat, size: nat, extents: seq<Extent>)
    requires size > 0 && Expand(extents) == ListedSectors(relative, size)
    requires forall i :: 0 <= i < |extents| ==> 1 <= extents[i].length <= MAX_EXTENT
    requires AdvSector(relative, size) + 1 < Pow256(8)
    ensures AllPackable(extents)
  {
    hide Expand, PaddedSize;
    Sizes(size);
    Pow256Values();
    forall i | 0 <= i < |extents|
      ensures Packable(extents[i])
    {
      ExtentIsListed(extents, i);
    }
  }

  /**
   patch_ldlinux_sys on the bytes of the file as written, and its result; None stands for an exception, and
   then nothing is written to the image.
   */
  method PatchLdlinuxSys(ba: seq<byte>, relative: nat, size: nat)
    returns (r: Option<seq<byte>>, extents: seq<Extent>)
    requires size > 0 && |ba| == WrittenSize(size)
    ensures Expand(extents) == ListedSectors(relative, size)
    ensures forall i :: 0 <= i < |extents| ==> 1 <= extents[i].length <= MAX_EXTENT
    ensures |extents| == (DataSectors(size) - 1 + MAX_EXTENT - 1) / MAX_EXTENT
    ensures r == Patched(ba, relative, size, extents)
  {
    hide Prepared, CheckSum, Splice, Find, Expand, PaddedSize, Pow256;
    Sizes(size);
    Pow256Values();
    var total := (WrittenSize(size) - 3 * SECTOR) / SECTOR;
    extents := Coalesce(Sectors(relative + 1, total));
    var magic := Find(ba, LDLINUX_MAGIC_BYTES);
    if magic.None? {
      return None, extents;
    }
    var patch := magic.value + 8;
    var ldlinux := new ByteArray(ba);
    var ok, pointers := ldlinux.Prepare(patch, relative, size, extents);
    if !ok || 4 * LdlDwords(size) > |ldlinux.bytes| {
      return None, extents;
    }
    var checkSum := ComputeCheckSum(ldlinux.bytes, LdlDwords(size));
    ok := ldlinux.Write(checkSum, 4, patch + 8);
    r := Some(ldlinux.bytes);
  }

  function Patched(ba: seq<byte>, relative: nat, size: nat, extents: seq<Extent>): Option<seq<byte>> {
    var magic := Find(ba, LDLINUX_MAGIC_BYTES);
    if magic.None? then None
    else
      var patch := magic.value + 8;
      var prepared := Prepared(ba, patch, relative, size, extents);
      if prepared.None? || 4 * LdlDwords(size) > |prepared.value.1| then None
      else Some(Splice(prepared.value.1, patch + 8, ToLE(CheckSum(prepared.value.1, LdlDwords(size)), 4)))
  }

  predicate Apart(a: nat, n: nat, b: nat, m: nat) {
    a + n <= b || b + m <= a
  }

  /** The ADV sectors lie behind the summed dwords. */
  lemma AdvsBehindTheSum(ba: seq<byte>, size: nat)
    requires |ba| == WrittenSize(size)
    ensures 4 * LdlDwords(size) <= PaddedSize(size, SECTOR) <= |ba|
    ensures |WithBlankAdvs(ba, size)| == |ba|
    ensures WithBlankAdvs(ba, size)[..4 * LdlDwords(size)] == ba[..4 * LdlDwords(size)]
  {
    hide BlankAdv, Splice, PaddedSize;
    var p := PaddedSize(size, SECTOR);
    Sizes(size);
    SpliceInside(ba, p, BlankAdv());
    SpliceInside(Splice(ba, p, BlankAdv()), p + SECTOR, BlankAdv());
  }

  /** The patch area is dword-aligned and inside the summed range. */
  predicate PatchAreaSummed(patch: nat, size: nat) {
    patch % 4 == 0 && patch + 12 <= 4 * LdlDwords(size)
  }

  /** Where the file says that its parts lie: patch area, extended patch area, ADV pointers, extents. */
  datatype Layout = Layout(patch: nat, epa: nat, adv: nat, slots: nat)

  /** Read from the file before anything is written to it. */
  function LayoutOf(ba: seq<byte>): Option<Layout> {
    var magic := Find(ba, LDLINUX_MAGIC_BYTES);
    if magic.None? || magic.value + 24 > |ba| then None
    else
      var patch := magic.value + 8;
      var epa := Read16(ba, patch + 14);
      if epa + 14 > |ba| then None else Some(Layout(patch, epa, Read16(ba, epa), Read16(ba, epa + 10)))
  }

  /** The parts lie in a file of that length, and no pointer is written over before it is read. */
  predicate Readable(l: Layout, length: nat, count: nat) {
    && l.patch + 16 <= length && l.epa + 14 <= length && Apart(l.epa, 14, l.patch, 12)
    && l.adv + 16 <= length && Apart(l.epa + 10, 2, l.adv, 16)
    && l.slots + EXTENT_SIZE * count <= length
  }

  function AdvBytes(relative: nat, size: nat): (b: seq<byte>)
    ensures |b| == 16
  {
    ToLE(AdvSector(relative, size), 8) + ToLE(AdvSector(relative, size) + 1, 8)
  }

  function AllExtentBytes(extents: seq<Extent>): (b: seq<byte>)
    ensures |b| == EXTENT_SIZE * |extents|
  {
    if extents == [] then [] else ExtentBytes(extents[0]) + AllExtentBytes(extents[1..])
  }

  /** The byte that ADV pointers and extents leave at place i of the zeroed checksum field. */
  function LeftAt(l: Layout, relative: nat, size: nat, extents: seq<Extent>, i: nat): byte {
    if l.slots <= i < l.slots + EXTENT_SIZE * |extents| then AllExtentBytes(extents)[i - l.slots]
    else if l.adv <= i < l.adv + 16 then AdvBytes(relative, size)[i - l.adv]
    else 0
  }

  /** Writing the extents one by one is writing all their bytes. */
  lemma {:induction false} WriteExtentsIsSplice(ba: seq<byte>, offset: nat, extents: seq<Extent>)
    ensures WriteExtents(ba, offset, extents) == Splice(ba, offset, AllExtentBytes(extents))
    decreases |extents|
  {
    if extents != [] {
      var e := extents[0];
      SpliceTwice(ba, offset, ToLE(e.lba, 8), ToLE(e.length, 2));
      WriteExtentsIsSplice(Splice(ba, offset, ExtentBytes(e)), offset + EXTENT_SIZE, extents[1..]);
      SpliceTwice(ba, offset, ExtentBytes(e), AllExtentBytes(extents[1..]));
    }
  }

  lemma {:induction false} ZeroBytes(b: seq<byte>)
    ensures FromLE(b) == 0 <==> forall i :: 0 <= i < |b| ==> b[i] == 0
    decreases |b|
  {
    if b != [] {
      ZeroBytes(b[1..]);
      assert b == [b[0]] + b[1..];
    }
  }

  lemma SameRead(a: seq<byte>, b: seq<byte>, offset: nat)
    requires offset + 2 <= |a| == |b| && a[offset] == b[offset] && a[offset + 1] == b[offset + 1]
    ensures Read16(a, offset) == Read16(b, offset)
  {
    assert a[offset..offset + 2] == b[offset..offset + 2];
  }

  /** In a readable layout the pointers that are used are those of the file. */
  lemma PreparedInLayout(ba: seq<byte>, relative: nat, size: nat, extents: seq<Extent>, l: Layout)
    requires |ba| == WrittenSize(size) && LayoutOf(ba) == Some(l) && Readable(l, |ba|, |extents|)
    requires Prepared(ba, l.patch, relative, size, extents).Some?
    ensures var b1 := Splice(ba, l.patch, PatchAreaBytes(size));
      var b2 := Splice(b1, l.adv, AdvBytes(relative, size));
      var b3 := Splice(b2, l.slots, AllExtentBytes(extents));
      && |b1| == |b2| == |b3| == |ba|
      && Prepared(ba, l.patch, relative, size, extents).value.1 == WithBlankAdvs(b3, size)
  {
    hide Splice, ToLE, FromLE, WriteExtents, WithBlankAdvs, AllExtentBytes, Find, Read16, Pow256, AdvSector,
      DataSectors, LdlDwords, PaddedSize;
    var b1 := Splice(ba, l.patch, PatchAreaBytes(size));
    SpliceInside(ba, l.patch, PatchAreaBytes(size));
    SameRead(ba, b1, l.patch + 14);
    SameRead(ba, b1, l.epa);
    var b2 := Splice(b1, l.adv, AdvBytes(relative, size));
    SpliceInside(b1, l.adv, AdvBytes(relative, size));
    SameRead(ba, b2, l.epa + 10);
    SpliceInside(b2, l.slots, AllExtentBytes(extents));
    WriteExtentsIsSplice(b2, l.slots, extents);
  }

  /** What the checksum field holds while the dwords are summed. */
  lemma FieldBeforeTheSum(ba: seq<byte>, relative: nat, size: nat, extents: seq<Extent>, l: Layout, i: nat)
    requires |ba| == WrittenSize(size) && LayoutOf(ba) == Some(l) && Readable(l, |ba|, |extents|)
    requires Prepared(ba, l.patch, relative, size, extents).Some? && PatchAreaSummed(l.patch, size)
    requires l.patch + 8 <= i < l.patch + 12
    ensures var b := Prepared(ba, l.patch, relative, size, extents).value.1;
      4 * LdlDwords(size) <= |b| == |ba| && b[i] == LeftAt(l, relative, size, extents, i)
  {
    hide Splice, ToLE, FromLE, WithBlankAdvs, AllExtentBytes, AdvBytes, Prepared, LayoutOf, LdlDwords, PaddedSize,
      WrittenSize;
    PreparedInLayout(ba, relative, size, extents, l);
    var b1 := Splice(ba, l.patch, PatchAreaBytes(size));
    var b2 := Splice(b1, l.adv, AdvBytes(relative, size));
    var b3 := Splice(b2, l.slots, AllExtentBytes(extents));
    SpliceInside(ba, l.patch, PatchAreaBytes(size));
    SpliceInside(b1, l.adv, AdvBytes(relative, size));
    SpliceInside(b2, l.slots, AllExtentBytes(extents));
    AdvsBehindTheSum(b3, size);
    var b := WithBlankAdvs(b3, size);
    assert b[i] == b[..4 * LdlDwords(size)][i] == b3[..4 * LdlDwords(size)][i] == b3[i];
    ZeroField(size, i - l.patch);
  }

  lemma ZeroField(size: nat, i: nat)
    requires 8 <= i < 12
    ensures PatchAreaBytes(size)[i] == 0
  {
    hide PaddedSize;
    assert PatchAreaBytes(size)[i] == PatchAreaBytes(size)[8..12][i - 8];
    Pow256Values();
    FromToLE(0, 4);
    ZeroBytes(ToLE(0, 4));
  }

  /**
   After patching, the dwords of ldlinux.sys sum up to LDLINUX_MAGIC modulo 2^32 if and only if the ADV pointers
   and the extents leave only zeros in the checksum field. That can be seen from the pointers of the file before
   it is patched, and it is so when they point elsewhere.
   */
  lemma PatchedSumsToMagic(ba: seq<byte>, relative: nat, size: nat, extents: seq<Extent>, l: Layout)
    requires size > 0 && |ba| == WrittenSize(size)
    requires LayoutOf(ba) == Some(l) && Readable(l, |ba|, |extents|) && PatchAreaSummed(l.patch, size)
    ensures Patched(ba, relative, size, extents).Some? ==>
      var r := Patched(ba, relative, size, extents).value;
      && |r| == |ba| >= 4 * LdlDwords(size)
      && (DwordSum(r, LdlDwords(size)) % 0x1_0000_0000 == 0x3EB2_02FE
          <==> forall i :: l.patch + 8 <= i < l.patch + 12 ==> LeftAt(l, relative, size, extents, i) == 0)
  {
    hide Splice, Find, CheckSum, ToLE, FromLE, DwordSum, Prepared, PaddedSize, LdlDwords, WrittenSize, LeftAt,
      Readable, Read16;
    if Patched(ba, relative, size, extents).Some? {
      var b := Prepared(ba, l.patch, relative, size, extents).value.1;
      var j := l.patch / 4 + 2;
      FieldBeforeTheSum(ba, relative, size, extents, l, l.patch + 8);
      forall i | l.patch + 8 <= i < l.patch + 12
        ensures b[i] == LeftAt(l, relative, size, extents, i)
      {
        FieldBeforeTheSum(ba, relative, size, extents, l, i);
      }
      CheckSumIff(b, LdlDwords(size), j);
      FieldIsZero(b, l.patch + 8);
    }
  }

  lemma FieldIsZero(b: seq<byte>, at: nat)
    requires at + 4 <= |b|
    ensures FromLE(b[at..at + 4]) == 0 <==> forall i :: at <= i < at + 4 ==> b[i] == 0
  {
    hide FromLE;
    var four := b[at..at + 4];
    ZeroBytes(four);
    assert forall i :: 0 <= i < 4 ==> four[i] == b[at + i];
    assert forall i :: at <= i < at + 4 ==> b[i] == four[i - at];
  }

  /** In particular it holds when the slots lie off the checksum. */
  lemma SlotsElsewhereSumToMagic(ba: seq<byte>, relative: nat, size: nat, extents: seq<Extent>, l: Layout)
    requires size > 0 && |ba| == WrittenSize(size)
    requires LayoutOf(ba) == Some(l) && Readable(l, |ba|, |extents|) && PatchAreaSummed(l.patch, size)
    requires Apart(l.adv, 16, l.patch + 8, 4) && Apart(l.slots, EXTENT_SIZE * |extents|, l.patch + 8, 4)
    ensures Patched(ba, relative, size, extents).Some? ==>
      var r := Patched(ba, relative, size, extents).value;
      |r| == |ba| >= 4 * LdlDwords(size) && DwordSum(r, LdlDwords(size)) % 0x1_0000_0000 == 0x3EB2_02FE
  {
    hide Patched, LayoutOf, DwordSum, LdlDwords, WrittenSize, PatchAreaSummed;
    PatchedSumsToMagic(ba, relative, size, extents, l);
  }

  // ----- the boot sector

  const LOW_PATTERN: seq<byte> := [0xef, 0xbe, 0xad, 0xde]
  const HIGH_PATTERN: seq<byte> := [0xce, 0xfa, 0xed, 0xfe]

  /** The SYSLINUX boot sector with the sector number of ldlinux.sys in place of its two patterns. */
  function BootCode(boot: seq<byte>, relative: nat): Option<seq<byte>> {
    var low, high := Find(boot, LOW_PATTERN), Find(boot, HIGH_PATTERN);
    if low.None? || high.None? || relative >= Pow256(8) then None
    else Some(Splice(Splice(boot, low.value, ToLE(relative % TWO32, 4)), high.value, ToLE(relative / TWO32, 4)))
  }

  /** patch_syslinux_bootsector: jump, name and code are replaced, the BIOS parameter block is kept. */
  function PatchedBootSector(existing: seq<byte>, boot: seq<byte>, relative: nat): Option<seq<byte>>
    requires |existing| == SECTOR && |boot| == SECTOR
  {
    match BootCode(boot, relative)
    case None => None
    case Some(code) =>
      Some(Splice(Splice(existing, 0, Slice(code, 0, 0x0B)), 0x5A, Slice(code, 0x5A, SECTOR - 0x5A)))
  }

  /** The sector that holds the backup of the boot sector, counted from the start of the partition. */
  function CopyIndex(bootSector: seq<byte>): (b: nat)
    requires |bootSector| == SECTOR
    ensures b == (bootSector[0x32] as int) + 0x100 * (bootSector[0x33] as int)
  {
    TwoBytes(bootSector[0x32..0x34]);
    Read16(bootSector, 0x32)
  }

  /** Writing at the current offset of the mapped image; beyond its end that raises. */
  method WriteImage(mm: array<byte>, offset: nat, buffer: seq<byte>) returns (ok: bool)
    modifies mm
    ensures ok == (offset + |buffer| <= mm.Length)
    ensures mm[..] == if ok then Splice(old(mm[..]), offset, buffer) else old(mm[..])
  {
    ok := offset + |buffer| <= mm.Length;
    if ok {
      SpliceInside(mm[..], offset, buffer);
      forall i | 0 <= i < |buffer| {
        mm[offset + i] := buffer[i];
      }
      assert mm[..] == Splice(old(mm[..]), offset, buffer);
    }
  }

  /** The boot sector as it is to be, or None for an exception; sector numbers are those of the image. */
  function NewBootSector(image: seq<byte>, boot: seq<byte>, partition: nat, ldlinux: nat): Option<seq<byte>>
    requires |boot| == SECTOR && SECTOR * partition + SECTOR <= |image|
  {
    if ldlinux < partition then None
    else PatchedBootSector(image[SECTOR * partition..SECTOR * partition + SECTOR], boot, ldlinux - partition)
  }

  /** patch_syslinux_bootsector on the whole image: the boot sector and its copy. */
  method PatchBootSector(mm: array<byte>, boot: seq<byte>, partition: nat, ldlinux: nat) returns (ok: bool)
    requires |boot| == SECTOR && SECTOR * partition + SECTOR <= mm.Length
    modifies mm
    ensures var spec := NewBootSector(old(mm[..]), boot, partition, ldlinux);
      && ok == (spec.Some? && |spec.value| == SECTOR
                && SECTOR * (partition + CopyIndex(spec.value)) + SECTOR <= mm.Length)
      && (ok ==> mm[..] == BothWritten(old(mm[..]), partition, spec.value))
  {
    hide Splice, Find, FromLE;
    var offset := SECTOR * partition;
    if ldlinux < partition {
      return false;
    }
    var code := BootCode(boot, ldlinux - partition);
    if code.None? {
      return false;
    }
    BootCodeLength(boot, ldlinux - partition);
    var existing := mm[offset..offset + SECTOR];
    SpliceInside(existing, 0, Slice(code.value, 0, 0x0B));
    var jump := Splice(existing, 0, Slice(code.value, 0, 0x0B));
    SpliceInside(jump, 0x5A, Slice(code.value, 0x5A, SECTOR - 0x5A));
    var patched := Splice(jump, 0x5A, Slice(code.value, 0x5A, SECTOR - 0x5A));
    ok := WriteImage(mm, offset, patched);
    ok := WriteImage(mm, offset + CopyIndex(patched) * SECTOR, patched);
  }

  function BothWritten(image: seq<byte>, partition: nat, patched: seq<byte>): seq<byte>
    requires |patched| == SECTOR
  {
    Splice(Splice(image, SECTOR * partition, patched), SECTOR * (partition + CopyIndex(patched)), patched)
  }

  lemma BootCodeLength(boot: seq<byte>, relative: nat)
    requires |boot| == SECTOR && BootCode(boot, relative).Some?
    ensures |BootCode(boot, relative).value| == SECTOR
  {
    hide Find, Splice, ToLE;
    var l, h := Find(boot, LOW_PATTERN).value, Find(boot, HIGH_PATTERN).value;
    SpliceInside(boot, l, ToLE(relative % TWO32, 4));
    SpliceInside(Splice(boot, l, ToLE(relative % TWO32, 4)), h, ToLE(relative / TWO32, 4));
  }

  /** The boot sector and its copy are the same, and the rest of the image is as it was. */
  lemma BootSectorAndItsCopy(image: seq<byte>, partition: nat, patched: seq<byte>)
    requires |patched| == SECTOR
    requires SECTOR * partition + SECTOR <= |image| && SECTOR * (partition + CopyIndex(patched)) + SECTOR <= |image|
    ensures var r := BothWritten(image, partition, patched);
      var first, copy := SECTOR * partition, SECTOR * (partition + CopyIndex(patched));
      && |r| == |image|
      && r[first..first + SECTOR] == patched && r[copy..copy + SECTOR] == patched
      && forall i :: 0 <= i < |r| && !(first <= i < first + SECTOR) && !(copy <= i < copy + SECTOR) ==> r[i] == image[i]
  {
    hide Splice, CopyIndex;
    var first, copy := SECTOR * partition, SECTOR * (partition + CopyIndex(patched));
    SpliceInside(image, first, patched);
    SpliceInside(Splice(image, first, patched), copy, patched);
    var r := BothWritten(image, partition, patched);
    assert r[copy..copy + SECTOR] == patched;
    assert r[first..first + SECTOR] == patched;
  }

  /** The patterns do not overlap, so both halves of the sector number arrive whole. */
  lemma PatternsApart(boot: seq<byte>)
    requires Find(boot, LOW_PATTERN).Some? && Find(boot, HIGH_PATTERN).Some?
    ensures Apart(Find(boot, LOW_PATTERN).value, 4, Find(boot, HIGH_PATTERN).value, 4)
  {
    hide Find;
    var l, h := Find(boot, LOW_PATTERN).value, Find(boot, HIGH_PATTERN).value;
    FourOf(boot, l, LOW_PATTERN);
    FourOf(boot, h, HIGH_PATTERN);
  }

  lemma FourOf(ba: seq<byte>, at: nat, pattern: seq<byte>)
    requires at + 4 <= |ba| && |pattern| == 4 && ba[at..at + 4] == pattern
    ensures ba[at] == pattern[0] && ba[at + 1] == pattern[1] && ba[at + 2] == pattern[2] && ba[at + 3] == pattern[3]
  {
    var four := ba[at..at + 4];
    assert four[0] == ba[at] && four[1] == ba[at + 1] && four[2] == ba[at + 2] && four[3] == ba[at + 3];
  }

  /**
   The BIOS parameter block survives, and a boot loader that takes the two halves from where the patterns
   were gets the sector number, when both patterns lie in the code.
   */
  lemma BootPointerArrives(existing: seq<byte>, boot: seq<byte>, relative: nat)
    requires |existing| == SECTOR && |boot| == SECTOR && BootCode(boot, relative).Some?
    requires Find(boot, LOW_PATTERN).value >= 0x5A && Find(boot, HIGH_PATTERN).value >= 0x5A
    ensures var r := PatchedBootSector(existing, boot, relative).value;
      var l, h := Find(boot, LOW_PATTERN).value, Find(boot, HIGH_PATTERN).value;
      && |r| == SECTOR
      && r[0x0B..0x5A] == existing[0x0B..0x5A]
      && FromLE(r[l..l + 4]) + TWO32 * FromLE(r[h..h + 4]) == relative
  {
    hide Find, Splice, ToLE, FromLE, Pow256;
    PatternsApart(boot);
    var l, h := Find(boot, LOW_PATTERN).value, Find(boot, HIGH_PATTERN).value;
    var low, high := ToLE(relative % TWO32, 4), ToLE(relative / TWO32, 4);
    var c1 := Splice(boot, l, low);
    SpliceInside(boot, l, low);
    var code := Splice(c1, h, high);
    SpliceInside(c1, h, high);
    var e1 := Splice(existing, 0, Slice(code, 0, 0x0B));
    SpliceInside(existing, 0, Slice(code, 0, 0x0B));
    SpliceInside(e1, 0x5A, Slice(code, 0x5A, SECTOR - 0x5A));
    var r := Splice(e1, 0x5A, Slice(code, 0x5A, SECTOR - 0x5A));
    assert forall i :: 0x5A <= i < SECTOR ==> r[i] == code[i];
    assert r[l..l + 4] == low;
    assert r[h..h + 4] == high;
    PointerHalves(relative);
  }

  lemma PointerHalves(relative: nat)
    requires relative < Pow256(8)
    ensures FromLE(ToLE(relative % TWO32, 4)) + TWO32 * FromLE(ToLE(relative / TWO32, 4)) == relative
  {
    hide FromLE, ToLE;
    Pow256Values();
    assert Pow256(6) == 0x1_0000_0000_0000 && Pow256(8) == TWO32 * TWO32;
    FromToLE(relative % TWO32, 4);
    FromToLE(relative / TWO32, 4);
  }
}
