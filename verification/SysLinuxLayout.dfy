/** LDLINUX.SYS and the SYSLINUX boot sector after patching, byte by byte and at the offsets of the boot code. */
module SysLinuxLayout {
  import opened Bytes
  import opened SysLinux

  // ----- searching

  ghost predicate PatternAt(ba: seq<byte>, pattern: seq<byte>, k: nat) {
    k + |pattern| <= |ba| && ba[k..k + |pattern|] == pattern
  }

  ghost predicate FirstAt(ba: seq<byte>, pattern: seq<byte>, k: nat) {
    PatternAt(ba, pattern, k) && forall j: nat :: j < k ==> !PatternAt(ba, pattern, j)
  }

  lemma PatternShifts(ba: seq<byte>, pattern: seq<byte>, j: nat)
    requires ba != []
    ensures PatternAt(ba[1..], pattern, j) <==> PatternAt(ba, pattern, j + 1)
  {
    if j + 1 + |pattern| <= |ba| {
      assert ba[1..][j..j + |pattern|] == ba[j + 1..j + 1 + |pattern|];
    }
  }

  lemma FindStep(ba: seq<byte>, pattern: seq<byte>)
    requires pattern != [] && |pattern| <= |ba|
    ensures PatternAt(ba, pattern, 0) ==> Find(ba, pattern) == Some(0)
    ensures !PatternAt(ba, pattern, 0) && Find(ba[1..], pattern).Some? ==>
              Find(ba, pattern) == Some(Find(ba[1..], pattern).value + 1)
  {
    assert ba[..|pattern|] == ba[0..0 + |pattern|];
  }

  lemma {:induction false} FindIsFirst(ba: seq<byte>, pattern: seq<byte>, k: nat)
    requires pattern != [] && FirstAt(ba, pattern, k)
    ensures Find(ba, pattern) == Some(k)
    decreases k
  {
    hide Find, PatternAt;
    assert |pattern| <= |ba| by { PatternFits(ba, pattern, k); }
    FindStep(ba, pattern);
    if k > 0 {
      forall j: nat | j < k
        ensures PatternAt(ba[1..], pattern, j) <==> PatternAt(ba, pattern, j + 1)
      {
        PatternShifts(ba, pattern, j);
      }
      FindIsFirst(ba[1..], pattern, k - 1);
    }
  }

  lemma PatternFits(ba: seq<byte>, pattern: seq<byte>, k: nat)
    requires PatternAt(ba, pattern, k)
    ensures k + |pattern| <= |ba|
  {
  }

  /** The layout, from the first place of the bytes FE 02 B2 3E on: everything is found from there. */
  lemma LayoutIs(ba: seq<byte>, m: nat)
    requires FirstAt(ba, [0xFE, 0x02, 0xB2, 0x3E], m) && m + 24 <= |ba|
    ensures var epa := (ba[m + 22] as int) + 0x100 * (ba[m + 23] as int);
      epa + 14 <= |ba| ==>
        LayoutOf(ba) == Some(Layout(m + 8, epa,
                                    (ba[epa] as int) + 0x100 * (ba[epa + 1] as int),
                                    (ba[epa + 10] as int) + 0x100 * (ba[epa + 11] as int)))
  {
    hide Find, FromLE;
    FindIsFirst(ba, [0xFE, 0x02, 0xB2, 0x3E], m);
    TwoBytes(ba[m + 22..m + 24]);
    var epa := (ba[m + 22] as int) + 0x100 * (ba[m + 23] as int);
    if epa + 14 <= |ba| {
      TwoBytes(ba[epa..epa + 2]);
      TwoBytes(ba[epa + 10..epa + 12]);
    }
  }

  // ----- the patched file

  /** Everything that is written lies in the data, and nothing over anything else. */
  predicate Separate(l: Layout, size: nat, count: nat) {
    var end := (size + 511) / 512 * 512;
    && l.patch + 12 <= end && l.adv + 16 <= end && l.slots + 10 * count <= end
    && Apart(l.adv, 16, l.patch, 12) && Apart(l.slots, 10 * count, l.patch, 12) && Apart(l.adv, 16, l.slots, 10 * count)
  }

  /** An ADV without data: two signatures, and between them a checksum and zeros. */
  ghost predicate IsBlankAdv(b: seq<byte>) {
    && |b| == 512
    && b[..8] == [0xA5, 0x2F, 0x2D, 0x5A, 0x67, 0x17, 0x04, 0xA3]
    && (forall i :: 8 <= i < 508 ==> b[i] == 0)
    && b[508..] == [0x64, 0xBF, 0x28, 0xDD]
  }

  lemma Le32(v: nat, b: seq<byte>)
    requires |b| == 4
    requires v == (b[0] as int) + 0x100 * (b[1] as int) + 0x1_0000 * (b[2] as int) + 0x100_0000 * (b[3] as int)
    ensures ToLE(v, 4) == b
  {
    hide ToLE, FromLE;
    FourBytes(b);
    ToFromLE(b);
  }

  lemma BlankAdvIs()
    ensures IsBlankAdv(BlankAdv())
  {
    hide ToLE;
    Le32(0x5a2d2fa5, [0xA5, 0x2F, 0x2D, 0x5A]);
    Le32(0xa3041767, [0x67, 0x17, 0x04, 0xA3]);
    Le32(0xdd28bf64, [0x64, 0xBF, 0x28, 0xDD]);
    var b := BlankAdv();
    assert b[..8] == ToLE(0x5a2d2fa5, 4) + ToLE(0xa3041767, 4);
    assert b[508..] == ToLE(0xdd28bf64, 4);
  }

  /** No write touches this place. */
  predicate Untouched(l: Layout, count: nat, i: nat) {
    && !(l.patch <= i < l.patch + 12) && !(l.adv <= i < l.adv + 16)
    && !(l.slots <= i < l.slots + 10 * count)
  }

  /** What writes at separate places leave. */
  lemma SeparateWrites(ba: seq<byte>, l: Layout, count: nat, end: nat,
                       area: seq<byte>, advs: seq<byte>, slots: seq<byte>, blank: seq<byte>, sum: seq<byte>)
    requires |area| == 12 && |advs| == 16 && |slots| == 10 * count && |blank| == 512 && |sum| == 4 && |ba| == end + 1024
    requires l.patch + 12 <= end && l.adv + 16 <= end && l.slots + 10 * count <= end
    requires Apart(l.adv, 16, l.patch, 12) && Apart(l.slots, 10 * count, l.patch, 12)
    requires Apart(l.adv, 16, l.slots, 10 * count)
    ensures var b3 := Splice(Splice(Splice(ba, l.patch, area), l.adv, advs), l.slots, slots);
      var r := Splice(Splice(Splice(b3, end, blank), end + 512, blank), l.patch + 8, sum);
      && |r| == |ba|
      && r[l.patch..l.patch + 8] == area[..8]
      && r[l.adv..l.adv + 16] == advs
      && r[l.slots..l.slots + 10 * count] == slots
      && r[end..end + 512] == blank && r[end + 512..] == blank
      && forall i :: 0 <= i < end && Untouched(l, count, i) ==> r[i] == ba[i]
  {
    hide Splice;
    var b1 := Splice(ba, l.patch, area);
    var b2 := Splice(b1, l.adv, advs);
    var b3 := Splice(b2, l.slots, slots);
    SpliceInside(ba, l.patch, area);
    SpliceInside(b1, l.adv, advs);
    SpliceInside(b2, l.slots, slots);
    var b4 := Splice(b3, end, blank);
    SpliceInside(b3, end, blank);
    var b5 := Splice(b4, end + 512, blank);
    SpliceInside(b4, end + 512, blank);
    SpliceInside(b5, l.patch + 8, sum);
    var r := Splice(b5, l.patch + 8, sum);
    assert r[l.patch..l.patch + 8] == area[..8];
    assert r[l.adv..l.adv + 16] == advs;
    assert r[l.slots..l.slots + 10 * count] == slots;
    assert r[end..end + 512] == blank;
    assert r[end + 512..] == blank;
  }

  /** The parts of the patched file; every byte that is in none of them is as it was. */
  lemma Regions(ba: seq<byte>, relative: nat, size: nat, extents: seq<Extent>, l: Layout)
    requires size > 0 && |ba| == WrittenSize(size) && LayoutOf(ba) == Some(l) && Readable(l, |ba|, |extents|)
    requires Separate(l, size, |extents|) && Patched(ba, relative, size, extents).Some?
    ensures var r, end := Patched(ba, relative, size, extents).value, (size + 511) / 512 * 512;
      && |r| == |ba| == end + 1024
      && r[l.patch..l.patch + 8] == PatchAreaBytes(size)[..8]
      && r[l.adv..l.adv + 16] == AdvBytes(relative, size)
      && r[l.slots..l.slots + 10 * |extents|] == AllExtentBytes(extents)
      && r[end..end + 512] == BlankAdv() && r[end + 512..] == BlankAdv()
      && forall i :: 0 <= i < end && Untouched(l, |extents|, i) ==> r[i] == ba[i]
  {
    hide Splice, ToLE, FromLE, AllExtentBytes, AdvBytes, PatchAreaBytes, Prepared, LayoutOf, LdlDwords, BlankAdv, Find,
      CheckSum, PaddedSize, Readable, Patched, Untouched, Apart;
    Sizes(size);
    PaddedToSectors(size);
    PatchedIs(ba, relative, size, extents, l);
    PreparedInLayout(ba, relative, size, extents, l);
    var b := Prepared(ba, l.patch, relative, size, extents).value.1;
    SeparateWrites(ba, l, |extents|, (size + 511) / 512 * 512, PatchAreaBytes(size), AdvBytes(relative, size),
                   AllExtentBytes(extents), BlankAdv(), ToLE(CheckSum(b, LdlDwords(size)), 4));
  }

  // ----- what the parts say

  /** Sectors of data, sectors of ADVs, dwords that are summed: two, two and four bytes. */
  lemma PatchAreaIs(size: nat, b: seq<byte>)
    requires |b| == 8 && b == PatchAreaBytes(size)[..8]
    requires (size + 511) / 512 <= 0xFFFF && (size + 3) / 4 < TWO32
    ensures FromLE(b[0..2]) == (size + 511) / 512 && b[2] == 2 && b[3] == 0 && FromLE(b[4..8]) == (size + 3) / 4
  {
    hide ToLE, FromLE, PaddedSize;
    PaddedToSectors(size);
    PaddedToDwords(size);
    assert DataSectors(size) == (size + 511) / 512 && LdlDwords(size) == (size + 3) / 4;
    Pow256Values();
    FromToLE(DataSectors(size), 2);
    FromToLE(LdlDwords(size), 4);
    assert b[0..2] == ToLE(DataSectors(size), 2) && b[2..4] == ToLE(2, 2) && b[4..8] == ToLE(LdlDwords(size), 4);
    ToFromLE([2, 0]);
    TwoBytes([2, 0]);
    assert ToLE(2, 2) == [2, 0];
    assert b[2] == b[2..4][0] && b[3] == b[2..4][1];
  }

  /** The two sectors behind the data, counted from the start of the partition: eight bytes each. */
  lemma AdvBytesAre(relative: nat, size: nat)
    requires relative + (size + 511) / 512 + 1 < Pow256(8)
    ensures FromLE(AdvBytes(relative, size)[..8]) == relative + (size + 511) / 512
    ensures FromLE(AdvBytes(relative, size)[8..]) == relative + (size + 511) / 512 + 1
  {
    hide ToLE, FromLE, Pow256, PaddedSize;
    PaddedToSectors(size);
    assert AdvSector(relative, size) == relative + (size + 511) / 512;
    var b := AdvBytes(relative, size);
    assert b[..8] == ToLE(AdvSector(relative, size), 8) && b[8..] == ToLE(AdvSector(relative, size) + 1, 8);
    FromToLE(AdvSector(relative, size), 8);
    FromToLE(AdvSector(relative, size) + 1, 8);
  }

  /** Slot k holds extent k: eight bytes of sector number and two of length. */
  lemma {:induction false} ExtentSlot(extents: seq<Extent>, k: nat)
    requires k < |extents| && AllPackable(extents)
    ensures var b := AllExtentBytes(extents);
      FromLE(b[10 * k..10 * k + 8]) == extents[k].lba && FromLE(b[10 * k + 8..10 * k + 10]) == extents[k].length
    decreases |extents|
  {
    hide ToLE, FromLE, Pow256;
    var b, e, rest := AllExtentBytes(extents), extents[0], AllExtentBytes(extents[1..]);
    assert Packable(e);
    if k == 0 {
      assert b[0..8] == ToLE(e.lba, 8) && b[8..10] == ToLE(e.length, 2);
      FromToLE(e.lba, 8);
      FromToLE(e.length, 2);
    } else {
      assert forall i :: 0 <= i < |rest| ==> b[10 + i] == rest[i];
      assert b[10 * k..10 * k + 8] == rest[10 * (k - 1)..10 * (k - 1) + 8];
      assert b[10 * k + 8..10 * k + 10] == rest[10 * (k - 1) + 8..10 * (k - 1) + 10];
      assert forall i :: 0 <= i < |extents[1..]| ==> Packable(extents[1..][i]) by {
        assert forall i :: 0 <= i < |extents[1..]| ==> extents[1..][i] == extents[i + 1];
      }
      ExtentSlot(extents[1..], k - 1);
    }
  }

  lemma ReadableParts(l: Layout, length: nat, count: nat)
    requires Readable(l, length, count)
    ensures l.patch + 16 <= length && l.adv + 16 <= length && l.slots + 10 * count <= length
  {
  }

  lemma PatchedIs(ba: seq<byte>, relative: nat, size: nat, extents: seq<Extent>, l: Layout)
    requires LayoutOf(ba) == Some(l) && Patched(ba, relative, size, extents).Some?
    ensures Prepared(ba, l.patch, relative, size, extents).Some?
    ensures var b := Prepared(ba, l.patch, relative, size, extents).value.1;
      && 4 * LdlDwords(size) <= |b|
      && Patched(ba, relative, size, extents).value == Splice(b, l.patch + 8, ToLE(CheckSum(b, LdlDwords(size)), 4))
  {
    hide Prepared, Find, Splice, CheckSum, ToLE, LdlDwords;
  }

  /**
   The patched LDLINUX.SYS of a file whose parts are separate, at the places it names: the patch area with its
   counts, the sectors of the ADVs, one slot for each extent, two blank ADVs behind the data, and nothing else
   changed but the checksum.
   */
  lemma PatchedFile(ba: seq<byte>, relative: nat, size: nat, extents: seq<Extent>, l: Layout, k: nat)
    requires size > 0 && |ba| == WrittenSize(size) && LayoutOf(ba) == Some(l) && Readable(l, |ba|, |extents|)
    requires Separate(l, size, |extents|) && Patched(ba, relative, size, extents).Some?
    requires k < |extents| && AllPackable(extents)
    ensures var r, end := Patched(ba, relative, size, extents).value, (size + 511) / 512 * 512;
      && |r| == |ba| == end + 1024
      && FromLE(r[l.patch..l.patch + 2]) == (size + 511) / 512
      && r[l.patch + 2] == 2 && r[l.patch + 3] == 0
      && FromLE(r[l.patch + 4..l.patch + 8]) == (size + 3) / 4
      && FromLE(r[l.adv..l.adv + 8]) == relative + (size + 511) / 512
      && FromLE(r[l.adv + 8..l.adv + 16]) == relative + (size + 511) / 512 + 1
      && FromLE(r[l.slots + 10 * k..l.slots + 10 * k + 8]) == extents[k].lba
      && FromLE(r[l.slots + 10 * k + 8..l.slots + 10 * k + 10]) == extents[k].length
      && IsBlankAdv(r[end..end + 512]) && IsBlankAdv(r[end + 512..])
      && forall i :: 0 <= i < end && Untouched(l, |extents|, i) ==> r[i] == ba[i]
  {
    hide Patched, LayoutOf, Readable, FromLE, ToLE, Pow256, AllExtentBytes, AdvBytes, PatchAreaBytes, Separate,
      BlankAdv, IsBlankAdv, Untouched, AllPackable, WrittenSize;
    NumbersFit(ba, relative, size, extents, l);
    Regions(ba, relative, size, extents, l);
    SeparateParts(l, size, |extents|);
    var r := Patched(ba, relative, size, extents).value;
    PatchAreaIs(size, r[l.patch..l.patch + 8]);
    AdvBytesAre(relative, size);
    ExtentSlot(extents, k);
    BlankAdvIs();
    Part(r, l.patch, 8, 0, 2);
    Part(r, l.patch, 8, 4, 8);
    Part(r, l.adv, 16, 0, 8);
    Part(r, l.adv, 16, 8, 16);
    Part(r, l.slots, 10 * |extents|, 10 * k, 10 * k + 8);
    Part(r, l.slots, 10 * |extents|, 10 * k + 8, 10 * k + 10);
  }

  lemma Part(r: seq<byte>, at: nat, n: nat, from: nat, to: nat)
    requires at + n <= |r| && from <= to <= n
    ensures r[at..at + n][from..to] == r[at + from..at + to]
  {
    var part := r[at..at + n][from..to];
    forall i | 0 <= i < to - from
      ensures part[i] == r[at + from..at + to][i]
    {
      assert part[i] == r[at..at + n][from + i];
    }
  }

  lemma SeparateParts(l: Layout, size: nat, count: nat)
    requires Separate(l, size, count)
    ensures var end := (size + 511) / 512 * 512;
      l.patch + 12 <= end && l.adv + 16 <= end && l.slots + 10 * count <= end
  {
  }

  lemma NumbersFit(ba: seq<byte>, relative: nat, size: nat, extents: seq<Extent>, l: Layout)
    requires LayoutOf(ba) == Some(l) && Patched(ba, relative, size, extents).Some?
    ensures (size + 511) / 512 <= 0xFFFF && (size + 3) / 4 < TWO32 && relative + (size + 511) / 512 + 1 < Pow256(8)
  {
    hide Find, Splice, CheckSum, ToLE, FromLE, Pow256, PaddedSize;
    PaddedToSectors(size);
    PaddedToDwords(size);
    PatchedIs(ba, relative, size, extents, l);
  }

  // ----- the boot sector

  /**
   The SYSLINUX boot sector, where EF BE AD DE and CE FA ED FE are first found in its code: the sector number of
   ldlinux.sys in their place, low half and high half, the BIOS parameter block of the partition, and SYSLINUX's
   own bytes everywhere else.
   */
  lemma BootSectorIs(existing: seq<byte>, boot: seq<byte>, relative: nat, low: nat, high: nat)
    requires |existing| == 512 && |boot| == 512 && relative < Pow256(8)
    requires FirstAt(boot, [0xEF, 0xBE, 0xAD, 0xDE], low) && FirstAt(boot, [0xCE, 0xFA, 0xED, 0xFE], high)
    requires low >= 0x5A && high >= 0x5A && low + 4 <= 512 && high + 4 <= 512
    ensures PatchedBootSector(existing, boot, relative).Some?
    ensures var r := PatchedBootSector(existing, boot, relative).value;
      && |r| == 512
      && FromLE(r[low..low + 4]) + 0x1_0000_0000 * FromLE(r[high..high + 4]) == relative
      && r[0x0B..0x5A] == existing[0x0B..0x5A]
      && forall i :: 0 <= i < 512 && !(0x0B <= i < 0x5A) && !(low <= i < low + 4) && !(high <= i < high + 4) ==>
           r[i] == boot[i]
  {
    hide Find, Splice, ToLE, FromLE, Pow256;
    FindIsFirst(boot, [0xEF, 0xBE, 0xAD, 0xDE], low);
    FindIsFirst(boot, [0xCE, 0xFA, 0xED, 0xFE], high);
    BootPointerArrives(existing, boot, relative);
    var c1 := Splice(boot, low, ToLE(relative % TWO32, 4));
    SpliceInside(boot, low, ToLE(relative % TWO32, 4));
    var code := Splice(c1, high, ToLE(relative / TWO32, 4));
    SpliceInside(c1, high, ToLE(relative / TWO32, 4));
    var e1 := Splice(existing, 0, Slice(code, 0, 0x0B));
    SpliceInside(existing, 0, Slice(code, 0, 0x0B));
    SpliceInside(e1, 0x5A, Slice(code, 0x5A, 512 - 0x5A));
  }

  /** Sector numbers count from the start of the partition; a file in front of it is an exception. */
  lemma CountedFromThePartition(image: seq<byte>, boot: seq<byte>, partition: nat, ldlinux: nat)
    requires |boot| == 512 && 512 * partition + 512 <= |image|
    ensures ldlinux < partition ==> NewBootSector(image, boot, partition, ldlinux) == None
    ensures ldlinux >= partition ==>
      NewBootSector(image, boot, partition, ldlinux)
        == PatchedBootSector(image[512 * partition..512 * partition + 512], boot, ldlinux - partition)
  {
    hide PatchedBootSector;
  }
}
