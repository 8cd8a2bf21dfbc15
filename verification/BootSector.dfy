/** Boot sector patching, FAT32 boot sector backup and MBR activation (installer/util_disk.c). */
module BootSector {
  import opened Bytes

  const SECTOR_SIZE := 512
  const DISK_MBR_CODE_LENGTH := 446

  type Sectors = seq<seq<byte>>

  /** Sector number, offset and replacement data: one entry of a modifier list. */
  datatype Modifier = Modifier(sector: nat, offset: nat, data: seq<byte>)

  /** A call returns its flag, or a failed assertion ends the program. */
  datatype Outcome = Returned(ok: bool) | Aborted

  ghost predicate WellFormed(s: Sectors) {
    forall i :: 0 <= i < |s| ==> |s[i]| == SECTOR_SIZE
  }

  ghost predicate InBounds(mods: seq<Modifier>, count: nat) {
    forall i :: 0 <= i < |mods| ==> mods[i].sector < count && mods[i].offset + |mods[i].data| <= SECTOR_SIZE
  }

  function Patch(buf: seq<byte>, offset: nat, data: seq<byte>): (r: seq<byte>)
    requires offset + |data| <= |buf|
    ensures |r| == |buf|
    ensures forall i :: 0 <= i < |buf| ==> r[i] == if offset <= i < offset + |data| then data[i - offset] else buf[i]
  {
    buf[..offset] + data + buf[offset + |data|..]
  }

  /** Applying each modifier directly to the partition, in turn. */
  ghost function ApplyAll(s: Sectors, mods: seq<Modifier>): (r: Sectors)
    requires WellFormed(s) && InBounds(mods, |s|)
    ensures WellFormed(r) && |r| == |s|
    decreases |mods|
  {
    if mods == [] then s
    else
      var before := ApplyAll(s, mods[..|mods| - 1]);
      var m := mods[|mods| - 1];
      before[m.sector := Patch(before[m.sector], m.offset, m.data)]
  }

  lemma ApplyOneMore(s: Sectors, mods: seq<Modifier>, i: nat)
    requires WellFormed(s) && InBounds(mods, |s|) && i < |mods|
    ensures var before := ApplyAll(s, mods[..i]);
      ApplyAll(s, mods[..i + 1])
          == before[mods[i].sector := Patch(before[mods[i].sector], mods[i].offset, mods[i].data)]
  {
    assert mods[..i + 1][..i] == mods[..i];
  }

  lemma ApplyNone(s: Sectors, mods: seq<Modifier>)
    requires WellFormed(s) && InBounds(mods, |s|)
    ensures ApplyAll(s, mods[..0]) == s
  {
  }

  /** A partition or disk, read and written by sector. Any access may fail; a failed write changes nothing. */
  class Device {
    var sectors: Sectors
    /** Accesses that failed so far. */
    ghost var failures: nat

    ghost predicate Valid()
      reads this
    {
      WellFormed(sectors)
    }

    constructor (s: Sectors)
      requires WellFormed(s)
      ensures Valid() && sectors == s && failures == 0
    {
      sectors, failures := s, 0;
    }

    /** Reading beyond the end of the device fails. */
    method ReadSectorAllocate(i: nat) returns (buf: array?<byte>)
      requires Valid()
      modifies this`failures
      ensures failures == old(failures) + (if buf == null then 1 else 0)
      ensures buf != null ==> i < |sectors| && fresh(buf) && buf[..] == sectors[i]
    {
      var works: bool := *;
      if !works || i >= |sectors| {
        failures := failures + 1;
        return null;
      }
      var bytes := sectors[i];
      buf := new byte[SECTOR_SIZE](j requires 0 <= j < |bytes| => bytes[j]);
      assert buf[..] == bytes;
    }

    /** Writing beyond the end of the device fails. */
    method WriteSector(i: nat, buf: array<byte>) returns (ok: bool)
      requires Valid() && buf.Length == SECTOR_SIZE
      modifies this
      ensures Valid() && failures == old(failures) + (if ok then 0 else 1)
      ensures ok ==> i < |old(sectors)| && sectors == old(sectors)[i := buf[..]]
      ensures !ok ==> sectors == old(sectors)
    {
      ok := *;
      ok := ok && i < |sectors|;
      if ok {
        sectors := sectors[i := buf[..]];
      } else {
        failures := failures + 1;
      }
    }
  }

  method CopyInto(buf: array<byte>, offset: nat, data: seq<byte>)
    requires offset + |data| <= buf.Length
    modifies buf
    ensures buf[..] == Patch(old(buf[..]), offset, data)
  {
    forall j | 0 <= j < |data| {
      buf[offset + j] := data[j];
    }
    assert buf[..] == Patch(old(buf[..]), offset, data);
  }

  /**
   util_modifyBootSector: one cached sector, written back when the list moves to another sector. In any
   sector order, with repeats, the partition ends up as if a prefix of the list had been applied directly,
   and as if all of it had been when true is returned.
   */
  method ModifyBootSector(part: Device, mods: seq<Modifier>) returns (r: Outcome)
    requires part.Valid() && InBounds(mods, |part.sectors|)
    modifies part
    ensures part.Valid()
    ensures r == Returned(true) <==> part.failures == old(part.failures)
    ensures r == Returned(true) ==> part.sectors == ApplyAll(old(part.sectors), mods)
    ensures exists k :: 0 <= k <= |mods| && part.sectors == ApplyAll(old(part.sectors), mods[..k])
  {
    hide ApplyAll, Patch;
    var sector: array?<byte> := null;
    var oldSectorIndex: nat := 0;
    var success := true;
    var i := 0;
    ghost var s0 := part.sectors;
    ghost var flushed := 0;
    ApplyNone(s0, mods);
    while i < |mods|
      invariant 0 <= flushed <= i <= |mods| && part.Valid() && success && part.failures == old(part.failures)
      invariant part.sectors == ApplyAll(s0, mods[..flushed])
      invariant sector == null ==> i == flushed
      invariant sector != null ==> fresh(sector) && oldSectorIndex < |s0| && sector.Length == SECTOR_SIZE
      invariant sector != null ==> ApplyAll(s0, mods[..i]) == part.sectors[oldSectorIndex := sector[..]]
    {
      var mod := mods[i];
      if sector != null && mod.sector != oldSectorIndex {
        success := part.WriteSector(oldSectorIndex, sector);
        sector := null;
        if success {
          flushed := i;
        }
      }
      if sector == null {
        sector := part.ReadSectorAllocate(mod.sector);
        oldSectorIndex := mod.sector;
        success := success && sector != null;
      }
      if !success {
        return Aborted;
      }
      ghost var before := sector[..];
      assert ApplyAll(s0, mods[..i]) == part.sectors[oldSectorIndex := before];
      CopyInto(sector, mod.offset, mod.data);
      ApplyOneMore(s0, mods, i);
      i := i + 1;
    }
    assert mods[..|mods|] == mods;
    if sector != null {
      success := part.WriteSector(oldSectorIndex, sector);
    }
    r := Returned(success);
  }

  // ----- FAT32 backup

  function BackupIndex(sector0: seq<byte>): (b: nat)
    requires |sector0| == SECTOR_SIZE
    ensures b == (sector0[0x32] as int) + 0x100 * (sector0[0x33] as int)
  {
    TwoBytes(sector0[0x32..0x34]);
    FromLE(sector0[0x32..0x34])
  }

  /** Sectors 0, 1 and 2 copied b sectors on, one after the other. */
  function Backup(s: Sectors, b: nat, n: nat): (r: Sectors)
    requires n <= 3 && b + n <= |s| && n <= |s|
    ensures |r| == |s|
    decreases n
  {
    if n == 0 then s
    else
      var before := Backup(s, b, n - 1);
      before[n - 1 + b := before[n - 1]]
  }

  /** util_modifyAndwriteBootSectorToPartition */
  method ModifyAndWriteBootSector(part: Device, isFat32: bool, mods: seq<Modifier>) returns (r: Outcome)
    requires part.Valid() && InBounds(mods, |part.sectors|)
    modifies part
    ensures r == Returned(true) <==> part.failures == old(part.failures)
    ensures r == Returned(true) && !isFat32 ==> part.sectors == ApplyAll(old(part.sectors), mods)
    ensures !isFat32 ==> exists k :: 0 <= k <= |mods| && part.sectors == ApplyAll(old(part.sectors), mods[..k])
    ensures r == Returned(true) && isFat32 ==>
      && 3 <= |old(part.sectors)|
      && var patched := ApplyAll(old(part.sectors), mods);
      var b := BackupIndex(patched[0]);
      b + 3 <= |patched| && part.sectors == Backup(patched, b, 3)
  {
    var modified := ModifyBootSector(part, mods);
    if modified.Aborted? {
      return Aborted;
    }
    var result := modified.ok;
    if result && isFat32 {
      ghost var patched := part.sectors;
      var backupSectorIndex: nat := 0;
      var i := 0;
      while i < 3
        invariant i <= 3 && part.Valid() && |part.sectors| == |patched| && (i == 0 ==> result)
        invariant i <= |patched| && (i > 0 ==> backupSectorIndex == BackupIndex(patched[0]))
        invariant i > 0 && result ==> backupSectorIndex + i <= |patched|
        invariant result <==> part.failures == old(part.failures)
        invariant part.failures >= old(part.failures)
        invariant result ==> part.sectors == if i == 0 then patched else Backup(patched, backupSectorIndex, i)
      {
        var sector := part.ReadSectorAllocate(i);
        if sector == null {
          return Aborted;
        }
        if i == 0 {
          backupSectorIndex := FromLE(sector[0x32..0x34]);
          assert sector[0x32..0x34] == sector[..][0x32..0x34];
        }
        var ok := part.WriteSector(i + backupSectorIndex, sector);
        result := result && ok;
        i := i + 1;
      }
    }
    r := Returned(result);
  }

  /** Each of the first three sectors equals its copy, whatever the backup index is. */
  lemma BackupEqualsOriginal(s: Sectors, b: nat)
    requires b + 3 <= |s|
    ensures var r := Backup(s, b, 3); r[0] == r[b] && r[1] == r[b + 1] && r[2] == r[b + 2]
  {
    var r1 := Backup(s, b, 1);
    var r2 := Backup(s, b, 2);
    assert r1 == s[b := s[0]];
    assert r2 == r1[b + 1 := r1[1]];
    assert Backup(s, b, 3) == r2[b + 2 := r2[2]];
  }

  /** For one partition: what the backup leaves of the boot sectors. */
  lemma BackupKeepsThisPartition(s: Sectors, b: nat)
    requires b + 3 <= |s|
    ensures Backup(s, b, 3)[..3] == s[..3] <==> (b == 1 ==> s[0] == s[1] == s[2]) && (b == 2 ==> s[0] == s[2])
  {
    hide Backup;
    BackupSteps(s, b);
    var r := Backup(s, b, 3);
    assert r[..3] == s[..3] <==> r[0] == s[0] && r[1] == s[1] && r[2] == s[2] by {
      assert forall i :: 0 <= i < 3 ==> r[..3][i] == r[i] && s[..3][i] == s[i];
    }
  }

  /** Whatever partition names b as the place of its backup, its boot sectors stay as they are. */
  ghost predicate BackupKeeps(b: nat) {
    forall s: Sectors :: WellFormed(s) && b + 3 <= |s| && BackupIndex(s[0]) == b ==> Backup(s, b, 3)[..3] == s[..3]
  }

  /** A first sector that names b, and zeros from there on. */
  function Naming(b: byte): (sector: seq<byte>)
    ensures |sector| == SECTOR_SIZE && BackupIndex(sector) == b
  {
    var sector := Repeat<byte>(0x32, 0) + [b, 0] + Repeat<byte>(SECTOR_SIZE - 0x34, 0);
    assert sector[0x32..0x34] == [b, 0] && [b, 0][1..] == [0] && [0][1..] == [];
    assert FromLE([b, 0]) == b + 256 * FromLE([0]);
    sector
  }

  /** The backup leaves the three boot sectors of every partition as they are exactly for index 0 or from 3 on. */
  lemma BackupKeepsBootSectorsIff(b: nat)
    ensures BackupKeeps(b) <==> b == 0 || b >= 3
  {
    hide Backup, BackupIndex, Naming;
    forall s: Sectors | b + 3 <= |s| && (b == 0 || b >= 3)
      ensures Backup(s, b, 3)[..3] == s[..3]
    {
      BackupKeepsThisPartition(s, b);
    }
    if b == 1 || b == 2 {
      var zero := Repeat<byte>(SECTOR_SIZE, 0);
      var s: Sectors := [Naming(b), zero, zero, zero, zero];
      NamesAreNotZero(b, zero);
      BackupKeepsThisPartition(s, b);
    }
  }

  lemma NamesAreNotZero(b: byte, zero: seq<byte>)
    requires b > 0 && zero == Repeat<byte>(SECTOR_SIZE, 0)
    ensures Naming(b) != zero
  {
    assert Naming(b)[0x32] == b && zero[0x32] == 0;
  }

  lemma BackupSteps(s: Sectors, b: nat)
    requires b + 3 <= |s|
    ensures var r1 := s[b := s[0]];
      var r2 := r1[b + 1 := r1[1]];
      Backup(s, b, 3) == r2[b + 2 := r2[2]]
  {
    var r1 := Backup(s, b, 1);
    var r2 := Backup(s, b, 2);
    assert r1 == s[b := s[0]];
    assert r2 == r1[b + 1 := r1[1]];
  }

  // ----- the Windows 98 modifier lists

  /** The shape of the FAT32 list: only offsets and lengths matter here. */
  ghost predicate Fat32List(mods: seq<Modifier>) {
    && |mods| == 5
    && mods[0].sector == 0 && mods[0].offset == 0 && |mods[0].data| == 3
    && mods[1].sector == 0 && mods[1].offset == 3 && |mods[1].data| == 8
    && mods[2].sector == 0 && mods[2].offset == 0x5A && |mods[2].data| == 0x1A6
    && mods[3].sector == 1 && mods[3].offset == 0x1FE && |mods[3].data| == 2
    && mods[4].sector == 2 && mods[4].offset == 0 && |mods[4].data| == 0x200
  }

  ghost predicate Fat16List(mods: seq<Modifier>) {
    && |mods| == 3
    && mods[0].sector == 0 && mods[0].offset == 0 && |mods[0].data| == 3
    && mods[1].sector == 0 && mods[1].offset == 3 && |mods[1].data| == 8
    && mods[2].sector == 0 && mods[2].offset == 0x3E && |mods[2].data| == 0x1C2
  }

  /** Bytes outside every modifier of their sector survive the whole list. */
  lemma {:induction false} UntouchedBytes(s: Sectors, mods: seq<Modifier>, sector: nat, i: nat)
    requires WellFormed(s) && InBounds(mods, |s|) && sector < |s| && i < SECTOR_SIZE
    requires forall k :: 0 <= k < |mods| && mods[k].sector == sector ==>
               !(mods[k].offset <= i < mods[k].offset + |mods[k].data|)
    ensures ApplyAll(s, mods)[sector][i] == s[sector][i]
    decreases |mods|
  {
    if mods != [] {
      UntouchedBytes(s, mods[..|mods| - 1], sector, i);
    }
  }

  lemma UntouchedRange(s: Sectors, mods: seq<Modifier>, sector: nat, lo: nat, hi: nat)
    requires WellFormed(s) && InBounds(mods, |s|) && sector < |s| && lo <= hi <= SECTOR_SIZE
    requires forall k :: 0 <= k < |mods| && mods[k].sector == sector ==>
               hi <= mods[k].offset || mods[k].offset + |mods[k].data| <= lo
    ensures ApplyAll(s, mods)[sector][lo..hi] == s[sector][lo..hi]
  {
    hide ApplyAll;
    forall i | lo <= i < hi
      ensures ApplyAll(s, mods)[sector][i] == s[sector][i]
    {
      UntouchedBytes(s, mods, sector, i);
    }
  }

  lemma UntouchedSectors(s: Sectors, mods: seq<Modifier>, from: nat)
    requires WellFormed(s) && InBounds(mods, |s|) && forall k :: 0 <= k < |mods| ==> mods[k].sector < from
    ensures forall j :: from <= j < |s| ==> ApplyAll(s, mods)[j] == s[j]
  {
    hide ApplyAll;
    forall j | from <= j < |s|
      ensures ApplyAll(s, mods)[j] == s[j]
    {
      UntouchedRange(s, mods, j, 0, SECTOR_SIZE);
      assert ApplyAll(s, mods)[j][0..SECTOR_SIZE] == ApplyAll(s, mods)[j] && s[j][0..SECTOR_SIZE] == s[j];
    }
  }

  lemma SameIndex(a: seq<byte>, b: seq<byte>)
    requires |a| == |b| == SECTOR_SIZE && a[0x0B..0x5A] == b[0x0B..0x5A]
    ensures BackupIndex(a) == BackupIndex(b)
  {
    assert a[0x32] == a[0x0B..0x5A][0x27] && a[0x33] == a[0x0B..0x5A][0x28];
    assert b[0x32] == b[0x0B..0x5A][0x27] && b[0x33] == b[0x0B..0x5A][0x28];
    assert a[0x32..0x34] == [a[0x32], a[0x33]] == b[0x32..0x34];
  }

  lemma Fat32Sector0(s: Sectors, mods: seq<Modifier>)
    requires WellFormed(s) && Fat32List(mods) && InBounds(mods, |s|) && 3 <= |s|
    ensures ApplyAll(s, mods)[0][0x0B..0x5A] == s[0][0x0B..0x5A]
  {
    hide ApplyAll;
    UntouchedRange(s, mods, 0, 0x0B, 0x5A);
  }

  lemma Fat32OtherSectors(s: Sectors, mods: seq<Modifier>)
    requires WellFormed(s) && Fat32List(mods) && InBounds(mods, |s|) && 3 <= |s|
    ensures ApplyAll(s, mods)[1][..0x1FE] == s[1][..0x1FE]
    ensures forall j :: 3 <= j < |s| ==> ApplyAll(s, mods)[j] == s[j]
  {
    hide ApplyAll;
    UntouchedRange(s, mods, 1, 0, 0x1FE);
    UntouchedSectors(s, mods, 3);
  }

  /**
   The FAT32 list leaves the BIOS parameter block (bytes 0x0B to 0x59 of sector 0, and with it the backup
   index), all of FSInfo but its signature, and every other sector alone.
   */
  lemma Fat32ListKeeps(s: Sectors, mods: seq<Modifier>)
    requires WellFormed(s) && Fat32List(mods) && InBounds(mods, |s|) && 3 <= |s|
    ensures var r := ApplyAll(s, mods);
      && r[0][0x0B..0x5A] == s[0][0x0B..0x5A]
      && BackupIndex(r[0]) == BackupIndex(s[0])
      && r[1][..0x1FE] == s[1][..0x1FE]
      && forall j :: 3 <= j < |s| ==> r[j] == s[j]
  {
    hide ApplyAll, BackupIndex, Fat32List;
    Fat32Sector0(s, mods);
    Fat32OtherSectors(s, mods);
    SameIndex(ApplyAll(s, mods)[0], s[0]);
  }

  /** The FAT16 list leaves bytes 0x0B to 0x3D of sector 0 and every other sector alone. */
  lemma Fat16ListKeeps(s: Sectors, mods: seq<Modifier>)
    requires WellFormed(s) && Fat16List(mods) && InBounds(mods, |s|) && 1 <= |s|
    ensures var r := ApplyAll(s, mods);
      r[0][0x0B..0x3E] == s[0][0x0B..0x3E] && forall j :: 1 <= j < |s| ==> r[j] == s[j]
  {
    hide ApplyAll;
    UntouchedRange(s, mods, 0, 0x0B, 0x3E);
    UntouchedSectors(s, mods, 1);
  }

  /** What the FAT32 preparation leaves behind, from one end to the other. */
  lemma Fat32Prepared(s: Sectors, mods: seq<Modifier>)
    requires WellFormed(s) && Fat32List(mods) && InBounds(mods, |s|) && 3 <= |s|
    requires BackupIndex(s[0]) >= 3 && BackupIndex(s[0]) + 3 <= |s|
    ensures var b := BackupIndex(s[0]);
      var patched := ApplyAll(s, mods);
      var r := Backup(patched, b, 3);
      && BackupIndex(patched[0]) == b
      && r[..3] == patched[..3] && r[b..b + 3] == patched[..3]
      && r[0][0x0B..0x5A] == s[0][0x0B..0x5A] && r[1][..0x1FE] == s[1][..0x1FE]
      && forall j :: 3 <= j < |s| && !(b <= j < b + 3) ==> r[j] == s[j]
  {
    hide ApplyAll;
    Fat32ListKeeps(s, mods);
    BackupSteps(ApplyAll(s, mods), BackupIndex(s[0]));
  }

  // ----- MBR

  function FlagOffset(entry: nat): nat {
    DISK_MBR_CODE_LENGTH + 16 * entry
  }

  /** The first sector with partition `index` (1 to 4) as the only active one. */
  ghost predicate OnlyActive(sector: seq<byte>, index: nat)
    requires |sector| == SECTOR_SIZE
  {
    && sector[0x1BE] == (if index == 1 then 0x80 else 0)
    && sector[0x1CE] == (if index == 2 then 0x80 else 0)
    && sector[0x1DE] == (if index == 3 then 0x80 else 0)
    && sector[0x1EE] == (if index == 4 then 0x80 else 0)
  }

  /** The first byte of each of the four entries. */
  predicate IsFlag(i: int) {
    i == 0x1BE || i == 0x1CE || i == 0x1DE || i == 0x1EE
  }

  /** util_setPartitionActive; an index outside 1 to 4 is fatal. */
  method SetPartitionActive(disk: Device, index: nat) returns (r: Outcome)
    requires disk.Valid()
    modifies disk
    ensures disk.Valid()
    ensures r.Aborted? <==> !(0 < index < 5)
    ensures r == Returned(true) <==> 0 < index < 5 && disk.failures == old(disk.failures)
    ensures r != Returned(true) ==> disk.sectors == old(disk.sectors)
    ensures r == Returned(true) ==>
      && 0 < |disk.sectors| == |old(disk.sectors)| && disk.sectors[1..] == old(disk.sectors)[1..]
      && OnlyActive(disk.sectors[0], index)
      && forall i :: 0 <= i < SECTOR_SIZE && !IsFlag(i) ==> disk.sectors[0][i] == old(disk.sectors)[0][i]
  {
    if !(0 < index < 5) {
      return Aborted;
    }
    var firstSector := disk.ReadSectorAllocate(0);
    if firstSector == null {
      return Returned(false);
    }
    ghost var before := firstSector[..];
    var i := 0;
    while i < 4
      invariant 0 <= i <= 4 && disk.Valid() && disk.sectors == old(disk.sectors)
      invariant disk.failures == old(disk.failures)
      invariant forall k :: 0 <= k < i ==> firstSector[FlagOffset(k)] == 0
      invariant forall j :: 0 <= j < SECTOR_SIZE && !IsFlag(j) ==> firstSector[j] == before[j]
    {
      firstSector[FlagOffset(i)] := 0;
      i := i + 1;
    }
    assert firstSector[FlagOffset(0)] == firstSector[FlagOffset(1)] == firstSector[FlagOffset(2)] == 0;
    assert firstSector[FlagOffset(3)] == 0;
    firstSector[FlagOffset(index - 1)] := 0x80;
    var ok := disk.WriteSector(0, firstSector);
    r := Returned(ok);
  }

  /** util_writeMBRToDrive */
  method WriteMbrToDrive(disk: Device, newCode: seq<byte>) returns (ok: bool)
    requires disk.Valid() && |newCode| >= DISK_MBR_CODE_LENGTH
    modifies disk
    ensures disk.Valid() && (ok <==> disk.failures == old(disk.failures))
    ensures ok ==> 0 < |disk.sectors| == |old(disk.sectors)|
    ensures ok ==>
      disk.sectors == old(disk.sectors)[0 := newCode[..0x1BE] + old(disk.sectors)[0][0x1BE..]]
    ensures !ok ==> disk.sectors == old(disk.sectors)
  {
    var existing := disk.ReadSectorAllocate(0);
    if existing == null {
      return false;
    }
    CopyInto(existing, 0, newCode[..DISK_MBR_CODE_LENGTH]);
    assert existing[..] == newCode[..DISK_MBR_CODE_LENGTH] + disk.sectors[0][DISK_MBR_CODE_LENGTH..];
    ok := disk.WriteSector(0, existing);
  }

  /**
   qi_installWriteMbrSetActive: afterwards the code is the new code, the chosen partition is the only active
   one, and every other byte of the table, the signature and the rest of the disk is as it was.
   */
  method WriteMbrSetActive(disk: Device, newCode: seq<byte>, index: nat) returns (r: Outcome)
    requires disk.Valid() && |newCode| >= DISK_MBR_CODE_LENGTH
    modifies disk
    ensures r == Returned(true) <==> 0 < index < 5 && disk.failures == old(disk.failures)
    ensures r == Returned(true) ==>
      && 0 < |disk.sectors| == |old(disk.sectors)| && disk.sectors[1..] == old(disk.sectors)[1..]
      && |disk.sectors[0]| == 0x200
      && disk.sectors[0][..0x1BE] == newCode[..0x1BE]
      && OnlyActive(disk.sectors[0], index)
      && forall i :: 0x1BE <= i < 0x200 && !IsFlag(i) ==> disk.sectors[0][i] == old(disk.sectors)[0][i]
  {
    var written := WriteMbrToDrive(disk, newCode);
    if !written {
      return Returned(false);
    }
    ghost var withCode := disk.sectors[0];
    r := SetPartitionActive(disk, index);
    if r == Returned(true) {
      forall i | 0 <= i < DISK_MBR_CODE_LENGTH
        ensures disk.sectors[0][i] == newCode[i]
      {
        assert !IsFlag(i);
        assert withCode[i] == newCode[i];
      }
    }
  }
}
