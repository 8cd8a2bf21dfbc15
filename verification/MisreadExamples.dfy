/** Archives with straddled header fields, at the block size of the installer and with its own buffers. */
module MisreadExamples {
  import opened Bytes
  import opened ReaderSpec
  import opened Dedup
  import opened MercyPak
  import opened Unpacker
  import opened AsRead
  import opened RoundTrip
  import opened Misread

  // ----- single fields

  /** A size of which one byte, or two, lie before the block boundary is read as if they were cut off. */
  lemma StraddledSize(B: nat, pos: nat, data: seq<byte>)
    requires B >= 4 && |data| <= 0xFFFF_FFFF
    ensures pos % B == B - 1 ==> SizeRead(B, pos, data) == |data| / 0x100
    ensures pos % B == B - 2 ==> SizeRead(B, pos, data) == |data| / 0x1_0000
  {
    hide Overlay, FromLE, SizeBytes;
    var b := SizeBytes(data);
    SizeExact(data);
    FourBytes(b);
    if pos % B == B - 1 {
      var t := OverlayInTwo(B, pos, b, [0, 0, 0, 0]);
      assert Overlay(B, pos, b, [0, 0, 0, 0]) == [b[1], b[2], b[3], 0];
      FourBytes([b[1], b[2], b[3], 0]);
    } else if pos % B == B - 2 {
      var t := OverlayInTwo(B, pos, b, [0, 0, 0, 0]);
      assert Overlay(B, pos, b, [0, 0, 0, 0]) == [b[2], b[3], 0, 0];
      FourBytes([b[2], b[3], 0, 0]);
    }
  }

  /** A stamp in a fresh slot of which one byte, or two, lie before the boundary: the rest, and zeros. */
  lemma StraddledFirstStamp(B: nat, pos: nat, i: nat, f: FileInfo)
    requires B >= 5 && i < 16
    ensures var b := StampBytes(f);
      && (pos % B == B - 1 ==> StampRead(B, pos, ClearSlots(), i, f) == [b[1], b[2], b[3], b[4], 0])
      && (pos % B == B - 2 ==> StampRead(B, pos, ClearSlots(), i, f) == [b[2], b[3], b[4], 0, 0])
  {
    hide Overlay, StampBytes;
    if pos % B == B - 1 || pos % B == B - 2 {
      var t := OverlayInTwo(B, pos, StampBytes(f), ClearSlots()[i]);
    }
  }

  /** The first path of an archive, of which one byte lies before the boundary, is read without that byte. */
  lemma FirstNameIsCut(B: nat, pos: nat, path: seq<byte>)
    requires 255 <= B && pos % B == B - 1 && 2 <= |path| <= 255 && 0 !in path
    ensures UnixPath(TextRead(B, pos, ClearText(), path)) == UnixPath(path[1..])
  {
    hide Overlay, CString;
    var n := |path|;
    var clear := ClearText()[..n];
    var t := OverlayInTwo(B, pos, path, clear);
    assert path[t..] + (path[..t] + clear[t..])[n - t..] == path[1..] + [0];
    CStringEnds(path[1..]);
    CStringKeeps(path[1..]);
  }

  lemma {:induction false} CStringEnds(s: seq<byte>)
    requires 0 !in s
    ensures CString(s + [0]) == s
    decreases |s|
  {
    if s != [] {
      assert (s + [0])[1..] == s[1..] + [0];
      CStringEnds(s[1..]);
    }
  }

  // ----- an archive that the installer misreads

  const MEM_BLOCK_SIZE := 0x10_0000

  const FIRST: FileInfo := FileInfo([0x41], 0, 0, 0)

  /** Two files: behind the first of them, the stamp of the second starts on the last byte of a block. */
  function BigAndSmall(big: seq<byte>, small: seq<byte>, second: FileInfo): seq<File> {
    [File(big, FIRST), File(small, second)]
  }

  lemma TwoGroups(h: Digest, big: seq<byte>, small: seq<byte>, second: FileInfo)
    requires h(big) != h(small)
    ensures AddAll(h, BigAndSmall(big, small, second)) == [Group(big, [FIRST]), Group(small, [second])]
  {
    var files := BigAndSmall(big, small, second);
    assert files[..1] == [files[0]] && files[..1][..0] == [];
    assert AddAll(h, files[..1]) == [Group(big, [FIRST])];
  }

  lemma BigAndSmallArePacked(h: Digest, big: seq<byte>, small: seq<byte>, second: FileInfo)
    requires |big| == MEM_BLOCK_SIZE - 28 && |small| == 1 && h(big) != h(small)
    requires second.path == [0x42] && InfoFits(second)
    ensures Packed(true, h, [], BigAndSmall(big, small, second),
                   ArchiveBytes(true, [], AddAll(h, BigAndSmall(big, small, second)), 2))
    ensures LastBlobHasData(AddAll(h, BigAndSmall(big, small, second)))
  {
    hide ArchiveBytes, AddAll;
    TwoGroups(h, big, small, second);
    UnixPathKeeps([0x41]);
    UnixPathKeeps([0x42]);
    var files := BigAndSmall(big, small, second);
    assert PathFor(files[0]) == [0x41] && PathFor(files[1]) == [0x42];
  }

  lemma OneHeader(f: FileInfo)
    ensures HeaderBytes([f]) == InfoBytes(f) && |InfoBytes(f)| == 6 + |f.path|
  {
    assert [f][1..] == [];
  }

  /** The first group is read as it is packed, and leaves zeros in the first slot. */
  lemma BigIsRead(big: seq<byte>, mem: Memory)
    requires |big| == MEM_BLOCK_SIZE - 28
    ensures Readable(Group(big, [FIRST])) && |GroupBytesV2(Group(big, [FIRST]))| == MEM_BLOCK_SIZE - 16
    ensures var r := GroupRead(true, MEM_BLOCK_SIZE, 12, Group(big, [FIRST]), mem);
      r.sizes && r.items == Items([File(big, FIRST)]) && r.mem.slots[0] == [0, 0, 0, 0, 0]
  {
    hide Overlay, Items, UnixPath, AfterString, FromLE;
    var g := Group(big, [FIRST]);
    OneHeader(FIRST);
    assert GroupFiles(g) == [File(big, FIRST)];
    HeadersInThisBlock(MEM_BLOCK_SIZE, 13, [FIRST]);
    GroupFitRead(true, MEM_BLOCK_SIZE, 12, g, mem);
    OverlayInside(MEM_BLOCK_SIZE, 15, StampBytes(FIRST), mem.slots[0]);
    OneInfoRead(MEM_BLOCK_SIZE, 13, FIRST, mem);
    assert StampBytes(FIRST) == [0, 0, 0, 0, 0];
  }

  lemma OneInfoRead(B: nat, pos: nat, f: FileInfo, mem: Memory)
    requires B > 0 && InfoFits(f)
    ensures InfosRead(B, pos, [f], 0, mem).0 == [InfoRead(B, pos, f, 0, mem).0]
    ensures InfosRead(B, pos, [f], 0, mem).1 == InfoRead(B, pos, f, 0, mem).1
  {
    hide InfoRead;
    assert [f][1..] == [];
    assert InfosRead(B, pos + 6 + |f.path|, [], 1, InfoRead(B, pos, f, 0, mem).1).0 == [];
  }

  /** What five stamp bytes are read as when four of them lie in the next block and the slot held zeros. */
  lemma StampInTwo(b: Five, slot: Five)
    requires slot == [0, 0, 0, 0, 0]
    ensures Overlay(MEM_BLOCK_SIZE, MEM_BLOCK_SIZE - 1, b, slot) == [b[1], b[2], b[3], b[4], 0]
  {
    hide Overlay;
    var t := OverlayInTwo(MEM_BLOCK_SIZE, MEM_BLOCK_SIZE - 1, b, slot);
    assert b[1..] + (b[..1] + slot[1..])[4..] == [b[1], b[2], b[3], b[4], 0];
  }

  /** Such a stamp is read back only when it is all zero. */
  lemma ShiftedStamp(f: FileInfo, b: Five)
    requires InfoFits(f) && b == StampBytes(f)
    ensures StampOf([b[1], b[2], b[3], b[4], 0]) == StampFor(f)
        <==> f.attribute % 256 == 0 && f.date == 0 && f.time == 0
  {
    assert b + [] == b;
    StampExact(f, []);
    var c := [b[1], b[2], b[3], b[4], 0];
    TwoBytes(b[1..3]);
    TwoBytes(b[3..5]);
    TwoBytes(c[1..3]);
    TwoBytes(c[3..5]);
  }

  /** The second group: its stamp is read shifted, everything else as it is packed. */
  lemma SmallIsRead(small: seq<byte>, second: FileInfo, mem: Memory)
    requires |small| == 1 && second.path == [0x42] && InfoFits(second) && mem.slots[0] == [0, 0, 0, 0, 0]
    ensures Readable(Group(small, [second]))
    ensures var r := GroupRead(true, MEM_BLOCK_SIZE, MEM_BLOCK_SIZE - 4, Group(small, [second]), mem);
      var b := StampBytes(second);
      && r.sizes
      && r.items == [Item(UnixPath([0x42]), Entry(small, Some(StampOf([b[1], b[2], b[3], b[4], 0]))))]
  {
    hide Overlay, UnixPath, AfterString, FromLE, StampOf, StampBytes, SizeBytes;
    var B, p := MEM_BLOCK_SIZE, MEM_BLOCK_SIZE - 3;
    OneHeader(second);
    OneInfoRead(B, p, second, mem);
    OverlayInside(B, p + 1, second.path, mem.text[..1]);
    StampInTwo(StampBytes(second), mem.slots[0]);
    OverlayInside(B, p + 7, SizeBytes(small), [0, 0, 0, 0]);
    SizeExact(small);
  }

  lemma BothAreRead(big: seq<byte>, small: seq<byte>, second: FileInfo, mem: Memory)
    requires |big| == MEM_BLOCK_SIZE - 28 && |small| == 1 && second.path == [0x42] && InfoFits(second)
    ensures AllReadable([Group(big, [FIRST]), Group(small, [second])])
    ensures var r := GroupsRead(true, MEM_BLOCK_SIZE, 12, [Group(big, [FIRST]), Group(small, [second])], mem);
      var b := StampBytes(second);
      && r.sizes
      && r.items == [ItemFor(File(big, FIRST)),
                     Item(UnixPath([0x42]), Entry(small, Some(StampOf([b[1], b[2], b[3], b[4], 0]))))]
  {
    hide Overlay, UnixPath, AfterString, FromLE, StampOf, StampBytes, SizeBytes, GroupRead, GroupBytesV2, Readable;
    var g1, g2 := Group(big, [FIRST]), Group(small, [second]);
    var groups := [g1, g2];
    BigIsRead(big, mem);
    var after := GroupRead(true, MEM_BLOCK_SIZE, 12, g1, mem).mem;
    SmallIsRead(small, second, after);
    GroupsReadStep(true, MEM_BLOCK_SIZE, 12, groups, mem);
    assert groups[1..] == [g2] && [g2][1..] == [];
    GroupsReadStep(true, MEM_BLOCK_SIZE, MEM_BLOCK_SIZE - 4, [g2], after);
    assert Items([File(big, FIRST)]) == [ItemFor(File(big, FIRST))];
  }

  lemma SecondItem(small: seq<byte>, second: FileInfo, first: Item)
    requires second.path == [0x42] && InfoFits(second)
    ensures var b := StampBytes(second);
      var read := Item(UnixPath([0x42]), Entry(small, Some(StampOf([b[1], b[2], b[3], b[4], 0]))));
      multiset([first, read]) == multiset([first, ItemFor(File(small, second))])
        <==> second.attribute % 256 == 0 && second.date == 0 && second.time == 0
  {
    hide UnixPath, StampOf, StampBytes, StampFor;
    var b := StampBytes(second);
    var read := Item(UnixPath([0x42]), Entry(small, Some(StampOf([b[1], b[2], b[3], b[4], 0]))));
    var packed := ItemFor(File(small, second));
    ShiftedStamp(second, b);
    assert multiset([first, read]) - multiset{first} == multiset{read};
    assert multiset([first, packed]) - multiset{first} == multiset{packed};
    if multiset{read} == multiset{packed} {
      assert read in multiset{packed};
    }
  }

  /**
   With the block size of the installer and its own buffers: of two files with one-byte paths, the first
   MEM_BLOCK_SIZE - 28 bytes long and with a stamp of zeros, the second comes back only when its stamp is all zero
   too. Attribute 0x20 and date 0x21 come back as attribute 0x21 and no date.
   */
  lemma MisreadByTheInstaller(h: Digest, big: seq<byte>, small: seq<byte>, second: FileInfo, unset: Locals)
    requires |big| == MEM_BLOCK_SIZE - 28 && |small| == 1 && h(big) != h(small)
    requires second.path == [0x42] && InfoFits(second)
    ensures var files := BigAndSmall(big, small, second);
      var data := ArchiveBytes(true, [], AddAll(h, files), |files|);
      && Packed(true, h, [], files, data) && LastBlobHasData(AddAll(h, files))
      && (RoundTrips(Archive(data, MEM_BLOCK_SIZE, unset), [], files)
          <==> second.attribute % 256 == 0 && second.date == 0 && second.time == 0)
  {
    hide Packed, ArchiveBytes, AddAll, RoundTrips, AllReadable, StampBytes, UnixPath, StampOf, ItemFor, InfoFits,
      GroupsRead;
    var files := BigAndSmall(big, small, second);
    var data := ArchiveBytes(true, [], AddAll(h, files), |files|);
    var a := Archive(data, MEM_BLOCK_SIZE, unset);
    BigAndSmallArePacked(h, big, small, second);
    TwoGroups(h, big, small, second);
    RoundTripIff(true, h, [], files, a);
    BothAreRead(big, small, second, Memory(ClearText(), ClearSlots(), unset.descriptor));
    assert Items(files) == [ItemFor(files[0]), ItemFor(files[1])];
    SecondItem(small, second, ItemFor(files[0]));
  }

  // ----- two names that are misread as each other

  const HALF := MEM_BLOCK_SIZE / 2

  function Named(path: seq<byte>): FileInfo {
    FileInfo(path, 0, 0, 0)
  }

  /** Files of equal data, named AU, UV, BV and VU. */
  const FOUR: seq<FileInfo> := [Named([0x41, 0x55]), Named([0x55, 0x56]), Named([0x42, 0x56]), Named([0x56, 0x55])]

  /** A V1 header whose path lies in one block. */
  lemma WholeName(pos: nat, data: seq<byte>, f: FileInfo, mem: Memory)
    requires f.path[..] in [FOUR[0].path, FOUR[2].path] && f == Named(f.path) && |data| <= 0xffff_ffff
    requires pos % MEM_BLOCK_SIZE == HALF - 2
    ensures var (t, size, after) := HeaderReadV1(MEM_BLOCK_SIZE, pos, data, f, mem);
      FileItem(t, data) == ItemFor(File(data, f)) && size == |data| && after.text[1] == f.path[1]
  {
    hide Overlay, FromLE, StampOf, StampFor, StampBytes, SizeBytes;
    var B := MEM_BLOCK_SIZE;
    InThisBlock(B, pos, 0, 1);
    InThisBlock(B, pos, 1, 2);
    InThisBlock(B, pos, 3, 9);
    HeaderFitReadV1(B, pos, data, f, mem);
    OverlayInside(B, pos + 1, f.path, mem.text[..2]);
    UnixPathKeeps(f.path);
  }

  /** A V1 header whose path has its second byte in the next block: it is read before the old second byte. */
  lemma SplitName(pos: nat, data: seq<byte>, f: FileInfo, mem: Memory)
    requires |f.path| == 2 && f == Named(f.path) && |data| <= 0xffff_ffff && pos % MEM_BLOCK_SIZE == MEM_BLOCK_SIZE - 2
    ensures var (t, size, after) := HeaderReadV1(MEM_BLOCK_SIZE, pos, data, f, mem);
      FileItem(t, data) == ItemFor(File(data, Named([f.path[1], mem.text[1]]))) && size == |data|
  {
    hide Overlay, FromLE, StampOf, StampBytes, SizeBytes, UnixPath, AfterString;
    var B := MEM_BLOCK_SIZE;
    ModKeeps(B, pos, 1);
    var t := OverlayInTwo(B, pos + 1, f.path, mem.text[..2]);
    assert f.path[1..] + (f.path[..1] + mem.text[..2][1..])[1..] == [f.path[1], mem.text[1]];
    NextBlock(B, pos);
    InThisBlock(B, pos + 2, 1, 9);
    OverlayInside(B, pos + 3, DescriptorBytes(data, f), mem.descriptor);
    StampExact(f, SizeBytes(data));
    SizeExact(data);
  }

  lemma FilesReadV1Step(pos: nat, data: seq<byte>, files: seq<FileInfo>, mem: Memory)
    requires files != [] && InfosFit(files) && |files[0].path| == 2 && |data| == HALF - 12
    ensures var (t, size, after) := HeaderReadV1(MEM_BLOCK_SIZE, pos, data, files[0], mem);
      var rest := FilesReadV1(MEM_BLOCK_SIZE, pos + HALF, data, files[1..], after);
      FilesReadV1(MEM_BLOCK_SIZE, pos, data, files, mem)
        == Reading([FileItem(t, data)] + rest.items, rest.mem, size == |data| && rest.sizes)
  {
    hide HeaderReadV1;
    assert |FileBytesV1(data, files[0])| == HALF;
  }

  /** The second and the fourth are read as each other. */
  lemma FourAreRead(data: seq<byte>, mem: Memory)
    requires |data| == HALF - 12
    ensures InfosFit(FOUR)
    ensures var r := FilesReadV1(MEM_BLOCK_SIZE, HALF - 2, data, FOUR, mem);
      && r.sizes
      && r.items == [ItemFor(File(data, FOUR[0])), ItemFor(File(data, FOUR[3])),
                     ItemFor(File(data, FOUR[2])), ItemFor(File(data, FOUR[1]))]
  {
    hide HeaderReadV1, FilesReadV1, ItemFor;
    var B := MEM_BLOCK_SIZE;
    FilesReadV1Step(HALF - 2, data, FOUR, mem);
    WholeName(HALF - 2, data, FOUR[0], mem);
    var m1 := HeaderReadV1(B, HALF - 2, data, FOUR[0], mem).2;
    FilesReadV1Step(B - 2, data, FOUR[1..], m1);
    SplitName(B - 2, data, FOUR[1], m1);
    var m2 := HeaderReadV1(B, B - 2, data, FOUR[1], m1).2;
    assert FOUR[1..][1..] == FOUR[2..];
    FilesReadV1Step(B + HALF - 2, data, FOUR[2..], m2);
    WholeName(B + HALF - 2, data, FOUR[2], m2);
    var m3 := HeaderReadV1(B, B + HALF - 2, data, FOUR[2], m2).2;
    assert FOUR[2..][1..] == FOUR[3..];
    FilesReadV1Step(2 * B - 2, data, FOUR[3..], m3);
    SplitName(2 * B - 2, data, FOUR[3], m3);
    assert FOUR[3..][1..] == [];
    NoFilesV1(B, 2 * B - 2 + HALF, data, HeaderReadV1(B, 2 * B - 2, data, FOUR[3], m3).2);
  }

  lemma NoFilesV1(B: nat, pos: nat, data: seq<byte>, mem: Memory)
    requires B > 0
    ensures FilesReadV1(B, pos, data, [], mem) == Reading([], mem, true)
  {
  }

  /** A file in front, and the four. */
  function FiveFiles(front: seq<byte>, data: seq<byte>): seq<File> {
    [File(front, Named([0x5A])), File(data, FOUR[0]), File(data, FOUR[1]), File(data, FOUR[2]), File(data, FOUR[3])]
  }

  function FiveGroups(front: seq<byte>, data: seq<byte>): seq<Group> {
    [Group(front, [Named([0x5A])]), Group(data, FOUR)]
  }

  lemma AddOne(h: Digest, files: seq<File>, f: File)
    ensures AddAll(h, files + [f]) == AddFile(h, AddAll(h, files), f)
  {
    assert (files + [f])[..|files|] == files;
  }

  lemma ToSecond(h: Digest, g1: Group, g2: Group, f: File)
    requires h(g1.data) != h(f.data) && g2.data == f.data && |g2.files| < MAX_FILES_PER_KNOWN_DATA
    ensures AddFile(h, [g1, g2], f) == [g1, Group(g2.data, g2.files + [f.info])]
  {
    assert [g1, g2][1..] == [g2];
    assert FindGroup(h, [g2], f.data) == 0;
  }

  lemma FiveAreGrouped(h: Digest, front: seq<byte>, data: seq<byte>)
    requires h(front) != h(data)
    ensures AddAll(h, FiveFiles(front, data)) == FiveGroups(front, data)
  {
    hide AddFile;
    var files := FiveFiles(front, data);
    var g1 := Group(front, [Named([0x5A])]);
    AddOne(h, [], files[0]);
    AddOne(h, files[..1], files[1]);
    AddOne(h, files[..2], files[2]);
    AddOne(h, files[..3], files[3]);
    AddOne(h, files[..4], files[4]);
    assert [] + [files[0]] == files[..1] && files[..1] + [files[1]] == files[..2]
        && files[..2] + [files[2]] == files[..3];
    assert files[..3] + [files[3]] == files[..4] && files[..4] + [files[4]] == files;
    assert [FOUR[0]] + [FOUR[1]] == FOUR[..2] && FOUR[..2] + [FOUR[2]] == FOUR[..3] && FOUR[..3] + [FOUR[3]] == FOUR;
    FirstTwoGroups(h, g1, files[1]);
    assert AddAll(h, files[..2]) == [g1, Group(data, [FOUR[0]])];
    ToSecond(h, g1, Group(data, [FOUR[0]]), files[2]);
    ToSecond(h, g1, Group(data, FOUR[..2]), files[3]);
    ToSecond(h, g1, Group(data, FOUR[..3]), files[4]);
  }

  lemma FirstTwoGroups(h: Digest, g1: Group, f: File)
    requires h(g1.data) != h(f.data)
    ensures AddFile(h, [], File(g1.data, Named([0x5A]))) == [Group(g1.data, [Named([0x5A])])]
    ensures AddFile(h, [g1], f) == [g1, Group(f.data, [f.info])]
  {
    assert [g1][1..] == [];
  }

  lemma FrontIsRead(front: seq<byte>, mem: Memory)
    requires |front| == HALF - 25
    ensures var g := Group(front, [Named([0x5A])]);
      && Readable(g) && |GroupBytesV1(g.data, g.files)| == HALF - 14
      && GroupRead(false, MEM_BLOCK_SIZE, 12, g, mem).items == [ItemFor(File(front, Named([0x5A])))]
      && GroupRead(false, MEM_BLOCK_SIZE, 12, g, mem).sizes
  {
    hide FilesReadV1, ItemFor;
    var g := Group(front, [Named([0x5A])]);
    assert g.files[1..] == [] && |FileBytesV1(front, g.files[0])| == HALF - 14;
    FilesV1InThisBlock(MEM_BLOCK_SIZE, 12, front, g.files);
    GroupFitRead(false, MEM_BLOCK_SIZE, 12, g, mem);
    assert GroupFiles(g) == [File(front, Named([0x5A]))];
  }

  lemma FiveAreRead(front: seq<byte>, data: seq<byte>, mem: Memory)
    requires |front| == HALF - 25 && |data| == HALF - 12
    ensures AllReadable(FiveGroups(front, data))
    ensures var r, files := GroupsRead(false, MEM_BLOCK_SIZE, 12, FiveGroups(front, data), mem), FiveFiles(front, data);
      && r.sizes
      && r.items == [ItemFor(files[0]), ItemFor(files[1]), ItemFor(files[4]), ItemFor(files[3]), ItemFor(files[2])]
  {
    hide FilesReadV1, ItemFor, GroupBytesV1;
    var groups := FiveGroups(front, data);
    FrontIsRead(front, mem);
    var after := GroupRead(false, MEM_BLOCK_SIZE, 12, groups[0], mem).mem;
    FourAreRead(data, after);
    GroupsReadStep(false, MEM_BLOCK_SIZE, 12, groups, mem);
    assert groups[1..] == [groups[1]] && [groups[1]][1..] == [];
    GroupsReadStep(false, MEM_BLOCK_SIZE, HALF - 2, [groups[1]], after);
  }

  lemma FiveAreDistinct(front: seq<byte>, data: seq<byte>)
    ensures DistinctPaths(FiveFiles(front, data))
  {
    FiveNames();
    hide UnixPath;
    var files := FiveFiles(front, data);
    assert PathFor(files[0]) == [0x5A] && PathFor(files[1]) == [0x41, 0x55] && PathFor(files[2]) == [0x55, 0x56];
    assert PathFor(files[3]) == [0x42, 0x56] && PathFor(files[4]) == [0x56, 0x55];
  }

  lemma FiveDiffer(h: Digest, front: seq<byte>, data: seq<byte>)
    requires h(front) != h(data)
    ensures Injective(h, FiveFiles(front, data))
  {
    forall f | f in FiveFiles(front, data)
      ensures f.data == front || f.data == data
    {
    }
  }

  lemma FiveArePacked(h: Digest, front: seq<byte>, data: seq<byte>)
    requires |front| == HALF - 25 && |data| == HALF - 12 && h(front) != h(data)
    ensures var files := FiveFiles(front, data);
      && Packed(false, h, [], files, ArchiveBytes(false, [], AddAll(h, files), |files|))
      && LastBlobHasData(AddAll(h, files))
  {
    hide ArchiveBytes, AddAll, DistinctPaths, Injective;
    FiveAreGrouped(h, front, data);
    FiveAreDistinct(front, data);
    FiveDiffer(h, front, data);
  }

  lemma FiveNames()
    ensures UnixPath([0x5A]) == [0x5A] && forall i :: 0 <= i < 4 ==> UnixPath(FOUR[i].path) == FOUR[i].path
  {
    UnixPathKeeps([0x5A]);
    UnixPathKeeps(FOUR[0].path);
    UnixPathKeeps(FOUR[1].path);
    UnixPathKeeps(FOUR[2].path);
    UnixPathKeeps(FOUR[3].path);
  }

  lemma SwappedIsSame(a: Item, b: Item, c: Item, d: Item, e: Item)
    ensures multiset([a, b, c, d, e]) == multiset([a, b, e, d, c])
  {
  }

  lemma FiveItems(front: seq<byte>, data: seq<byte>)
    ensures var f := FiveFiles(front, data);
      Items(f) == [ItemFor(f[0]), ItemFor(f[1]), ItemFor(f[2]), ItemFor(f[3]), ItemFor(f[4])]
          && ItemFor(f[2]) != ItemFor(f[4])
  {
    FiveNames();
    hide UnixPath, StampFor;
    var f := FiveFiles(front, data);
    assert PathFor(f[2]) == [0x55, 0x56] && PathFor(f[4]) == [0x56, 0x55];
  }

  /**
   Why the condition is on all files together: in this V1 archive the names UV and VU straddle blocks, each is
   read as the other, and as their data and stamps are equal everything comes back.
   */
  lemma MisreadNamesComeBack(h: Digest, front: seq<byte>, data: seq<byte>, unset: Locals)
    requires |front| == HALF - 25 && |data| == HALF - 12 && h(front) != h(data)
    ensures var files := FiveFiles(front, data);
      var groups := AddAll(h, files);
      var archive := ArchiveBytes(false, [], groups, |files|);
      && Packed(false, h, [], files, archive) && AllReadable(groups)
      && var items := FilesRead(false, MEM_BLOCK_SIZE, [], groups, unset.descriptor).items;
      && |items| == 5 && items[2] == ItemFor(files[4]) != ItemFor(files[2])
      && RoundTrips(Archive(archive, MEM_BLOCK_SIZE, unset), [], files)
  {
    hide Packed, ArchiveBytes, AddAll, RoundTrips, AllReadable, ItemFor, GroupsRead, FiveGroups;
    var files := FiveFiles(front, data);
    var archive := ArchiveBytes(false, [], AddAll(h, files), |files|);
    FiveArePacked(h, front, data);
    FiveAreGrouped(h, front, data);
    FiveAreRead(front, data, Memory(ClearText(), ClearSlots(), unset.descriptor));
    FiveItems(front, data);
    SwappedIsSame(ItemFor(files[0]), ItemFor(files[1]), ItemFor(files[2]), ItemFor(files[3]), ItemFor(files[4]));
    RoundTripIff(false, h, [], files, Archive(archive, MEM_BLOCK_SIZE, unset));
  }
}
