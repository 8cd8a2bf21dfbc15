/**
 When a packed archive comes back although header fields straddle blocks of the reader. A straddled field is
 laid over what its buffer held, so some are read as they were packed and some are not; AsRead has what each
 is read as. Here: exactly which archives come back. MisreadExamples has one that the installer misreads.
 */
module Misread {
  import opened Bytes
  import opened ReaderSpec
  import opened Dedup
  import opened MercyPak
  import opened Unpacker
  import opened AsRead
  import opened RoundTrip

  /** More than the count, the headers and the size of one group take: one block boundary at most lies in them. */
  const LONGEST_HEADER := 1 + 16 * (1 + 255 + 5) + 4

  // ----- a straddled field

  /** A straddled field is read, and ends in the byte its buffer held before. */
  lemma FieldMisread(a: Archive, pos: nat, b: seq<byte>, dst: seq<byte>)
    requires a.Valid() && At(a.data, pos, b) && |dst| == |b| && 0 < |b| && !Fits(a.B, pos, |b|)
    ensures Field(a, pos, dst).Got?
    ensures Field(a, pos, dst).value.0[|b| - 1] == dst[|b| - 1]
  {
    hide Overlay;
    FieldReads(a, pos, b, dst);
    StraddlingReadKeepsLastByte(a.data, a.B, pos, dst);
  }

  /** What is left of the block is read first, and the rest over it. */
  lemma OverlayOfParts(B: nat, pos: nat, b: seq<byte>, old_: seq<byte>, t: nat)
    requires B > 0 && |b| == |old_| <= B && 0 < t < |b| && B - pos % B == t && (pos + t) % B == 0
    ensures Overlay(B, pos, b, old_) == b[t..] + (b[..t] + old_[t..])[|b| - t..]
  {
    hide Overlay;
    OverlayStep(B, pos, b, old_);
    OverlayAtStart(B, pos + t, b[t..], b[..t] + old_[t..]);
  }

  /** Its second part lies over its first, and that over the old bytes. */
  lemma OverlayInTwo(B: nat, pos: nat, b: seq<byte>, old_: seq<byte>) returns (t: nat)
    requires B > 0 && |b| == |old_| <= B && !Fits(B, pos, |b|)
    ensures t == B - pos % B && 0 < t < |b|
    ensures Overlay(B, pos, b, old_) == b[t..] + (b[..t] + old_[t..])[|b| - t..]
  {
    hide Overlay, Fits;
    RestOfBlock(B, pos, |b|);
    NextBlock(B, pos);
    t := B - pos % B;
    OverlayOfParts(B, pos, b, old_, t);
  }

  lemma RestOfBlock(B: nat, pos: nat, len: nat)
    requires B > 0 && len <= B && !Fits(B, pos, len)
    ensures 0 < B - pos % B < len
  {
  }

  lemma NextBlock(B: nat, pos: nat)
    requires B > 0
    ensures (pos + (B - pos % B)) % B == 0
  {
    var q := pos / B;
    assert pos == q * B + pos % B;
    assert pos + (B - pos % B) == (q + 1) * B;
    ModOfMultiple((q + 1) * B, q + 1, B);
  }

  lemma OverlayAtStart(B: nat, pos: nat, b: seq<byte>, old_: seq<byte>)
    requires B > 0 && pos % B == 0 && 0 < |b| <= B && |b| <= |old_|
    ensures Overlay(B, pos, b, old_) == b + old_[|b|..]
  {
    hide Overlay;
    OverlayStep(B, pos, b, old_);
    assert b[|b|..] == [] && b[..|b|] == b;
    NoOverlay(B, pos + |b|, b + old_[|b|..]);
  }

  // ----- a file of the wrong length, and what is read behind it

  /**
   The tree holds data of another length than n at p, or fewer entries than files were counted. Overwriting
   the entry costs a file, so nothing that is written later makes this good.
   */
  ghost predicate Spoiled(tree: Tree, f: nat, p: seq<byte>, n: nat) {
    |tree.Keys| < f || (p in tree && |tree[p].data| != n)
  }

  lemma WriteKeeps(tree: Tree, f: nat, p: seq<byte>, n: nat, path: seq<byte>, e: Entry)
    requires |tree.Keys| <= f
    ensures |tree[path := e].Keys| <= f + 1
    ensures Spoiled(tree, f, p, n) || (path == p && |e.data| != n) ==> Spoiled(tree[path := e], f + 1, p, n)
  {
    var after := tree[path := e];
    assert after.Keys == tree.Keys + {path};
    if path in tree {
      assert after.Keys == tree.Keys;
    }
  }

  lemma {:induction false} StoreKeeps(tree: Tree, f: nat, p: seq<byte>, n: nat,
                                      targets: seq<Target>, outs: seq<seq<byte>>, stamped: bool)
    requires |tree.Keys| <= f && |targets| == |outs|
    ensures |Store(tree, targets, outs, stamped).Keys| <= f + |targets|
    ensures Spoiled(tree, f, p, n) ==> Spoiled(Store(tree, targets, outs, stamped), f + |targets|, p, n)
    decreases |targets|
  {
    hide Spoiled;
    if targets != [] {
      var e := Entry(outs[0], if stamped then Some(targets[0].stamp) else None);
      WriteKeeps(tree, f, p, n, targets[0].path, e);
      StoreKeeps(tree[targets[0].path := e], f + 1, p, n, targets[1..], outs[1..], stamped);
    }
  }

  lemma StoreSpoils(tree: Tree, f: nat, n: nat, targets: seq<Target>, outs: seq<seq<byte>>)
    requires |tree.Keys| <= f && |targets| == |outs| && targets != [] && |outs[0]| != n
    ensures Spoiled(Store(tree, targets, outs, true), f + |targets|, targets[0].path, n)
  {
    hide Spoiled;
    var p, e := targets[0].path, Entry(outs[0], Some(targets[0].stamp));
    WriteKeeps(tree, f, p, n, p, e);
    StoreKeeps(tree[p := e], f + 1, p, n, targets[1..], outs[1..], true);
  }

  lemma CopiedLengths(a: Archive, pos: nat, n: nat, len: nat)
    requires a.Valid() && pos <= |a.data|
    ensures CopyOut(a, pos, n, len).Got? && CopyOut(a, pos, n, len).value.0 ==>
              forall i :: 0 <= i < n ==> |CopyOut(a, pos, n, len).value.1[i]| == len
  {
    hide Transfer;
    var call := Copy(n, len);
    TransferEnd(a.data, a.B, call, pos, len, call.Targets());
    if pos < |a.data| && pos + len <= |a.data| {
      assert a.data[pos..pos] == [];
      TransferCopy(a.data, a.B, call, pos, pos, len);
    }
  }

  lemma GroupV2Keeps(a: Archive, at: Progress, p: seq<byte>, n: nat)
    requires a.Valid() && at.pos <= |a.data| && |at.tree.Keys| <= at.f && at.f + 16 < 0x1_0000_0000
    ensures GroupV2(a, at).Got? ==>
      var next := GroupV2(a, at).value.1;
      && at.f <= next.f && |next.tree.Keys| <= next.f
      && (Spoiled(at.tree, at.f, p, n) ==> Spoiled(next.tree, next.f, p, n))
  {
    hide Field, Headers, CopyOut, Store, FromLE, Spoiled;
    if GroupV2(a, at).Got? {
      var (c, p1) := Field(a, at.pos, [0]).value;
      var (targets, mem, p2) := Headers(a, p1, c[0], [], at.mem).value;
      var (size, p3) := Field(a, p2, [0, 0, 0, 0]).value;
      var (ok, outs, p4) := CopyOut(a, p3, c[0], FromLE(size)).value;
      StoreKeeps(at.tree, at.f, p, n, targets, outs, ok);
    }
  }

  lemma {:induction false} LoopV2Keeps(a: Archive, fileCount: nat, dirs: seq<(seq<byte>, byte)>, at: Progress,
                                       p: seq<byte>, n: nat)
    requires a.Valid() && at.pos <= |a.data| && |at.tree.Keys| <= at.f && fileCount + 16 <= 0x1_0000_0000
    requires Spoiled(at.tree, at.f, p, n)
    ensures var o := LoopV2(a, fileCount, dirs, at); o.Finished? && o.ok ==> Spoiled(o.at.tree, o.at.f, p, n)
    decreases |a.data| - at.pos
  {
    hide GroupV2, Spoiled;
    if at.f < fileCount {
      GroupV2Keeps(a, at, p, n);
      var r := GroupV2(a, at);
      if r.Got? && r.value.0 {
        LoopV2Keeps(a, fileCount, dirs, r.value.1, p, n);
      }
    }
  }

  lemma FileV1Keeps(a: Archive, at: Progress, p: seq<byte>, n: nat)
    requires a.Valid() && at.pos <= |a.data| && |at.tree.Keys| <= at.f
    ensures FileV1(a, at).Got? ==>
      var next := FileV1(a, at).value.1;
      && next.f == at.f + 1 && |next.tree.Keys| <= next.f
      && (Spoiled(at.tree, at.f, p, n) ==> Spoiled(next.tree, next.f, p, n))
  {
    hide Field, String, CopyOut, FromLE, Spoiled, StampOf;
    if FileV1(a, at).Got? {
      var (path, text, p1) := String(a, at.pos, at.mem.text).value;
      var (d, p2) := Field(a, p1, at.mem.descriptor).value;
      var (ok, outs, p3) := CopyOut(a, p2, 1, FromLE(d[5..9])).value;
      WriteKeeps(at.tree, at.f, p, n, path, Entry(outs[0], Some(StampOf(d))));
    }
  }

  lemma {:induction false} LoopV1Keeps(a: Archive, fileCount: nat, dirs: seq<(seq<byte>, byte)>, success: bool,
                                       at: Progress, p: seq<byte>, n: nat)
    requires a.Valid() && at.pos <= |a.data| && |at.tree.Keys| <= at.f
    requires success ==> Spoiled(at.tree, at.f, p, n)
    ensures var o := LoopV1(a, fileCount, dirs, success, at);
      o.Finished? && o.ok ==> Spoiled(o.at.tree, o.at.f, p, n)
    decreases |a.data| - at.pos
  {
    hide FileV1, Spoiled;
    if at.f < fileCount {
      FileV1Keeps(a, at, p, n);
      var r := FileV1(a, at);
      if r.Got? {
        LoopV1Keeps(a, fileCount, dirs, success && r.value.0, r.value.1, p, n);
      }
    }
  }

  // ----- a size that is not read back

  /** A field that straddles a block has what lies closely before it in the block that it starts in. */
  lemma StartsInThisBlock(B: nat, pos: nat, k: nat, len: nat)
    requires B > 0 && k + len <= B && !Fits(B, pos + k, len)
    ensures pos % B + k < B
  {
    if pos % B + k >= B {
      var q := pos / B;
      assert pos == q * B + pos % B;
      ModOfMultiple(pos + k, q + 1, B);
    }
  }

  lemma {:induction false} HeaderLength(files: seq<FileInfo>)
    requires InfosFit(files)
    ensures |HeaderBytes(files)| <= 261 * |files|
    decreases |files|
  {
    if files != [] {
      HeaderLength(files[1..]);
    }
  }

  /** When the size of a group is misread, its headers are not. */
  lemma WrongSizeRightPath(B: nat, pos: nat, g: Group, mem: Memory)
    requires B >= LONGEST_HEADER && Readable(g) && !GroupReadV2(B, pos, g, mem).sizes
    ensures InfosRead(B, pos + 1, g.files, 0, mem).0[0].path == UnixPath(g.files[0].path)
  {
    hide UnixPath, HeaderBytes, Overlay, FromLE, InfoRead, InfoFits, StampFor, HeadersFit;
    var k := |HeaderBytes(g.files)|;
    HeaderLength(g.files);
    if Fits(B, pos + 1 + k, 4) {
      OverlayInside(B, pos + 1 + k, SizeBytes(g.data), [0, 0, 0, 0]);
      SizeExact(g.data);
    }
    StartsInThisBlock(B, pos + 1, k, 4);
    HeadersInThisBlock(B, pos + 1, g.files);
    FirstHeaderFits(B, pos + 1, g.files);
    InfoFitRead(B, pos + 1, g.files[0], 0, mem);
  }

  lemma FirstHeaderFits(B: nat, pos: nat, files: seq<FileInfo>)
    requires B > 0 && HeadersFit(B, pos, files) && files != []
    ensures InfoFitsAt(B, pos, files[0])
  {
  }

  lemma GroupV2Wrong(a: Archive, at: Progress, g: Group)
    requires a.Valid() && a.B >= LONGEST_HEADER && At(a.data, at.pos, GroupBytesV2(g)) && at.pos <= |a.data|
    requires Readable(g) && !GroupReadV2(a.B, at.pos, g, at.mem).sizes
    requires |at.tree.Keys| <= at.f && at.f + 16 < 0x1_0000_0000
    ensures GroupV2(a, at).Got? && GroupV2(a, at).value.0 ==>
      Spoiled(GroupV2(a, at).value.1.tree, GroupV2(a, at).value.1.f, UnixPath(g.files[0].path), |g.data|)
  {
    hide GroupV2, CopyOut, Store, SizeRead, InfosRead, TargetItems, At, GroupBytesV2, HeaderBytes, Spoiled, UnixPath,
      InfoFits;
    var n, q := |g.files|, at.pos + 1 + |HeaderBytes(g.files)|;
    GroupV2Reads(a, at, g);
    WrongSizeRightPath(a.B, at.pos, g, at.mem);
    var targets := InfosRead(a.B, at.pos + 1, g.files, 0, at.mem).0;
    var size := SizeRead(a.B, q, g.data);
    CopiedLengths(a, q + 4, n, size);
    var copied := CopyOut(a, q + 4, n, size);
    if copied.Got? && copied.value.0 {
      StoreSpoils(at.tree, at.f, |g.data|, targets, copied.value.1);
    }
  }

  /** Some size is not read back: a file is written with the wrong length, and that is not made good. */
  lemma {:induction false} LoopV2OutOfStep(a: Archive, fileCount: nat, dirs: seq<(seq<byte>, byte)>, at: Progress,
                                           groups: seq<Group>) returns (bad: File)
    requires a.Valid() && a.B >= LONGEST_HEADER && at.pos <= |a.data| && At(a.data, at.pos, AllGroupBytes(true, groups))
    requires AllReadable(groups) && |at.tree.Keys| <= at.f
    requires at.f + FilesIn(groups) == fileCount && fileCount + 16 <= 0x1_0000_0000
    requires !GroupsRead(true, a.B, at.pos, groups, at.mem).sizes
    ensures bad in Flatten(groups)
    ensures var o := LoopV2(a, fileCount, dirs, at);
      o.Finished? && o.ok ==> Spoiled(o.at.tree, o.at.f, PathFor(bad), |bad.data|)
    decreases |groups|
  {
    hide GroupV2, GroupBytesV2, At, GroupReadV2, Written, Spoiled, UnixPath, GroupFiles, InfosFit;
    var g, rest := groups[0], groups[1..];
    assert Readable(g);
    bad := FirstFile(g);
    if GroupReadV2(a.B, at.pos, g, at.mem).sizes {
      var end, r := at.pos + |GroupBytesV2(g)|, GroupReadV2(a.B, at.pos, g, at.mem);
      LoopV2Step(a, fileCount, dirs, at, groups);
      if g.data != [] || end < |a.data| {
        WrittenKeys(at.tree, r.items);
        bad := LoopV2OutOfStep(a, fileCount, dirs, Progress(end, at.f + |g.files|, Written(at.tree, r.items), r.mem),
            rest);
      }
    } else {
      AtSplit(a.data, at.pos, GroupBytesV2(g), AllGroupBytes(true, rest));
      GroupV2Wrong(a, at, g);
      GroupV2Keeps(a, at, PathFor(bad), |bad.data|);
      if GroupV2(a, at).Got? && GroupV2(a, at).value.0 {
        LoopV2Keeps(a, fileCount, dirs, GroupV2(a, at).value.1, PathFor(bad), |bad.data|);
      }
    }
  }

  lemma FirstFile(g: Group) returns (f: File)
    requires g.files != []
    ensures f == File(g.data, g.files[0]) && f in GroupFiles(g) && PathFor(f) == UnixPath(g.files[0].path)
  {
    f := File(g.data, g.files[0]);
    assert GroupFiles(g)[0] == f;
  }

  // ----- V1

  /** When the size in a V1 descriptor is misread, the path before it is not. */
  lemma WrongSizeRightPathV1(B: nat, pos: nat, data: seq<byte>, f: FileInfo, mem: Memory)
    requires B >= LONGEST_HEADER && InfoFits(f) && |data| <= 0xffff_ffff
    requires HeaderReadV1(B, pos, data, f, mem).1 != |data|
    ensures HeaderReadV1(B, pos, data, f, mem).0.path == UnixPath(f.path)
  {
    hide UnixPath, Overlay, FromLE, StampOf, AfterString, StampBytes, SizeBytes;
    var n := |f.path|;
    if Fits(B, pos + 1 + n, 9) {
      OverlayInside(B, pos + 1 + n, DescriptorBytes(data, f), mem.descriptor);
      SizeExact(data);
    }
    StartsInThisBlock(B, pos + 1, n, 9);
    InThisBlock(B, pos + 1, 0, n);
    OverlayInside(B, pos + 1, f.path, mem.text[..n]);
  }

  lemma FileV1Wrong(a: Archive, at: Progress, data: seq<byte>, f: FileInfo)
    requires a.Valid() && a.B >= LONGEST_HEADER && At(a.data, at.pos, FileBytesV1(data, f)) && at.pos <= |a.data|
    requires InfoFits(f) && |data| <= 0xffff_ffff && HeaderReadV1(a.B, at.pos, data, f, at.mem).1 != |data|
    requires |at.tree.Keys| <= at.f
    ensures FileV1(a, at).Got? && FileV1(a, at).value.0 ==>
      Spoiled(FileV1(a, at).value.1.tree, FileV1(a, at).value.1.f, UnixPath(f.path), |data|)
  {
    hide FileV1, CopyOut, At, HeaderReadV1, Spoiled, UnixPath, FileBytesV1;
    FileV1Reads(a, at, data, f);
    WrongSizeRightPathV1(a.B, at.pos, data, f, at.mem);
    var p := at.pos + 10 + |f.path|;
    var (t, size, mem) := HeaderReadV1(a.B, at.pos, data, f, at.mem);
    CopiedLengths(a, p, 1, size);
    var copied := CopyOut(a, p, 1, size);
    if copied.Got? && copied.value.0 {
      WriteKeeps(at.tree, at.f, t.path, |data|, t.path, Entry(copied.value.1[0], Some(t.stamp)));
    }
  }

  lemma {:induction false} FilesV1OutOfStep(a: Archive, fileCount: nat, dirs: seq<(seq<byte>, byte)>, success: bool,
                                            at: Progress, data: seq<byte>, files: seq<FileInfo>) returns (bad: FileInfo)
    requires a.Valid() && a.B >= LONGEST_HEADER && at.pos <= |a.data| && At(a.data, at.pos, GroupBytesV1(data, files))
    requires InfosFit(files) && |data| <= 0xffff_ffff && at.f + |files| <= fileCount && |at.tree.Keys| <= at.f
    requires !FilesReadV1(a.B, at.pos, data, files, at.mem).sizes
    ensures bad in files
    ensures var o := LoopV1(a, fileCount, dirs, success, at);
      o.Finished? && o.ok ==> Spoiled(o.at.tree, o.at.f, UnixPath(bad.path), |data|)
    decreases |files|
  {
    hide FileV1, FileBytesV1, At, HeaderReadV1, InfoFits, Written, Spoiled, UnixPath;
    bad := files[0];
    var end := at.pos + |FileBytesV1(data, bad)|;
    var (t, size, mem) := HeaderReadV1(a.B, at.pos, data, bad, at.mem);
    if size == |data| {
      FilesV1Step(a, fileCount, dirs, success, at, data, files);
      WrittenKeys(at.tree, [FileItem(t, data)]);
      bad := FilesV1OutOfStep(a, fileCount, dirs, success && (data != [] || end < |a.data|),
                              Progress(end, at.f + 1, Written(at.tree, [FileItem(t, data)]), mem), data, files[1..]);
    } else {
      AtSplit(a.data, at.pos, FileBytesV1(data, bad), GroupBytesV1(data, files[1..]));
      FileV1Wrong(a, at, data, bad);
      FileV1Keeps(a, at, UnixPath(bad.path), |data|);
      if FileV1(a, at).Got? {
        var (ok, next) := FileV1(a, at).value;
        LoopV1Keeps(a, fileCount, dirs, success && ok, next, UnixPath(bad.path), |data|);
      }
    }
  }

  lemma {:induction false} LoopV1OutOfStep(a: Archive, fileCount: nat, dirs: seq<(seq<byte>, byte)>, success: bool,
                                           at: Progress, groups: seq<Group>) returns (bad: File)
    requires a.Valid() && a.B >= LONGEST_HEADER && at.pos <= |a.data|
    requires At(a.data, at.pos, AllGroupBytes(false, groups))
    requires AllReadable(groups) && |at.tree.Keys| <= at.f && at.f + FilesIn(groups) == fileCount
    requires !GroupsRead(false, a.B, at.pos, groups, at.mem).sizes
    ensures bad in Flatten(groups)
    ensures var o := LoopV1(a, fileCount, dirs, success, at);
      o.Finished? && o.ok ==> Spoiled(o.at.tree, o.at.f, PathFor(bad), |bad.data|)
    decreases |groups|
  {
    hide LoopV1, GroupBytesV1, At, FilesReadV1, Written, Spoiled, UnixPath, GroupFiles, InfoFits;
    var g, rest := groups[0], groups[1..];
    assert Readable(g);
    if FilesReadV1(a.B, at.pos, g.data, g.files, at.mem).sizes {
      var end, r := at.pos + |GroupBytesV1(g.data, g.files)|, FilesReadV1(a.B, at.pos, g.data, g.files, at.mem);
      LoopV1Step(a, fileCount, dirs, success, at, groups);
      WrittenKeys(at.tree, r.items);
      bad := LoopV1OutOfStep(a, fileCount, dirs, success && (g.data != [] || end < |a.data|),
                             Progress(end, at.f + |g.files|, Written(at.tree, r.items), r.mem), rest);
    } else {
      AtSplit(a.data, at.pos, GroupBytesV1(g.data, g.files), AllGroupBytes(false, rest));
      var info := FilesV1OutOfStep(a, fileCount, dirs, success, at, g.data, g.files);
      bad := FileOf(g, info);
    }
  }

  lemma FileOf(g: Group, info: FileInfo) returns (f: File)
    requires info in g.files
    ensures f == File(g.data, info) && f in GroupFiles(g) && PathFor(f) == UnixPath(info.path)
  {
    var i :| 0 <= i < |g.files| && g.files[i] == info;
    f := File(g.data, info);
    assert GroupFiles(g)[i] == f;
  }

  // ----- the exact condition

  lemma CountsInOneBlock(B: nat)
    requires B >= LONGEST_HEADER
    ensures CountsFit(B)
  {
  }

  /** Some size is not read back: the packed files do not come back. */
  lemma OutOfStep(a: Archive, v2: bool, dirs: seq<Directory>, groups: seq<Group>, fileCount: nat) returns (bad: File)
    requires a.B >= LONGEST_HEADER && a.data == ArchiveBytes(v2, dirs, groups, fileCount)
    requires Packable(dirs, groups, fileCount) && PathsFit(dirs) && AllReadable(groups)
    requires fileCount + 16 <= 0x1_0000_0000 && !FilesRead(v2, a.B, dirs, groups, a.unset.descriptor).sizes
    ensures a.Valid() && bad in Flatten(groups)
    ensures var o := Unpack(a); o.Finished? && o.ok ==> Spoiled(o.at.tree, o.at.f, PathFor(bad), |bad.data|)
  {
    hide UnpackHeader, LoopV1, LoopV2, AllDirBytes, AllGroupBytes, ArchiveBytes, At, GroupsRead, DirTableRead,
      ClearSlots, Spoiled, Flatten, PathFor, CountsFit;
    HeaderPieces(a.data, v2, dirs, groups, fileCount);
    CountsInOneBlock(a.B);
    HeaderReads(a, v2, dirs, groups, fileCount);
    var (read, text) := DirTableRead(a.B, dirs);
    var start := Progress(12 + |AllDirBytes(dirs)|, 0, map[], StartMemory(a, text));
    if v2 {
      bad := LoopV2OutOfStep(a, fileCount, read, start, groups);
    } else {
      bad := LoopV1OutOfStep(a, fileCount, read, true, start, groups);
    }
  }

  /** A tree with exactly these files is not spoiled. */
  lemma ExactIsNotSpoiled(tree: Tree, files: seq<File>, f: File)
    requires HoldsExactly(tree, files) && DistinctPaths(files) && f in files
    ensures !Spoiled(tree, |files|, PathFor(f), |f.data|)
  {
    hide PathFor, Items;
    FilesAreItems(tree, files);
    AsManyKeysAsItems(tree.Keys, Items(files));
  }

  /**
   Every size is read back, every directory too, and the files as they are read are the packed ones, in some
   order. All of it follows from what is packed, the block size and, for V1, the first descriptor's old bytes.
   */
  ghost predicate ReadsBack(v2: bool, B: nat, dirs: seq<Directory>, groups: seq<Group>, files: seq<File>,
      descriptor: Nine)
    requires B > 0 && PathsFit(dirs) && AllReadable(groups)
  {
    var r := FilesRead(v2, B, dirs, groups, descriptor);
    r.sizes && DirTableRead(B, dirs).0 == DirsFor(dirs) && multiset(r.items) == multiset(Items(files))
  }

  lemma InStep(v2: bool, h: Digest, dirs: seq<Directory>, files: seq<File>, a: Archive)
    requires a.B >= LONGEST_HEADER && Packed(v2, h, dirs, files, a.data)
    requires Packable(dirs, AddAll(h, files), |files|) && PathsFit(dirs) && AllReadable(AddAll(h, files))
    requires FilesRead(v2, a.B, dirs, AddAll(h, files), a.unset.descriptor).sizes
    ensures RoundTrips(a, dirs, files)
       <==> LastBlobHasData(AddAll(h, files)) && ReadsBack(v2, a.B, dirs, AddAll(h, files), files, a.unset.descriptor)
  {
    hide AddAll, ArchiveBytes, Unpack, Writable, DirsFor, HoldsExactly, HoldsItems, Injective, FilesRead,
      DirTableRead, Items, Written, LastBlobHasData, CountsFit, PathsFit, Packable, DistinctPaths, DistinctItems,
      AllReadable;
    var groups := AddAll(h, files);
    CountsInOneBlock(a.B);
    UnpackReads(a, v2, dirs, groups, |files|);
    var items := FilesRead(v2, a.B, dirs, groups, a.unset.descriptor).items;
    AsManyItems(v2, a.B, dirs, groups, |files|, a.unset.descriptor);
    FilesAreItems(Unpack(a).at.tree, files);
    FilesAreItems(Written(map[], items), files);
    if HoldsItems(Written(map[], items), Items(files)) {
      WrittenExactly(items, Items(files));
    }
    if multiset(items) == multiset(Items(files)) {
      WrittenInAnyOrder(items, Items(files));
    }
  }

  lemma AsManyItems(v2: bool, B: nat, dirs: seq<Directory>, groups: seq<Group>, fileCount: nat, descriptor: Nine)
    requires B > 0 && PathsFit(dirs) && AllReadable(groups) && Packable(dirs, groups, fileCount)
    ensures |FilesRead(v2, B, dirs, groups, descriptor).items| == fileCount
  {
    hide GroupsRead, DirTableRead, AllDirBytes, AllReadable, PathsFit;
  }

  /**
   The exact condition, with the buffers as the code has them: packing, as V1 or as V2, and unpacking gives back
   the directories and the files if and only if the last blob is not empty, every size and every directory is
   read back, and the files as they are read are the packed ones. They need not be read back one by one: two
   names that are each misread as the other do no harm.
   */
  lemma RoundTripIff(v2: bool, h: Digest, dirs: seq<Directory>, files: seq<File>, a: Archive)
    requires a.B >= LONGEST_HEADER && Packed(v2, h, dirs, files, a.data) && |files| + 16 <= 0x1_0000_0000
    ensures PathsFit(dirs) && AllReadable(AddAll(h, files))
    ensures RoundTrips(a, dirs, files)
       <==> LastBlobHasData(AddAll(h, files)) && ReadsBack(v2, a.B, dirs, AddAll(h, files), files, a.unset.descriptor)
  {
    hide AddAll, ArchiveBytes, Unpack, Writable, DirsFor, HoldsExactly, Injective, FilesRead, DirTableRead, Items,
      LastBlobHasData, Packable, DistinctPaths, Spoiled, PathFor, Flatten;
    var groups := AddAll(h, files);
    GroupsArePackable(v2, h, dirs, files, a.data);
    PackableIsReadable(dirs, groups, |files|);
    if FilesRead(v2, a.B, dirs, groups, a.unset.descriptor).sizes {
      InStep(v2, h, dirs, files, a);
    } else {
      var bad := OutOfStep(a, v2, dirs, groups, |files|);
      assert bad in multiset(Flatten(groups)) && bad in multiset(files);
      if RoundTrips(a, dirs, files) {
        ExactIsNotSpoiled(Unpack(a).at.tree, files, bad);
      }
    }
  }

  // ----- file by file

  /** No file is read with the path of another one. */
  ghost predicate NoneTakesAnother(items: seq<Item>, packed: seq<Item>)
    requires |items| == |packed|
  {
    forall i, j :: 0 <= i < |items| && 0 <= j < |packed| && i != j ==> items[i].path != packed[j].path
  }

  lemma EachOne(items: seq<Item>, packed: seq<Item>)
    requires |items| == |packed| && NoneTakesAnother(items, packed)
    ensures multiset(items) == multiset(packed) <==> items == packed
  {
    if multiset(items) == multiset(packed) {
      forall i | 0 <= i < |items|
        ensures items[i] == packed[i]
      {
        assert items[i] in multiset(items);
        var j :| 0 <= j < |packed| && packed[j] == items[i];
      }
    }
  }

  /**
   When no file is read with the path of another one, the condition is one on each field: the files come back
   if and only if the last blob is not empty and every size, every path and every stamp is read back as itself.
   */
  lemma FieldByFieldIff(v2: bool, h: Digest, dirs: seq<Directory>, files: seq<File>, a: Archive)
    requires a.B >= LONGEST_HEADER && Packed(v2, h, dirs, files, a.data) && |files| + 16 <= 0x1_0000_0000
    ensures PathsFit(dirs) && AllReadable(AddAll(h, files))
    ensures var groups := AddAll(h, files);
      var r := FilesRead(v2, a.B, dirs, groups, a.unset.descriptor);
      && |r.items| == |Items(Flatten(groups))|
      && (NoneTakesAnother(r.items, Items(Flatten(groups))) ==>
            (RoundTrips(a, dirs, files)
             <==> LastBlobHasData(groups) && r.sizes && DirTableRead(a.B, dirs).0 == DirsFor(dirs)
                  && r.items == Items(Flatten(groups))))
  {
    hide AddAll, ArchiveBytes, Unpack, Writable, DirsFor, HoldsExactly, Injective, FilesRead, DirTableRead, Items,
      LastBlobHasData, Packable, DistinctPaths, Flatten, RoundTrips, NoneTakesAnother, AllReadable, PathsFit;
    var groups := AddAll(h, files);
    RoundTripIff(v2, h, dirs, files, a);
    GroupsArePackable(v2, h, dirs, files, a.data);
    AsManyItems(v2, a.B, dirs, groups, |files|, a.unset.descriptor);
    SameLength(Flatten(groups), files);
    ItemsLength(Flatten(groups));
    ItemsOfSame(Flatten(groups), files);
    var r := FilesRead(v2, a.B, dirs, groups, a.unset.descriptor);
    if NoneTakesAnother(r.items, Items(Flatten(groups))) {
      EachOne(r.items, Items(Flatten(groups)));
    }
  }

  lemma ItemsLength(files: seq<File>)
    ensures |Items(files)| == |files|
  {
  }
}
