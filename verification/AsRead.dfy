/**
 What the unpacker reads from a packed archive, header fields that straddle a block included: each field is
 laid over what its buffer held before, and the buffers are those of the code, from their start to the end.
 As long as every size is read back, reading stays in step with what was packed.
 */
module AsRead {
  import opened Bytes
  import opened ReaderSpec
  import opened Dedup
  import opened MercyPak
  import opened Unpacker

  // ----- where the pieces of an archive lie

  ghost predicate At(data: seq<byte>, pos: nat, b: seq<byte>) {
    pos + |b| <= |data| && data[pos..pos + |b|] == b
  }

  lemma AtSplit(data: seq<byte>, pos: nat, x: seq<byte>, y: seq<byte>)
    requires At(data, pos, x + y)
    ensures At(data, pos, x) && At(data, pos + |x|, y)
  {
    var all := data[pos..pos + |x + y|];
    assert all == x + y;
    forall i | 0 <= i < |x|
      ensures data[pos..pos + |x|][i] == x[i]
    {
      assert all[i] == x[i];
    }
    forall i | 0 <= i < |y|
      ensures data[pos + |x|..pos + |x| + |y|][i] == y[i]
    {
      assert all[|x| + i] == y[i];
    }
  }

  lemma AtInside(data: seq<byte>, pos: nat, b: seq<byte>)
    requires At(data, pos, b)
    ensures pos + |b| <= |data|
  {
  }

  lemma Regroup<T>(x: seq<T>, y: T, z: seq<T>)
    ensures (x + [y]) + z == x + ([y] + z)
  {
  }

  // ----- one field over an old buffer

  /** A header field of len bytes at pos lies inside one block. */
  predicate Fits(B: nat, pos: nat, len: nat)
    requires B > 0
  {
    pos % B + len <= B
  }

  /** What reading the bytes at pos leaves of a buffer: every part of them starts at the front again. */
  function Overlay(B: nat, pos: nat, bytes: seq<byte>, old_: seq<byte>): (r: seq<byte>)
    requires B > 0 && |bytes| <= |old_|
    ensures |r| == |old_|
    decreases |bytes|
  {
    if bytes == [] then old_
    else
      var t := Min(|bytes|, B - pos % B);
      Overlay(B, pos + t, bytes[t..], bytes[..t] + old_[t..])
  }

  lemma RoundSize(size: nat, B: nat, pos: nat, rem: nat)
    requires B > 0 && 0 < rem && pos + rem <= size
    ensures 0 < ToCopy(size, B, pos, rem) <= rem && ToCopy(size, B, pos, rem) == Min(rem, B - pos % B)
  {
  }

  lemma OverlayStep(B: nat, pos: nat, bytes: seq<byte>, old_: seq<byte>)
    requires B > 0 && 0 < |bytes| <= |old_|
    ensures var t := Min(|bytes|, B - pos % B);
      0 < t && Overlay(B, pos, bytes, old_) == Overlay(B, pos + t, bytes[t..], bytes[..t] + old_[t..])
  {
  }

  lemma {:induction false} ReadOverlays(data: seq<byte>, B: nat, call: Call, pos: nat, rem: nat, dst: seq<byte>)
    requires B > 0 && call.Read? && pos + rem <= |data| && rem <= |dst|
    ensures Transfer(data, B, call, pos, rem, [dst])
         == Returns(true, [Overlay(B, pos, data[pos..pos + rem], dst)], pos + rem)
    decreases rem
  {
    hide Transfer, ToCopy, Overlay;
    if rem > 0 {
      var t := ToCopy(|data|, B, pos, rem);
      var bytes := data[pos..pos + rem];
      RoundSize(|data|, B, pos, rem);
      ReadRound(data, B, call, pos, rem, dst);
      OverlayStep(B, pos, bytes, dst);
      assert bytes[..t] == data[pos..pos + t] && bytes[t..] == data[pos + t..pos + t + (rem - t)];
      assert call.Deliver(dst, data[pos..pos + t]) == bytes[..t] + dst[t..];
      ReadOverlays(data, B, call, pos + t, rem - t, bytes[..t] + dst[t..]);
    } else {
      NothingToTransfer(data, B, call, pos, [dst]);
      assert data[pos..pos + rem] == [];
      NoOverlay(B, pos, dst);
    }
  }

  lemma NoOverlay(B: nat, pos: nat, old_: seq<byte>)
    requires B > 0
    ensures Overlay(B, pos, [], old_) == old_
  {
  }

  /** A field that is there is read, straddling or not. */
  lemma FieldReads(a: Archive, pos: nat, b: seq<byte>, dst: seq<byte>)
    requires a.Valid() && At(a.data, pos, b) && pos < |a.data| && |dst| == |b|
    ensures Field(a, pos, dst) == Got((Overlay(a.B, pos, b, dst), pos + |b|))
  {
    hide Overlay, Transfer;
    CallIsTransfer(a.data, a.B, pos, Read(dst));
    ReadOverlays(a.data, a.B, Read(dst), pos, |dst|, dst);
  }

  lemma OverlayInside(B: nat, pos: nat, bytes: seq<byte>, old_: seq<byte>)
    requires B > 0 && |bytes| == |old_| && Fits(B, pos, |bytes|)
    ensures Overlay(B, pos, bytes, old_) == bytes
  {
    if bytes != [] {
      var t := |bytes|;
      assert bytes[t..] == [] && bytes[..t] + old_[t..] == bytes;
      assert Overlay(B, pos, bytes, old_) == Overlay(B, pos + t, bytes[t..], bytes[..t] + old_[t..]);
    }
  }

  lemma OneByteReads(a: Archive, pos: nat, b: byte)
    requires a.Valid() && At(a.data, pos, [b])
    ensures Field(a, pos, [0]) == Got(([b], pos + 1))
  {
    hide Field;
    FieldReads(a, pos, [b], [0]);
    OverlayInside(a.B, pos, [b], [0]);
  }

  // ----- strings

  /** What a path is read as, before its conversion. */
  function TextRead(B: nat, pos: nat, text: Text, path: seq<byte>): (r: seq<byte>)
    requires B > 0 && |path| <= 255
    ensures |r| == |path|
  {
    Overlay(B, pos, path, text[..|path|])
  }

  lemma StringReads(a: Archive, pos: nat, s: seq<byte>, text: Text)
    requires a.Valid() && |s| <= 255 && At(a.data, pos, StringBytes(s)) && pos + 1 < |a.data|
    ensures var r := TextRead(a.B, pos + 1, text, s);
      String(a, pos, text) == Got((UnixPath(r), AfterString(text, r), pos + 1 + |s|))
  {
    hide Field, UnixPath, AfterString, Overlay;
    AtSplit(a.data, pos, [|s| % 256], s);
    OneByteReads(a, pos, |s|);
    FieldReads(a, pos + 1, s, text[..|s|]);
  }

  // ----- directories

  predicate PathsFit(dirs: seq<Directory>) {
    forall i :: 0 <= i < |dirs| ==> 0 < |dirs[i].path| <= 255
  }

  /** The directories as they are read, and the path buffer behind them. */
  function DirsRead(B: nat, pos: nat, dirs: seq<Directory>, text: Text): (seq<(seq<byte>, byte)>, Text)
    requires B > 0 && PathsFit(dirs)
    decreases |dirs|
  {
    if dirs == [] then ([], text)
    else
      var d := dirs[0];
      var r := TextRead(B, pos + 2, text, d.path);
      var (rest, after) := DirsRead(B, pos + 2 + |d.path|, dirs[1..], AfterString(text, r));
      ([(UnixPath(r), d.attribute % 256)] + rest, after)
  }

  lemma OneDirReads(a: Archive, pos: nat, d: Directory, text: Text)
    requires a.Valid() && At(a.data, pos, DirBytes(d)) && 0 < |d.path| <= 255
    ensures var r := TextRead(a.B, pos + 2, text, d.path);
      OneDir(a, pos, text) == Got(((UnixPath(r), d.attribute % 256), AfterString(text, r), pos + |DirBytes(d)|))
  {
    hide Field, String, UnixPath, AfterString, TextRead;
    AtSplit(a.data, pos, [d.attribute % 256], StringBytes(d.path));
    OneByteReads(a, pos, d.attribute % 256);
    StringReads(a, pos + 1, d.path, text);
  }

  /** The directory in front is read, and the rest of the archive is as for the rest of the list. */
  lemma DirsStep(a: Archive, pos: nat, dirs: seq<Directory>, made: seq<(seq<byte>, byte)>, text: Text)
    requires a.Valid() && pos <= |a.data| && At(a.data, pos, AllDirBytes(dirs)) && dirs != [] && PathsFit(dirs)
    ensures var d, rest := dirs[0], dirs[1..];
      var r := TextRead(a.B, pos + 2, text, d.path);
      var dir, p, after := (UnixPath(r), d.attribute % 256), pos + |DirBytes(d)|, AfterString(text, r);
      && p <= |a.data| && At(a.data, p, AllDirBytes(rest)) && PathsFit(rest)
      && Dirs(a, pos, |dirs|, made, text) == Dirs(a, p, |rest|, made + [dir], after)
      && |AllDirBytes(dirs)| == |DirBytes(d)| + |AllDirBytes(rest)|
      && DirsRead(a.B, pos, dirs, text)
           == ([dir] + DirsRead(a.B, p, rest, after).0, DirsRead(a.B, p, rest, after).1)
  {
    hide OneDir, UnixPath, AfterString, TextRead;
    AtSplit(a.data, pos, DirBytes(dirs[0]), AllDirBytes(dirs[1..]));
    OneDirReads(a, pos, dirs[0], text);
  }

  lemma {:induction false} DirsAreRead(a: Archive, pos: nat, dirs: seq<Directory>, made: seq<(seq<byte>, byte)>,
      text: Text)
    requires a.Valid() && pos <= |a.data| && At(a.data, pos, AllDirBytes(dirs)) && PathsFit(dirs)
    ensures var (read, after) := DirsRead(a.B, pos, dirs, text);
      Dirs(a, pos, |dirs|, made, text) == Got((made + read, after, pos + |AllDirBytes(dirs)|))
    decreases |dirs|
  {
    hide OneDir, UnixPath, At, DirBytes, AfterString, TextRead;
    if dirs == [] {
      assert made + [] == made;
    } else {
      var d := dirs[0];
      DirsStep(a, pos, dirs, made, text);
      var r := TextRead(a.B, pos + 2, text, d.path);
      var dir, p, after := (UnixPath(r), d.attribute % 256), pos + |DirBytes(d)|, AfterString(text, r);
      DirsAreRead(a, p, dirs[1..], made + [dir], after);
      Regroup(made, dir, DirsRead(a.B, p, dirs[1..], after).0);
    }
  }

  // ----- V2 headers

  predicate InfosFit(files: seq<FileInfo>) {
    forall i :: 0 <= i < |files| ==> InfoFits(files[i])
  }

  /** The stamp of a file as slot i receives it. */
  function StampRead(B: nat, pos: nat, slots: Slots, i: nat, f: FileInfo): Five
    requires B > 0 && i < MERCYPAK_V2_MAX_IDENTICAL_FILES
  {
    Overlay(B, pos, StampBytes(f), slots[i])
  }

  /** The buffers behind the header of file number i of a group. */
  function InfoRead(B: nat, pos: nat, f: FileInfo, i: nat, mem: Memory): (Target, Memory)
    requires B > 0 && i < MERCYPAK_V2_MAX_IDENTICAL_FILES && InfoFits(f)
  {
    var r := TextRead(B, pos + 1, mem.text, f.path);
    var d := StampRead(B, pos + 1 + |f.path|, mem.slots, i, f);
    (Target(UnixPath(r), StampOf(d)), mem.(text := AfterString(mem.text, r), slots := mem.slots[i := d]))
  }

  /** The headers of a group as they are read, from file number i on. */
  function InfosRead(B: nat, pos: nat, files: seq<FileInfo>, i: nat, mem: Memory): (r: (seq<Target>, Memory))
    requires B > 0 && InfosFit(files) && i + |files| <= MERCYPAK_V2_MAX_IDENTICAL_FILES
    ensures |r.0| == |files|
    decreases |files|
  {
    if files == [] then ([], mem)
    else
      var (t, after) := InfoRead(B, pos, files[0], i, mem);
      var (rest, end) := InfosRead(B, pos + 6 + |files[0].path|, files[1..], i + 1, after);
      ([t] + rest, end)
  }

  lemma OneHeaderReads(a: Archive, pos: nat, f: FileInfo, i: nat, mem: Memory)
    requires a.Valid() && At(a.data, pos, InfoBytes(f)) && InfoFits(f) && i < MERCYPAK_V2_MAX_IDENTICAL_FILES
    ensures |InfoBytes(f)| == 6 + |f.path| && pos + |InfoBytes(f)| <= |a.data|
    ensures var r := TextRead(a.B, pos + 1, mem.text, f.path);
      String(a, pos, mem.text) == Got((UnixPath(r), AfterString(mem.text, r), pos + 1 + |f.path|))
    ensures Field(a, pos + 1 + |f.path|, mem.slots[i])
         == Got((StampRead(a.B, pos + 1 + |f.path|, mem.slots, i, f), pos + |InfoBytes(f)|))
  {
    hide Field, String, UnixPath, StampBytes, StringBytes, AfterString, TextRead, Overlay;
    AtSplit(a.data, pos, StringBytes(f.path), StampBytes(f));
    StringReads(a, pos, f.path, mem.text);
    FieldReads(a, pos + 1 + |f.path|, StampBytes(f), mem.slots[i]);
  }

  lemma HeadersStep(a: Archive, pos: nat, files: seq<FileInfo>, done: seq<Target>, mem: Memory)
    requires a.Valid() && pos <= |a.data| && At(a.data, pos, HeaderBytes(files)) && files != [] && InfosFit(files)
    requires |done| + |files| <= MERCYPAK_V2_MAX_IDENTICAL_FILES
    ensures var f, rest, p := files[0], files[1..], pos + |InfoBytes(files[0])|;
      var (t, after) := InfoRead(a.B, pos, f, |done|, mem);
      && |InfoBytes(f)| == 6 + |f.path|
      && p <= |a.data| && At(a.data, p, HeaderBytes(rest)) && InfosFit(rest)
      && Headers(a, pos, |files|, done, mem) == Headers(a, p, |rest|, done + [t], after)
      && |HeaderBytes(files)| == |InfoBytes(f)| + |HeaderBytes(rest)|
  {
    hide Field, String, UnixPath, StampOf, AfterString, TextRead, StampRead, InfoBytes;
    AtSplit(a.data, pos, InfoBytes(files[0]), HeaderBytes(files[1..]));
    OneHeaderReads(a, pos, files[0], |done|, mem);
  }

  lemma NoHeaders(a: Archive, pos: nat, done: seq<Target>, mem: Memory)
    requires a.Valid() && pos <= |a.data| && |done| <= MERCYPAK_V2_MAX_IDENTICAL_FILES
    ensures Headers(a, pos, 0, done, mem) == Got((done, mem, pos))
  {
  }

  lemma {:induction false} HeadersAreRead(a: Archive, pos: nat, files: seq<FileInfo>, done: seq<Target>, mem: Memory)
    requires a.Valid() && pos <= |a.data| && At(a.data, pos, HeaderBytes(files)) && InfosFit(files)
    requires |done| + |files| <= MERCYPAK_V2_MAX_IDENTICAL_FILES
    ensures var (read, end) := InfosRead(a.B, pos, files, |done|, mem);
      Headers(a, pos, |files|, done, mem) == Got((done + read, end, pos + |HeaderBytes(files)|))
    decreases |files|
  {
    hide InfoBytes, At, Field, String, InfoRead, InfoFits, Headers;
    if files == [] {
      NoHeaders(a, pos, done, mem);
      assert done + [] == done;
    } else {
      HeadersStep(a, pos, files, done, mem);
      var (t, after) := InfoRead(a.B, pos, files[0], |done|, mem);
      var p := pos + |InfoBytes(files[0])|;
      HeadersAreRead(a, p, files[1..], done + [t], after);
      Regroup(done, t, InfosRead(a.B, p, files[1..], |done| + 1, after).0);
    }
  }

  // ----- V2 groups

  /** What the size of a V2 group is read as: it is laid over zeros. */
  function SizeRead(B: nat, pos: nat, data: seq<byte>): nat
    requires B > 0
  {
    FromLE(Overlay(B, pos, SizeBytes(data), [0, 0, 0, 0]))
  }

  /** Where the pieces of a V2 group lie. */
  lemma GroupV2Pieces(a: Archive, pos: nat, g: Group)
    requires At(a.data, pos, GroupBytesV2(g)) && |g.files| <= 255
    ensures var p, q := pos + 1, pos + 1 + |HeaderBytes(g.files)|;
      && At(a.data, pos, [|g.files|]) && At(a.data, p, HeaderBytes(g.files))
      && At(a.data, q, SizeBytes(g.data)) && At(a.data, q + 4, g.data)
      && q + 4 <= |a.data|
      && pos + |GroupBytesV2(g)| == q + 4 + |g.data|
  {
    hide HeaderBytes, SizeBytes, At;
    AtSplit(a.data, pos, [|g.files| % 256], HeaderBytes(g.files) + BlobBytes(g.data));
    AtSplit(a.data, pos + 1, HeaderBytes(g.files), BlobBytes(g.data));
    AtSplit(a.data, pos + 1 + |HeaderBytes(g.files)|, SizeBytes(g.data), g.data);
    AtInside(a.data, pos + 5 + |HeaderBytes(g.files)|, g.data);
  }

  /** A packed V2 group is read field by field; the data is as long as the size that was read. */
  lemma GroupV2Reads(a: Archive, at: Progress, g: Group)
    requires a.Valid() && At(a.data, at.pos, GroupBytesV2(g)) && at.pos <= |a.data|
    requires GroupFits(g) && |g.files| <= MERCYPAK_V2_MAX_IDENTICAL_FILES
    ensures var n, q := |g.files|, at.pos + 1 + |HeaderBytes(g.files)|;
      var (targets, mem) := InfosRead(a.B, at.pos + 1, g.files, 0, at.mem);
      && q + 4 <= |a.data|
      && GroupV2(a, at) == match CopyOut(a, q + 4, n, SizeRead(a.B, q, g.data))
           case Bad(why) => Bad(why)
           case Got((ok, outs, end)) =>
             Got((ok, Progress(end, (at.f + n) % 0x1_0000_0000, Store(at.tree, targets, outs, ok), mem)))
  {
    hide Field, Headers, CopyOut, Store, FromLE, SizeBytes, HeaderBytes, At, GroupBytesV2, InfosRead, Overlay;
    var n := |g.files|;
    GroupV2Pieces(a, at.pos, g);
    var q := at.pos + 1 + |HeaderBytes(g.files)|;
    OneByteReads(a, at.pos, n);
    HeadersAreRead(a, at.pos + 1, g.files, [], at.mem);
    var targets := InfosRead(a.B, at.pos + 1, g.files, 0, at.mem).0;
    assert [] + targets == targets;
    FieldReads(a, q, SizeBytes(g.data), [0, 0, 0, 0]);
  }

  lemma CopyOutExact(a: Archive, pos: nat, n: nat, b: seq<byte>)
    requires a.Valid() && At(a.data, pos, b)
    ensures CopyOut(a, pos, n, |b|) == Got((b != [] || pos < |a.data|, Repeat(n, b), pos + |b|))
  {
    if pos < |a.data| {
      assert a.data[pos..pos] == [];
      TransferCopy(a.data, a.B, Copy(n, |b|), pos, pos, |b|);
    }
  }

  // ----- V1 files

  /** The nine byte descriptor of a V1 file. */
  function DescriptorBytes(data: seq<byte>, f: FileInfo): (b: Nine)
    ensures b[5..9] == SizeBytes(data)
  {
    StampBytes(f) + SizeBytes(data)
  }

  function DescriptorRead(B: nat, pos: nat, data: seq<byte>, f: FileInfo, old_: Nine): Nine
    requires B > 0
  {
    Overlay(B, pos, DescriptorBytes(data, f), old_)
  }

  /** Where the pieces of a V1 file lie. */
  lemma FileV1Pieces(a: Archive, pos: nat, data: seq<byte>, f: FileInfo)
    requires At(a.data, pos, FileBytesV1(data, f))
    ensures var p := pos + 1 + |f.path|;
      && At(a.data, pos, StringBytes(f.path)) && At(a.data, p, DescriptorBytes(data, f)) && At(a.data, p + 9, data)
      && p + 9 <= |a.data|
      && pos + |FileBytesV1(data, f)| == p + 9 + |data|
  {
    hide StampBytes, SizeBytes, StringBytes;
    var p := pos + 1 + |f.path|;
    AtSplit(a.data, pos, InfoBytes(f), BlobBytes(data));
    AtSplit(a.data, pos, StringBytes(f.path), StampBytes(f));
    AtSplit(a.data, p + 5, SizeBytes(data), data);
    assert a.data[p..p + 9] == a.data[p..p + 5] + a.data[p + 5..p + 9];
  }

  /** The buffers behind the header of a V1 file, and what it is read as: target and size. */
  function HeaderReadV1(B: nat, pos: nat, data: seq<byte>, f: FileInfo, mem: Memory): (Target, nat, Memory)
    requires B > 0 && InfoFits(f)
  {
    var r := TextRead(B, pos + 1, mem.text, f.path);
    var d := DescriptorRead(B, pos + 1 + |f.path|, data, f, mem.descriptor);
    (Target(UnixPath(r), StampOf(d)), FromLE(d[5..9]), mem.(text := AfterString(mem.text, r), descriptor := d))
  }

  lemma FileV1Reads(a: Archive, at: Progress, data: seq<byte>, f: FileInfo)
    requires a.Valid() && At(a.data, at.pos, FileBytesV1(data, f)) && at.pos <= |a.data| && InfoFits(f)
    ensures var p := at.pos + 1 + |f.path|;
      var (t, size, mem) := HeaderReadV1(a.B, at.pos, data, f, at.mem);
      && p + 9 <= |a.data|
      && FileV1(a, at) == match CopyOut(a, p + 9, 1, size)
           case Bad(why) => Bad(why)
           case Got((ok, outs, end)) =>
             Got((ok, Progress(end, at.f + 1, at.tree[t.path := Entry(outs[0], Some(t.stamp))], mem)))
  {
    hide Field, String, UnixPath, StampOf, StringBytes, CopyOut, FromLE, At, FileBytesV1, AfterString, TextRead,
      Overlay, DescriptorBytes;
    var p := at.pos + 1 + |f.path|;
    FileV1Pieces(a, at.pos, data, f);
    StringReads(a, at.pos, f.path, at.mem.text);
    FieldReads(a, p, DescriptorBytes(data, f), at.mem.descriptor);
  }

  // ----- groups of either version

  /** A file as it is written: its path on the target, its data and its stamp. */
  datatype Item = Item(path: seq<byte>, entry: Entry)

  function FileItem(t: Target, data: seq<byte>): Item {
    Item(t.path, Entry(data, Some(t.stamp)))
  }

  function TargetItems(targets: seq<Target>, data: seq<byte>): (r: seq<Item>)
    ensures |r| == |targets|
  {
    if targets == [] then [] else [FileItem(targets[0], data)] + TargetItems(targets[1..], data)
  }

  /** The tree after the items were written one by one; a later one replaces an earlier one of its path. */
  function Written(tree: Tree, items: seq<Item>): Tree
    decreases |items|
  {
    if items == [] then tree else Written(tree[items[0].path := items[0].entry], items[1..])
  }

  /** Files as they are read, the buffers behind them, and whether every size was read as it was packed. */
  datatype Reading = Reading(items: seq<Item>, mem: Memory, sizes: bool)

  /** Groups that the unpacker accepts: what deduplication makes, up to the unpacker's own limit. */
  ghost predicate Unpackable(groups: seq<Group>) {
    forall i :: 0 <= i < |groups| ==> 1 <= |groups[i].files| <= MERCYPAK_V2_MAX_IDENTICAL_FILES
  }

  /** What fits its fields and is accepted. */
  predicate Readable(g: Group) {
    1 <= |g.files| <= MERCYPAK_V2_MAX_IDENTICAL_FILES && |g.data| <= 0xffff_ffff && InfosFit(g.files)
  }

  predicate AllReadable(groups: seq<Group>) {
    forall i :: 0 <= i < |groups| ==> Readable(groups[i])
  }

  function GroupReadV2(B: nat, pos: nat, g: Group, mem: Memory): (r: Reading)
    requires B > 0 && Readable(g)
    ensures |r.items| == |g.files|
  {
    var (targets, after) := InfosRead(B, pos + 1, g.files, 0, mem);
    Reading(TargetItems(targets, g.data), after, SizeRead(B, pos + 1 + |HeaderBytes(g.files)|, g.data) == |g.data|)
  }

  function FilesReadV1(B: nat, pos: nat, data: seq<byte>, files: seq<FileInfo>, mem: Memory): (r: Reading)
    requires B > 0 && InfosFit(files)
    ensures |r.items| == |files|
    decreases |files|
  {
    if files == [] then Reading([], mem, true)
    else
      var (t, size, after) := HeaderReadV1(B, pos, data, files[0], mem);
      var rest := FilesReadV1(B, pos + |FileBytesV1(data, files[0])|, data, files[1..], after);
      Reading([FileItem(t, data)] + rest.items, rest.mem, size == |data| && rest.sizes)
  }

  function GroupRead(v2: bool, B: nat, pos: nat, g: Group, mem: Memory): (r: Reading)
    requires B > 0 && Readable(g)
    ensures |r.items| == |g.files|
  {
    if v2 then GroupReadV2(B, pos, g, mem) else FilesReadV1(B, pos, g.data, g.files, mem)
  }

  function FilesIn(groups: seq<Group>): nat {
    if groups == [] then 0 else |groups[0].files| + FilesIn(groups[1..])
  }

  function GroupsRead(v2: bool, B: nat, pos: nat, groups: seq<Group>, mem: Memory): (r: Reading)
    requires B > 0 && AllReadable(groups)
    ensures |r.items| == FilesIn(groups)
    decreases |groups|
  {
    if groups == [] then Reading([], mem, true)
    else
      var first := GroupRead(v2, B, pos, groups[0], mem);
      var rest := GroupsRead(v2, B, pos + |GroupBytes(v2, groups[0])|, groups[1..], first.mem);
      Reading(first.items + rest.items, rest.mem, first.sizes && rest.sizes)
  }

  /** copyToFiles fails on an empty blob at the very end of the archive. */
  predicate LastBlobHasData(groups: seq<Group>) {
    groups == [] || groups[|groups| - 1].data != []
  }

  lemma {:induction false} StoreIsWritten(tree: Tree, targets: seq<Target>, data: seq<byte>)
    ensures Store(tree, targets, Repeat(|targets|, data), true) == Written(tree, TargetItems(targets, data))
    decreases |targets|
  {
    if targets != [] {
      assert Repeat(|targets|, data)[1..] == Repeat(|targets| - 1, data);
      assert TargetItems(targets, data)[1..] == TargetItems(targets[1..], data);
      StoreIsWritten(tree[targets[0].path := Entry(data, Some(targets[0].stamp))], targets[1..], data);
    }
  }

  lemma {:induction false} WrittenConcat(tree: Tree, x: seq<Item>, y: seq<Item>)
    ensures Written(tree, x + y) == Written(Written(tree, x), y)
    decreases |x|
  {
    if x == [] {
      assert x + y == y;
    } else {
      assert (x + y)[1..] == x[1..] + y;
      WrittenConcat(tree[x[0].path := x[0].entry], x[1..], y);
    }
  }

  lemma WrittenNothing(tree: Tree)
    ensures Written(tree, []) == tree
  {
  }

  lemma GroupBytesNonEmpty(v2: bool, groups: seq<Group>)
    requires AllReadable(groups) && groups != []
    ensures |AllGroupBytes(v2, groups)| > 0
  {
    var g := groups[0];
    assert Readable(g);
    if !v2 {
      assert |FileBytesV1(g.data, g.files[0])| > 0;
    }
  }

  // ----- V2 archives

  /** A group whose size is read back, without its data being the empty end of the archive. */
  lemma GroupV2InStep(a: Archive, at: Progress, g: Group)
    requires a.Valid() && At(a.data, at.pos, GroupBytesV2(g)) && at.pos <= |a.data| && Readable(g)
    requires GroupReadV2(a.B, at.pos, g, at.mem).sizes
    ensures var end, r := at.pos + |GroupBytesV2(g)|, GroupReadV2(a.B, at.pos, g, at.mem);
      var ok := g.data != [] || end < |a.data|;
      && end <= |a.data| && GroupV2(a, at).Got? && GroupV2(a, at).value.0 == ok
      && GroupV2(a, at).value.1.pos == end && GroupV2(a, at).value.1.mem == r.mem
      && GroupV2(a, at).value.1.f == (at.f + |g.files|) % 0x1_0000_0000
      && (ok ==> GroupV2(a, at).value.1.tree == Written(at.tree, r.items))
  {
    hide GroupV2, CopyOut, Store, SizeRead, Written, InfosRead, TargetItems, At, GroupBytesV2, HeaderBytes;
    GroupV2Reads(a, at, g);
    GroupV2Pieces(a, at.pos, g);
    var q := at.pos + 1 + |HeaderBytes(g.files)|;
    CopyOutExact(a, q + 4, |g.files|, g.data);
    AtInside(a.data, q + 4, g.data);
    StoreIsWritten(at.tree, InfosRead(a.B, at.pos + 1, g.files, 0, at.mem).0, g.data);
  }

  lemma LoopV2Step(a: Archive, fileCount: nat, dirs: seq<(seq<byte>, byte)>, at: Progress, groups: seq<Group>)
    requires a.Valid() && At(a.data, at.pos, AllGroupBytes(true, groups)) && at.pos <= |a.data|
    requires AllReadable(groups) && groups != [] && GroupReadV2(a.B, at.pos, groups[0], at.mem).sizes
    requires at.f + FilesIn(groups) == fileCount < 0x1_0000_0000
    ensures var g, rest := groups[0], groups[1..];
      var end, r := at.pos + |GroupBytesV2(g)|, GroupReadV2(a.B, at.pos, g, at.mem);
      var next := Progress(end, at.f + |g.files|, Written(at.tree, r.items), r.mem);
      && end <= |a.data| && At(a.data, end, AllGroupBytes(true, rest)) && AllReadable(rest)
      && |AllGroupBytes(true, groups)| == |GroupBytesV2(g)| + |AllGroupBytes(true, rest)|
      && (if g.data != [] || end < |a.data| then LoopV2(a, fileCount, dirs, at) == LoopV2(a, fileCount, dirs, next)
          else var o := LoopV2(a, fileCount, dirs, at);
            o.Finished? && !o.ok && o.dirs == dirs && o.at.pos == end && o.at.f == at.f + |g.files|)
  {
    hide GroupV2, GroupBytesV2, At, GroupReadV2, Written;
    var g := groups[0];
    assert Readable(g);
    AtSplit(a.data, at.pos, GroupBytesV2(g), AllGroupBytes(true, groups[1..]));
    GroupV2InStep(a, at, g);
  }

  lemma {:induction false} LoopV2InStep(a: Archive, fileCount: nat, dirs: seq<(seq<byte>, byte)>, at: Progress,
      groups: seq<Group>)
    requires a.Valid() && At(a.data, at.pos, AllGroupBytes(true, groups)) && AllReadable(groups)
    requires at.pos + |AllGroupBytes(true, groups)| == |a.data|
    requires at.f + FilesIn(groups) == fileCount < 0x1_0000_0000
    requires GroupsRead(true, a.B, at.pos, groups, at.mem).sizes
    ensures var o := LoopV2(a, fileCount, dirs, at);
      && o.Finished? && o.dirs == dirs && o.at.pos == |a.data| && o.at.f == fileCount
      && (o.ok <==> LastBlobHasData(groups))
      && (o.ok ==> o.at.tree == Written(at.tree, GroupsRead(true, a.B, at.pos, groups, at.mem).items))
    decreases |groups|
  {
    hide GroupV2, GroupBytesV2, At, GroupReadV2, Written, Readable;
    if groups == [] {
      WrittenNothing(at.tree);
    } else {
      var g, rest := groups[0], groups[1..];
      var end, r := at.pos + |GroupBytesV2(g)|, GroupReadV2(a.B, at.pos, g, at.mem);
      LoopV2Step(a, fileCount, dirs, at, groups);
      if rest != [] {
        GroupBytesNonEmpty(true, rest);
        assert rest[|rest| - 1] == groups[|groups| - 1];
      }
      if g.data != [] || end < |a.data| {
        LoopV2InStep(a, fileCount, dirs, Progress(end, at.f + |g.files|, Written(at.tree, r.items), r.mem), rest);
        WrittenConcat(at.tree, r.items, GroupsRead(true, a.B, end, rest, r.mem).items);
      } else {
        assert rest == [] && FilesIn(rest) == 0;
      }
    }
  }

  // ----- V1 archives

  lemma FilesV1Step(a: Archive, fileCount: nat, dirs: seq<(seq<byte>, byte)>, success: bool,
                    at: Progress, data: seq<byte>, files: seq<FileInfo>)
    requires a.Valid() && At(a.data, at.pos, GroupBytesV1(data, files)) && at.pos <= |a.data| && InfosFit(files)
    requires files != [] && at.f < fileCount && HeaderReadV1(a.B, at.pos, data, files[0], at.mem).1 == |data|
    ensures var f, rest := files[0], files[1..];
      var end := at.pos + |FileBytesV1(data, f)|;
      var (t, size, mem) := HeaderReadV1(a.B, at.pos, data, f, at.mem);
      var next := Progress(end, at.f + 1, Written(at.tree, [FileItem(t, data)]), mem);
      && end <= |a.data| && At(a.data, end, GroupBytesV1(data, rest)) && InfosFit(rest)
      && LoopV1(a, fileCount, dirs, success, at)
           == LoopV1(a, fileCount, dirs, success && (data != [] || end < |a.data|), next)
      && |GroupBytesV1(data, files)| == |FileBytesV1(data, f)| + |GroupBytesV1(data, rest)|
      && (rest != [] ==> |GroupBytesV1(data, rest)| > 0)
  {
    hide FileV1, CopyOut, At, HeaderReadV1;
    var f := files[0];
    AtSplit(a.data, at.pos, FileBytesV1(data, f), GroupBytesV1(data, files[1..]));
    FileV1Reads(a, at, data, f);
    FileV1Pieces(a, at.pos, data, f);
    CopyOutExact(a, at.pos + 10 + |f.path|, 1, data);
    AtInside(a.data, at.pos + 10 + |f.path|, data);
    WrittenOne(at.tree, FileItem(HeaderReadV1(a.B, at.pos, data, f, at.mem).0, data));
  }

  lemma WrittenOne(tree: Tree, item: Item)
    ensures Written(tree, [item]) == tree[item.path := item.entry]
  {
    assert [item][1..] == [];
  }

  /** The files of a group of a V1 archive, with the loop going on behind them. */
  lemma {:induction false} FilesV1InStep(a: Archive, fileCount: nat, dirs: seq<(seq<byte>, byte)>, success: bool,
                                         at: Progress, data: seq<byte>, files: seq<FileInfo>)
    requires a.Valid() && At(a.data, at.pos, GroupBytesV1(data, files)) && at.pos <= |a.data| && InfosFit(files)
    requires at.f + |files| <= fileCount && FilesReadV1(a.B, at.pos, data, files, at.mem).sizes
    ensures var end, r := at.pos + |GroupBytesV1(data, files)|, FilesReadV1(a.B, at.pos, data, files, at.mem);
      var next := Progress(end, at.f + |files|, Written(at.tree, r.items), r.mem);
      var ok := success && (files == [] || data != [] || end < |a.data|);
      end <= |a.data| && LoopV1(a, fileCount, dirs, success, at) == LoopV1(a, fileCount, dirs, ok, next)
    decreases |files|
  {
    hide LoopV1, FileBytesV1, At, HeaderReadV1, InfoFits, Written;
    if files == [] {
      WrittenNothing(at.tree);
    } else {
      var f := files[0];
      FilesV1Step(a, fileCount, dirs, success, at, data, files);
      var end := at.pos + |FileBytesV1(data, f)|;
      var (t, size, mem) := HeaderReadV1(a.B, at.pos, data, f, at.mem);
      var tree := Written(at.tree, [FileItem(t, data)]);
      FilesV1InStep(a, fileCount, dirs, success && (data != [] || end < |a.data|),
                    Progress(end, at.f + 1, tree, mem), data, files[1..]);
      WrittenConcat(at.tree, [FileItem(t, data)], FilesReadV1(a.B, end, data, files[1..], mem).items);
    }
  }

  lemma LoopV1Step(a: Archive, fileCount: nat, dirs: seq<(seq<byte>, byte)>, success: bool, at: Progress,
      groups: seq<Group>)
    requires a.Valid() && At(a.data, at.pos, AllGroupBytes(false, groups)) && at.pos <= |a.data|
    requires AllReadable(groups) && groups != [] && at.f + FilesIn(groups) == fileCount
    requires FilesReadV1(a.B, at.pos, groups[0].data, groups[0].files, at.mem).sizes
    ensures var g, rest := groups[0], groups[1..];
      var end, r := at.pos + |GroupBytesV1(g.data, g.files)|, FilesReadV1(a.B, at.pos, g.data, g.files, at.mem);
      var next := Progress(end, at.f + |g.files|, Written(at.tree, r.items), r.mem);
      && end <= |a.data| && At(a.data, end, AllGroupBytes(false, rest)) && AllReadable(rest)
      && LoopV1(a, fileCount, dirs, success, at)
           == LoopV1(a, fileCount, dirs, success && (g.data != [] || end < |a.data|), next)
      && |AllGroupBytes(false, groups)| == |GroupBytesV1(g.data, g.files)| + |AllGroupBytes(false, rest)|
  {
    hide LoopV1, GroupBytesV1, At, FilesReadV1, Written;
    var g := groups[0];
    assert Readable(g);
    AtSplit(a.data, at.pos, GroupBytesV1(g.data, g.files), AllGroupBytes(false, groups[1..]));
    FilesV1InStep(a, fileCount, dirs, success, at, g.data, g.files);
  }

  lemma {:induction false} LoopV1InStep(a: Archive, fileCount: nat, dirs: seq<(seq<byte>, byte)>, success: bool,
                                        at: Progress, groups: seq<Group>)
    requires a.Valid() && At(a.data, at.pos, AllGroupBytes(false, groups)) && AllReadable(groups)
    requires at.pos + |AllGroupBytes(false, groups)| == |a.data| && at.f + FilesIn(groups) == fileCount
    requires GroupsRead(false, a.B, at.pos, groups, at.mem).sizes
    ensures var o := LoopV1(a, fileCount, dirs, success, at);
      && o.Finished? && o.dirs == dirs && o.at.pos == |a.data| && o.at.f == fileCount
      && (o.ok <==> success && LastBlobHasData(groups))
      && o.at.tree == Written(at.tree, GroupsRead(false, a.B, at.pos, groups, at.mem).items)
    decreases |groups|
  {
    hide FileV1, GroupBytesV1, At, FilesReadV1, Written, InfoFits;
    if groups == [] {
      WrittenNothing(at.tree);
    } else {
      var g, rest := groups[0], groups[1..];
      var end, r := at.pos + |GroupBytesV1(g.data, g.files)|, FilesReadV1(a.B, at.pos, g.data, g.files, at.mem);
      LoopV1Step(a, fileCount, dirs, success, at, groups);
      if rest != [] {
        GroupBytesNonEmpty(false, rest);
        assert rest[|rest| - 1] == groups[|groups| - 1];
      }
      LoopV1InStep(a, fileCount, dirs, success && (g.data != [] || end < |a.data|),
                   Progress(end, at.f + |g.files|, Written(at.tree, r.items), r.mem), rest);
      WrittenConcat(at.tree, r.items, GroupsRead(false, a.B, end, rest, r.mem).items);
    }
  }

  // ----- whole archives

  function StartOfArchive(v2: bool): seq<byte> {
    if v2 then MERCYPAK_V2_MAGIC else MERCYPAK_V1_MAGIC
  }

  lemma HeaderPieces(data: seq<byte>, v2: bool, dirs: seq<Directory>, groups: seq<Group>, fileCount: nat)
    requires data == ArchiveBytes(v2, dirs, groups, fileCount)
    ensures At(data, 0, StartOfArchive(v2)) && At(data, 4, ToLE(|dirs|, 4)) && At(data, 8, ToLE(fileCount, 4))
    ensures At(data, 12, AllDirBytes(dirs)) && At(data, 12 + |AllDirBytes(dirs)|, AllGroupBytes(v2, groups))
    ensures |data| == 12 + |AllDirBytes(dirs)| + |AllGroupBytes(v2, groups)|
  {
    hide AllDirBytes, AllGroupBytes, ToLE;
    var body := AllDirBytes(dirs) + AllGroupBytes(v2, groups);
    assert data[0..0 + |data|] == data;
    assert At(data, 0, data);
    AtSplit(data, 0, StartOfArchive(v2), ToLE(|dirs|, 4) + (ToLE(fileCount, 4) + body));
    AtSplit(data, 4, ToLE(|dirs|, 4), ToLE(fileCount, 4) + body);
    AtSplit(data, 8, ToLE(fileCount, 4), body);
    AtSplit(data, 12, AllDirBytes(dirs), AllGroupBytes(v2, groups));
  }

  /** What has to hold of the packed input, apart from the reader: all of it is known when packing. */
  ghost predicate Packable(dirs: seq<Directory>, groups: seq<Group>, fileCount: nat) {
    && Writable(dirs, groups, fileCount)
    && (forall i :: 0 <= i < |dirs| ==> dirs[i].path != [])
    && Unpackable(groups) && FilesIn(groups) == fileCount
  }

  lemma PackableIsReadable(dirs: seq<Directory>, groups: seq<Group>, fileCount: nat)
    requires Packable(dirs, groups, fileCount)
    ensures PathsFit(dirs) && AllReadable(groups) && |dirs| < 0x1_0000_0000 && fileCount < 0x1_0000_0000
  {
  }

  /** Magic and counts are read as they are packed. */
  predicate CountsFit(B: nat)
    requires B > 0
  {
    Fits(B, 0, 4) && Fits(B, 4, 4) && Fits(B, 8, 4)
  }

  lemma CountsRead(a: Archive, v2: bool, dirs: seq<Directory>, groups: seq<Group>, fileCount: nat)
    requires a.Valid() && a.data == ArchiveBytes(v2, dirs, groups, fileCount) && CountsFit(a.B)
    requires |dirs| < 0x1_0000_0000 && fileCount < 0x1_0000_0000
    ensures Counts(a) == Got((StartOfArchive(v2), |dirs|, fileCount, 12))
  {
    hide Field, FromLE, ToLE, AllDirBytes, AllGroupBytes, ArchiveBytes, At, Overlay;
    HeaderPieces(a.data, v2, dirs, groups, fileCount);
    FieldReads(a, 0, StartOfArchive(v2), [0, 0, 0, 0]);
    FieldReads(a, 4, ToLE(|dirs|, 4), a.unset.dirCount);
    FieldReads(a, 8, ToLE(fileCount, 4), a.unset.fileCount);
    OverlayInside(a.B, 0, StartOfArchive(v2), [0, 0, 0, 0]);
    OverlayInside(a.B, 4, ToLE(|dirs|, 4), a.unset.dirCount);
    OverlayInside(a.B, 8, ToLE(fileCount, 4), a.unset.fileCount);
    Pow256Values();
    FromToLE(|dirs|, 4);
    FromToLE(fileCount, 4);
  }

  /** The directories of an archive as they are read, and the path buffer behind them. */
  function DirTableRead(B: nat, dirs: seq<Directory>): (seq<(seq<byte>, byte)>, Text)
    requires B > 0 && PathsFit(dirs)
  {
    DirsRead(B, 12, dirs, ClearText())
  }

  /** The files of an archive as they are read; the first V1 descriptor is read over what its buffer held. */
  function FilesRead(v2: bool, B: nat, dirs: seq<Directory>, groups: seq<Group>, descriptor: Nine): Reading
    requires B > 0 && PathsFit(dirs) && AllReadable(groups)
  {
    GroupsRead(v2, B, 12 + |AllDirBytes(dirs)|, groups, Memory(DirTableRead(B, dirs).1, ClearSlots(), descriptor))
  }

  lemma HeaderReads(a: Archive, v2: bool, dirs: seq<Directory>, groups: seq<Group>, fileCount: nat)
    requires a.Valid() && a.data == ArchiveBytes(v2, dirs, groups, fileCount)
    requires Packable(dirs, groups, fileCount) && PathsFit(dirs) && CountsFit(a.B)
    ensures var (read, text) := DirTableRead(a.B, dirs);
      UnpackHeader(a) == Got((v2, fileCount, read, text, 12 + |AllDirBytes(dirs)|))
  {
    hide Counts, Dirs, DirsRead, AllDirBytes, AllGroupBytes, ArchiveBytes, At, CountsFit;
    HeaderPieces(a.data, v2, dirs, groups, fileCount);
    CountsRead(a, v2, dirs, groups, fileCount);
    DirsAreRead(a, 12, dirs, [], ClearText());
    var read := DirTableRead(a.B, dirs).0;
    assert [] + read == read;
  }

  /**
   Unpacking a packed archive of either version, when magic, counts and sizes are read back: it ends with
   pos == size and f == fileCount, makes the directories as they are read, succeeds if and only if the last
   blob is not empty, and then leaves the files as they are read.
   */
  lemma UnpackReads(a: Archive, v2: bool, dirs: seq<Directory>, groups: seq<Group>, fileCount: nat)
    requires a.B > 0 && a.data == ArchiveBytes(v2, dirs, groups, fileCount)
    requires Packable(dirs, groups, fileCount) && PathsFit(dirs) && AllReadable(groups) && CountsFit(a.B)
    requires FilesRead(v2, a.B, dirs, groups, a.unset.descriptor).sizes
    ensures a.Valid()
    ensures var o := Unpack(a);
      && o.Finished? && o.dirs == DirTableRead(a.B, dirs).0 && o.at.pos == |a.data| && o.at.f == fileCount
      && (o.ok <==> LastBlobHasData(groups))
      && (o.ok ==> o.at.tree == Written(map[], FilesRead(v2, a.B, dirs, groups, a.unset.descriptor).items))
  {
    hide UnpackHeader, LoopV1, LoopV2, AllDirBytes, AllGroupBytes, ArchiveBytes, At, CountsFit, Written, GroupsRead,
      DirTableRead, ClearSlots;
    HeaderPieces(a.data, v2, dirs, groups, fileCount);
    HeaderReads(a, v2, dirs, groups, fileCount);
    var (read, text) := DirTableRead(a.B, dirs);
    var start := Progress(12 + |AllDirBytes(dirs)|, 0, map[], StartMemory(a, text));
    if v2 {
      LoopV2InStep(a, fileCount, read, start, groups);
    } else {
      LoopV1InStep(a, fileCount, read, true, start, groups);
    }
  }
}
