/** The MercyPak format byte by byte, as the packer writes it, and what the unpacker makes of some of its fields. */
module Format {
  import opened Bytes
  import opened ReaderSpec
  import opened Dedup
  import opened MercyPak
  import opened Unpacker
  import opened AsRead
  import opened RoundTrip

  // ----- what can be packed

  /** Everything comes back from the field it goes to. */
  ghost predicate NothingIsLost(dirs: seq<Directory>, groups: seq<Group>, fileCount: nat) {
    && FromLE(ToLE(|dirs|, 4)) == |dirs| && FromLE(ToLE(fileCount, 4)) == fileCount
    && (forall i :: 0 <= i < |dirs| ==> |dirs[i].path| % 0x100 == |dirs[i].path|)
    && (forall i :: 0 <= i < |groups| ==> NothingIsLostOf(groups[i]))
  }

  ghost predicate NothingIsLostOf(g: Group) {
    && FromLE(ToLE(|g.data|, 4)) == |g.data| && |g.files| % 0x100 == |g.files|
    && forall i :: 0 <= i < |g.files| ==> NothingIsLostOfFile(g.files[i])
  }

  ghost predicate NothingIsLostOfFile(f: FileInfo) {
    |f.path| % 0x100 == |f.path| && FromLE(ToLE(f.date, 2)) == f.date && FromLE(ToLE(f.time, 2)) == f.time
  }

  lemma FileIsKeptIff(f: FileInfo)
    ensures InfoFits(f) <==> NothingIsLostOfFile(f)
  {
    hide FromLE, ToLE, Pow256;
    Pow256Values();
    FitsIffReadBack(f.date, 2);
    FitsIffReadBack(f.time, 2);
  }

  lemma GroupIsKeptIff(g: Group)
    ensures GroupFits(g) <==> NothingIsLostOf(g)
  {
    hide FromLE, ToLE, Pow256, InfoFits, NothingIsLostOfFile;
    Pow256Values();
    FitsIffReadBack(|g.data|, 4);
    forall f
      ensures InfoFits(f) <==> NothingIsLostOfFile(f)
    {
      FileIsKeptIff(f);
    }
  }

  /** Packing raises an exception exactly when some number or length would not come back from its field. */
  lemma PackableIff(dirs: seq<Directory>, groups: seq<Group>, fileCount: nat)
    ensures Writable(dirs, groups, fileCount) <==> NothingIsLost(dirs, groups, fileCount)
  {
    hide FromLE, ToLE, Pow256, GroupFits, NothingIsLostOf;
    Pow256Values();
    FitsIffReadBack(|dirs|, 4);
    FitsIffReadBack(fileCount, 4);
    forall g
      ensures GroupFits(g) <==> NothingIsLostOf(g)
    {
      GroupIsKeptIff(g);
    }
  }

  // ----- where everything is

  /** The archive starts with its magic and the numbers of directories and files. */
  lemma ArchiveStart(v2: bool, dirs: seq<Directory>, groups: seq<Group>, fileCount: nat, data: seq<byte>)
    requires data == ArchiveBytes(v2, dirs, groups, fileCount) && |dirs| < 0x1_0000_0000 && fileCount < 0x1_0000_0000
    ensures |data| >= 12
    ensures data[..4] == if v2 then [0x4D, 0x52, 0x43, 0x59] else [0x5A, 0x49, 0x45, 0x47]
    ensures (data[4] as int) + 0x100 * (data[5] as int) + 0x1_0000 * (data[6] as int) + 0x100_0000 * (data[7] as int)
         == |dirs|
    ensures (data[8] as int) + 0x100 * (data[9] as int) + 0x1_0000 * (data[10] as int) + 0x100_0000 * (data[11] as int)
         == fileCount
  {
    hide ToLE, FromLE, AllDirBytes, AllGroupBytes, ArchiveBytes;
    HeaderPieces(data, v2, dirs, groups, fileCount);
    Pow256Values();
    FromToLE(|dirs|, 4);
    FromToLE(fileCount, 4);
    FourBytes(data[4..8]);
    FourBytes(data[8..12]);
  }

  /** A directory: attributes, length of its path, path. */
  lemma DirectoryIs(d: Directory)
    requires |d.path| <= 255
    ensures DirBytes(d) == [d.attribute % 256, |d.path|] + d.path
  {
  }

  /** A file: length of its path, path, attributes, date and time, two bytes each with the low one first. */
  lemma FileIs(f: FileInfo)
    requires InfoFits(f)
    ensures var b, n := InfoBytes(f), |f.path|;
      && |b| == 6 + n && b[0] == n && b[1..1 + n] == f.path
      && b[1 + n] == f.attribute % 256
      && (b[2 + n] as int) + 0x100 * (b[3 + n] as int) == f.date
      && (b[4 + n] as int) + 0x100 * (b[5 + n] as int) == f.time
  {
    hide ToLE, FromLE, Pow256;
    var b, n := InfoBytes(f), |f.path|;
    Pow256Values();
    FromToLE(f.date, 2);
    FromToLE(f.time, 2);
    assert b[2 + n..4 + n] == ToLE(f.date, 2) && b[4 + n..6 + n] == ToLE(f.time, 2);
    TwoBytes(b[2 + n..4 + n]);
    TwoBytes(b[4 + n..6 + n]);
  }

  /** A V2 group: its number of files, their headers, the length of the data and the data, once. */
  lemma GroupIsV2(g: Group)
    requires |g.files| <= 255 && |g.data| <= 0xFFFF_FFFF
    ensures var b, k := GroupBytesV2(g), |HeaderBytes(g.files)|;
      && |b| == 5 + k + |g.data| && b[0] == |g.files| && b[1..1 + k] == HeaderBytes(g.files)
      && (b[1 + k] as int) + 0x100 * (b[2 + k] as int) + 0x1_0000 * (b[3 + k] as int) + 0x100_0000 * (b[4 + k] as int)
           == |g.data|
      && b[5 + k..] == g.data
  {
    hide ToLE, FromLE, Pow256, HeaderBytes;
    var b, k := GroupBytesV2(g), |HeaderBytes(g.files)|;
    Pow256Values();
    FromToLE(|g.data|, 4);
    assert b[1 + k..5 + k] == ToLE(|g.data|, 4);
    FourBytes(b[1 + k..5 + k]);
  }

  /** A V1 file: its header, the length of the data and the data. */
  lemma FileIsV1(data: seq<byte>, f: FileInfo)
    requires |data| <= 0xFFFF_FFFF
    ensures var b, k := FileBytesV1(data, f), |InfoBytes(f)|;
      && |b| == 4 + k + |data| && b[..k] == InfoBytes(f)
      && (b[k] as int) + 0x100 * (b[1 + k] as int) + 0x1_0000 * (b[2 + k] as int) + 0x100_0000 * (b[3 + k] as int)
           == |data|
      && b[4 + k..] == data
  {
    hide ToLE, FromLE, Pow256, InfoBytes;
    var b, k := FileBytesV1(data, f), |InfoBytes(f)|;
    Pow256Values();
    FromToLE(|data|, 4);
    assert b[k..4 + k] == ToLE(|data|, 4);
    FourBytes(b[k..4 + k]);
  }

  // ----- what is made of it

  /** More than sixteen files in a V2 group are fatal, sixteen are not; and files are counted in 32 bits. */
  lemma GroupLimits(a: Archive, at: Progress)
    requires a.Valid() && at.pos < |a.data|
    ensures var r := GroupV2(a, at);
      && (a.data[at.pos] > 16 <==> r == Bad(TooManyIdentical))
      && (r.Got? ==> r.value.1.f == (at.f + a.data[at.pos]) % 0x1_0000_0000)
  {
    hide Field, Headers, CopyOut, Store, FromLE;
    assert a.data[at.pos..at.pos + 1] == [a.data[at.pos]];
    OneByteReads(a, at.pos, a.data[at.pos]);
    var c := a.data[at.pos];
    if c <= 16 && Headers(a, at.pos + 1, c, [], at.mem).Bad? {
      HeadersAreNeverTooMany(a, at.pos + 1, c, [], at.mem);
    }
    if c <= 16 && Headers(a, at.pos + 1, c, [], at.mem).Got? {
      var p := Headers(a, at.pos + 1, c, [], at.mem).value.2;
      FieldIsNeverTooMany(a, p, [0, 0, 0, 0]);
      if Field(a, p, [0, 0, 0, 0]).Got? {
        CopyIsNeverTooMany(a, Field(a, p, [0, 0, 0, 0]).value.1, c, FromLE(Field(a, p, [0, 0, 0, 0]).value.0));
      }
    }
  }

  lemma FieldIsNeverTooMany(a: Archive, pos: nat, dst: seq<byte>)
    requires a.Valid()
    ensures Field(a, pos, dst) != Bad(TooManyIdentical)
  {
    hide Transfer;
  }

  lemma CopyIsNeverTooMany(a: Archive, pos: nat, n: nat, len: nat)
    requires a.Valid() && pos <= |a.data|
    ensures CopyOut(a, pos, n, len) != Bad(TooManyIdentical)
  {
    hide Transfer;
  }

  lemma StringIsNeverTooMany(a: Archive, pos: nat, text: Text)
    requires a.Valid()
    ensures String(a, pos, text) != Bad(TooManyIdentical)
  {
    hide Field, UnixPath, AfterString;
    FieldIsNeverTooMany(a, pos, [0]);
    if Field(a, pos, [0]).Got? {
      var (n, p1) := Field(a, pos, [0]).value;
      FieldIsNeverTooMany(a, p1, text[..n[0]]);
    }
  }

  lemma {:induction false} HeadersAreNeverTooMany(a: Archive, pos: nat, k: nat, done: seq<Target>, mem: Memory)
    requires a.Valid() && pos <= |a.data| && |done| + k <= MERCYPAK_V2_MAX_IDENTICAL_FILES
    ensures Headers(a, pos, k, done, mem) != Bad(TooManyIdentical)
    decreases k
  {
    hide Field, String, StampOf;
    if k > 0 {
      StringIsNeverTooMany(a, pos, mem.text);
      if String(a, pos, mem.text).Got? {
        var (path, text, p1) := String(a, pos, mem.text).value;
        FieldIsNeverTooMany(a, p1, mem.slots[|done|]);
        if Field(a, p1, mem.slots[|done|]).Got? {
          var (d, p2) := Field(a, p1, mem.slots[|done|]).value;
          HeadersAreNeverTooMany(a, p2, k - 1, done + [Target(path, StampOf(d))],
                                 mem.(text := text, slots := mem.slots[|done| := d]));
        }
      }
    }
  }

  /**
   The path buffer after a string: the string converted up to its first zero byte, from there on as it was read, a
   zero behind it, and further on what the buffer held.
   */
  lemma BufferAfterString(text: Text, s: seq<byte>, i: nat)
    requires |s| <= 255 && i < 256
    ensures i < |s| && (forall j :: 0 <= j <= i ==> s[j] != 0) ==>
              AfterString(text, s)[i] == if s[i] == 0x5C then 0x2F else s[i]
    ensures i < |s| && (exists j :: 0 <= j <= i && s[j] == 0) ==> AfterString(text, s)[i] == s[i]
    ensures i == |s| ==> AfterString(text, s)[i] == 0
    ensures i > |s| ==> AfterString(text, s)[i] == text[i]
  {
    hide CString;
    CStringIs(s);
    var c := CString(s);
    assert forall j :: 0 <= j < |c| ==> c[j] == s[j];
    if |c| < |s| {
      assert s[|c|] == 0;
    }
  }

  /** Without stamps, the entries of a group have none. */
  lemma {:induction false} StoreUnstamped(tree: Tree, targets: seq<Target>, outs: seq<seq<byte>>, i: nat)
    requires |targets| == |outs| && i < |targets|
    ensures targets[i].path in Store(tree, targets, outs, false)
    ensures Store(tree, targets, outs, false)[targets[i].path].stamp == None
    decreases |targets|
  {
    var next := tree[targets[0].path := Entry(outs[0], None)];
    if i > 0 {
      StoreUnstamped(next, targets[1..], outs[1..], i - 1);
    } else {
      UnstampedStays(next, targets[1..], outs[1..], targets[0].path);
    }
  }

  lemma {:induction false} UnstampedStays(tree: Tree, targets: seq<Target>, outs: seq<seq<byte>>, p: seq<byte>)
    requires |targets| == |outs| && p in tree && tree[p].stamp == None
    ensures p in Store(tree, targets, outs, false) && Store(tree, targets, outs, false)[p].stamp == None
    decreases |targets|
  {
    if targets != [] {
      UnstampedStays(tree[targets[0].path := Entry(outs[0], None)], targets[1..], outs[1..], p);
    }
  }

  /**
   An empty blob at the very end: the V2 unpacker leaves its files there without date, time and attributes, the V1
   unpacker sets them; both answer false.
   */
  lemma LastEmptyBlob(a: Archive, at: Progress, g: Group, i: nat)
    requires a.Valid() && At(a.data, at.pos, GroupBytesV2(g)) && at.pos <= |a.data| && Readable(g) && i < |g.files|
    requires g.data == [] && at.pos + |GroupBytesV2(g)| == |a.data| && SizeRead(a.B, |a.data| - 4, []) == 0
    ensures GroupV2(a, at).Got? && !GroupV2(a, at).value.0
    ensures var tree := GroupV2(a, at).value.1.tree;
      var path := InfosRead(a.B, at.pos + 1, g.files, 0, at.mem).0[i].path;
      path in tree && tree[path].stamp == None
  {
    hide GroupV2, CopyOut, Store, SizeRead, InfosRead, At, GroupBytesV2, HeaderBytes;
    GroupV2Reads(a, at, g);
    GroupV2Pieces(a, at.pos, g);
    assert At(a.data, |a.data|, []) by { EmptyAtEnd(a.data); }
    CopyOutExact(a, |a.data|, |g.files|, []);
    StoreUnstamped(at.tree, InfosRead(a.B, at.pos + 1, g.files, 0, at.mem).0, Repeat(|g.files|, []), i);
  }

  lemma EmptyAtEnd(data: seq<byte>)
    ensures At(data, |data|, [])
  {
  }

  lemma LastEmptyBlobV1(a: Archive, at: Progress, f: FileInfo)
    requires a.Valid() && At(a.data, at.pos, FileBytesV1([], f)) && at.pos <= |a.data| && InfoFits(f)
    requires at.pos + |FileBytesV1([], f)| == |a.data| && HeaderReadV1(a.B, at.pos, [], f, at.mem).1 == 0
    ensures FileV1(a, at).Got? && !FileV1(a, at).value.0
    ensures var t := HeaderReadV1(a.B, at.pos, [], f, at.mem).0;
      FileV1(a, at).value.1.tree == at.tree[t.path := Entry([], Some(t.stamp))]
  {
    hide FileV1, CopyOut, At, HeaderReadV1;
    FileV1Reads(a, at, [], f);
    FileV1Pieces(a, at.pos, [], f);
    CopyOutExact(a, |a.data|, 1, []);
  }
}
