/** Packing with sysprep/mercypak.py and unpacking with installer/install.c: what comes back. */
module RoundTrip {
  import opened Bytes
  import opened Dedup
  import opened MercyPak
  import opened Unpacker
  import opened AsRead
  import ReaderSpec

  // ----- header fields inside one block

  predicate DirsFit(B: nat, pos: nat, dirs: seq<Directory>)
    requires B > 0
    decreases |dirs|
  {
    dirs == [] ||
    (&& Fits(B, pos, 1) && Fits(B, pos + 1, 1) && Fits(B, pos + 2, |dirs[0].path|)
     && DirsFit(B, pos + 2 + |dirs[0].path|, dirs[1..]))
  }

  predicate InfoFitsAt(B: nat, pos: nat, f: FileInfo)
    requires B > 0
  {
    Fits(B, pos, 1) && Fits(B, pos + 1, |f.path|) && Fits(B, pos + 1 + |f.path|, 5)
  }

  predicate HeadersFit(B: nat, pos: nat, files: seq<FileInfo>)
    requires B > 0
    decreases |files|
  {
    files == [] ||
    (InfoFitsAt(B, pos, files[0])
     && HeadersFit(B, pos + 6 + |files[0].path|, files[1..]))
  }

  predicate FileFitsV1At(B: nat, pos: nat, f: FileInfo)
    requires B > 0
  {
    Fits(B, pos, 1) && Fits(B, pos + 1, |f.path|) && Fits(B, pos + 1 + |f.path|, 9)
  }

  predicate FilesFitV1(B: nat, pos: nat, data: seq<byte>, files: seq<FileInfo>)
    requires B > 0
    decreases |files|
  {
    files == [] ||
    (FileFitsV1At(B, pos, files[0])
     && FilesFitV1(B, pos + 10 + |files[0].path| + |data|, data, files[1..]))
  }

  predicate GroupFitsAt(v2: bool, B: nat, pos: nat, g: Group)
    requires B > 0
  {
    if v2 then Fits(B, pos, 1) && HeadersFit(B, pos + 1, g.files) && Fits(B, pos + 1 + |HeaderBytes(g.files)|, 4)
    else FilesFitV1(B, pos, g.data, g.files)
  }

  predicate GroupsFit(v2: bool, B: nat, pos: nat, groups: seq<Group>)
    requires B > 0
    decreases |groups|
  {
    groups == [] ||
    (GroupFitsAt(v2, B, pos, groups[0]) && GroupsFit(v2, B, pos + |GroupBytes(v2, groups[0])|, groups[1..]))
  }

  /** No header field of the archive straddles a block boundary of the reader. */
  predicate HeadersInOneBlock(v2: bool, B: nat, dirs: seq<Directory>, groups: seq<Group>)
    requires B > 0
  {
    CountsFit(B) && DirsFit(B, 12, dirs) && GroupsFit(v2, B, 12 + |AllDirBytes(dirs)|, groups)
  }

  // ----- what should come back

  function StampFor(f: FileInfo): Stamp {
    Stamp(f.attribute % 256, f.date, f.time)
  }

  function DirsFor(dirs: seq<Directory>): seq<(seq<byte>, byte)> {
    if dirs == [] then [] else [(UnixPath(dirs[0].path), dirs[0].attribute % 256)] + DirsFor(dirs[1..])
  }

  function PathFor(f: File): seq<byte> {
    UnixPath(f.info.path)
  }

  function EntryFor(f: File): Entry {
    Entry(f.data, Some(StampFor(f.info)))
  }

  function ItemFor(f: File): Item {
    Item(PathFor(f), EntryFor(f))
  }

  function Items(files: seq<File>): (r: seq<Item>)
    ensures |r| == |files| && forall i :: 0 <= i < |files| ==> r[i] == ItemFor(files[i])
  {
    seq(|files|, i requires 0 <= i < |files| => ItemFor(files[i]))
  }

  /** A path without backslash and zero byte comes back as it is. */
  lemma {:induction false} UnixPathKeeps(s: seq<byte>)
    requires 0 !in s && 0x5C !in s
    ensures UnixPath(s) == s
  {
    CStringKeeps(s);
  }

  lemma {:induction false} CStringKeeps(s: seq<byte>)
    requires 0 !in s
    ensures CString(s) == s
    decreases |s|
  {
    if s != [] {
      CStringKeeps(s[1..]);
    }
  }

  // ----- fields inside one block are read as they are packed

  lemma FieldExact(a: Archive, pos: nat, b: seq<byte>, dst: seq<byte>)
    requires a.Valid() && At(a.data, pos, b) && pos < |a.data| && |dst| == |b| && Fits(a.B, pos, |b|)
    ensures Field(a, pos, dst) == Got((b, pos + |b|))
  {
    hide Field;
    FieldReads(a, pos, b, dst);
    OverlayInside(a.B, pos, b, dst);
  }

  lemma StampExact(f: FileInfo, tail: seq<byte>)
    requires InfoFits(f)
    ensures StampOf(StampBytes(f) + tail) == StampFor(f)
  {
    var b := StampBytes(f) + tail;
    assert b[1..3] == ToLE(f.date, 2) && b[3..5] == ToLE(f.time, 2);
    Pow256Values();
    FromToLE(f.date, 2);
    FromToLE(f.time, 2);
  }

  lemma SizeExact(data: seq<byte>)
    requires |data| <= 0xffff_ffff
    ensures FromLE(SizeBytes(data)) == |data|
  {
    Pow256Values();
    FromToLE(|data|, 4);
  }

  lemma {:induction false} DirsFitRead(B: nat, pos: nat, dirs: seq<Directory>, text: Text)
    requires B > 0 && PathsFit(dirs) && DirsFit(B, pos, dirs)
    ensures DirsRead(B, pos, dirs, text).0 == DirsFor(dirs)
    decreases |dirs|
  {
    hide Overlay, UnixPath, AfterString;
    if dirs != [] {
      var d := dirs[0];
      OverlayInside(B, pos + 2, d.path, text[..|d.path|]);
      DirsFitRead(B, pos + 2 + |d.path|, dirs[1..], AfterString(text, d.path));
    }
  }

  lemma InfoFitRead(B: nat, pos: nat, f: FileInfo, i: nat, mem: Memory)
    requires B > 0 && InfoFits(f) && i < MERCYPAK_V2_MAX_IDENTICAL_FILES && InfoFitsAt(B, pos, f)
    ensures InfoRead(B, pos, f, i, mem).0 == Target(UnixPath(f.path), StampFor(f))
  {
    hide Overlay, UnixPath, AfterString, StampOf, StampFor;
    OverlayInside(B, pos + 1, f.path, mem.text[..|f.path|]);
    OverlayInside(B, pos + 1 + |f.path|, StampBytes(f), mem.slots[i]);
    assert StampBytes(f) + [] == StampBytes(f);
    StampExact(f, []);
  }

  /** The files of a group, from a given one on, as items. */
  function GroupItems(files: seq<FileInfo>, data: seq<byte>): (r: seq<Item>) {
    Items(GroupFiles(Group(data, files)))
  }

  lemma GroupItemsStep(files: seq<FileInfo>, data: seq<byte>)
    requires files != []
    ensures GroupItems(files, data)
         == [FileItem(Target(UnixPath(files[0].path), StampFor(files[0])), data)] + GroupItems(files[1..], data)
  {
    hide UnixPath, StampFor;
  }

  lemma {:induction false} HeadersFitRead(B: nat, pos: nat, files: seq<FileInfo>, i: nat, mem: Memory, data: seq<byte>)
    requires B > 0 && InfosFit(files) && i + |files| <= MERCYPAK_V2_MAX_IDENTICAL_FILES && HeadersFit(B, pos, files)
    ensures TargetItems(InfosRead(B, pos, files, i, mem).0, data) == GroupItems(files, data)
    decreases |files|
  {
    hide InfoRead, InfoFits, UnixPath, StampFor;
    if files != [] {
      InfoFitRead(B, pos, files[0], i, mem);
      HeadersFitRead(B, pos + 6 + |files[0].path|, files[1..], i + 1, InfoRead(B, pos, files[0], i, mem).1, data);
      GroupItemsStep(files, data);
    }
  }

  lemma HeaderFitReadV1(B: nat, pos: nat, data: seq<byte>, f: FileInfo, mem: Memory)
    requires B > 0 && InfoFits(f) && |data| <= 0xffff_ffff && FileFitsV1At(B, pos, f)
    ensures HeaderReadV1(B, pos, data, f, mem).0 == Target(UnixPath(f.path), StampFor(f))
    ensures HeaderReadV1(B, pos, data, f, mem).1 == |data|
  {
    hide Overlay, UnixPath, AfterString, StampOf, StampFor, FromLE, StampBytes, SizeBytes;
    OverlayInside(B, pos + 1, f.path, mem.text[..|f.path|]);
    OverlayInside(B, pos + 1 + |f.path|, DescriptorBytes(data, f), mem.descriptor);
    StampExact(f, SizeBytes(data));
    SizeExact(data);
  }

  lemma {:induction false} FilesFitReadV1(B: nat, pos: nat, data: seq<byte>, files: seq<FileInfo>, mem: Memory)
    requires B > 0 && InfosFit(files) && |data| <= 0xffff_ffff && FilesFitV1(B, pos, data, files)
    ensures FilesReadV1(B, pos, data, files, mem).items == GroupItems(files, data)
    ensures FilesReadV1(B, pos, data, files, mem).sizes
    decreases |files|
  {
    hide HeaderReadV1, InfoFits, UnixPath, StampFor;
    if files != [] {
      var f := files[0];
      HeaderFitReadV1(B, pos, data, f, mem);
      assert |FileBytesV1(data, f)| == 10 + |f.path| + |data|;
      FilesFitReadV1(B, pos + |FileBytesV1(data, f)|, data, files[1..], HeaderReadV1(B, pos, data, f, mem).2);
      GroupItemsStep(files, data);
    }
  }

  lemma GroupFitRead(v2: bool, B: nat, pos: nat, g: Group, mem: Memory)
    requires B > 0 && Readable(g) && GroupFitsAt(v2, B, pos, g)
    ensures GroupRead(v2, B, pos, g, mem).items == Items(GroupFiles(g)) && GroupRead(v2, B, pos, g, mem).sizes
  {
    hide InfosRead, FilesReadV1, HeadersFit, FilesFitV1, HeaderBytes, Overlay, FromLE, Items;
    assert Group(g.data, g.files) == g;
    if v2 {
      HeadersFitRead(B, pos + 1, g.files, 0, mem, g.data);
      OverlayInside(B, pos + 1 + |HeaderBytes(g.files)|, SizeBytes(g.data), [0, 0, 0, 0]);
      SizeExact(g.data);
    } else {
      FilesFitReadV1(B, pos, g.data, g.files, mem);
    }
  }

  lemma GroupsReadStep(v2: bool, B: nat, pos: nat, groups: seq<Group>, mem: Memory)
    requires B > 0 && AllReadable(groups) && groups != []
    ensures Readable(groups[0]) && AllReadable(groups[1..])
    ensures var first := GroupRead(v2, B, pos, groups[0], mem);
      var rest := GroupsRead(v2, B, pos + |GroupBytes(v2, groups[0])|, groups[1..], first.mem);
      GroupsRead(v2, B, pos, groups, mem) == Reading(first.items + rest.items, rest.mem, first.sizes && rest.sizes)
  {
    hide GroupRead, Readable;
    assert Readable(groups[0]);
  }

  lemma {:induction false} GroupsFitRead(v2: bool, B: nat, pos: nat, groups: seq<Group>, mem: Memory)
    requires B > 0 && AllReadable(groups) && GroupsFit(v2, B, pos, groups)
    ensures GroupsRead(v2, B, pos, groups, mem).items == Items(Flatten(groups))
        && GroupsRead(v2, B, pos, groups, mem).sizes
    decreases |groups|
  {
    hide GroupRead, GroupFitsAt, Items, GroupFiles, Readable, GroupBytes;
    if groups == [] {
      NoItems();
    } else {
      var g := groups[0];
      GroupsReadStep(v2, B, pos, groups, mem);
      GroupFitRead(v2, B, pos, g, mem);
      GroupsFitRead(v2, B, pos + |GroupBytes(v2, g)|, groups[1..], GroupRead(v2, B, pos, g, mem).mem);
      ItemsConcat(GroupFiles(g), Flatten(groups[1..]));
    }
  }

  lemma NoItems()
    ensures Items([]) == []
  {
  }

  lemma ItemsConcat(x: seq<File>, y: seq<File>)
    ensures Items(x + y) == Items(x) + Items(y)
  {
    hide ItemFor;
  }

  // ----- the theorems

  /**
   Unpacking a packed archive of either version ends with pos == size and f == fileCount, makes exactly the
   packed directories, succeeds if and only if the last blob is not empty, and then leaves exactly the
   packed files. It holds whatever the buffers hold, as long as no header field straddles a block.
   */
  lemma UnpackPacked(a: Archive, v2: bool, dirs: seq<Directory>, groups: seq<Group>, fileCount: nat)
    requires a.B > 0 && a.data == ArchiveBytes(v2, dirs, groups, fileCount)
    requires Packable(dirs, groups, fileCount) && HeadersInOneBlock(v2, a.B, dirs, groups)
    ensures a.Valid()
    ensures var o := Unpack(a);
      && o.Finished? && o.dirs == DirsFor(dirs) && o.at.pos == |a.data| && o.at.f == fileCount
      && (o.ok <==> LastBlobHasData(groups))
      && (o.ok ==> o.at.tree == Written(map[], Items(Flatten(groups))))
  {
    hide Unpack, ArchiveBytes, AllDirBytes, GroupsRead, DirsRead, DirsFit, GroupsFit, CountsFit, Written, Items,
      Packable, ClearSlots, ClearText;
    PackableIsReadable(dirs, groups, fileCount);
    DirsFitRead(a.B, 12, dirs, ClearText());
    GroupsFitRead(v2, a.B, 12 + |AllDirBytes(dirs)|, groups,
                  Memory(DirTableRead(a.B, dirs).1, ClearSlots(), a.unset.descriptor));
    UnpackReads(a, v2, dirs, groups, fileCount);
  }

  /** The V1 and the V2 archive of the same groups, duplicate paths allowed, leave the same tree. */
  lemma VersionsAgree(dirs: seq<Directory>, groups: seq<Group>, fileCount: nat, a1: Archive, a2: Archive)
    requires a1.B > 0 && a1.data == ArchiveBytes(false, dirs, groups, fileCount)
    requires a2.B > 0 && a2.data == ArchiveBytes(true, dirs, groups, fileCount)
    requires Packable(dirs, groups, fileCount) && LastBlobHasData(groups)
    requires HeadersInOneBlock(false, a1.B, dirs, groups) && HeadersInOneBlock(true, a2.B, dirs, groups)
    ensures a1.Valid() && a2.Valid()
    ensures var o1, o2 := Unpack(a1), Unpack(a2);
      && o1.Finished? && o2.Finished? && o1.ok && o2.ok
      && o1.dirs == o2.dirs && o1.at.tree == o2.at.tree
  {
    hide Unpack, HeadersInOneBlock, ArchiveBytes, Written, Flatten;
    UnpackPacked(a1, false, dirs, groups, fileCount);
    UnpackPacked(a2, true, dirs, groups, fileCount);
  }

  // ----- distinct paths

  ghost predicate DistinctPaths(files: seq<File>) {
    forall i, j :: 0 <= i < j < |files| ==> PathFor(files[i]) != PathFor(files[j])
  }

  ghost predicate DistinctItems(items: seq<Item>) {
    forall i, j :: 0 <= i < j < |items| ==> items[i].path != items[j].path
  }

  /** The same, said of the items without their order. */
  ghost predicate Separate(items: multiset<Item>) {
    && (forall x :: x in items ==> items[x] == 1)
    && (forall x, y :: x in items && y in items && x != y ==> x.path != y.path)
  }

  lemma {:induction false} DistinctIsSeparate(items: seq<Item>)
    requires DistinctItems(items)
    ensures Separate(multiset(items))
    decreases |items|
  {
    if items != [] {
      var front, last := items[..|items| - 1], items[|items| - 1];
      assert items == front + [last];
      DistinctIsSeparate(front);
      forall x | x in front
        ensures x.path != last.path
      {
        var i :| 0 <= i < |front| && front[i] == x;
        assert items[i] == x;
      }
      assert last !in multiset(front);
    }
  }

  lemma SeparateCons(x: Item, rest: seq<Item>)
    requires Separate(multiset([x] + rest))
    ensures Separate(multiset(rest)) && forall y :: y in rest ==> y.path != x.path
  {
    var all := multiset([x] + rest);
    assert all == multiset{x} + multiset(rest);
    assert x in all && all[x] == 1 + multiset(rest)[x];
    forall y | y in rest
      ensures y.path != x.path && multiset(rest)[y] == 1
    {
      assert y in multiset(rest) && y in all;
    }
  }

  ghost predicate HoldsItems(tree: Tree, items: seq<Item>) {
    && (forall x :: x in items ==> x.path in tree && tree[x.path] == x.entry)
    && (forall p :: p in tree ==> exists x :: x in items && x.path == p)
  }

  /** Writing separate items adds exactly them. */
  lemma {:induction false} WrittenSeparate(tree: Tree, items: seq<Item>)
    requires Separate(multiset(items))
    ensures forall x :: x in items ==> x.path in Written(tree, items) && Written(tree, items)[x.path] == x.entry
    ensures forall p :: p in Written(tree, items) ==> p in tree || exists x :: x in items && x.path == p
    ensures forall p :: p in tree && (forall x :: x in items ==> x.path != p) ==>
              p in Written(tree, items) && Written(tree, items)[p] == tree[p]
    decreases |items|
  {
    hide Separate;
    if items != [] {
      var x, rest := items[0], items[1..];
      assert items == [x] + rest;
      SeparateCons(x, rest);
      WrittenSeparate(tree[x.path := x.entry], rest);
    }
  }

  lemma WrittenInAnyOrder(items: seq<Item>, packed: seq<Item>)
    requires DistinctItems(packed) && multiset(items) == multiset(packed)
    ensures HoldsItems(Written(map[], items), packed)
  {
    hide Written;
    DistinctIsSeparate(packed);
    WrittenSeparate(map[], items);
    assert forall x :: x in packed <==> x in multiset(packed);
    assert forall x :: x in items <==> x in multiset(items);
  }

  /** Writing n items makes n new keys only when no path comes twice. */
  lemma {:induction false} WrittenKeys(tree: Tree, items: seq<Item>)
    ensures |Written(tree, items).Keys| <= |tree.Keys| + |items|
    ensures |Written(tree, items).Keys| == |tree.Keys| + |items| ==>
              DistinctItems(items) && forall x :: x in items ==> x.path !in tree
    decreases |items|
  {
    if items != [] {
      var x, rest := items[0], items[1..];
      var next := tree[x.path := x.entry];
      assert next.Keys == tree.Keys + {x.path};
      assert x.path in tree ==> next.Keys == tree.Keys;
      WrittenKeys(next, rest);
      if |Written(tree, items).Keys| == |tree.Keys| + |items| {
        forall y | y in rest
          ensures y.path !in tree && y.path != x.path
        {
          assert y.path !in next;
        }
        assert forall j :: 0 < j < |items| ==> items[j] == rest[j - 1];
      }
    }
  }

  lemma {:induction false} AsManyKeysAsItems(keys: set<seq<byte>>, items: seq<Item>)
    requires DistinctItems(items) && forall x :: x in items ==> x.path in keys
    ensures |items| <= |keys|
    decreases |items|
  {
    if items != [] {
      var front, last := items[..|items| - 1], items[|items| - 1];
      forall x | x in front
        ensures x.path in keys - {last.path}
      {
        var i :| 0 <= i < |front| && front[i] == x;
        assert items[i] == x;
      }
      AsManyKeysAsItems(keys - {last.path}, front);
    }
  }

  lemma SameSizeIsSame(x: multiset<Item>, y: multiset<Item>)
    requires x <= y && |x| == |y|
    ensures x == y
  {
    assert y == x + (y - x);
    assert |y - x| == 0;
  }

  /** Writing as many items as were packed leaves exactly the packed ones only when it writes them, in some order. */
  lemma WrittenExactly(items: seq<Item>, packed: seq<Item>)
    requires DistinctItems(packed) && |items| == |packed| && HoldsItems(Written(map[], items), packed)
    ensures multiset(items) == multiset(packed)
  {
    hide Written;
    var tree := Written(map[], items);
    AsManyKeysAsItems(tree.Keys, packed);
    WrittenKeys(map[], items);
    DistinctIsSeparate(items);
    WrittenSeparate(map[], items);
    forall x | x in items
      ensures x in packed
    {
      var y :| y in packed && y.path == x.path;
      assert y == x;
    }
    assert forall x :: x in multiset(items) ==> x in items;
    assert forall x :: x in packed ==> x in multiset(packed);
    assert multiset(items) <= multiset(packed);
    SameSizeIsSame(multiset(items), multiset(packed));
  }

  // ----- with deduplication

  /** The tree holds each file's data and stamp at its path, and nothing else. */
  ghost predicate HoldsExactly(tree: Tree, files: seq<File>) {
    && (forall f :: f in files ==> PathFor(f) in tree && tree[PathFor(f)] == EntryFor(f))
    && (forall p :: p in tree ==> exists f :: f in files && PathFor(f) == p)
  }

  lemma FilesAreItems(tree: Tree, files: seq<File>)
    ensures HoldsExactly(tree, files) <==> HoldsItems(tree, Items(files))
    ensures DistinctPaths(files) <==> DistinctItems(Items(files))
  {
    hide PathFor, EntryFor;
    forall f | f in files
      ensures ItemFor(f) in Items(files)
    {
      var i :| 0 <= i < |files| && files[i] == f;
      assert Items(files)[i] == ItemFor(f);
    }
    forall x | x in Items(files)
      ensures exists f :: f in files && ItemFor(f) == x
    {
      var i :| 0 <= i < |files| && Items(files)[i] == x;
      assert files[i] in files;
    }
  }

  function Without<T>(y: seq<T>, i: nat): (r: seq<T>)
    requires i < |y|
    ensures |r| == |y| - 1
  {
    y[..i] + y[i + 1..]
  }

  lemma RemoveOne<T>(y: seq<T>, i: nat)
    requires i < |y|
    ensures multiset(Without(y, i)) == multiset(y) - multiset{y[i]}
    ensures multiset(y) == multiset(Without(y, i)) + multiset{y[i]}
  {
    assert y == y[..i] + [y[i]] + y[i + 1..];
  }

  lemma ItemsRemoveOne(y: seq<File>, i: nat)
    requires i < |y|
    ensures multiset(Items(y)) == multiset(Items(Without(y, i))) + multiset{ItemFor(y[i])}
  {
    hide ItemFor;
    RemoveOne(Items(y), i);
    assert Without(Items(y), i) == Items(Without(y, i));
  }

  lemma PlaceOf<T>(y: seq<T>, x: T) returns (i: nat)
    requires x in multiset(y)
    ensures i < |y| && y[i] == x
  {
    i :| 0 <= i < |y| && y[i] == x;
  }

  lemma SameLength<T>(x: seq<T>, y: seq<T>)
    requires multiset(x) == multiset(y)
    ensures |x| == |y|
  {
    assert |multiset(x)| == |x| && |multiset(y)| == |y|;
  }

  lemma {:induction false} ItemsOfSame(x: seq<File>, y: seq<File>)
    requires multiset(x) == multiset(y)
    ensures multiset(Items(x)) == multiset(Items(y))
    decreases |x|
  {
    hide ItemFor, Items, Without;
    SameLength(x, y);
    if x != [] {
      var i := PlaceOf(y, x[0]);
      RemoveOne(x, 0);
      RemoveOne(y, i);
      ItemsOfSame(Without(x, 0), Without(y, i));
      ItemsRemoveOne(x, 0);
      ItemsRemoveOne(y, i);
    }
  }

  /** Unpacking succeeds, at the end of the archive, with exactly these directories and files. */
  ghost predicate RoundTrips(a: Archive, dirs: seq<Directory>, files: seq<File>) {
    a.Valid() && ComesBack(Unpack(a), |a.data|, dirs, files)
  }

  ghost predicate ComesBack(o: Outcome, size: nat, dirs: seq<Directory>, files: seq<File>) {
    && o.Finished? && o.ok && o.dirs == DirsFor(dirs) && o.at.pos == size && o.at.f == |files|
    && HoldsExactly(o.at.tree, files)
  }

  /** What was grouped by a digest that tells the contents apart, and packed as V1 or as V2. */
  ghost predicate Packed(v2: bool, h: Digest, dirs: seq<Directory>, files: seq<File>, data: seq<byte>) {
    && Injective(h, files) && DistinctPaths(files)
    && Writable(dirs, AddAll(h, files), |files|) && (forall i :: 0 <= i < |dirs| ==> dirs[i].path != [])
    && data == ArchiveBytes(v2, dirs, AddAll(h, files), |files|)
  }

  lemma GroupsArePackable(v2: bool, h: Digest, dirs: seq<Directory>, files: seq<File>, data: seq<byte>)
    requires Packed(v2, h, dirs, files, data)
    ensures Packable(dirs, AddAll(h, files), |files|)
    ensures multiset(Flatten(AddAll(h, files))) == multiset(files)
  {
    hide AddAll, ArchiveBytes, Flatten, Writable, DistinctPaths;
    AddAllTight(h, files);
    AddAllConserves(h, files, []);
    FilesInFlatten(AddAll(h, files));
    assert |Flatten(AddAll(h, files))| == |multiset(Flatten(AddAll(h, files)))| == |files|;
  }

  /**
   Round trip: group the files by an injective digest, pack them, unpack them. When no header field straddles a
   block, what comes back is exactly the packed directories and the map from each file's path to its data,
   attributes, date and time, if and only if the last blob is not empty. Misread has the condition for fields
   that do straddle.
   */
  lemma RoundTripInOneBlock(v2: bool, h: Digest, dirs: seq<Directory>, files: seq<File>, a: Archive)
    requires a.B > 0 && Packed(v2, h, dirs, files, a.data)
    requires HeadersInOneBlock(v2, a.B, dirs, AddAll(h, files))
    ensures a.Valid() && Unpack(a).Finished? && (Unpack(a).ok <==> LastBlobHasData(AddAll(h, files)))
    ensures RoundTrips(a, dirs, files) <==> LastBlobHasData(AddAll(h, files))
  {
    hide AddAll, ArchiveBytes, HeadersInOneBlock, Flatten, Unpack, Written, Writable, LastBlobHasData, DirsFor,
      HoldsExactly, Injective, Packable, Items, DistinctPaths;
    var groups := AddAll(h, files);
    GroupsArePackable(v2, h, dirs, files, a.data);
    UnpackPacked(a, v2, dirs, groups, |files|);
    ItemsOfSame(Flatten(groups), files);
    FilesAreItems(Unpack(a).at.tree, files);
    WrittenInAnyOrder(Items(Flatten(groups)), Items(files));
  }

  lemma {:induction false} FilesInFlatten(groups: seq<Group>)
    ensures FilesIn(groups) == |Flatten(groups)|
    decreases |groups|
  {
    if groups != [] {
      FilesInFlatten(groups[1..]);
    }
  }

  // ----- what that means, byte by byte

  /**
   A path of the packed form with its backslashes as slashes, as far as its first zero byte if it has one. A
   path in directory A is the file's name behind A and a slash.
   */
  ghost predicate ConvertedFrom(key: seq<byte>, path: seq<byte>) {
    && |key| <= |path|
    && (forall i :: 0 <= i < |key| ==> path[i] != 0 && key[i] == if path[i] == 0x5C then 0x2F else path[i])
    && (|key| < |path| ==> path[|key|] == 0)
  }

  lemma {:induction false} CStringIs(s: seq<byte>)
    ensures CString(s) <= s && 0 !in CString(s) && (|CString(s)| < |s| ==> s[|CString(s)|] == 0)
    decreases |s|
  {
    if s != [] && s[0] != 0 {
      CStringIs(s[1..]);
    }
  }

  lemma UnixPathIs(path: seq<byte>)
    ensures ConvertedFrom(UnixPath(path), path)
  {
    CStringIs(path);
    hide CString;
    var c := CString(path);
    assert forall i :: 0 <= i < |c| ==> c[i] == path[i];
  }

  /** A converted path has no backslash left, and is as long as a path without zero byte. */
  lemma ConvertedPath(key: seq<byte>, path: seq<byte>)
    requires ConvertedFrom(key, path)
    ensures 0x5C !in key && 0 !in key
    ensures 0 !in path ==> |key| == |path|
    ensures 0 !in path && 0x5C !in path ==> key == path
  {
  }

  lemma {:induction false} DirsForAre(dirs: seq<Directory>)
    ensures |DirsFor(dirs)| == |dirs|
    ensures forall i :: 0 <= i < |dirs| ==>
              ConvertedFrom(DirsFor(dirs)[i].0, dirs[i].path) && DirsFor(dirs)[i].1 == dirs[i].attribute % 256
    decreases |dirs|
  {
    hide UnixPath, ConvertedFrom;
    if dirs != [] {
      UnixPathIs(dirs[0].path);
      DirsForAre(dirs[1..]);
    }
  }

  /** The file is in the tree under the path, with its data, attributes, date and time. */
  ghost predicate StoredAt(tree: Tree, key: seq<byte>, f: File) {
    && ConvertedFrom(key, f.info.path) && key in tree
    && tree[key].data == f.data
    && tree[key].stamp == Some(Stamp(f.info.attribute % 256, f.info.date, f.info.time))
  }

  /**
   What came back, for any paths: one directory for each packed one, its path converted and with its attributes;
   each file under its converted path with its data, attributes, date and time; and nothing else.
   */
  lemma KeysArePackedPaths(o: Outcome, size: nat, dirs: seq<Directory>, files: seq<File>)
    requires ComesBack(o, size, dirs, files)
    ensures |o.dirs| == |dirs|
    ensures forall i :: 0 <= i < |dirs| ==>
              ConvertedFrom(o.dirs[i].0, dirs[i].path) && o.dirs[i].1 == dirs[i].attribute % 256
    ensures forall f :: f in files ==> exists key :: StoredAt(o.at.tree, key, f)
    ensures forall key :: key in o.at.tree ==> exists f :: f in files && StoredAt(o.at.tree, key, f)
  {
    hide UnixPath, ConvertedFrom, DirsFor;
    DirsForAre(dirs);
    forall f | f in files
      ensures StoredAt(o.at.tree, PathFor(f), f)
    {
      UnixPathIs(f.info.path);
    }
  }

  // ----- what ends before the block does

  /** A field behind which the block still goes on, counted from a place in it. */
  lemma InThisBlock(B: nat, pos: nat, k: nat, len: nat)
    requires B > 0 && pos % B + k + len <= B
    ensures Fits(B, pos + k, len)
    ensures len > 0 || pos % B + k < B ==> (pos + k) % B == pos % B + k
  {
    if pos % B + k < B {
      ModKeeps(B, pos, k);
    }
  }

  lemma ModKeeps(B: nat, pos: nat, k: nat)
    requires B > 0 && pos % B + k < B
    ensures (pos + k) % B == pos % B + k
  {
    var q := pos / B;
    assert pos == q * B + pos % B;
    ReaderSpec.ModOfMultiple(pos + k, q, B);
  }

  lemma {:induction false} DirsInThisBlock(B: nat, pos: nat, dirs: seq<Directory>)
    requires B > 0 && pos % B + |AllDirBytes(dirs)| <= B
    ensures DirsFit(B, pos, dirs)
    decreases |dirs|
  {
    hide Fits;
    if dirs != [] {
      var n := |dirs[0].path|;
      InThisBlock(B, pos, 0, 1);
      InThisBlock(B, pos, 1, 1);
      InThisBlock(B, pos, 2, n);
      InThisBlock(B, pos, 2 + n, 0);
      DirsInThisBlock(B, pos + 2 + n, dirs[1..]);
    }
  }

  lemma {:induction false} HeadersInThisBlock(B: nat, pos: nat, files: seq<FileInfo>)
    requires B > 0 && pos % B + |HeaderBytes(files)| <= B
    ensures HeadersFit(B, pos, files)
    decreases |files|
  {
    hide Fits;
    if files != [] {
      var n := |files[0].path|;
      InThisBlock(B, pos, 0, 1);
      InThisBlock(B, pos, 1, n);
      InThisBlock(B, pos, 1 + n, 5);
      InThisBlock(B, pos, 6 + n, 0);
      HeadersInThisBlock(B, pos + 6 + n, files[1..]);
    }
  }

  lemma {:induction false} FilesV1InThisBlock(B: nat, pos: nat, data: seq<byte>, files: seq<FileInfo>)
    requires B > 0 && pos % B + |GroupBytesV1(data, files)| <= B
    ensures FilesFitV1(B, pos, data, files)
    decreases |files|
  {
    hide Fits;
    if files != [] {
      var n := |files[0].path|;
      assert |FileBytesV1(data, files[0])| == 10 + n + |data|;
      InThisBlock(B, pos, 0, 1);
      InThisBlock(B, pos, 1, n);
      InThisBlock(B, pos, 1 + n, 9);
      InThisBlock(B, pos, 10 + n + |data|, 0);
      FilesV1InThisBlock(B, pos + 10 + n + |data|, data, files[1..]);
    }
  }

  lemma GroupInThisBlock(v2: bool, B: nat, pos: nat, g: Group)
    requires B > 0 && pos % B + |GroupBytes(v2, g)| <= B
    ensures GroupFitsAt(v2, B, pos, g)
  {
    hide Fits, HeadersFit, FilesFitV1, HeaderBytes, GroupBytesV1;
    if v2 {
      InThisBlock(B, pos, 0, 1);
      InThisBlock(B, pos, 1, 0);
      HeadersInThisBlock(B, pos + 1, g.files);
      InThisBlock(B, pos, 1 + |HeaderBytes(g.files)|, 4);
    } else {
      FilesV1InThisBlock(B, pos, g.data, g.files);
    }
  }

  lemma {:induction false} GroupsInThisBlock(v2: bool, B: nat, pos: nat, groups: seq<Group>)
    requires B > 0 && pos % B + |AllGroupBytes(v2, groups)| <= B
    ensures GroupsFit(v2, B, pos, groups)
    decreases |groups|
  {
    hide Fits, GroupFitsAt, GroupBytes;
    if groups != [] {
      GroupInThisBlock(v2, B, pos, groups[0]);
      InThisBlock(B, pos, |GroupBytes(v2, groups[0])|, 0);
      GroupsInThisBlock(v2, B, pos + |GroupBytes(v2, groups[0])|, groups[1..]);
    }
  }

  /** No header field of an archive that is no larger than one block straddles a block. */
  lemma SmallArchivesFit(v2: bool, B: nat, dirs: seq<Directory>, groups: seq<Group>, fileCount: nat)
    requires |ArchiveBytes(v2, dirs, groups, fileCount)| <= B
    ensures B > 0 && HeadersInOneBlock(v2, B, dirs, groups)
  {
    hide DirsFit, GroupsFit, AllDirBytes, AllGroupBytes, Fits, ArchiveBytes;
    HeaderPieces(ArchiveBytes(v2, dirs, groups, fileCount), v2, dirs, groups, fileCount);
    var k := |AllDirBytes(dirs)|;
    assert 0 % B == 0;
    InThisBlock(B, 0, 0, 4);
    InThisBlock(B, 0, 4, 4);
    InThisBlock(B, 0, 8, 4);
    RemainderIsLess(B, 12);
    RemainderIsLess(B, 12 + k);
    DirsInThisBlock(B, 12, dirs);
    GroupsInThisBlock(v2, B, 12 + k, groups);
  }

  lemma RemainderIsLess(B: nat, n: nat)
    requires B > 0
    ensures n % B <= n
  {
  }
}
