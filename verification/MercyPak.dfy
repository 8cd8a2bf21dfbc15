/** The writer part of mercypak_pack (sysprep/mercypak.py): headers, directories and file groups. */
module MercyPak {
  import opened Bytes
  import opened Dedup

  const MERCYPAK_V1_MAGIC: seq<byte> := [0x5A, 0x49, 0x45, 0x47]  // "ZIEG"
  const MERCYPAK_V2_MAGIC: seq<byte> := [0x4D, 0x52, 0x43, 0x59]  // "MRCY"

  datatype Directory = Directory(path: seq<byte>, attribute: nat)

  // ----- what can be written at all

  /** struct.pack raises for what does not fit its field, and long paths and files raise by themselves. */
  predicate InfoFits(f: FileInfo) {
    |f.path| <= 255 && f.date < 0x1_0000 && f.time < 0x1_0000
  }

  predicate GroupFits(g: Group) {
    && |g.data| <= 0xffff_ffff && |g.files| <= 255
    && forall i :: 0 <= i < |g.files| ==> InfoFits(g.files[i])
  }

  predicate Writable(dirs: seq<Directory>, groups: seq<Group>, fileCount: nat) {
    && |dirs| < 0x1_0000_0000 && fileCount < 0x1_0000_0000
    && (forall i :: 0 <= i < |dirs| ==> |dirs[i].path| <= 255)
    && (forall i :: 0 <= i < |groups| ==> GroupFits(groups[i]))
  }

  // ----- the format

  /** An 8 bit length and the characters. */
  function StringBytes(s: seq<byte>): (b: seq<byte>)
    ensures |b| == 1 + |s|
  {
    [|s| % 256] + s
  }

  function DirBytes(d: Directory): (b: seq<byte>)
    ensures |b| == 2 + |d.path|
  {
    [d.attribute % 256] + StringBytes(d.path)
  }

  function AllDirBytes(dirs: seq<Directory>): seq<byte> {
    if dirs == [] then [] else DirBytes(dirs[0]) + AllDirBytes(dirs[1..])
  }

  /** Attributes, date and time: the part of a descriptor both versions share. */
  function StampBytes(f: FileInfo): (b: seq<byte>)
    ensures |b| == 5
  {
    [f.attribute % 256] + ToLE(f.date, 2) + ToLE(f.time, 2)
  }

  function SizeBytes(data: seq<byte>): (b: seq<byte>)
    ensures |b| == 4
  {
    ToLE(|data|, 4)
  }

  function InfoBytes(f: FileInfo): seq<byte> {
    StringBytes(f.path) + StampBytes(f)
  }

  function BlobBytes(data: seq<byte>): seq<byte> {
    SizeBytes(data) + data
  }

  /** V2: names and stamps of the files that share one blob. */
  function HeaderBytes(files: seq<FileInfo>): seq<byte> {
    if files == [] then [] else InfoBytes(files[0]) + HeaderBytes(files[1..])
  }

  function GroupBytesV2(g: Group): seq<byte> {
    [|g.files| % 256] + (HeaderBytes(g.files) + BlobBytes(g.data))
  }

  /** V1: every file with its own copy of the blob. */
  function FileBytesV1(data: seq<byte>, f: FileInfo): seq<byte> {
    InfoBytes(f) + BlobBytes(data)
  }

  function GroupBytesV1(data: seq<byte>, files: seq<FileInfo>): seq<byte> {
    if files == [] then [] else FileBytesV1(data, files[0]) + GroupBytesV1(data, files[1..])
  }

  function GroupBytes(v2: bool, g: Group): seq<byte> {
    if v2 then GroupBytesV2(g) else GroupBytesV1(g.data, g.files)
  }

  function AllGroupBytes(v2: bool, groups: seq<Group>): seq<byte> {
    if groups == [] then [] else GroupBytes(v2, groups[0]) + AllGroupBytes(v2, groups[1..])
  }

  function ArchiveBytes(v2: bool, dirs: seq<Directory>, groups: seq<Group>, fileCount: nat): seq<byte> {
    (if v2 then MERCYPAK_V2_MAGIC else MERCYPAK_V1_MAGIC)
    + (ToLE(|dirs|, 4) + (ToLE(fileCount, 4) + (AllDirBytes(dirs) + AllGroupBytes(v2, groups))))
  }

  // ----- the writer

  lemma Associate(a: seq<byte>, b: seq<byte>, c: seq<byte>)
    ensures (a + b) + c == a + (b + c)
  {
  }

  /** The open output file. A raised exception ends every method with ok == false. */
  class ArchiveWriter {
    var out: seq<byte>

    constructor ()
      ensures out == []
    {
      out := [];
    }

    method WriteDirs(dirs: seq<Directory>) returns (ok: bool)
      modifies this
      ensures ok == (forall i :: 0 <= i < |dirs| ==> |dirs[i].path| <= 255)
      ensures ok ==> out == old(out) + AllDirBytes(dirs)
    {
      var i := 0;
      while i < |dirs|
        invariant i <= |dirs| && forall j :: 0 <= j < i ==> |dirs[j].path| <= 255
        invariant out + AllDirBytes(dirs[i..]) == old(out) + AllDirBytes(dirs)
      {
        if |dirs[i].path| > 255 {
          return false;
        }
        ghost var was := out;
        out := out + [dirs[i].attribute % 256];
        out := out + [|dirs[i].path|];
        out := out + dirs[i].path;
        assert out == was + DirBytes(dirs[i]);
        assert dirs[i..][1..] == dirs[i + 1..];
        Associate(was, DirBytes(dirs[i]), AllDirBytes(dirs[i + 1..]));
        i := i + 1;
      }
      ok := true;
    }

    /** Name and stamp of one file; a date, time or name that does not fit raises. */
    method WriteInfo(f: FileInfo) returns (ok: bool)
      modifies this
      ensures ok == InfoFits(f)
      ensures ok ==> out == old(out) + InfoBytes(f)
    {
      if !InfoFits(f) {
        return false;
      }
      ghost var was := out;
      out := out + [|f.path| % 256];
      out := out + f.path;
      assert out == was + StringBytes(f.path);
      out := out + [f.attribute % 256];
      out := out + (ToLE(f.date, 2) + ToLE(f.time, 2));
      assert out == was + StringBytes(f.path) + StampBytes(f);
      Associate(was, StringBytes(f.path), StampBytes(f));
      ok := true;
    }

    method WriteHeaders(files: seq<FileInfo>) returns (ok: bool)
      modifies this
      ensures ok == (forall i :: 0 <= i < |files| ==> InfoFits(files[i]))
      ensures ok ==> out == old(out) + HeaderBytes(files)
    {
      var i := 0;
      while i < |files|
        invariant i <= |files| && forall j :: 0 <= j < i ==> InfoFits(files[j])
        invariant out + HeaderBytes(files[i..]) == old(out) + HeaderBytes(files)
      {
        ghost var was := out;
        ok := WriteInfo(files[i]);
        if !ok {
          return;
        }
        assert files[i..][1..] == files[i + 1..];
        Associate(was, InfoBytes(files[i]), HeaderBytes(files[i + 1..]));
        i := i + 1;
      }
      ok := true;
    }

    method WriteBlob(data: seq<byte>)
      modifies this
      ensures out == old(out) + BlobBytes(data)
    {
      Associate(out, SizeBytes(data), data);
      out := out + ToLE(|data|, 4);
      out := out + data;
    }

    method WriteFilesV1(data: seq<byte>, files: seq<FileInfo>) returns (ok: bool)
      modifies this
      ensures ok == (forall i :: 0 <= i < |files| ==> InfoFits(files[i]))
      ensures ok ==> out == old(out) + GroupBytesV1(data, files)
    {
      var i := 0;
      while i < |files|
        invariant i <= |files| && forall j :: 0 <= j < i ==> InfoFits(files[j])
        invariant out + GroupBytesV1(data, files[i..]) == old(out) + GroupBytesV1(data, files)
      {
        ghost var was := out;
        ok := WriteInfo(files[i]);
        if !ok {
          return;
        }
        WriteBlob(data);
        Associate(was, InfoBytes(files[i]), BlobBytes(data));
        assert files[i..][1..] == files[i + 1..];
        Associate(was, FileBytesV1(data, files[i]), GroupBytesV1(data, files[i + 1..]));
        i := i + 1;
      }
      ok := true;
    }

    method WriteGroup(v2: bool, g: Group) returns (ok: bool)
      modifies this
      ensures ok == GroupFits(g)
      ensures ok ==> out == old(out) + GroupBytes(v2, g)
    {
      if |g.data| > 0xffff_ffff || |g.files| > 0xff {
        return false;
      }
      if v2 {
        ghost var was := out;
        out := out + [|g.files|];
        ok := WriteHeaders(g.files);
        if ok {
          WriteBlob(g.data);
          Associate(was + [|g.files|], HeaderBytes(g.files), BlobBytes(g.data));
          Associate(was, [|g.files|], HeaderBytes(g.files) + BlobBytes(g.data));
        }
      } else {
        ok := WriteFilesV1(g.data, g.files);
      }
    }

    method WriteGroups(v2: bool, groups: seq<Group>) returns (ok: bool)
      modifies this
      ensures ok == (forall i :: 0 <= i < |groups| ==> GroupFits(groups[i]))
      ensures ok ==> out == old(out) + AllGroupBytes(v2, groups)
    {
      var i := 0;
      while i < |groups|
        invariant i <= |groups| && forall j :: 0 <= j < i ==> GroupFits(groups[j])
        invariant out + AllGroupBytes(v2, groups[i..]) == old(out) + AllGroupBytes(v2, groups)
      {
        ghost var was := out;
        ok := WriteGroup(v2, groups[i]);
        if !ok {
          return;
        }
        assert groups[i..][1..] == groups[i + 1..];
        Associate(was, GroupBytes(v2, groups[i]), AllGroupBytes(v2, groups[i + 1..]));
        i := i + 1;
      }
      ok := true;
    }

    /** Writes the archive, or raises exactly when some part of it does not fit its field. */
    method Pack(v2: bool, dirs: seq<Directory>, groups: seq<Group>, fileCount: nat) returns (ok: bool)
      requires out == []
      modifies this
      ensures ok == Writable(dirs, groups, fileCount)
      ensures ok ==> out == ArchiveBytes(v2, dirs, groups, fileCount)
    {
      ghost var magic := if v2 then MERCYPAK_V2_MAGIC else MERCYPAK_V1_MAGIC;
      out := if v2 then MERCYPAK_V2_MAGIC else MERCYPAK_V1_MAGIC;
      if |dirs| >= 0x1_0000_0000 || fileCount >= 0x1_0000_0000 {
        return false;
      }
      out := out + (ToLE(|dirs|, 4) + ToLE(fileCount, 4));
      ghost var counts := out;
      ok := WriteDirs(dirs);
      if ok {
        ok := WriteGroups(v2, groups);
        if ok {
          Associate(counts, AllDirBytes(dirs), AllGroupBytes(v2, groups));
          var body := AllDirBytes(dirs) + AllGroupBytes(v2, groups);
          Associate(magic, ToLE(|dirs|, 4) + ToLE(fileCount, 4), body);
          Associate(ToLE(|dirs|, 4), ToLE(fileCount, 4), body);
        }
      }
    }
  }
}
