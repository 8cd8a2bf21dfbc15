/**
 The unpacker of installer/install.c, reading through the calls that ReaderSafety shows the threaded
 reader to implement. Creating and writing target files and directories succeeds here; what an archive
 can do to the unpacker is all modelled, up to the first header field that cannot be read.
 */
module Unpacker {
  import opened Bytes
  import opened ReaderSpec
  import opened MercyPak

  const MERCYPAK_V2_MAX_IDENTICAL_FILES := 16

  type Four = s: seq<byte> | |s| == 4 witness [0, 0, 0, 0]
  type Five = s: seq<byte> | |s| == 5 witness [0, 0, 0, 0, 0]
  type Nine = s: seq<byte> | |s| == 9 witness [0, 0, 0, 0, 0, 0, 0, 0, 0]
  type Text = s: seq<byte> | |s| == 256 witness Repeat<byte>(256, 0)
  type Slots = s: seq<Five> | |s| == MERCYPAK_V2_MAX_IDENTICAL_FILES witness Repeat<Five>(16, [0, 0, 0, 0, 0])

  /** What the buffers hold that are read into: the string, the V2 stamps and the V1 descriptor. */
  datatype Memory = Memory(text: Text, slots: Slots, descriptor: Nine)

  /** The local variables of the unpacker that are never set before they are read into. */
  datatype Locals = Locals(dirCount: Four, fileCount: Four, descriptor: Nine)

  /** An archive, the reader's block size and the local variables as they are found. */
  datatype Archive = Archive(data: seq<byte>, B: nat, unset: Locals)
  {
    predicate Valid() {
      B > 0 && data != []
    }
  }

  /** Why unpacking stopped: the archive ended inside a header, the reader spins, or a check was fatal. */
  datatype Trouble = EndOfArchive | ReaderSpins | TooManyIdentical | BadMagic

  datatype Res<+T> = Got(value: T) | Bad(why: Trouble)
  {
    predicate IsFailure() {
      Bad?
    }

    function PropagateFailure<U>(): Res<U>
      requires Bad?
    {
      Bad(why)
    }

    function Extract(): T
      requires Got?
    {
      value
    }
  }

  datatype Stamp = Stamp(attribute: byte, date: nat, time: nat)

  datatype Target = Target(path: seq<byte>, stamp: Stamp)

  /** A file on the target; no stamp means that time and attributes were not set. */
  datatype Entry = Entry(data: seq<byte>, stamp: Option<Stamp>)

  type Tree = map<seq<byte>, Entry>

  datatype Progress = Progress(pos: nat, f: nat, tree: Tree, mem: Memory)

  datatype Outcome =
    | Finished(ok: bool, dirs: seq<(seq<byte>, byte)>, at: Progress)
    | Stopped(why: Trouble)

  // ----- reading

  lemma {:induction false} TransferEnd(data: seq<byte>, B: nat, call: Call, pos: nat, rem: nat, outs: seq<seq<byte>>)
    requires B > 0 && pos <= |data|
    ensures var r := Transfer(data, B, call, pos, rem, outs);
      r.Returns? ==> pos <= r.end <= |data| && |r.outs| == |outs| && (r.ok ==> r.end == pos + rem)
    decreases rem
  {
    if rem > 0 && pos < |data| {
      var t := ToCopy(|data|, B, pos, rem);
      TransferEnd(data, B, call, pos + t, rem - t, call.DeliverUpto(outs, data[pos..pos + t], |outs|));
    }
  }

  /** A read keeps the length of its buffer. */
  lemma {:induction false} TransferReadLength(data: seq<byte>, B: nat, call: Call, pos: nat, rem: nat, dst: seq<byte>)
    requires B > 0 && pos <= |data| && call.Read? && rem <= |dst|
    ensures var r := Transfer(data, B, call, pos, rem, [dst]); r.Returns? ==> |r.outs| == 1 && |r.outs[0]| == |dst|
    decreases rem
  {
    if rem > 0 && pos < |data| {
      var t := ToCopy(|data|, B, pos, rem);
      var next := call.Deliver(dst, data[pos..pos + t]);
      assert call.DeliverUpto([dst], data[pos..pos + t], 1) == [next];
      TransferReadLength(data, B, call, pos + t, rem - t, next);
    }
  }

  /** A header field: mappedFile_read into a buffer that still holds dst. */
  function Field(a: Archive, pos: nat, dst: seq<byte>): (r: Res<(seq<byte>, nat)>)
    requires a.Valid()
    ensures r.Got? ==> |r.value.0| == |dst| && r.value.1 == pos + |dst| <= |a.data|
  {
    if pos < |a.data| then
      TransferEnd(a.data, a.B, Read(dst), pos, |dst|, [dst]);
      TransferReadLength(a.data, a.B, Read(dst), pos, |dst|, dst);
      match CallResult(a.data, a.B, pos, Read(dst))
      case Spins => Bad(ReaderSpins)
      case Returns(ok, outs, end) => if ok then Got((outs[0], end)) else Bad(EndOfArchive)
    else Bad(EndOfArchive)
  }

  /** mappedFile_copyToFiles to n fresh files. */
  function CopyOut(a: Archive, pos: nat, n: nat, len: nat): (r: Res<(bool, seq<seq<byte>>, nat)>)
    requires a.Valid() && pos <= |a.data|
    ensures r.Got? ==> pos <= r.value.2 <= |a.data| && |r.value.1| == n
  {
    TransferEnd(a.data, a.B, Copy(n, len), pos, len, Copy(n, len).Targets());
    match CallResult(a.data, a.B, pos, Copy(n, len))
    case Spins => Bad(ReaderSpins)
    case Returns(ok, outs, end) => Got((ok, outs, end))
  }

  /** A C string ends at its first zero byte. */
  function CString(s: seq<byte>): (r: seq<byte>)
    ensures |r| <= |s|
  {
    if s == [] || s[0] == 0 then [] else [s[0]] + CString(s[1..])
  }

  /** util_stringReplaceChar, backslash to slash */
  function Slashes(s: seq<byte>): (r: seq<byte>)
    ensures |r| == |s|
  {
    seq(|s|, i requires 0 <= i < |s| => if s[i] == 0x5C then 0x2F else s[i])
  }

  function UnixPath(s: seq<byte>): (r: seq<byte>)
    ensures |r| <= |s|
  {
    Slashes(CString(s))
  }

  /** The string buffer after s was read into it, terminated and converted. */
  function AfterString(text: Text, s: seq<byte>): Text
    requires |s| <= 255
  {
    var path := UnixPath(s);
    path + (s + [0] + text[|s| + 1..])[|path|..]
  }

  /** inst_getMercyPakString, and the conversion that follows it */
  function String(a: Archive, pos: nat, text: Text): (r: Res<(seq<byte>, Text, nat)>)
    requires a.Valid()
    ensures r.Got? ==> pos < r.value.2 <= |a.data|
  {
    var (n, p1) :- Field(a, pos, [0]);
    var (s, p2) :- Field(a, p1, text[..n[0]]);
    Got((UnixPath(s), AfterString(text, s), p2))
  }

  function StampOf(b: seq<byte>): Stamp
    requires |b| >= 5
  {
    Stamp(b[0], FromLE(b[1..3]), FromLE(b[3..5]))
  }

  // ----- directories

  function OneDir(a: Archive, pos: nat, text: Text): (r: Res<((seq<byte>, byte), Text, nat)>)
    requires a.Valid()
    ensures r.Got? ==> pos < r.value.2 <= |a.data|
  {
    var (flags, p1) :- Field(a, pos, [0]);
    var (path, text', p2) :- String(a, p1, text);
    Got(((path, flags[0]), text', p2))
  }

  /** qi_unpackCreateDirectories, adding to the directories already made. */
  function Dirs(a: Archive, pos: nat, k: nat, made: seq<(seq<byte>, byte)>, text: Text)
    : (r: Res<(seq<(seq<byte>, byte)>, Text, nat)>)
    requires a.Valid() && pos <= |a.data|
    ensures r.Got? ==> pos <= r.value.2 <= |a.data|
    decreases k
  {
    if k == 0 then Got((made, text, pos))
    else
      var (dir, text', p) :- OneDir(a, pos, text);
      Dirs(a, p, k - 1, made + [dir], text')
  }

  // ----- V2

  /** Names and stamps of k more files; the stamp of each goes to the slot of its number. */
  function Headers(a: Archive, pos: nat, k: nat, done: seq<Target>, mem: Memory): (r: Res<(seq<Target>, Memory, nat)>)
    requires a.Valid() && pos <= |a.data| && |done| + k <= MERCYPAK_V2_MAX_IDENTICAL_FILES
    ensures r.Got? ==> |r.value.0| == |done| + k && pos <= r.value.2 <= |a.data|
    decreases k
  {
    if k == 0 then Got((done, mem, pos))
    else
      var (path, text, p1) :- String(a, pos, mem.text);
      var (d, p2) :- Field(a, p1, mem.slots[|done|]);
      Headers(a, p2, k - 1, done + [Target(path, StampOf(d))],
              mem.(text := text, slots := mem.slots[|done| := d]))
  }

  /** Target number i gets its data, and its stamp when everything went well; later ones win. */
  function Store(tree: Tree, targets: seq<Target>, outs: seq<seq<byte>>, stamped: bool): Tree
    requires |targets| == |outs|
    decreases |targets|
  {
    if targets == [] then tree
    else
      var e := Entry(outs[0], if stamped then Some(targets[0].stamp) else None);
      Store(tree[targets[0].path := e], targets[1..], outs[1..], stamped)
  }

  /** One round of the V2 loop; the size is read over zeros. */
  function GroupV2(a: Archive, at: Progress): (r: Res<(bool, Progress)>)
    requires a.Valid() && at.pos <= |a.data|
    ensures r.Got? ==> at.pos < r.value.1.pos <= |a.data|
  {
    var (c, p1) :- Field(a, at.pos, [0]);
    if c[0] > MERCYPAK_V2_MAX_IDENTICAL_FILES then Bad(TooManyIdentical)
    else
      var (targets, mem, p2) :- Headers(a, p1, c[0], [], at.mem);
      var (size, p3) :- Field(a, p2, [0, 0, 0, 0]);
      var (ok, outs, p4) :- CopyOut(a, p3, c[0], FromLE(size));
      Got((ok, Progress(p4, (at.f + c[0]) % 0x1_0000_0000, Store(at.tree, targets, outs, ok), mem)))
  }

  function LoopV2(a: Archive, fileCount: nat, dirs: seq<(seq<byte>, byte)>, at: Progress): Outcome
    requires a.Valid() && at.pos <= |a.data|
    decreases |a.data| - at.pos
  {
    if at.f >= fileCount then Finished(true, dirs, at)
    else match GroupV2(a, at)
      case Bad(why) => Stopped(why)
      case Got((ok, next)) => if ok then LoopV2(a, fileCount, dirs, next) else Finished(false, dirs, next)
  }

  // ----- V1

  function FileV1(a: Archive, at: Progress): (r: Res<(bool, Progress)>)
    requires a.Valid() && at.pos <= |a.data|
    ensures r.Got? ==> at.pos < r.value.1.pos <= |a.data| && r.value.1.f == at.f + 1
  {
    var (path, text, p1) :- String(a, at.pos, at.mem.text);
    var (d, p2) :- Field(a, p1, at.mem.descriptor);
    var (ok, outs, p3) :- CopyOut(a, p2, 1, FromLE(d[5..9]));
    Got((ok, Progress(p3, at.f + 1, at.tree[path := Entry(outs[0], Some(StampOf(d)))],
                      at.mem.(text := text, descriptor := d))))
  }

  function LoopV1(a: Archive, fileCount: nat, dirs: seq<(seq<byte>, byte)>, success: bool, at: Progress): Outcome
    requires a.Valid() && at.pos <= |a.data|
    decreases |a.data| - at.pos
  {
    if at.f >= fileCount then Finished(success, dirs, at)
    else match FileV1(a, at)
      case Bad(why) => Stopped(why)
      case Got((ok, next)) => LoopV1(a, fileCount, dirs, success && ok, next)
  }

  // ----- whole archives

  /** The path buffer and the stamps are allocated cleared. */
  function ClearText(): Text {
    Repeat<byte>(256, 0)
  }

  function ClearSlots(): Slots {
    Repeat<Five>(MERCYPAK_V2_MAX_IDENTICAL_FILES, [0, 0, 0, 0, 0])
  }

  /** The buffers when the loops start, with the path buffer as the directories left it. */
  function StartMemory(a: Archive, text: Text): Memory {
    Memory(text, ClearSlots(), a.unset.descriptor)
  }

  /** qi_unpackGeneric on a freshly opened archive. */
  function Unpack(a: Archive): Outcome
    requires a.Valid()
  {
    match UnpackHeader(a)
    case Bad(why) => Stopped(why)
    case Got((v2, fileCount, dirs, text, pos)) =>
      var start := Progress(pos, 0, map[], StartMemory(a, text));
      if v2 then LoopV2(a, fileCount, dirs, start) else LoopV1(a, fileCount, dirs, true, start)
  }

  function Counts(a: Archive): (r: Res<(seq<byte>, nat, nat, nat)>)
    requires a.Valid()
    ensures r.Got? ==> r.value.3 <= |a.data|
  {
    var (magic, p1) :- Field(a, 0, [0, 0, 0, 0]);
    var (dirCount, p2) :- Field(a, p1, a.unset.dirCount);
    var (fileCount, p3) :- Field(a, p2, a.unset.fileCount);
    Got((magic, FromLE(dirCount), FromLE(fileCount), p3))
  }

  function UnpackHeader(a: Archive): (r: Res<(bool, nat, seq<(seq<byte>, byte)>, Text, nat)>)
    requires a.Valid()
    ensures r.Got? ==> r.value.4 <= |a.data|
  {
    var (magic, dirCount, fileCount, p3) :- Counts(a);
    if magic != MERCYPAK_V1_MAGIC && magic != MERCYPAK_V2_MAGIC then Bad(BadMagic)
    else
      var (dirs, text, p4) :- Dirs(a, p3, dirCount, [], ClearText());
      Got((magic == MERCYPAK_V2_MAGIC, fileCount, dirs, text, p4))
  }

  // ----- the loops as the installer runs them

  class Installer {
    const a: Archive
    var pos: nat
    var dirs: seq<(seq<byte>, byte)>
    var tree: Tree
    /** The part of destPath behind the mount point, filesToWrite and fileToWrite. */
    var text: Text
    var slots: Slots
    var descriptor: Nine

    ghost predicate Valid()
      reads this
    {
      a.Valid() && pos <= |a.data|
    }

    ghost function Mem(): Memory
      reads this
    {
      Memory(text, slots, descriptor)
    }

    constructor (archive: Archive)
      requires archive.Valid()
      ensures Valid() && a == archive && pos == 0 && dirs == [] && tree == map[]
    {
      a, pos, dirs, tree := archive, 0, [], map[];
      text, slots, descriptor := ClearText(), ClearSlots(), archive.unset.descriptor;
    }

    method CreateDirectories(dirCount: nat) returns (r: Res<()>)
      requires Valid()
      modifies this`pos, this`dirs, this`text
      ensures Valid()
      ensures var spec := Dirs(a, old(pos), dirCount, old(dirs), old(text));
        if r.Bad? then spec == Bad(r.why) else spec == Got((dirs, text, pos))
    {
      hide OneDir;
      var d := 0;
      while d < dirCount
        invariant d <= dirCount && Valid()
        invariant Dirs(a, pos, dirCount - d, dirs, text) == Dirs(a, old(pos), dirCount, old(dirs), old(text))
      {
        var dir := OneDir(a, pos, text);
        if dir.Bad? {
          return Bad(dir.why);
        }
        dirs, text, pos := dirs + [dir.value.0], dir.value.1, dir.value.2;
        d := d + 1;
      }
      r := Got(());
    }

    /** The inner loop: name and stamp of each of the n identical files. */
    method ReadHeaders(n: nat) returns (r: Res<seq<Target>>)
      requires Valid() && n <= MERCYPAK_V2_MAX_IDENTICAL_FILES
      modifies this`pos, this`text, this`slots
      ensures Valid()
      ensures var spec := Headers(a, old(pos), n, [], old(Mem()));
        if r.Bad? then spec == Bad(r.why) else spec == Got((r.value, Mem(), pos))
    {
      hide Field, String, StampOf;
      var targets := [];
      var subFile := 0;
      while subFile < n
        invariant subFile <= n && Valid() && |targets| == subFile
        invariant Headers(a, pos, n - subFile, targets, Mem()) == Headers(a, old(pos), n, [], old(Mem()))
      {
        var path := String(a, pos, text);
        if path.Bad? {
          return Bad(path.why);
        }
        var d := Field(a, path.value.2, slots[subFile]);
        if d.Bad? {
          return Bad(d.why);
        }
        text := path.value.1;
        slots := slots[subFile := d.value.0];
        targets, pos := targets + [Target(path.value.0, StampOf(d.value.0))], d.value.1;
        subFile := subFile + 1;
      }
      r := Got(targets);
    }

    /** One round of the outer loop: a group of identical files. */
    method ExtractGroupV2(f: nat) returns (r: Res<(bool, nat)>)
      requires Valid()
      modifies this`pos, this`tree, this`text, this`slots
      ensures Valid()
      ensures var spec := GroupV2(a, Progress(old(pos), f, old(tree), old(Mem())));
        if r.Bad? then spec == Bad(r.why) else spec == Got((r.value.0, Progress(pos, r.value.1, tree, Mem())))
    {
      hide Field, Headers, CopyOut, Store, FromLE;
      var count := Field(a, pos, [0]);
      if count.Bad? {
        return Bad(count.why);
      }
      var n := count.value.0[0];
      if n > MERCYPAK_V2_MAX_IDENTICAL_FILES {
        return Bad(TooManyIdentical);
      }
      pos := count.value.1;
      var targets := ReadHeaders(n);
      if targets.Bad? {
        return Bad(targets.why);
      }
      var fileSize: seq<byte> := [0, 0, 0, 0];
      var size := Field(a, pos, fileSize);
      if size.Bad? {
        return Bad(size.why);
      }
      var copied := CopyOut(a, size.value.1, n, FromLE(size.value.0));
      if copied.Bad? {
        return Bad(copied.why);
      }
      var (ok, outs, end) := copied.value;
      tree := Store(tree, targets.value, outs, ok);
      pos := end;
      r := Got((ok, (f + n) % 0x1_0000_0000));
    }

    method ExtractAllFilesV2(fileCount: nat) returns (o: Outcome)
      requires Valid()
      modifies this`pos, this`tree, this`text, this`slots
      ensures Valid()
      ensures o == LoopV2(a, fileCount, dirs,
          Progress(old(pos), 0, old(tree), Memory(old(text), ClearSlots(), descriptor)))
      ensures o.Finished? ==> o.dirs == dirs && o.at.pos == pos && o.at.tree == tree
    {
      hide GroupV2;
      slots := ClearSlots();
      var f: nat := 0;
      ghost var start := Progress(pos, 0, tree, Mem());
      while f < fileCount
        invariant Valid()
        invariant LoopV2(a, fileCount, dirs, Progress(pos, f, tree, Mem())) == LoopV2(a, fileCount, dirs, start)
        decreases |a.data| - pos
      {
        var group := ExtractGroupV2(f);
        if group.Bad? {
          return Stopped(group.why);
        }
        f := group.value.1;
        if !group.value.0 {
          return Finished(false, dirs, Progress(pos, f, tree, Memory(text, slots, descriptor)));
        }
      }
      o := Finished(true, dirs, Progress(pos, f, tree, Memory(text, slots, descriptor)));
    }

    /** One round of the V1 loop: a file with its own data. */
    method ExtractFileV1() returns (r: Res<bool>)
      requires Valid()
      modifies this`pos, this`tree, this`text, this`descriptor
      ensures Valid()
      ensures forall f: nat ::
        var spec := FileV1(a, Progress(old(pos), f, old(tree), old(Mem())));
        if r.Bad? then spec == Bad(r.why) else spec == Got((r.value, Progress(pos, f + 1, tree, Mem())))
    {
      hide Field, String, CopyOut, StampOf, FromLE;
      var path := String(a, pos, text);
      if path.Bad? {
        return Bad(path.why);
      }
      var d := Field(a, path.value.2, descriptor);
      if d.Bad? {
        return Bad(d.why);
      }
      var copied := CopyOut(a, d.value.1, 1, FromLE(d.value.0[5..9]));
      if copied.Bad? {
        return Bad(copied.why);
      }
      var (ok, outs, end) := copied.value;
      tree := tree[path.value.0 := Entry(outs[0], Some(StampOf(d.value.0)))];
      text, descriptor, pos := path.value.1, d.value.0, end;
      r := Got(ok);
    }

    method ExtractAllFilesV1(fileCount: nat) returns (o: Outcome)
      requires Valid()
      modifies this`pos, this`tree, this`text, this`descriptor
      ensures Valid()
      ensures o == LoopV1(a, fileCount, dirs, true, Progress(old(pos), 0, old(tree), old(Mem())))
      ensures o.Finished? ==> o.dirs == dirs && o.at.pos == pos && o.at.tree == tree
    {
      hide FileV1;
      var f: nat := 0;
      var success := true;
      ghost var start := Progress(pos, 0, tree, Mem());
      while f < fileCount
        invariant Valid()
        invariant LoopV1(a, fileCount, dirs, success, Progress(pos, f, tree, Mem()))
            == LoopV1(a, fileCount, dirs, true, start)
        decreases |a.data| - pos
      {
        ghost var at := Progress(pos, f, tree, Mem());
        var file := ExtractFileV1();
        assert FileV1(a, at).Got? ==> at.pos < FileV1(a, at).value.1.pos;
        if file.Bad? {
          return Stopped(file.why);
        }
        success := success && file.value;
        f := f + 1;
      }
      o := Finished(success, dirs, Progress(pos, f, tree, Memory(text, slots, descriptor)));
    }

    method UnpackGeneric() returns (o: Outcome)
      requires Valid() && pos == 0 && dirs == [] && tree == map[]
      modifies this
      ensures o == Unpack(a)
      ensures o.Finished? ==> o.dirs == dirs && o.at.pos == pos && o.at.tree == tree
    {
      hide Counts, LoopV1, LoopV2, Dirs;
      text, slots, descriptor := ClearText(), ClearSlots(), a.unset.descriptor;
      var counts := Counts(a);
      if counts.Bad? {
        return Stopped(counts.why);
      }
      var (magic, dirCount, fileCount, start) := counts.value;
      var isV1 := magic == MERCYPAK_V1_MAGIC;
      var isV2 := magic == MERCYPAK_V2_MAGIC;
      if !isV1 && !isV2 {
        return Stopped(BadMagic);
      }
      pos := start;
      var made := CreateDirectories(dirCount);
      if made.Bad? {
        return Stopped(made.why);
      }
      if isV2 {
        o := ExtractAllFilesV2(fileCount);
      } else {
        o := ExtractAllFilesV1(fileCount);
      }
    }
  }
}
