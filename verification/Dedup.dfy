/** Grouping files with equal contents before they are packed (sysprep/mercypak.py). */
module Dedup {
  import opened Bytes

  const MAX_FILES_PER_KNOWN_DATA := 8

  /** A file's path as encoded bytes, and its DOS attributes, date and time as plain numbers. */
  datatype FileInfo = FileInfo(path: seq<byte>, attribute: nat, date: nat, time: nat)

  datatype File = File(data: seq<byte>, info: FileInfo)

  /** fileData: one block of data and the files that share it. */
  datatype Group = Group(data: seq<byte>, files: seq<FileInfo>)

  /** SHA-256 as an arbitrary function. */
  type Digest = seq<byte> -> seq<byte>

  // ----- adding one file

  /** The first group with this digest and room, or |groups|. */
  function FindGroup(h: Digest, groups: seq<Group>, data: seq<byte>): (i: nat)
    ensures i <= |groups|
    ensures i < |groups| ==> h(groups[i].data) == h(data) && |groups[i].files| < MAX_FILES_PER_KNOWN_DATA
    ensures forall j :: 0 <= j < i ==> h(groups[j].data) == h(data) ==> |groups[j].files| >= MAX_FILES_PER_KNOWN_DATA
  {
    if groups == [] then 0
    else if h(groups[0].data) == h(data) && |groups[0].files| < MAX_FILES_PER_KNOWN_DATA then 0
    else 1 + FindGroup(h, groups[1..], data)
  }

  function AddFile(h: Digest, groups: seq<Group>, f: File): seq<Group> {
    var i := FindGroup(h, groups, f.data);
    if i < |groups| then groups[i := groups[i].(files := groups[i].files + [f.info])]
    else groups + [Group(f.data, [f.info])]
  }

  function AddAll(h: Digest, files: seq<File>): seq<Group> {
    if files == [] then [] else AddFile(h, AddAll(h, files[..|files| - 1]), files[|files| - 1])
  }

  class KnownFiles {
    var groups: seq<Group>

    constructor ()
      ensures groups == []
    {
      groups := [];
    }

    /** add_to_known_files: the first group that matches takes the file, a new one when none does. */
    method Add(h: Digest, f: File)
      modifies this
      ensures groups == AddFile(h, old(groups), f)
    {
      var i := 0;
      while i < |groups|
        invariant i <= |groups| && groups == old(groups)
        invariant FindGroup(h, groups, f.data) == i + FindGroup(h, groups[i..], f.data)
      {
        if h(groups[i].data) == h(f.data) && |groups[i].files| < MAX_FILES_PER_KNOWN_DATA {
          groups := groups[i := groups[i].(files := groups[i].files + [f.info])];
          return;
        }
        assert groups[i..][1..] == groups[i + 1..];
        i := i + 1;
      }
      groups := groups + [Group(f.data, [f.info])];
    }

    method AddMany(h: Digest, files: seq<File>)
      requires groups == []
      modifies this
      ensures groups == AddAll(h, files)
    {
      var i := 0;
      while i < |files|
        invariant i <= |files| && groups == AddAll(h, files[..i])
      {
        Add(h, files[i]);
        assert files[..i + 1][..i] == files[..i];
        i := i + 1;
      }
      assert files[..|files|] == files;
    }
  }

  // ----- what grouping keeps

  function GroupFiles(g: Group): (r: seq<File>)
    ensures |r| == |g.files|
  {
    seq(|g.files|, i requires 0 <= i < |g.files| => File(g.data, g.files[i]))
  }

  /** The files of all groups, in the order in which they are packed. */
  function Flatten(groups: seq<Group>): seq<File> {
    if groups == [] then [] else GroupFiles(groups[0]) + Flatten(groups[1..])
  }

  /** The files whose data has digest d, in order. */
  function OfDigest(h: Digest, d: seq<byte>, files: seq<File>): seq<File> {
    if files == [] then []
    else (if h(files[0].data) == d then [files[0]] else []) + OfDigest(h, d, files[1..])
  }

  function GroupsOfDigest(h: Digest, d: seq<byte>, groups: seq<Group>): nat {
    if groups == [] then 0 else (if h(groups[0].data) == d then 1 else 0) + GroupsOfDigest(h, d, groups[1..])
  }

  /** The digest tells the given contents apart. */
  ghost predicate Injective(h: Digest, files: seq<File>) {
    forall f, g :: f in files && g in files && h(f.data) == h(g.data) ==> f.data == g.data
  }

  /** Groups hold 1 to 8 files, and of the groups with one digest only the last may have room. */
  ghost predicate Tight(h: Digest, groups: seq<Group>) {
    && (forall i :: 0 <= i < |groups| ==> 1 <= |groups[i].files| <= MAX_FILES_PER_KNOWN_DATA)
    && (forall i, j :: 0 <= i < j < |groups| && h(groups[i].data) == h(groups[j].data) ==>
          |groups[i].files| == MAX_FILES_PER_KNOWN_DATA)
  }

  lemma {:induction false} AddAllTight(h: Digest, files: seq<File>)
    ensures Tight(h, AddAll(h, files))
    decreases |files|
  {
    if files != [] {
      AddAllTight(h, files[..|files| - 1]);
    }
  }

  /** Every group's data is the data of one of the files. */
  lemma {:induction false} GroupDataIsFileData(h: Digest, files: seq<File>)
    ensures forall g :: g in AddAll(h, files) ==> exists f :: f in files && f.data == g.data
    decreases |files|
  {
    if files != [] {
      var front, last := files[..|files| - 1], files[|files| - 1];
      GroupDataIsFileData(h, front);
      forall g | g in AddAll(h, files)
        ensures exists f :: f in files && f.data == g.data
      {
        if exists g' :: g' in AddAll(h, front) && g'.data == g.data {
          var g' :| g' in AddAll(h, front) && g'.data == g.data;
          var f :| f in front && f.data == g'.data;
          assert f in files;
        } else {
          assert g.data == last.data && last in files;
        }
      }
    }
  }

  lemma {:induction false} OfDigestConcat(h: Digest, d: seq<byte>, a: seq<File>, b: seq<File>)
    ensures OfDigest(h, d, a + b) == OfDigest(h, d, a) + OfDigest(h, d, b)
    decreases |a|
  {
    if a == [] {
      assert a + b == b;
    } else {
      assert (a + b)[1..] == a[1..] + b && (a + b)[0] == a[0];
      OfDigestConcat(h, d, a[1..], b);
      var head := if h(a[0].data) == d then [a[0]] else [];
      assert OfDigest(h, d, a) == head + OfDigest(h, d, a[1..]);
      assert OfDigest(h, d, a + b) == head + OfDigest(h, d, a[1..] + b);
      hide OfDigest;
      assert head + (OfDigest(h, d, a[1..]) + OfDigest(h, d, b)) == (head + OfDigest(h, d, a[1..])) + OfDigest(h, d, b);
    }
  }

  lemma {:induction false} OfDigestAll(h: Digest, d: seq<byte>, files: seq<File>)
    requires forall f :: f in files ==> h(f.data) == d
    ensures OfDigest(h, d, files) == files
    decreases |files|
  {
    if files != [] {
      OfDigestAll(h, d, files[1..]);
    }
  }

  lemma {:induction false} OfDigestNone(h: Digest, d: seq<byte>, files: seq<File>)
    requires forall f :: f in files ==> h(f.data) != d
    ensures OfDigest(h, d, files) == []
    decreases |files|
  {
    if files != [] {
      OfDigestNone(h, d, files[1..]);
    }
  }

  lemma {:induction false} FlattenNoDigest(h: Digest, d: seq<byte>, groups: seq<Group>)
    requires forall g :: g in groups ==> h(g.data) != d
    ensures OfDigest(h, d, Flatten(groups)) == []
    ensures GroupsOfDigest(h, d, groups) == 0
    decreases |groups|
  {
    if groups != [] {
      FlattenNoDigest(h, d, groups[1..]);
      OfDigestNone(h, d, GroupFiles(groups[0]));
      OfDigestConcat(h, d, GroupFiles(groups[0]), Flatten(groups[1..]));
    }
  }

  /** Behind a group with room, no group of the same digest follows. */
  lemma RoomIsLast(h: Digest, groups: seq<Group>)
    requires Tight(h, groups) && groups != [] && |groups[0].files| < MAX_FILES_PER_KNOWN_DATA
    ensures forall x :: x in groups[1..] ==> h(x.data) != h(groups[0].data)
  {
    forall x | x in groups[1..]
      ensures h(x.data) != h(groups[0].data)
    {
      var j :| 0 <= j < |groups| - 1 && groups[1..][j] == x;
      assert groups[j + 1] == x;
    }
  }

  lemma FlattenCons(g: Group, rest: seq<Group>)
    ensures Flatten([g] + rest) == GroupFiles(g) + Flatten(rest)
  {
    assert ([g] + rest)[1..] == rest;
  }

  /** A file put before a stretch without its digest is, digest by digest, at the end. */
  lemma InsertBefore(h: Digest, d: seq<byte>, a: seq<File>, f: File, b: seq<File>)
    requires h(f.data) == d ==> OfDigest(h, d, b) == []
    ensures OfDigest(h, d, (a + [f]) + b) == OfDigest(h, d, a + b) + (if h(f.data) == d then [f] else [])
  {
    assert OfDigest(h, d, [f]) == if h(f.data) == d then [f] else [];
    hide OfDigest;
    OfDigestConcat(h, d, a + [f], b);
    OfDigestConcat(h, d, a, [f]);
    OfDigestConcat(h, d, a, b);
  }

  /** Appending to the group in front, when no later group has the digest. */
  lemma AppendToFirst(h: Digest, g: Group, rest: seq<Group>, f: File, d: seq<byte>)
    requires g.data == f.data && forall x :: x in rest ==> h(x.data) != h(f.data)
    ensures var after := Flatten([g.(files := g.files + [f.info])] + rest);
      && OfDigest(h, d, after) == OfDigest(h, d, Flatten([g] + rest)) + (if h(f.data) == d then [f] else [])
      && multiset(after) == multiset(Flatten([g] + rest)) + multiset{f}
  {
    hide OfDigest, Flatten;
    var g' := g.(files := g.files + [f.info]);
    FlattenCons(g', rest);
    FlattenCons(g, rest);
    assert GroupFiles(g') == GroupFiles(g) + [f];
    if h(f.data) == d {
      FlattenNoDigest(h, d, rest);
    }
    InsertBefore(h, d, GroupFiles(g), f, Flatten(rest));
  }

  lemma ConsKeeps(h: Digest, d: seq<byte>, g: Group, rest: seq<Group>, rest': seq<Group>, f: File)
    requires OfDigest(h, d, Flatten(rest')) == OfDigest(h, d, Flatten(rest)) + (if h(f.data) == d then [f] else [])
    requires multiset(Flatten(rest')) == multiset(Flatten(rest)) + multiset{f}
    ensures OfDigest(h, d, Flatten([g] + rest'))
        == OfDigest(h, d, Flatten([g] + rest)) + (if h(f.data) == d then [f] else [])
    ensures multiset(Flatten([g] + rest')) == multiset(Flatten([g] + rest)) + multiset{f}
  {
    hide OfDigest, Flatten, GroupFiles;
    FlattenCons(g, rest);
    FlattenCons(g, rest');
    OfDigestConcat(h, d, GroupFiles(g), Flatten(rest));
    OfDigestConcat(h, d, GroupFiles(g), Flatten(rest'));
  }

  lemma UpdateTail<T>(s: seq<T>, i: nat, x: T)
    requires 0 < i < |s|
    ensures s[i := x] == [s[0]] + s[1..][i - 1 := x] && s[1..][i - 1] == s[i]
  {
  }

  lemma FindGroupCons(h: Digest, groups: seq<Group>, data: seq<byte>)
    requires groups != []
    ensures FindGroup(h, groups, data) > 0 ==> FindGroup(h, groups[1..], data) == FindGroup(h, groups, data) - 1
  {
  }

  lemma AddToFirst(h: Digest, groups: seq<Group>, f: File)
    requires groups != [] && FindGroup(h, groups, f.data) == 0
    ensures AddFile(h, groups, f) == [groups[0].(files := groups[0].files + [f.info])] + groups[1..]
  {
    hide FindGroup;
  }

  lemma AddToLater(h: Digest, groups: seq<Group>, f: File)
    requires groups != [] && FindGroup(h, groups, f.data) > 0
    ensures AddFile(h, groups, f) == [groups[0]] + AddFile(h, groups[1..], f)
  {
    FindGroupCons(h, groups, f.data);
    hide FindGroup;
    var i := FindGroup(h, groups, f.data);
    if i < |groups| {
      UpdateTail(groups, i, groups[i].(files := groups[i].files + [f.info]));
    }
  }

  lemma AddToNone(h: Digest, f: File, d: seq<byte>)
    ensures OfDigest(h, d, Flatten(AddFile(h, [], f)))
        == OfDigest(h, d, Flatten([])) + (if h(f.data) == d then [f] else [])
    ensures multiset(Flatten(AddFile(h, [], f))) == multiset(Flatten([])) + multiset{f}
  {
    FlattenCons(Group(f.data, [f.info]), []);
    assert GroupFiles(Group(f.data, [f.info])) == [f];
    assert AddFile(h, [], f) == [Group(f.data, [f.info])] + [];
    assert [f] + [] == [f];
  }

  /** Adding a file puts it behind all packed files with its digest and moves no other file. */
  lemma {:induction false} AddFileKeepsOrder(h: Digest, groups: seq<Group>, f: File, d: seq<byte>)
    requires Tight(h, groups)
    requires forall g :: g in groups && h(g.data) == h(f.data) ==> g.data == f.data
    ensures OfDigest(h, d, Flatten(AddFile(h, groups, f)))
         == OfDigest(h, d, Flatten(groups)) + (if h(f.data) == d then [f] else [])
    ensures multiset(Flatten(AddFile(h, groups, f))) == multiset(Flatten(groups)) + multiset{f}
    decreases |groups|
  {
    if groups == [] {
      AddToNone(h, f, d);
    } else {
      hide OfDigest, Flatten, AddFile;
      var g, rest := groups[0], groups[1..];
      assert groups == [g] + rest;
      if FindGroup(h, groups, f.data) == 0 {
        AddToFirst(h, groups, f);
        RoomIsLast(h, groups);
        AppendToFirst(h, g, rest, f, d);
      } else {
        AddToLater(h, groups, f);
        AddFileKeepsOrder(h, rest, f, d);
        ConsKeeps(h, d, g, rest, AddFile(h, rest, f), f);
      }
    }
  }

  /**
   Deduplication conserves: the groups hold exactly the added files, and files with one digest keep the
   order in which they were added.
   */
  lemma {:induction false} AddAllConserves(h: Digest, files: seq<File>, d: seq<byte>)
    requires Injective(h, files)
    ensures OfDigest(h, d, Flatten(AddAll(h, files))) == OfDigest(h, d, files)
    ensures multiset(Flatten(AddAll(h, files))) == multiset(files)
    decreases |files|
  {
    if files != [] {
      var front, last := files[..|files| - 1], files[|files| - 1];
      assert files == front + [last];
      AddAllConserves(h, front, d);
      AddAllTight(h, front);
      GroupDataIsFileData(h, front);
      AddFileKeepsOrder(h, AddAll(h, front), last, d);
      OfDigestConcat(h, d, front, [last]);
      assert OfDigest(h, d, [last]) == if h(last.data) == d then [last] else [];
    }
  }

  lemma {:induction false} TightCount(h: Digest, groups: seq<Group>, d: seq<byte>)
    requires Tight(h, groups)
    ensures GroupsOfDigest(h, d, groups)
         == (|OfDigest(h, d, Flatten(groups))| + MAX_FILES_PER_KNOWN_DATA - 1) / MAX_FILES_PER_KNOWN_DATA
    decreases |groups|
  {
    if groups != [] {
      var g, rest := groups[0], groups[1..];
      assert Flatten(groups) == GroupFiles(g) + Flatten(rest);
      hide OfDigest, Flatten;
      OfDigestConcat(h, d, GroupFiles(g), Flatten(rest));
      TightCount(h, rest, d);
      if h(g.data) == d {
        OfDigestAll(h, d, GroupFiles(g));
        if |g.files| < MAX_FILES_PER_KNOWN_DATA {
          RoomIsLast(h, groups);
          FlattenNoDigest(h, d, rest);
        }
      } else {
        OfDigestNone(h, d, GroupFiles(g));
      }
    }
  }

  /** n files of one digest make ceil(n / 8) groups of 1 to 8 files. */
  lemma GroupingIsTight(h: Digest, files: seq<File>, d: seq<byte>)
    requires Injective(h, files)
    ensures Tight(h, AddAll(h, files))
    ensures GroupsOfDigest(h, d, AddAll(h, files)) == (|OfDigest(h, d, files)| + 7) / 8
  {
    AddAllTight(h, files);
    AddAllConserves(h, files, d);
    TightCount(h, AddAll(h, files), d);
  }
}
