/** The writer of the format tarfs_create reads: what is written into an archive can be opened
    under its name and read back (kernel/src/vfs/tarfs.c, kstdio.c). */
module TarWriter {
  import opened Basics
  import opened TarText
  import opened TarTree
  import opened TarArchives
  import opened Tar

  /** A file to be written: the names of its directories and its own, its bytes, the type of the
      header, and the fields tarfs_create takes nothing from. */
  datatype Member = Member(names: seq<Text>, content: Text, kind: byte,
                           mode: Text, uid: Text, gid: Text, time: Text, checksum: Text, rest: Text)

  predicate IsName(name: Text) {
    name != [] && 0x2F !in name && 0 !in name
  }

  predicate AreNames(names: seq<Text>) {
    names != [] && forall i :: 0 <= i < |names| ==> IsName(names[i])
  }

  /** The names with separators between them. */
  function Joined(names: seq<Text>): (path: Text)
    requires names != []
  {
    if |names| == 1 then names[0] else names[0] + [0x2F] + Joined(names[1..])
  }

  /** A directory's path has a separator at its end. */
  function Path(m: Member): Text
    requires m.names != []
  {
    if m.kind == 0x35 then Joined(m.names) + [0x2F] else Joined(m.names)
  }

  predicate Writable(m: Member) {
    && AreNames(m.names) && |Path(m)| < 100 && |m.content| < 0x8000_0000
    && |m.mode| == 8 && |m.uid| == 8 && |m.gid| == 8 && |m.time| == 12 && |m.checksum| == 8 && |m.rest| == 355
  }

  function Zeros(n: nat): (s: Text)
    ensures |s| == n
  {
    seq(n, _ => 0)
  }

  /** A header: the name in 100 bytes, mode, uid and gid in 8 each, the size in 11 octal digits
      and a NUL, the time in 12, the checksum in 8, the type in 1, and what ustar has behind. */
  function Header(m: Member): (h: Text)
    requires Writable(m)
    ensures |h| == 512
  {
    Path(m) + Zeros(100 - |Path(m)|) + m.mode + m.uid + m.gid + Octal(|m.content|, 11) + [0] + m.time + m.checksum +
    [m.kind] + m.rest
  }

  /** What fills the last block of the content. */
  function Padding(n: nat): (k: nat)
    ensures k < 512 && (n + k) % 512 == 0
  {
    (512 - n % 512) % 512
  }

  function Block(m: Member): Text
    requires Writable(m)
  {
    Header(m) + m.content + Zeros(Padding(|m.content|))
  }

  predicate AllWritable(ms: seq<Member>) {
    forall k :: 0 <= k < |ms| ==> Writable(ms[k])
  }

  function Archive(ms: seq<Member>): Text
    requires AllWritable(ms)
  {
    if ms == [] then [] else Block(ms[0]) + Archive(ms[1..])
  }

  // ----- paths

  lemma NameHasNoSlash(name: Text)
    requires IsName(name)
    ensures UpTo(name) == |name| && Split(name) == [name]
  {
    FirstSlash(name, |name|);
  }

  lemma {:induction false} SplitJoined(names: seq<Text>)
    requires AreNames(names)
    ensures Split(Joined(names)) == names
    ensures Joined(names) != [] && Joined(names)[|Joined(names)| - 1] != SLASH && 0 !in Joined(names)
  {
    hide Split, UpTo;
    assert IsName(names[0]);
    NameHasNoSlash(names[0]);
    if |names| == 1 {
      assert names == [names[0]];
    } else {
      SplitJoined(names[1..]);
      SplitFirst(names[0], Joined(names[1..]));
      assert names == [names[0]] + names[1..];
    }
  }

  /** tarfs_create and kfopen take the names from the path, with or without separators around. */
  lemma {:induction false} PathsAreNames(names: seq<Text>)
    requires AreNames(names)
    ensures Segments(Joined(names)) == names && Segments(Joined(names) + [0x2F]) == names
    ensures Components(Joined(names)) == names && Components(Joined(names) + [0x2F]) == names
    ensures Components([0x2F] + Joined(names)) == names
    ensures 0 !in Joined(names) + [0x2F]
    ensures Joined(names) != [] && Joined(names) != [SLASH]
  {
    hide Split, UpTo, Joined, Components;
    SplitJoined(names);
    var path := Joined(names);
    assert WithoutLastSlash(path + [SLASH]) == path;
    NoneEmpty(names);
    ReadingsAgree(path);
    ReadingsAgree(path + [SLASH]);
    LeadingSlash(path);
  }

  lemma NoneEmpty(names: seq<Text>)
    requires AreNames(names)
    ensures [] !in names
  {
    forall i | 0 <= i < |names| ensures names[i] != [] {
      assert IsName(names[i]);
    }
  }

  // ----- a header read back

  /** These bytes of the header are those of the data. */
  lemma PieceIs(data: Text, i: nat, h: Text, a: nat, s: Text)
    requires i + |h| <= |data| && data[i..i + |h|] == h && a + |s| <= |h| && h[a..a + |s|] == s
    ensures data[i + a..i + a + |s|] == s
  {
    forall j | 0 <= j < |s| ensures data[i + a..i + a + |s|][j] == s[j] {
      assert data[i..i + |h|][a + j] == h[a..a + |s|][j];
    }
  }

  lemma HeaderPieces(m: Member)
    requires Writable(m)
    ensures var h, p := Header(m), Path(m);
            && h[0..|p|] == p && h[|p|] == 0
            && h[124..135] == Octal(|m.content|, 11) && h[135] == 0 && h[156] == m.kind
  {
    hide Octal, Joined, Path;
    var p, n := Path(m), Octal(|m.content|, 11);
    var a := p + Zeros(100 - |p|);
    var b := a + m.mode + m.uid + m.gid;
    var c := b + n + [0] + m.time + m.checksum;
    assert Header(m) == c + [m.kind] + m.rest;
    assert |a| == 100 && |b| == 124 && |c| == 156;
    assert c[..135] == b + n && (b + n)[124..135] == n;
    assert a[0..|p|] == p && b[..100] == a && a[|p|] == 0;
  }

  lemma Pow8Is()
    ensures Pow8(11) == 0x2_0000_0000
  {
    assert Pow8(2) == 64;
    assert Pow8(4) == 0x1000;
    assert Pow8(8) == 0x100_0000;
  }

  lemma {:induction false} HeaderIsRead(data: Text, i: nat, m: Member)
    requires Writable(m) && i + 512 <= |data| && data[i..i + 512] == Header(m)
    ensures CString(data, i) == Path(m) && FieldValue(data, i + 124, 12) == |m.content|
  {
    hide Octal, Path, Header, CString, Pow8, FieldValue;
    var h, p := Header(m), Path(m);
    HeaderPieces(m);
    PathHasNoZero(m);
    PieceIs(data, i, h, 0, p);
    NulAfter(data, i, h, |p|);
    CStringBegins(data, i, p);
    NulIsEnd(data, i + |p|);
    assert p + [] == p;
    var n := Octal(|m.content|, 11);
    PieceIs(data, i, h, 124, n);
    NulAfter(data, i, h, 135);
    DigitsAreNoNul(|m.content|, 11);
    Pow8Is();
    FieldRoundTrip(data, i + 124, |m.content|, 11, 12);
  }

  lemma PathHasNoZero(m: Member)
    requires Writable(m)
    ensures Path(m) != [] && forall j :: 0 <= j < |Path(m)| ==> Path(m)[j] != 0
  {
    hide Joined;
    SplitJoined(m.names);
  }

  lemma DigitsAreNoNul(n: nat, k: nat)
    ensures forall j :: 0 <= j < k ==> Octal(n, k)[j] != 0
  {
    hide Octal;
    OctalIsDigits(n, k);
    assert forall j :: 0 <= j < k ==> IsOctal(Octal(n, k)[j]);
  }

  lemma NulAfter(data: Text, i: nat, h: Text, a: nat)
    requires i + |h| <= |data| && data[i..i + |h|] == h && a < |h|
    ensures data[i + a] == h[a]
  {
  }

  lemma NulIsEnd(data: Text, at: nat)
    requires at < |data| ==> data[at] == 0
    ensures CString(data, at) == []
  {
  }

  /** Only the digit 5 is the type of a directory, whatever follows it. */
  lemma KindIsRead(data: Text, i: nat, m: Member)
    requires Writable(m) && i + 512 <= |data| && data[i..i + 512] == Header(m)
    ensures FieldValue(data, i + 156, 1) == 5 <==> m.kind == 0x35
  {
    hide Octal, Path, Header;
    HeaderPieces(m);
    NulAfter(data, i, Header(m), 156);
    var s := CString(data, i + 156)[..FieldLength(data, i + 156, 1)];
    if m.kind == 0 {
      assert s == [];
    } else {
      assert s == [m.kind] && s[..0] == [];
    }
  }

  // ----- an archive read back

  function OffsetOf(ms: seq<Member>, k: nat): (at: nat)
    requires AllWritable(ms) && k < |ms|
  {
    if k == 0 then 512 else |Block(ms[0])| + OffsetOf(ms[1..], k - 1)
  }

  /** The entry that was written for a member. */
  ghost predicate IsEntryOf(e: Entry, m: Member, at: nat)
    requires Writable(m)
  {
    && e.path == Path(m) && e.size == |m.content| && e.offset == at
    && (e.directory <==> m.kind == 0x35)
  }

  ghost predicate AreEntries(es: seq<Entry>, ms: seq<Member>, i: nat)
    requires AllWritable(ms)
  {
    |es| == |ms| && forall k :: 0 <= k < |ms| ==> IsEntryOf(es[k], ms[k], i + OffsetOf(ms, k))
  }

  lemma BlockLength(m: Member)
    requires Writable(m)
    ensures |Block(m)| == 512 + RoundedUp(|m.content|)
  {
    hide Header;
    RoundedUpIs(|m.content|);
    SameMultiple(|m.content|, |m.content| + Padding(|m.content|), RoundedUp(|m.content|));
  }

  lemma SameMultiple(n: nat, a: nat, b: nat)
    requires a % 512 == 0 && b % 512 == 0 && n <= a < n + 512 && n <= b < n + 512
    ensures a == b
  {
  }

  /** The end of the archive: nothing, or a block that begins with a NUL. */
  predicate IsEnd(tail: Text) {
    tail == [] || tail[0] == 0
  }

  lemma {:induction false} ArchiveIsRead(data: Text, i: nat, ms: seq<Member>, tail: Text)
    requires AllWritable(ms) && IsEnd(tail) && i <= |data| && data[i..] == Archive(ms) + tail
    ensures AreEntries(Entries(data, i), ms, i)
    decreases |ms|
  {
    hide Header, CString, FieldValue, RoundedUp, Path, Block, Writable, Octal;
    if ms == [] {
      assert data[i..] == tail;
      if i < |data| {
        assert data[i] == data[i..][0];
        NulIsEnd(data, i);
      }
    } else {
      var m := ms[0];
      var next := i + |Block(m)|;
      FirstBlock(data, i, ms, tail);
      HeaderIsRead(data, i, m);
      KindIsRead(data, i, m);
      PathHasNoZero(m);
      BlockLength(m);
      ArchiveIsRead(data, next, ms[1..], tail);
      FirstEntry(data, i, next);
      EntriesBehind(Entries(data, i), ms, i);
    }
  }

  lemma FirstEntry(data: Text, i: nat, next: nat)
    requires i < |data| && CString(data, i) != [] && next == i + 512 + RoundedUp(FieldValue(data, i + 124, 12))
    ensures Entries(data, i) == [EntryAt(data, i)] + Entries(data, next)
  {
    hide CString, FieldValue, RoundedUp;
  }

  lemma EntriesBehind(es: seq<Entry>, ms: seq<Member>, i: nat)
    requires AllWritable(ms) && ms != [] && es != [] && IsEntryOf(es[0], ms[0], i + 512)
    requires AreEntries(es[1..], ms[1..], i + |Block(ms[0])|)
    ensures AreEntries(es, ms, i)
  {
    hide Writable, Block, IsEntryOf;
    forall k | 0 <= k < |ms| ensures IsEntryOf(es[k], ms[k], i + OffsetOf(ms, k)) {
      if k > 0 {
        assert es[k] == es[1..][k - 1] && ms[k] == ms[1..][k - 1];
      }
    }
  }

  lemma BlockBegins(m: Member)
    requires Writable(m)
    ensures |Block(m)| >= 512 + |m.content|
    ensures Block(m)[..512] == Header(m) && Block(m)[512..512 + |m.content|] == m.content
  {
    hide Header;
  }

  lemma Cut(data: Text, i: nat, b: Text, rest: Text)
    requires i <= |data| && data[i..] == b + rest
    ensures i + |b| <= |data| && data[i..i + |b|] == b && data[i + |b|..] == rest
  {
    assert |data[i..]| == |data| - i;
    assert data[i..i + |b|] == data[i..][..|b|];
    assert data[i + |b|..] == data[i..][|b|..];
  }

  lemma FirstBlock(data: Text, i: nat, ms: seq<Member>, tail: Text)
    requires AllWritable(ms) && ms != [] && i <= |data| && data[i..] == Archive(ms) + tail
    ensures i + |Block(ms[0])| <= |data| && 512 <= |Block(ms[0])|
    ensures data[i..i + 512] == Header(ms[0]) && data[i..i + |Block(ms[0])|] == Block(ms[0])
    ensures data[i + |Block(ms[0])|..] == Archive(ms[1..]) + tail
  {
    hide Writable, Block, Header;
    var b, rest := Block(ms[0]), Archive(ms[1..]) + tail;
    assert data[i..] == b + rest;
    BlockBegins(ms[0]);
    Cut(data, i, b, rest);
    assert data[i..i + 512] == data[i..i + |b|][..512];
  }

  /** The content is where the entry says. */
  lemma {:induction false} ContentIsThere(data: Text, i: nat, ms: seq<Member>, tail: Text, k: nat)
    requires AllWritable(ms) && k < |ms| && i <= |data| && data[i..] == Archive(ms) + tail
    ensures i + OffsetOf(ms, k) + |ms[k].content| <= |data|
    ensures data[i + OffsetOf(ms, k)..i + OffsetOf(ms, k) + |ms[k].content|] == ms[k].content
    decreases k
  {
    hide Header, Writable, Block;
    FirstBlock(data, i, ms, tail);
    if k > 0 {
      ContentIsThere(data, i + |Block(ms[0])|, ms[1..], tail, k - 1);
    } else {
      BlockBegins(ms[0]);
      PieceIs(data, i, Block(ms[0]), 512, ms[0].content);
    }
  }

  // ----- what is written is read

  predicate DistinctNames(ms: seq<Member>) {
    forall i, j :: 0 <= i < j < |ms| ==> ms[i].names != ms[j].names
  }

  predicate Before(ms: seq<Member>, k: nat, names: seq<Text>) {
    exists j :: 0 <= j < k && j < |ms| && ms[j].names == names
  }

  /** Every file is at the top or in one that is written before. */
  predicate DirectoriesFirst(ms: seq<Member>) {
    forall k :: 0 <= k < |ms| && |ms[k].names| > 1 ==> Before(ms, k, ms[k].names[..|ms[k].names| - 1])
  }

  lemma EntryNames(e: Entry, m: Member, at: nat)
    requires Writable(m) && IsEntryOf(e, m, at)
    ensures Names(e) == m.names && [] !in m.names
  {
    hide Joined, Segments, Components;
    PathsAreNames(m.names);
    NoneEmpty(m.names);
  }

  lemma EntriesNames(es: seq<Entry>, ms: seq<Member>, i: nat)
    requires AllWritable(ms) && AreEntries(es, ms, i)
    ensures |es| == |ms| && forall k :: 0 <= k < |ms| ==> Names(es[k]) == ms[k].names && [] !in ms[k].names
  {
    hide Writable, IsEntryOf;
    forall k | 0 <= k < |ms| ensures Names(es[k]) == ms[k].names && [] !in ms[k].names {
      EntryNames(es[k], ms[k], i + OffsetOf(ms, k));
    }
  }

  lemma WrittenIsOrdered(es: seq<Entry>, ms: seq<Member>)
    requires |es| == |ms| && forall k :: 0 <= k < |ms| ==> Names(es[k]) == ms[k].names
    requires DistinctNames(ms)
    ensures Distinct(es) && (ParentsFirst(es) <==> DirectoriesFirst(ms))
  {
    hide Segments, Names;
    forall k | 0 <= k < |ms|
      ensures Front(es[k]) == ms[k].names[..|ms[k].names| - 1]
      ensures ListsBefore(es, k, Front(es[k])) <==> Before(ms, k, Front(es[k]))
    {
      assert Names(es[k]) == ms[k].names;
    }
  }

  /** A node with the content of the member, where the archive has it. */
  ghost predicate IsFile(nodes: seq<Node>, data: Text, v: nat, m: Member) {
    && v < |nodes| && nodes[v].size == |m.content| && nodes[v].offset + |m.content| <= |data|
    && data[nodes[v].offset..nodes[v].offset + |m.content|] == m.content
    && (nodes[v].directory <==> m.kind == 0x35)
  }

  /** A list of names leads to the file that was written under it, or to nothing if there is none. */
  ghost predicate LeadsToFile(nodes: seq<Node>, data: Text, ms: seq<Member>, names: seq<Text>) {
    match WalkTo(nodes, names)
    case None => forall k :: 0 <= k < |ms| ==> ms[k].names != names
    case Some(v) => 1 <= v <= |ms| && ms[v - 1].names == names && IsFile(nodes, data, v, ms[v - 1])
  }

  lemma EntryIsFile(nodes: seq<Node>, data: Text, e: Entry, v: nat, m: Member, at: nat)
    requires v < |nodes| && Writable(m) && IsEntryOf(e, m, at)
    requires nodes[v].size == e.size && nodes[v].offset == e.offset && nodes[v].directory == e.directory
    requires at + |m.content| <= |data| && data[at..at + |m.content|] == m.content
    ensures IsFile(nodes, data, v, m)
  {
  }

  /** Distinct lists of names, written with their files, become a tree exactly if directories come
      first; then every list of names leads to its file. */
  lemma {:induction false} WrittenIsFound(ms: seq<Member>, tail: Text, names: seq<Text>)
    requires AllWritable(ms) && IsEnd(tail) && DistinctNames(ms) && AreNames(names)
    ensures var built := Build([ROOT_NODE], Entries(Archive(ms) + tail, 0));
            && (built.Some? <==> DirectoriesFirst(ms))
            && (built.Some? ==> LeadsToFile(built.value, Archive(ms) + tail, ms, names))
  {
    hide Build, Writable, IsEntryOf, AreEntries, Archive, WalkTo, Front, Names, Entries, IsFile, ParentsFirst, Distinct;
    var data := Archive(ms) + tail;
    assert data[0..] == data;
    ArchiveIsRead(data, 0, ms, tail);
    var es := Entries(data, 0);
    EntriesNames(es, ms, 0);
    WrittenIsOrdered(es, ms);
    DistinctBuildIff(es);
    if DirectoriesFirst(ms) {
      AllAreFound(es, ms, tail, names);
    }
  }

  lemma {:induction false} AllAreFound(es: seq<Entry>, ms: seq<Member>, tail: Text, names: seq<Text>)
    requires AllWritable(ms) && AreEntries(es, ms, 0) && Distinct(es) && ParentsFirst(es) && names != []
    ensures Build([ROOT_NODE], es).Some?
    ensures LeadsToFile(Build([ROOT_NODE], es).value, Archive(ms) + tail, ms, names)
  {
    hide Build, Writable, IsEntryOf, AreEntries, Archive, WalkTo, Front, Names, IsFile, ParentsFirst, Distinct;
    EntriesNames(es, ms, 0);
    DistinctBuildIff(es);
    var nodes := Build([ROOT_NODE], es).value;
    FoundIsListed(es, names);
    forall k | 0 <= k < |ms| ensures WalkTo(nodes, Names(es[k])) == Some(k + 1) {
      ListedIsFound(es, k);
    }
    if WalkTo(nodes, names).Some? {
      var k := WalkTo(nodes, names).value - 1;
      ListedIsFound(es, k);
      MemberIsFile(nodes, es, ms, tail, k);
    }
  }

  lemma MemberIsFile(nodes: seq<Node>, es: seq<Entry>, ms: seq<Member>, tail: Text, k: nat)
    requires AllWritable(ms) && AreEntries(es, ms, 0) && k < |ms| && k + 1 < |nodes|
    requires |es| == |ms|
    requires nodes[k + 1].size == es[k].size && nodes[k + 1].offset == es[k].offset
    requires nodes[k + 1].directory == es[k].directory
    ensures IsFile(nodes, Archive(ms) + tail, k + 1, ms[k])
  {
    hide *;
    assert Writable(ms[k]) by {
      WritableAt(ms, k);
    }
    var data := Archive(ms) + tail;
    assert data[0..] == data;
    ContentIsThere(data, 0, ms, tail, k);
    MemberEntry(es, ms, k);
    EntryIsFile(nodes, data, es[k], k + 1, ms[k], OffsetOf(ms, k));
  }

  lemma WritableAt(ms: seq<Member>, k: nat)
    requires AllWritable(ms) && k < |ms|
    ensures Writable(ms[k])
  {
    hide Writable;
  }

  lemma MemberEntry(es: seq<Entry>, ms: seq<Member>, k: nat)
    requires AllWritable(ms) && AreEntries(es, ms, 0) && k < |ms|
    ensures |es| == |ms| && IsEntryOf(es[k], ms[k], OffsetOf(ms, k))
  {
    hide IsEntryOf, Writable, OffsetOf;
  }

  lemma ListedIsFound(es: seq<Entry>, k: nat)
    requires Distinct(es) && ParentsFirst(es) && k < |es|
    requires forall i :: 0 <= i < |es| ==> [] !in Names(es[i])
    ensures Build([ROOT_NODE], es).Some? && |Build([ROOT_NODE], es).value| == |es| + 1
    ensures var nodes := Build([ROOT_NODE], es).value;
            && WalkTo(nodes, Names(es[k])) == Some(k + 1)
            && nodes[k + 1].size == es[k].size && nodes[k + 1].offset == es[k].offset
            && nodes[k + 1].directory == es[k].directory
  {
    hide Build, WalkTo, Front, ParentsFirst, Distinct, Components, Segments;
    LookupsAgree(es, k, es[k].path);
    ReadingsAgree(es[k].path);
  }

  lemma ContentIsSmall(m: Member)
    requires Writable(m)
    ensures |m.content| < 0x8000_0000
  {
  }

  /** tarfs_create of an archive that was written, then kfopen of the names, with a separator in
      front or not, then reads: the content that was written under the names comes back, or as
      much of it as was asked for. */
  method WriteThenRead(ms: seq<Member>, tail: Text, names: seq<Text>, rooted: bool, lens: seq<nat>)
    returns (ok: bool, vn: Option<nat>, directory: bool, all: Text)
    requires AllWritable(ms) && IsEnd(tail) && DistinctNames(ms) && AreNames(names)
    requires |Archive(ms) + tail| < 0x8000_0000_0000_0000
    requires forall i :: 0 <= i < |lens| ==> lens[i] < 0x8000_0000
    ensures ok <==> DirectoriesFirst(ms)
    ensures ok ==> (vn.Some? <==> exists k :: 0 <= k < |ms| && ms[k].names == names)
    ensures ok ==> forall k :: 0 <= k < |ms| && ms[k].names == names ==>
                     && (directory <==> ms[k].kind == 0x35)
                     && all <= ms[k].content && (Sum(lens) >= |ms[k].content| ==> all == ms[k].content)
  {
    hide Build, Writable, Archive, WalkTo, Entries, ParentsFirst, Distinct, Components, Joined, Sum, Bytes;
    hide ParentListed, DirectoriesFirst;
    WrittenIsFound(ms, tail, names);
    PathsAreNames(names);
    vn, directory, all := None, false, [];
    var data := Archive(ms) + tail;
    var t := new TarFs(data);
    ok := t.Load();
    if ok {
      vn := t.Open(if rooted then [0x2F] + Joined(names) else Joined(names));
      if vn.Some? {
        var v := vn.value;
        directory := t.nodes[v].directory;
        ContentIsSmall(ms[v - 1]);
        BytesInside(data, t.nodes[v].offset, t.nodes[v].size);
        var file := new TarFile(v);
        all := t.ReadMany(file, lens);
      }
    }
  }
}
