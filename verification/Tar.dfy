/** kernel/src/vfs/tarfs.c and kstdio.c: an archive becomes a tree; kfopen walks it, and
    reads return the bytes of the archive. */
module Tar {
  import opened Basics
  import opened TarText
  import opened TarTree
  import opened TarArchives

  /** An open file: its vnode and the place of the next byte. */
  class TarFile {
    const node: nat
    var cur: nat

    constructor (node: nat)
      ensures this.node == node && cur == 0
    {
      this.node := node;
      cur := 0;
    }
  }

  lemma FirstSlash(s: Text, k: nat)
    requires k <= |s| && (forall i :: 0 <= i < k ==> s[i] != SLASH) && (k < |s| ==> s[k] == SLASH)
    ensures UpTo(s) == k
  {
  }

  /** The loop for a separator in the first len characters. */
  method FindSlash(s: Text) returns (sep: nat)
    ensures sep == UpTo(s)
  {
    sep := 0;
    while sep < |s| && s[sep] != SLASH
      invariant sep <= |s| && forall i :: 0 <= i < sep ==> s[i] != SLASH
    {
      sep := sep + 1;
    }
    FirstSlash(s, sep);
  }

  /** tarfs_get_path_elem_count: the last character does not count. */
  method ElemCount(path: Text) returns (count: nat)
    ensures path != [] ==> count == Slashes(path[..|path| - 1])
  {
    count := 0;
    if path == [] {
      return;
    }
    ghost var front := path[..|path| - 1];
    assert front[..0] == [];
    for i := 0 to |path| - 1
      invariant count == Slashes(front[..i])
    {
      SlashesSnoc(front, i);
      if path[i] == SLASH {
        count := count + 1;
      }
    }
    assert front[..|front|] == front;
  }

  lemma {:induction false} SlashesConcat(s: Text, t: Text)
    ensures Slashes(s + t) == Slashes(s) + Slashes(t)
  {
    if s == [] {
      assert s + t == t;
    } else {
      assert (s + t)[1..] == s[1..] + t;
      SlashesConcat(s[1..], t);
    }
  }

  lemma SlashesSnoc(s: Text, i: nat)
    requires i < |s|
    ensures Slashes(s[..i + 1]) == Slashes(s[..i]) + if s[i] == SLASH then 1 else 0
  {
    assert s[..i + 1] == s[..i] + [s[i]];
    SlashesConcat(s[..i], [s[i]]);
    assert [s[i]][1..] == [];
  }

  /** A path with a separator before its last character: its first part and the rest. */
  lemma NextSegment(path: Text)
    requires path != [] && Slashes(path[..|path| - 1]) > 0
    ensures UpTo(path) < |path| - 1
    ensures var rest := path[UpTo(path) + 1..];
            && Slashes(path[..|path| - 1]) == 1 + Slashes(rest[..|rest| - 1])
            && Segments(path) == [path[..UpTo(path)]] + Segments(rest)
  {
    hide Split, Slashes;
    var k := UpTo(path);
    if k >= |path| - 1 {
      NoSlash(path[..|path| - 1]);
    }
    hide UpTo;
    FewerSlashes(path, k);
    var s, rest := WithoutLastSlash(path), path[k + 1..];
    assert s[..k] == path[..k] && s[k + 1..] == WithoutLastSlash(rest);
    FirstSlash(s, k);
    SplitOnce(s);
  }

  lemma FewerSlashes(path: Text, k: nat)
    requires k < |path| - 1 && path[k] == SLASH && forall i :: 0 <= i < k ==> path[i] != SLASH
    ensures var rest := path[k + 1..]; Slashes(path[..|path| - 1]) == 1 + Slashes(rest[..|rest| - 1])
  {
    hide Slashes;
    var rest := path[k + 1..];
    var back := rest[..|rest| - 1];
    assert path[..|path| - 1] == path[..k] + ([SLASH] + back);
    SlashesConcat(path[..k], [SLASH] + back);
    SlashesConcat([SLASH], back);
    NoSlash(path[..k]);
    OneSlash();
  }

  lemma OneSlash()
    ensures Slashes([SLASH]) == 1
  {
    var s: Text := [SLASH];
    assert s[1..] == [];
  }

  lemma {:induction false} NoSlash(s: Text)
    requires forall i :: 0 <= i < |s| ==> s[i] != SLASH
    ensures Slashes(s) == 0
  {
    if s != [] {
      NoSlash(s[1..]);
    }
  }

  lemma {:induction false} SomeSlash(s: Text)
    requires Slashes(s) == 0
    ensures forall i :: 0 <= i < |s| ==> s[i] != SLASH
  {
    if s != [] {
      SomeSlash(s[1..]);
    }
  }

  /** What is left after the last separator is the name. */
  lemma LastSegment(path: Text)
    requires path != [] && Slashes(path[..|path| - 1]) == 0
    ensures Segments(path) == [WithoutLastSlash(path)]
  {
    SomeSlash(path[..|path| - 1]);
    var s := WithoutLastSlash(path);
    FirstSlash(s, |s|);
    SplitOnce(s);
  }

  /** One step of kfopen. */
  lemma NextComponent(path: Text)
    requires path != []
    ensures UpTo(path) == 0 ==> Components(path) == Components(path[1..])
    ensures UpTo(path) > 0 ==>
              Components(path) == [path[..UpTo(path)]] +
                                  Components(if UpTo(path) < |path| then path[UpTo(path) + 1..] else [])
  {
    hide Split, UpTo;
    SplitOnce(path);
    UpToOfSlash();
    var k := UpTo(path);
    var part := path[..k];
    OnePart(part);
    OnePart([]);
    if k < |path| {
      NonEmptyConcat([part], Split(path[k + 1..]));
    } else {
      assert part == path;
    }
  }

  lemma OnePart(part: Text)
    ensures NonEmpty([part]) == if part == [] then [] else [part]
  {
    var parts := [part];
    assert parts[1..] == [];
  }

  lemma NoComponents()
    ensures Components([]) == []
  {
    UpToOfSlash();
    var none: seq<Text> := [[]];
    assert none[1..] == [];
  }

  function ByteAt(data: Text, at: nat): byte {
    if at < |data| then data[at] else 0
  }

  function Bytes(data: Text, at: nat, n: nat): (bytes: Text)
    ensures |bytes| == n && forall i :: 0 <= i < n ==> bytes[i] == ByteAt(data, at + i)
  {
    if n == 0 then [] else Bytes(data, at, n - 1) + [ByteAt(data, at + n - 1)]
  }

  lemma BytesInside(data: Text, at: nat, n: nat)
    requires at + n <= |data|
    ensures Bytes(data, at, n) == data[at..at + n]
  {
  }

  lemma BytesOfBytes(data: Text, from: nat, size: nat, at: nat, n: nat)
    requires at + n <= size
    ensures Bytes(data, from, size)[at..at + n] == Bytes(data, from + at, n)
  {
    hide Bytes;
    var a, b := Bytes(data, from, size)[at..at + n], Bytes(data, from + at, n);
    assert forall i :: 0 <= i < n ==> a[i] == b[i];
  }

  function Sum(ns: seq<nat>): nat {
    if ns == [] then 0 else Sum(ns[..|ns| - 1]) + ns[|ns| - 1]
  }

  lemma SumSnoc(ns: seq<nat>, i: nat)
    requires i < |ns|
    ensures Sum(ns[..i + 1]) == Sum(ns[..i]) + ns[i]
  {
    assert ns[..i + 1][..i] == ns[..i];
  }

  /** How many of the left bytes a read returns. */
  function ReadCount(left: nat, len: nat): (n: nat)
    ensures n <= left && n <= len
  {
    if AsInt(left) <= 0 then 0 else if len > AsInt(left) then AsInt(left) else len
  }

  /** All that is left can be read at once exactly if it is less than 2 GiB, and then
      shorter reads are served as well. */
  lemma ReadCountIff(left: nat, len: nat)
    ensures ReadCount(left, left) == left <==> left < 0x8000_0000
    ensures left < 0x8000_0000 ==> ReadCount(left, len) == if len < left then len else left
  {
    var low := left % U32;
    assert left >= U32 ==> low < left;
    assert left < U32 ==> low == left;
  }

  /** With 2 GiB left, no read returns anything. */
  lemma TwoGiBLeft(len: nat)
    ensures ReadCount(0x8000_0000, len) == 0
  {
  }

  /** tarfs_t, with the archive it was made of. */
  class TarFs {
    const data: Text
    var nodes: seq<Node>

    constructor (data: Text)
      ensures this.data == data && nodes == [ROOT_NODE]
    {
      this.data := data;
      nodes := [ROOT_NODE];
    }

    /** The walk to the parent of an entry, and its name. */
    method FindParent(path: Text) returns (parent: Option<nat>, name: Text)
      requires path != []
      ensures var segments := Segments(path);
              && parent == WalkTo(nodes, segments[..|segments| - 1])
              && (parent.Some? ==> name == segments[|segments| - 1])
    {
      hide Split, UpTo, Slashes, Segments, WalkTo, Child;
      var left := path;
      var count := ElemCount(path);
      var vn := 0;
      ghost var done: seq<Text> := [];
      WalkNowhere(nodes);
      for i := 0 to count
        invariant left != [] && Slashes(left[..|left| - 1]) == count - i
        invariant Segments(path) == done + Segments(left)
        invariant WalkTo(nodes, done) == Some(vn)
      {
        NextSegment(left);
        var sep := FindSlash(left);
        var next := Child(nodes, vn, left[..sep]);
        WalkOne(nodes, done, left[..sep]);
        assert Segments(path) == (done + [left[..sep]]) + Segments(left[sep + 1..]);
        if next == None {
          StopsThere(nodes, done + [left[..sep]], Segments(left[sep + 1..]));
          return None, [];
        }
        done := done + [left[..sep]];
        vn := next.value;
        left := left[sep + 1..];
      }
      LastSegment(left);
      WalkNowhere(nodes);
      name := left;
      if name[|name| - 1] == SLASH {
        name := name[..|name| - 1];
      }
      parent := Some(vn);
      assert (done + [name])[..|done|] == done;
    }

    /** kfopen, from the root of the tree; None where the source returns null. */
    method Open(path: Text) returns (vn: Option<nat>)
      ensures vn == if path == [] || path == [SLASH] then None else WalkTo(nodes, Components(path))
    {
      hide Split, UpTo, Components, WalkTo, Child;
      WalkNowhere(nodes);
      var left := path;
      if left != [] && left[0] == SLASH {
        left := left[1..];
        assert path == [SLASH] + left;
        LeadingSlash(left);
      }
      if left == [] {
        return None;
      }
      var at := 0;
      ghost var done: seq<Text> := [];
      while left != []
        invariant Components(path) == done + Components(left)
        invariant WalkTo(nodes, done) == Some(at)
        decreases |left|
      {
        NextComponent(left);
        var sep := FindSlash(left);
        if sep == 0 {
          left := left[1..];
          continue;
        }
        var next := Child(nodes, at, left[..sep]);
        WalkOne(nodes, done, left[..sep]);
        ghost var rest := if sep < |left| then left[sep + 1..] else [];
        assert done + ([left[..sep]] + Components(rest)) == (done + [left[..sep]]) + Components(rest);
        if next == None {
          WalkFails(nodes, done + [left[..sep]], Components(rest));
          return None;
        }
        done := done + [left[..sep]];
        at := next.value;
        left := if sep < |left| then left[sep + 1..] else [];
      }
      NoComponents();
      assert done + [] == done;
      vn := Some(at);
    }

    /** The bytes of a node; what lies behind the archive reads as zero. */
    function BytesOf(node: nat): Text
      requires node < |nodes|
      reads this
    {
      Bytes(data, nodes[node].offset, nodes[node].size)
    }

    /** tarfs_read into the start of a buffer. */
    method Read(file: TarFile, buf: array<byte>, len: nat) returns (n: nat)
      requires file.node < |nodes| && len <= buf.Length && len < 0x8000_0000
      requires file.cur <= nodes[file.node].size
      modifies file, buf
      ensures var bytes := BytesOf(file.node);
              && n == ReadCount(|bytes| - old(file.cur), len) && old(file.cur) + n <= |bytes|
              && file.cur == old(file.cur) + n
              && buf[..n] == bytes[old(file.cur)..file.cur] && buf[n..] == old(buf[n..])
    {
      var node := nodes[file.node];
      var readable := AsInt(node.size - file.cur);
      if readable <= 0 {
        return 0;
      }
      n := if len > readable then readable else len;
      Copy(buf, node.offset + file.cur, n);
      BytesOfBytes(data, node.offset, node.size, file.cur, n);
      file.cur := file.cur + n;
    }

    /** memcpy(buf, &data[from], n) */
    method Copy(buf: array<byte>, from: nat, n: nat)
      requires n <= buf.Length
      modifies buf
      ensures buf[..n] == Bytes(data, from, n) && buf[n..] == old(buf[n..])
    {
      for i := 0 to n
        invariant forall k :: 0 <= k < i ==> buf[k] == ByteAt(data, from + k)
        invariant forall k :: i <= k < buf.Length ==> buf[k] == old(buf[k])
      {
        buf[i] := ByteAt(data, from + i);
      }
    }

    /** Read after read, with the lengths asked for: together they are the next bytes of the
        entry, as many as were asked for or all that are left. */
    method ReadMany(file: TarFile, lens: seq<nat>) returns (all: Text)
      requires file.node < |nodes| && nodes[file.node].size < 0x8000_0000 && file.cur <= nodes[file.node].size
      requires forall i :: 0 <= i < |lens| ==> lens[i] < 0x8000_0000
      modifies file
      ensures var bytes := BytesOf(file.node); var left := |bytes| - old(file.cur);
              && |all| == (if Sum(lens) < left then Sum(lens) else left)
              && all == bytes[old(file.cur)..old(file.cur) + |all|] && file.cur == old(file.cur) + |all|
    {
      hide Bytes;
      ghost var bytes, from := BytesOf(file.node), file.cur;
      all := [];
      for i := 0 to |lens|
        invariant from <= file.cur <= |bytes| && file.cur == from + |all| && all == bytes[from..file.cur]
        invariant |all| == if Sum(lens[..i]) < |bytes| - from then Sum(lens[..i]) else |bytes| - from
      {
        var buf := new byte[lens[i]];
        var n := Read(file, buf, lens[i]);
        ReadCountIff(|bytes| - (file.cur - n), lens[i]);
        SumSnoc(lens, i);
        all := all + buf[..n];
      }
      assert lens[..|lens|] == lens;
    }

    /** tarfs_create, once the root is there. */
    method Load() returns (ok: bool)
      requires nodes == [ROOT_NODE] && |data| < 0x8000_0000_0000_0000
      modifies this
      ensures var entries := Entries(data, 0);
              && (ok <==> forall k :: 0 <= k < |entries| ==> ParentListed(entries, k))
              && (Distinct(entries) ==> (ok <==> ParentsFirst(entries)))
              && (ok <==> Build([ROOT_NODE], entries).Some?)
              && (ok ==> nodes == Build([ROOT_NODE], entries).value)
    {
      hide Entries, Build, ParentListed, Distinct, ParentsFirst;
      BuildIff(Entries(data, 0));
      if Distinct(Entries(data, 0)) {
        DistinctBuildIff(Entries(data, 0));
      }
      ok := LoadEntries();
    }

    /** Its loop. */
    method LoadEntries() returns (ok: bool)
      requires nodes == [ROOT_NODE] && |data| < 0x8000_0000_0000_0000
      modifies this
      ensures var built := Build([ROOT_NODE], Entries(data, 0));
              (ok <==> built.Some?) && (ok ==> nodes == built.value)
    {
      hide Split, Segments, WalkTo, CString, FieldValue, RoundedUp, InRange;
      FirstInRange();
      var i := 0;
      while i < |data|
        invariant InRange(nodes) && nodes != []
        invariant Build([ROOT_NODE], Entries(data, 0)) == Build(nodes, Entries(data, i))
        decreases |data| - i
      {
        var path := CString(data, i);
        if path == [] {
          break;
        }
        var size := ParseOctal(data, i + 124, 12);
        var kind := ParseOctal(data, i + 156, 1);
        ghost var e := EntryAt(data, i);
        var parent, name := FindParent(path);
        if parent == None {
          return false;
        }
        WalkInRange(nodes, Segments(path)[..|Segments(path)| - 1]);
        AddedInRange(nodes, parent.value, name, e);
        nodes := nodes[parent.value := nodes[parent.value].(child := [Link(name, |nodes|)] + nodes[parent.value].child)]
                 + [Node(size, i + 512, kind == 5, [])];
        SizesAreSmall(data, i + 124);
        RoundedUpIs(size);
        i := i + 512 + RoundedUp(size);
      }
      ok := true;
    }
  }

  /** Links lead to nodes. */
  ghost predicate InRange(nodes: seq<Node>) {
    forall u, i :: 0 <= u < |nodes| && 0 <= i < |nodes[u].child| ==> nodes[u].child[i].node < |nodes|
  }

  lemma FirstInRange()
    ensures InRange([ROOT_NODE])
  {
  }

  lemma WalkNowhere(nodes: seq<Node>)
    ensures WalkTo(nodes, []) == Some(0)
  {
  }

  lemma {:induction false} WalkInRange(nodes: seq<Node>, path: seq<Text>)
    requires InRange(nodes) && nodes != []
    ensures WalkTo(nodes, path).Some? ==> WalkTo(nodes, path).value < |nodes|
    decreases |path|
  {
    if path != [] {
      WalkInRange(nodes, path[..|path| - 1]);
    }
  }

  lemma AddedInRange(nodes: seq<Node>, u: nat, name: Text, e: Entry)
    requires InRange(nodes) && u < |nodes|
    ensures InRange(Added(nodes, u, name, e))
  {
    var now := Added(nodes, u, name, e);
    forall v, i | 0 <= v < |now| && 0 <= i < |now[v].child| ensures now[v].child[i].node < |now| {
      if v < |nodes| && !(v == u && i == 0) {
        assert now[v].child[i] == nodes[v].child[if v == u then i - 1 else i];
      }
    }
  }

  lemma StopsThere(nodes: seq<Node>, path: seq<Text>, more: seq<Text>)
    requires WalkTo(nodes, path) == None && |more| > 0
    ensures WalkTo(nodes, (path + more)[..|path + more| - 1]) == None
  {
    assert (path + more)[..|path + more| - 1] == path + more[..|more| - 1];
    WalkFails(nodes, path, more[..|more| - 1]);
  }

  // ----- from the archive to the bytes read

  /** Where the loop of tarfs_create stops. */
  function StopOf(data: Text, i: nat): nat
    decreases |data| - i
  {
    if i >= |data| || CString(data, i) == [] then i
    else StopOf(data, i + 512 + RoundedUp(EntryAt(data, i).size))
  }

  /** The bytes of an entry end before the next header, and those of the last entry where the loop
      stops: all lie in the archive unless the loop runs past its end. */
  lemma {:induction false} EntriesInside(data: Text, i: nat, k: nat)
    requires k < |Entries(data, i)|
    ensures var es := Entries(data, i);
            && i + 512 <= es[k].offset
            && (k + 1 < |es| ==> es[k].offset + es[k].size + 512 <= es[k + 1].offset < |data| + 512)
            && (k + 1 == |es| ==> es[k].offset + es[k].size <= StopOf(data, i))
    decreases k
  {
    hide CString, FieldValue, RoundedUp;
    var e := EntryAt(data, i);
    SizesAreSmall(data, i + 124);
    RoundedUpIs(e.size);
    if k > 0 {
      EntriesInside(data, i + 512 + RoundedUp(e.size), k - 1);
    }
  }

  /** An archive with distinct paths of non-empty parts, directories first: made a tree of, the path
      of an entry opened, and read in any pieces that are enough, gives the bytes of the entry. */
  method ReadEntry(data: Text, k: nat, lens: seq<nat>) returns (all: Text)
    requires |data| < 0x8000_0000_0000_0000 && k < |Entries(data, 0)|
    requires Distinct(Entries(data, 0)) && ParentsFirst(Entries(data, 0))
    requires forall i :: 0 <= i < |Entries(data, 0)| ==> [] !in Names(Entries(data, 0)[i])
    requires Entries(data, 0)[k].size <= Sum(lens) && Entries(data, 0)[k].size < 0x8000_0000
    requires forall i :: 0 <= i < |lens| ==> lens[i] < 0x8000_0000
    ensures var e := Entries(data, 0)[k]; all == Bytes(data, e.offset, e.size)
    ensures var e := Entries(data, 0)[k];
            k + 1 < |Entries(data, 0)| || StopOf(data, 0) <= |data| ==>
              e.offset + e.size <= |data| && all == data[e.offset..e.offset + e.size]
  {
    hide Entries, Build, WalkTo, Components, Segments, Bytes, Sum, Distinct, ParentsFirst, ParentListed;
    ghost var e := Entries(data, 0)[k];
    EntriesInside(data, 0, k);
    LookupsAgree(Entries(data, 0), k, e.path);
    SlashHasNoName();
    var t := new TarFs(data);
    var ok := t.Load();
    var vn := t.Open(PathOf(data, k));
    var file := new TarFile(vn.value);
    all := t.ReadMany(file, lens);
    if e.offset + e.size <= |data| {
      BytesInside(data, e.offset, e.size);
    }
  }

  function PathOf(data: Text, k: nat): Text {
    if k < |Entries(data, 0)| then Entries(data, 0)[k].path else []
  }

  lemma SlashHasNoName()
    ensures [] in Segments([SLASH]) && [] in Segments([])
  {
    UpToOfSlash();
    var s: Text := [SLASH];
    assert s[..0] == [];
  }

  // ----- an archive that tarfs_create refuses

  /** Nothing but a name stands in these 512 bytes. */
  predicate OnlyName(data: Text, i: nat, name: Text) {
    && i + 512 <= |data| && |name| < 100 && data[i..i + |name|] == name
    && (forall j :: 0 <= j < |name| ==> name[j] != 0)
    && (forall j :: i + |name| <= j < i + 512 ==> data[j] == 0)
  }

  lemma NameOnly(data: Text, i: nat, name: Text)
    requires OnlyName(data, i, name)
    ensures CString(data, i) == name && EntryAt(data, i).path == name && EntryAt(data, i).size == 0
  {
    CStringBegins(data, i, name);
    assert CString(data, i + |name|) == [] && CString(data, i + 124) == [];
  }

  function Padded(name: Text): (header: Text)
    requires |name| < 100
    ensures |header| == 512
  {
    name + seq(512 - |name|, _ => 0)
  }

  lemma PaddedNames(a: Text, b: Text)
    requires |a| < 100 && |b| < 100 && 0 !in a && 0 !in b
    ensures OnlyName(Padded(a) + Padded(b), 0, a) && OnlyName(Padded(a) + Padded(b), 512, b)
  {
    var data := Padded(a) + Padded(b);
    assert data[0..|a|] == a && data[512..512 + |b|] == b;
  }

  /** Two headers without data, of a/b and of a. */
  method RefusedArchive() returns (data: Text, ok: bool)
    ensures OnlyName(data, 0, [0x61, SLASH, 0x62]) && OnlyName(data, 512, [0x61]) && !ok
  {
    hide CString, Entries, Build, Distinct, ParentsFirst, ParentListed, OnlyName, EntryAt;
    var child: Text, directory: Text := [0x61, SLASH, 0x62], [0x61];
    data := Padded(child) + Padded(directory);
    PaddedNames(child, directory);
    NameOnly(data, 0, [0x61, SLASH, 0x62]);
    NameOnly(data, 512, [0x61]);
    TwoEntries(data);
    ChildBeforeDirectory(Entries(data, 0)[0], Entries(data, 0)[1]);
    var t := new TarFs(data);
    ok := t.Load();
  }

  lemma TwoEntries(data: Text)
    requires |data| == 1024 && CString(data, 0) != [] && CString(data, 512) != []
    requires EntryAt(data, 0).size == 0 && EntryAt(data, 512).size == 0
    ensures Entries(data, 0) == [EntryAt(data, 0), EntryAt(data, 512)]
  {
    hide CString, FieldValue;
    assert Entries(data, 1024) == [];
  }
}
