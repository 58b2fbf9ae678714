/** Which archives tarfs_create makes a tree of, and what the paths of its entries then open
    (kernel/src/vfs/tarfs.c, kstdio.c). */
module TarArchives {
  import opened Basics
  import opened TarText
  import opened TarTree

  /** The parts that name an entry, and those that name its directory. */
  function Names(e: Entry): (names: seq<Text>)
    ensures |names| > 0
  {
    Segments(e.path)
  }

  function Front(e: Entry): seq<Text> {
    Names(e)[..|Names(e)| - 1]
  }

  /** Entry j lists the path, and no entry behind it lists the path or a directory above. */
  predicate IsLast(entries: seq<Entry>, path: seq<Text>, j: nat) {
    && j < |entries| && Names(entries[j]) == path
    && forall i :: j < i < |entries| ==> !(Names(entries[i]) <= path)
  }

  ghost predicate IsListed(entries: seq<Entry>, path: seq<Text>) {
    exists j :: IsLast(entries, path, j)
  }

  /** The directory of entry k is the root or listed before it, and none of the directories
      above it is listed once more in between. */
  ghost predicate ParentListed(entries: seq<Entry>, k: nat) {
    k < |entries| ==> Front(entries[k]) == [] || IsListed(entries[..k], Front(entries[k]))
  }

  lemma LastSnoc(entries: seq<Entry>, e: Entry, path: seq<Text>, j: nat)
    ensures IsLast(entries + [e], path, j) <==>
              if j == |entries| then Names(e) == path else IsLast(entries, path, j) && !(Names(e) <= path)
  {
    var longer := entries + [e];
    assert j < |entries| ==> longer[j] == entries[j] && longer[|entries|] == e;
    assert forall i :: j < i < |entries| ==> longer[i] == entries[i];
  }

  // ----- one more entry

  lemma NewestFirst(links: seq<Link>, l: Link, name: Text)
    ensures FirstNamed([l] + links, name) == if l.name == name then Some(l.node) else FirstNamed(links, name)
  {
    assert ([l] + links)[1..] == links;
  }

  /** A new entry hides what was listed under its names, and no other path. */
  lemma {:induction false} WalkAfterAdding(nodes: seq<Node>, paths: seq<seq<Text>>, u: nat, name: Text, e: Entry,
                                           path: seq<Text>)
    requires LinksLead(nodes, paths) && u < |nodes| && WalkTo(nodes, paths[u]) == Some(u)
    ensures WalkTo(Added(nodes, u, name, e), path) ==
            if path == paths[u] + [name] then Some(|nodes|)
            else if paths[u] + [name] <= path then None else WalkTo(nodes, path)
    decreases |path|
  {
    hide LinkLeads, FirstNamed;
    var now, names := Added(nodes, u, name, e), paths[u] + [name];
    if path != [] {
      var front, last := path[..|path| - 1], path[|path| - 1];
      assert path == front + [last];
      WalkAfterAdding(nodes, paths, u, name, e, front);
      WalkIsSound(nodes, paths, front);
      assert names <= path <==> path == names || names <= front;
      assert path == names <==> front == paths[u] && last == name;
      NewestFirst(nodes[u].child, Link(name, |nodes|), last);
      assert FirstNamed([], last) == None;
    }
  }

  // ----- the archive so far

  /** A path leads to the node of the last entry that lists it. */
  ghost predicate OpensLast(nodes: seq<Node>, entries: seq<Entry>, path: seq<Text>) {
    match WalkTo(nodes, path)
    case None => path != [] && !IsListed(entries, path)
    case Some(v) => if v == 0 then path == [] else IsLast(entries, path, v - 1)
  }

  /** The tree of the entries so far. */
  ghost predicate TreeOf(nodes: seq<Node>, entries: seq<Entry>) {
    && |nodes| == |entries| + 1 && LinksLead(nodes, [[]] + PathsOf(entries))
    && forall path :: OpensLast(nodes, entries, path)
  }

  lemma RootIsTree()
    ensures TreeOf([ROOT_NODE], [])
  {
    RootLeads();
    assert [[]] + PathsOf([]) == [[]];
    forall path ensures OpensLast([ROOT_NODE], [], path) {
      OnlyRoot(path);
    }
  }

  lemma {:induction false} OnlyRoot(path: seq<Text>)
    ensures WalkTo([ROOT_NODE], path) == if path == [] then Some(0) else None
    decreases |path|
  {
    if path != [] {
      OnlyRoot(path[..|path| - 1]);
    }
  }

  lemma {:induction false} PathsOfSnoc(entries: seq<Entry>, e: Entry)
    ensures PathsOf(entries + [e]) == PathsOf(entries) + [Names(e)]
  {
    if entries == [] {
      assert [e][1..] == [];
    } else {
      assert (entries + [e])[1..] == entries[1..] + [e];
      PathsOfSnoc(entries[1..], e);
    }
  }

  /** The parent is there exactly if it is the root or its path is listed. */
  lemma {:induction false} AddsIff(nodes: seq<Node>, entries: seq<Entry>, e: Entry)
    requires TreeOf(nodes, entries)
    ensures AddEntry(nodes, e).Some? <==> Front(e) == [] || IsListed(entries, Front(e))
  {
    hide Segments, PathsOf, IsLast;
    assert OpensLast(nodes, entries, Front(e));
    WalkIsSound(nodes, [[]] + PathsOf(entries), Front(e));
    NothingAbove(nodes);
    assert WalkTo(nodes, Front(e)).Some? && WalkTo(nodes, Front(e)).value > 0 ==>
             IsLast(entries, Front(e), WalkTo(nodes, Front(e)).value - 1);
  }

  lemma NothingAbove(nodes: seq<Node>)
    ensures WalkTo(nodes, []) == Some(0)
  {
  }

  lemma {:induction false} AddKeepsTree(nodes: seq<Node>, entries: seq<Entry>, e: Entry)
    requires TreeOf(nodes, entries) && AddEntry(nodes, e).Some?
    ensures TreeOf(AddEntry(nodes, e).value, entries + [e])
  {
    hide Segments, PathsOf, IsLast, LinkLeads, WalkTo;
    var paths, names := [[]] + PathsOf(entries), Names(e);
    var u, name := WalkTo(nodes, Front(e)).value, names[|names| - 1];
    WalkIsSound(nodes, paths, Front(e));
    assert names == paths[u] + [name];
    AddedLinksLead(nodes, paths, u, name, e);
    PathsOfSnoc(entries, e);
    assert paths + [names] == [[]] + PathsOf(entries + [e]);
    forall path ensures OpensLast(Added(nodes, u, name, e), entries + [e], path) {
      AddedOpens(nodes, entries, u, name, e, path);
    }
  }

  lemma {:induction false} AddedOpens(nodes: seq<Node>, entries: seq<Entry>, u: nat, name: Text, e: Entry,
                                      path: seq<Text>)
    requires TreeOf(nodes, entries) && u < |nodes| && WalkTo(nodes, Front(e)) == Some(u)
    requires Names(e) == Front(e) + [name]
    ensures OpensLast(Added(nodes, u, name, e), entries + [e], path)
  {
    hide Segments, PathsOf, IsLast, LinkLeads, WalkTo, Added;
    var paths := [[]] + PathsOf(entries);
    WalkIsSound(nodes, paths, Front(e));
    WalkAfterAdding(nodes, paths, u, name, e, path);
    assert OpensLast(nodes, entries, path);
    forall j: nat
      ensures IsLast(entries + [e], path, j) <==>
              if j == |entries| then Names(e) == path else IsLast(entries, path, j) && !(Names(e) <= path)
    {
      LastSnoc(entries, e, path, j);
    }
    LastWithin(entries, path);
  }

  lemma LastWithin(entries: seq<Entry>, path: seq<Text>)
    ensures forall j: nat :: IsLast(entries, path, j) ==> j < |entries|
  {
  }

  // ----- which archives there are trees of

  lemma {:induction false} BuildFrom(nodes: seq<Node>, done: seq<Entry>, todo: seq<Entry>)
    requires TreeOf(nodes, done)
    ensures Build(nodes, todo).Some? <==>
            forall k :: |done| <= k < |done + todo| ==> ParentListed(done + todo, k)
    ensures Build(nodes, todo).Some? ==> TreeOf(Build(nodes, todo).value, done + todo)
    decreases |todo|
  {
    hide TreeOf, IsListed, AddEntry, Front;
    if todo == [] {
      assert done + todo == done;
    } else {
      var all := done + todo;
      AddsIff(nodes, done, todo[0]);
      assert all[..|done|] == done && all[|done|] == todo[0];
      assert ParentListed(all, |done|) <==> AddEntry(nodes, todo[0]).Some?;
      if AddEntry(nodes, todo[0]).Some? {
        AddKeepsTree(nodes, done, todo[0]);
        BuildFrom(AddEntry(nodes, todo[0]).value, done + [todo[0]], todo[1..]);
        assert done + [todo[0]] + todo[1..] == all;
      }
    }
  }

  /** tarfs_create makes a tree of an archive exactly if each entry's directory is the root or is
      listed before it, and not hidden again by a second listing of a directory above. */
  lemma {:induction false} BuildIff(entries: seq<Entry>)
    ensures Build([ROOT_NODE], entries).Some? <==> forall k :: 0 <= k < |entries| ==> ParentListed(entries, k)
  {
    hide TreeOf, ParentListed, Build;
    RootIsTree();
    BuildFrom([ROOT_NODE], [], entries);
    assert [] + entries == entries;
  }

  /** What kfopen then finds: the last entry that lists the path and is not hidden, with its size
      and its place in the archive, and nothing for a path that no such entry lists. */
  lemma {:induction false} OpensIff(entries: seq<Entry>, path: Text, j: nat)
    requires Build([ROOT_NODE], entries).Some? && j < |entries|
    ensures var nodes := Build([ROOT_NODE], entries).value;
            && |nodes| == |entries| + 1
            && nodes[j + 1].size == entries[j].size && nodes[j + 1].offset == entries[j].offset
            && nodes[j + 1].directory == entries[j].directory
            && (WalkTo(nodes, Components(path)) == Some(j + 1) <==> IsLast(entries, Components(path), j))
            && (WalkTo(nodes, Components(path)) == None <==>
                  Components(path) != [] && !IsListed(entries, Components(path)))
  {
    hide Components, Build, WalkTo, IsLast, TreeOf;
    BuildKeepsData([ROOT_NODE], entries, j + 1);
    BuiltOpens(entries, Components(path));
    NothingAbove(Build([ROOT_NODE], entries).value);
    LastIsOne(entries, Components(path));
  }

  lemma {:induction false} BuiltOpens(entries: seq<Entry>, path: seq<Text>)
    requires Build([ROOT_NODE], entries).Some?
    ensures OpensLast(Build([ROOT_NODE], entries).value, entries, path)
  {
    hide Build, OpensLast, LinksLead;
    RootIsTree();
    BuildFrom([ROOT_NODE], [], entries);
    assert [] + entries == entries;
  }

  /** What is found under a path was listed under it. */
  lemma {:induction false} FoundIsListed(entries: seq<Entry>, path: seq<Text>)
    requires Build([ROOT_NODE], entries).Some? && path != []
    ensures match WalkTo(Build([ROOT_NODE], entries).value, path)
            case None => true
            case Some(v) => 1 <= v <= |entries| && Names(entries[v - 1]) == path
  {
    hide Build, WalkTo, Names;
    BuiltOpens(entries, path);
  }

  lemma LastIsOne(entries: seq<Entry>, path: seq<Text>)
    ensures forall i: nat, j: nat :: IsLast(entries, path, i) && IsLast(entries, path, j) ==> i == j
    ensures IsListed(entries, path) ==> path != []
  {
  }

  // ----- archives in which no path is listed twice

  predicate Distinct(entries: seq<Entry>) {
    forall i, j :: 0 <= i < j < |entries| ==> Names(entries[i]) != Names(entries[j])
  }

  predicate ListsBefore(entries: seq<Entry>, k: nat, path: seq<Text>) {
    exists j :: 0 <= j < k && j < |entries| && Names(entries[j]) == path
  }

  /** Every directory is listed before what is in it. */
  predicate ParentsFirst(entries: seq<Entry>) {
    forall k :: 0 <= k < |entries| ==> Front(entries[k]) == [] || ListsBefore(entries, k, Front(entries[k]))
  }

  lemma {:induction false} AncestorsFirst(entries: seq<Entry>, k: nat, path: seq<Text>)
    requires ParentsFirst(entries) && k < |entries| && path != [] && path < Names(entries[k])
    ensures ListsBefore(entries, k, path)
    decreases k
  {
    hide Segments;
    assert path <= Front(entries[k]);
    assert ListsBefore(entries, k, Front(entries[k]));
    var j :| 0 <= j < k && Names(entries[j]) == Front(entries[k]);
    if path != Front(entries[k]) {
      AncestorsFirst(entries, j, path);
    }
  }

  /** Then nothing is hidden. */
  lemma {:induction false} NoneHidden(entries: seq<Entry>, j: nat, i: nat)
    requires Distinct(entries) && ParentsFirst(entries) && j < i < |entries|
    ensures !(Names(entries[i]) <= Names(entries[j]))
  {
    if Names(entries[i]) < Names(entries[j]) {
      AncestorsFirst(entries, j, Names(entries[i]));
    }
  }

  lemma {:induction false} ParentsListed(entries: seq<Entry>, k: nat)
    requires Distinct(entries) && ParentsFirst(entries) && k < |entries|
    ensures ParentListed(entries, k)
  {
    hide Segments;
    if Front(entries[k]) != [] {
      assert ListsBefore(entries, k, Front(entries[k]));
      var j :| 0 <= j < k && Names(entries[j]) == Front(entries[k]);
      forall i | j < i < k ensures !(Names(entries[..k][i]) <= Front(entries[k])) {
        NoneHidden(entries, j, i);
      }
      assert IsLast(entries[..k], Front(entries[k]), j);
    }
  }

  /** An archive of distinct paths becomes a tree exactly if directories are listed before what
      is in them. */
  lemma {:induction false} DistinctBuildIff(entries: seq<Entry>)
    requires Distinct(entries)
    ensures Build([ROOT_NODE], entries).Some? <==> ParentsFirst(entries)
  {
    hide Build, Names, Front;
    BuildIff(entries);
    if ParentsFirst(entries) {
      forall k | 0 <= k < |entries| ensures ParentListed(entries, k) {
        ParentsListed(entries, k);
      }
    }
    if forall k :: 0 <= k < |entries| ==> ParentListed(entries, k) {
      forall k | 0 <= k < |entries| ensures Front(entries[k]) == [] || ListsBefore(entries, k, Front(entries[k])) {
        assert ParentListed(entries, k);
      }
    }
  }

  /** An archive with distinct paths of non-empty parts, directories first: the path of each entry
      opens the node with its size and its place in the archive, and opens nothing else. */
  lemma {:induction false} LookupsAgree(entries: seq<Entry>, k: nat, path: Text)
    requires Distinct(entries) && ParentsFirst(entries) && k < |entries|
    requires forall i :: 0 <= i < |entries| ==> [] !in Names(entries[i])
    ensures Build([ROOT_NODE], entries).Some?
    ensures var nodes := Build([ROOT_NODE], entries).value;
            && |nodes| == |entries| + 1
            && (WalkTo(nodes, Components(path)) == Some(k + 1) <==> Components(path) == Names(entries[k]))
            && WalkTo(nodes, Components(entries[k].path)) == Some(k + 1)
            && nodes[k + 1].size == entries[k].size && nodes[k + 1].offset == entries[k].offset
            && nodes[k + 1].directory == entries[k].directory
  {
    hide Components, Build, WalkTo, Segments;
    DistinctBuildIff(entries);
    ReadingsAgree(entries[k].path);
    forall i | k < i < |entries| ensures !(Names(entries[i]) <= Names(entries[k])) {
      NoneHidden(entries, k, i);
    }
    OpensIff(entries, path, k);
    OpensIff(entries, entries[k].path, k);
  }

  // ----- archives that fail

  lemma SplitFirst(part: Text, rest: Text)
    requires UpTo(part) == |part|
    ensures Split(part + [SLASH] + rest) == [part] + Split(rest)
  {
    hide Split, UpTo;
    var s := part + [SLASH] + rest;
    assert s == part + ([SLASH] + rest);
    UpToAcross(part, [SLASH] + rest);
    UpToOfSlash();
    UpToFirst([SLASH], rest);
    SplitOnce(s);
    assert s[..|part|] == part && s[|part| + 1..] == rest;
  }

  /** The parts of a, a/b and a/b/c. */
  lemma PartsOf()
    ensures Segments([0x61]) == [[0x61]]
    ensures Segments([0x61, SLASH, 0x62]) == [[0x61], [0x62]]
    ensures Segments([0x61, SLASH, 0x62, SLASH, 0x63]) == [[0x61], [0x62], [0x63]]
  {
    var a: Text, b: Text, c: Text := [0x61], [0x62], [0x63];
    SplitFirst(b, c);
    SplitFirst(a, b);
    SplitFirst(a, b + [SLASH] + c);
    assert a + [SLASH] + b == [0x61, SLASH, 0x62];
    assert a + [SLASH] + (b + [SLASH] + c) == [0x61, SLASH, 0x62, SLASH, 0x63];
  }

  /** a/b is listed before a. */
  lemma ChildBeforeDirectory(e: Entry, f: Entry)
    requires e.path == [0x61, SLASH, 0x62] && f.path == [0x61]
    ensures Distinct([e, f]) && !ParentsFirst([e, f]) && Build([ROOT_NODE], [e, f]) == None
  {
    PartsOf();
    hide Segments;
    DistinctBuildIff([e, f]);
  }

  /** a and a/b, then a once more, and a/b/c: b is there, but not in the second a. */
  lemma HiddenDirectory(e: Entry, f: Entry, g: Entry, h: Entry)
    requires e.path == [0x61] && f.path == [0x61, SLASH, 0x62] && g.path == [0x61]
    requires h.path == [0x61, SLASH, 0x62, SLASH, 0x63]
    ensures ParentsFirst([e, f, g, h]) && Build([ROOT_NODE], [e, f, g, h]) == None
  {
    PartsOf();
    hide Segments, Build;
    var entries := [e, f, g, h];
    assert Front(h) == Names(f) && Front(f) == Names(e) && Names(g) <= Front(h);
    assert Names(entries[0]) == Names(e) && Names(entries[1]) == Names(f);
    BuildIff(entries);
    assert entries[..3] == [e, f] + [g];
    HiddenByLast([e, f], g, Front(h));
    assert !ParentListed(entries, 3);
  }

  lemma HiddenByLast(entries: seq<Entry>, e: Entry, path: seq<Text>)
    requires Names(e) < path
    ensures !IsListed(entries + [e], path)
  {
    forall j: nat ensures !IsLast(entries + [e], path, j) {
      LastSnoc(entries, e, path, j);
    }
  }
}
