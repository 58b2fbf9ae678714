/** The tree tarfs_create makes of an archive and the paths kfopen walks in it
    (kernel/src/vfs/tarfs.c, kstdio.c), on values. */
module TarTree {
  import opened Basics
  import opened TarText

  // ----- paths

  /** The place of the first separator, or the length. */
  function UpTo(s: Text): (k: nat)
    ensures k <= |s| && (k < |s| ==> s[k] == SLASH)
    ensures forall i :: 0 <= i < k ==> s[i] != SLASH
  {
    if s == [] || s[0] == SLASH then 0 else 1 + UpTo(s[1..])
  }

  /** The parts between separators, empty ones too. */
  function Split(s: Text): (r: seq<Text>)
    ensures |r| > 0
    decreases |s|
  {
    if UpTo(s) == |s| then [s] else [s[..UpTo(s)]] + Split(s[UpTo(s) + 1..])
  }

  function Slashes(s: Text): nat {
    if s == [] then 0 else (if s[0] == SLASH then 1 else 0) + Slashes(s[1..])
  }

  function NonEmpty(parts: seq<Text>): seq<Text> {
    if parts == [] then [] else (if parts[0] == [] then [] else [parts[0]]) + NonEmpty(parts[1..])
  }

  /** What kfopen walks: the parts of a path that are not empty. */
  function Components(path: Text): seq<Text> {
    NonEmpty(Split(path))
  }

  function WithoutLastSlash(path: Text): Text {
    if path != [] && path[|path| - 1] == SLASH then path[..|path| - 1] else path
  }

  /** What tarfs_create walks: the parts of a path without one separator at its end. */
  function Segments(path: Text): (r: seq<Text>)
    ensures |r| > 0
  {
    Split(WithoutLastSlash(path))
  }

  lemma {:induction false} UpToFirst(s: Text, t: Text)
    requires UpTo(s) < |s|
    ensures UpTo(s + t) == UpTo(s)
  {
    if s[0] != SLASH {
      assert (s + t)[1..] == s[1..] + t;
      UpToFirst(s[1..], t);
    }
  }

  lemma {:induction false} UpToAcross(s: Text, t: Text)
    requires UpTo(s) == |s|
    ensures UpTo(s + t) == |s| + UpTo(t)
  {
    if s == [] {
      assert s + t == t;
    } else {
      assert (s + t)[1..] == s[1..] + t;
      UpToAcross(s[1..], t);
    }
  }

  /** A separator at the end adds an empty part. */
  lemma {:induction false} SplitTrailing(s: Text)
    ensures Split(s + [SLASH]) == Split(s) + [[]]
    decreases |s|
  {
    hide Split, UpTo;
    var k := UpTo(s);
    var t := s + [SLASH];
    SplitOnce(s);
    SplitOnce(t);
    if k == |s| {
      UpToAcross(s, [SLASH]);
      UpToOfSlash();
      assert t[..k] == s && t[k + 1..] == [];
    } else {
      UpToFirst(s, [SLASH]);
      assert t[..k] == s[..k] && t[k + 1..] == s[k + 1..] + [SLASH];
      SplitTrailing(s[k + 1..]);
    }
  }

  lemma UpToOfSlash()
    ensures UpTo([SLASH]) == 0 && Split([]) == [[]]
  {
  }

  lemma SplitOnce(s: Text)
    ensures Split(s) == if UpTo(s) == |s| then [s] else [s[..UpTo(s)]] + Split(s[UpTo(s) + 1..])
  {
    hide UpTo;
  }

  lemma {:induction false} NonEmptyConcat(a: seq<Text>, b: seq<Text>)
    ensures NonEmpty(a + b) == NonEmpty(a) + NonEmpty(b)
  {
    if a == [] {
      assert a + b == b;
    } else {
      assert (a + b)[1..] == a[1..] + b;
      NonEmptyConcat(a[1..], b);
    }
  }

  lemma {:induction false} NonEmptyAll(parts: seq<Text>)
    requires forall i :: 0 <= i < |parts| ==> parts[i] != []
    ensures NonEmpty(parts) == parts
  {
    if parts != [] {
      NonEmptyAll(parts[1..]);
      assert parts == [parts[0]] + parts[1..];
    }
  }

  lemma {:induction false} NonEmptyHasNone(parts: seq<Text>)
    ensures [] !in NonEmpty(parts)
  {
    if parts != [] {
      NonEmptyHasNone(parts[1..]);
    }
  }

  /** Both readings of a path agree exactly if no part of it is empty. */
  lemma ReadingsAgree(path: Text)
    ensures Components(path) == Segments(path) <==> [] !in Segments(path)
  {
    NonEmptyHasNone(Split(path));
    if [] !in Segments(path) {
      NonEmptyAll(Segments(path));
      if path != [] && path[|path| - 1] == SLASH {
        var s := WithoutLastSlash(path);
        assert path == s + [SLASH];
        SplitTrailing(s);
        NonEmptyConcat(Split(s), [[]]);
        assert NonEmpty([[]]) == NonEmpty([[]][1..]) == [];
      }
    }
  }

  /** A separator in front makes no difference to kfopen. */
  lemma LeadingSlash(path: Text)
    ensures Components([SLASH] + path) == Components(path)
  {
    var t := [SLASH] + path;
    assert UpTo(t) == 0 && t[..0] == [] && t[1..] == path;
    assert Split(t) == [[]] + Split(path);
    NonEmptyConcat([[]], Split(path));
    assert NonEmpty([[]]) == NonEmpty([[]][1..]) == [];
  }

  // ----- the tree

  datatype Link = Link(name: Text, node: nat)

  /** A vnode of the archive: where its bytes are, and its links, newest first. */
  datatype Node = Node(size: nat, offset: nat, directory: bool, child: seq<Link>)

  /** vfs_get_child_by_name */
  function FirstNamed(links: seq<Link>, name: Text): (r: Option<nat>)
    ensures r.Some? ==> exists i :: 0 <= i < |links| && links[i] == Link(name, r.value)
    ensures r == None ==> forall i :: 0 <= i < |links| ==> links[i].name != name
  {
    var i := FirstIndex(links, (l: Link) => l.name == name);
    if i < |links| then Some(links[i].node) else None
  }

  function Child(nodes: seq<Node>, u: nat, name: Text): Option<nat> {
    if u < |nodes| then FirstNamed(nodes[u].child, name) else None
  }

  /** The node at the end of a path from the root. */
  function WalkTo(nodes: seq<Node>, path: seq<Text>): Option<nat>
    decreases |path|
  {
    if path == [] then Some(0)
    else
      match WalkTo(nodes, path[..|path| - 1])
      case None => None
      case Some(u) => Child(nodes, u, path[|path| - 1])
  }

  lemma WalkOne(nodes: seq<Node>, path: seq<Text>, name: Text)
    ensures WalkTo(nodes, path + [name]) ==
            match WalkTo(nodes, path) { case None => None case Some(u) => Child(nodes, u, name) }
  {
    assert (path + [name])[..|path|] == path;
  }

  lemma {:induction false} WalkFails(nodes: seq<Node>, path: seq<Text>, more: seq<Text>)
    requires WalkTo(nodes, path) == None
    ensures WalkTo(nodes, path + more) == None
    decreases |more|
  {
    if more == [] {
      assert path + more == path;
    } else {
      assert (path + more)[..|path + more| - 1] == path + more[..|more| - 1];
      WalkFails(nodes, path, more[..|more| - 1]);
    }
  }

  // ----- entries of an archive

  datatype Entry = Entry(path: Text, size: nat, offset: nat, directory: bool)

  /** The bytes of the data rounded up to blocks of 512, on 64 bits. */
  function RoundedUp(size: nat): nat {
    (((size + U64 - 1) % U64 / 512 + 1) * 512) % U64
  }

  lemma RoundedUpIs(size: nat)
    requires size < 0x1_0000_0000_0000
    ensures RoundedUp(size) % 512 == 0 && size <= RoundedUp(size) < size + 512
    ensures RoundedUp(0) == 0
  {
    var less := if size == 0 then U64 - 1 else size - 1;
    assert (size + U64 - 1) % U64 == less;
    var q, r := less / 512, less % 512;
    assert less == 512 * q + r;
    assert size > 0 ==> (q + 1) * 512 < U64;
  }

  lemma SizesAreSmall(data: Text, at: nat)
    ensures FieldValue(data, at, 12) < 0x10_0000_0000
  {
    assert Pow8(4) == 0x1000 && Pow8(8) == 0x100_0000 by {
      assert Pow8(2) == 64;
    }
    assert Pow8(12) == 0x10_0000_0000;
  }

  function EntryAt(data: Text, i: nat): Entry {
    Entry(CString(data, i), FieldValue(data, i + 124, 12), i + 512, FieldValue(data, i + 156, 1) == 5)
  }

  /** The entries from a place on, up to an empty name or the end. */
  function Entries(data: Text, i: nat): seq<Entry>
    decreases |data| - i
  {
    if i >= |data| || CString(data, i) == [] then []
    else [EntryAt(data, i)] + Entries(data, i + 512 + RoundedUp(EntryAt(data, i).size))
  }

  // ----- building

  function Added(nodes: seq<Node>, u: nat, name: Text, e: Entry): seq<Node>
    requires u < |nodes|
  {
    nodes[u := nodes[u].(child := [Link(name, |nodes|)] + nodes[u].child)] + [Node(e.size, e.offset, e.directory, [])]
  }

  /** One turn of the loop of tarfs_create, if the parent is there. */
  function AddEntry(nodes: seq<Node>, e: Entry): Option<seq<Node>> {
    var segments := Segments(e.path);
    match WalkTo(nodes, segments[..|segments| - 1])
    case None => None
    case Some(u) => if u < |nodes| then Some(Added(nodes, u, segments[|segments| - 1], e)) else None
  }

  function Build(nodes: seq<Node>, entries: seq<Entry>): Option<seq<Node>>
    decreases |entries|
  {
    if entries == [] then Some(nodes)
    else
      match AddEntry(nodes, entries[0])
      case None => None
      case Some(more) => Build(more, entries[1..])
  }

  // ----- lookups

  /** paths[j] leads from the root to node j. */
  ghost predicate Leads(nodes: seq<Node>, paths: seq<seq<Text>>) {
    && LinksLead(nodes, paths)
    && (forall j :: 1 <= j < |nodes| ==> HasParent(nodes, paths, j))
    && (forall j, k :: 0 <= j < k < |paths| ==> paths[j] != paths[k])
  }

  /** Each link adds its name to the path of its node. */
  ghost predicate LinksLead(nodes: seq<Node>, paths: seq<seq<Text>>) {
    && |paths| == |nodes| > 0 && paths[0] == []
    && forall u, i :: 0 <= u < |nodes| && 0 <= i < |nodes[u].child| ==> LinkLeads(nodes, paths, u, i)
  }

  ghost predicate LinkLeads(nodes: seq<Node>, paths: seq<seq<Text>>, u: nat, i: nat)
    requires |paths| == |nodes| && u < |nodes| && i < |nodes[u].child|
  {
    nodes[u].child[i].node < |nodes| && paths[nodes[u].child[i].node] == paths[u] + [nodes[u].child[i].name]
  }

  ghost predicate HasParent(nodes: seq<Node>, paths: seq<seq<Text>>, j: nat)
    requires |paths| == |nodes| && j < |nodes|
  {
    exists u, i :: 0 <= u < j && 0 <= i < |nodes[u].child| && nodes[u].child[i].node == j
  }

  lemma {:induction false} WalkIsSound(nodes: seq<Node>, paths: seq<seq<Text>>, path: seq<Text>)
    requires LinksLead(nodes, paths)
    ensures WalkTo(nodes, path).Some? ==>
              WalkTo(nodes, path).value < |nodes| && paths[WalkTo(nodes, path).value] == path
    decreases |path|
  {
    if path != [] && WalkTo(nodes, path).Some? {
      var front := path[..|path| - 1];
      WalkIsSound(nodes, paths, front);
      var u := WalkTo(nodes, front).value;
      var i :| 0 <= i < |nodes[u].child| && nodes[u].child[i] == Link(path[|path| - 1], WalkTo(nodes, path).value);
      assert LinkLeads(nodes, paths, u, i);
      assert path == front + [path[|path| - 1]];
    }
  }

  lemma {:induction false} WalkFinds(nodes: seq<Node>, paths: seq<seq<Text>>, j: nat)
    requires Leads(nodes, paths) && j < |nodes|
    ensures WalkTo(nodes, paths[j]) == Some(j)
    decreases j
  {
    if j > 0 {
      assert HasParent(nodes, paths, j);
      var u, i :| 0 <= u < j && 0 <= i < |nodes[u].child| && nodes[u].child[i].node == j;
      assert LinkLeads(nodes, paths, u, i);
      WalkFinds(nodes, paths, u);
      var name := nodes[u].child[i].name;
      WalkOne(nodes, paths[u], name);
      WalkIsSound(nodes, paths, paths[j]);
    }
  }

  /** A path leads to the node whose path it is, and to nothing else. */
  lemma WalkIff(nodes: seq<Node>, paths: seq<seq<Text>>, path: seq<Text>, j: nat)
    requires Leads(nodes, paths) && j < |nodes|
    ensures WalkTo(nodes, path) == Some(j) <==> path == paths[j]
  {
    WalkIsSound(nodes, paths, path);
    WalkFinds(nodes, paths, j);
  }

  lemma AddedLeads(nodes: seq<Node>, paths: seq<seq<Text>>, e: Entry)
    requires Leads(nodes, paths) && AddEntry(nodes, e).Some? && Segments(e.path) !in paths
    ensures Leads(AddEntry(nodes, e).value, paths + [Segments(e.path)])
    ensures |AddEntry(nodes, e).value| == |nodes| + 1
  {
    hide Segments, LinkLeads, HasParent;
    var segments := Segments(e.path);
    var front, name := segments[..|segments| - 1], segments[|segments| - 1];
    WalkIsSound(nodes, paths, front);
    var u := WalkTo(nodes, front).value;
    assert segments == front + [name];
    AddedNodeLeads(nodes, paths, u, name, e);
  }

  lemma AddedLinksLead(nodes: seq<Node>, paths: seq<seq<Text>>, u: nat, name: Text, e: Entry)
    requires LinksLead(nodes, paths) && u < |nodes|
    ensures LinksLead(Added(nodes, u, name, e), paths + [paths[u] + [name]])
  {
    var now, longer := Added(nodes, u, name, e), paths + [paths[u] + [name]];
    forall v, i | 0 <= v < |now| && 0 <= i < |now[v].child| ensures LinkLeads(now, longer, v, i) {
      if v < |nodes| && !(v == u && i == 0) {
        assert LinkLeads(nodes, paths, v, if v == u then i - 1 else i);
      }
    }
  }

  lemma AddedNodeLeads(nodes: seq<Node>, paths: seq<seq<Text>>, u: nat, name: Text, e: Entry)
    requires Leads(nodes, paths) && u < |nodes| && paths[u] + [name] !in paths
    ensures Leads(Added(nodes, u, name, e), paths + [paths[u] + [name]])
  {
    var now, longer := Added(nodes, u, name, e), paths + [paths[u] + [name]];
    AddedLinksLead(nodes, paths, u, name, e);
    forall j | 1 <= j < |now| ensures HasParent(now, longer, j) {
      AddedHasParent(nodes, paths, u, name, e, j);
    }
  }

  lemma AddedHasParent(nodes: seq<Node>, paths: seq<seq<Text>>, u: nat, name: Text, e: Entry, j: nat)
    requires |paths| == |nodes| && u < |nodes| && j <= |nodes| && (j < |nodes| ==> HasParent(nodes, paths, j))
    ensures HasParent(Added(nodes, u, name, e), paths + [paths[u] + [name]], j)
  {
    var now := Added(nodes, u, name, e);
    if j == |nodes| {
      assert now[u].child[0].node == j;
    } else {
      var v, i :| 0 <= v < j && 0 <= i < |nodes[v].child| && nodes[v].child[i].node == j;
      assert now[v].child[if v == u then i + 1 else i].node == j;
    }
  }

  function PathsOf(entries: seq<Entry>): seq<seq<Text>> {
    if entries == [] then [] else [Segments(entries[0].path)] + PathsOf(entries[1..])
  }

  /** All entries have a node each, in order, behind the nodes that were there. */
  lemma {:induction false} BuildLeads(nodes: seq<Node>, paths: seq<seq<Text>>, entries: seq<Entry>)
    requires Leads(nodes, paths) && Build(nodes, entries).Some?
    requires forall j, k :: 0 <= j < k < |entries| ==> Segments(entries[j].path) != Segments(entries[k].path)
    requires forall k :: 0 <= k < |entries| ==> Segments(entries[k].path) !in paths
    ensures Leads(Build(nodes, entries).value, paths + PathsOf(entries))
    ensures |Build(nodes, entries).value| == |nodes| + |entries| && |PathsOf(entries)| == |entries|
    decreases |entries|
  {
    hide Leads, Segments, AddEntry;
    if entries == [] {
      assert paths + PathsOf(entries) == paths;
    } else {
      AddedLeads(nodes, paths, entries[0]);
      var more := AddEntry(nodes, entries[0]).value;
      BuildLeads(more, paths + [Segments(entries[0].path)], entries[1..]);
      assert paths + [Segments(entries[0].path)] + PathsOf(entries[1..]) == paths + PathsOf(entries);
    }
  }

  lemma {:induction false} PathsOfAt(entries: seq<Entry>, k: nat)
    requires k < |entries|
    ensures |PathsOf(entries)| == |entries| && PathsOf(entries)[k] == Segments(entries[k].path)
  {
    if k > 0 {
      PathsOfAt(entries[1..], k - 1);
    } else if |entries| > 1 {
      PathsOfAt(entries[1..], 0);
    }
  }

  /** A node with the data of an entry. */
  predicate SameData(n: Node, size: nat, offset: nat, directory: bool) {
    n.size == size && n.offset == offset && n.directory == directory
  }

  lemma AddingKeepsData(nodes: seq<Node>, e: Entry)
    requires AddEntry(nodes, e).Some?
    ensures var more := AddEntry(nodes, e).value;
            && |more| == |nodes| + 1 && SameData(more[|nodes|], e.size, e.offset, e.directory)
            && forall j :: 0 <= j < |nodes| ==>
                 SameData(more[j], nodes[j].size, nodes[j].offset, nodes[j].directory)
  {
    hide Segments, WalkTo;
  }

  /** Adding changes no size, offset or kind. */
  lemma {:induction false} BuildKeepsData(nodes: seq<Node>, entries: seq<Entry>, j: nat)
    requires Build(nodes, entries).Some? && j < |nodes| + |entries|
    ensures |Build(nodes, entries).value| == |nodes| + |entries|
    ensures var now := Build(nodes, entries).value;
            if j < |nodes| then SameData(now[j], nodes[j].size, nodes[j].offset, nodes[j].directory)
            else var e := entries[j - |nodes|]; SameData(now[j], e.size, e.offset, e.directory)
    decreases |entries|
  {
    hide AddEntry;
    if entries != [] {
      var more := AddEntry(nodes, entries[0]);
      AddingKeepsData(nodes, entries[0]);
      BuildKeepsData(more.value, entries[1..], j);
      assert Build(nodes, entries) == Build(more.value, entries[1..]);
      assert j > |nodes| ==> entries[1..][j - |nodes| - 1] == entries[j - |nodes|];
    }
  }

  const ROOT_NODE: Node := Node(0, 0, true, [])

  lemma RootLeads()
    ensures Leads([ROOT_NODE], [[]])
  {
  }
}
