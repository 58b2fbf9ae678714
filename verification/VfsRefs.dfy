/** Who refers to the vnodes of the file-system tree (kernel/src/vfs/vfs.c, tmpfs.c), and the
    counts that have to say so. */
module VfsRefs {
  import opened Basics

  /** vfs_link_t: an allocation of its own, in the child list of one directory. */
  datatype Link = Link(id: nat, name: string, vnode: nat)

  /** vfs_vnode_t; the child list is a sequence of links, newest first. */
  datatype Vnode = Vnode(refcount: int, child: seq<Link>, mount: Option<nat>, driver: Option<nat>)

  type Vnodes = map<nat, Vnode>

  /** What can hold a reference to a vnode: a link, the mount field of a vnode, an open file,
      and the root field of a file system. */
  datatype Holder = ByLink(link: nat) | ByMount(mountpoint: nat) | ByFile(file: nat) | ByRoot(fs: nat)

  type Holders = map<Holder, nat>

  // ----- counting

  function Held(holders: Holders, v: nat): set<Holder> {
    set h | h in holders && holders[h] == v
  }

  function Count(holders: Holders, v: nat): nat {
    |Held(holders, v)|
  }

  lemma CountAfterAdding(holders: Holders, h: Holder, v: nat, w: nat)
    requires h !in holders
    ensures Count(holders[h := v], w) == Count(holders, w) + if w == v then 1 else 0
  {
    var after := holders[h := v];
    if w == v {
      assert Held(after, w) == Held(holders, w) + {h};
    } else {
      assert Held(after, w) == Held(holders, w);
    }
  }

  lemma CountAfterRemoving(holders: Holders, h: Holder, w: nat)
    requires h in holders
    ensures Count(holders, w) == Count(holders - {h}, w) + if w == holders[h] then 1 else 0
  {
    var after := holders - {h};
    if w == holders[h] {
      assert Held(holders, w) == Held(after, w) + {h};
    } else {
      assert Held(holders, w) == Held(after, w);
    }
  }

  lemma NotHeld(holders: Holders, v: nat)
    ensures Count(holders, v) == 0 <==> forall h :: h in holders ==> holders[h] != v
  {
    assert Count(holders, v) == 0 <==> Held(holders, v) == {};
    if Held(holders, v) == {} {
      forall h | h in holders ensures holders[h] != v {
        assert h !in Held(holders, v);
      }
    }
  }

  /** The vnodes of a driver. */
  function VnodesOf(vnodes: Vnodes, d: nat): set<nat> {
    set v | v in vnodes && vnodes[v].driver == Some(d)
  }

  // ----- the invariant

  /** The vnode of vfs_init: no driver, no count, and nothing refers to it but vfs_root. */
  const ROOT: nat := 0

  /** Every holder's vnode exists, and is not one of those that nothing may hold. */
  ghost predicate Targets(vnodes: Vnodes, holders: Holders, unheld: set<nat>) {
    forall h :: h in holders ==> holders[h] in vnodes && holders[h] !in unheld
  }

  ghost predicate CountExact(vnodes: Vnodes, holders: Holders, unheld: set<nat>, surplus: Option<nat>, v: nat)
    requires v in vnodes
  {
    && vnodes[v].refcount == Count(holders, v) + (if surplus == Some(v) then 1 else 0)
    && (v !in unheld ==> vnodes[v].refcount > 0)
  }

  /** The count of a vnode is the number of its holders; a holder of the surplus vnode has
      let go without telling it yet. */
  ghost predicate Counted(vnodes: Vnodes, holders: Holders, unheld: set<nat>, surplus: Option<nat>) {
    forall v :: v in vnodes ==> CountExact(vnodes, holders, unheld, surplus, v)
  }

  ghost predicate IsHeldLink(vnodes: Vnodes, holders: Holders, v: nat, i: nat)
    requires v in vnodes && i < |vnodes[v].child|
  {
    && ByLink(vnodes[v].child[i].id) in holders && holders[ByLink(vnodes[v].child[i].id)] == vnodes[v].child[i].vnode
    && vnodes[v].child[i].vnode in vnodes && vnodes[vnodes[v].child[i].vnode].driver == vnodes[v].driver
  }

  /** Every link in a child list holds its vnode, which has the driver of the directory. */
  ghost predicate Listed(vnodes: Vnodes, holders: Holders, unheld: set<nat>) {
    forall v, i :: v in vnodes && v !in unheld && 0 <= i < |vnodes[v].child| ==> IsHeldLink(vnodes, holders, v, i)
  }

  ghost predicate SameLink(vnodes: Vnodes, u: nat, i: nat, v: nat, j: nat)
    requires u in vnodes && i < |vnodes[u].child| && v in vnodes && j < |vnodes[v].child|
  {
    vnodes[u].child[i].id == vnodes[v].child[j].id
  }

  /** A link is in one list, once. */
  ghost predicate OneList(vnodes: Vnodes) {
    forall u, i, v, j ::
      (u in vnodes && v in vnodes && 0 <= i < |vnodes[u].child| && 0 <= j < |vnodes[v].child| &&
       SameLink(vnodes, u, i, v, j)) ==> u == v && i == j
  }

  /** A holding link is in the list of an existing vnode. */
  ghost predicate HasDirectory(vnodes: Vnodes, link: nat) {
    exists v, i :: v in vnodes && 0 <= i < |vnodes[v].child| && vnodes[v].child[i].id == link
  }

  ghost predicate Rooted(vnodes: Vnodes, holders: Holders) {
    forall h :: h in holders && h.ByLink? ==> HasDirectory(vnodes, h.link)
  }

  /** The mount fields of existing vnodes hold what they name; a loose one has just let go. */
  ghost predicate Mounted(vnodes: Vnodes, holders: Holders, loose: set<nat>) {
    forall v :: v in vnodes ==>
      if vnodes[v].mount == None || v in loose then ByMount(v) !in holders
      else ByMount(v) in holders && holders[ByMount(v)] == vnodes[v].mount.value
  }

  /** Open files and file systems hold their vnodes. */
  ghost predicate Opened(files: map<nat, nat>, roots: map<nat, nat>, holders: Holders) {
    && (forall f :: ByFile(f) in holders <==> f in files)
    && (forall f :: f in files ==> holders[ByFile(f)] == files[f])
    && (forall d :: ByRoot(d) in holders <==> d in roots)
    && (forall d :: d in roots ==> holders[ByRoot(d)] == roots[d])
  }

  ghost predicate DriverExact(vnodes: Vnodes, drivers: map<nat, int>, owned: set<nat>, d: nat)
    requires d in drivers
  {
    drivers[d] == |VnodesOf(vnodes, d)| + (if d in owned then 1 else 0) && drivers[d] > 0
  }

  /** The count of a driver is the number of its vnodes, and one for the file system. */
  ghost predicate Driven(vnodes: Vnodes, drivers: map<nat, int>, owned: set<nat>) {
    && (forall d :: d in drivers ==> DriverExact(vnodes, drivers, owned, d))
    && (forall d :: d in owned ==> d in drivers)
    && (forall v :: v in vnodes && v != ROOT ==> vnodes[v].driver.Some? && vnodes[v].driver.value in drivers)
    && (forall v :: v in vnodes && v == ROOT ==> vnodes[v].driver == None && vnodes[v].child == [])
  }

  datatype State = State(vnodes: Vnodes, drivers: map<nat, int>, files: map<nat, nat>, roots: map<nat, nat>,
                         owned: set<nat>, holders: Holders)

  /** unheld: the root, and vnodes being released; surplus: see Counted; loose: vnodes whose
      mount has just let go. */
  ghost predicate Inv(s: State, unheld: set<nat>, surplus: Option<nat>, loose: set<nat>) {
    && ROOT in unheld
    && Targets(s.vnodes, s.holders, unheld) && Counted(s.vnodes, s.holders, unheld, surplus)
    && Listed(s.vnodes, s.holders, unheld) && OneList(s.vnodes) && Rooted(s.vnodes, s.holders)
    && Mounted(s.vnodes, s.holders, loose) && Opened(s.files, s.roots, s.holders)
    && Driven(s.vnodes, s.drivers, s.owned)
  }

  // ----- what a release leaves alone

  /** The same vnodes with other counts. */
  ghost predicate OnlyCounts(was: Vnodes, now: Vnodes) {
    forall v :: v in now ==>
      v in was && now[v].child == was[v].child && now[v].mount == was[v].mount && now[v].driver == was[v].driver
  }

  ghost predicate Fewer(was: Holders, now: Holders) {
    forall h :: h in now ==> h in was && now[h] == was[h]
  }

  /** Only links in the lists of other vnodes than the unheld have let go. */
  ghost predicate OnlyLinks(vnodes: Vnodes, was: Holders, now: Holders, unheld: set<nat>) {
    forall g :: g in was && g !in now ==> g.ByLink? && InLists(vnodes, g.link, unheld)
  }

  ghost predicate InLists(vnodes: Vnodes, link: nat, unheld: set<nat>) {
    exists v, i :: v in vnodes && v !in unheld && 0 <= i < |vnodes[v].child| && vnodes[v].child[i].id == link
  }

  /** Vnodes of other drivers, and the unheld, are as they were. */
  ghost predicate OthersStay(was: Vnodes, now: Vnodes, unheld: set<nat>, driver: Option<nat>) {
    forall v :: v in was && (v in unheld || was[v].driver != driver) ==> v in now && now[v] == was[v]
  }

  /** A release from one state to another. */
  ghost predicate Released(was: State, now: State, unheld: set<nat>, driver: Option<nat>) {
    && OnlyCounts(was.vnodes, now.vnodes) && Fewer(was.holders, now.holders)
    && OnlyLinks(was.vnodes, was.holders, now.holders, unheld)
    && OthersStay(was.vnodes, now.vnodes, unheld, driver)
    && now.files == was.files && now.roots == was.roots && now.owned == was.owned
    && now.drivers.Keys <= was.drivers.Keys
  }

  // ----- steps of vfs_unref

  function Lowered(s: State, v: nat): State
    requires v in s.vnodes
  {
    s.(vnodes := s.vnodes[v := s.vnodes[v].(refcount := s.vnodes[v].refcount - 1)])
  }

  lemma LoweredKeepsLists(s: State, v: nat, unheld: set<nat>)
    requires v in s.vnodes && Listed(s.vnodes, s.holders, unheld) && OneList(s.vnodes) && Rooted(s.vnodes, s.holders)
    ensures var now := Lowered(s, v).vnodes;
            Listed(now, s.holders, unheld) && OneList(now) && Rooted(now, s.holders)
  {
    var now := Lowered(s, v).vnodes;
    forall u, i | u in now && u !in unheld && 0 <= i < |now[u].child| ensures IsHeldLink(now, s.holders, u, i) {
      assert IsHeldLink(s.vnodes, s.holders, u, i);
    }
    forall u, i, w, j | u in now && w in now && 0 <= i < |now[u].child| && 0 <= j < |now[w].child| &&
             SameLink(now, u, i, w, j)
      ensures u == w && i == j
    {
      assert SameLink(s.vnodes, u, i, w, j);
    }
    forall h | h in s.holders && h.ByLink? ensures HasDirectory(now, h.link) {
      assert HasDirectory(s.vnodes, h.link);
      var u, i :| u in s.vnodes && 0 <= i < |s.vnodes[u].child| && s.vnodes[u].child[i].id == h.link;
      assert now[u].child[i].id == h.link;
    }
  }

  lemma SameDrivers(s: State, v: nat)
    requires v in s.vnodes && Driven(s.vnodes, s.drivers, s.owned)
    ensures Driven(Lowered(s, v).vnodes, s.drivers, s.owned)
  {
    var now := Lowered(s, v).vnodes;
    forall d | d in s.drivers ensures DriverExact(now, s.drivers, s.owned, d) {
      assert DriverExact(s.vnodes, s.drivers, s.owned, d);
      assert VnodesOf(now, d) == VnodesOf(s.vnodes, d);
    }
  }

  /** The count goes down by one: exact again, unless it reaches zero. */
  lemma LoweredIsExact(s: State, v: nat, unheld: set<nat>, loose: set<nat>)
    requires Inv(s, unheld, Some(v), loose) && v in s.vnodes && v !in unheld
    ensures Lowered(s, v).vnodes[v].refcount > 0 ==> Inv(Lowered(s, v), unheld, None, loose)
    ensures Lowered(s, v).vnodes[v].refcount <= 0 ==> Inv(Lowered(s, v), unheld + {v}, None, loose)
  {
    hide Count, OneList, Rooted, Driven;
    LoweredKeepsLists(s, v, unheld);
    SameDrivers(s, v);
    var now := Lowered(s, v);
    assert CountExact(s.vnodes, s.holders, unheld, Some(v), v);
    var still := if now.vnodes[v].refcount > 0 then unheld else unheld + {v};
    NotHeld(s.holders, v);
    forall u | u in now.vnodes ensures CountExact(now.vnodes, s.holders, still, None, u) {
      assert CountExact(s.vnodes, s.holders, unheld, Some(v), u);
    }
    forall u, i | u in now.vnodes && u !in still && 0 <= i < |now.vnodes[u].child|
      ensures IsHeldLink(now.vnodes, s.holders, u, i)
    {
      assert u !in unheld;
    }
  }

  /** A link lets go: its vnode has a count too high by one. */
  lemma LinkLetsGo(s: State, link: Link, unheld: set<nat>, loose: set<nat>)
    requires Inv(s, unheld, None, loose)
    requires ByLink(link.id) in s.holders && s.holders[ByLink(link.id)] == link.vnode
    requires !InLists(s.vnodes, link.id, unheld)
    ensures link.vnode in s.vnodes && link.vnode !in unheld
    ensures Inv(s.(holders := s.holders - {ByLink(link.id)}), unheld, Some(link.vnode), loose)
  {
    hide Count, OneList, Driven, Listed, Counted, Rooted, Mounted, Opened;
    var h := ByLink(link.id);
    var now := s.holders - {h};
    ListedWithout(s, link.id, unheld);
    CountedWithout(s, h, unheld);
    RestWithout(s, link.id, loose);
  }

  lemma ListedWithout(s: State, link: nat, unheld: set<nat>)
    requires Listed(s.vnodes, s.holders, unheld) && !InLists(s.vnodes, link, unheld)
    ensures Listed(s.vnodes, s.holders - {ByLink(link)}, unheld)
  {
    forall u, i | u in s.vnodes && u !in unheld && 0 <= i < |s.vnodes[u].child|
      ensures IsHeldLink(s.vnodes, s.holders - {ByLink(link)}, u, i)
    {
      assert IsHeldLink(s.vnodes, s.holders, u, i);
    }
  }

  /** Whatever holder lets go, its vnode has the surplus. */
  lemma CountedWithout(s: State, h: Holder, unheld: set<nat>)
    requires Counted(s.vnodes, s.holders, unheld, None) && h in s.holders
    ensures Counted(s.vnodes, s.holders - {h}, unheld, Some(s.holders[h]))
  {
    hide Count;
    forall u | u in s.vnodes ensures CountExact(s.vnodes, s.holders - {h}, unheld, Some(s.holders[h]), u) {
      assert CountExact(s.vnodes, s.holders, unheld, None, u);
      CountAfterRemoving(s.holders, h, u);
    }
  }

  lemma RestWithout(s: State, link: nat, loose: set<nat>)
    requires Rooted(s.vnodes, s.holders) && Mounted(s.vnodes, s.holders, loose) && Opened(s.files, s.roots, s.holders)
    ensures var now := s.holders - {ByLink(link)};
            Rooted(s.vnodes, now) && Mounted(s.vnodes, now, loose) && Opened(s.files, s.roots, now)
  {
  }

  function Gone(s: State, v: nat): State {
    s.(vnodes := s.vnodes - {v})
  }

  /** vfs_driver_unref: a driver nothing counts any more is gone. */
  function WithoutOne(drivers: map<nat, int>, d: nat): map<nat, int>
    requires d in drivers
  {
    if drivers[d] > 1 then drivers[d := drivers[d] - 1] else drivers - {d}
  }

  /** A vnode whose links have all let go is freed; its driver has a count too high by one. */
  lemma VnodeGoes(s: State, v: nat, d: nat, unheld: set<nat>, loose: set<nat>)
    requires Inv(s, unheld + {v}, None, loose) && v in s.vnodes && v !in unheld && ROOT in unheld
    requires s.vnodes[v].driver == Some(d)
    requires forall i :: 0 <= i < |s.vnodes[v].child| ==> ByLink(s.vnodes[v].child[i].id) !in s.holders
    ensures d in s.drivers && s.drivers[d] > 0
    ensures Inv(Gone(s, v).(drivers := WithoutOne(s.drivers, d)),
                unheld, None, loose)
  {
    hide Count, Listed, Counted, Rooted, OneList, Mounted, Opened, Driven, DriverExact;
    DriverOf(s, v, d);
    CountedWithoutVnode(s, v, unheld);
    ListedWithoutVnode(s, v, unheld);
    OneListWithoutVnode(s.vnodes, v);
    RootedWithoutVnode(s, v);
    MountedWithoutVnode(s, v, loose);
    DriverLetsGo(s, v, d, WithoutOne(s.drivers, d));
  }

  lemma DriverOf(s: State, v: nat, d: nat)
    requires Driven(s.vnodes, s.drivers, s.owned) && v in s.vnodes && s.vnodes[v].driver == Some(d)
    ensures v != ROOT && d in s.drivers && s.drivers[d] > 0
  {
    assert d in s.drivers && DriverExact(s.vnodes, s.drivers, s.owned, d);
  }

  lemma CountedWithoutVnode(s: State, v: nat, unheld: set<nat>)
    requires Counted(s.vnodes, s.holders, unheld + {v}, None)
    ensures Counted(s.vnodes - {v}, s.holders, unheld, None)
  {
    hide Count;
    forall u | u in s.vnodes - {v} ensures CountExact(s.vnodes - {v}, s.holders, unheld, None, u) {
      assert CountExact(s.vnodes, s.holders, unheld + {v}, None, u);
    }
  }

  lemma ListedWithoutVnode(s: State, v: nat, unheld: set<nat>)
    requires Listed(s.vnodes, s.holders, unheld + {v}) && Targets(s.vnodes, s.holders, unheld + {v})
    ensures Listed(s.vnodes - {v}, s.holders, unheld)
  {
    var now := s.vnodes - {v};
    forall u, i | u in now && u !in unheld && 0 <= i < |now[u].child| ensures IsHeldLink(now, s.holders, u, i) {
      assert IsHeldLink(s.vnodes, s.holders, u, i);
    }
  }

  lemma OneListWithoutVnode(vnodes: Vnodes, v: nat)
    requires OneList(vnodes)
    ensures OneList(vnodes - {v})
  {
    var now := vnodes - {v};
    forall u, i, w, j | u in now && w in now && 0 <= i < |now[u].child| && 0 <= j < |now[w].child| &&
             SameLink(now, u, i, w, j)
      ensures u == w && i == j
    {
      assert SameLink(vnodes, u, i, w, j);
    }
  }

  lemma RootedWithoutVnode(s: State, v: nat)
    requires Rooted(s.vnodes, s.holders) && v in s.vnodes
    requires forall i :: 0 <= i < |s.vnodes[v].child| ==> ByLink(s.vnodes[v].child[i].id) !in s.holders
    ensures Rooted(s.vnodes - {v}, s.holders)
  {
    forall h | h in s.holders && h.ByLink? ensures HasDirectory(s.vnodes - {v}, h.link) {
      assert HasDirectory(s.vnodes, h.link);
      var u, i :| u in s.vnodes && 0 <= i < |s.vnodes[u].child| && s.vnodes[u].child[i].id == h.link;
      assert (s.vnodes - {v})[u].child[i].id == h.link;
    }
  }

  lemma MountedWithoutVnode(s: State, v: nat, loose: set<nat>)
    requires Mounted(s.vnodes, s.holders, loose)
    ensures Mounted(s.vnodes - {v}, s.holders, loose)
  {
  }

  lemma MembersCount(s: set<nat>, x: nat)
    requires x in s
    ensures |s| > 0
  {
  }

  lemma DriverLetsGo(s: State, v: nat, d: nat, drivers: map<nat, int>)
    requires Driven(s.vnodes, s.drivers, s.owned) && v in s.vnodes && v != ROOT && s.vnodes[v].driver == Some(d)
    requires d in s.drivers
    requires drivers == WithoutOne(s.drivers, d)
    ensures Driven(s.vnodes - {v}, drivers, s.owned)
  {
    var now := s.vnodes - {v};
    assert DriverExact(s.vnodes, s.drivers, s.owned, d);
    assert VnodesOf(s.vnodes, d) == VnodesOf(now, d) + {v};
    forall e | e in drivers ensures DriverExact(now, drivers, s.owned, e) {
      assert DriverExact(s.vnodes, s.drivers, s.owned, e);
      if e != d {
        assert VnodesOf(now, e) == VnodesOf(s.vnodes, e);
      }
    }
    forall u | u in now && u != ROOT ensures now[u].driver.Some? && now[u].driver.value in drivers {
      if now[u].driver == Some(d) {
        MembersCount(VnodesOf(now, d), u);
      }
    }
  }

  // ----- how releases add up

  lemma ReleasedNothing(s: State, v: nat, unheld: set<nat>)
    requires v in s.vnodes && v !in unheld
    ensures Released(s, Lowered(s, v), unheld, s.vnodes[v].driver)
  {
  }

  lemma InSameLists(a: Vnodes, b: Vnodes, link: nat, unheld: set<nat>, big: set<nat>)
    requires OnlyCounts(a, b) && unheld <= big && InLists(b, link, big)
    ensures InLists(a, link, unheld)
  {
    var v, i :| v in b && v !in big && 0 <= i < |b[v].child| && b[v].child[i].id == link;
    assert a[v].child[i].id == link;
  }

  lemma ReleasedThen(a: State, b: State, c: State, unheld: set<nat>, big: set<nat>, driver: Option<nat>)
    requires Released(a, b, unheld, driver) && Released(b, c, big, driver) && unheld <= big
    ensures Released(a, c, unheld, driver)
  {
    forall g | g in a.holders && g !in c.holders ensures g.ByLink? && InLists(a.vnodes, g.link, unheld) {
      if g in b.holders {
        InSameLists(a.vnodes, b.vnodes, g.link, unheld, big);
      }
    }
  }

  lemma ReleasedLink(a: State, b: State, v: nat, i: nat, unheld: set<nat>, driver: Option<nat>)
    requires Released(a, b, unheld, driver) && v in a.vnodes && v !in unheld && i < |a.vnodes[v].child|
    ensures Released(a, b.(holders := b.holders - {ByLink(a.vnodes[v].child[i].id)}), unheld, driver)
  {
    assert InLists(a.vnodes, a.vnodes[v].child[i].id, unheld);
  }

  lemma ReleasedVnode(a: State, b: State, v: nat, drivers: map<nat, int>, unheld: set<nat>, driver: Option<nat>)
    requires Released(a, b, unheld, driver) && v in a.vnodes && v !in unheld && a.vnodes[v].driver == driver
    requires drivers.Keys <= b.drivers.Keys
    ensures Released(a, Gone(b, v).(drivers := drivers), unheld, driver)
  {
  }

  /** The links of a vnode from place i on still hold what they did. */
  ghost predicate LinksLeft(s: State, v: nat, links: seq<Link>, from: nat, driver: Option<nat>) {
    && v in s.vnodes && s.vnodes[v].child == links && s.vnodes[v].driver == driver
    && (forall j :: from <= j < |links| ==>
          && ByLink(links[j].id) in s.holders && s.holders[ByLink(links[j].id)] == links[j].vnode
          && links[j].vnode in s.vnodes && s.vnodes[links[j].vnode].driver == driver)
    && (forall j :: 0 <= j < from && j < |links| ==> ByLink(links[j].id) !in s.holders)
  }

  lemma LinksAtFirst(s: State, v: nat, unheld: set<nat>)
    requires v in s.vnodes && v !in unheld && Listed(s.vnodes, s.holders, unheld)
    ensures LinksLeft(Lowered(s, v), v, s.vnodes[v].child, 0, s.vnodes[v].driver)
  {
    var links, now := s.vnodes[v].child, Lowered(s, v);
    forall j | 0 <= j < |links|
      ensures ByLink(links[j].id) in s.holders && s.holders[ByLink(links[j].id)] == links[j].vnode
      ensures links[j].vnode in now.vnodes && now.vnodes[links[j].vnode].driver == s.vnodes[v].driver
    {
      assert IsHeldLink(s.vnodes, s.holders, v, j);
    }
  }

  /** The next link is in no other list, so it may let go. */
  lemma LinkIsAlone(s: State, v: nat, links: seq<Link>, i: nat, driver: Option<nat>, unheld: set<nat>)
    requires LinksLeft(s, v, links, i, driver) && OneList(s.vnodes) && v in unheld && i < |links|
    ensures !InLists(s.vnodes, links[i].id, unheld)
    ensures forall j :: 0 <= j < |links| && j != i ==> links[j].id != links[i].id
  {
    if InLists(s.vnodes, links[i].id, unheld) {
      var u, k :| u in s.vnodes && u !in unheld && 0 <= k < |s.vnodes[u].child| &&
            s.vnodes[u].child[k].id == links[i].id;
      assert SameLink(s.vnodes, u, k, v, i);
    }
    forall j | 0 <= j < |links| && j != i ensures links[j].id != links[i].id {
      assert SameLink(s.vnodes, v, j, v, i) ==> j == i;
    }
  }

  lemma LinksAfter(a: State, b: State, v: nat, links: seq<Link>, i: nat, driver: Option<nat>, unheld: set<nat>)
    requires LinksLeft(a, v, links, i, driver) && OneList(a.vnodes) && v in unheld && i < |links|
    requires Released(a.(holders := a.holders - {ByLink(links[i].id)}), b, unheld, driver)
    requires Targets(b.vnodes, b.holders, unheld)
    ensures LinksLeft(b, v, links, i + 1, driver)
  {
    LinkIsAlone(a, v, links, i, driver, unheld);
    forall j | i + 1 <= j < |links|
      ensures ByLink(links[j].id) in b.holders && b.holders[ByLink(links[j].id)] == links[j].vnode
      ensures links[j].vnode in b.vnodes && b.vnodes[links[j].vnode].driver == driver
    {
      LinkIsAloneAt(a, v, links, i, j, driver, unheld);
    }
  }

  lemma LinkIsAloneAt(s: State, v: nat, links: seq<Link>, i: nat, j: nat, driver: Option<nat>, unheld: set<nat>)
    requires LinksLeft(s, v, links, i, driver) && OneList(s.vnodes) && v in unheld && i <= j < |links|
    ensures !InLists(s.vnodes, links[j].id, unheld)
  {
    if InLists(s.vnodes, links[j].id, unheld) {
      var u, k :| u in s.vnodes && u !in unheld && 0 <= k < |s.vnodes[u].child| &&
            s.vnodes[u].child[k].id == links[j].id;
      assert SameLink(s.vnodes, u, k, v, j);
    }
  }
}
